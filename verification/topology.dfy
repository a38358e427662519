/** The static Sudoku topology: the 81 squares, the 27 units and each square's peers.
    A square is its row-major position in the list of square names, so A1 is 0,
    A9 is 8, B1 is 9 and I9 is 80. */
module Topology {
  import opened Sequences

  /** A Sudoku digit. */
  type Digit = d: int | 1 <= d <= 9 witness 1

  /** A square, as its index in `SquareNames()`. */
  type Square = s: int | 0 <= s < 81

  /** A unit: nine squares that must hold each digit once. */
  type Unit = seq<Square>

  /** The row names. */
  const RowLetters: string := "ABCDEFGHI"
  /** The digit characters, which also name the columns. */
  const DigitChars: string := "123456789"

  /** The character of a digit. */
  function DigitChar(d: Digit): (c: char)
    ensures c in DigitChars
  {
    DigitChars[d - 1]
  }

  /** The digit a digit character stands for. */
  function DigitOf(c: char): (d: Digit)
    requires c in DigitChars
    ensures DigitChar(d) == c
  {
    if c == '1' then 1 else if c == '2' then 2 else if c == '3' then 3
    else if c == '4' then 4 else if c == '5' then 5 else if c == '6' then 6
    else if c == '7' then 7 else if c == '8' then 8 else 9
  }

  /** The row of a square, 0 for A to 8 for I (the quotient of `s` by 9). */
  function Row(s: Square): (r: int)
    ensures 0 <= r < 9 && 0 <= s - 9 * r < 9
  {
    if s < 9 then 0 else 1 + Row(s - 9)
  }

  /** The column of a square, 0 for 1 to 8 for 9. */
  function Col(s: Square): int { s - 9 * Row(s) }

  /** Which third of 0..8 a row or column index falls in (its quotient by 3). */
  function Band(x: int): int { if x < 3 then 0 else if x < 6 then 1 else 2 }

  /** Position of a row or column index within its third (its remainder by 3). */
  function Within(x: int): int { x - 3 * Band(x) }

  /** The box of a square, numbered row by row from 0 (A1..C3) to 8 (G7..I9). */
  function Box(s: Square): int { 3 * Band(Row(s)) + Band(Col(s)) }

  /** The square in row `r` and column `c` (both counted from 0). */
  function At(r: int, c: int): (s: Square)
    requires 0 <= r < 9 && 0 <= c < 9
    ensures Row(s) == r && Col(s) == c
  {
    RowOf(r, c);
    9 * r + c
  }

  lemma {:induction false} RowOf(r: int, c: int)
    requires 0 <= r < 9 && 0 <= c < 9
    ensures Row(9 * r + c) == r
  {
    if r > 0 {
      RowOf(r - 1, c);
    }
  }

  lemma AtRowCol(s: Square)
    ensures 0 <= Row(s) < 9 && 0 <= Col(s) < 9 && 0 <= Box(s) < 9
    ensures s == 9 * Row(s) + Col(s)
  {
  }

  /** The names of the squares: every row letter followed by every column digit. */
  function SquareNames(): seq<string>
  {
    Flatten(seq(9, r requires 0 <= r < 9 =>
      seq(9, c requires 0 <= c < 9 => [RowLetters[r], DigitChars[c]])))
  }

  lemma SquareNameAt(s: Square)
    ensures |SquareNames()| == 81
    ensures SquareNames()[s] == [RowLetters[Row(s)], DigitChars[Col(s)]]
  {
    var rows := seq(9, r requires 0 <= r < 9 =>
      seq(9, c requires 0 <= c < 9 => [RowLetters[r], DigitChars[c]]));
    AtRowCol(s);
    FlattenIndex(rows, 9, Row(s), Col(s));
  }

  /** Square names are listed row by row, so index `s` names row `Row(s)` and column `Col(s)`;
      in particular no name occurs twice. */
  lemma SquareNamesRowMajor()
    ensures |SquareNames()| == 81
    ensures forall s: Square :: SquareNames()[s] == [RowLetters[Row(s)], DigitChars[Col(s)]]
    ensures Distinct(SquareNames())
  {
    SquareNameAt(0);
    forall s: Square
      ensures SquareNames()[s] == [RowLetters[Row(s)], DigitChars[Col(s)]]
    {
      SquareNameAt(s);
    }
    forall i, j | 0 <= i < j < 81
      ensures SquareNames()[i] != SquareNames()[j]
    {
      SquareNamesDiffer(i, j);
    }
  }

  lemma SquareNamesDiffer(i: Square, j: Square)
    requires i != j
    ensures |SquareNames()| == 81 && SquareNames()[i] != SquareNames()[j]
  {
    SquareNameAt(i);
    SquareNameAt(j);
    AtRowCol(i);
    AtRowCol(j);
    LabelsDistinct();
    if Row(i) != Row(j) {
      assert RowLetters[Row(i)] != RowLetters[Row(j)];
    } else {
      assert Col(i) != Col(j);
      assert DigitChars[Col(i)] != DigitChars[Col(j)];
    }
  }

  lemma LabelsDistinct()
    ensures Distinct(RowLetters) && Distinct(DigitChars)
  {
  }

  function ColumnUnit(c: int): Unit
    requires 0 <= c < 9
  {
    seq(9, r requires 0 <= r < 9 => At(r, c))
  }

  function RowUnit(r: int): Unit
    requires 0 <= r < 9
  {
    seq(9, c requires 0 <= c < 9 => At(r, c))
  }

  /** Box `k` covers row band `Band(k)` and column stack `Within(k)`, listed row by row. */
  function BoxUnit(k: int): Unit
    requires 0 <= k < 9
  {
    seq(9, j requires 0 <= j < 9 => At(3 * Band(k) + Band(j), 3 * Within(k) + Within(j)))
  }

  function Columns(): seq<Unit> { seq(9, c requires 0 <= c < 9 => ColumnUnit(c)) }
  function Rows(): seq<Unit> { seq(9, r requires 0 <= r < 9 => RowUnit(r)) }
  function Boxes(): seq<Unit> { seq(9, k requires 0 <= k < 9 => BoxUnit(k)) }

  /** The 27 units: the 9 columns, then the 9 rows, then the 9 boxes. */
  function UnitList(): seq<Unit>
  {
    Columns() + Rows() + Boxes()
  }

  /** The units of `us` that contain `s`, in order. */
  function Containing(us: seq<Unit>, s: Square): (r: seq<Unit>)
    ensures forall u :: u in r <==> u in us && s in u
  {
    if us == [] then []
    else if s in us[0] then [us[0]] + Containing(us[1..], s)
    else Containing(us[1..], s)
  }

  /** The units a square belongs to. */
  function UnitsOf(s: Square): seq<Unit>
  {
    Containing(UnitList(), s)
  }

  /** The squares sharing a unit with `s`, other than `s` itself. */
  function Peers(s: Square): set<Square>
  {
    (set x | x in Flatten(UnitsOf(s))) - {s}
  }

  /** The order in which the propagation engine visits the peers of a square. */
  function PeerList(s: Square): (ps: seq<Square>)
    ensures forall x :: x in ps <==> x in Peers(s)
  {
    var xs := Ascending(Peers(s), 0, 81);
    assert forall i :: 0 <= i < |xs| ==> xs[i] in xs;
    xs
  }

  /** Two squares are peers exactly when they are different and share a unit of `UnitList`. */
  lemma PeersShareUnit(s: Square, t: Square)
    ensures t in Peers(s) <==> t != s && exists u :: u in UnitList() && s in u && t in u
  {
    FlattenMembers(UnitsOf(s));
  }
}

/** The counting facts of the topology: 27 units of 9 distinct squares, 3 units per square,
    20 peers per square. */
module TopologyFacts {
  import opened Sequences
  import opened Topology

  lemma InColumnUnit(c: int, s: Square)
    requires 0 <= c < 9
    ensures s in ColumnUnit(c) <==> Col(s) == c
  {
    if Col(s) == c {
      AtRowCol(s);
      assert ColumnUnit(c)[Row(s)] == s;
    }
  }

  lemma InRowUnit(r: int, s: Square)
    requires 0 <= r < 9
    ensures s in RowUnit(r) <==> Row(s) == r
  {
    if Row(s) == r {
      AtRowCol(s);
      assert RowUnit(r)[Col(s)] == s;
    }
  }

  lemma BandWithin(x: int)
    requires 0 <= x < 9
    ensures 0 <= Band(x) < 3 && 0 <= Within(x) < 3 && x == 3 * Band(x) + Within(x)
  {
  }

  lemma BandOf(x: int, y: int)
    requires 0 <= x < 3 && 0 <= y < 3
    ensures Band(3 * x + y) == x && Within(3 * x + y) == y
  {
  }

  lemma BoxUnitMember(k: int, j: int)
    requires 0 <= k < 9 && 0 <= j < 9
    ensures Box(BoxUnit(k)[j]) == k
  {
    var s := BoxUnit(k)[j];
    BandWithin(k);
    BandWithin(j);
    assert Row(s) == 3 * Band(k) + Band(j);
    assert Col(s) == 3 * Within(k) + Within(j);
    BandOf(Band(k), Band(j));
    BandOf(Within(k), Within(j));
    assert Band(Row(s)) == Band(k) && Band(Col(s)) == Within(k);
  }

  lemma InBoxUnit(k: int, s: Square)
    requires 0 <= k < 9
    ensures s in BoxUnit(k) <==> Box(s) == k
  {
    if s in BoxUnit(k) {
      var j :| 0 <= j < 9 && BoxUnit(k)[j] == s;
      BoxUnitMember(k, j);
    }
    if Box(s) == k {
      var j := BoxIndex(s);
      assert BoxUnit(k)[j] == s;
    }
  }

  /** The position of a square within its box. */
  lemma BoxIndex(s: Square) returns (j: int)
    ensures 0 <= j < 9 && BoxUnit(Box(s))[j] == s
  {
    var r, c := Row(s), Col(s);
    var k := Box(s);
    BandWithin(r);
    BandWithin(c);
    BandOf(Band(r), Band(c));
    j := 3 * Within(r) + Within(c);
    BandOf(Within(r), Within(c));
    assert Band(k) == Band(r) && Within(k) == Band(c);
    assert Band(j) == Within(r) && Within(j) == Within(c);
    assert BoxUnit(k)[j] == At(3 * Band(r) + Within(r), 3 * Band(c) + Within(c));
  }

  lemma BoxUnitDistinct(k: int)
    requires 0 <= k < 9
    ensures Distinct(BoxUnit(k))
  {
    var u := BoxUnit(k);
    BandWithin(k);
    forall i, j | 0 <= i < j < 9
      ensures u[i] != u[j]
    {
      BandWithin(i);
      BandWithin(j);
      assert Row(u[i]) == 3 * Band(k) + Band(i) && Col(u[i]) == 3 * Within(k) + Within(i);
      assert Row(u[j]) == 3 * Band(k) + Band(j) && Col(u[j]) == 3 * Within(k) + Within(j);
    }
  }

  /** Position `i` of the unit list: columns first, then rows, then boxes. */
  lemma UnitListAt(i: int)
    requires 0 <= i < 27
    ensures |UnitList()| == 27
    ensures i < 9 ==> UnitList()[i] == ColumnUnit(i)
    ensures 9 <= i < 18 ==> UnitList()[i] == RowUnit(i - 9)
    ensures 18 <= i ==> UnitList()[i] == BoxUnit(i - 18)
  {
    assert UnitList() == Columns() + Rows() + Boxes();
  }

  lemma UnitWellFormedAt(i: int)
    requires 0 <= i < 27
    ensures |UnitList()| == 27 && |UnitList()[i]| == 9 && Distinct(UnitList()[i])
  {
    UnitListAt(i);
    if i >= 18 {
      BoxUnitDistinct(i - 18);
    }
  }

  /** Every unit has 9 distinct squares. */
  lemma UnitWellFormed(u: Unit)
    requires u in UnitList()
    ensures |u| == 9 && Distinct(u)
  {
    UnitListAt(0);
    forall i | 0 <= i < 27
      ensures |UnitList()[i]| == 9 && Distinct(UnitList()[i])
    {
      UnitWellFormedAt(i);
    }
  }

  /** There are exactly 27 units, 9 columns, 9 rows and 9 boxes, each of 9 distinct squares. */
  lemma UnitListShape()
    ensures |UnitList()| == 27
    ensures forall k :: 0 <= k < 9 ==>
      UnitList()[k] == ColumnUnit(k) && UnitList()[9 + k] == RowUnit(k) && UnitList()[18 + k] == BoxUnit(k)
    ensures forall u :: u in UnitList() ==> |u| == 9 && Distinct(u)
  {
    UnitListAt(0);
    forall k | 0 <= k < 9
      ensures UnitList()[k] == ColumnUnit(k) && UnitList()[9 + k] == RowUnit(k) && UnitList()[18 + k] == BoxUnit(k)
    {
      UnitListAt(k);
      UnitListAt(9 + k);
      UnitListAt(18 + k);
    }
    forall u | u in UnitList()
      ensures |u| == 9 && Distinct(u)
    {
      UnitWellFormed(u);
    }
  }

  lemma {:induction false} ContainingConcat(a: seq<Unit>, b: seq<Unit>, s: Square)
    ensures Containing(a + b, s) == Containing(a, s) + Containing(b, s)
  {
    if a != [] {
      ContainingConcat(a[1..], b, s);
      assert (a + b)[0] == a[0];
      assert (a + b)[1..] == a[1..] + b;
      if s in a[0] {
        assert [a[0]] + (Containing(a[1..], s) + Containing(b, s))
          == ([a[0]] + Containing(a[1..], s)) + Containing(b, s);
      }
    } else {
      assert a + b == b;
    }
  }

  lemma {:induction false} ContainingNone(us: seq<Unit>, s: Square)
    requires forall i :: 0 <= i < |us| ==> s !in us[i]
    ensures Containing(us, s) == []
  {
    if us != [] {
      ContainingNone(us[1..], s);
    }
  }

  lemma {:induction false} ContainingOne(us: seq<Unit>, s: Square, k: nat)
    requires k < |us| && s in us[k]
    requires forall i :: 0 <= i < |us| && i != k ==> s !in us[i]
    ensures Containing(us, s) == [us[k]]
  {
    if k == 0 {
      ContainingNone(us[1..], s);
    } else {
      ContainingOne(us[1..], s, k - 1);
    }
  }

  lemma ColumnsContaining(s: Square)
    ensures Containing(Columns(), s) == [ColumnUnit(Col(s))]
  {
    AtRowCol(s);
    forall i | 0 <= i < 9
      ensures s in Columns()[i] <==> i == Col(s)
    {
      InColumnUnit(i, s);
    }
    ContainingOne(Columns(), s, Col(s));
  }

  lemma RowsContaining(s: Square)
    ensures Containing(Rows(), s) == [RowUnit(Row(s))]
  {
    AtRowCol(s);
    forall i | 0 <= i < 9
      ensures s in Rows()[i] <==> i == Row(s)
    {
      InRowUnit(i, s);
    }
    ContainingOne(Rows(), s, Row(s));
  }

  lemma BoxesContaining(s: Square)
    ensures Containing(Boxes(), s) == [BoxUnit(Box(s))]
  {
    AtRowCol(s);
    forall i | 0 <= i < 9
      ensures s in Boxes()[i] <==> i == Box(s)
    {
      InBoxUnit(i, s);
    }
    ContainingOne(Boxes(), s, Box(s));
  }

  /** Every square lies in exactly three units: its column, its row and its box, in that order. */
  lemma UnitsOfShape(s: Square)
    ensures UnitsOf(s) == [ColumnUnit(Col(s)), RowUnit(Row(s)), BoxUnit(Box(s))]
  {
    AtRowCol(s);
    ContainingConcat(Columns() + Rows(), Boxes(), s);
    ContainingConcat(Columns(), Rows(), s);
    ColumnsContaining(s);
    RowsContaining(s);
    BoxesContaining(s);
  }

  /** Two squares share a unit when they share a row, a column or a box. */
  predicate SharesUnit(s: Square, t: Square) {
    Row(s) == Row(t) || Col(s) == Col(t) || Box(s) == Box(t)
  }

  /** A square is in one of the units of `s` exactly when it shares a row, column or box with `s`. */
  lemma InUnitsOf(s: Square, t: Square)
    ensures (exists u :: u in UnitsOf(s) && t in u) <==> SharesUnit(s, t)
  {
    UnitsOfShape(s);
    var us := UnitsOf(s);
    InColumnUnit(Col(s), t);
    InRowUnit(Row(s), t);
    InBoxUnit(Box(s), t);
    if SharesUnit(s, t) {
      if Col(s) == Col(t) {
        assert us[0] in us && t in us[0];
      } else if Row(s) == Row(t) {
        assert us[1] in us && t in us[1];
      } else {
        assert us[2] in us && t in us[2];
      }
    }
  }

  lemma PeersCharacterized(s: Square, t: Square)
    ensures t in Peers(s) <==> t != s && SharesUnit(s, t)
  {
    FlattenMembers(UnitsOf(s));
    InUnitsOf(s, t);
  }

  function Half(k: int): int { if k < 2 then 0 else 1 }

  function Skip(a: int, j: int): int {
    if j < a then j else j + 1
  }

  /** Row and column of the `i`-th peer of the square in row `r`, column `c`: first the rest of
      its row, then the rest of its column, then the four squares of its box in neither. */
  function PeerRC(r: int, c: int, i: int): (int, int)
    requires 0 <= r < 9 && 0 <= c < 9 && 0 <= i < 20
  {
    if i < 8 then (r, Skip(c, i))
    else if i < 16 then (Skip(r, i - 8), c)
    else (3 * Band(r) + Skip(Within(r), Half(i - 16)),
          3 * Band(c) + Skip(Within(c), i - 16 - 2 * Half(i - 16)))
  }

  lemma PeerRCFacts(r: int, c: int, i: int)
    requires 0 <= r < 9 && 0 <= c < 9 && 0 <= i < 20
    ensures 0 <= PeerRC(r, c, i).0 < 9 && 0 <= PeerRC(r, c, i).1 < 9
    ensures PeerRC(r, c, i) != (r, c)
    ensures PeerRC(r, c, i).0 == r || PeerRC(r, c, i).1 == c
      || (Band(PeerRC(r, c, i).0) == Band(r) && Band(PeerRC(r, c, i).1) == Band(c))
  {
  }

  lemma PeerRCDistinct(r: int, c: int, i: int, j: int)
    requires 0 <= r < 9 && 0 <= c < 9 && 0 <= i < j < 20
    ensures PeerRC(r, c, i) != PeerRC(r, c, j)
  {
  }

  /** Every (row, column) pair sharing a row, column or box with `(r, c)` is listed by `PeerRC`. */
  lemma PeerRCCovers(r: int, c: int, a: int, b: int) returns (i: int)
    requires 0 <= r < 9 && 0 <= c < 9 && 0 <= a < 9 && 0 <= b < 9 && (a, b) != (r, c)
    requires a == r || b == c || (Band(a) == Band(r) && Band(b) == Band(c))
    ensures 0 <= i < 20 && PeerRC(r, c, i) == (a, b)
  {
    if a == r {
      i := if b < c then b else b - 1;
    } else if b == c {
      i := 8 + if a < r then a else a - 1;
    } else {
      i := PeerRCCoversBox(r, c, a, b);
    }
  }

  lemma PeerRCCoversBox(r: int, c: int, a: int, b: int) returns (i: int)
    requires 0 <= r < 9 && 0 <= c < 9 && 0 <= a < 9 && 0 <= b < 9 && a != r && b != c
    requires Band(a) == Band(r) && Band(b) == Band(c)
    ensures 0 <= i < 20 && PeerRC(r, c, i) == (a, b)
  {
    BandWithin(a);
    BandWithin(b);
    BandWithin(r);
    BandWithin(c);
    var kr := if Within(a) < Within(r) then Within(a) else Within(a) - 1;
    var kc := if Within(b) < Within(c) then Within(b) else Within(b) - 1;
    assert 0 <= kr < 2 && 0 <= kc < 2;
    i := 16 + 2 * kr + kc;
    assert Half(i - 16) == kr;
    assert Skip(Within(r), kr) == Within(a);
    assert Skip(Within(c), kc) == Within(b);
  }

  /** The peers of `s` written out in the order of `PeerRC`. */
  ghost function PeerSeq(s: Square): seq<Square>
  {
    var r, c := Row(s), Col(s);
    seq(20, i requires 0 <= i < 20 => At(PeerRC(r, c, i).0, PeerRC(r, c, i).1))
  }

  lemma PeerSeqDistinct(s: Square)
    ensures |PeerSeq(s)| == 20
    ensures Distinct(PeerSeq(s))
  {
    var p := PeerSeq(s);
    var r, c := Row(s), Col(s);
    forall i, j | 0 <= i < j < 20
      ensures p[i] != p[j]
    {
      PeerRCFacts(r, c, i);
      PeerRCFacts(r, c, j);
      PeerRCDistinct(r, c, i, j);
      assert Row(p[i]) == PeerRC(r, c, i).0 && Col(p[i]) == PeerRC(r, c, i).1;
      assert Row(p[j]) == PeerRC(r, c, j).0 && Col(p[j]) == PeerRC(r, c, j).1;
    }
  }

  lemma PeerSeqIn(s: Square, i: int)
    requires 0 <= i < 20
    ensures PeerSeq(s)[i] != s && SharesUnit(s, PeerSeq(s)[i])
  {
    var t := PeerSeq(s)[i];
    AtRowCol(s);
    AtRowCol(t);
    PeerRCFacts(Row(s), Col(s), i);
  }

  lemma PeerSeqHas(s: Square, t: Square)
    requires t != s && SharesUnit(s, t)
    ensures t in PeerSeq(s)
  {
    AtRowCol(s);
    AtRowCol(t);
    var i := PeerRCCovers(Row(s), Col(s), Row(t), Col(t));
    PeerRCFacts(Row(s), Col(s), i);
    assert PeerSeq(s)[i] == t;
  }

  lemma PeerSeqMembers(s: Square, t: Square)
    ensures t in PeerSeq(s) <==> t != s && SharesUnit(s, t)
  {
    forall i | 0 <= i < 20
      ensures PeerSeq(s)[i] != s && SharesUnit(s, PeerSeq(s)[i])
    {
      PeerSeqIn(s, i);
    }
    if t != s && SharesUnit(s, t) {
      PeerSeqHas(s, t);
    }
  }

  /** Every square has exactly 20 peers. */
  lemma PeersCount(s: Square)
    ensures |Peers(s)| == 20
    ensures |PeerList(s)| == 20
  {
    var p := PeerSeq(s);
    PeerSeqDistinct(s);
    DistinctCard(p);
    var ps := Elems(p);
    forall t: Square
      ensures t in ps <==> t in Peers(s)
    {
      PeerSeqMembers(s, t);
      PeersCharacterized(s, t);
    }
    assert ps == Peers(s);
    AscendingCard(Peers(s), 0, 81);
  }
}
