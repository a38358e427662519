/** Reading a puzzle string: `setBoard`. */
module Parse {
  import opened Wrappers
  import opened Topology

  /** Why a puzzle string has no solution grid: it is not 81 characters long, or its clues
      cannot all hold at once. */
  datatype SolveError = Malformed | Unsatisfiable

  /** The characters `setBoard` keeps: the digits and the two blank markers. */
  predicate Kept(c: char) {
    c in DigitChars || c in "0."
  }

  /** `setBoard`: position `i` of the string is square `i`; characters other than digits and
      the blank markers `0` and `.` are dropped. A string that is not 81 characters long fails
      the source's length assertion. */
  function SetBoard(str: string): (r: Result<map<Square, char>, SolveError>)
    ensures r.Success? <==> |str| == 81
    ensures r.Failure? ==> r.error == Malformed
    ensures r.Success? ==> forall s: Square :: (s in r.value <==> Kept(str[s]))
    ensures r.Success? ==> forall s :: s in r.value ==> r.value[s] == str[s]
  {
    if |str| != 81 then Failure(Malformed)
    else Success(map s: Square | Kept(str[s]) :: str[s])
  }

  /** Square `s` holds a digit clue in the map `setBoard` returns. */
  predicate IsClue(clues: map<Square, char>, s: Square) {
    s in clues && clues[s] in DigitChars
  }

  /** The digit of a clue. */
  function ClueDigit(clues: map<Square, char>, s: Square): Digit
    requires IsClue(clues, s)
  {
    DigitOf(clues[s])
  }
}
