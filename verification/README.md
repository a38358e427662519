# Sudoku solver by constraint propagation and search, in Dafny

This project models the solver of `sudo.py`. The solver has four parts:

- **Topology.** It has 81 squares named `A1`..`I9` and 27 units: 9 columns, 9 rows and 9 boxes. The units of each square and its peers are derived from these.
- **Parser.** `setBoard` reads an 81-character puzzle string into a map from squares to characters.
- **Propagation engine.** `assign` and `eliminate` are mutually recursive. They remove candidate digits and apply two rules:
  - The naked-single rule: a square left with one digit removes it from its peers.
  - The hidden-single rule: a digit with one place left in a unit is assigned there.
- **Search.** `dfs` branches on the first square with the fewest candidates above one. It tries that square's digits in ascending order. `solve`, `arrConvert` and `solutionArr` are the entry points.

Modelling choices:

- **Squares.** A square is its row-major index, so `A1` = 0, `A9` = 8, `B1` = 9 and `I9` = 80. `Topology.SquareNamesRowMajor` ties the indices to the source's names.
- **Candidates.** A candidate string is a `set<Digit>`. The source only ever shrinks `'123456789'` with `replace`, so its strings are always in ascending order. `Boards.Candidates` returns that order whenever the source loops over a string.
- **Boards.** A board is a sequence of 81 cells. The engine is made of pure functions returning `Option<Board>`: `None` stands for the source's `False`, and `Some(b)` for the board its in-place updates leave behind.
- **Loops as functions.** The loops inside `assign` and `eliminate` are the functions `EliminateEach`, `EliminateFromPeers` and `HiddenSingles`.
- **Termination.** It is proved with a lexicographic measure: the total candidate count, then the position of the function in the call chain, then the length of the list being walked.
- **Solutions.** `Invariants.ValidGrid` defines a solution as a grid of 81 digits in which every unit holds every digit and no two peers share a digit. `Invariants.Consistent(g, b)` says that board `b` still allows solution `g`.

The proofs cover three rule-by-rule lemma families, each following the engine's mutual recursion call for call:

- `NakedSingles`: single candidates are removed from the peers.
- `HiddenSingleRule`, in two halves. First, every removal leaves each unit of the square a place for the removed digit. Second, a digit left with one place in such a unit is the only candidate of that place.
- `Solutions`: propagation never discards a solution the board allows.

Together they make every board the engine produces satisfy `Invariants.Propagated`. Hence a solved board is a Sudoku solution, and `dfs` is sound and complete. The end-to-end results are in `SolverFacts`:

- `solve` succeeds on an 81-character puzzle exactly when the puzzle has a solution.
- What it returns keeps every clue.
- A puzzle with one solution is solved to that solution.
- A solved puzzle comes back unchanged.
- Any non-digit character counts as a blank.

`Pattern` exhibits a completed grid, and proves from it that an empty puzzle is solved.

`setBoard` silently drops characters other than digits, `0` and `.` (sudo.py:41-42) rather than rejecting them; the model follows the code, and `SolverFacts.NonDigitsAreBlanks` states the consequence.

## Model

| member | source | states |
|---|---|---|
| Topology.SquareNamesRowMajor | sudo.py:20-23 | there are 81 distinct square names; square `s` is named by the letter of its row and the digit of its column, row by row |
| TopologyFacts.UnitListShape | sudo.py:24-26 | there are 27 units, the 9 columns, then the 9 rows, then the 9 boxes, each of 9 distinct squares |
| TopologyFacts.UnitsOfShape | sudo.py:28-30 | every square lies in exactly three units: its column, its row and its box, in that order |
| TopologyFacts.PeersCharacterized | sudo.py:32-34 | `t` is a peer of `s` exactly when `t` differs from `s` and shares its row, column or box |
| TopologyFacts.PeersCount | sudo.py:32-34 | every square has exactly 20 peers |
| Sequences.FlattenMembers | sudo.py:17-18 | a value is in the concatenation of lists exactly when it is in one of them; this is how peers are collected from a square's units |
| Topology.PeerList | sudo.py:73 | the list the naked-single loop walks holds exactly the peers of the square |
| Parse.SetBoard | sudo.py:37-43 | succeeds exactly on strings of length 81; square `s` is kept exactly when its character is a digit, `0` or `.`, and then maps to that character |
| Boards.Candidates | sudo.py:58-59 | the digits of a candidate set, each once, in strictly ascending order: the order of the source's sorted candidate strings, which the loops at sudo.py:59 and sudo.py:117 visit |
| Propagation.Places | sudo.py:78 | the places of a digit in a unit are exactly the squares of the unit that can still hold it |
| Propagation.Assign | sudo.py:57-62 | a successful assign only removes candidates and never empties a cell, and it leaves a non-empty square holding exactly the digit; assigning a digit that is not a candidate of a non-empty square fails |
| Propagation.EliminateEach | sudo.py:58-61 | on success none of the eliminated digits is left in the square, and candidates only shrink |
| Propagation.Eliminate | sudo.py:64-84 | removing an absent digit returns the board unchanged; removing the last candidate fails; on success the digit is gone and candidates only shrink |
| Propagation.EliminateFromPeers | sudo.py:71-75 | on success the digit is gone from every listed square, and candidates only shrink |
| Propagation.HiddenSingles | sudo.py:77-83 | on success candidates only shrink and no cell is emptied |
| Invariants.FullBoardPropagated | sudo.py:49-51 | the starting board satisfies the propagation invariant; moreover no cell has a single candidate and no digit is confined to one place in a unit, so both rules are idle before the clues are assigned |
| NakedSingles.EliminateSettles | sudo.py:64-84 | after a successful eliminate, every changed square that has one candidate left no longer shares it with any peer |
| NakedSingles.AssignKeepsSinglesSettled | sudo.py:70-75 | a successful assign keeps every single candidate removed from all peers |
| HiddenSingleRule.EliminateCovers | sudo.py:76-83 | after a successful eliminate, every digit removed from a square still has a place in each unit of that square |
| HiddenSingleRule.HiddenSinglesCovers | sudo.py:77-83 | a successful hidden-single pass leaves every unit it walked a place for the digit |
| HiddenSingleRule.AssignKeepsUnitsCovered | sudo.py:57-84 | a successful assign keeps a place for every digit in every unit |
| HiddenSingleRule.EliminateResolves | sudo.py:76-83 | after a successful eliminate, whenever a digit removed from a square has a single place left in a unit of that square, the place holds that digit alone |
| HiddenSingleRule.HiddenSinglesResolves | sudo.py:77-83 | a successful hidden-single pass leaves, in every unit it walked, a digit with one place assigned to that place |
| HiddenSingleRule.EliminatePlacesHiddenSingle | sudo.py:81-82 | when eliminate removes `d` from `s` and succeeds, any unit of `s` where `d` has one place left has `d` as that square's only candidate |
| HiddenSingleRule.AssignKeepsHiddenSinglesPlaced | sudo.py:57-84 | a successful assign keeps every digit that has a single place in a unit assigned to that place |
| HiddenSingleRule.EliminateFailsWhenUnitEmptied | sudo.py:77-80 | removing a digit fails when a unit of the square has no other place for it |
| Solutions.EliminateKeepsSolution | sudo.py:64-84 | removing a digit that an allowed solution does not use there succeeds and keeps the solution allowed |
| Solutions.AssignKeepsSolution | sudo.py:57-62 | assigning the digit an allowed solution uses succeeds and keeps the solution allowed |
| Solutions.HiddenSinglesKeepsSolution | sudo.py:77-83 | the hidden-single pass never fails or discards an allowed solution |
| EngineFacts.AssignKeepsPropagated | sudo.py:57-84 | a successful assign keeps the propagation invariant and commits the square: no empty cell, a place for every digit in every unit, single candidates removed from all peers, and hidden singles assigned |
| EngineFacts.AssignAndSolutions | sudo.py:57-62 | an allowed solution survives an assign exactly when it puts that digit on that square |
| Invariants.SolvedPropagatedValid | sudo.py:70-83 | a solved board satisfies the propagation invariant exactly when its digits form a Sudoku solution |
| Search.Pick | sudo.py:109-116 | the scan returns the first square in row-major order whose candidate count is minimal among counts above one, or nothing when no count is above one |
| Search.BranchSquare | sudo.py:109-116 | on an unsolved board without empty cells, the branch square has the fewest candidates above one, and every earlier such square has strictly more |
| Search.Dfs | sudo.py:104-119 | a result is solved and only narrows the input; a solved input is returned unchanged; failure stays failure |
| Search.TryEach | sudo.py:117-119 | a result of the branch loop is solved and only narrows the board |
| SearchFacts.DfsKeepsPropagated | sudo.py:104-119 | search from a propagated board returns a propagated board |
| SearchFacts.DfsSound | sudo.py:104-119 | a board found by search spells a Sudoku solution that the input allows |
| SearchFacts.DfsFindsSolution | sudo.py:104-119 | search finds a board whenever the input allows some solution |
| SearchFacts.TryEachFailsIffAll | sudo.py:117-119 | the branch loop fails exactly when the search below every tried digit fails |
| SearchFacts.TryEachFirstSuccess | sudo.py:117-119 | the branch loop returns the search result of some digit, and every digit tried before it fails |
| SearchFacts.DfsBranchOrder | sudo.py:109-119 | on an unsolved board, search fails exactly when the search below every candidate of the branch square fails, and otherwise returns the search result of the least candidate whose search succeeds |
| SearchFacts.TryEachLeastAmong | sudo.py:117-119 | over any ascending list of candidates, the branch loop returns the search result of the least listed candidate whose search succeeds |
| SearchFacts.DfsFindsUniqueSolution | sudo.py:104-119 | when the input allows exactly one solution, search returns exactly that solution |
| Solver.AssignClues | sudo.py:52-54 | the clue loop either fails as unsatisfiable or returns a propagated board where every digit clue is the only candidate of its square |
| Solver.FillBoard | sudo.py:48-55 | fails as malformed exactly on strings not 81 long; otherwise a success is propagated and holds every clue |
| Solver.Solve | sudo.py:124-125 | fails as malformed exactly on strings not 81 long; a success is solved, propagated and keeps every clue |
| Solver.DecimalOfCell | sudo.py:100 | the integer a candidate string spells is a digit exactly when the square has one candidate, and is then that candidate |
| Solver.ArrConvert | sudo.py:96-102 | 81 integers in row-major order; entry `s` is a digit exactly when square `s` has one candidate, and is then that candidate |
| Solver.SolutionArr | sudo.py:121-122 | succeeds exactly when solve does, with the digits of the solved board in row-major order, and otherwise passes the failure on |
| SolverFacts.SolveSound | sudo.py:124-125 | a board returned by solve spells a Sudoku solution that keeps every clue |
| SolverFacts.SolveComplete | sudo.py:124-125 | solve succeeds whenever some solution keeps every clue |
| SolverFacts.SolveSucceedsIffSolvable | sudo.py:124-125 | on an 81-character puzzle, solve succeeds exactly when some solution keeps every clue |
| SolverFacts.ConflictingCluesUnsatisfiable | sudo.py:48-55 | two equal clues on peer squares make the puzzle unsatisfiable |
| SolverFacts.SolveFindsUniqueSolution | sudo.py:124-125 | a puzzle with exactly one solution is solved to that solution |
| SolverFacts.SolveIdempotent | sudo.py:124-125 | solving the string of a completed solution returns that solution unchanged |
| SolverFacts.SolutionArrIdempotent | sudo.py:121-122 | solutionArr of the string of a completed solution returns its digits |
| SolverFacts.SolutionArrSound | sudo.py:96-102 | the integers `solutionArr` returns follow the input's square order: each is a digit, every digit clue reappears at its own index, and no two peers share a digit |
| SolverFacts.NonDigitsAreBlanks | sudo.py:37-55 | replacing any non-digit character by `.` does not change the result of solve, so dropped characters act as blanks |
| Pattern.EmptyPuzzleSolved | sudo.py:124-125 | a puzzle of 81 blanks is solved |

## Left out

- `display`, `timedSolve`, `bulkSolve` and the command-line block (sudo.py:86-94, 127-159) are left out: they do console output, wall-clock timing and file reading.
- `sudoSolve.py` and `utilities.py` are not part of this model. They are the image pipeline: user interface, image warping and neural-network digit recognition.
- Topology.PeerList: the source loops over `peers[s]`, a Python set, whose iteration order depends on string hashing. The model fixes ascending square order. The theorems are proved for that order only; the result for other orders is not modelled.
- Search.Dfs: the source calls `dfs` a second time on a branch that succeeded (sudo.py:118-119). The search is deterministic, so the model calls it once and returns that result.
- Search.Dfs: the source fails with `False` on a failed input (sudo.py:106) and with `None` when every branch fails. Both are `None` here.
- Search.Dfs requires a board without empty cells. On an unsolved board with an empty cell and no cell above one candidate, the source would index the board with its placeholder `0` and raise `KeyError` (sudo.py:110, 117). `SearchFacts.DfsKeepsPropagated` and `Solver.FillBoard` show that the engine never hands such a board to the search.
- Solver.ArrConvert requires a board without empty cells, because `int('')` raises `ValueError` in the source. It is only applied to solved boards.
- Solver.SolutionArr: on an unsatisfiable or failed puzzle the source goes on to index the failure value and raises `TypeError` (sudo.py:100, 122). The model returns the failure instead.
- Parse.SetBoard: the length check is a Python `assert` (sudo.py:38), and running Python with `-O` disables it. The model always reports a wrong length as `Malformed`.
- Parse.SetBoard: the source's `b[i] in digits` is a substring test. It equals a character test for one-character strings, which is all it ever sees. Inputs that are not strings are not modelled.
- The `board.copy()` calls in `dfs` (sudo.py:118) need no counterpart, because boards are immutable values here.
