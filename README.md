# Diagonal Sudoku solver and RNN text helpers, modelled in Dafny

This project models two pieces of a course repository.

The first is the diagonal Sudoku solver of `aind-sudoku/solution.py`. It covers these parts:
- The board topology. There are 81 boxes named `A1`..`I9`. There are 29 units: the rows, the columns, the 3x3 squares and the two diagonals. Each box has its units and its peers.
- `grid_values`, which reads the 81-character grid.
- The single update operation `assign_value` and the global log it appends to.
- The four constraint passes: `eliminate`, `only_choice`, `naked_twins` and `hidden_twins`.
- The fixed-point loop `reduce_puzzle`.
- The depth-first `search` over copies of the board, and `solve`.

The second is the text and series helpers of the character-level RNN in `aind-rnn/my_answers.py`: `cleaned_text`, `window_transform_text` and `window_transform_series`.

Files:
- `topology.dfy` (module `SudokuTopology`): `cross`, the literal tables, `boxes`, the unit lists, `units` and `peers`. It proves the sizes of these tables, their membership and their distinctness.
- `board.dfy` (module `SudokuBoard`): a board maps each box name to its set of candidate digits. This file models `grid_values` and defines what a solution is. It also defines:
  - a board admitting a solution
  - one board shrinking to another
  - the candidate total that makes `search` terminate
- `rules.dfy` (module `SudokuRules`): each pass is written as a pure fold over the same loops the source runs, in the same order. The file proves three things about the folds:
  - every pass only removes candidates;
  - every pass keeps exactly the solutions the board admitted;
  - what each pass does to the board.
  The file also holds `search`'s choice of box and the order in which it tries alternatives.
- `solver.dfy` (module `SudokuSolver`): the solver as the source runs it. The `values` dictionary is a `Grid` object that is changed in place. The `assignments` list is a `Trace` object whose log grows. Each pass is a method with loops, and each method is proved equal to its fold. `ReducePuzzle`, `Search` and `Solve` state the following in their contracts:
  - the fixed point leaves no solved box sharing its digit with a peer;
  - failure means the board admits no solution;
  - success returns a filled board that is a solution and that the input admits.
- `text.dfy` (module `RnnText`): cleaning a text, with its idempotence and its per-character behaviour. It also holds the text windows exactly as written, the windows as intended, and the series windows together with the series they rebuild.

## Model

| member | source | states |
|---|---|---|
| `SudokuTopology.LiteralChars` | aind-sudoku/solution.py:110-115 | `rows` is `A`..`I`, `cols` is `1`..`9`, and the three row bands and three column stacks are the consecutive thirds of them |
| `SudokuTopology.LiteralsDistinct` | aind-sudoku/solution.py:110-115 | no letter repeats in `rows`, `cols`, or any band or stack |
| `SudokuTopology.CrossLength` | aind-sudoku/solution.py:105-107 | `cross(A, B)` has `len(A) * len(B)` names |
| `SudokuTopology.CrossAt` | aind-sudoku/solution.py:105-107 | the name at position `i * len(B) + j` of `cross(A, B)` is `A[i] + B[j]` (row-major order) |
| `SudokuTopology.CrossMembers` | aind-sudoku/solution.py:105-107 | a string is in `cross(A, B)` iff it is two characters, the first from A and the second from B |
| `SudokuTopology.CrossDistinct` | aind-sudoku/solution.py:105-107 | the cross of two strings without repeats has no repeats |
| `SudokuTopology.BoxesAreCross` | aind-sudoku/solution.py:112 | the row-major enumeration of the 81 boxes is `cross(rows, cols)` |
| `SudokuTopology.CrossNine` | aind-sudoku/solution.py:105-107 | the cross of two 9-character strings has 81 names, and name `i` is `A[i / 9] + B[i % 9]` |
| `SudokuTopology.BoxesFacts` | aind-sudoku/solution.py:112 | `boxes` has 81 distinct names |
| `SudokuTopology.BoxAt` | aind-sudoku/solution.py:112 | box `9r + c` is row letter `r` followed by column digit `c` |
| `SudokuTopology.BoxNames` | aind-sudoku/solution.py:112 | a string is a box iff it is a row letter followed by a column digit |
| `SudokuTopology.CrossUnitShape` | aind-sudoku/solution.py:113-115 | a cross of row and column letters whose sizes multiply to 9 is a unit: 9 distinct boxes |
| `SudokuTopology.RowUnitsShape` | aind-sudoku/solution.py:113 | there are 9 row units, each made of 9 distinct boxes |
| `SudokuTopology.ColUnitsShape` | aind-sudoku/solution.py:114 | there are 9 column units, each made of 9 distinct boxes |
| `SudokuTopology.SquareUnitsShape` | aind-sudoku/solution.py:115 | there are 9 square units, each made of 9 distinct boxes |
| `SudokuTopology.DiagShape` | aind-sudoku/solution.py:116 | each diagonal (rows zipped with cols, or with cols reversed) is 9 distinct boxes |
| `SudokuTopology.DiagUnitsShape` | aind-sudoku/solution.py:116 | there are 2 diagonal units, each made of 9 distinct boxes |
| `SudokuTopology.UnitCount` | aind-sudoku/solution.py:117 | `unitlist` has 29 units |
| `SudokuTopology.UnitListFacts` | aind-sudoku/solution.py:113-117 | every unit of `unitlist` is 9 distinct boxes |
| `SudokuTopology.Filter` | aind-sudoku/solution.py:118 | a list comprehension with a condition keeps exactly the elements meeting it and is no longer than its input |
| `SudokuTopology.FilterHeadAt` | aind-sudoku/solution.py:218-219 | the first element kept comes after only elements that fail the condition |
| `SudokuTopology.FilterHead` | aind-sudoku/solution.py:218-219 | in a list without repeats, nothing before the first kept element meets the condition |
| `SudokuTopology.Units` | aind-sudoku/solution.py:118 | `units[s]` holds exactly the units of `unitlist` that contain s |
| `SudokuTopology.Peers` | aind-sudoku/solution.py:119 | `peers[s]` is every box sharing a unit with s, and never s itself |
| `SudokuBoard.BoxSetMembers` | aind-sudoku/solution.py:112 | the set of board keys is exactly the set of names in `boxes` |
| `SudokuBoard.BoxSetNames` | aind-sudoku/solution.py:112 | a key is a row letter followed by a column digit, and every such name is a key |
| `SudokuBoard.BoxSetSize` | aind-sudoku/solution.py:112 | there are 81 keys, and they are the elements of `boxes` |
| `SudokuBoard.GridValues` | aind-sudoku/solution.py:122-133 | the board has exactly the 81 boxes, and box i of the row-major order holds the candidates of character i of the grid |
| `SudokuBoard.AllDigitsCard` | aind-sudoku/solution.py:132 | `'123456789'` is all nine digits |
| `SudokuBoard.CharCandsInjective` | aind-sudoku/solution.py:132 | different grid characters give different candidates |
| `SudokuBoard.GridValuesInjective` | aind-sudoku/solution.py:122-133 | different grids give different boards, so nothing of the grid is lost |
| `SudokuBoard.GridAdmits` | aind-sudoku/solution.py:122-133 | the board read from a grid admits an assignment iff the assignment keeps every given digit of the grid |
| `SudokuBoard.AdmittedRespects` | aind-sudoku/solution.py:122-133 | an assignment the read board admits keeps the grid's given digits |
| `SudokuBoard.RespectedAdmitted` | aind-sudoku/solution.py:122-133 | an assignment keeping the grid's given digits is admitted by the read board |
| `SudokuBoard.GridBoxAdmits` | aind-sudoku/solution.py:132-133 | digit d is a candidate of box i iff character i is `.` or is d |
| `SudokuBoard.CharCandsHas` | aind-sudoku/solution.py:132 | digit d is among a character's candidates iff the character is `.` or is d |
| `SudokuBoard.ShrinksTrans` | aind-sudoku/solution.py:187-192 | candidate removal composes over the successive passes |
| `SudokuBoard.SolvedCountBound` | aind-sudoku/solution.py:188 | at most 81 boxes are solved, which bounds the rounds of `reduce_puzzle` |
| `SudokuBoard.SolvedGrows` | aind-sudoku/solution.py:188-194 | if only candidates were removed and no box is empty, then solved boxes stay solved; an unchanged count means the same boxes are solved |
| `SudokuBoard.CandidateTotalShrinks` | aind-sudoku/solution.py:207 | removing candidates does not raise the candidate total |
| `SudokuBoard.CandidateTotalUpdate` | aind-sudoku/solution.py:224 | replacing one box's candidates changes the total by the difference in size |
| `SudokuBoard.CandidateTotalSame` | aind-sudoku/solution.py:224 | boards that agree on the boxes counted have the same total |
| `SudokuBoard.TotalShrinks` | aind-sudoku/solution.py:207 | a reduced board keeps all 81 boxes and has no more candidates in all |
| `SudokuBoard.TotalDecreases` | aind-sudoku/solution.py:224-226 | fixing a box of two or more candidates to one digit strictly lowers the total, so the recursive search ends |
| `SudokuBoard.SolutionDiffers` | aind-sudoku/solution.py:117 | in a solved unit, two different boxes carry different digits |
| `SudokuBoard.FoundWider` | aind-sudoku/solution.py:207-215 | a solution found on a reduced board is a solution of the board before reduction |
| `SudokuBoard.FixedFound` | aind-sudoku/solution.py:224-232 | a solution found after fixing a box to one of its candidates is a solution of the board before the fix |
| `SudokuBoard.AdmitsWider` | aind-sudoku/solution.py:207-210 | what a reduced board admits, the original board admits |
| `SudokuBoard.AdmitsFix` | aind-sudoku/solution.py:224 | a solution with digit d at the chosen box is admitted by the board with that box set to d |
| `SudokuBoard.FixedBranchFails` | aind-sudoku/solution.py:224-229 | if a branch admits no solution, then no solution of the board has the branch's digit at the chosen box |
| `SudokuBoard.ExcludeOneMore` | aind-sudoku/solution.py:223-229 | a failed alternative joins the digits that no admitted solution uses at the chosen box |
| `SudokuBoard.FailedOneMore` | aind-sudoku/solution.py:223-229 | a failed alternative extends the run of alternatives that have all failed |
| `SudokuBoard.FailedExcluded` | aind-sudoku/solution.py:223-229 | when the copies of the first n alternatives all admit no solution, no admitted solution puts any of those digits at the chosen box |
| `SudokuBoard.AllBranchesFail` | aind-sudoku/solution.py:233-234 | once every candidate of the chosen box has failed, the board admits no solution |
| `SudokuBoard.EmptyAdmitsNothing` | aind-sudoku/solution.py:196-197 | a board with an empty box admits no complete assignment |
| `SudokuBoard.Value` | aind-sudoku/solution.py:213-215 | a board whose boxes all hold one candidate reads as the assignment it admits |
| `SudokuBoard.SettledBoardIsSolution` | aind-sudoku/solution.py:213-215 | a filled board in which no solved box shares its digit with a peer is a solution |
| `SudokuBoard.SolutionSolvesUnits` | aind-sudoku/solution.py:117 | a solution fills every unit with nine different digits, each digit 1..9 once |
| `SudokuBoard.SolvedUnitAt` | aind-sudoku/solution.py:117 | unit n of `unitlist` has no repeated box and is solved by every solution |
| `SudokuBoard.UnitCovers` | aind-sudoku/solution.py:117 | every digit appears in every unit of a solution |
| `SudokuRules.RemoveFromStep` | aind-sudoku/solution.py:158-159 | removing a solved digit from one more peer is one `assign_value` on that peer |
| `SudokuRules.EliminateShrinks` | aind-sudoku/solution.py:156-160 | each later state of the `eliminate` loop has only fewer candidates than an earlier one |
| `SudokuRules.EliminateBoxShrinks` | aind-sudoku/solution.py:157-159 | clearing a solved box's digit from its peers only removes candidates |
| `SudokuRules.PeersDiffer` | aind-sudoku/solution.py:119 | a solution gives a box and any of its peers different digits |
| `SudokuRules.EliminateBoxKeeps` | aind-sudoku/solution.py:157-159 | clearing a solved box's digit from its peers keeps every admitted solution |
| `SudokuRules.EliminateKeeps` | aind-sudoku/solution.py:156-160 | every prefix of `eliminate` keeps every admitted solution |
| `SudokuRules.EliminateClears` | aind-sudoku/solution.py:156-160 | once `eliminate` has visited a solved box, none of that box's peers holds its digit for the rest of the loop |
| `SudokuRules.HoldersMembers` | aind-sudoku/solution.py:170-174 | the boxes counted for digit v are exactly the unit's boxes that still allow v |
| `SudokuRules.HoldersDistinct` | aind-sudoku/solution.py:170-174 | a unit without repeats counts each holder once |
| `SudokuRules.HoldersStep` | aind-sudoku/solution.py:171-174 | one more box of the unit adds itself to the holders iff it allows v |
| `SudokuRules.OnlyChoiceUpToStep` | aind-sudoku/solution.py:168-176 | `only_choice` handles the units one after another in `unitlist` order |
| `SudokuRules.OnlyChoiceDigitShrinks` | aind-sudoku/solution.py:175-176 | setting a sole holder to its digit only removes candidates |
| `SudokuRules.OnlyChoiceDigitsShrinks` | aind-sudoku/solution.py:169-176 | the digits of one unit only remove candidates |
| `SudokuRules.OnlyChoiceShrinks` | aind-sudoku/solution.py:168-177 | `only_choice` only removes candidates |
| `SudokuRules.OnlyChoiceDigitKeeps` | aind-sudoku/solution.py:170-176 | if a box is the only place in a unit for digit v, every admitted solution puts v there |
| `SudokuRules.OnlyChoiceDigitsKeeps` | aind-sudoku/solution.py:169-176 | the nine digits of one unit keep every admitted solution |
| `SudokuRules.OnlyChoiceKeeps` | aind-sudoku/solution.py:168-177 | `only_choice` keeps every admitted solution |
| `SudokuRules.OnlyChoiceDigitEffect` | aind-sudoku/solution.py:170-176 | exactly the sole holder of v in the unit becomes `{v}`, and no other box changes |
| `SudokuRules.TwinsMembers` | aind-sudoku/solution.py:74 | the twin list holds exactly the unit's boxes with two candidates (with two or more for hidden twins, line 33) |
| `SudokuRules.TwinsDistinct` | aind-sudoku/solution.py:74 | a unit without repeats gives a twin list without repeats |
| `SudokuRules.ClearOthersEffect` | aind-sudoku/solution.py:90-102 | the peer loop removes the twin digits from every other box of the unit and leaves the twins and boxes outside the unit alone |
| `SudokuRules.ClearOthersStep` | aind-sudoku/solution.py:90-102 | one more peer of the unit is one removal, skipping the two twins |
| `SudokuRules.OthersStep` | aind-sudoku/solution.py:47-54 | one more peer of the unit adds its candidates to what the pair's digits are differenced against, skipping the pair |
| `SudokuRules.OthersMembers` | aind-sudoku/solution.py:47-54 | a digit is removed from the pair's sets iff some other box of the unit allows it |
| `SudokuRules.PairStepShrinks` | aind-sudoku/solution.py:79-102 | one pair of either twin rule only removes candidates |
| `SudokuRules.PairStepKeys` | aind-sudoku/solution.py:79-102 | one pair of either twin rule keeps the board's boxes |
| `SudokuRules.PairRowStep` | aind-sudoku/solution.py:80-83 | the inner pair loop takes `j` from `i + 1` upwards, one pair at a time |
| `SudokuRules.PairRowShrinks` | aind-sudoku/solution.py:80-102 | the inner pair loop only removes candidates |
| `SudokuRules.PairRowsStep` | aind-sudoku/solution.py:79-83 | the outer pair loop takes `i` upwards, running the whole inner loop each time |
| `SudokuRules.PairRowsShrinks` | aind-sudoku/solution.py:79-102 | the two pair loops only remove candidates |
| `SudokuRules.TwinsUpToStep` | aind-sudoku/solution.py:72-77 | the twin rules handle the units one after another in `unitlist` order |
| `SudokuRules.UnitTwinsShrinks` | aind-sudoku/solution.py:72-102 | one unit of a twin rule only removes candidates |
| `SudokuRules.TwinsShrinks` | aind-sudoku/solution.py:72-103 | `naked_twins` and `hidden_twins` only remove candidates |
| `SudokuRules.PassShrinks` | aind-sudoku/solution.py:189-192 | each pass of a round, and the whole round, only removes candidates |
| `SudokuRules.NakedPairKeeps` | aind-sudoku/solution.py:85-102 | when two boxes of a unit hold the same two digits, no admitted solution uses those digits in the unit's other boxes |
| `SudokuRules.HiddenDigitPlace` | aind-sudoku/solution.py:47-55 | a digit that no other box of the unit allows goes in one of the pair in every admitted solution |
| `SudokuRules.HiddenPairKeeps` | aind-sudoku/solution.py:44-59 | narrowing hidden twins to their two private digits keeps every admitted solution |
| `SudokuRules.PairStepKeeps` | aind-sudoku/solution.py:79-102 | one pair of either twin rule keeps every admitted solution |
| `SudokuRules.PairRowKeeps` | aind-sudoku/solution.py:80-102 | the inner pair loop keeps every admitted solution |
| `SudokuRules.PairRowsKeeps` | aind-sudoku/solution.py:79-102 | the two pair loops keep every admitted solution |
| `SudokuRules.UnitTwinsKeeps` | aind-sudoku/solution.py:72-102 | one unit of a twin rule keeps every admitted solution |
| `SudokuRules.TwinsKeeps` | aind-sudoku/solution.py:72-103 | `naked_twins` and `hidden_twins` keep every admitted solution |
| `SudokuRules.PassKeepsSolutions` | aind-sudoku/solution.py:189-192 | a round of `reduce_puzzle` admits a solution iff the board before it did |
| `SudokuRules.NakedPairEffect` | aind-sudoku/solution.py:85-102 | naked twins leave every other box of the unit without the twin digits, and change nothing else |
| `SudokuRules.HiddenPairEffect` | aind-sudoku/solution.py:44-59 | when the pair's two remainders (their candidates minus those of the unit's other boxes) are the same two digits, both boxes become exactly those digits, and otherwise nothing changes; only the pair ever changes, and a change leaves both boxes the same two digits, drawn from both and held by no other box of the unit |
| `SudokuRules.StalledPassSettles` | aind-sudoku/solution.py:186-194 | when a round solves no new box and empties none, no solved box shares its digit with a peer |
| `SudokuRules.ReduceSpec` | aind-sudoku/solution.py:179-198 | the `reduce_puzzle` fold only removes candidates and keeps exactly the admitted solutions; it fails iff it leaves a box empty, and otherwise no solved box shares its digit with a peer |
| `SudokuRules.EmptiedBoardFails` | aind-sudoku/solution.py:196-197 | a reduction that empties a box and keeps the same solutions shows that the start board has no solution |
| `SudokuRules.FilledBoardFound` | aind-sudoku/solution.py:212-215 | a reduced board with nothing unfilled, no empty box and no clash with a peer is a solution of the start board |
| `SudokuRules.NakedPairAsWrittenAgrees` | aind-sudoku/solution.py:94-99 | the pair step exactly as written agrees with the corrected one except when both twins are empty; when it finishes, it gives the same board |
| `SudokuRules.NakedTwinsFourBoxes` | aind-sudoku/solution.py:96-99 | four boxes of a unit sharing two candidates: the first pair empties the other two, and that pair then raises IndexError as written |
| `SudokuRules.Open` | aind-sudoku/solution.py:212 | the kept boxes are exactly the listed ones with more than one candidate |
| `SudokuRules.Unfilled` | aind-sudoku/solution.py:212 | `unfilled` is exactly the boxes with more than one candidate |
| `SudokuRules.OfSize` | aind-sudoku/solution.py:218 | the kept boxes are exactly the unfilled ones with m candidates |
| `SudokuRules.OfSizeFilter` | aind-sudoku/solution.py:218 | the list of boxes of a given size is the filter of the boxes by that condition |
| `SudokuRules.OfSizeHead` | aind-sudoku/solution.py:218-219 | a size some unfilled box has gives a non-empty list, and no earlier box in `boxes` has that size |
| `SudokuRules.MinSize` | aind-sudoku/solution.py:217 | `min_size` is the size of some listed box and no listed box is smaller |
| `SudokuRules.Minima` | aind-sudoku/solution.py:218 | `minima` is non-empty, holds exactly the unfilled boxes of the least size, and starts with the first of them in `boxes` order |
| `SudokuRules.ChooseBoxSpec` | aind-sudoku/solution.py:217-219 | `chosen` has two or more candidates and the fewest of any unfilled box; every earlier unfilled box in `boxes` has strictly more |
| `SudokuRules.DigitsFromMembers` | aind-sudoku/solution.py:223 | the digits listed from d onwards are exactly the candidates not below d |
| `SudokuRules.DigitsFromSorted` | aind-sudoku/solution.py:223 | those digits are listed in increasing order |
| `SudokuRules.AscendingMembers` | aind-sudoku/solution.py:223 | the alternatives tried are exactly the chosen box's candidates |
| `SudokuRules.AscendingAt` | aind-sudoku/solution.py:223 | each alternative tried is a candidate of the chosen box |
| `SudokuRules.AscendingSorted` | aind-sudoku/solution.py:223 | the alternatives are tried in increasing digit order, as the digit string lists them |
| `SudokuSolver.Grid.constructor` | aind-sudoku/solution.py:222 | a fresh dictionary holding a copy of the board |
| `SudokuSolver.Trace.constructor` | aind-sudoku/solution.py:3 | the assignment log starts empty |
| `SudokuSolver.ExtendsTrans` | aind-sudoku/solution.py:17 | a log that only gets appended to keeps its earlier entries across any number of calls |
| `SudokuSolver.AssignValue` | aind-sudoku/solution.py:5-18 | the box takes the value. An equal value changes nothing and logs nothing. Otherwise a snapshot of the new board is appended iff the value is a single digit |
| `SudokuSolver.Eliminate` | aind-sudoku/solution.py:150-160 | the board after the in-place loop is the `eliminate` fold of the board before |
| `SudokuSolver.EliminateBox` | aind-sudoku/solution.py:157-159 | one box of the loop: a solved box's digit is removed from its peers |
| `SudokuSolver.RemoveDigit` | aind-sudoku/solution.py:158-159 | the peer loop removes the digit from exactly the given peers, whatever order it takes them in |
| `SudokuSolver.OnlyChoice` | aind-sudoku/solution.py:162-177 | the board after the in-place loop is the `only_choice` fold of the board before |
| `SudokuSolver.OnlyChoiceUnit` | aind-sudoku/solution.py:169-176 | the nine digits of one unit, in order, as the fold states them |
| `SudokuSolver.OnlyChoiceDigit` | aind-sudoku/solution.py:170-176 | one digit: the sole holder, if any, is set to it |
| `SudokuSolver.CountHolders` | aind-sudoku/solution.py:170-174 | the counter ends at the number of boxes allowing v, and `k` is the last of them |
| `SudokuSolver.NakedTwins` | aind-sudoku/solution.py:62-103 | the board after the in-place loops is the `naked_twins` fold of the board before |
| `SudokuSolver.HiddenTwins` | aind-sudoku/solution.py:20-60 | the board after the in-place loops is the `hidden_twins` fold of the board before |
| `SudokuSolver.TwinsPass` | aind-sudoku/solution.py:72-103 | the unit loop shared by both twin rules equals their fold over `unitlist` |
| `SudokuSolver.TwinsUnit` | aind-sudoku/solution.py:72-102 | one unit: the twin list is taken once at the start and all pairs are visited |
| `SudokuSolver.TwinsRow` | aind-sudoku/solution.py:80-102 | the inner pair loop for one `i` |
| `SudokuSolver.TwinsPairStep` | aind-sudoku/solution.py:81-102 | one pair under the chosen twin rule |
| `SudokuSolver.NakedPair` | aind-sudoku/solution.py:85-102 | the peer loop of naked twins, with the corrected skip |
| `SudokuSolver.HiddenPair` | aind-sudoku/solution.py:41-59 | the peer loop of hidden twins and the two assignments that follow it |
| `SudokuSolver.PairRemainders` | aind-sudoku/solution.py:44-54 | v and w end as the pair's candidates minus those of every other box of the unit |
| `SudokuSolver.ReducePuzzle` | aind-sudoku/solution.py:179-198 | the board left in place and the returned flag are those of the `Reduce` fold: rounds until one solves no new box, failing on the first round that empties a box. Only candidates are removed, exactly the same solutions are admitted, failure is reported iff some box is empty, and on success no solved box shares its digit with a peer |
| `SudokuSolver.Search` | aind-sudoku/solution.py:200-234 | the input board is left as `reduce_puzzle` leaves it; a returned board is filled, is a solution, and is admitted by the input; failure means the input admits no solution |
| `SudokuSolver.Branch` | aind-sudoku/solution.py:217-234 | the chosen box's candidates are tried in increasing order and the first copy that is solved gives the result: every earlier alternative's copy admits no solution. When all fail, the reduced board has no solution |
| `SudokuSolver.TryAlternative` | aind-sudoku/solution.py:223-232 | one alternative on a fresh copy: a solution found solves the copy with `alt` at the chosen box, and so the reduced board; otherwise that copy admits no solution |
| `SudokuSolver.Solve` | aind-sudoku/solution.py:236-246 | a returned board is a solution keeping every given digit of the grid; failure means no solution keeps them |
| `RnnText.CleanChar` | aind-rnn/my_answers.py:42 | a character is kept, lowercased, iff it matches `[A-Za-z ]` or is punctuation; otherwise it becomes nothing |
| `RnnText.CleanedText` | aind-rnn/my_answers.py:40-43 | the cleaned text is no longer than the input and holds only lowercase letters and the listed punctuation |
| `RnnText.CleanedAppend` | aind-rnn/my_answers.py:42-43 | cleaning distributes over concatenation |
| `RnnText.CleanedSnoc` | aind-rnn/my_answers.py:42-43 | one more character adds its lowercase form if kept, and nothing otherwise |
| `RnnText.CleanedFixed` | aind-rnn/my_answers.py:40-43 | a text is unchanged by cleaning iff it already holds only allowed characters |
| `RnnText.CleanedIdempotent` | aind-rnn/my_answers.py:40-43 | cleaning twice is cleaning once |
| `RnnText.CleanedKeepsAll` | aind-rnn/my_answers.py:40-43 | the cleaned text is as long as the input iff every character is kept |
| `RnnText.StridedPairs` | aind-rnn/my_answers.py:49-50 | pair k is the window at `k * step` and the character right after it |
| `RnnText.WindowTransformTextAsWritten` | aind-rnn/my_answers.py:46-52 | the code as written raises IndexError iff the step is 1 and the text is at least one window long; otherwise it returns `max(0, (1+len(text)-window_size)//step_size)` pairs, pair k being the window at `k * step_size` and the character after it |
| `RnnText.StepsBound` | aind-rnn/my_answers.py:48-50 | `steps * step_size` never exceeds `1 + len(text) - window_size`, and the last output index is out of range iff step 1 meets a text at least a window long |
| `RnnText.StartsInRange` | aind-rnn/my_answers.py:49-50 | if the last window's next character is in range, so is every earlier one |
| `RnnText.WindowCount` | aind-rnn/my_answers.py:46-52 | the intended number of windows: each has a following character, and one more would not |
| `RnnText.WindowTransformText` | aind-rnn/my_answers.py:46-52 | the intended windows: every window taken has a following character and no further window would |
| `RnnText.CountsCompare` | aind-rnn/my_answers.py:48 | for steps of two or more, the count as written is at most the intended count, and equal to it for step two |
| `RnnText.StridedPrefix` | aind-rnn/my_answers.py:49-50 | fewer strided pairs are a prefix of more |
| `RnnText.AsWrittenPrefix` | aind-rnn/my_answers.py:46-52 | for steps of two or more, the code as written raises nothing and gives a prefix of the intended pairs, all of them for step two |
| `RnnText.StepOneRaises` | aind-rnn/my_answers.py:48-50 | `"abcd"`, window 2, step 1 raises as written; the intended pairs are `ab→c` and `bc→d` |
| `RnnText.StepThreeDropsWindow` | aind-rnn/my_answers.py:48-50 | `"abcd"`, window 3, step 3 gives no pairs as written; the intended pair is `abc→d` |
| `RnnText.SeriesSlides` | aind-rnn/my_answers.py:15-16 | each window is the previous one shifted by one, taking in the previous target |
| `RnnText.TargetsAt` | aind-rnn/my_answers.py:16 | the targets from position `from` onwards are the series after the first window, from that offset |
| `RnnText.SeriesRebuilt` | aind-rnn/my_answers.py:15-16 | the first window followed by all targets is the whole series |
| `RnnText.TextStepOneIsSeries` | aind-rnn/my_answers.py:46-52 | with step 1 the intended text windows and outputs are the series windows and targets of the text |

## Left out

- Not modelled:
  - `display`, the `__main__` block and the pygame visualisation in `solution.py`;
  - the numpy conversion and reshaping in `window_transform_series`;
  - the Keras models `build_part1_RNN` and `build_part2_RNN`.
  These are I/O, drawing and library calls.
- A box's candidates are modelled as a set of digits, not as a string. These string-level effects are therefore absent:
  - `assign_value` comparing two strings that hold the same digits in a different order;
  - the order `''.join(v)` gives the hidden twins' digits;
  - `search` trying the alternatives in whatever order the string holds them.
  Alternatives are tried in increasing digit order. That is the order of every string built from `'123456789'`, but not necessarily of a string joined from a Python set.
- `SudokuRules.NakedPair`: naked twins compare the two boxes as sets, while `naked_twins` compares strings (`v == w`). `hidden_twins` writes `''.join(v)` in set order, so one box of a unit can hold `'74'` while another holds `'47'`. The source does not treat these two boxes as twins; the model does, and clears the two digits from the unit's other boxes. That clearing keeps every solution (`SudokuRules.NakedPairKeeps`), but it can remove candidates the source keeps.
- `peers[k]` is a Python set, and `eliminate` visits it in an unspecified order. `SudokuSolver.RemoveDigit` takes peers in an arbitrary order. The resulting board is the same for every order; only the order of the log entries differs.
- `SudokuBoard.GridValues` requires an 81-character grid of `.` and digits. The source silently zips shorter or longer strings and puts other characters into the board unchecked; neither is modelled.
- `SudokuSolver.Eliminate`, `SudokuSolver.EliminateBox`, `SudokuSolver.RemoveDigit`, `SudokuSolver.OnlyChoice`, `SudokuSolver.OnlyChoiceUnit`, `SudokuSolver.OnlyChoiceDigit`, `SudokuSolver.NakedTwins`, `SudokuSolver.HiddenTwins`, `SudokuSolver.TwinsPass`, `SudokuSolver.TwinsUnit`, `SudokuSolver.TwinsRow`, `SudokuSolver.TwinsPairStep`, `SudokuSolver.NakedPair`, `SudokuSolver.HiddenPair`, `SudokuSolver.ReducePuzzle`, `SudokuSolver.Search`, `SudokuSolver.Branch`, `SudokuSolver.TryAlternative` and `SudokuSolver.Solve` only state that the global `assignments` log grows. The exact snapshots they append are not stated; `SudokuSolver.AssignValue` states them for a single update.
- `SudokuSolver.Search`: states that a returned board is a solution the input admits. It does not say which solution the depth-first order reaches first. `SudokuSolver.Branch` states that order one level at a time: the first alternative whose copy is solved gives the result.
- `SudokuSolver.Solve`: the same as `Search`; the particular solution returned is not pinned down.
- `RnnText.WindowTransformText`: window and step are natural numbers, and the step is at least 1. A step of 0 (a `ZeroDivisionError`) and negative sizes are not modelled.
- Python's slice clamping in `window_transform_text` is not modelled separately. The as-written model only slices inside the text, and clamping never changes the outcome because an out-of-range output raises first.
- `search` returning `False` and `reduce_puzzle` returning `False` are modelled as `None` and as an `ok` flag, with the board changed in place as the source changes it.

## Findings

| source | as written | input that shows it | evidently intended | confidence | as-written member | corrected member |
|---|---|---|---|---|---|---|
| aind-sudoku/solution.py:96-99 | the skip tests `len(w) == 1`, so when both twins are empty, `v[0]` raises IndexError | a unit with four boxes holding the same two digits: the pair of the first two empties the other two, and the pair of those two then raises | skip twins that are not two digits long; an emptied box already makes `reduce_puzzle` fail | not executed | `SudokuRules.NakedPairAsWritten`, `SudokuRules.NakedTwinsFourBoxes` | `SudokuRules.NakedPair`, with `SudokuRules.NakedPairKeeps` and `SudokuRules.NakedPairAsWrittenAgrees` |
| aind-rnn/my_answers.py:48-50 | `steps = (1+len(text)-window_size)//step_size` counts one window too many for step 1, so `text[step*step_size+window_size]` is read one past the end | `window_transform_text("abcd", 2, 1)` | one window per start in `range(0, len(text) - window_size, step_size)`, each followed by a character | not executed | `RnnText.WindowTransformTextAsWritten`, `RnnText.StepOneRaises` | `RnnText.WindowTransformText`, with `RnnText.TextStepOneIsSeries` |
| aind-rnn/my_answers.py:48 | for steps of 3 or more, the same count can miss the last window that still has a following character | `window_transform_text("abcd", 3, 3)` gives no pairs | the pair `abc→d` | not executed | `RnnText.WindowTransformTextAsWritten`, `RnnText.StepThreeDropsWindow` | `RnnText.WindowTransformText`, with `RnnText.AsWrittenPrefix` |
