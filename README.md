# Seeded Sudoku generator and independent puzzle checker, in Dafny

This project models the two computational files of a browser Sudoku game.
The Dafny modules follow their structure.

**`sudoku-gen.js`, the seeded generator.**
- A `mulberry32` random-number generator (`Random`) drives a Fisher–Yates shuffle.
- `generateSolved` (`SolvedGrid`) builds a solved grid. It fills the three diagonal boxes with shuffled digits, then backtracks in row-major order.
- `generatePuzzle` (`Carver`) relabels the digits of that grid by a random permutation.
- `carveUniqueHuman` (`Carver`) then removes cells, in pairs under the chosen symmetry (`Tiers`). A removal is kept only if:
  - the clue count stays in the target's band;
  - the `countSolutions` oracle (`Uniqueness`) still finds exactly one solution;
  - the human-style solver `humanSolve` (`Human`, with the eliminations in `Eliminations`) still finishes the puzzle with the techniques the tier allows.

  A final repair pass re-adds solution digits until that gate passes.
- The board is serialised as an 81-character string (`Codec`).

**`puzzle-validator.js`, the independent checker.**
- `validatePuzzle`, `validateSudokuSolution` and `validatePartialSudoku` (`Validator`) build an itemised report. A flag `isValid` is false exactly when an error was recorded. Warnings never affect it.
- The file also contains a naive generator (`ValidatorGen`). It does a backtracking `fillGrid`, then a removal loop. That loop's "uniqueness" test is only the duplicate check of `validatePartialSudoku`.

**The common data model (`Grid`).**
- A board is a flat sequence (or array) of 81 integers in row-major order, with 0 for blank.
- Its 27 units are the rows (0–8), the columns (9–17) and the boxes (18–26). `Cell(u, k)` is the k-th cell of unit u, in the order the source scans it.
- The predicates are `ValidGrid` (no repeated clue in a unit), `Complete`, `Solved`, `SubGrid`, `Extends`, `IsSolutionOf` and `UniquelySolvedBy`.
- `Candidates` is the specification of `candidatesFor`.

**How the two files are tied together.** The checker's verdicts are proved to coincide with the generator's predicates:
- `validateSudokuSolution` is proved to accept exactly the grids for which `Solved` holds;
- `validatePartialSudoku` is proved to accept exactly the grids for which `ValidGrid` holds;
- `validatePuzzle` is proved to accept exactly the pairs for which `Sound` holds.

**How stateful code is modelled.**
- In-place updates of the source stay imperative: the shuffle, the backtracking fillers, the search, the carving loop and the deletion of candidates.
- Each such method is proved against a specification function or predicate.
- `humanSolve` is the specification function `Deduce`, and the method `HumanSolve` is proved equal to it.

**Non-termination of `humanSolve`.**
- `humanSolve` recomputes the candidates at the top of every pass (sudoku-gen.js:449).
- So a pass in which only eliminations fire starts the next pass in the same state, and the loop never ends.
- `Deduce` returns `None` in exactly that case.
- Callers that receive `None` (the carver, `generatePuzzle`) report it as a non-halting run (`halts == false`, or `None`).

**The hidden-pair rule.** It is modelled as the code writes it (sudoku-gen.js:344-375): once a digit v has exactly two positions in a unit, both cells are cut down to {v, w} for any w that they merely share.

## Model

| member | source | states |
|---|---|---|
| Codec.To81 | sudoku-gen.js:33 | the string is 81 digit characters; a character is '0' exactly where the cell is blank |
| Codec.From81 | sudoku-gen.js:34-38 | the result is an 81-cell board of values 0–9; a cell is 0 exactly when its character is missing or not '1'–'9' ('.', '0' and undefined read as blank) |
| Codec.From81To81 | sudoku-gen.js:33-38 | decoding the encoding of any board of values 0–9 gives that board back |
| Codec.To81From81 | sudoku-gen.js:33-38 | encoding the decoding of an 81-character string over '0'–'9' gives that string back |
| Random.SeedState | sudoku-gen.js:19-20 | the initial state is never 0; it is the seed taken as an unsigned 32-bit value, or 1 when that value is 0 |
| Random.ZeroSeedIsOne | sudoku-gen.js:20 | a seed whose unsigned 32-bit value is 0 starts the same stream as seed 1 |
| Random.Rng.constructor | sudoku-gen.js:19-20 | the generator's state is SeedState(seed); the stream is a function of the seed alone |
| Random.Rng.Next | sudoku-gen.js:21-25 | one draw: the state advances by the Weyl step with 32-bit wrap-around, and the output k below 2^32 is the mixing function of the new state (the draw k/2^32 lies in [0,1)) |
| Random.ScaleIndex | sudoku-gen.js:39 | floor(k/2^32 * n), computed on integers, is below n |
| Random.Rng.Below | sudoku-gen.js:39 | one draw scaled to an index j with j < n |
| Random.Shuffle | sudoku-gen.js:39 | the array becomes ShuffleBy of its old contents with the exact sequence of draws from the old state (ShuffleOf), its multiset is unchanged, and the generator has advanced one step per position above 0: n - 1 steps for n >= 2 elements, none otherwise |
| Random.ImulIsProduct | sudoku-gen.js:23-24 | the Math.imul of the model, written as repeated addition, is the product modulo 2^32 |
| Random.ProductIsMul | sudoku-gen.js:23-24 | b-fold addition of a equals a * b |
| Random.ShuffleByPermutes | sudoku-gen.js:39 | a Fisher–Yates pass with any draws j <= i preserves the multiset |
| Random.Draws | sudoku-gen.js:39 | the draw for position i is at most i (0 <= j <= i) |
| Random.SwapWithDraw | sudoku-gen.js:39 | one iteration: swap positions i and j, consume one draw, and leave the rest of the pass as specified |
| Random.Swap | sudoku-gen.js:39 | exchanges two elements and nothing else; the multiset is unchanged |
| Grid.CandidatesFor | sudoku-gen.js:61-92 | 81 sets; d is in the set of cell i iff cell i is blank, 1 <= d <= 9, and d occurs in no cell that shares a row, column or box with i (so a filled cell gets the empty set) |
| Grid.CandidateIff | sudoku-gen.js:61-92 | d is a candidate of i iff i is blank, d is a digit, and placing d clashes with none of i's three units |
| Grid.NoClashIffHouse | sudoku-gen.js:42-58 | no clash in i's row, column and box is the same as no equal value in any cell sharing a house with i |
| Grid.PlaceKeepsValid | sudoku-gen.js:42-58 | placing a non-clashing value in a valid grid leaves it valid |
| Grid.SubGridValid | sudoku-gen.js:42-58 | a puzzle whose clues agree with a valid grid is valid |
| Grid.SolutionValueIsCandidate | sudoku-gen.js:61-92 | in a blank cell, the value any solution puts there is among the cell's candidates |
| Grid.CompleteHasOnlyItself | sudoku-gen.js:59 | a complete grid has no solution other than itself |
| Grid.BlanksZeroIffComplete | sudoku-gen.js:59 | no blank cells iff every cell is filled |
| Grid.BlanksUpdate | sudoku-gen.js:246 | setting one cell changes the blank count by exactly the cell's change between blank and filled |
| Grid.CellsOfCell | sudoku-gen.js:42-58 | each cell is the member of its row, column and box at the positions the source's loops visit it |
| Grid.HouseCellInUnit | sudoku-gen.js:61-92 | every cell sharing a house with i lies in one of i's three units |
| Uniqueness.PickCell | sudoku-gen.js:106-117 | finds a blank iff the grid is not complete; the cell is the first in row-major order with fewest candidates, stopping at a dead end (0) or at a single candidate |
| Uniqueness.DeadEnd | sudoku-gen.js:112 | a blank cell without candidates admits no solution |
| Uniqueness.CandidatePlacementOk | sudoku-gen.js:119-136 | every candidate passes the search's placement check |
| Uniqueness.Search.Dfs | sudoku-gen.js:138-162 | the grid is restored on return; every solution recorded extends it; while the count is below the limit, every solution of it has been recorded |
| Uniqueness.Search.TryValue | sudoku-gen.js:153-159 | place, recurse, undo; every solution with that value in the cell is recorded unless the limit was reached |
| Uniqueness.CountSolutions | sudoku-gen.js:94-167 | an invalid grid gives 0 and null; count <= limit; oneSolution is present iff count >= 1, and then it is a solution of the input; 0 means no solution; 1 with limit >= 2 means that solution is the only one; count >= 2 means two different solutions; the caller's array is not modified |
| SolvedGrid.ShuffleDigitList | sudoku-gen.js:194 | shuffle(DIGS.slice()) is exactly ShuffleOf the list 1–9 from the old state, a permutation of 1–9, and the generator has advanced by eight steps |
| SolvedGrid.ShuffleKeepsPermutation | sudoku-gen.js:39 | any Fisher–Yates pass maps a permutation of 1–9 to one |
| SolvedGrid.FillBox | sudoku-gen.js:193-202 | the box's nine cells receive a permutation of 1–9 in scan order, and no other cell changes |
| SolvedGrid.WriteBox | sudoku-gen.js:195-200 | the nine digits, in order, go into the box's cells row by row, and no other cell changes |
| SolvedGrid.DiagonalValid | sudoku-gen.js:204-206 | the three diagonal boxes filled with permutations form a valid grid |
| SolvedGrid.FillRemaining | sudoku-gen.js:209-224 | the grid stays valid; success means complete and a solution of the grid before the call; failure means the grid is restored and had no solution |
| SolvedGrid.FillCell | sudoku-gen.js:214-222 | the blank-cell branch of fillRemaining: the grid stays valid; success means complete and a solution of the grid before the call; failure means the grid is restored and had no solution |
| SolvedGrid.TryDigits | sudoku-gen.js:215-222 | trying the nine digits of a permutation in order: success is a completed solution; failure leaves the grid as it was, and then no digit, hence no solution, fits the cell |
| SolvedGrid.TryDigit | sudoku-gen.js:216-221 | placing v fails only if no solution has v in that cell, and then the cell is reset to 0 |
| SolvedGrid.GenerateSolved | sudoku-gen.js:169-228 | the grid is valid, boxes (0,0), (1,1) and (2,2) are permutations of 1–9, and it is solved unless the diagonal start admits no solution |
| SolvedGrid.RelabelKeepsValid | sudoku-gen.js:588-589 | relabelling by a permutation keeps validity, solvedness and the blank cells |
| SolvedGrid.RelabelRoundTrip | sudoku-gen.js:588-589 | relabelling is a bijection: the inverse permutation undoes it |
| SolvedGrid.InverseRelabel | sudoku-gen.js:588-589 | the inverse of a digit permutation maps each digit back to its position |
| Eliminations.PositionsSpec | sudoku-gen.js:257-285 | the positions of v in a unit are exactly the blank members holding v as a candidate, in scan order |
| Eliminations.NakedPairs | sudoku-gen.js:287-342 | only deletes candidates; returns true iff some naked pair of some unit strikes a digit from another blank member of that unit |
| Eliminations.NakedPairsInUnit | sudoku-gen.js:289-340 | the same, for one unit |
| Eliminations.RemoveFromUnit | sudoku-gen.js:296-302 | deletes D from every blank member outside skip; true iff some deletion took place |
| Eliminations.HiddenPairs | sudoku-gen.js:344-379 | only deletes candidates; returns true iff, in some unit, a digit v with exactly two positions has a shared w such that locking both cells to {v,w} changes one of them |
| Eliminations.HiddenPairsInUnit | sudoku-gen.js:348-371 | the same, for one unit |
| Eliminations.HiddenPairForTwo | sudoku-gen.js:353-368 | a digit with two positions fires iff some w locks the two cells with a change |
| Eliminations.LockPair | sudoku-gen.js:356-368 | intersects both cells with {v,w} for the first w that changes something; true iff such a w exists |
| Eliminations.LockSize | sudoku-gen.js:362-366 | intersecting with {v,w} keeps a set's size iff the set is already inside {v,w} |
| Eliminations.PointingClaiming | sudoku-gen.js:384-444 | only deletes candidates; returns true iff a pointing box, a claiming row or a claiming column removes a candidate |
| Eliminations.PointingStep | sudoku-gen.js:389-411 | a digit confined to one row or column of a box is struck from that line outside the box; true iff it struck something |
| Eliminations.ClaimRow | sudoku-gen.js:414-428 | a digit of a row confined to one box is struck from the rest of that box |
| Eliminations.ClaimCol | sudoku-gen.js:429-443 | a digit of a column confined to one box is struck from the rest of that box |
| Human.NakedSingle | sudoku-gen.js:248-255 | the first blank cell in row-major order with exactly one candidate, and that candidate; None iff no such cell |
| Human.FindNakedSingle | sudoku-gen.js:248-255 | the source's scan computes NakedSingle |
| Human.HiddenSingle | sudoku-gen.js:257-285 | a placement of a digit that has exactly one position in some unit; None iff no unit and digit have one position; rows, then columns, then boxes, each digit 1–9 in turn |
| Human.FindHiddenSingle | sudoku-gen.js:257-285 | the source's scan computes HiddenSingle |
| Human.UnitHolders | sudoku-gen.js:262-264 | the cells collected for one unit and digit |
| Human.Pass | sudoku-gen.js:447-470 | one pass of the loop: a placement is always a blank cell given one of its candidates |
| Human.RunPass | sudoku-gen.js:447-470 | the method with the source's control flow and in-place deletions computes Pass |
| Human.RunFrom | sudoku-gen.js:447-471 | the loop result is an 81-cell grid when it returns |
| Human.RunFromStops | sudoku-gen.js:447 | when the loop returns, a further pass would change nothing |
| Human.RunFromExtends | sudoku-gen.js:246 | the final grid extends the givens (placements only fill blanks) |
| Human.RunFromProgress | sudoku-gen.js:246 | progress is reported iff at least one cell was placed |
| Human.RunFromKeepsValid | sudoku-gen.js:246 | placements keep the grid valid |
| Human.RunFromKeepsSolutions | sudoku-gen.js:246-285 | every solution of the givens is a solution of the final grid (a single is forced) |
| Human.PassForced | sudoku-gen.js:248-285 | a naked or hidden single agrees with every solution |
| Human.Deduce | sudoku-gen.js:239-473 | an invalid grid gives solved false and progress false; solved true implies a valid input; None when the loop cannot end |
| Human.HumanSolve | sudoku-gen.js:239-474 | the method computes Deduce of the givens and leaves the givens unchanged |
| Human.SolvedIsUnique | sudoku-gen.js:473 | when humanSolve reports solved, the final grid is the unique solution of the givens |
| Human.FullGridStuck | sudoku-gen.js:447-470 | on a complete grid no technique fires |
| Human.CompleteGridSolves | sudoku-gen.js:473 | a solved grid is reported solved, with no progress |
| Tiers.TargetOrMedium | sudoku-gen.js:496 | a missing or empty target becomes 'medium' |
| Tiers.TechniquesForTarget | sudoku-gen.js:476-482 | an object's own techniques win; 'easy' enables only naked and hidden singles; every other name enables all five |
| Tiers.ToInt32 | sudoku-gen.js:502-503 | x\|0 is the signed 32-bit value congruent to x modulo 2^32 |
| Tiers.FieldOr | sudoku-gen.js:502-503 | a missing field or one whose \|0 is 0 takes the fallback |
| Tiers.ClueBand | sudoku-gen.js:500-507 | easy 36–46, hard 24–32, default 30–38, object [max(17, min\|0 \|\| 28), min(81, max\|0 \|\| 40)]; the lower end is at least 17 and the upper at most 81 |
| Tiers.CustomDefaultBand | sudoku-gen.js:502-503 | an object target without clue fields gets 28–40 |
| Tiers.Mate | sudoku-gen.js:485-492 | symmetryMate(sym)(i) is a cell index |
| Tiers.MateShapes | sudoku-gen.js:485-492 | 'rotate' maps i to 80 - i; 'mirror' keeps the row and reflects the column; anything else is the identity |
| Tiers.MateInvolution | sudoku-gen.js:485-492 | each symmetry is an involution on 0–80 |
| Carver.ClueCount | sudoku-gen.js:513-515 | the count of non-zero cells |
| Carver.Gate | sudoku-gen.js:545-557 | when the human solver halts, the gate passes iff the puzzle has exactly one solution and the tier's techniques solve it |
| Carver.ClearPair | sudoku-gen.js:526-527 | cell i and its mate become blank and nothing else changes |
| Carver.RestorePair | sudoku-gen.js:531 | both kept values are written back and nothing else changes |
| Carver.SymmetricBlanks | sudoku-gen.js:485-492 | a cell is blank exactly when its mate is |
| Carver.ClearMatesKeepsSymmetry | sudoku-gen.js:526-527 | blanking a cell together with its mate keeps the blanks symmetric |
| Carver.RemovalPass | sudoku-gen.js:521-561 | every clue left equals the solved grid; the clue count is never left below minClues (a removal below it is undone for the cell and its mate); on a complete solved grid, a cell is blank exactly when its mate is |
| Carver.EmptyCells | sudoku-gen.js:566 | exactly BlankCells of the puzzle: its blank cells, each once, in increasing order |
| Carver.ShuffledEmpties | sudoku-gen.js:566-567 | exactly ShuffleOf the blank cells from the old state, a permutation of them, and the generator advanced by one step per blank cell beyond the first |
| Carver.Refill | sudoku-gen.js:569-571 | writes back one solution digit and reports the gate on the result |
| Carver.RefillLoop | sudoku-gen.js:568-572 | given a list holding every blank cell: the result extends the carved puzzle within the solution; when everything halts and the solution is solved, it is uniquely solvable and solved by the tier's techniques |
| Carver.Repair | sudoku-gen.js:564-574 | the result extends the carved puzzle within the solution; when everything halts and the solution is solved, the result is uniquely solvable and solved by the tier's techniques |
| Carver.SomeBlankLeft | sudoku-gen.js:564-574 | a puzzle that fails the gate on a solved solution still has a blank cell, so the repair loop always has one to refill |
| Carver.ShuffledIndices | sudoku-gen.js:510 | shuffle([...Array(81).keys()]) is exactly ShuffleOf 0..n-1 from the old state, a permutation of it holding every index, and the generator has advanced n - 1 steps |
| Carver.CarveUniqueHuman | sudoku-gen.js:495-577 | the puzzle is a sub-grid of the solved grid; when everything halts and the grid is solved, the solved grid is its unique solution, the tier's techniques solve it, and it keeps at least min(minClues, 81) clues |
| Carver.FullPuzzlePasses | sudoku-gen.js:564-574 | the fully refilled puzzle always passes the gate |
| Carver.ExtendsClues | sudoku-gen.js:564-574 | refilling never lowers the clue count |
| Carver.RelabelledSolution | sudoku-gen.js:584-589 | the relabelled solved grid is a fresh valid grid |
| Carver.RelabelGrid | sudoku-gen.js:588-589 | solved.map(v => relabel[v-1]) is exactly Relabel of the grid, and stays valid |
| Carver.GeneratePuzzle | sudoku-gen.js:580-601 | with a seed converted by \|0, or the fallback: both strings have 81 digit characters; every non-zero given equals the solution digit; the solution is valid; when it is solved, the givens are uniquely solvable by it, solvable by the tier's techniques, and keep the tier's minimum of clues |
| Validator.HouseOf | puzzle-validator.js:116-148 | unit u names the row, column or box the messages report |
| Validator.HasDuplicates | puzzle-validator.js:220-222 | the set size differs from the length iff some value is repeated |
| Validator.ElementsCard | puzzle-validator.js:220-222 | the set of a list is no larger than the list, and equally large iff the list is duplicate-free |
| Validator.AllNumbersSorted | puzzle-validator.js:212-215 | hasAllNumbers: the list sorts to 1,…,9 iff it holds every digit 1–9 in nine places |
| Validator.AllNumbersElements | puzzle-validator.js:212-215 | hasAllNumbers iff nine elements whose set is {1,…,9} |
| Validator.AllNumbersIffDistinct | puzzle-validator.js:212-215 | for nine digits, having all numbers is being duplicate-free |
| Validator.NonZero | puzzle-validator.js:167-198 | filtering keeps exactly the non-zero values |
| Validator.NonZeroDistinct | puzzle-validator.js:167-198 | the non-zero values are distinct iff no clue repeats |
| Validator.ValidGridIffUnits | puzzle-validator.js:161-208 | a grid is valid iff no unit repeats a clue |
| Validator.SolvedIffUnitsComplete | puzzle-validator.js:100-154 | a grid of digits is solved iff every unit has all numbers |
| Validator.Gather | puzzle-validator.js:114-150 | the values of one unit, without zeros for the partial check |
| Validator.UnitErrorsMembers | puzzle-validator.js:114-150 | the unit errors name exactly the units lacking a digit, and there are none iff all units are complete |
| Validator.UnitsComplete | puzzle-validator.js:114-150 | the errors are exactly UnitErrors: one MissingDigits error per failing unit, in unit order, carrying its values; isValid iff no error iff solved |
| Validator.ValidateSudokuSolution | puzzle-validator.js:100-154 | isValid iff no error iff solved; an InvalidNumber error for exactly the cells outside 1–9; with such a cell, no unit error (early return); without one, the errors are exactly UnitErrors, in unit order |
| Validator.ValidatePartialSudoku | puzzle-validator.js:161-208 | isValid iff no error iff the grid is valid; a DuplicateGivens error for exactly the units that repeat a non-zero value |
| Validator.FormatErrors | puzzle-validator.js:36-53 | a length error exactly for a length other than 81; a character error exactly when givens leave '0'–'9' or the solution leaves '1'–'9'; none iff well formed |
| Validator.MismatchErrors | puzzle-validator.js:61-67 | a Mismatch error exactly at each non-zero given that differs from the solution digit |
| Validator.ContentErrors | puzzle-validator.js:58-80 | no error iff the givens are a sub-grid of a solved solution and are valid |
| Validator.GivenWarnings | puzzle-validator.js:82-90 | a warning for fewer than 17 givens and one for more than 60, each carrying the count |
| Validator.ValidatePuzzle | puzzle-validator.js:28-93 | isValid iff no error iff the pair is sound; the format errors as above; a malformed pair stops with format errors only and no warnings; warnings never affect isValid |
| Validator.GivensCheckRedundant | puzzle-validator.js:68-80 | the givens check can never fail once the solution is solved and the givens agree with it |
| Validator.GeneratedIsSound | puzzle-validator.js:264-267 | any sub-grid of a solved grid, encoded, passes validatePuzzle |
| ValidatorGen.RowFree | puzzle-validator.js:318-321 | true iff num is not in the row of pos |
| ValidatorGen.ColumnFree | puzzle-validator.js:323-326 | true iff num is not in the column of pos |
| ValidatorGen.BoxFree | puzzle-validator.js:328-335 | true iff num is not in the box of pos |
| ValidatorGen.IsValidPlacement | puzzle-validator.js:314-338 | true iff num clashes with nothing in the row, column or box of pos |
| ValidatorGen.FillGrid | puzzle-validator.js:286-309 | the grid stays valid; true means it is a completed solution of the grid before the call; false means every tentative value was reset and the grid has no solution |
| ValidatorGen.FillCell | puzzle-validator.js:290-305 | tries the shuffled digits at the first blank, undoing each failure |
| ValidatorGen.PatternSolved | puzzle-validator.js:274-281 | the grid (r*3 + r/3 + c) mod 9 + 1 is solved, so a completed grid exists |
| ValidatorGen.BlankGridSolutions | puzzle-validator.js:274-281 | the solutions of the empty grid are exactly the solved grids |
| ValidatorGen.GenerateCompletedGrid | puzzle-validator.js:274-281 | a returned grid is solved; null would mean that no solved grid exists |
| ValidatorGen.HasUniqueSolution | puzzle-validator.js:344-349 | true iff the givens repeat no clue in a unit; uniqueness is not checked |
| ValidatorGen.CheckAdmitsAmbiguous | puzzle-validator.js:344-349 | the empty grid passes this check yet has two different solutions |
| ValidatorGen.RemovalCount | puzzle-validator.js:249-263 | the number of cells removed is the difficulty clamped to 0–81 |
| ValidatorGen.RemoveCells | puzzle-validator.js:249-263 | exactly the first RemovalCount(difficulty) shuffled positions are blank, and every other cell keeps its solution digit |
| ValidatorGen.GeneratePuzzle | puzzle-validator.js:230-268 | with difficulty 40 by default: the pair passes validatePuzzle, and exactly the clamped difficulty of cells is blank |

## Left out

- I/O and the user interface: app.js (DOM, timers, audio, storage), test-puzzles.js, generate-new-puzzles.js, puzzle-validator.js:13-20 (`puzzles.js` loaded and `eval`ed), and the console-driven `testAllPuzzles` and `generateNewPuzzles`. None of them holds logic of the core.
- The UMD export wrapper (sudoku-gen.js:12-16) is module plumbing.
- `Math.random`:
  - the seed fallback of `generatePuzzle` (sudoku-gen.js:581) is the parameter `fallbackSeed`;
  - the shuffles of puzzle-validator.js:244 and :292 are a nondeterministic choice of a permutation.
- Message wording. Errors and warnings are datatypes that carry the values the messages print; the text itself is not modelled.
- JavaScript coercions of non-integer input are not modelled: a fractional or non-numeric seed, clue field or difficulty, and `+ch` on characters of from81.
  - Numbers are integers.
  - A clue field that is not a number is `None`.
  - Every character of from81 other than '1'–'9' reads as blank; in the source it gives 0, NaN or undefined, which every consumer treats as blank.
- The candidate cache of `countSolutions` (sudoku-gen.js:99-104) is not modelled. It is invalidated on every placement, so candidates are always those of the current grid.
- Diagonal boxes of `generateSolved`: the model shows that filling them always yields a valid start. It does not show that this start always has a completion.
  - This is why `SolvedGrid.GenerateSolved` is disjunctive.
  - The carver's guarantees assume a solved grid.
- The repair pass does not restore symmetry, and it is not claimed that it stops inside the clue band.
- The upper end of the clue band is not guaranteed. The carve loop may run through the whole order without reaching it and then stop.
- Clues skipped by the batch shortcut (sudoku-gen.js:536-543) are not gated one by one. Only the final gate and the repair make claims about the result.
- Carver.CarveUniqueHuman: states no symmetry of its output, because the repair pass re-adds single cells without their mates. The carve loop's symmetry is stated on Carver.RemovalPass.
- Generator state through backtracking: each shuffle states its exact result and its exact advance of the generator. SolvedGrid.FillRemaining, SolvedGrid.GenerateSolved, Carver.CarveUniqueHuman and Carver.GeneratePuzzle do not state their final state. fillRemaining takes a fresh shuffle at every blank cell it visits, including the ones it later backtracks over, so the number of draws depends on the search path.
- SolvedGrid.Relabel: a blank cell maps to blank. In the source, `relabel[v-1]` on 0 gives `undefined`. `to81` prints that as 0, as the model does, but the carver's checks would see `undefined` rather than 0. A blank reaches relabelling only when fillRemaining found no completion, the case `SolvedGrid.GenerateSolved` leaves open.
- String lengths are lengths of `seq<char>`, that is, counts of code points. JavaScript's `.length` counts UTF-16 code units, so a string with characters outside the Basic Multilingual Plane has a different length in the source. Such a string fails the digit-character checks in both.
- Carver.CarveUniqueHuman: the clue bound is stated as min(minClues, 81). It holds because the repair only adds clues to a puzzle that already had at least minClues, or to the full grid.
- Human.Deduce: when the loop of `humanSolve` cannot end, the result is `None`, and callers report non-halting. No fuel bound is involved.
- Validator.AllNumbersSorted: `hasAllNumbers` is defined by membership. Its equivalence with the source's sort-and-join reading is stated over multisets, since sorting is not modelled.
- ValidatorGen.RemoveCells: the restore branch of the removal loop (puzzle-validator.js:254-260) is proved unreachable. A sub-grid of a solved grid always passes the duplicate check.
