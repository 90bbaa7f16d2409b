# Sudoku engine of Sudoku-App, modelled in Dafny

This project models the game engine of the Angular Sudoku app. The engine lives in
`SudokuComponent` (`app/components/sudoku/sudoku.component.ts`), with keyboard navigation in
`GridComponent` (`app/components/sudoku/grid/grid.component.ts`). The model covers these parts:

- **Placement check.** `isPlacementValid` scans a cell's row, column and 3×3 box.
- **Solver.** `solve` builds one digit set per row, per column and per box. `solveWithSets` then runs a depth-first search over the cells in row-major order. The helpers are `getBoxIndex` and `getCandidates`.
- **Generator.**
  - `fillGrid` is a randomized backtracking fill. It uses `findEmptySpot`, `shuffleArray` and the placement check.
  - `generateFullSolution` runs `fillGrid` on the empty board.
  - `createPuzzleFromSolution` blanks cells of a solution.
- **Field rules of the game screen.**
  - `insertNumber`, with the pencil-note toggle, the readonly guard and the create-mode validity check
  - `erase`, `hint` and `solveSudoku`
  - `cleanNotes`
  - the digit counts behind the number buttons (`checkNumbers`)
  - `finished`
  - loading a generated puzzle (`generateAndLoadRandomPuzzle` with `resetState`)
- **Grid navigation.** This covers the `between` clamp, `onFieldClick`, the `currentRow`/`currentCol` lookup, `moveFocus` and the four arrow handlers.

The source changes its 9×9 `number[][]` boards in place; 0 means an empty cell. The model uses values instead:

- A board is a `seq<seq<int>>`.
- Every operation returns the new board, the new sets or the new game state.
- An in-place undo becomes an explicit write-back. For example, `board[row][col] = 0` and `rows[row].delete(num)` become new values, and the model proves they equal the values from before the attempt.

The central predicates are all in module `Board`:

- `Digits(b, u)`: the set of nonzero digits of unit `u` (a row, column or box).
- `NoConflicts`: no unit holds a digit twice.
- `Solved`: the board is full and has no conflicts.
- `Completes(s, b)`: `s` is a solved board that keeps every digit of `b`.

The solver's caches are tied to the board by `Solver.Mirrors`: every row, column and box set equals `Digits` of its unit.

Module layout:

| module | models |
|---|---|
| `Board` | the 9×9 board, units, `getBoxIndex`, the solved-board predicates |
| `Placement` | `isPlacementValid` |
| `Solver` | `solve`, `solveWithSets`, `getCandidates` |
| `Generator` | `findEmptySpot`, `shuffleArray`, `fillGrid`, `generateFullSolution`, `createPuzzleFromSolution` |
| `Fields` | a field (value, answer, readonly, notes), `cleanNotes`, `checkNumbers`, `finished` |
| `Play` | `insertNumber`, `erase`, `hint`, `solveSudoku`, `generateAndLoadRandomPuzzle` |
| `Navigation` | `grid.component.ts` |

Behaviour that is kept as written:

- **The solver never checks the given digits.** `solve` only skips filled cells, so a full board that holds a digit twice in a row is reported solved. `Solver.Solve` promises a solution only when the input has no conflicts. `Solver.FullConflictingBoard` exhibits such a board, and `Solve` ensures `Full(b) ==> solved`.
  - One might expect `solve` to reject a board with a repeated digit; the code does not, and neither does the model. `fillGrid` behaves the same way: it returns true at once on any full board (`Generator.FillGrid`).
- **Two different create-mode checks.** In create mode, `insertNumber` judges a digit with the local placement check only (sudoku.component.ts:204-214). `erase` runs the full solver instead (sudoku.component.ts:112-115, 265-270).
  - In note mode on a field that already has a value, `insertNumber` leaves the field unchanged. It still sets `isSolvable` from the typed digit, not from the field's value.
- **The arrow handlers pass their offsets as `(relativeCol, relativeRow)`.** Up and down change the column, and left and right change the row (`Navigation.ArrowMoves`).
- **`finished` compares `value === answer`.** An empty field (`undefined`) never equals an answer, so values are modelled as `Blank | Filled(d)` rather than with 0.

Randomness is a parameter:

- `shuffleArray` reads its draws from a stream `rng: nat -> nat`, starting at a cursor. It uses `j = rng(cursor) % (i + 1)` in place of `Math.floor(Math.random() * (i + 1))`.
- `createPuzzleFromSolution` reads the cells it picks from a finite sequence `picks`. It returns `None` when the picks run out before `81 - difficulty` cells have been emptied. That is the model's version of the source's loop never ending, which happens for `difficulty < 0`.

## Model

| member | source | states |
|---|---|---|
| `Board.BoxIndex` | app/components/sudoku/sudoku.component.ts:577-580 | the box number `floor(r/3)*3 + floor(c/3)` lies in 0..8, and cell (r, c) belongs to box k exactly when it shares a box with that box's cells |
| `Board.PlaceUndo` | app/components/sudoku/sudoku.component.ts:557-567 | writing a digit into an empty cell and then writing 0 back restores the board exactly |
| `Board.SolvedUnitIsPermutation` | app/components/sudoku/sudoku.component.ts:507-528 | every row, column and box of a solved board holds pairwise different digits, and together they are exactly 1..9 |
| `Placement.IsPlacementValid` | app/components/sudoku/sudoku.component.ts:288-328 | returns false iff `num` occurs at some other cell of the row, the column or the 3×3 box of (row, col); the cell itself is never looked at |
| `Placement.NoConflictsIffAllPlacementsValid` | app/components/sudoku/sudoku.component.ts:288-328 | a board has no conflicts iff every filled cell's digit passes the validator at its own position (both directions) |
| `Placement.CompletionPlacementValid` | app/components/sudoku/sudoku.component.ts:459 | for a board that can be completed, the completion's digit for an empty cell passes the validator |
| `Placement.ValidPlacementKeepsNoConflicts` | app/components/sudoku/sudoku.component.ts:459-461 | writing a digit the validator accepts into an empty cell of a conflict-free board keeps it conflict-free |
| `Placement.ConflictsIgnoreOwnCell` | app/components/sudoku/sudoku.component.ts:209-214 | the verdict does not depend on what the checked cell holds, so zeroing it first changes nothing |
| `Solver.MirrorsPlace` | app/components/sudoku/sudoku.component.ts:557-560 | placing a digit and adding it to its row, column and box sets keeps the three set families equal to the board's digits |
| `Solver.GetCandidates` | app/components/sudoku/sudoku.component.ts:582-602 | the result is strictly ascending and holds exactly the digits 1..9 absent from the row, column and box sets |
| `Solver.SolveWithSets` | app/components/sudoku/sudoku.component.ts:530-575 | keeps the sets mirroring the board. On false, board and sets are exactly as on entry, and the board has no completion. On true, cells from (row, col) on are filled, earlier cells and given digits are unchanged, and a conflict-free board stays conflict-free. A board already full from (row, col) on is returned unchanged |
| `Solver.TryCandidate` | app/components/sudoku/sudoku.component.ts:553-571 | one candidate attempt: on failure the cell is cleared and the digit deleted from the three sets, restoring the entry state exactly, and no completion has that digit there |
| `Solver.BuildSets` | app/components/sudoku/sudoku.component.ts:509-525 | after the row-major scan, set k of each family holds exactly the nonzero digits of row, column or box k |
| `Solver.Solve` | app/components/sudoku/sudoku.component.ts:507-528 | only empty cells are written. On true the board is full, and solved when the input had no conflicts. On false the board is unchanged and has no completion. A full board returns true unchanged |
| `Solver.FullConflictingBoard` | app/components/sudoku/sudoku.component.ts:539-546 | a full board with a repeated digit exists, so `Solve` (true on every full board) reports a conflicting board as solved |
| `Generator.FindEmptySpot` | app/components/sudoku/sudoku.component.ts:272-286 | returns the first empty cell in row-major order, or None exactly when the board is full |
| `Generator.ShuffleArray` | app/components/sudoku/sudoku.component.ts:491-499 | the result is a permutation (same multiset) of the input |
| `Generator.ShuffledDigits` | app/components/sudoku/sudoku.component.ts:455-457 | a shuffle of 1..9 has nine pairwise different entries covering 1..9, so each digit is tried at most once per cell |
| `Generator.CompletionDigitListed` | app/components/sudoku/sudoku.component.ts:455-459 | whatever digit a completion puts in the empty cell is among the shuffled numbers and passes the validator, so the loop over the numbers misses no completion |
| `Generator.FillGrid` | app/components/sudoku/sudoku.component.ts:446-470 | on true the board is full, keeps every given digit, and is solved when the input had no conflicts. On false the board is exactly as on entry, and the board has no completion |
| `Generator.TryDigit` | app/components/sudoku/sudoku.component.ts:457-466 | a digit that passed the validator is written and the rest filled. On failure the cell is 0 again, and no completion has that digit there |
| `Generator.ZeroCountPlace` | app/components/sudoku/sudoku.component.ts:482-486 | emptying a filled cell raises the count of empty cells by one, and filling an empty cell lowers it by one |
| `Generator.EmptyBoardSolvable` | app/components/sudoku/sudoku.component.ts:439-444 | the empty board has a completion, a fixed shifted-row grid |
| `Generator.GenerateFullSolution` | app/components/sudoku/sudoku.component.ts:439-444 | the fill of the empty board always succeeds, and the result is a solved grid |
| `Generator.CreatePuzzleFromSolution` | app/components/sudoku/sudoku.component.ts:472-489 | the puzzle keeps the solution's digit wherever it is not empty. For difficulty in 0..81 it has exactly `81 - difficulty` more empty cells than the solution. Difficulty above 81 yields the solution unchanged. Negative difficulty never finishes. A full solution with picks covering every cell always finishes |
| `Fields.RemoveNote` | app/components/sudoku/sudoku.component.ts:344-346 | the filtered notes hold exactly the old notes other than v |
| `Fields.ToBoard` | app/components/sudoku/sudoku.component.ts:142-144 | the board holds 0 exactly where a field has no (truthy) value and the field's number elsewhere; a grid of numbers 0..9 gives a well-formed board |
| `Fields.RemoveNoteIdempotent` | app/components/sudoku/sudoku.component.ts:348-358 | filtering a note out twice, as the overlapping passes do, is filtering it once |
| `Fields.ToggleNote` | app/components/sudoku/sudoku.component.ts:171-185 | the digit's membership in the notes flips, and no other note's membership changes |
| `Fields.ToggleTwice` | app/components/sudoku/sudoku.component.ts:177-184 | toggling an absent note on and then off restores the note list exactly |
| `Fields.Cleaned` | app/components/sudoku/sudoku.component.ts:332-359 | exactly the fields sharing a row, column or box with the cell lose v from their notes; values, answers, flags and all other notes stay |
| `Fields.CleanNotes` | app/components/sudoku/sudoku.component.ts:332-359 | the three passes over row, column and box give the single-pass `Cleaned` grid, and a field without a value changes nothing |
| `Fields.CountNumber` | app/components/sudoku/sudoku.component.ts:363-377 | the scan counts exactly the fields whose value is the digit |
| `Fields.CheckNumbers` | app/components/sudoku/sudoku.component.ts:361-384 | button d is disabled iff d is the value of at least nine fields |
| `Fields.IsFinished` | app/components/sudoku/sudoku.component.ts:394-397 | true iff every field's value equals its answer |
| `Fields.FinishedDisablesAll` | app/components/sudoku/sudoku.component.ts:361-397 | when every field holds its answer and the answers form a solved grid, every digit appears exactly nine times and all nine buttons are disabled |
| `Play.KeepsClues` | app/components/sudoku/sudoku.component.ts:427-434 | an edit that keeps readonly fields' values keeps every given field showing its answer |
| `Play.EditField` | app/components/sudoku/sudoku.component.ts:163-195 | note mode on an empty field toggles the digit among its notes; on a filled field, or for a readonly field, nothing changes. Otherwise only the field's value becomes the digit, and in play mode the digit leaves exactly the peers' notes and finish fires iff every field holds its answer. Readonly fields keep their values |
| `Play.InsertNumber` | app/components/sudoku/sudoku.component.ts:163-218 | states each case: no active field does nothing; note mode toggles the digit on an empty field and leaves a filled one alone; readonly fields are never written. Otherwise only the active value becomes the digit, and in play mode the digit leaves every peer's notes and finish fires iff the game is finished. The buttons match the counts. In create mode on a filled field, isSolvable is the validator's verdict on the typed digit |
| `Play.Erase` | app/components/sudoku/sudoku.component.ts:103-117 | only an editable active field is cleared, of value and notes. The buttons match the counts. In create mode a false isSolvable means the board has no completion, and a true one on a conflict-free board means it has one |
| `Play.Hint` | app/components/sudoku/sudoku.component.ts:126-138 | only in play mode on an editable active field. Its value becomes its answer, the answer leaves the peers' notes, the buttons match the counts, and finish fires iff the game is finished |
| `Play.WithDigits` | app/components/sudoku/sudoku.component.ts:150-155 | every field takes the board's digit and loses its notes; answers and flags stay |
| `Play.SolveSudoku` | app/components/sudoku/sudoku.component.ts:140-161 | on success every field holds a nonzero digit without notes, and given digits are kept; the result is solved when the board had no conflicts. On failure nothing changes and the board has no completion |
| `Play.FromPuzzle` | app/components/sudoku/sudoku.component.ts:427-434 | a nonzero puzzle digit becomes a readonly field showing it, and a zero an empty editable field; answers come from the solution and notes are empty |
| `Play.GenerateAndLoad` | app/components/sudoku/sudoku.component.ts:419-437 | the loaded game has no active field and isSolvable set. Its answers form a solved grid that completes the shown board, and every readonly field shows its answer. Exactly `81 - difficulty` fields are empty, and the buttons match the counts |
| `Navigation.Between` | app/components/sudoku/grid/grid.component.ts:5-7 | the result lies in [lo, hi] when lo ≤ hi, equals v when v is already in range, and is the nearer bound otherwise |
| `Navigation.OnFieldClick` | app/components/sudoku/grid/grid.component.ts:24-28 | clicking the active field clears the selection; clicking any other field selects it |
| `Navigation.IndexOf` | app/components/sudoku/grid/grid.component.ts:67 | -1 iff the field is absent, else a position holding it with no earlier occurrence |
| `Navigation.RowOf` | app/components/sudoku/grid/grid.component.ts:57 | -1 iff no row holds the field, else the first row that does |
| `Navigation.CurrentRow` | app/components/sudoku/grid/grid.component.ts:50-58 | -1 or a row index; a row index only for an active field that the row holds, and never -1 when some row holds the active field |
| `Navigation.CurrentCol` | app/components/sudoku/grid/grid.component.ts:60-68 | -1 exactly when currentRow is -1; otherwise a position in that row holding the active field |
| `Navigation.LocateActive` | app/components/sudoku/grid/grid.component.ts:50-68 | currentRow/currentCol are -1 without an active field or for one not in the grid, and the field's own coordinates when the grid's fields are distinct |
| `Navigation.FlatIndex` | app/components/sudoku/grid/grid.component.ts:74 | position 9r + c of the flattened grid is field (r, c) |
| `Navigation.FindEditable` | app/components/sudoku/grid/grid.component.ts:74 | -1 iff every field is readonly, else the first field that is not |
| `Navigation.MoveTarget` | app/components/sudoku/grid/grid.component.ts:82-83 | the target row and column always lie in 0..8 |
| `Navigation.MoveFocus` | app/components/sudoku/grid/grid.component.ts:70-88 | with an active field, a field of the grid is always emitted. Without one, the first editable field in row-major order is emitted, and nothing when every field is readonly |
| `Navigation.OnArrow` | app/components/sudoku/grid/grid.component.ts:30-48 | with an active field every arrow emits a field of the grid; without one all four keys emit the same field, the first editable one |
| `Navigation.ArrowMoves` | app/components/sudoku/grid/grid.component.ts:30-48 | up/down move one column left/right in the active field's row, left/right move one row up/down in its column, clamped at the edges |

## Left out

- `updateProgress` (sudoku.component.ts:399-417): the progress is a floating-point percentage. No rule depends on it.
- `console.log` calls, `EventEmitter.emit`, `NgZone.run`, `@HostListener` wiring, `ngOnInit`, `ngOnChanges`, templates and CSS: Angular plumbing and output only.
  - The finish event is modelled as a boolean result (`finish`).
  - The emitted field of `moveFocus` is modelled as an `Option` result.
- `onSpace`, `note`, `onPlayClick`, `onCreateClick`, `createBlankPuzzle` and the keyboard parsing in `onKeyDown`: mode switches and input parsing with no engine logic.
  - `Play.InsertNumber` takes a digit in 1..9, which is what `onKeyDown` (sudoku.component.ts:95) and the nine number buttons pass.
- `Math.random` is replaced by parameters (the `rng` stream and the `picks` sequence), as described above.
- `Generator.CreatePuzzleFromSolution`: it states that the carving loop finishes only under the assumption that the picks cover every cell. Random picks make no such promise, so the model cannot state more.
- `JSON.parse(JSON.stringify(solution))` is a plain value copy: boards are values here.
- The active field is an object reference in the source. `Play` holds its coordinates instead, and `Navigation.LocateActive` shows that `currentRow`/`currentCol` recover exactly those coordinates when the grid's fields are distinct objects. The same getter in sudoku.component.ts:220-234 is covered by this.
- `Solver.TryCandidate` and `Generator.TryDigit` are the loop bodies of `solveWithSets` and `fillGrid`, written as separate methods. The search is the same, but the proof stays small.
  - In the same way, the nested scan of `solve` is split into `Solver.ScanRow` and `Solver.AddCell`.
  - The three passes of `cleanNotes` are `Fields.StripRow`, `Fields.StripCol` and `Fields.StripBox`.
- sudoku.component.spec.ts, app.component.ts and grid.module.ts are not part of this model: they are a smoke test and framework wiring.
