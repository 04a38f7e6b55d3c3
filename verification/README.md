# gem-puzzle: a verified model of the 15-puzzle engine

This project models the game engine of `gem-puzzle/app/js/main.js`, a 4×4 sliding-tile
("15-puzzle") game, in Dafny. Only the engine is modelled. The DOM side is left out.

- **State.** The list `cells` holds the shared `emptyCell` object at index 0. It is the blank,
  with value 0, declared at left 0, top 0 (main.js:5-9); moves change its coordinates. Indices 1..15 hold the tile objects, each with integer
  `left`/`top` grid coordinates and a `value`. In the Dafny model they are the classes
  `Game.Cell` and `Game.Puzzle`, whose fields are updated in place as in the source. The
  function `Puzzle.CurrentBoard()` reads them as a value of type `Field.Board`, a sequence of
  `(left, top, value)` triples.
- **Setup.** `numbers` is 0 followed by 1..15 in shuffled order. The loop in `createField`
  places tile `i` at `left = i % 4`, `top = (i - i % 4) / 4`, gives it `numbers[i]` and
  pushes it onto `cells`. The model takes the shuffled order as an input: fifteen distinct
  numbers from 1..15 (`Field.IsShuffle`). `Field.ShuffleCoversTiles` proves that such an
  input is a reordering of the sorted list 1..15 (equal multisets), and `Field.Numbers` that
  `numbers` is then a permutation of 0..15 starting with 0. The shuffle is a random-comparator
  sort with no solvability guarantee; none is modelled or claimed.
- **Moves.** `moveCell(index)` rejects the click when the Manhattan distance between the
  tile and the blank is greater than 1. Otherwise it swaps the tile's coordinates with the
  blank's. `Field.Step` is the value-level specification. `Puzzle.MoveCell` performs the
  in-place update and is proved to match `Step`.
- **Invariant.** `Field.ValidBoard` holds once `createField` has run, and every move keeps
  it. It says:
  - the blank has value 0;
  - the tile values are distinct and lie in 1..15;
  - the 16 positions are distinct and inside the 4×4 grid.

  So the positions are a bijection onto the grid (`Field.BoardCoversGrid`), and the tile
  values are a permutation of 1..15 (`Field.TilesCoverNumbers`).
- **Win check.** `isFinished` skips the blank. It then requires `value == top*4+left` of
  every tile when the blank is at (0, 0), and `value == top*4+left+1` otherwise.
  `Field.FinishedIff` proves that on a valid board this accepts exactly two arrangements:
  - the blank at (0, 0), with the tile on square p carrying p;
  - the blank at (3, 3), with the tile on square p carrying p + 1.

  No other position of the blank can ever pass the check.

Files: `seqs.dfy` (facts about sequences without repetitions: the pigeonhole lemma, and
that such sequences holding the same values have equal multisets), `field.dfy`
(the value model and its lemmas), `game.dfy` (the classes).

## Model

| member | source | states |
|---|---|---|
| Field.PositionOf | gem-puzzle/app/js/main.js:50-54 | the position given to tile `i` lies in the 4×4 grid and its row-major index `top*4+left` is `i` again, so distinct indices get distinct squares |
| Field.ShuffleCoversTiles | gem-puzzle/app/js/main.js:14-16 | fifteen distinct numbers from 1..15, the result of the shuffle, have the same multiset as the sorted input 1..15 and so contain every number 1..15 |
| Field.Ascending | gem-puzzle/app/js/main.js:14-15 | the sorted list 1..15 that the shuffle reorders |
| Field.PermutationIsShuffle | gem-puzzle/app/js/main.js:14-16 | conversely, every reordering of 1..15 satisfies `IsShuffle`, so the setup admits every outcome of the sort |
| Field.Numbers | gem-puzzle/app/js/main.js:14-17 | `numbers` after `unshift(0)` has sixteen entries, starts with 0, has no repetitions and contains every number 0..15 |
| Field.Layout | gem-puzzle/app/js/main.js:50-58 | the list after `createField(16)`: the blank, then for each loop index `i` = 1..15 the tile at `PositionOf(i)` with `numbers[i]` |
| Field.LayoutValid | gem-puzzle/app/js/main.js:5-58 | after setup the blank is `cells[0]` at (0, 0) with value 0; `cells[i]` is at left `i % 4`, top `i / 4` with value `numbers[i]`; the board satisfies the invariant (distinct in-grid positions, distinct tile values in 1..15) |
| Field.TilesCoverNumbers | gem-puzzle/app/js/main.js:55 | on any board satisfying the invariant the tile values are a permutation of 1..15 |
| Field.BoardCoversGrid | gem-puzzle/app/js/main.js:50-54 | on any board satisfying the invariant every square of the grid holds a cell: positions are a bijection onto the grid |
| Field.Distance | gem-puzzle/app/js/main.js:88-89 | the Manhattan distance `leftDiff + topDiff` is 0 exactly when the two cells share a position |
| Field.MoveAllowed | gem-puzzle/app/js/main.js:88-91 | the guard of `moveCell`: the move goes ahead unless `leftDiff + topDiff > 1` |
| Field.Step | gem-puzzle/app/js/main.js:86-103 | a move whose distance exceeds 1 leaves the board unchanged; an accepted move gives the tile the blank's old position and the blank the tile's old position; no value changes and no other cell changes |
| Field.AcceptedMoveIsSlide | gem-puzzle/app/js/main.js:88-91 | on a valid board every accepted move of a tile has Manhattan distance exactly 1 |
| Field.StepPreservesValid | gem-puzzle/app/js/main.js:96-103 | a move keeps positions pairwise distinct and inside the grid and keeps the values valid |
| Field.MovesPreserveValid | gem-puzzle/app/js/main.js:81-103 | after any sequence of clicks the board is still valid and every cell keeps its value |
| Field.IsFinished | gem-puzzle/app/js/main.js:105-111 | `cells.every` skipping the blank: every tile's value is `top*4+left` when the blank is at (0, 0), and `top*4+left+1` otherwise |
| Field.FinishedIff | gem-puzzle/app/js/main.js:105-111 | on a valid board `isFinished` holds iff the blank is at (0, 0) and every tile's value is its square `top*4+left`, or the blank is at (3, 3) and every tile's value is its square plus 1 |
| Game.Cell.constructor | gem-puzzle/app/js/main.js:72-77 | a cell object holds exactly the given `left`, `top` and `value` |
| Game.Puzzle.constructor | gem-puzzle/app/js/main.js:5-17 | `emptyCell` is a new object at (0, 0) with value 0, `cells` is `[emptyCell]`, `numbers` is 0 followed by the shuffle |
| Game.Puzzle.CreateCell | gem-puzzle/app/js/main.js:72-81 | pushes one new cell object with the given position and value; the handler's `index`, when equal to the list's old length, finds that object at `cells[index]` |
| Game.Puzzle.CreateField | gem-puzzle/app/js/main.js:50-58 | the loop leaves `cells` equal to the layout (blank first, tile `i` at index `i`), made of distinct objects and satisfying the invariant |
| Game.Puzzle.CheckFinished | gem-puzzle/app/js/main.js:105-111 | the `cells.every` loop returns exactly the win predicate of the current board |
| Game.Puzzle.MoveCell | gem-puzzle/app/js/main.js:86-114 | the in-place update leaves the objects describing `Step` of the old board; the invariant is kept; the win message is shown exactly when the move was accepted and the new board is finished |

## Left out

- DOM work: creating elements, class names, `innerHTML`, event listeners, `querySelector`
  and the "You win" text. `MoveCell` returns whether that text would be shown.
- Pixel geometry (`cellSize`, the `px` style strings). It is floating-point layout only.
- The randomness of `Math.random` and the sort algorithm. Their outcome is the input
  `shuffled`, any order of 1..15.
- The Restart, Save and Results buttons. They only log to the console; `main.js` has no move
  counter, timer, save/load or leaderboard.
- The `cellsCount` parameter of `createField`. It is fixed at 16, the value of the only
  call, because the side 4 is hard-coded in the placement and in the win check.
- Puzzle.MoveCell: accepts only tile indices 1..15, the indices the click handlers of
  `createField` are bound to. A call `moveCell(0)` never happens in `main.js`; if it did, it
  would pick `emptyCell` itself, pass the guard and throw on its missing DOM element, a
  behaviour the model does not include. `Field.Step` and `Field.Moves` are restricted the same way.
- The blocking of clicks after a win. The source does this by replacing the field's HTML.
