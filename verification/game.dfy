/**
 * The mutable state of main.js: cell objects whose `left`/`top` fields moveCell rewrites in
 * place, the shared `emptyCell` object, and the `cells` list that createField fills by `push`.
 * Every method is proved against the value model of module Field.
 */
module Game {
  import opened Field

  /** A cell object `{ left, top, value }`; its DOM element is not modelled. */
  class Cell {
    var left: int
    var top: int
    var value: int

    constructor (left: int, top: int, value: int)
      ensures this.left == left && this.top == top && this.value == value
    {
      this.left := left;
      this.top := top;
      this.value := value;
    }

    function State(): (c: CellState)
      reads this
    {
      CellState(left, top, value)
    }
  }

  /** The current values of a list of cell objects. */
  function Snapshot(cs: seq<Cell>): (b: Board)
    reads cs
  {
    seq(|cs|, i requires 0 <= i < |cs| reads cs => cs[i].State())
  }

  /** The module-level state of main.js: `emptyCell`, `numbers` and `cells`. */
  class Puzzle {
    const emptyCell: Cell
    const numbers: seq<int>
    var cells: seq<Cell>

    /** The board the objects currently describe. */
    function CurrentBoard(): (b: Board)
      reads this, cells
    {
      Snapshot(cells)
    }

    /**
     * The field invariant: sixteen distinct cell objects, the first being `emptyCell`,
     * whose values form a valid board.
     */
    ghost predicate Valid()
      reads this, cells
    {
      && |cells| == CellsCount
      && cells[0] == emptyCell
      && (forall i, j :: 0 <= i < j < |cells| ==> cells[i] != cells[j])
      && ValidBoard(CurrentBoard())
    }

    /**
     * Loading the script: `emptyCell` at top 0, left 0 with value 0 is pushed as `cells[0]`,
     * and `numbers` is 0 followed by the shuffled tile numbers.
     */
    constructor (shuffled: seq<int>)
      requires IsShuffle(shuffled)
      ensures fresh(emptyCell) && emptyCell.State() == EmptyCell
      ensures cells == [emptyCell] && numbers == Numbers(shuffled)
    {
      emptyCell := new Cell(0, 0, 0);
      numbers := Numbers(shuffled);
      cells := [emptyCell];
    }

    /**
     * `createCell`: a new cell object at `position` with `value` is pushed onto `cells`.
     * The click handler bound to `index` reaches it as `cells[index]` when `index` is the
     * length of the list before the push.
     */
    method CreateCell(index: int, value: int, position: Position) returns (cell: Cell)
      modifies this
      ensures fresh(cell) && cell.State() == CellState(position.left, position.top, value)
      ensures cells == old(cells) + [cell]
      ensures index == |old(cells)| ==> cells[index] == cell
    {
      cell := new Cell(position.left, position.top, value);
      cells := cells + [cell];
    }

    /**
     * `createField(16)`: tile `i` for i = 1..15 is placed at PositionOf(i) with `numbers[i]`
     * and pushed in loop order, so the list becomes Layout(numbers), a valid board.
     */
    method CreateField()
      requires cells == [emptyCell] && emptyCell.State() == EmptyCell
      requires |numbers| == CellsCount && numbers[0] == 0 && IsShuffle(numbers[1..])
      modifies this
      ensures Valid() && CurrentBoard() == Layout(numbers)
      ensures forall i :: 1 <= i < |cells| ==> fresh(cells[i])
    {
      var i := 1;
      while i < CellsCount
        invariant 1 <= i <= CellsCount
        invariant |cells| == i && cells[0] == emptyCell
        invariant forall k :: 1 <= k < i ==> fresh(cells[k])
        invariant forall j, k :: 0 <= j < k < i ==> cells[j] != cells[k]
        invariant CurrentBoard() == Layout(numbers)[..i]
      {
        var position := PositionOf(i);
        var value := numbers[i];
        var cell := CreateCell(i, value, position);
        i := i + 1;
      }
      assert numbers == Numbers(numbers[1..]);
      LayoutValid(numbers[1..]);
    }

    /**
     * `cells.every(...)` of moveCell: true iff every cell other than `emptyCell` carries the
     * value of its row-major position (plus one when the blank is away from (0, 0)).
     */
    method CheckFinished() returns (finished: bool)
      requires Valid()
      ensures finished == IsFinished(CurrentBoard())
    {
      var i := 0;
      while i < |cells|
        invariant 0 <= i <= |cells|
        invariant forall k :: 1 <= k < i ==> TileInPlace(CurrentBoard(), k)
      {
        var cell := cells[i];
        if cell != emptyCell {
          var inPlace := if emptyCell.top == 0 && emptyCell.left == 0
            then cell.value == cell.top * 4 + cell.left
            else cell.value == (cell.top * 4 + cell.left) + 1;
          if !inPlace {
            assert i != 0 && CurrentBoard()[i] == cell.State() && CurrentBoard()[0] == emptyCell.State();
            assert !TileInPlace(CurrentBoard(), i);
            return false;
          }
        }
        i := i + 1;
      }
      return true;
    }

    /**
     * `moveCell(index)`: rejected (nothing changes) when the tile is more than one square from
     * the blank; otherwise the tile and `emptyCell` exchange coordinates in place. `won` says
     * whether the win message is shown, which only an accepted move can trigger. Handlers
     * exist only for the tiles, indices 1..15.
     */
    method MoveCell(index: int) returns (won: bool)
      requires Valid() && 1 <= index < |cells|
      modifies cells[index], emptyCell
      ensures Valid()
      ensures CurrentBoard() == Step(old(CurrentBoard()), index)
      ensures won == (MoveAllowed(old(CurrentBoard()), index) && IsFinished(CurrentBoard()))
    {
      ghost var before := CurrentBoard();
      var cell := cells[index];
      var leftDiff := Abs(emptyCell.left - cell.left);
      var topDiff := Abs(emptyCell.top - cell.top);

      if leftDiff + topDiff > 1 {
        return false;
      }

      var currentLeft, currentTop := cell.left, cell.top;
      cell.left := emptyCell.left;
      cell.top := emptyCell.top;
      emptyCell.left := currentLeft;
      emptyCell.top := currentTop;

      assert CurrentBoard() == Step(before, index);
      StepPreservesValid(before, index);
      won := CheckFinished();
    }
  }
}
