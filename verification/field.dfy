/**
 * Value model of the 4x4 sliding-tile field of main.js: a board is the list `cells`,
 * entry 0 being the blank (`emptyCell`) and entries 1..15 the tiles, each seen as its
 * (left, top, value) triple. The class model in game.dfy is proved against these functions.
 */
module Field {
  import opened Seqs

  /** Side of the grid; the source hard-codes 4 in the layout and in the win check. */
  const Side := 4
  /** Number of cells, the argument of the only call `createField(16)`. */
  const CellsCount := 16

  /** The `position` record built for each tile: a column `left` and a row `top`. */
  datatype Position = Position(left: int, top: int)

  /** What a cell object holds apart from its DOM element. */
  datatype CellState = CellState(left: int, top: int, value: int)

  type Board = seq<CellState>

  /** The blank as it is declared: top 0, left 0, value 0. */
  const EmptyCell := CellState(0, 0, 0)

  function Abs(x: int): (r: nat)
    ensures r == x || r == -x
  {
    if x < 0 then -x else x
  }

  function PositionOfCell(c: CellState): (p: Position)
  {
    Position(c.left, c.top)
  }

  predicate InGrid(p: Position)
  {
    0 <= p.left < Side && 0 <= p.top < Side
  }

  /** Row-major index of a position, `top * 4 + left` as the win check computes it. */
  function Linear(p: Position): (idx: int)
  {
    p.top * Side + p.left
  }

  /** Where the tile created for index `i` is placed: `left = i % 4`, `top = (i - i % 4) / 4`. */
  function PositionOf(i: int): (p: Position)
    requires 0 <= i < CellsCount
    ensures InGrid(p) && Linear(p) == i
  {
    Position(i % Side, (i - i % Side) / Side)
  }

  /** Distinct grid positions have distinct row-major indices. */
  lemma LinearInjective(p: Position, q: Position)
    requires InGrid(p) && InGrid(q) && p != q
    ensures Linear(p) != Linear(q)
  {
  }

  // ---------------------------------------------------------------------------
  // The shuffled numbers

  /** `[...new Array(15).keys()].map(x => x + 1)`: the tile numbers 1..15 in order. */
  function Ascending(): (s: seq<int>)
  {
    seq(CellsCount - 1, k requires 0 <= k < CellsCount - 1 => k + 1)
  }

  /**
   * A possible outcome of sorting 1..15 with a random comparator: fifteen distinct numbers
   * from 1..15 (ShuffleCoversTiles shows each of 1..15 then occurs).
   */
  predicate IsShuffle(s: seq<int>)
  {
    |s| == CellsCount - 1 && AllIn(s, 1, CellsCount) && Distinct(s)
  }

  /**
   * `numbers.unshift(0)`: the blank's 0 in front of the shuffled tile numbers, giving a
   * permutation of 0..15 that starts with 0.
   */
  function Numbers(shuffled: seq<int>): (ns: seq<int>)
    requires IsShuffle(shuffled)
    ensures |ns| == CellsCount && ns[0] == 0 && Distinct(ns)
    ensures forall v :: 0 <= v < CellsCount ==> v in ns
  {
    ShuffleCoversTiles(shuffled);
    assert forall k :: 1 <= k < CellsCount ==> ([0] + shuffled)[k] == shuffled[k - 1];
    [0] + shuffled
  }

  /**
   * A shuffle is a permutation of 1..15: a reordering of the sorted input `Ascending()`,
   * so every tile number occurs in it.
   */
  lemma ShuffleCoversTiles(s: seq<int>)
    requires IsShuffle(s)
    ensures multiset(s) == multiset(Ascending())
    ensures forall v :: 1 <= v < CellsCount ==> v in s
  {
    DistinctFillsRange(s, 1);
    var a := Ascending();
    assert Distinct(a);
    forall v ensures v in s <==> v in a {
      if v in a {
        var k :| 0 <= k < |a| && a[k] == v;
      }
      if 1 <= v < CellsCount {
        assert a[v - 1] == v;
      }
    }
    SameElementsSameMultiset(s, a);
  }

  /**
   * Conversely, every reordering of 1..15 is a shuffle: IsShuffle admits exactly the
   * outcomes the sort can produce.
   */
  lemma PermutationIsShuffle(s: seq<int>)
    requires multiset(s) == multiset(Ascending())
    ensures IsShuffle(s)
  {
    var a := Ascending();
    assert |s| == |multiset(s)| == |multiset(a)| == |a|;
    assert Distinct(a);
    forall i | 0 <= i < |s| ensures 1 <= s[i] < CellsCount {
      assert s[i] in multiset(s);
      assert s[i] in a;
    }
    forall i, j | 0 <= i < j < |s| ensures s[i] != s[j] {
      RepeatCountsTwice(s, i, j);
      DistinctCount(a, s[i]);
    }
  }

  // ---------------------------------------------------------------------------
  // Boards and their invariant

  /** The positions of all cells, in list order, as row-major indices. */
  function Linears(b: Board): (ls: seq<int>)
  {
    seq(|b|, i requires 0 <= i < |b| => Linear(PositionOfCell(b[i])))
  }

  /**
   * The invariant of the field: sixteen cells, the blank first with value 0, tiles valued
   * with distinct numbers from 1..15, and sixteen distinct positions inside the 4x4 grid.
   */
  predicate ValidBoard(b: Board)
  {
    && |b| == CellsCount
    && b[0].value == 0
    && (forall i :: 1 <= i < |b| ==> 1 <= b[i].value < CellsCount)
    && (forall i, j :: 1 <= i < j < |b| ==> b[i].value != b[j].value)
    && (forall i :: 0 <= i < |b| ==> InGrid(PositionOfCell(b[i])))
    && (forall i, j :: 0 <= i < j < |b| ==> PositionOfCell(b[i]) != PositionOfCell(b[j]))
  }

  /** The positions of a valid board are a bijection onto the grid: every square holds a cell. */
  lemma BoardCoversGrid(b: Board, p: Position)
    requires ValidBoard(b) && InGrid(p)
    ensures exists i :: 0 <= i < |b| && PositionOfCell(b[i]) == p
  {
    var ls := Linears(b);
    forall i, j | 0 <= i < j < |ls| ensures ls[i] != ls[j] {
      LinearInjective(PositionOfCell(b[i]), PositionOfCell(b[j]));
    }
    DistinctFillsRange(ls, 0);
    assert Linear(p) in ls;
    var i :| 0 <= i < |ls| && ls[i] == Linear(p);
    if PositionOfCell(b[i]) != p {
      LinearInjective(PositionOfCell(b[i]), p);
    }
  }

  /** The values of the tiles, in list order (the blank left out). */
  function TileValues(b: Board): (vs: seq<int>)
    requires |b| > 0
  {
    seq(|b| - 1, k requires 0 <= k < |b| - 1 => b[k + 1].value)
  }

  /** On a valid board the tile values are a permutation of 1..15: each number is on some tile. */
  lemma TilesCoverNumbers(b: Board)
    requires ValidBoard(b)
    ensures forall v :: 1 <= v < CellsCount ==> v in TileValues(b)
  {
    var vs := TileValues(b);
    forall i, j | 0 <= i < j < |vs| ensures vs[i] != vs[j] {
      assert vs[i] == b[i + 1].value && vs[j] == b[j + 1].value;
    }
    DistinctFillsRange(vs, 1);
  }

  // ---------------------------------------------------------------------------
  // Initial layout (createField)

  /** The tile pushed for index `i`: placed at PositionOf(i) and carrying `numbers[i]`. */
  function TileFor(i: int, numbers: seq<int>): (c: CellState)
    requires 1 <= i < CellsCount && |numbers| == CellsCount
  {
    var p := PositionOf(i);
    CellState(p.left, p.top, numbers[i])
  }

  /** `cells` after `createField(16)`: the blank, then one tile per loop index 1..15. */
  function Layout(numbers: seq<int>): (b: Board)
    requires |numbers| == CellsCount
  {
    [EmptyCell] + seq(CellsCount - 1, k requires 0 <= k < CellsCount - 1 => TileFor(k + 1, numbers))
  }

  /**
   * After setup the blank sits at (0, 0) with value 0, `cells[i]` is the tile created for
   * index `i` (at left i % 4, top i / 4, value numbers[i]), and the board satisfies the
   * invariant (so, by TilesCoverNumbers, its tile values are exactly 1..15).
   */
  lemma LayoutValid(shuffled: seq<int>)
    requires IsShuffle(shuffled)
    ensures var b := Layout(Numbers(shuffled));
      && ValidBoard(b)
      && b[0] == EmptyCell
      && (forall i :: 1 <= i < CellsCount ==>
            b[i].left == i % Side && b[i].top == i / Side && b[i].value == Numbers(shuffled)[i])
  {
  }

  // ---------------------------------------------------------------------------
  // Moves (moveCell)

  /** Manhattan distance between two cells, `leftDiff + topDiff`. */
  function Distance(a: CellState, c: CellState): (d: nat)
    ensures d == 0 <==> PositionOfCell(a) == PositionOfCell(c)
  {
    Abs(a.left - c.left) + Abs(a.top - c.top)
  }

  /** The guard of moveCell: the move goes ahead unless the distance to the blank exceeds 1. */
  predicate MoveAllowed(b: Board, index: int)
    requires 0 <= index < |b|
  {
    !(Distance(b[0], b[index]) > 1)
  }

  /**
   * `moveCell(index)` on the board: a rejected move changes nothing; an accepted one gives
   * the tile the blank's old position and the blank the tile's old position. No value
   * changes and no other cell moves. Only tiles (indices 1..15) carry a click handler.
   */
  function Step(b: Board, index: int): (r: Board)
    requires 1 <= index < |b|
    ensures |r| == |b|
    ensures !MoveAllowed(b, index) ==> r == b
    ensures MoveAllowed(b, index) ==>
      PositionOfCell(r[index]) == PositionOfCell(b[0]) && PositionOfCell(r[0]) == PositionOfCell(b[index])
    ensures forall k :: 0 <= k < |b| ==> r[k].value == b[k].value
    ensures forall k :: 0 <= k < |b| && k != 0 && k != index ==> r[k] == b[k]
  {
    if Distance(b[0], b[index]) > 1 then b
    else
      var cell, blank := b[index], b[0];
      b[index := cell.(left := blank.left, top := blank.top)][0 := blank.(left := cell.left, top := cell.top)]
  }

  /** On a valid board every accepted move of a tile is a slide by exactly one square. */
  lemma AcceptedMoveIsSlide(b: Board, index: int)
    requires ValidBoard(b) && 1 <= index < |b| && MoveAllowed(b, index)
    ensures Distance(b[0], b[index]) == 1
  {
  }

  /** A move keeps the invariant: positions stay distinct and inside the grid. */
  lemma StepPreservesValid(b: Board, index: int)
    requires ValidBoard(b) && 1 <= index < |b|
    ensures ValidBoard(Step(b, index))
  {
  }

  /** The board after clicking the tiles of `path` in order. */
  function Moves(b: Board, path: seq<int>): (r: Board)
    requires forall k :: 0 <= k < |path| ==> 1 <= path[k] < |b|
    decreases |path|
  {
    if path == [] then b
    else
      var b' := Step(b, path[0]);
      Moves(b', path[1..])
  }

  /**
   * After any sequence of moves the board is still valid (positions a bijection onto the
   * grid) and every cell keeps its value.
   */
  lemma {:induction false} MovesPreserveValid(b: Board, path: seq<int>)
    requires ValidBoard(b) && forall k :: 0 <= k < |path| ==> 1 <= path[k] < |b|
    ensures ValidBoard(Moves(b, path))
    ensures forall k :: 0 <= k < |b| ==> Moves(b, path)[k].value == b[k].value
    decreases |path|
  {
    if path != [] {
      StepPreservesValid(b, path[0]);
      MovesPreserveValid(Step(b, path[0]), path[1..]);
    }
  }

  // ---------------------------------------------------------------------------
  // Win check (isFinished)

  predicate BlankAtOrigin(b: Board)
    requires |b| > 0
  {
    b[0].top == 0 && b[0].left == 0
  }

  /** The test `cells.every` applies to a tile: its value against its row-major position. */
  predicate TileInPlace(b: Board, i: int)
    requires 0 <= i < |b|
  {
    if BlankAtOrigin(b) then b[i].value == b[i].top * Side + b[i].left
    else b[i].value == (b[i].top * Side + b[i].left) + 1
  }

  /** `isFinished`: the blank is skipped and every tile passes TileInPlace. */
  predicate IsFinished(b: Board)
  {
    |b| > 0 && forall i :: 1 <= i < |b| ==> TileInPlace(b, i)
  }

  /** Solved with the blank in the top-left corner: the tile on square p carries p. */
  predicate SolvedBlankFirst(b: Board)
  {
    |b| > 0 && PositionOfCell(b[0]) == Position(0, 0)
    && forall i :: 1 <= i < |b| ==> b[i].value == Linear(PositionOfCell(b[i]))
  }

  /** Solved with the blank in the bottom-right corner: the tile on square p carries p + 1. */
  predicate SolvedBlankLast(b: Board)
  {
    |b| > 0 && PositionOfCell(b[0]) == Position(Side - 1, Side - 1)
    && forall i :: 1 <= i < |b| ==> b[i].value == Linear(PositionOfCell(b[i])) + 1
  }

  /**
   * Although the win check branches on wherever the blank is, on a valid board it accepts
   * exactly two arrangements: blank at (0, 0) with tile p on square p, or blank at (3, 3)
   * with tile p + 1 on square p.
   */
  lemma FinishedIff(b: Board)
    requires ValidBoard(b)
    ensures IsFinished(b) <==> SolvedBlankFirst(b) || SolvedBlankLast(b)
  {
    if IsFinished(b) {
      if BlankAtOrigin(b) {
        forall j | 1 <= j < |b| ensures b[j].value == Linear(PositionOfCell(b[j])) {
          assert TileInPlace(b, j);
        }
        assert SolvedBlankFirst(b);
      } else {
        // Some cell sits on the last square; a tile there would need value 16.
        var last := Position(Side - 1, Side - 1);
        BoardCoversGrid(b, last);
        forall j | 1 <= j < |b| ensures b[j].value == Linear(PositionOfCell(b[j])) + 1 && PositionOfCell(b[j]) != last {
          assert TileInPlace(b, j);
        }
        var i :| 0 <= i < |b| && PositionOfCell(b[i]) == last;
        assert i == 0;
        assert SolvedBlankLast(b);
      }
    }
    if SolvedBlankFirst(b) || SolvedBlankLast(b) {
      forall j | 1 <= j < |b| ensures TileInPlace(b, j) {
      }
    }
  }
}
