/** The simulation's specification: generations of Conway's Game of Life as
    values, with no grid objects and no in-place updates. The imperative grid
    in module Grids is proved against these definitions. */
module Life {

  /** One generation: b[y][x] tells whether the cell in row y, column x is alive. */
  type Board = seq<seq<bool>>

  /** b has exactly h rows of exactly w cells each. */
  predicate IsGrid(b: Board, h: int, w: int)
  {
    |b| == h && forall i :: 0 <= i < h ==> |b[i]| == w
  }

  /** Whether (i, j) is on the board and alive; positions off the board read as dead. */
  predicate LiveAt(b: Board, i: int, j: int)
  {
    0 <= i < |b| && 0 <= j < |b[i]| && b[i][j]
  }

  /** The live neighbours of (y, x): the live cells of the 3x3 window centred on it,
      clipped to the board, with (y, x) itself left out. */
  function NeighbourSet(b: Board, y: int, x: int): set<(int, int)>
  {
    set i, j | y - 1 <= i <= y + 1 && x - 1 <= j <= x + 1 && (i, j) != (y, x) && LiveAt(b, i, j) :: (i, j)
  }

  /** The number of live neighbours of (y, x). */
  function NeighbourCount(b: Board, y: int, x: int): nat
  {
    |NeighbourSet(b, y, x)|
  }

  /** The transition rule B3/S23: a live cell survives with two or three live
      neighbours, a dead cell comes alive with exactly three, every other cell is dead. */
  function Rule(alive: bool, n: int): (r: bool)
    ensures alive ==> (r <==> n == 2 || n == 3)
    ensures !alive ==> (r <==> n == 3)
    ensures r ==> 2 <= n <= 3
  {
    n == 3 || (alive && n == 2)
  }

  /** The next generation: every cell takes the rule applied to its own state and
      its neighbour count, both read from b — all cells change at once. */
  function NextGen(b: Board): (r: Board)
    ensures |r| == |b|
    ensures forall y :: 0 <= y < |b| ==> |r[y]| == |b[y]|
  {
    seq(|b|, y requires 0 <= y < |b| =>
      seq(|b[y]|, x requires 0 <= x < |b[y]| => Rule(b[y][x], NeighbourCount(b, y, x))))
  }

  /** The board after k generations. */
  function Generations(b: Board, k: nat): (r: Board)
    ensures |r| == |b|
    ensures forall y :: 0 <= y < |b| ==> |r[y]| == |b[y]|
  {
    if k == 0 then b else NextGen(Generations(b, k - 1))
  }

  // ---------------------------------------------------------------------------
  // Counting neighbours by offsets: an independent reference definition

  /** 1 when (i, j) is on the board and alive, 0 otherwise. */
  function LiveBit(b: Board, i: int, j: int): nat
  {
    if LiveAt(b, i, j) then 1 else 0
  }

  /** The textbook count: the live cells among the eight offsets around (y, x). */
  function OffsetCount(b: Board, y: int, x: int): nat
  {
    LiveBit(b, y - 1, x - 1) + LiveBit(b, y - 1, x) + LiveBit(b, y - 1, x + 1) +
    LiveBit(b, y, x - 1) + LiveBit(b, y, x + 1) +
    LiveBit(b, y + 1, x - 1) + LiveBit(b, y + 1, x) + LiveBit(b, y + 1, x + 1)
  }

  /** {(i, j)} when that cell is alive, {} otherwise. */
  function LiveSingleton(b: Board, i: int, j: int): set<(int, int)>
  {
    if LiveAt(b, i, j) then {(i, j)} else {}
  }

  /** The live cells among (i, x - 1), (i, x) and (i, x + 1). */
  function RowTriple(b: Board, i: int, x: int): set<(int, int)>
  {
    LiveSingleton(b, i, x - 1) + LiveSingleton(b, i, x) + LiveSingleton(b, i, x + 1)
  }

  /** The live cells among (i, x - 1) and (i, x + 1). */
  function RowPair(b: Board, i: int, x: int): set<(int, int)>
  {
    LiveSingleton(b, i, x - 1) + LiveSingleton(b, i, x + 1)
  }

  /** The live cells at the eight offsets around (y, x), row by row. */
  function OffsetSet(b: Board, y: int, x: int): set<(int, int)>
  {
    RowTriple(b, y - 1, x) + RowPair(b, y, x) + RowTriple(b, y + 1, x)
  }

  lemma NeighbourSetIsOffsetSet(b: Board, y: int, x: int)
    ensures NeighbourSet(b, y, x) == OffsetSet(b, y, x)
  {
    forall p | p in NeighbourSet(b, y, x) ensures p in OffsetSet(b, y, x) {
      assert p.0 == y - 1 || p.0 == y || p.0 == y + 1;
      assert p.1 == x - 1 || p.1 == x || p.1 == x + 1;
    }
  }

  lemma RowTripleSize(b: Board, i: int, x: int)
    ensures |RowTriple(b, i, x)| == LiveBit(b, i, x - 1) + LiveBit(b, i, x) + LiveBit(b, i, x + 1)
    ensures forall p :: p in RowTriple(b, i, x) ==> p.0 == i
  {
  }

  lemma RowPairSize(b: Board, i: int, x: int)
    ensures |RowPair(b, i, x)| == LiveBit(b, i, x - 1) + LiveBit(b, i, x + 1)
    ensures forall p :: p in RowPair(b, i, x) ==> p.0 == i
  {
  }

  lemma OffsetSetSize(b: Board, y: int, x: int)
    ensures |OffsetSet(b, y, x)| == OffsetCount(b, y, x)
  {
    var top, mid, bot := RowTriple(b, y - 1, x), RowPair(b, y, x), RowTriple(b, y + 1, x);
    RowTripleSize(b, y - 1, x);
    RowPairSize(b, y, x);
    RowTripleSize(b, y + 1, x);
    assert top * mid == {};
    assert (top + mid) * bot == {};
  }

  /** The clipped-window count equals the eight-offset count. */
  lemma NeighbourCountIsOffsetCount(b: Board, y: int, x: int)
    ensures NeighbourCount(b, y, x) == OffsetCount(b, y, x)
  {
    NeighbourSetIsOffsetSet(b, y, x);
    OffsetSetSize(b, y, x);
  }

  /** A cell never has more than eight live neighbours. */
  lemma NeighbourCountAtMostEight(b: Board, y: int, x: int)
    ensures NeighbourCount(b, y, x) <= 8
  {
    NeighbourCountIsOffsetCount(b, y, x);
  }

  /** The corner (0, 0) counts exactly its three on-board neighbours. */
  lemma CornerCount(b: Board)
    ensures NeighbourCount(b, 0, 0) == LiveBit(b, 0, 1) + LiveBit(b, 1, 0) + LiveBit(b, 1, 1)
  {
    NeighbourCountIsOffsetCount(b, 0, 0);
  }

  /** Any corner of an h x w grid has at most three live neighbours. */
  lemma CornerAtMostThree(b: Board, h: int, w: int, y: int, x: int)
    requires IsGrid(b, h, w)
    requires y == 0 || y == h - 1
    requires x == 0 || x == w - 1
    ensures NeighbourCount(b, y, x) <= 3
  {
    NeighbourCountIsOffsetCount(b, y, x);
  }

  // ---------------------------------------------------------------------------
  // Scenarios on a 3x3 grid

  /** A cell of the next generation, with its count taken by offsets. */
  lemma NextGenAt(b: Board, y: int, x: int)
    requires 0 <= y < |b| && 0 <= x < |b[y]|
    ensures NextGen(b)[y][x] == Rule(b[y][x], OffsetCount(b, y, x))
  {
    NeighbourCountIsOffsetCount(b, y, x);
  }

  /** A 3x3 board whose only live cells are (x, y) = (0, 1), (1, 1), (2, 1). */
  predicate HorizontalLine(b: Board)
  {
    IsGrid(b, 3, 3) && forall y, x :: 0 <= y < 3 && 0 <= x < 3 ==> (b[y][x] <==> y == 1)
  }

  /** A 3x3 board whose only live cells are (x, y) = (1, 0), (1, 1), (1, 2). */
  predicate VerticalLine(b: Board)
  {
    IsGrid(b, 3, 3) && forall y, x :: 0 <= y < 3 && 0 <= x < 3 ==> (b[y][x] <==> x == 1)
  }

  /** A 3x3 board whose only live cell is the centre (1, 1). */
  predicate LoneCentre(b: Board)
  {
    IsGrid(b, 3, 3) && forall y, x :: 0 <= y < 3 && 0 <= x < 3 ==> (b[y][x] <==> y == 1 && x == 1)
  }

  lemma HorizontalBecomesVertical(b: Board)
    requires HorizontalLine(b)
    ensures VerticalLine(NextGen(b))
  {
    forall y, x | 0 <= y < 3 && 0 <= x < 3 ensures NextGen(b)[y][x] <==> x == 1 {
      NextGenAt(b, y, x);
    }
  }

  lemma VerticalBecomesHorizontal(b: Board)
    requires VerticalLine(b)
    ensures HorizontalLine(NextGen(b))
  {
    forall y, x | 0 <= y < 3 && 0 <= x < 3 ensures NextGen(b)[y][x] <==> y == 1 {
      NextGenAt(b, y, x);
    }
  }

  /** Two boards that both hold exactly the horizontal line are equal. */
  lemma HorizontalLineUnique(a: Board, b: Board)
    requires HorizontalLine(a) && HorizontalLine(b)
    ensures a == b
  {
    forall y | 0 <= y < 3 ensures a[y] == b[y] {
      assert forall x :: 0 <= x < 3 ==> a[y][x] == b[y][x];
    }
  }

  /** The blinker: the horizontal line turns vertical after one generation and is
      back, cell for cell, after two. */
  lemma BlinkerOscillates(b: Board)
    requires HorizontalLine(b)
    ensures VerticalLine(Generations(b, 1))
    ensures Generations(b, 2) == b
  {
    assert Generations(b, 1) == NextGen(b);
    assert Generations(b, 2) == NextGen(NextGen(b));
    HorizontalBecomesVertical(b);
    VerticalBecomesHorizontal(NextGen(b));
    HorizontalLineUnique(Generations(b, 2), b);
  }

  /** An isolated live cell dies, and none of its neighbours is born. */
  lemma LoneCellDies(b: Board)
    requires LoneCentre(b)
    ensures IsGrid(NextGen(b), 3, 3)
    ensures forall y, x :: 0 <= y < 3 && 0 <= x < 3 ==> !NextGen(b)[y][x]
  {
    forall y, x | 0 <= y < 3 && 0 <= x < 3 ensures !NextGen(b)[y][x] {
      NextGenAt(b, y, x);
    }
  }
}
