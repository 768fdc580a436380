/** The grid of js/init.js: a height x width matrix of cells that one generation
    updates in place, in two passes, and the counters that drive a run. */
module Grids {
  import Life
  import opened Cells

  /** The dimension used when the one given is falsy. */
  const DefaultSize: nat := 50

  /** The number of generations of a run when none is given. */
  const DefaultSteps: nat := 10

  /** JavaScript's `value || fallback` on a number; 0 stands for every falsy value. */
  function OrElse(value: nat, fallback: nat): nat
  {
    if value != 0 then value else fallback
  }

  /** The (x, y) positions of an h x w grid in row-major order: row 0 left to right,
      then row 1, and so on. */
  function RowMajor(h: nat, w: nat): (r: seq<(int, int)>)
    ensures |r| == h * w
    ensures forall k :: 0 <= k < |r| ==> 0 <= r[k].0 < w && 0 <= r[k].1 < h
  {
    if h == 0 then [] else RowMajor(h - 1, w) + seq(w, x => (x, h - 1))
  }

  /** Position (x, y) comes exactly at index y * w + x of the row-major order. */
  lemma {:induction false} RowMajorAt(h: nat, w: nat, y: int, x: int)
    requires 0 <= y < h && 0 <= x < w
    ensures y * w + x < h * w && RowMajor(h, w)[y * w + x] == (x, y)
  {
    var prefix := RowMajor(h - 1, w);
    assert (h - 1) * w + w == h * w;
    if y == h - 1 {
      assert RowMajor(h, w)[|prefix| + x] == (x, y);
    } else {
      RowMajorAt(h - 1, w, y, x);
      assert RowMajor(h, w)[y * w + x] == prefix[y * w + x];
    }
  }

  /** Row-major order never visits a position twice. */
  lemma RowMajorDistinct(h: nat, w: nat, k: int, l: int)
    requires 0 <= k < l < h * w
    ensures RowMajor(h, w)[k] != RowMajor(h, w)[l]
  {
  }

  /** Index k of the row-major order holds the position (k % w, k / w). */
  lemma {:induction false} RowMajorIndex(h: nat, w: nat, k: int)
    requires 0 <= k < h * w
    ensures RowMajor(h, w)[k] == (k % w, k / w)
  {
    var prefix := RowMajor(h - 1, w);
    assert (h - 1) * w + w == h * w;
    if k < |prefix| {
      RowMajorIndex(h - 1, w, k);
    } else {
      var x := k - |prefix|;
      assert RowMajor(h, w)[k] == (x, h - 1);
      assert k == (h - 1) * w + x;
      DivModUnique(k, w, h - 1, x);
    }
  }

  lemma DivModUnique(k: int, w: int, q: int, r: int)
    requires 0 <= r < w && k == q * w + r
    ensures k / w == q && k % w == r
  {
    var q', r' := k / w, k % w;
    assert (q - q') * w == r' - r;
    if q > q' {
      AtLeastOnce(q - q', w);
    } else if q < q' {
      AtLeastOnce(q' - q, w);
    }
  }

  lemma AtLeastOnce(d: int, w: nat)
    requires d >= 1
    ensures d * w >= w
  {
  }

  // ---------------------------------------------------------------------------
  // The window scan of Cell.countLivingNeighbours, as facts about values

  /** Position p comes before (i, j) when the window is scanned row by row. */
  predicate Before(p: (int, int), i: int, j: int)
  {
    p.0 < i || (p.0 == i && p.1 < j)
  }

  /** seen holds exactly the live neighbours of (y, x) that come before (i, j). */
  ghost predicate ScannedUpTo(seen: set<(int, int)>, b: Life.Board, y: int, x: int, i: int, j: int)
  {
    forall p :: p in seen <==> p in Life.NeighbourSet(b, y, x) && Before(p, i, j)
  }

  /** Nothing comes before the clamped top-left corner of the window. */
  lemma ScanStart(b: Life.Board, y: int, x: int, i: int, j: int)
    requires i == (if y - 1 > 0 then y - 1 else 0) && j == (if x - 1 > 0 then x - 1 else 0)
    ensures ScannedUpTo({}, b, y, x, i, j)
  {
  }

  /** Looking at one cell of the window adds it exactly when it is a live neighbour. */
  lemma ScanCell(seen: set<(int, int)>, b: Life.Board, y: int, x: int, i: int, j: int)
    requires ScannedUpTo(seen, b, y, x, i, j)
    requires 0 <= i < |b| && 0 <= j < |b[i]|
    requires y - 1 <= i <= y + 1 && x - 1 <= j <= x + 1
    ensures (i, j) !in seen
    ensures ScannedUpTo(if b[i][j] && (i, j) != (y, x) then seen + {(i, j)} else seen, b, y, x, i, j + 1)
  {
  }

  /** Past the last column of the window, the scan moves on to the next row. */
  lemma ScanRowEnd(seen: set<(int, int)>, b: Life.Board, h: int, w: int, y: int, x: int, i: int, j: int)
    requires Life.IsGrid(b, h, w)
    requires ScannedUpTo(seen, b, y, x, i, j)
    requires j == (if x + 1 < w - 1 then x + 1 else w - 1) + 1
    ensures ScannedUpTo(seen, b, y, x, i + 1, if x - 1 > 0 then x - 1 else 0)
  {
  }

  /** Past the last row of the window, every live neighbour has been seen. */
  lemma ScanEnd(seen: set<(int, int)>, b: Life.Board, h: int, y: int, x: int, i: int, j: int)
    requires |b| == h
    requires ScannedUpTo(seen, b, y, x, i, j)
    requires i == (if y + 1 < h - 1 then y + 1 else h - 1) + 1
    ensures seen == Life.NeighbourSet(b, y, x)
  {
  }

  class Grid {
    var width: nat
    var height: nat
    /** rows[y, x] is the cell in row y, column x. */
    var rows: array2<Cell>
    /** Generations done and generations requested in the current run. */
    var currentStep: int
    var nsteps: int
    /** Whether the interval timer of a run is still firing Step. */
    var timerActive: bool

    /** The grid invariant: height rows of width cells, each knowing its own position. */
    ghost predicate Valid()
      reads this, rows
    {
      rows.Length0 == height && rows.Length1 == width &&
      forall i, j :: 0 <= i < height && 0 <= j < width ==> rows[i, j].x == j && rows[i, j].y == i
    }

    /** The alive flags of the cells, as a board. */
    ghost function Board(): (b: Life.Board)
      reads this, rows
      ensures Life.IsGrid(b, rows.Length0, rows.Length1)
      ensures forall i, j :: 0 <= i < rows.Length0 && 0 <= j < rows.Length1 ==> b[i][j] == rows[i, j].alive
    {
      var a := rows;
      seq(a.Length0, i requires 0 <= i < a.Length0 reads a =>
        seq(a.Length1, j requires 0 <= j < a.Length1 reads a => a[i, j].alive))
    }

    /** A board of the grid's shape that agrees with every alive flag is Board(). */
    lemma BoardIs(b: Life.Board)
      requires Life.IsGrid(b, rows.Length0, rows.Length1)
      requires forall i, j :: 0 <= i < rows.Length0 && 0 <= j < rows.Length1 ==> b[i][j] == rows[i, j].alive
      ensures Board() == b
    {
      var c := Board();
      forall i | 0 <= i < |b| ensures c[i] == b[i] {
        assert forall j :: 0 <= j < |b[i]| ==> c[i][j] == b[i][j];
      }
    }

    /** new Grid(gridWidth, gridHeight): dimensions with their defaults, no cells yet,
        no run. The counters start as null, which compares like 0. */
    constructor (gridWidth: nat, gridHeight: nat)
      ensures width == OrElse(gridWidth, DefaultSize) && height == OrElse(gridHeight, DefaultSize)
      ensures 0 < width && 0 < height
      ensures rows.Length0 == 0 && rows.Length1 == 0
      ensures currentStep == 0 && nsteps == 0 && !timerActive
    {
      width := OrElse(gridWidth, DefaultSize);
      height := OrElse(gridHeight, DefaultSize);
      rows := new Cell[0, 0];
      currentStep, nsteps := 0, 0;
      timerActive := false;
    }

    /** Grid.init: a fresh height x width matrix of dead cells, each holding its own
        coordinates and no neighbour count. */
    method Init()
      modifies this
      ensures Valid() && fresh(rows)
      ensures width == old(width) && height == old(height)
      ensures currentStep == old(currentStep) && nsteps == old(nsteps) && timerActive == old(timerActive)
      ensures forall i, j :: 0 <= i < height && 0 <= j < width ==> rows[i, j] == Cell(j, i, false, None)
    {
      var h, w := height, width;
      var a := new Cell[h, w];
      for y := 0 to h
        modifies a
        invariant forall i, j :: 0 <= i < y && 0 <= j < w ==> a[i, j] == Cell(j, i, false, None)
      {
        for x := 0 to w
          modifies a
          invariant forall i, j :: 0 <= i < y && 0 <= j < w ==> a[i, j] == Cell(j, i, false, None)
          invariant forall j :: 0 <= j < x ==> a[y, j] == Cell(j, y, false, None)
        {
          a[y, x] := Cell(x, y, false, None);
        }
      }
      rows := a;
    }

    /** Grid.resize: new dimensions (falsy ones fall back to the default), then every
        cell is rebuilt dead; no earlier state survives, whatever the dimensions. */
    method Resize(gridWidth: nat, gridHeight: nat)
      modifies this
      ensures Valid() && fresh(rows)
      ensures width == OrElse(gridWidth, DefaultSize) && height == OrElse(gridHeight, DefaultSize)
      ensures 0 < width && 0 < height
      ensures currentStep == old(currentStep) && nsteps == old(nsteps) && timerActive == old(timerActive)
      ensures forall i, j :: 0 <= i < height && 0 <= j < width ==> rows[i, j] == Cell(j, i, false, None)
    {
      width := OrElse(gridWidth, DefaultSize);
      height := OrElse(gridHeight, DefaultSize);
      Init();
    }

    /** Grid.traverse: the calls the callback receives, as (cell, x, y) triples in the
        order they are made — every position once, in row-major order, each with the
        cell stored there. */
    method Traverse() returns (visits: seq<(Cell, int, int)>)
      requires Valid()
      ensures |visits| == height * width
      ensures forall k :: 0 <= k < |visits| ==>
                (visits[k].1, visits[k].2) == RowMajor(height, width)[k] &&
                visits[k].0 == rows[visits[k].2, visits[k].1]
    {
      visits := [];
      var y := 0;
      while y < height
        invariant 0 <= y <= height
        invariant |visits| == |RowMajor(y, width)|
        invariant forall k :: 0 <= k < |visits| ==>
                    (visits[k].1, visits[k].2) == RowMajor(y, width)[k] &&
                    visits[k].0 == rows[visits[k].2, visits[k].1]
      {
        var row: seq<(Cell, int, int)> := [];
        var x := 0;
        while x < width
          invariant 0 <= x <= width
          invariant |row| == x
          invariant forall j :: 0 <= j < x ==> row[j] == (rows[y, j], j, y)
        {
          row := row + [(rows[y, x], x, y)];
          x := x + 1;
        }
        visits := visits + row;
        y := y + 1;
      }
    }

    /** The scan of Cell.countLivingNeighbours for the cell at (x, y): the 3x3 window
        clamped to the grid, skipping the cell itself, counting the live cells seen. */
    method LivingNeighbours(y: int, x: int) returns (count: nat)
      requires Valid() && 0 <= y < height && 0 <= x < width
      ensures count == Life.NeighbourCount(Board(), y, x)
    {
      ghost var b := Board();
      count := 0;
      var iLow := if y - 1 > 0 then y - 1 else 0;
      var iHigh := if y + 1 < height - 1 then y + 1 else height - 1;
      var jLow := if x - 1 > 0 then x - 1 else 0;
      var jHigh := if x + 1 < width - 1 then x + 1 else width - 1;
      ghost var seen: set<(int, int)> := {};
      var i := iLow;
      ScanStart(b, y, x, i, jLow);
      while i <= iHigh
        invariant iLow <= i <= iHigh + 1
        invariant count == |seen|
        invariant ScannedUpTo(seen, b, y, x, i, jLow)
      {
        var j := jLow;
        while j <= jHigh
          invariant jLow <= j <= jHigh + 1
          invariant count == |seen|
          invariant ScannedUpTo(seen, b, y, x, i, j)
        {
          ScanCell(seen, b, y, x, i, j);
          if rows[i, j].alive && !(i == y && j == x) {
            seen := seen + {(i, j)};
            count := count + 1;
          }
          j := j + 1;
        }
        ScanRowEnd(seen, b, height, width, y, x, i, j);
        i := i + 1;
      }
      ScanEnd(seen, b, height, y, x, i, jLow);
    }

    /** Cell.countLivingNeighbours for the cell at (x, y): stores the number of its live
        neighbours in that cell. No alive flag changes, and no other cell changes. */
    method CountLivingNeighbours(y: int, x: int)
      requires Valid() && 0 <= y < height && 0 <= x < width
      modifies rows
      ensures Valid() && Board() == old(Board())
      ensures rows[y, x] == old(rows[y, x]).(liveNeighbours := Some(Life.NeighbourCount(old(Board()), y, x)))
      ensures forall i, j :: 0 <= i < height && 0 <= j < width && (i, j) != (y, x) ==> rows[i, j] == old(rows[i, j])
    {
      ghost var b := Board();
      var count := LivingNeighbours(y, x);
      rows[y, x] := rows[y, x].(liveNeighbours := Some(count));
      BoardIs(b);
    }

    /** The first traverse of Grid.step: every cell counts its live neighbours, all
        counts taken on the same, unchanged generation. */
    method CountPass()
      requires Valid()
      modifies rows
      ensures Valid() && Board() == old(Board())
      ensures forall i, j :: 0 <= i < height && 0 <= j < width ==>
                rows[i, j] == old(rows[i, j]).(liveNeighbours := Some(Life.NeighbourCount(old(Board()), i, j)))
    {
      ghost var b := Board();
      var y := 0;
      while y < height
        invariant 0 <= y <= height
        invariant Valid() && Board() == b
        invariant forall i, j :: 0 <= i < height && 0 <= j < width ==>
                    rows[i, j] == if i < y then old(rows[i, j]).(liveNeighbours := Some(Life.NeighbourCount(b, i, j)))
                                  else old(rows[i, j])
      {
        var x := 0;
        while x < width
          invariant 0 <= x <= width
          invariant Valid() && Board() == b
          invariant forall i, j :: 0 <= i < height && 0 <= j < width ==>
                      rows[i, j] == if Before((i, j), y, x) then old(rows[i, j]).(liveNeighbours := Some(Life.NeighbourCount(b, i, j)))
                                    else old(rows[i, j])
        {
          CountLivingNeighbours(y, x);
          x := x + 1;
        }
        y := y + 1;
      }
    }

    /** The second traverse of Grid.step: Cell.update with the rule callback on every
        cell; each cell reads only its own state and its own stored count. */
    method UpdatePass()
      requires Valid()
      modifies rows
      ensures Valid()
      ensures forall i, j :: 0 <= i < height && 0 <= j < width ==>
                rows[i, j] == Update(old(rows[i, j]), TransitionCallback)
    {
      var y := 0;
      while y < height
        invariant 0 <= y <= height
        invariant forall i, j :: 0 <= i < y && 0 <= j < width ==> rows[i, j] == Update(old(rows[i, j]), TransitionCallback)
        invariant forall i, j :: y <= i < height && 0 <= j < width ==> rows[i, j] == old(rows[i, j])
      {
        var x := 0;
        while x < width
          invariant 0 <= x <= width
          invariant forall i, j :: 0 <= i < y && 0 <= j < width ==> rows[i, j] == Update(old(rows[i, j]), TransitionCallback)
          invariant forall j :: 0 <= j < x ==> rows[y, j] == Update(old(rows[y, j]), TransitionCallback)
          invariant forall i, j :: 0 <= i < height && 0 <= j < width && (i > y || (i == y && j >= x)) ==>
                      rows[i, j] == old(rows[i, j])
        {
          rows[y, x] := Update(rows[y, x], TransitionCallback);
          x := x + 1;
        }
        y := y + 1;
      }
    }

    /** Grid.step. While the run has generations left, one synchronous generation:
        every cell's new state is the rule applied to its old state and to a count
        taken over the whole previous generation; the step counter advances by one.
        Otherwise no cell changes and the timer is cancelled. */
    method Step()
      requires Valid()
      modifies this, rows
      ensures Valid() && rows == old(rows)
      ensures width == old(width) && height == old(height) && nsteps == old(nsteps)
      ensures old(currentStep < nsteps) ==>
                && Board() == Life.NextGen(old(Board()))
                && currentStep == old(currentStep) + 1
                && timerActive == old(timerActive)
                && forall i, j :: 0 <= i < height && 0 <= j < width ==>
                     rows[i, j].liveNeighbours == Some(Life.NeighbourCount(old(Board()), i, j))
      ensures !old(currentStep < nsteps) ==>
                && unchanged(rows)
                && currentStep == old(currentStep)
                && !timerActive
    {
      if currentStep < nsteps {
        ghost var b := Board();
        CountPass();
        UpdatePass();
        forall i, j | 0 <= i < height && 0 <= j < width
          ensures rows[i, j].alive == Life.NextGen(b)[i][j]
        {
          assert Life.NextGen(b)[i][j] == Life.Rule(b[i][j], Life.NeighbourCount(b, i, j));
        }
        BoardIs(Life.NextGen(b));
        currentStep := currentStep + 1;
      } else {
        timerActive := false;
      }
    }

    /** The generations a run still has to compute. */
    function Remaining(): nat
      reads this
    {
      if currentStep < nsteps then nsteps - currentStep else 0
    }

    /** The start action: a run of n generations (a falsy n asks for the default),
        counted from 0, with its interval timer firing. */
    method Start(n: nat)
      modifies this
      ensures nsteps == OrElse(n, DefaultSteps) && currentStep == 0 && timerActive
      ensures Remaining() == nsteps && 0 < nsteps
      ensures rows == old(rows) && width == old(width) && height == old(height)
    {
      nsteps := OrElse(n, DefaultSteps);
      currentStep := 0;
      timerActive := true;
    }

    /** The interval timer: Step fires until it cancels the timer, with no other event
        between two ticks. An active run ends with exactly the generations it had left
        computed; without one nothing happens. */
    method Run()
      requires Valid()
      modifies this, rows
      ensures Valid() && rows == old(rows) && !timerActive
      ensures width == old(width) && height == old(height) && nsteps == old(nsteps)
      ensures var k := if old(timerActive) then old(Remaining()) else 0;
              Board() == Life.Generations(old(Board()), k) && currentStep == old(currentStep) + k
    {
      ghost var b := Board();
      ghost var start := currentStep;
      while timerActive
        invariant Valid() && rows == old(rows)
        invariant width == old(width) && height == old(height) && nsteps == old(nsteps)
        invariant start <= currentStep
        invariant Board() == Life.Generations(b, currentStep - start)
        invariant old(timerActive) ==> currentStep - start + Remaining() == old(Remaining())
        invariant old(timerActive) && !timerActive ==> Remaining() == 0
        invariant !old(timerActive) ==> currentStep == start && !timerActive
        decreases timerActive, Remaining()
      {
        Step();
      }
    }
  }
}
