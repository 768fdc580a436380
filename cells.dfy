/** A grid cell (js/init.js, Cell): its coordinates, its state and the neighbour
    count cached between the two passes of a generation, together with the
    transition-rule callback that the grid hands to Cell.update. */
module Cells {
  import Life

  datatype Option<T> = None | Some(value: T)

  /** What the rule callback can return: true, false, or nothing at all
      (undefined, when no branch returns). */
  datatype Verdict = JsTrue | JsFalse | JsUndefined

  /** JavaScript truthiness of a verdict: only true is truthy. */
  predicate Truthy(v: Verdict)
  {
    v == JsTrue
  }

  /** A cell at column x, row y. liveNeighbours is None (null) until the first
      count pass stores a count in it. */
  datatype Cell = Cell(x: int, y: int, alive: bool, liveNeighbours: Option<int>)

  /** The rule callback of Grid.step, evaluated on the cell it is bound to.
      A live cell yields true or false; a dead cell yields true with exactly three
      live neighbours and falls through to undefined otherwise. */
  function TransitionCallback(c: Cell): (r: Verdict)
    ensures c.alive ==> r != JsUndefined
    ensures r == JsUndefined <==> !c.alive && c.liveNeighbours != Some(3)
    ensures c.liveNeighbours.Some? ==> (Truthy(r) <==> Life.Rule(c.alive, c.liveNeighbours.value))
    ensures c.liveNeighbours.None? ==> !Truthy(r)
  {
    if c.alive then
      if c.liveNeighbours == Some(2) || c.liveNeighbours == Some(3) then JsTrue else JsFalse
    else if c.liveNeighbours == Some(3) then
      JsTrue
    else
      JsUndefined
  }

  /** Cell.update: the cell takes the truthiness of what the callback says about it;
      its coordinates and its cached count are left alone. */
  function Update(c: Cell, callback: Cell -> Verdict): (r: Cell)
    ensures r.x == c.x && r.y == c.y && r.liveNeighbours == c.liveNeighbours
    ensures r.alive <==> callback(c) == JsTrue
  {
    c.(alive := Truthy(callback(c)))
  }
}
