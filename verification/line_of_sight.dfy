/**
 Line of sight: Bresenham's line walk from one cell towards another,
 stopping at the first wall met. The start cell is examined, the end
 cell is not.
 */
module LineOfSight {
  import opened GridNode
  import opened GridModel

  /** The loop's moving state: the current cell and the error term. */
  datatype Walker = Walker(x: int, y: int, err: int)

  function Dx(p0: Pos, p1: Pos): nat { Abs(p1.x - p0.x) }
  function Dy(p0: Pos, p1: Pos): nat { Abs(p1.y - p0.y) }
  function Sx(p0: Pos, p1: Pos): int { if p0.x < p1.x then 1 else -1 }
  function Sy(p0: Pos, p1: Pos): int { if p0.y < p1.y then 1 else -1 }

  /** The state before the first iteration. */
  function Start(p0: Pos, p1: Pos): Walker
  {
    Walker(p0.x, p0.y, Dx(p0, p1) - Dy(p0, p1))
  }

  /** One iteration of the loop body; both tests read the error term from before the iteration. */
  function Advance(p0: Pos, p1: Pos, w: Walker): Walker
  {
    var dx: int, dy: int := Dx(p0, p1), Dy(p0, p1);
    var e2 := 2 * w.err;
    var x := if e2 > -dy then w.x + Sx(p0, p1) else w.x;
    var err1 := if e2 > -dy then w.err - dy else w.err;
    var y := if e2 < dx then w.y + Sy(p0, p1) else w.y;
    var err2 := if e2 < dx then err1 + dx else err1;
    Walker(x, y, err2)
  }

  /** Steps taken so far along x and along y. */
  function Cx(p0: Pos, p1: Pos, w: Walker): int { if Sx(p0, p1) == 1 then w.x - p0.x else p0.x - w.x }
  function Cy(p0: Pos, p1: Pos, w: Walker): int { if Sy(p0, p1) == 1 then w.y - p0.y else p0.y - w.y }

  /**
   The loop invariant: neither axis has overshot, and the error term is
   determined by the steps taken.
   */
  predicate OnTrack(p0: Pos, p1: Pos, w: Walker)
  {
    var dx, dy, a, b := Dx(p0, p1), Dy(p0, p1), Cx(p0, p1, w), Cy(p0, p1, w);
    0 <= a <= dx && 0 <= b <= dy && w.err == dx * (1 + b) - dy * (1 + a)
  }

  /** Steps still to take. */
  function Remaining(p0: Pos, p1: Pos, w: Walker): nat
    requires OnTrack(p0, p1, w)
  {
    (Dx(p0, p1) - Cx(p0, p1, w)) + (Dy(p0, p1) - Cy(p0, p1, w))
  }

  predicate Arrived(p1: Pos, w: Walker)
  {
    w.x == p1.x && w.y == p1.y
  }

  lemma StartOnTrack(p0: Pos, p1: Pos)
    ensures OnTrack(p0, p1, Start(p0, p1))
  {
  }

  lemma ArrivedWhenDone(p0: Pos, p1: Pos, w: Walker)
    requires OnTrack(p0, p1, w)
    ensures Arrived(p1, w) <==> Remaining(p0, p1, w) == 0
  {
  }

  lemma MulMono(k: int, i: int, j: int)
    requires 0 <= k && i <= j
    ensures k * i <= k * j
  {
  }

  /** The arithmetic of one iteration, in terms of the steps a, b taken so far. */
  lemma StepArithmetic(dx: int, dy: int, a: int, b: int, e: int)
    requires 0 <= a <= dx && 0 <= b <= dy && !(a == dx && b == dy)
    requires e == dx * (1 + b) - dy * (1 + a)
    ensures 2 * e > -dy ==> a < dx
    ensures 2 * e < dx ==> b < dy
    ensures 2 * e > -dy || 2 * e < dx
    ensures e - dy == dx * (1 + b) - dy * (1 + (a + 1))
    ensures e + dx == dx * (1 + (b + 1)) - dy * (1 + a)
    ensures e - dy + dx == dx * (1 + (b + 1)) - dy * (1 + (a + 1))
  {
    if a == dx {
      MulMono(dx, 1 + b, dy);
      assert dy * (1 + dx) == dy + dx * dy;
    }
    if b == dy {
      MulMono(dy, 1 + a, dx);
      assert dx * (1 + dy) == dx + dx * dy;
    }
    assert dy * (1 + (a + 1)) == dy * (1 + a) + dy;
    assert dx * (1 + (b + 1)) == dx * (1 + b) + dx;
  }

  /** Bresenham never overshoots, always moves one king step, and so terminates. */
  lemma AdvanceKeepsTrack(p0: Pos, p1: Pos, w: Walker)
    requires OnTrack(p0, p1, w) && !Arrived(p1, w)
    ensures OnTrack(p0, p1, Advance(p0, p1, w))
    ensures Remaining(p0, p1, Advance(p0, p1, w)) < Remaining(p0, p1, w)
    ensures Chebyshev(Pos(w.x, w.y), Pos(Advance(p0, p1, w).x, Advance(p0, p1, w).y)) == 1
  {
    ArrivedWhenDone(p0, p1, w);
    StepArithmetic(Dx(p0, p1), Dy(p0, p1), Cx(p0, p1, w), Cy(p0, p1, w), w.err);
  }

  /** The cells the walk examines from state w on: every cell before it reaches p1. */
  function LineFrom(p0: Pos, p1: Pos, w: Walker): (cells: seq<Pos>)
    requires OnTrack(p0, p1, w)
    ensures cells == [] <==> Arrived(p1, w)
    ensures cells != [] ==> cells[0] == Pos(w.x, w.y)
    ensures p1 !in cells
    ensures forall i :: 0 <= i < |cells| - 1 ==> Chebyshev(cells[i], cells[i + 1]) == 1
    ensures cells != [] ==> Chebyshev(cells[|cells| - 1], p1) == 1
    ensures |cells| >= Chebyshev(Pos(w.x, w.y), p1)
    decreases Remaining(p0, p1, w)
  {
    if Arrived(p1, w) then []
    else
      AdvanceKeepsTrack(p0, p1, w);
      var w' := Advance(p0, p1, w);
      var rest := LineFrom(p0, p1, w');
      assert Chebyshev(Pos(w.x, w.y), p1) <= 1 + Chebyshev(Pos(w'.x, w'.y), p1);
      [Pos(w.x, w.y)] + rest
  }

  /**
   The Bresenham line from p0 towards p1 without p1 itself: empty when the
   two cells coincide, otherwise it starts at p0, moves one king step at a
   time, ends next to p1, and has at least as many cells as the king
   distance between the two.
   */
  function Line(p0: Pos, p1: Pos): (cells: seq<Pos>)
    ensures cells == [] <==> p0 == p1
    ensures p0 != p1 ==> cells[0] == p0 && Chebyshev(cells[|cells| - 1], p1) == 1
    ensures p1 !in cells
    ensures forall i :: 0 <= i < |cells| - 1 ==> Chebyshev(cells[i], cells[i + 1]) == 1
    ensures |cells| >= Chebyshev(p0, p1)
  {
    StartOnTrack(p0, p1);
    LineFrom(p0, p1, Start(p0, p1))
  }

  /** Some cell of the list is a wall of the grid. */
  predicate WallIn(g: Grid, cells: seq<Pos>)
  {
    exists c :: c in cells && WallAt(g, c)
  }

  /** Some cell of the line is a wall of the grid. */
  predicate WallOnLine(g: Grid, p0: Pos, p1: Pos)
  {
    WallIn(g, Line(p0, p1))
  }

  lemma WallInCons(g: Grid, c: Pos, rest: seq<Pos>)
    ensures WallIn(g, [c] + rest) <==> WallAt(g, c) || WallIn(g, rest)
  {
    if WallIn(g, [c] + rest) && !WallAt(g, c) {
      var c' :| c' in [c] + rest && WallAt(g, c');
      assert c' in rest;
    }
  }

  /** Between king neighbours the line is the start cell alone: one step reaches the end. */
  lemma AdjacentLine(p0: Pos, p1: Pos)
    requires Chebyshev(p0, p1) == 1
    ensures Line(p0, p1) == [p0]
  {
    StartOnTrack(p0, p1);
    AdvanceKeepsTrack(p0, p1, Start(p0, p1));
    assert Arrived(p1, Advance(p0, p1, Start(p0, p1)));
  }

  /**
   The walk is not symmetric: it examines its start cell but not its end
   cell, so a wall next to an open cell blocks the view from the wall to
   the cell and not the view back.
   */
  lemma SightNotSymmetric(g: Grid, p0: Pos, p1: Pos)
    requires Chebyshev(p0, p1) == 1 && WallAt(g, p0) && !WallAt(g, p1)
    ensures WallOnLine(g, p0, p1) && !WallOnLine(g, p1, p0)
  {
    AdjacentLine(p0, p1);
    AdjacentLine(p1, p0);
    assert p0 in Line(p0, p1);
  }

  /** The body of the walk's loop: one Bresenham step, with both tests on the error term from before the step. */
  method BresenhamStep(pos0: Pos, pos1: Pos, x0: int, y0: int, err: int) returns (x: int, y: int, e: int)
    ensures Walker(x, y, e) == Advance(pos0, pos1, Walker(x0, y0, err))
  {
    var dx: int, dy: int := Abs(pos1.x - pos0.x), Abs(pos1.y - pos0.y);
    var sx := if pos0.x < pos1.x then 1 else -1;
    var sy := if pos0.y < pos1.y then 1 else -1;
    x, y, e := x0, y0, err;
    var e2 := 2 * err;
    if e2 > -dy {
      e := e - dy;
      x := x + sx;
    }
    if e2 < dx {
      e := e + dx;
      y := y + sy;
    }
  }

  /**
   `is_wall_between`: walks the line and reports the first wall. The answer
   is whether the line holds a wall; two equal cells never have a wall
   between them, and a wall start cell always blocks.
   */
  method IsWallBetween(g: Grid, pos0: Pos, pos1: Pos) returns (blocked: bool)
    ensures blocked <==> WallOnLine(g, pos0, pos1)
    ensures pos0 == pos1 ==> !blocked
    ensures pos0 != pos1 && WallAt(g, pos0) ==> blocked
  {
    var x0, y0, err := pos0.x, pos0.y, Abs(pos1.x - pos0.x) - Abs(pos1.y - pos0.y);
    StartOnTrack(pos0, pos1);
    assert Walker(x0, y0, err) == Start(pos0, pos1);
    assert Line(pos0, pos1) == LineFrom(pos0, pos1, Walker(x0, y0, err));
    while x0 != pos1.x || y0 != pos1.y
      invariant OnTrack(pos0, pos1, Walker(x0, y0, err))
      invariant WallOnLine(g, pos0, pos1) <==> WallIn(g, LineFrom(pos0, pos1, Walker(x0, y0, err)))
      decreases Remaining(pos0, pos1, Walker(x0, y0, err))
    {
      ghost var w := Walker(x0, y0, err);
      AdvanceKeepsTrack(pos0, pos1, w);
      WallInCons(g, Pos(x0, y0), LineFrom(pos0, pos1, Advance(pos0, pos1, w)));
      if WallAt(g, Pos(x0, y0)) {
        return true;
      }
      x0, y0, err := BresenhamStep(pos0, pos1, x0, y0, err);
    }
    return false;
  }
}
