/**
 The grid: a square of `size` by `size` cells stored row by row
 (`nodes[y][x]`), the bounds check, cell lookup, wall toggling, clearing,
 and the 8-way neighbour relation with its corner-cutting rule.
 */
module GridModel {
  import opened Wrappers
  import opened GridNode

  datatype RawGrid = RawGrid(size: nat, nodes: seq<seq<Node>>)

  /** The constructor's layout: `size` rows of `size` cells, the cell in row y, column x carrying coordinates (x, y). */
  predicate WellFormed(g: RawGrid)
  {
    |g.nodes| == g.size &&
    forall y :: 0 <= y < |g.nodes| ==>
      |g.nodes[y]| == g.size &&
      forall x :: 0 <= x < |g.nodes[y]| ==> g.nodes[y][x].x == x && g.nodes[y][x].y == y
  }

  type Grid = g: RawGrid | WellFormed(g) witness RawGrid(0, [])

  predicate IsValidPosition(g: Grid, x: int, y: int)
  {
    0 <= x < g.size && 0 <= y < g.size
  }

  predicate InBounds(g: Grid, p: Pos)
  {
    IsValidPosition(g, p.x, p.y)
  }

  function At(g: Grid, p: Pos): Node
    requires InBounds(g, p)
  {
    g.nodes[p.y][p.x]
  }

  /** A cell that exists and is a wall (`node is not None and node.is_wall`). */
  predicate WallAt(g: Grid, p: Pos)
  {
    InBounds(g, p) && At(g, p).isWall
  }

  /** Every cell of the grid. */
  function Cells(g: Grid): (s: set<Pos>)
    ensures forall p :: p in s <==> InBounds(g, p)
  {
    set x, y | 0 <= x < g.size && 0 <= y < g.size :: Pos(x, y)
  }

  /** A fresh grid of the given size: no walls, every cell visible, no search state. */
  function NewGrid(size: nat): (g: Grid)
    ensures g.size == size
    ensures forall p :: InBounds(g, p) ==> At(g, p) == NewNode(p.x, p.y, false)
  {
    RawGrid(size, seq(size, y => seq(size, x => NewNode(x, y, false))))
  }

  /** Lookup by coordinates: nothing outside the grid, otherwise the cell with exactly those coordinates. */
  function GetNode(g: Grid, x: int, y: int): (r: Option<Node>)
    ensures r.None? <==> !(0 <= x < g.size && 0 <= y < g.size)
    ensures r.Some? ==> r.value.x == x && r.value.y == y && r.value == At(g, Pos(x, y))
  {
    if !IsValidPosition(g, x, y) then None else Some(g.nodes[y][x])
  }

  /** Replaces one cell, keeping its coordinates. */
  function SetNode(g: Grid, p: Pos, n: Node): (r: Grid)
    requires InBounds(g, p) && n.Position() == p
    ensures r.size == g.size && At(r, p) == n
    ensures forall q :: InBounds(g, q) && q != p ==> At(r, q) == At(g, q)
  {
    g.(nodes := g.nodes[p.y := g.nodes[p.y][p.x := n]])
  }

  /** Two grids of one size that agree on every cell are the same grid. */
  lemma SameCellsSameGrid(a: Grid, b: Grid)
    requires a.size == b.size
    requires forall p :: InBounds(a, p) ==> At(a, p) == At(b, p)
    ensures a == b
  {
    forall y | 0 <= y < a.size
      ensures a.nodes[y] == b.nodes[y]
    {
      forall x | 0 <= x < a.size
        ensures a.nodes[y][x] == b.nodes[y][x]
      {
        assert At(a, Pos(x, y)) == At(b, Pos(x, y));
      }
    }
  }

  /**
   Flips the wall flag of one cell. Outside the grid it fails and changes
   nothing; inside it succeeds and touches that one flag only.
   */
  function ToggleWall(g: Grid, x: int, y: int): (r: (bool, Grid))
    ensures !IsValidPosition(g, x, y) ==> r == (false, g)
    ensures IsValidPosition(g, x, y) ==>
      && r.0
      && r.1.size == g.size
      && At(r.1, Pos(x, y)) == At(g, Pos(x, y)).(isWall := !At(g, Pos(x, y)).isWall)
      && forall q :: InBounds(g, q) && q != Pos(x, y) ==> At(r.1, q) == At(g, q)
  {
    if !IsValidPosition(g, x, y) then (false, g)
    else
      var node := At(g, Pos(x, y));
      (true, SetNode(g, Pos(x, y), node.(isWall := !node.isWall)))
  }

  /** Toggling the same cell twice succeeds both times and restores the grid. */
  lemma ToggleTwiceRestores(g: Grid, x: int, y: int)
    requires IsValidPosition(g, x, y)
    ensures ToggleWall(g, x, y).0 && ToggleWall(ToggleWall(g, x, y).1, x, y).0
    ensures ToggleWall(ToggleWall(g, x, y).1, x, y).1 == g
  {
    var g2 := ToggleWall(ToggleWall(g, x, y).1, x, y).1;
    SameCellsSameGrid(g2, g);
  }

  /** Makes every cell a non-wall and changes nothing else. */
  function Clear(g: Grid): (r: Grid)
    ensures r.size == g.size
    ensures forall p :: InBounds(g, p) ==> At(r, p) == At(g, p).(isWall := false)
  {
    RawGrid(g.size, seq(g.size, y requires 0 <= y < g.size =>
      seq(g.size, x requires 0 <= x < g.size => g.nodes[y][x].(isWall := false))))
  }

  function Abs(a: int): nat
  {
    if a < 0 then -a else a
  }

  /** King-move distance between two cells. */
  function Chebyshev(p: Pos, q: Pos): nat
  {
    var dx := Abs(p.x - q.x);
    var dy := Abs(p.y - q.y);
    if dx < dy then dy else dx
  }

  /** Both orthogonal cells flanking the diagonal move from p to q are walls. */
  predicate CornerCut(g: Grid, p: Pos, q: Pos)
  {
    p.x != q.x && p.y != q.y && WallAt(g, Pos(q.x, p.y)) && WallAt(g, Pos(p.x, q.y))
  }

  /**
   The neighbour relation stated directly: q is on the grid, one king move
   from p, not a wall unless walls are admitted, and not a diagonal squeezed
   between two walls.
   */
  predicate IsNeighbor(g: Grid, p: Pos, q: Pos, wallOk: bool)
  {
    InBounds(g, q) && Chebyshev(p, q) == 1 && (wallOk || !At(g, q).isWall) && !CornerCut(g, p, q)
  }

  /** The loop body for one offset (dx, dy): the cell at that offset, or nothing. */
  function Probe(g: Grid, p: Pos, dx: int, dy: int, wallOk: bool): seq<Pos>
  {
    var q := Pos(p.x + dx, p.y + dy);
    if !IsValidPosition(g, q.x, q.y) then []
    else if !wallOk && At(g, q).isWall then []
    else if dx != 0 && dy != 0 && WallAt(g, Pos(p.x + dx, p.y)) && WallAt(g, Pos(p.x, p.y + dy)) then []
    else [q]
  }

  /** One offset of the loop admits exactly the neighbour at that offset. */
  lemma ProbeSpec(g: Grid, p: Pos, dx: int, dy: int, wallOk: bool)
    requires -1 <= dx <= 1 && -1 <= dy <= 1 && (dx != 0 || dy != 0)
    ensures forall q :: q in Probe(g, p, dx, dy, wallOk) <==> q == Pos(p.x + dx, p.y + dy) && IsNeighbor(g, p, q, wallOk)
  {
    var q := Pos(p.x + dx, p.y + dy);
    assert Chebyshev(p, q) == 1;
  }

  /** Position of the offset from p to q in the order `get_neighbors` scans: dx outer, dy inner, each over -1, 0, 1. */
  function ScanIndex(p: Pos, q: Pos): int
  {
    3 * (q.x - p.x + 1) + (q.y - p.y + 1)
  }

  /** The cells the scan admits from step k of nine on; step 4 is the centre and is skipped. */
  function NeighborsFrom(g: Grid, p: Pos, k: nat, wallOk: bool): (r: seq<Pos>)
    requires k <= 9
    ensures |r| <= if k <= 4 then 8 - k else 9 - k
    ensures forall q :: q in r <==> IsNeighbor(g, p, q, wallOk) && ScanIndex(p, q) >= k
    decreases 9 - k
  {
    if k == 9 then []
    else if k == 4 then NeighborsFrom(g, p, 5, wallOk)
    else
      ScanStep(g, p, k, wallOk);
      Probe(g, p, k / 3 - 1, k % 3 - 1, wallOk) + NeighborsFrom(g, p, k + 1, wallOk)
  }

  /** Step k of the scan probes the offset whose scan index is k, and admits at most that one cell. */
  lemma ScanStep(g: Grid, p: Pos, k: nat, wallOk: bool)
    requires k < 9 && k != 4
    ensures |Probe(g, p, k / 3 - 1, k % 3 - 1, wallOk)| <= 1
    ensures forall q :: q in Probe(g, p, k / 3 - 1, k % 3 - 1, wallOk) <==> IsNeighbor(g, p, q, wallOk) && ScanIndex(p, q) == k
  {
    var dx, dy := k / 3 - 1, k % 3 - 1;
    assert 3 * (dx + 1) + (dy + 1) == k;
    ProbeSpec(g, p, dx, dy, wallOk);
    forall q | IsNeighbor(g, p, q, wallOk)
      ensures ScanIndex(p, q) == k <==> q == Pos(p.x + dx, p.y + dy)
    {
      assert -1 <= q.x - p.x <= 1 && -1 <= q.y - p.y <= 1;
    }
  }

  /**
   The neighbours of p in the order `get_neighbors` visits them (dx outer, dy inner,
   each over -1, 0, 1, the centre skipped). The result is exactly the set
   of cells `IsNeighbor` admits, so at most eight in-bounds cells at king
   distance one, never p itself.
   */
  function Neighbors(g: Grid, p: Pos, wallOk: bool): (r: seq<Pos>)
    ensures |r| <= 8
    ensures forall q :: q in r <==> IsNeighbor(g, p, q, wallOk)
  {
    forall q | IsNeighbor(g, p, q, wallOk)
      ensures ScanIndex(p, q) >= 0
    {
      assert q.x - p.x >= -1 && q.y - p.y >= -1;
    }
    NeighborsFrom(g, p, 0, wallOk)
  }

  /** Each returned cell is inside the grid, one king move away, and never p itself. */
  lemma NeighborsAreAdjacent(g: Grid, p: Pos, wallOk: bool)
    ensures forall q :: q in Neighbors(g, p, wallOk) ==> InBounds(g, q) && Chebyshev(p, q) == 1 && q != p
    ensures !wallOk ==> forall q :: q in Neighbors(g, p, wallOk) ==> !At(g, q).isWall
  {
  }

  /** A diagonal step whose two flanking cells are walls is never offered, whatever `wallOk` is. */
  lemma CornerRule(g: Grid, p: Pos, dx: int, dy: int, wallOk: bool)
    requires (dx == -1 || dx == 1) && (dy == -1 || dy == 1)
    requires WallAt(g, Pos(p.x + dx, p.y)) && WallAt(g, Pos(p.x, p.y + dy))
    ensures Pos(p.x + dx, p.y + dy) !in Neighbors(g, p, wallOk)
  {
    assert CornerCut(g, p, Pos(p.x + dx, p.y + dy));
  }

  /** Admitting walls only ever adds neighbours. */
  lemma WallOkWidens(g: Grid, p: Pos, q: Pos)
    ensures q in Neighbors(g, p, false) ==> q in Neighbors(g, p, true)
    ensures q in Neighbors(g, p, true) && !At(g, q).isWall ==> q in Neighbors(g, p, false)
  {
  }

  /**
   The relation is symmetric: between any two cells when walls are
   admitted, and between non-wall cells otherwise.
   */
  lemma NeighborSymmetric(g: Grid, p: Pos, q: Pos, wallOk: bool)
    requires InBounds(g, p) && InBounds(g, q)
    requires wallOk || (!At(g, p).isWall && !At(g, q).isWall)
    ensures q in Neighbors(g, p, wallOk) <==> p in Neighbors(g, q, wallOk)
  {
    assert Chebyshev(p, q) == Chebyshev(q, p);
    assert CornerCut(g, p, q) <==> CornerCut(g, q, p);
    assert IsNeighbor(g, p, q, wallOk) <==> IsNeighbor(g, q, p, wallOk);
  }

  /** On a cleared grid every in-bounds cell one king move away is a neighbour. */
  lemma ClearedNeighbors(g: Grid, p: Pos, q: Pos)
    ensures q in Neighbors(Clear(g), p, false) <==> InBounds(g, q) && Chebyshev(p, q) == 1
  {
  }

  function Row(size: nat, y: int, x: nat): (r: seq<Pos>)
    ensures forall p :: p in r <==> p.y == y && x <= p.x < size
    decreases size - x
  {
    if x >= size then [] else [Pos(x, y)] + Row(size, y, x + 1)
  }

  function RowsFrom(size: nat, y: nat): (r: seq<Pos>)
    ensures forall p :: p in r <==> y <= p.y < size && 0 <= p.x < size
    decreases size - y
  {
    if y >= size then [] else Row(size, y, 0) + RowsFrom(size, y + 1)
  }

  /** Every cell, row by row (`all_nodes`): each cell of the grid and nothing else. */
  function AllPositions(g: Grid): (r: seq<Pos>)
    ensures forall p :: p in r <==> InBounds(g, p)
  {
    RowsFrom(g.size, 0)
  }

  lemma {:induction false} RowLength(size: nat, y: int, x: nat)
    ensures |Row(size, y, x)| == if x <= size then size - x else 0
    decreases size - x
  {
    if x < size {
      RowLength(size, y, x + 1);
    }
  }

  lemma {:induction false} RowsFromLength(size: nat, y: nat)
    ensures |RowsFrom(size, y)| == if y <= size then (size - y) * size else 0
    decreases size - y
  {
    if y < size {
      RowLength(size, y, 0);
      RowsFromLength(size, y + 1);
      assert (size - y) * size == size + (size - (y + 1)) * size;
    }
  }

  /** `all_nodes` lists size * size cells. */
  lemma AllPositionsLength(g: Grid)
    ensures |AllPositions(g)| == g.size * g.size
  {
    RowsFromLength(g.size, 0);
  }

  /** No cell listed twice. */
  predicate Distinct(s: seq<Pos>)
  {
    forall i, j :: 0 <= i < j < |s| ==> s[i] != s[j]
  }

  lemma {:induction false} RowDistinct(size: nat, y: int, x: nat)
    ensures Distinct(Row(size, y, x))
    decreases size - x
  {
    if x < size {
      RowDistinct(size, y, x + 1);
      var r := Row(size, y, x);
      forall i, j | 0 <= i < j < |r|
        ensures r[i] != r[j]
      {
        assert r[j] == Row(size, y, x + 1)[j - 1];
        if i > 0 {
          assert r[i] == Row(size, y, x + 1)[i - 1];
        } else {
          assert r[j] in Row(size, y, x + 1);
        }
      }
    }
  }

  lemma {:induction false} RowsFromDistinct(size: nat, y: nat)
    ensures Distinct(RowsFrom(size, y))
    decreases size - y
  {
    if y < size {
      var a, b := Row(size, y, 0), RowsFrom(size, y + 1);
      RowDistinct(size, y, 0);
      RowsFromDistinct(size, y + 1);
      var r := a + b;
      forall i, j | 0 <= i < j < |r|
        ensures r[i] != r[j]
      {
        if j < |a| {
          assert r[i] == a[i] && r[j] == a[j];
        } else if i >= |a| {
          assert r[i] == b[i - |a|] && r[j] == b[j - |a|];
        } else {
          assert r[i] in a && r[j] in b;
        }
      }
    }
  }

  /** `all_nodes` lists each cell once. */
  lemma AllPositionsDistinct(g: Grid)
    ensures Distinct(AllPositions(g))
  {
    RowsFromDistinct(g.size, 0);
  }

  lemma {:induction false} DistinctCard(s: seq<Pos>)
    requires Distinct(s)
    ensures |set p | p in s| == |s|
  {
    if s != [] {
      var rest := s[1..];
      assert Distinct(rest) by {
        forall i, j | 0 <= i < j < |rest|
          ensures rest[i] != rest[j]
        {
          assert rest[i] == s[i + 1] && rest[j] == s[j + 1];
        }
      }
      DistinctCard(rest);
      assert (set p | p in s) == (set p | p in rest) + {s[0]};
    }
  }

  /** The grid has size * size cells. */
  lemma CellCount(g: Grid)
    ensures |Cells(g)| == g.size * g.size
  {
    AllPositionsLength(g);
    AllPositionsDistinct(g);
    DistinctCard(AllPositions(g));
    assert Cells(g) == set p | p in AllPositions(g);
  }
}
