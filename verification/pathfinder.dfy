/**
 A* search from one cell to another over the 8-way neighbour relation with
 walls excluded. Every step costs one; the heuristic is the Manhattan
 distance. The open set is a set from which any element may be taken next:
 `find_path` keeps its nodes in a binary heap but lowers their scores in
 place, so the heap order is not something a caller can rely on.
 */
module Pathfinder {
  import opened GridNode
  import opened GridModel
  import opened Paths

  /** What one search leaves behind: the path found, the expanded cells and the cells ever queued. */
  datatype Search = Search(path: seq<Pos>, visited: set<Pos>, frontier: set<Pos>)

  const NoSearch := Search([], {}, {})

  /** The Manhattan distance from a cell to the goal. */
  function Heuristic(n: Pos, goal: Pos): (h: nat)
    ensures h == 0 <==> n == goal
    ensures h >= Chebyshev(n, goal)
  {
    Abs(n.x - goal.x) + Abs(n.y - goal.y)
  }

  /** One king move changes the estimate by at most two, so it can overestimate a diagonal step. */
  lemma HeuristicStep(p: Pos, q: Pos, goal: Pos)
    requires Chebyshev(p, q) == 1
    ensures Heuristic(p, goal) <= Heuristic(q, goal) + 2
  {
  }

  /**
   Puts every cell back to its unsearched state and forgets the previous
   search, leaving walls and visibility alone.
   */
  function ResetPathData(g: Grid): (r: (Grid, Search))
    ensures r.1.path == [] && r.1.visited == {} && r.1.frontier == {}
    ensures r.0.size == g.size
    ensures forall p :: InBounds(g, p) ==>
      var n := At(r.0, p); var o := At(g, p);
      n.IsReset() && n.Position() == o.Position() && n.isWall == o.isWall &&
      n.seenByHider == o.seenByHider && n.seenBySeeker == o.seenBySeeker && n.stench == o.stench
  {
    (RawGrid(g.size, seq(g.size, y requires 0 <= y < g.size =>
      seq(g.size, x requires 0 <= x < g.size => g.nodes[y][x].ResetPathData()))), NoSearch)
  }

  /** Resetting twice is resetting once. */
  lemma ResetIdempotent(g: Grid)
    ensures ResetPathData(ResetPathData(g).0) == ResetPathData(g)
  {
    var once := ResetPathData(g).0;
    SameCellsSameGrid(ResetPathData(once).0, once);
  }

  /** Score of a cell in a score map; cells off the map, and negative scores, count as zero. */
  function ScoreOf(gs: map<Pos, int>, p: Pos): nat
  {
    if p in gs && gs[p] >= 0 then gs[p] else 0
  }

  /** Sum of the scores of the listed cells: the termination measure of the search. */
  function SumScores(gs: map<Pos, int>, ps: seq<Pos>): int
  {
    if ps == [] then 0 else ScoreOf(gs, ps[0]) + SumScores(gs, ps[1..])
  }

  lemma {:induction false} SumScoresNonNegative(gs: map<Pos, int>, ps: seq<Pos>)
    ensures SumScores(gs, ps) >= 0
  {
    if ps != [] {
      SumScoresNonNegative(gs, ps[1..]);
    }
  }

  /** Lowering one listed non-negative score lowers the sum. */
  lemma {:induction false} SumScoresDecrease(gs: map<Pos, int>, p: Pos, v: nat, ps: seq<Pos>)
    requires p in gs && v < gs[p]
    ensures SumScores(gs[p := v], ps) <= SumScores(gs, ps)
    ensures p in ps ==> SumScores(gs[p := v], ps) < SumScores(gs, ps)
  {
    if ps != [] {
      SumScoresDecrease(gs, p, v, ps[1..]);
      if p != ps[0] {
        assert p in ps ==> p in ps[1..];
      }
    }
  }

  /** The per-search scratch state `find_path` keeps on the cells: scores, came-from links, the open set, the queued cells. */
  datatype Scratch = Scratch(gs: map<Pos, int>, cameFrom: map<Pos, Pos>, open: set<Pos>, frontier: set<Pos>)

  /** Every cell scored, never negatively, the start at 0. */
  ghost predicate ScoresOk(g: Grid, start: Pos, gs: map<Pos, int>)
  {
    && InBounds(g, start)
    && (forall p :: InBounds(g, p) ==> p in gs && gs[p] >= 0)
    && gs[start] == 0
  }

  /** Each link goes to a neighbour of strictly smaller score, and from there on towards the start. */
  ghost predicate LinksOk(g: Grid, start: Pos, gs: map<Pos, int>, cameFrom: map<Pos, Pos>)
    requires ScoresOk(g, start, gs)
  {
    && start !in cameFrom
    && (forall n {:trigger cameFrom[n]} :: n in cameFrom ==>
          && InBounds(g, n) && InBounds(g, cameFrom[n])
          && gs[cameFrom[n]] < gs[n] && IsNeighbor(g, cameFrom[n], n, false)
          && (cameFrom[n] == start || cameFrom[n] in cameFrom))
  }

  /**
   What holds of the scratch state throughout a search from `start`: the
   scores and links above, and every open or queued cell is on the grid,
   an open one with a link chain back to the start.
   */
  ghost predicate Consistent(g: Grid, start: Pos, sc: Scratch)
  {
    && ScoresOk(g, start, sc.gs)
    && LinksOk(g, start, sc.gs, sc.cameFrom)
    && (forall p :: (p in sc.open ==> InBounds(g, p) && (p == start || p in sc.cameFrom)) && (p in sc.frontier ==> InBounds(g, p)))
  }

  /** The cells whose score is below the sentinel. */
  function Scored(g: Grid, gs: map<Pos, int>): (s: set<Pos>)
    ensures forall p :: p in s <==> InBounds(g, p) && p in gs && gs[p] < UnreachedScore
  {
    set p | p in Cells(g) && p in gs && gs[p] < UnreachedScore
  }

  /**
   No score exceeds the sentinel, every open cell is below it, and a score
   below it is smaller than the number of such scores: each one was set
   one above a cell scored before it.
   */
  ghost predicate Counted(g: Grid, sc: Scratch)
  {
    && (forall p :: InBounds(g, p) ==> p in sc.gs && sc.gs[p] <= UnreachedScore)
    && (forall p :: p in sc.open ==> p in sc.gs && sc.gs[p] < UnreachedScore)
    && (forall p :: p in Scored(g, sc.gs) ==> sc.gs[p] < |Scored(g, sc.gs)|)
  }

  /** The scratch state at the start of a search: only the start is scored and open. */
  method Initial(g: Grid, start: Pos) returns (sc: Scratch)
    requires InBounds(g, start)
    ensures Consistent(g, start, sc) && Counted(g, sc)
    ensures sc.open == {start} && sc.frontier == {} && sc.cameFrom == map[]
    ensures forall p :: InBounds(g, p) && p != start ==> sc.gs[p] == UnreachedScore
  {
    var gs := map p | p in Cells(g) :: UnreachedScore;
    sc := Scratch(gs[start := 0], map[], {start}, {});
    assert Scored(g, sc.gs) == {start};
  }

  /** The improvement of one neighbour n of `cur` to score m: new score, link to `cur`, and n (re)opened. */
  function Lower(sc: Scratch, cur: Pos, n: Pos, m: int): Scratch
  {
    Scratch(sc.gs[n := m], sc.cameFrom[n := cur], sc.open + {n},
      if n in sc.open then sc.frontier else sc.frontier + {n})
  }

  lemma LowerKeepsConsistent(g: Grid, start: Pos, sc: Scratch, cur: Pos, n: Pos)
    requires Consistent(g, start, sc)
    requires InBounds(g, cur) && (cur == start || cur in sc.cameFrom)
    requires IsNeighbor(g, cur, n, false) && sc.gs[cur] + 1 < sc.gs[n]
    ensures Consistent(g, start, Lower(sc, cur, n, sc.gs[cur] + 1))
  {
    var r := Lower(sc, cur, n, sc.gs[cur] + 1);
    assert n != cur by { assert Chebyshev(cur, n) == 1; }
    assert n != start;
    assert ScoresOk(g, start, r.gs) by {
      assert r.gs.Keys == sc.gs.Keys;
    }
    assert LinksOk(g, start, r.gs, r.cameFrom) by {
      forall k | k in r.cameFrom
        ensures InBounds(g, r.cameFrom[k]) && r.gs[r.cameFrom[k]] < r.gs[k] && IsNeighbor(g, r.cameFrom[k], k, false)
        ensures r.cameFrom[k] == start || r.cameFrom[k] in r.cameFrom
      {
        if k != n {
          assert r.cameFrom[k] == sc.cameFrom[k];
          assert r.gs[r.cameFrom[k]] <= sc.gs[sc.cameFrom[k]];
        }
      }
    }
  }

  /** Lowering n through a cell scored below the sentinel keeps the count: n is either scored already or one more. */
  lemma LowerKeepsCounted(g: Grid, sc: Scratch, cur: Pos, n: Pos)
    requires Counted(g, sc) && InBounds(g, cur) && InBounds(g, n)
    requires sc.gs[cur] < UnreachedScore && sc.gs[cur] + 1 < sc.gs[n]
    ensures Counted(g, Lower(sc, cur, n, sc.gs[cur] + 1))
  {
    var m := sc.gs[cur] + 1;
    var r := Lower(sc, cur, n, m);
    var F, F' := Scored(g, sc.gs), Scored(g, r.gs);
    ScoredUpdate(g, sc.gs, n, m);
    assert cur in F;
    if n in F {
      assert F' == F;
    } else {
      assert |F'| == |F| + 1;
    }
    forall p | p in F'
      ensures r.gs[p] < |F'|
    {
      if p != n {
        assert p in F && r.gs[p] == sc.gs[p];
      }
    }
  }

  /** Scoring one more in-bounds cell below the sentinel adds it to the scored cells. */
  lemma ScoredUpdate(g: Grid, gs: map<Pos, int>, n: Pos, m: int)
    requires InBounds(g, n) && m < UnreachedScore
    ensures Scored(g, gs[n := m]) == Scored(g, gs) + {n}
  {
    forall p
      ensures p in Scored(g, gs[n := m]) <==> p in Scored(g, gs) + {n}
    {
    }
  }

  /** Taking `cur` out of the open set keeps the state consistent. */
  lemma PopKeepsConsistent(g: Grid, start: Pos, sc: Scratch, cur: Pos)
    requires Consistent(g, start, sc)
    ensures Consistent(g, start, sc.(open := sc.open - {cur}))
  {
  }

  /** What relaxing one edge does to the scratch state `sc`, leaving `r`. */
  ghost predicate Relaxed(g: Grid, start: Pos, cur: Pos, sc: Scratch, r: Scratch, all: seq<Pos>)
    requires ScoresOk(g, start, sc.gs)
  {
    && Consistent(g, start, r) && Counted(g, r)
    && (cur == start || cur in r.cameFrom)
    && r.gs[cur] == sc.gs[cur]
    && (forall p :: InBounds(g, p) ==> r.gs[p] <= sc.gs[p])
    && (forall p :: InBounds(g, p) && r.gs[p] < sc.gs[p] ==> p in r.open)
    && sc.open <= r.open && sc.frontier <= r.frontier
    && (SumScores(r.gs, all) < SumScores(sc.gs, all)
        || (SumScores(r.gs, all) == SumScores(sc.gs, all) && r.open == sc.open))
  }

  /** Lowering n through `cur` is a relaxation that leaves n one above `cur`. */
  lemma LowerRelaxes(g: Grid, start: Pos, cur: Pos, sc: Scratch, n: Pos, all: seq<Pos>)
    requires forall p :: InBounds(g, p) ==> p in all
    requires Consistent(g, start, sc) && Counted(g, sc)
    requires InBounds(g, cur) && (cur == start || cur in sc.cameFrom) && sc.gs[cur] < UnreachedScore
    requires IsNeighbor(g, cur, n, false) && sc.gs[cur] + 1 < sc.gs[n]
    ensures Relaxed(g, start, cur, sc, Lower(sc, cur, n, sc.gs[cur] + 1), all)
    ensures Lower(sc, cur, n, sc.gs[cur] + 1).gs[n] == sc.gs[cur] + 1
  {
    var m := sc.gs[cur] + 1;
    var r := Lower(sc, cur, n, m);
    assert n != cur by { assert Chebyshev(cur, n) == 1; }
    assert n in all;
    SumScoresDecrease(sc.gs, n, m, all);
    assert SumScores(r.gs, all) < SumScores(sc.gs, all);
    LowerKeepsConsistent(g, start, sc, cur, n);
    LowerKeepsCounted(g, sc, cur, n);
    LowerOnlyLowers(sc, cur, n, m);
    assert r.gs[cur] == sc.gs[cur];
    assert sc.open <= r.open && sc.frontier <= r.frontier;
  }

  /** Lowering n to m changes no other score, and a score that falls is that of n, now open. */
  lemma LowerOnlyLowers(sc: Scratch, cur: Pos, n: Pos, m: int)
    requires n in sc.gs && m < sc.gs[n]
    ensures forall p :: p in sc.gs ==> Lower(sc, cur, n, m).gs[p] <= sc.gs[p]
    ensures forall p :: p in sc.gs && Lower(sc, cur, n, m).gs[p] < sc.gs[p] ==> p in Lower(sc, cur, n, m).open
  {
  }

  /**
   The loop body for one neighbour n of `cur`: if the score of n would
   drop through `cur`, n takes the lower score and a link to `cur` and
   joins the open set if it is not there.
   */
  method RelaxOne(g: Grid, start: Pos, cur: Pos, sc: Scratch, n: Pos, ghost all: seq<Pos>) returns (r: Scratch)
    requires forall p :: InBounds(g, p) ==> p in all
    requires Consistent(g, start, sc)
    requires Counted(g, sc) && InBounds(g, cur) && (cur == start || cur in sc.cameFrom) && sc.gs[cur] < UnreachedScore
    requires InBounds(g, n) && IsNeighbor(g, cur, n, false)
    ensures Relaxed(g, start, cur, sc, r, all)
    ensures r.gs[n] <= sc.gs[cur] + 1
  {
    var m := sc.gs[cur] + 1;
    if m < sc.gs[n] {
      LowerRelaxes(g, start, cur, sc, n, all);
      r := Lower(sc, cur, n, m);
    } else {
      r := sc;
    }
  }

  /** Two relaxations in a row are one. */
  lemma RelaxedTrans(g: Grid, start: Pos, cur: Pos, a: Scratch, b: Scratch, c: Scratch, all: seq<Pos>)
    requires Consistent(g, start, a) && Consistent(g, start, b)
    requires Relaxed(g, start, cur, a, b, all) && Relaxed(g, start, cur, b, c, all)
    ensures Relaxed(g, start, cur, a, c, all)
  {
    forall p | InBounds(g, p) && c.gs[p] < a.gs[p]
      ensures p in c.open
    {
      if c.gs[p] == b.gs[p] {
        assert p in b.open;
      }
    }
  }

  /**
   Expands `cur` over the listed neighbours in order. Consistency is kept,
   `cur`'s own score is unchanged, every listed cell ends at most one above
   `cur`, scores only fall, and either some score fell or the open set is
   as it was.
   */
  method RelaxAll(g: Grid, start: Pos, cur: Pos, sc: Scratch, nbrs: seq<Pos>, ghost all: seq<Pos>) returns (r: Scratch)
    requires forall p :: InBounds(g, p) ==> p in all
    requires Consistent(g, start, sc)
    requires Counted(g, sc) && InBounds(g, cur) && (cur == start || cur in sc.cameFrom) && sc.gs[cur] < UnreachedScore
    requires forall j :: 0 <= j < |nbrs| ==> InBounds(g, nbrs[j]) && IsNeighbor(g, cur, nbrs[j], false)
    ensures Relaxed(g, start, cur, sc, r, all)
    ensures forall j :: 0 <= j < |nbrs| ==> r.gs[nbrs[j]] <= sc.gs[cur] + 1
  {
    r := sc;
    for i := 0 to |nbrs|
      invariant Relaxed(g, start, cur, sc, r, all)
      invariant forall j :: 0 <= j < i ==> r.gs[nbrs[j]] <= sc.gs[cur] + 1
    {
      ghost var prev := r;
      r := RelaxOne(g, start, cur, r, nbrs[i], all);
      RelaxedTrans(g, start, cur, sc, prev, r, all);
      ListedStayBounded(g, start, cur, sc, prev, r, nbrs, i, all);
    }
  }

  /** Relaxing one more listed cell keeps the earlier ones within one of `cur`. */
  lemma ListedStayBounded(g: Grid, start: Pos, cur: Pos, sc: Scratch, prev: Scratch, r: Scratch, nbrs: seq<Pos>, i: nat, all: seq<Pos>)
    requires ScoresOk(g, start, sc.gs) && ScoresOk(g, start, prev.gs)
    requires Relaxed(g, start, cur, sc, prev, all) && Relaxed(g, start, cur, prev, r, all)
    requires i < |nbrs| && forall j :: 0 <= j < |nbrs| ==> InBounds(g, nbrs[j])
    requires forall j :: 0 <= j < i ==> prev.gs[nbrs[j]] <= sc.gs[cur] + 1
    requires r.gs[nbrs[i]] <= prev.gs[cur] + 1
    ensures forall j :: 0 <= j < i + 1 ==> r.gs[nbrs[j]] <= sc.gs[cur] + 1
  {
    forall j | 0 <= j < i + 1
      ensures r.gs[nbrs[j]] <= sc.gs[cur] + 1
    {
      assert r.gs[nbrs[j]] <= prev.gs[nbrs[j]];
    }
  }

  /** The expansion of `cur` over its neighbours in scan order, walls excluded. */
  method Relax(g: Grid, start: Pos, cur: Pos, sc: Scratch, ghost all: seq<Pos>) returns (r: Scratch)
    requires forall p :: InBounds(g, p) ==> p in all
    requires Consistent(g, start, sc)
    requires Counted(g, sc) && InBounds(g, cur) && (cur == start || cur in sc.cameFrom) && sc.gs[cur] < UnreachedScore
    ensures Relaxed(g, start, cur, sc, r, all)
    ensures forall q :: IsNeighbor(g, cur, q, false) ==> r.gs[q] <= sc.gs[cur] + 1
  {
    var nbrs := Neighbors(g, cur, false);
    forall j | 0 <= j < |nbrs|
      ensures InBounds(g, nbrs[j]) && IsNeighbor(g, cur, nbrs[j], false)
    {
      assert nbrs[j] in nbrs;
    }
    r := RelaxAll(g, start, cur, sc, nbrs, all);
    forall q | IsNeighbor(g, cur, q, false)
      ensures r.gs[q] <= sc.gs[cur] + 1
    {
      assert q in nbrs;
      var j :| 0 <= j < |nbrs| && nbrs[j] == q;
    }
  }

  /** Follows the came-from links back from `goal` and returns the cells in travel order. */
  method Reconstruct(g: Grid, start: Pos, sc: Scratch, goal: Pos) returns (path: seq<Pos>)
    requires Consistent(g, start, sc)
    requires goal == start || goal in sc.cameFrom
    ensures |path| >= 1 && path[0] == start && path[|path| - 1] == goal
    ensures goal == start ==> path == [start]
    ensures forall i :: 0 <= i < |path| - 1 ==> IsNeighbor(g, path[i], path[i + 1], false)
  {
    path := [goal];
    var node := goal;
    while node in sc.cameFrom
      invariant InBounds(g, node) && |path| >= 1
      invariant goal == start ==> node == goal && path == [goal]
      invariant path[0] == node && path[|path| - 1] == goal
      invariant forall i :: 0 <= i < |path| - 1 ==> IsNeighbor(g, path[i], path[i + 1], false)
      invariant node == start || node in sc.cameFrom
      decreases sc.gs[node]
    {
      node := sc.cameFrom[node];
      path := [node] + path;
    }
  }

  /**
   The loop invariant of the search: the scratch state is consistent, the
   expanded cells are on the grid and exclude the goal, and the start is
   the first cell expanded. Every cell scored below the sentinel is open or
   expanded, every expanded cell is, and every expanded cell that is not
   open again has each non-wall neighbour scored at most one above it.
   */
  ghost predicate Searching(g: Grid, start: Pos, goal: Pos, sc: Scratch, visited: set<Pos>)
  {
    && Consistent(g, start, sc) && Counted(g, sc)
    && (forall p :: p in visited ==> InBounds(g, p) && sc.gs[p] < UnreachedScore)
    && goal !in visited
    && (visited == {} ==> sc.open == {start} && sc.frontier == {})
    && (visited != {} ==> start in visited)
    && (forall p :: InBounds(g, p) && sc.gs[p] < UnreachedScore ==> p in sc.open || p in visited)
    && (forall p, q :: p in visited && p !in sc.open && IsNeighbor(g, p, q, false) ==> sc.gs[q] <= sc.gs[p] + 1)
  }

  /**
   One turn of the loop for an open cell that is not the goal: it leaves
   the open set, joins the expanded cells, and is expanded. The invariant
   is kept and the measure (sum of scores, size of the open set) falls.
   */
  method Expand(g: Grid, start: Pos, goal: Pos, sc: Scratch, visited: set<Pos>, cur: Pos, ghost all: seq<Pos>)
    returns (sc': Scratch, visited': set<Pos>)
    requires forall p :: InBounds(g, p) ==> p in all
    requires Searching(g, start, goal, sc, visited)
    requires cur in sc.open && cur != goal
    ensures Searching(g, start, goal, sc', visited')
    ensures visited' == visited + {cur}
    ensures SumScores(sc'.gs, all) < SumScores(sc.gs, all)
         || (SumScores(sc'.gs, all) == SumScores(sc.gs, all) && |sc'.open| < |sc.open|)
  {
    PopKeepsConsistent(g, start, sc, cur);
    var popped := sc.(open := sc.open - {cur});
    visited' := visited + {cur};
    sc' := Relax(g, start, cur, popped, all);
    forall p, q | p in visited' && p !in sc'.open && IsNeighbor(g, p, q, false)
      ensures sc'.gs[q] <= sc'.gs[p] + 1
    {
      if p != cur {
        assert sc'.gs[p] == sc.gs[p];
      }
    }
  }

  /** A proper part of the grid's cells has fewer cells than the grid. */
  lemma FewerScored(g: Grid, F: set<Pos>, v: Pos)
    requires F <= Cells(g) && InBounds(g, v) && v !in F
    ensures |F| < g.size * g.size
  {
    CellCount(g);
    var B := Cells(g) - {v};
    assert |B| == |Cells(g)| - 1;
    assert B == F + (B - F) && F * (B - F) == {};
  }

  /**
   Once nothing is open, the expanded cells hold the start and every move
   out of them, as long as the grid has no more cells than the sentinel:
   so every cell reachable from the start was expanded, and the goal,
   never expanded, is out of reach.
   */
  lemma ExhaustedUnreachable(g: Grid, start: Pos, goal: Pos, sc: Scratch, visited: set<Pos>)
    requires Searching(g, start, goal, sc, visited) && sc.open == {}
    requires g.size * g.size <= UnreachedScore
    ensures !Reachable(Traversal(g, false), {start}, goal)
  {
    var G := Traversal(g, false);
    forall u, v | u in visited && Step(G, u, v)
      ensures v in visited
    {
      var F := Scored(g, sc.gs);
      assert sc.gs[v] <= sc.gs[u] + 1;
      assert u in F;
      if v !in F {
        FewerScored(g, F, v);
      }
    }
    ReachableAll(G, {start}, visited);
  }

  /**
   The search loop, once both ends are known to be on the grid: take any
   open cell, stop with the linked path if it is the goal, otherwise
   expand it. Stops with nothing once the open set is empty, which happens
   only when the goal cannot be reached from the start, provided the grid
   has no more cells than the 99999 sentinel: a longer chain of scores
   could reach the sentinel and stop a cell from being relaxed.
   */
  method Explore(g: Grid, start: Pos, goal: Pos, ghost all: seq<Pos>) returns (s: Search)
    requires InBounds(g, start) && InBounds(g, goal)
    requires forall p :: InBounds(g, p) ==> p in all
    ensures s.path != [] ==> s.path[0] == start && s.path[|s.path| - 1] == goal && goal in s.visited
    ensures forall i :: 0 <= i < |s.path| - 1 ==> IsNeighbor(g, s.path[i], s.path[i + 1], false)
    ensures forall p :: p in s.visited + s.frontier ==> InBounds(g, p)
    ensures start in s.visited
    ensures start == goal ==> s == Search([start], {start}, {})
    ensures g.size * g.size <= UnreachedScore && Reachable(Traversal(g, false), {start}, goal) ==> s.path != []
  {
    var sc := Initial(g, start);
    var visited: set<Pos> := {};
    SumScoresNonNegative(sc.gs, all);
    while sc.open != {}
      invariant Searching(g, start, goal, sc, visited)
      decreases SumScores(sc.gs, all), |sc.open|
    {
      var cur :| cur in sc.open;
      if cur == goal {
        PopKeepsConsistent(g, start, sc, cur);
        var popped := sc.(open := sc.open - {cur});
        var path := Reconstruct(g, start, popped, goal);
        return Search(path, visited + {cur}, popped.frontier);
      }
      sc, visited := Expand(g, start, goal, sc, visited, cur, all);
      SumScoresNonNegative(sc.gs, all);
    }
    if g.size * g.size <= UnreachedScore {
      ExhaustedUnreachable(g, start, goal, sc, visited);
    }
    return Search([], visited, sc.frontier);
  }

  /**
   `find_path`: out-of-bounds endpoints and a wall goal give the empty
   result with nothing searched. Otherwise a non-empty path starts at
   `start`, ends at `goal`, and moves between neighbours that are not
   walls; the goal is then among the expanded cells. A wall start is
   allowed. Start equal to goal gives the one-cell path. A goal the start
   can reach through non-wall moves is always found, on grids of at most
   99999 cells.
   */
  method FindPath(g: Grid, start: Pos, goal: Pos) returns (s: Search)
    ensures !InBounds(g, start) || !InBounds(g, goal) || WallAt(g, goal) ==> s == NoSearch
    ensures s.path != [] ==> s.path[0] == start && s.path[|s.path| - 1] == goal && goal in s.visited
    ensures forall i :: 0 <= i < |s.path| - 1 ==> IsNeighbor(g, s.path[i], s.path[i + 1], false)
    ensures forall p :: p in s.visited + s.frontier ==> InBounds(g, p)
    ensures InBounds(g, start) && InBounds(g, goal) && !WallAt(g, goal) ==> start in s.visited
    ensures start == goal && InBounds(g, start) && !WallAt(g, start) ==> s == Search([start], {start}, {})
    ensures (InBounds(g, start) && InBounds(g, goal) && !WallAt(g, goal) && g.size * g.size <= UnreachedScore &&
             Reachable(Traversal(g, false), {start}, goal)) ==> s.path != []
  {
    if !InBounds(g, start) || !InBounds(g, goal) {
      return NoSearch;
    }
    if At(g, goal).isWall {
      return NoSearch;
    }
    s := Explore(g, start, goal, AllPositions(g));
  }
}
