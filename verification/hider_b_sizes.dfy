/**
 The fifth map of the second hider (`create_blind_spot_shadow_size`): the
 cells that kept a distance to the hider are grouped by flooding through
 non-wall neighbours, and every cell of a group records the group's size.
 */
module HiderBSizes {
  import opened GridNode
  import opened GridModel
  import opened Extended
  import opened Paths

  /** The cells the sizing covers: those whose distance to the hider is not `-inf`. */
  function OpenCells(g: Grid, dm: map<Pos, Ext>): (s: set<Pos>)
    ensures forall p :: p in s <==> InBounds(g, p) && p in dm && dm[p] != NegInf
  {
    set p | p in Cells(g) && p in dm && dm[p] != NegInf
  }

  /** Moves between covered cells through non-wall neighbours. */
  function Blind(g: Grid, dm: map<Pos, Ext>): Graph
  {
    Graph(g, false, OpenCells(g, dm))
  }

  /** Every covered cell is an open floor cell, as it is for the distances the hider computes. */
  predicate OpenNonWall(g: Grid, dm: map<Pos, Ext>)
  {
    forall p :: p in OpenCells(g, dm) ==> !At(g, p).isWall
  }

  /** The cells reachable from p, p included. */
  ghost function Component(G: Graph, p: Pos): set<Pos>
  {
    set q | q in Cells(G.g) && Reachable(G, {p}, q)
  }

  /** A cell reached from s is s itself or a cell the traversal admits. */
  lemma ReachedAdmitted(G: Graph, s: Pos, q: Pos)
    requires Reachable(G, {s}, q)
    ensures q == s || (q in G.allowed && InBounds(G.g, q))
  {
    var k: nat :| ReachesIn(G, {s}, q, k);
    var w :| IsWalk(G, w) && |w| == k + 1 && w[0] in {s} && w[k] == q;
    if k > 0 {
      assert Step(G, w[k - 1], w[k]);
    }
  }

  /** A component holds its own cell. */
  lemma InOwnComponent(G: Graph, p: Pos)
    requires InBounds(G.g, p)
    ensures p in Component(G, p)
  {
    SourceReachable(G, {p}, p);
  }

  /** Between covered floor cells the moves are reversible. */
  lemma BlindSymmetric(g: Grid, dm: map<Pos, Ext>)
    requires OpenNonWall(g, dm)
    ensures SymmetricOn(Blind(g, dm))
  {
    var G := Blind(g, dm);
    forall u, v | u in G.allowed && Step(G, u, v)
      ensures Step(G, v, u)
    {
      NeighborSymmetric(g, u, v, false);
    }
  }

  /** With reversible moves, every cell of a component has that same component. */
  lemma ComponentShared(G: Graph, a: Pos, b: Pos)
    requires SymmetricOn(G) && a in G.allowed && InBounds(G.g, a) && b in Component(G, a)
    ensures Component(G, b) == Component(G, a)
  {
    ReachSymmetric(G, a, b);
    forall q | q in Component(G, b)
      ensures q in Component(G, a)
    {
      ReachTransitive(G, a, b, q);
    }
    forall q | q in Component(G, a)
      ensures q in Component(G, b)
    {
      ReachTransitive(G, b, a, q);
    }
  }

  /** The cells the inner walk may still enter: those `seen` marks false. */
  function FreeCells(seen: map<Pos, bool>): (s: set<Pos>)
    ensures forall p :: p in s <==> p in seen && !seen[p]
  {
    set p | p in seen && !seen[p]
  }

  /** The inner walk: a queue of cells and the set already taken. */
  ghost predicate FloodState(G: Graph, node: Pos, T: set<Pos>, q: seq<Pos>)
  {
    && (forall p :: p in T ==> p in Component(G, node))
    && (forall i :: 0 <= i < |q| ==> q[i] in Component(G, node))
    && (node in T || node in q)
    && (forall u, v :: u in T && Step(G, u, v) ==> v in T || v in q)
  }

  /** A free move: to a non-wall neighbour that `seen` marks false. */
  predicate FreeMove(g: Grid, seen: map<Pos, bool>, curr: Pos, n: Pos)
  {
    IsNeighbor(g, curr, n, false) && n in seen && !seen[n]
  }

  /** Appends, in order, each listed neighbour that `seen` marks false. */
  method PushListed(g: Grid, seen: map<Pos, bool>, curr: Pos, q0: seq<Pos>, nbrs: seq<Pos>) returns (q: seq<Pos>)
    requires forall p :: p in seen <==> InBounds(g, p)
    requires forall k :: 0 <= k < |nbrs| ==> IsNeighbor(g, curr, nbrs[k], false)
    ensures |q0| <= |q| && q[..|q0|] == q0
    ensures forall i :: |q0| <= i < |q| ==> FreeMove(g, seen, curr, q[i])
    ensures forall k :: 0 <= k < |nbrs| && FreeMove(g, seen, curr, nbrs[k]) ==> nbrs[k] in q
  {
    q := q0;
    for k := 0 to |nbrs|
      invariant |q0| <= |q| && q[..|q0|] == q0
      invariant forall i :: |q0| <= i < |q| ==> FreeMove(g, seen, curr, q[i])
      invariant forall k' :: 0 <= k' < k && FreeMove(g, seen, curr, nbrs[k']) ==> nbrs[k'] in q
    {
      var n := nbrs[k];
      if !seen[n] {
        ghost var prev := q;
        q := q + [n];
        assert q[|q| - 1] == n;
        forall k' | 0 <= k' < k && FreeMove(g, seen, curr, nbrs[k'])
          ensures nbrs[k'] in q
        {
          var i :| 0 <= i < |prev| && prev[i] == nbrs[k'];
          assert q[i] == prev[i];
        }
      }
    }
  }

  /** The moves out of curr, in the order `get_neighbors` lists them, that `seen` does not rule out. */
  method PushFree(g: Grid, seen: map<Pos, bool>, curr: Pos, q0: seq<Pos>) returns (q: seq<Pos>)
    requires forall p :: p in seen <==> InBounds(g, p)
    ensures |q0| <= |q| && q[..|q0|] == q0
    ensures forall i :: |q0| <= i < |q| ==> FreeMove(g, seen, curr, q[i])
    ensures forall v :: FreeMove(g, seen, curr, v) ==> v in q
  {
    var nbrs := Neighbors(g, curr, false);
    forall k | 0 <= k < |nbrs|
      ensures IsNeighbor(g, curr, nbrs[k], false)
    {
      assert nbrs[k] in nbrs;
    }
    q := PushListed(g, seen, curr, q0, nbrs);
    forall v | FreeMove(g, seen, curr, v)
      ensures v in q
    {
      assert v in nbrs;
      var k :| 0 <= k < |nbrs| && nbrs[k] == v;
    }
  }

  /** A free move is a move of the walk through unmarked cells, and the other way round. */
  lemma FreeMoves(g: Grid, seen: map<Pos, bool>, curr: Pos)
    ensures forall v :: FreeMove(g, seen, curr, v) <==> Step(Graph(g, false, FreeCells(seen)), curr, v)
  {
  }

  /** Taking a fresh cell off the queue and queueing its free moves keeps the walk's state. */
  lemma FloodTurn(G: Graph, node: Pos, T: set<Pos>, q: seq<Pos>, q': seq<Pos>)
    requires FloodState(G, node, T, q) && q != [] && q[0] !in T
    requires |q| - 1 <= |q'| && q'[..|q| - 1] == q[1..]
    requires forall i :: |q| - 1 <= i < |q'| ==> Step(G, q[0], q'[i])
    requires forall v :: Step(G, q[0], v) ==> v in q'
    ensures FloodState(G, node, T + {q[0]}, q')
  {
    var curr := q[0];
    forall i | 0 <= i < |q'|
      ensures q'[i] in Component(G, node)
    {
      if i < |q| - 1 {
        assert q'[i] == q[i + 1];
      } else {
        assert Step(G, curr, q'[i]);
        ReachableStep(G, {node}, curr, q'[i]);
      }
    }
    forall u, v | u in T + {curr} && Step(G, u, v)
      ensures v in T + {curr} || v in q'
    {
      if u in T && v !in T && v != curr {
        var i :| 0 <= i < |q| && q[i] == v;
        assert q'[i - 1] == v;
      }
    }
  }

  /** Taking a cell already in the walk's set off the queue keeps the walk's state. */
  lemma FloodSkip(G: Graph, node: Pos, T: set<Pos>, q: seq<Pos>)
    requires FloodState(G, node, T, q) && q != [] && q[0] in T
    ensures FloodState(G, node, T, q[1..])
  {
    forall u, v | u in T && Step(G, u, v)
      ensures v in T || v in q[1..]
    {
      if v !in T {
        var i :| 0 <= i < |q| && q[i] == v;
        assert q[1..][i - 1] == v;
      }
    }
  }

  lemma Grows(g: Grid, T: set<Pos>, c: Pos)
    requires T <= Cells(g) && InBounds(g, c) && c !in T
    ensures |Cells(g) - (T + {c})| < |Cells(g) - T|
  {
    assert Cells(g) - (T + {c}) < Cells(g) - T;
  }

  /**
   The inner walk of `create_blind_spot_shadow_size`: from `node`, take
   cells off the front of a queue, skip those already taken, and queue
   every non-wall neighbour `seen` does not mark. It ends with exactly the
   cells reachable from `node` through unmarked cells.
   */
  method Flood(g: Grid, seen: map<Pos, bool>, node: Pos) returns (T: set<Pos>)
    requires forall p :: p in seen <==> InBounds(g, p)
    requires node in seen && !seen[node]
    ensures T == Component(Graph(g, false, FreeCells(seen)), node)
  {
    ghost var G := Graph(g, false, FreeCells(seen));
    var q := [node];
    T := {};
    InOwnComponent(G, node);
    while q != []
      invariant FloodState(G, node, T, q)
      invariant T <= Cells(g)
      decreases |Cells(g) - T|, |q|
    {
      var curr := q[0];
      if curr in T {
        FloodSkip(G, node, T, q);
        q := q[1..];
      } else {
        var q' := PushFree(g, seen, curr, q[1..]);
        FreeMoves(g, seen, curr);
        FloodTurn(G, node, T, q, q');
        Grows(g, T, curr);
        T, q := T + {curr}, q';
      }
    }
    ReachableAll(G, {node}, T);
  }

  /** The marks after a group is recorded. */
  function Mark(seen: map<Pos, bool>, T: set<Pos>): (r: map<Pos, bool>)
    ensures r.Keys == seen.Keys
    ensures forall p :: p in r ==> (r[p] <==> seen[p] || p in T)
  {
    map p | p in seen :: seen[p] || p in T
  }

  /** The sizes after a group of `n` cells is recorded. */
  function Record(bss: map<Pos, nat>, T: set<Pos>, n: nat): (r: map<Pos, nat>)
    ensures r.Keys == bss.Keys + T
    ensures forall p :: p in r ==> r[p] == if p in T then n else bss[p]
  {
    bss + map p | p in T :: n
  }

  /**
   The outer loop after the first i cells of the grid: `seen` marks the
   uncovered cells and those already sized, every covered cell among the
   first i is sized, and each size is at least 1.
   */
  ghost predicate Marked(g: Grid, dm: map<Pos, Ext>, seen: map<Pos, bool>, bss: map<Pos, nat>, all: seq<Pos>, i: nat)
  {
    && (forall p :: p in seen <==> InBounds(g, p))
    && (forall p :: p in seen ==> (seen[p] <==> p !in OpenCells(g, dm) || p in bss))
    && (forall p :: p in bss ==> p in OpenCells(g, dm) && bss[p] >= 1)
    && i <= |all| && (forall k :: 0 <= k < i ==> all[k] !in OpenCells(g, dm) || all[k] in bss)
  }

  /** On covered floor cells each recorded group is a whole component, and its size is that component's. */
  ghost predicate WholeGroups(g: Grid, dm: map<Pos, Ext>, bss: map<Pos, nat>)
  {
    OpenNonWall(g, dm) ==>
      forall p :: p in bss ==> Component(Blind(g, dm), p) <= bss.Keys && bss[p] == |Component(Blind(g, dm), p)|
  }

  ghost predicate Assigned(g: Grid, dm: map<Pos, Ext>, seen: map<Pos, bool>, bss: map<Pos, nat>, all: seq<Pos>, i: nat)
  {
    Marked(g, dm, seen, bss, all, i) && WholeGroups(g, dm, bss)
  }

  /** The unmarked cells are the covered cells not yet sized. */
  lemma FreeIsUnsized(g: Grid, dm: map<Pos, Ext>, seen: map<Pos, bool>, bss: map<Pos, nat>, all: seq<Pos>, i: nat)
    requires Assigned(g, dm, seen, bss, all, i)
    ensures FreeCells(seen) == OpenCells(g, dm) - bss.Keys
  {
  }

  /** With reversible moves, a cell reached from `node` inside a closed union of components puts `node` there too. */
  lemma SizedReachesBack(B: Graph, sized: set<Pos>, node: Pos, v: Pos)
    requires SymmetricOn(B) && node in B.allowed && InBounds(B.g, node) && Reachable(B, {node}, v)
    requires forall p :: p in sized ==> Component(B, p) <= sized
    ensures v in sized ==> node in sized
  {
    if v in sized {
      ReachSymmetric(B, node, v);
      assert node in Component(B, v);
    }
  }

  /** One move of the whole component from a cell the walk reached stays within the walk's reach. */
  lemma FloodStepStays(g: Grid, dm: map<Pos, Ext>, sized: set<Pos>, node: Pos, u: Pos, v: Pos)
    requires OpenNonWall(g, dm) && sized <= OpenCells(g, dm)
    requires forall p :: p in sized ==> Component(Blind(g, dm), p) <= sized
    requires node in OpenCells(g, dm) - sized
    requires Reachable(Graph(g, false, OpenCells(g, dm) - sized), {node}, u) && Step(Blind(g, dm), u, v)
    ensures Reachable(Graph(g, false, OpenCells(g, dm) - sized), {node}, v)
  {
    var B := Blind(g, dm);
    var F := Graph(g, false, OpenCells(g, dm) - sized);
    BlindSymmetric(g, dm);
    ReachWiden(F, B, node, u);
    ReachableStep(B, {node}, u, v);
    SizedReachesBack(B, sized, node, v);
    assert Step(F, u, v);
    ReachableStep(F, {node}, u, v);
  }

  /** Every cell of the whole component is reached by the walk through unsized cells. */
  lemma ComponentInFlood(g: Grid, dm: map<Pos, Ext>, sized: set<Pos>, node: Pos)
    requires OpenNonWall(g, dm) && sized <= OpenCells(g, dm)
    requires forall p :: p in sized ==> Component(Blind(g, dm), p) <= sized
    requires node in OpenCells(g, dm) - sized
    ensures Component(Blind(g, dm), node) <= Component(Graph(g, false, OpenCells(g, dm) - sized), node)
  {
    var B := Blind(g, dm);
    var R := Component(Graph(g, false, OpenCells(g, dm) - sized), node);
    InOwnComponent(Graph(g, false, OpenCells(g, dm) - sized), node);
    forall u, v | u in R && Step(B, u, v)
      ensures v in R
    {
      FloodStepStays(g, dm, sized, node, u, v);
    }
    ReachableAll(B, {node}, R);
  }

  /** Every cell the walk through unsized cells reaches lies in the whole component. */
  lemma FloodInComponent(g: Grid, dm: map<Pos, Ext>, sized: set<Pos>, node: Pos)
    ensures Component(Graph(g, false, OpenCells(g, dm) - sized), node) <= Component(Blind(g, dm), node)
  {
    forall q | q in Component(Graph(g, false, OpenCells(g, dm) - sized), node)
      ensures q in Component(Blind(g, dm), node)
    {
      ReachWiden(Graph(g, false, OpenCells(g, dm) - sized), Blind(g, dm), node, q);
    }
  }

  /**
   When the recorded groups are whole components, the walk from an unsized
   covered cell through unsized covered cells finds its whole component.
   */
  lemma FloodIsComponent(g: Grid, dm: map<Pos, Ext>, sized: set<Pos>, node: Pos)
    requires OpenNonWall(g, dm) && sized <= OpenCells(g, dm)
    requires forall p :: p in sized ==> Component(Blind(g, dm), p) <= sized
    requires node in OpenCells(g, dm) - sized
    ensures Component(Graph(g, false, OpenCells(g, dm) - sized), node) == Component(Blind(g, dm), node)
  {
    ComponentInFlood(g, dm, sized, node);
    FloodInComponent(g, dm, sized, node);
  }

  /** A traversal with more moves reaches at least as much. */
  lemma ReachWiden(F: Graph, B: Graph, s: Pos, q: Pos)
    requires forall u, v :: Step(F, u, v) ==> Step(B, u, v)
    requires Reachable(F, {s}, q)
    ensures Reachable(B, {s}, q)
  {
    var k: nat :| ReachesIn(F, {s}, q, k);
    var w :| IsWalk(F, w) && |w| == k + 1 && w[0] in {s} && w[k] == q;
    assert IsWalk(B, w);
    assert ReachesIn(B, {s}, q, k);
  }

  /** The walk's cells are unsized covered cells, the start among them. */
  lemma FloodInside(g: Grid, dm: map<Pos, Ext>, seen: map<Pos, bool>, node: Pos, T: set<Pos>)
    requires forall p :: p in seen <==> InBounds(g, p)
    requires node in seen && !seen[node]
    requires T == Component(Graph(g, false, FreeCells(seen)), node)
    ensures node in T && T <= FreeCells(seen)
  {
    InOwnComponent(Graph(g, false, FreeCells(seen)), node);
    forall q | q in T
      ensures q in FreeCells(seen)
    {
      ReachedAdmitted(Graph(g, false, FreeCells(seen)), node, q);
    }
  }

  /** After recording, a cell is marked exactly when it is uncovered or sized, and every size is at least 1. */
  lemma RecordAgrees(open: set<Pos>, seen: map<Pos, bool>, bss: map<Pos, nat>, T: set<Pos>)
    requires forall p :: p in seen ==> (seen[p] <==> p !in open || p in bss)
    requires forall p :: p in bss ==> p in open && bss[p] >= 1
    requires T != {} && T <= open - bss.Keys
    ensures forall p :: p in Mark(seen, T) ==> (Mark(seen, T)[p] <==> p !in open || p in Record(bss, T, |T|))
    ensures forall p :: p in Record(bss, T, |T|) ==> p in open && Record(bss, T, |T|)[p] >= 1
  {
  }

  /** After recording, every covered cell up to and including the i-th is sized. */
  lemma RecordPrefix(open: set<Pos>, sized: set<Pos>, all: seq<Pos>, i: nat, T: set<Pos>)
    requires i < |all| && all[i] in T
    requires forall k :: 0 <= k < i ==> all[k] !in open || all[k] in sized
    ensures forall k :: 0 <= k < i + 1 ==> all[k] !in open || all[k] in sized + T
  {
  }

  /** Recording a flooded group keeps the marks in step, one cell further on. */
  lemma RecordMarks(g: Grid, dm: map<Pos, Ext>, seen: map<Pos, bool>, bss: map<Pos, nat>, all: seq<Pos>, i: nat, T: set<Pos>)
    requires Marked(g, dm, seen, bss, all, i) && i < |all| && all[i] in seen && !seen[all[i]]
    requires all[i] in T && T <= OpenCells(g, dm) - bss.Keys
    ensures Marked(g, dm, Mark(seen, T), Record(bss, T, |T|), all, i + 1)
  {
    RecordAgrees(OpenCells(g, dm), seen, bss, T);
    RecordPrefix(OpenCells(g, dm), bss.Keys, all, i, T);
  }

  /** A marked cell is uncovered or already sized, so passing it keeps the state. */
  lemma SkipMarked(g: Grid, dm: map<Pos, Ext>, seen: map<Pos, bool>, bss: map<Pos, nat>, all: seq<Pos>, i: nat)
    requires Assigned(g, dm, seen, bss, all, i) && i < |all| && all[i] in seen && seen[all[i]]
    ensures Assigned(g, dm, seen, bss, all, i + 1)
  {
  }

  /** Recording a flooded group keeps every group whole. */
  lemma RecordWhole(g: Grid, dm: map<Pos, Ext>, seen: map<Pos, bool>, bss: map<Pos, nat>, all: seq<Pos>, i: nat, T: set<Pos>)
    requires Assigned(g, dm, seen, bss, all, i) && i < |all| && all[i] in seen && !seen[all[i]]
    requires T == Component(Graph(g, false, OpenCells(g, dm) - bss.Keys), all[i])
    ensures WholeGroups(g, dm, Record(bss, T, |T|))
  {
    var node := all[i];
    var bss' := Record(bss, T, |T|);
    if OpenNonWall(g, dm) {
      var B := Blind(g, dm);
      FloodIsComponent(g, dm, bss.Keys, node);
      BlindSymmetric(g, dm);
      forall p | p in bss'
        ensures Component(B, p) <= bss'.Keys && bss'[p] == |Component(B, p)|
      {
        if p in T {
          ComponentShared(B, node, p);
        }
      }
    }
  }

  /** Recording a flooded group keeps the outer loop's state, one cell further on. */
  lemma RecordKeeps(g: Grid, dm: map<Pos, Ext>, seen: map<Pos, bool>, bss: map<Pos, nat>, all: seq<Pos>, i: nat, T: set<Pos>)
    requires Assigned(g, dm, seen, bss, all, i) && i < |all| && all[i] in seen && !seen[all[i]]
    requires T == Component(Graph(g, false, FreeCells(seen)), all[i])
    ensures Assigned(g, dm, Mark(seen, T), Record(bss, T, |T|), all, i + 1)
  {
    FreeIsUnsized(g, dm, seen, bss, all, i);
    FloodInside(g, dm, seen, all[i], T);
    RecordMarks(g, dm, seen, bss, all, i, T);
    RecordWhole(g, dm, seen, bss, all, i, T);
  }

  /**
   `create_blind_spot_shadow_size`: every cell whose distance to the hider
   is not `-inf` gets a size of at least 1, and no other cell gets one.
   When those cells are floor cells, as the hider's own distances
   guarantee, the size is the number of such cells reachable from it
   through non-wall neighbours.
   */
  method BlindSpotSizes(g: Grid, dm: map<Pos, Ext>) returns (bss: map<Pos, nat>)
    requires forall p :: p in dm <==> InBounds(g, p)
    ensures bss.Keys == OpenCells(g, dm)
    ensures forall p :: p in bss ==> bss[p] >= 1
    ensures OpenNonWall(g, dm) ==> forall p :: p in bss ==> bss[p] == |Component(Blind(g, dm), p)|
  {
    var all := AllPositions(g);
    var seen := map p | p in dm :: dm[p] == NegInf;
    bss := map[];
    for i := 0 to |all|
      invariant Assigned(g, dm, seen, bss, all, i)
    {
      var node := all[i];
      assert node in all;
      if !seen[node] {
        var T := Flood(g, seen, node);
        RecordKeeps(g, dm, seen, bss, all, i, T);
        seen, bss := Mark(seen, T), Record(bss, T, |T|);
      } else {
        SkipMarked(g, dm, seen, bss, all, i);
      }
    }
    forall p | p in OpenCells(g, dm)
      ensures p in bss
    {
      var k :| 0 <= k < |all| && all[k] == p;
    }
  }

  /** Cells of one component get one size. */
  lemma SizeSharedInComponent(g: Grid, dm: map<Pos, Ext>, bss: map<Pos, nat>, p: Pos, q: Pos)
    requires OpenNonWall(g, dm) && bss.Keys == OpenCells(g, dm)
    requires forall c :: c in bss ==> bss[c] == |Component(Blind(g, dm), c)|
    requires p in bss && Reachable(Blind(g, dm), {p}, q)
    ensures q in bss && bss[q] == bss[p]
  {
    ReachedAdmitted(Blind(g, dm), p, q);
    BlindSymmetric(g, dm);
    assert q in Component(Blind(g, dm), p);
    ComponentShared(Blind(g, dm), p, q);
  }
}
