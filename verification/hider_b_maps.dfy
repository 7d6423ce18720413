/**
 The first three maps of the second hider: which cells could hide it, and
 for each such cell the hop distance to the nearest hiding cell beside a
 wall, and to the nearest hiding cell beside a cell the seeker sees. Both
 distances are found by one breadth-first walk per anchor cell, through
 hiding cells only, and the smallest result is kept.
 */
module HiderBMaps {
  import opened GridNode
  import opened GridModel
  import opened Extended
  import opened Paths

  /** A possible hiding cell: on the grid, unseen by the seeker, and not a wall. */
  predicate Spot(g: Grid, p: Pos)
  {
    InBounds(g, p) && !At(g, p).seenBySeeker && !At(g, p).isWall
  }

  function Spots(g: Grid): (s: set<Pos>)
    ensures forall p :: p in s <==> Spot(g, p)
  {
    set p | p in Cells(g) && Spot(g, p)
  }

  /** Moves between hiding cells: to a non-wall neighbour that is itself a hiding cell. */
  function SpotGraph(g: Grid): Graph
  {
    Graph(g, false, Spots(g))
  }

  /** `possible_locations`: 0 on every hiding cell, `-inf` on every other cell of the grid. */
  ghost predicate IsPossibleLocations(g: Grid, pl: map<Pos, Ext>)
  {
    && (forall p :: p in pl <==> InBounds(g, p))
    && (forall p :: p in pl ==> pl[p] == if Spot(g, p) then Fin(0) else NegInf)
  }

  /** `create_possible_locations`: one pass over the grid. */
  method PossibleLocations(g: Grid) returns (pl: map<Pos, Ext>)
    ensures IsPossibleLocations(g, pl)
  {
    var all := AllPositions(g);
    pl := map[];
    for i := 0 to |all|
      invariant forall p :: p in pl <==> p in all[..i]
      invariant forall p :: p in pl ==> InBounds(g, p) && pl[p] == if Spot(g, p) then Fin(0) else NegInf
    {
      var p := all[i];
      assert all[..i + 1] == all[..i] + [p];
      if !At(g, p).seenBySeeker && !At(g, p).isWall {
        pl := pl[p := Fin(0)];
      } else {
        pl := pl[p := NegInf];
      }
    }
    assert all[..|all|] == all;
  }

  /** What a hiding cell must stand next to to start a walk: a wall, or an open cell the seeker sees. */
  datatype Anchor = NearWall | NearSight

  predicate Anchors(g: Grid, kind: Anchor, n: Pos)
    requires InBounds(g, n)
  {
    match kind
    case NearWall => At(g, n).isWall
    case NearSight => !At(g, n).isWall && At(g, n).seenBySeeker
  }

  /** Some neighbour of p, walls admitted, is of the given kind. */
  ghost predicate HasAnchor(g: Grid, kind: Anchor, p: Pos)
  {
    exists n :: IsNeighbor(g, p, n, true) && Anchors(g, kind, n)
  }

  /** The starting points of a walk: the hiding cells with an anchor beside them. */
  ghost function AnchorSet(g: Grid, kind: Anchor): set<Pos>
  {
    set p | p in Spots(g) && HasAnchor(g, kind, p)
  }

  /** Python's `any` over the kinds of the listed cells. */
  function AnyAnchor(g: Grid, kind: Anchor, ns: seq<Pos>): (b: bool)
    requires forall n :: n in ns ==> InBounds(g, n)
    ensures b <==> exists n :: n in ns && Anchors(g, kind, n)
  {
    if ns == [] then false
    else
      assert forall n :: n in ns ==> n == ns[0] || n in ns[1..];
      Anchors(g, kind, ns[0]) || AnyAnchor(g, kind, ns[1..])
  }

  /** The first loop of `create_wall_distances` and `create_shadow_distances`. */
  method StartingPoints(g: Grid, pl: map<Pos, Ext>, kind: Anchor) returns (starts: set<Pos>)
    requires IsPossibleLocations(g, pl)
    ensures starts == AnchorSet(g, kind)
  {
    var all := AllPositions(g);
    starts := {};
    for i := 0 to |all|
      invariant forall p :: p in starts <==> p in all[..i] && Spot(g, p) && HasAnchor(g, kind, p)
    {
      var p := all[i];
      assert all[..i + 1] == all[..i] + [p];
      if pl[p] != Fin(0) {
        continue;
      }
      var nbrs := Neighbors(g, p, true);
      if AnyAnchor(g, kind, nbrs) {
        starts := starts + {p};
      } else {
        assert !HasAnchor(g, kind, p);
      }
    }
    assert all[..|all|] == all;
  }

  /** A queue entry of the walk: a cell and the hop count it was reached with. */
  datatype Entry = Entry(p: Pos, dist: nat)

  /** A popped cell is the walk's source, or follows a cell popped earlier with a smaller count. */
  ghost predicate SeenBacked(G: Graph, s: Pos, seen: map<Pos, nat>, p: Pos)
    requires p in seen
  {
    p == s || exists u :: u in seen && seen[u] < seen[p] && Step(G, u, p)
  }

  /** A queued entry is the walk's start at 0, or one move from a cell popped with one less. */
  ghost predicate EntryBacked(G: Graph, s: Pos, seen: map<Pos, nat>, e: Entry)
  {
    if e.dist == 0 then e.p == s
    else exists u :: u in seen && seen[u] == e.dist - 1 && Step(G, u, e.p)
  }

  /** Some entry for v in the queue carries a count of at most k. */
  ghost predicate Pending(q: seq<Entry>, v: Pos, k: nat)
  {
    exists i :: 0 <= i < |q| && q[i].p == v && q[i].dist <= k
  }

  /** Every move out of the popped cell u ends on a cell popped at most one later, or queued so. */
  ghost predicate Covered(G: Graph, seen: map<Pos, nat>, q: seq<Entry>, u: Pos)
    requires u in seen
  {
    forall v :: Step(G, u, v) ==> (v in seen && seen[v] <= seen[u] + 1) || Pending(q, v, seen[u] + 1)
  }

  /**
   The state of one walk from s between turns: the queue holds hiding
   cells whose counts rise by at most one from front to back and never
   fall, the popped cells carry counts no larger than the front's, and
   every count is backed by a move from a smaller one.
   */
  ghost predicate WalkState(g: Grid, s: Pos, q: seq<Entry>, seen: map<Pos, nat>, cur: nat)
  {
    && Spot(g, s)
    && (seen == map[] ==> q == [Entry(s, 0)])
    && (seen != map[] ==> s in seen && seen[s] == 0)
    && (forall p :: p in seen ==> Spot(g, p) && seen[p] <= cur)
    && (forall p {:trigger SeenBacked(SpotGraph(g), s, seen, p)} :: p in seen ==> SeenBacked(SpotGraph(g), s, seen, p))
    && (forall i :: 0 <= i < |q| ==> Spot(g, q[i].p) && cur <= q[i].dist <= cur + 1)
    && (forall i, j :: 0 <= i < j < |q| ==> q[i].dist <= q[j].dist)
    && (forall i :: 0 <= i < |q| ==> EntryBacked(SpotGraph(g), s, seen, q[i]))
    && (forall u {:trigger Covered(SpotGraph(g), seen, q, u)} :: u in seen ==> Covered(SpotGraph(g), seen, q, u))
  }

  /** Popping an entry whose cell was already popped keeps the state. */
  lemma SkipKeeps(g: Grid, s: Pos, q: seq<Entry>, seen: map<Pos, nat>, cur: nat)
    requires WalkState(g, s, q, seen, cur) && q != [] && q[0].p in seen
    ensures WalkState(g, s, q[1..], seen, q[0].dist)
  {
    var G := SpotGraph(g);
    var q' := q[1..];
    forall i | 0 <= i < |q'|
      ensures q[0].dist <= q'[i].dist && EntryBacked(G, s, seen, q'[i])
    {
      assert q'[i] == q[i + 1];
    }
    forall u | u in seen
      ensures Covered(G, seen, q', u)
    {
      assert Covered(G, seen, q, u);
      forall v | Step(G, u, v) && !(v in seen && seen[v] <= seen[u] + 1)
        ensures Pending(q', v, seen[u] + 1)
      {
        var i :| 0 <= i < |q| && q[i].p == v && q[i].dist <= seen[u] + 1;
        assert i != 0;
        assert q'[i - 1] == q[i];
      }
    }
  }

  /** The entries one expansion appends after the old queue: all for moves out of v, at count j + 1. */
  ghost predicate Pushed(g: Grid, v: Pos, j: nat, q0: seq<Entry>, q': seq<Entry>)
  {
    && |q0| <= |q'| && q'[..|q0|] == q0
    && forall i :: |q0| <= i < |q'| ==> q'[i].dist == j + 1 && Step(SpotGraph(g), v, q'[i].p)
  }

  /** The queue after popping a fresh cell v = q[0].p and queueing its unpopped hiding neighbours. */
  ghost predicate FreshTurn(g: Grid, q: seq<Entry>, seen: map<Pos, nat>, q': seq<Entry>)
    requires q != []
  {
    var v, j := q[0].p, q[0].dist;
    && v !in seen
    && Pushed(g, v, j, q[1..], q')
    && forall n :: Step(SpotGraph(g), v, n) && n !in seen[v := j] ==> Pending(q', n, j + 1)
  }

  lemma FreshKeepsSeen(g: Grid, s: Pos, q: seq<Entry>, seen: map<Pos, nat>, cur: nat)
    requires WalkState(g, s, q, seen, cur) && q != [] && q[0].p !in seen
    ensures var seen' := seen[q[0].p := q[0].dist];
      && (seen' != map[] ==> s in seen' && seen'[s] == 0)
      && (forall p :: p in seen' ==> Spot(g, p) && seen'[p] <= q[0].dist)
      && (forall p {:trigger SeenBacked(SpotGraph(g), s, seen', p)} :: p in seen' ==> SeenBacked(SpotGraph(g), s, seen', p))
  {
    var G := SpotGraph(g);
    var v, j := q[0].p, q[0].dist;
    var seen' := seen[v := j];
    assert EntryBacked(G, s, seen, q[0]);
    forall p | p in seen'
      ensures SeenBacked(G, s, seen', p)
    {
      if p == v {
        if j != 0 {
          var u :| u in seen && seen[u] == j - 1 && Step(G, u, v);
          assert u in seen' && seen'[u] < seen'[p];
        }
      } else {
        assert SeenBacked(G, s, seen, p);
        if p != s {
          var u :| u in seen && seen[u] < seen[p] && Step(G, u, p);
          assert u in seen' && seen'[u] < seen'[p];
        }
      }
    }
  }

  lemma FreshKeepsQueue(g: Grid, s: Pos, q: seq<Entry>, seen: map<Pos, nat>, cur: nat, q': seq<Entry>)
    requires WalkState(g, s, q, seen, cur) && q != [] && FreshTurn(g, q, seen, q')
    ensures var seen', j := seen[q[0].p := q[0].dist], q[0].dist;
      && (forall i :: 0 <= i < |q'| ==> Spot(g, q'[i].p) && j <= q'[i].dist <= j + 1)
      && (forall i, k :: 0 <= i < k < |q'| ==> q'[i].dist <= q'[k].dist)
      && (forall i :: 0 <= i < |q'| ==> EntryBacked(SpotGraph(g), s, seen', q'[i]))
  {
    var G := SpotGraph(g);
    var v, j := q[0].p, q[0].dist;
    var seen' := seen[v := j];
    var n := |q| - 1;
    forall i | 0 <= i < |q'|
      ensures Spot(g, q'[i].p) && j <= q'[i].dist <= j + 1
      ensures EntryBacked(G, s, seen', q'[i])
    {
      if i < n {
        assert q'[i] == q[i + 1];
        assert EntryBacked(G, s, seen, q[i + 1]);
        if q'[i].dist != 0 {
          var u :| u in seen && seen[u] == q'[i].dist - 1 && Step(G, u, q'[i].p);
          assert u in seen' && seen'[u] == seen[u];
        }
      } else {
        assert v in seen' && seen'[v] == q'[i].dist - 1;
      }
    }
    forall i, k | 0 <= i < k < |q'|
      ensures q'[i].dist <= q'[k].dist
    {
      if k < n {
        assert q'[i] == q[i + 1] && q'[k] == q[k + 1];
      }
    }
  }

  lemma FreshKeepsCovered(g: Grid, s: Pos, q: seq<Entry>, seen: map<Pos, nat>, cur: nat, q': seq<Entry>)
    requires WalkState(g, s, q, seen, cur) && q != [] && FreshTurn(g, q, seen, q')
    ensures var seen' := seen[q[0].p := q[0].dist];
      forall u {:trigger Covered(SpotGraph(g), seen', q', u)} :: u in seen' ==> Covered(SpotGraph(g), seen', q', u)
  {
    var G := SpotGraph(g);
    var v, j := q[0].p, q[0].dist;
    var seen' := seen[v := j];
    forall u | u in seen'
      ensures Covered(G, seen', q', u)
    {
      if u != v {
        assert Covered(G, seen, q, u);
        forall w | Step(G, u, w) && !(w in seen' && seen'[w] <= seen'[u] + 1)
          ensures Pending(q', w, seen'[u] + 1)
        {
          var i :| 0 <= i < |q| && q[i].p == w && q[i].dist <= seen[u] + 1;
          assert i != 0;
          assert q'[i - 1] == q[i];
        }
      }
    }
  }

  /** Popping a fresh cell and queueing its unpopped hiding neighbours keeps the state. */
  lemma FreshKeeps(g: Grid, s: Pos, q: seq<Entry>, seen: map<Pos, nat>, cur: nat, q': seq<Entry>)
    requires WalkState(g, s, q, seen, cur) && q != [] && FreshTurn(g, q, seen, q')
    ensures WalkState(g, s, q', seen[q[0].p := q[0].dist], q[0].dist)
  {
    FreshKeepsSeen(g, s, q, seen, cur);
    FreshKeepsQueue(g, s, q, seen, cur, q');
    FreshKeepsCovered(g, s, q, seen, cur, q');
  }

  /**
   The inner loop of a turn: appends an entry at count j + 1 for each
   listed neighbour of v that is a hiding cell and not yet popped.
   */
  method PushNeighbors(g: Grid, pl: map<Pos, Ext>, seen: map<Pos, nat>, q0: seq<Entry>, v: Pos, j: nat, nbrs: seq<Pos>)
    returns (q': seq<Entry>)
    requires IsPossibleLocations(g, pl)
    requires forall k :: 0 <= k < |nbrs| ==> IsNeighbor(g, v, nbrs[k], false)
    ensures Pushed(g, v, j, q0, q')
    ensures forall k :: 0 <= k < |nbrs| && Spot(g, nbrs[k]) && nbrs[k] !in seen ==> Pending(q', nbrs[k], j + 1)
  {
    q' := q0;
    for k := 0 to |nbrs|
      invariant Pushed(g, v, j, q0, q')
      invariant forall k' :: 0 <= k' < k && Spot(g, nbrs[k']) && nbrs[k'] !in seen ==> Pending(q', nbrs[k'], j + 1)
    {
      var n := nbrs[k];
      if pl[n] == Fin(0) && n !in seen {
        ghost var prev := q';
        q' := q' + [Entry(n, j + 1)];
        assert q'[|q'| - 1] == Entry(n, j + 1);
        forall k' | 0 <= k' < k && Spot(g, nbrs[k']) && nbrs[k'] !in seen
          ensures Pending(q', nbrs[k'], j + 1)
        {
          var i :| 0 <= i < |prev| && prev[i].p == nbrs[k'] && prev[i].dist <= j + 1;
          assert q'[i] == prev[i];
        }
      }
    }
  }

  /**
   The work of a turn on a fresh cell v popped at count j: its neighbours,
   walls excluded, are listed and the hiding cells among them not yet
   popped are queued at j + 1.
   */
  method Expand(g: Grid, pl: map<Pos, Ext>, rest: seq<Entry>, seen: map<Pos, nat>, v: Pos, j: nat) returns (q': seq<Entry>)
    requires IsPossibleLocations(g, pl)
    ensures Pushed(g, v, j, rest, q')
    ensures forall n :: Step(SpotGraph(g), v, n) && n !in seen ==> Pending(q', n, j + 1)
  {
    var nbrs := Neighbors(g, v, false);
    forall k | 0 <= k < |nbrs|
      ensures IsNeighbor(g, v, nbrs[k], false)
    {
      assert nbrs[k] in nbrs;
    }
    q' := PushNeighbors(g, pl, seen, rest, v, j, nbrs);
    forall n | Step(SpotGraph(g), v, n) && n !in seen
      ensures Pending(q', n, j + 1)
    {
      assert n in nbrs;
      var k :| 0 <= k < |nbrs| && nbrs[k] == n;
    }
  }

  /** Counting a fresh hiding cell leaves fewer hiding cells uncounted. */
  lemma FreshShrinks(g: Grid, seen: map<Pos, nat>, v: Pos, j: nat)
    requires Spot(g, v) && v !in seen
    ensures seen.Keys <= seen[v := j].Keys
    ensures |Spots(g) - seen[v := j].Keys| < |Spots(g) - seen.Keys|
  {
    assert Spots(g) - seen[v := j].Keys == (Spots(g) - seen.Keys) - {v};
  }

  /** One turn of the walk: pop the front; a cell popped before is skipped, a fresh one is counted and its neighbours queued. */
  method WalkTurn(g: Grid, pl: map<Pos, Ext>, ghost s: Pos, q: seq<Entry>, seen: map<Pos, nat>, ghost cur: nat)
    returns (q': seq<Entry>, seen': map<Pos, nat>, ghost cur': nat)
    requires IsPossibleLocations(g, pl) && WalkState(g, s, q, seen, cur) && q != []
    ensures WalkState(g, s, q', seen', cur')
    ensures seen.Keys <= seen'.Keys
    ensures |Spots(g) - seen'.Keys| < |Spots(g) - seen.Keys| || (seen' == seen && |q'| < |q|)
  {
    var e := q[0];
    if e.p in seen {
      SkipKeeps(g, s, q, seen, cur);
      return q[1..], seen, e.dist;
    }
    seen' := seen[e.p := e.dist];
    q' := Expand(g, pl, q[1..], seen', e.p, e.dist);
    FreshKeeps(g, s, q, seen, cur, q');
    FreshShrinks(g, seen, e.p, e.dist);
    cur' := e.dist;
  }

  /** Before the first turn only the walk's start is queued, at 0. */
  lemma WalkStart(g: Grid, s: Pos)
    requires Spot(g, s)
    ensures WalkState(g, s, [Entry(s, 0)], map[], 0)
  {
    assert EntryBacked(SpotGraph(g), s, map[], Entry(s, 0));
  }

  /** The labelling a finished walk describes: the popped counts, and `Inf` for every cell never popped. */
  function WalkLabels(g: Grid, seen: map<Pos, nat>): (d: map<Pos, Ext>)
    ensures forall p :: p in d <==> InBounds(g, p)
  {
    map p | p in Cells(g) :: if p in seen then Fin(seen[p]) else Inf
  }

  /** A walk whose queue ran dry has popped exactly the reachable cells, each at its hop distance. */
  lemma WalkDone(g: Grid, s: Pos, seen: map<Pos, nat>, cur: nat)
    requires WalkState(g, s, [], seen, cur)
    ensures forall p :: InBounds(g, p) ==> IsDistance(SpotGraph(g), {s}, p, WalkLabels(g, seen)[p])
  {
    var G := SpotGraph(g);
    var d := WalkLabels(g, seen);
    forall p | p in d && d[p].Fin?
      ensures Backed(G, {s}, d, p)
    {
      assert SeenBacked(G, s, seen, p);
      if p != s {
        var u :| u in seen && seen[u] < seen[p] && Step(G, u, p);
        assert u in d && d[u] == Fin(seen[u]);
      }
    }
    forall u | u in d && d[u].Fin?
      ensures ClosedAt(G, d, u)
    {
      assert Covered(G, seen, [], u);
    }
    LabelsAreDistances(G, {s}, d);
  }

  /**
   The walk from one starting point s in `create_wall_distances` and
   `create_shadow_distances`: a first-in first-out queue, a cell counted
   the first time it is popped, and only unpopped hiding neighbours
   queued. The cells popped are exactly those reachable from s through
   hiding cells, each with its hop distance from s.
   */
  method SourceWalk(g: Grid, pl: map<Pos, Ext>, s: Pos) returns (seen: map<Pos, nat>)
    requires IsPossibleLocations(g, pl) && Spot(g, s)
    ensures forall p :: p in seen ==> Spot(g, p)
    ensures forall p :: InBounds(g, p) ==> IsDistance(SpotGraph(g), {s}, p, if p in seen then Fin(seen[p]) else Inf)
  {
    var q := [Entry(s, 0)];
    seen := map[];
    ghost var cur: nat := 0;
    WalkStart(g, s);
    while q != []
      invariant WalkState(g, s, q, seen, cur)
      decreases |Spots(g) - seen.Keys|, |q|
    {
      q, seen, cur := WalkTurn(g, pl, s, q, seen, cur);
    }
    WalkDone(g, s, seen, cur);
  }

  /** The walk's effect on the running map: each popped cell keeps the smaller of its value and its count. */
  function MergeMin(dm: map<Pos, Ext>, seen: map<Pos, nat>): (r: map<Pos, Ext>)
    ensures r.Keys == dm.Keys
    ensures forall p :: p in dm ==> r[p] == if p in seen then Min(dm[p], Fin(seen[p])) else dm[p]
  {
    map p | p in dm :: if p in seen then Min(dm[p], Fin(seen[p])) else dm[p]
  }

  /**
   A map of the kind the two walks build: an entry for every cell of the
   grid, `-inf` exactly off the hiding cells, and on a hiding cell its hop
   distance from `srcs` through hiding cells.
   */
  ghost predicate DistancesFrom(g: Grid, srcs: set<Pos>, dm: map<Pos, Ext>)
  {
    && (forall p :: p in dm <==> InBounds(g, p))
    && (forall p :: p in dm ==> (dm[p] == NegInf <==> !Spot(g, p)))
    && (forall p :: p in dm && Spot(g, p) ==> IsDistance(SpotGraph(g), srcs, p, dm[p]))
  }

  /** Folding in the walk from one more starting point s gives the distances from all of them. */
  lemma MergeKeeps(g: Grid, done: set<Pos>, s: Pos, dm: map<Pos, Ext>, seen: map<Pos, nat>)
    requires DistancesFrom(g, done, dm)
    requires forall p :: p in seen ==> Spot(g, p)
    requires forall p :: InBounds(g, p) ==> IsDistance(SpotGraph(g), {s}, p, if p in seen then Fin(seen[p]) else Inf)
    ensures DistancesFrom(g, done + {s}, MergeMin(dm, seen))
  {
    var r := MergeMin(dm, seen);
    forall p | p in r && Spot(g, p)
      ensures IsDistance(SpotGraph(g), done + {s}, p, r[p])
    {
      var e := if p in seen then Fin(seen[p]) else Inf;
      DistanceOfUnion(SpotGraph(g), done, s, p, dm[p], e);
      assert r[p] == Min(dm[p], e);
    }
  }

  /**
   The default values and the walks of `create_wall_distances` and
   `create_shadow_distances`, for the given starting points: `-inf` off the
   hiding cells, and on them the hop distance to the nearest starting point
   through hiding cells, `inf` when none is reachable.
   */
  method AnchorDistances(g: Grid, pl: map<Pos, Ext>, starts: set<Pos>) returns (dm: map<Pos, Ext>)
    requires IsPossibleLocations(g, pl) && forall s :: s in starts ==> Spot(g, s)
    ensures DistancesFrom(g, starts, dm)
  {
    dm := map p | p in pl :: if pl[p] == Fin(0) then Inf else NegInf;
    var rest := starts;
    forall p | p in dm && Spot(g, p)
      ensures IsDistance(SpotGraph(g), starts - rest, p, dm[p])
    {
      NoSourcesNoReach(SpotGraph(g), p);
    }
    while rest != {}
      invariant rest <= starts
      invariant DistancesFrom(g, starts - rest, dm)
      decreases |rest|
    {
      var s :| s in rest;
      var seen := SourceWalk(g, pl, s);
      MergeKeeps(g, starts - rest, s, dm, seen);
      dm := MergeMin(dm, seen);
      MoveDone(starts, rest, s);
      rest := rest - {s};
    }
    assert starts - rest == starts;
  }

  /** Set bookkeeping of the loop over the starting points. */
  lemma MoveDone(starts: set<Pos>, rest: set<Pos>, s: Pos)
    requires s in rest && rest <= starts
    ensures (starts - rest) + {s} == starts - (rest - {s})
  {
  }

  /** A finite distance is a reachable cell. */
  lemma FiniteReachable(G: Graph, srcs: set<Pos>, p: Pos, k: nat)
    requires IsDistance(G, srcs, p, Fin(k))
    ensures Reachable(G, srcs, p)
  {
  }

  /**
   `create_wall_distances`: `-inf` off the hiding cells; on them, the hop
   distance through hiding cells to the nearest hiding cell that has a
   wall among its neighbours, or `inf` when there is none to reach.
   */
  method WallDistances(g: Grid, pl: map<Pos, Ext>) returns (wd: map<Pos, Ext>)
    requires IsPossibleLocations(g, pl)
    ensures DistancesFrom(g, AnchorSet(g, NearWall), wd)
  {
    var starts := StartingPoints(g, pl, NearWall);
    wd := AnchorDistances(g, pl, starts);
  }

  /**
   `create_shadow_distances`: on a hiding cell from which some hiding cell
   next to an open cell the seeker sees can be reached, the hop distance
   to the nearest one; `-inf` on every other cell, the unreachable hiding
   cells included, so that no value is `inf`.
   */
  method ShadowDistances(g: Grid, pl: map<Pos, Ext>) returns (sd: map<Pos, Ext>)
    requires IsPossibleLocations(g, pl)
    ensures forall p :: p in sd <==> InBounds(g, p)
    ensures forall p :: p in sd ==> sd[p] != Inf
    ensures forall p :: p in sd ==>
      (sd[p] == NegInf <==> !Spot(g, p) || !Reachable(SpotGraph(g), AnchorSet(g, NearSight), p))
    ensures forall p :: p in sd && sd[p].Fin? ==> Spot(g, p) && IsDistance(SpotGraph(g), AnchorSet(g, NearSight), p, sd[p])
  {
    var starts := StartingPoints(g, pl, NearSight);
    var raw := AnchorDistances(g, pl, starts);
    sd := map p | p in raw :: if raw[p] == Inf then NegInf else raw[p];
    forall p | p in sd
      ensures sd[p] == NegInf <==> !Spot(g, p) || !Reachable(SpotGraph(g), starts, p)
    {
      if Spot(g, p) && raw[p].Fin? {
        FiniteReachable(SpotGraph(g), starts, p, raw[p].n);
      }
    }
  }
}
