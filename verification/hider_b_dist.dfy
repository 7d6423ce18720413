/**
 The fourth map of the second hider (`create_dist_to_me`): a unit-weight
 Dijkstra search from the hider's own cell over non-wall neighbours, kept
 only for the hiding cells that the shadow walk reached.

 The queue is a set of (distance, cell) entries and any of them may be
 taken next; the labels it ends with do not depend on that order, so the
 order of the `heapq` queue in `create_dist_to_me` is one of the runs covered.
 */
module HiderBDist {
  import opened GridNode
  import opened GridModel
  import opened Extended
  import opened Paths
  import opened HiderA
  import opened HiderBMaps

  /** A queue entry: a tentative distance and the cell it was found for. */
  datatype Queued = Queued(dist: nat, p: Pos)

  /** The search moves between neighbouring cells and enters no wall. */
  function Moves(g: Grid): Graph
  {
    Traversal(g, false)
  }

  /** Sum of the finite labels of the listed cells. */
  function LabelSum(d: map<Pos, Ext>, ps: seq<Pos>): nat
  {
    if ps == [] then 0
    else (if ps[0] in d && d[ps[0]].Fin? then d[ps[0]].n else 0) + LabelSum(d, ps[1..])
  }

  /** Lowering one finite label never raises the sum, and lowers it when the cell is listed. */
  lemma {:induction false} LabelSumDecrease(d: map<Pos, Ext>, p: Pos, a: nat, b: nat, ps: seq<Pos>)
    requires p in d && d[p] == Fin(a) && b < a
    ensures LabelSum(d[p := Fin(b)], ps) <= LabelSum(d, ps)
    ensures p in ps ==> LabelSum(d[p := Fin(b)], ps) < LabelSum(d, ps)
  {
    if ps != [] {
      LabelSumDecrease(d, p, a, b, ps[1..]);
      if p != ps[0] {
        assert p in ps ==> p in ps[1..];
      }
    }
  }

  /** The search's measure has fallen from d to d': fewer `Inf` labels, or as many and a smaller sum of labels. */
  ghost predicate Below(g: Grid, d': map<Pos, Ext>, d: map<Pos, Ext>)
  {
    |Unlabelled(d')| < |Unlabelled(d)| ||
    (|Unlabelled(d')| == |Unlabelled(d)| && LabelSum(d', AllPositions(g)) < LabelSum(d, AllPositions(g)))
  }

  lemma BelowTransitive(g: Grid, a: map<Pos, Ext>, b: map<Pos, Ext>, c: map<Pos, Ext>)
    requires Below(g, a, b) && Below(g, b, c)
    ensures Below(g, a, c)
  {
  }

  /** The relaxation test `dists[n] > dist + 1`. */
  predicate Improves(e: Ext, k: nat)
  {
    !Le(e, Fin(k))
  }

  /** Lowering a label to one more than a labelled neighbour's keeps every label supported. */
  lemma LowerSupported(G: Graph, srcs: set<Pos>, d: map<Pos, Ext>, u: Pos, v: Pos, k: nat)
    requires Supported(G, srcs, d)
    requires u in d && d[u].Fin? && d[u].n < k && Step(G, u, v)
    requires v in d && Improves(d[v], k)
    ensures Supported(G, srcs, d[v := Fin(k)])
  {
    var d' := d[v := Fin(k)];
    forall p | p in d' && d'[p].Fin?
      ensures Backed(G, srcs, d', p)
    {
      if p == v {
        assert u in d' && d'[u].Fin? && d'[u].n < d'[p].n && Step(G, u, p);
      } else {
        assert Backed(G, srcs, d, p);
        if p !in srcs {
          var w :| w in d && d[w].Fin? && d[w].n < d[p].n && Step(G, w, p);
          assert w in d' && d'[w].Fin? && d'[w].n < d'[p].n;
        }
      }
    }
  }

  /** Lowering a label keeps every closed cell other than the lowered one closed. */
  lemma LowerClosed(G: Graph, d: map<Pos, Ext>, v: Pos, k: nat, u: Pos)
    requires v in d && Improves(d[v], k) && u != v && ClosedAt(G, d, u)
    ensures ClosedAt(G, d[v := Fin(k)], u)
  {
  }

  /** Lowering a label lowers the measure. */
  lemma LowerBelow(g: Grid, d: map<Pos, Ext>, v: Pos, k: nat)
    requires v in d && InBounds(g, v) && Improves(d[v], k)
    ensures Below(g, d[v := Fin(k)], d)
  {
    var d' := d[v := Fin(k)];
    if d[v] == Inf {
      assert Unlabelled(d') == Unlabelled(d) - {v};
    } else {
      assert Unlabelled(d') == Unlabelled(d);
      LabelSumDecrease(d, v, d[v].n, k, AllPositions(g));
    }
  }

  /** Every cell labelled, the start at 0, and every finite label backed by a neighbour one less. */
  ghost predicate Sound(g: Grid, here: Pos, d: map<Pos, Ext>)
  {
    Labelled(g, d) && Based({here}, d) && Supported(Moves(g), {here}, d)
  }

  /** Every queued entry is at least the label of its cell. */
  ghost predicate EntriesAbove(d: map<Pos, Ext>, pq: set<Queued>)
  {
    forall e :: e in pq ==> e.p in d && d[e.p].Fin? && d[e.p].n <= e.dist
  }

  /** Every labelled cell outside `busy` has had its moves explored, or is queued at its current label. */
  ghost predicate Waiting(G: Graph, d: map<Pos, Ext>, pq: set<Queued>, busy: set<Pos>)
  {
    forall u :: u in d && d[u].Fin? && u !in busy ==> ClosedAt(G, d, u) || Queued(d[u].n, u) in pq
  }

  ghost predicate DijkstraState(g: Grid, here: Pos, d: map<Pos, Ext>, pq: set<Queued>)
  {
    Sound(g, here, d) && EntriesAbove(d, pq) && Waiting(Moves(g), d, pq, {})
  }

  /**
   Part way through the moves out of v, taken at label j: the first i
   neighbours are labelled at most j + 1, and either nothing has changed
   since the entry was taken off `pq0` or the measure has fallen from `d0`.
   */
  ghost predicate Relaxing(g: Grid, here: Pos, d0: map<Pos, Ext>, pq0: set<Queued>, d: map<Pos, Ext>, pq: set<Queued>,
                           v: Pos, j: nat, nbrs: seq<Pos>, i: nat)
  {
    && Sound(g, here, d) && EntriesAbove(d, pq) && Waiting(Moves(g), d, pq, {v})
    && v in d && d[v] == Fin(j) && i <= |nbrs|
    && (forall k :: 0 <= k < i ==> nbrs[k] in d && d[nbrs[k]].Fin? && d[nbrs[k]].n <= j + 1)
    && ((d == d0 && pq == pq0) || Below(g, d, d0))
  }

  lemma NeighborLabelled(g: Grid, here: Pos, d: map<Pos, Ext>, v: Pos, n: Pos)
    requires Sound(g, here, d) && IsNeighbor(g, v, n, false)
    ensures n in d
  {
  }

  /** A lowering by a labelled neighbour keeps the labels sound; the start, at 0, is never lowered. */
  lemma LowerSound(g: Grid, here: Pos, d: map<Pos, Ext>, v: Pos, n: Pos, k: nat)
    requires Sound(g, here, d)
    requires v in d && d[v].Fin? && d[v].n < k && IsNeighbor(g, v, n, false)
    requires n in d && Improves(d[n], k)
    ensures Sound(g, here, d[n := Fin(k)])
  {
    assert Step(Moves(g), v, n);
    LowerSupported(Moves(g), {here}, d, v, n, k);
  }

  /** A lowering queued at its new label keeps every entry at or above its cell's label. */
  lemma LowerEntries(d: map<Pos, Ext>, pq: set<Queued>, n: Pos, k: nat)
    requires EntriesAbove(d, pq) && n in d && Improves(d[n], k)
    ensures EntriesAbove(d[n := Fin(k)], pq + {Queued(k, n)})
  {
  }

  /** A lowering queued at its new label keeps every cell explored or waiting. */
  lemma LowerWaiting(G: Graph, d: map<Pos, Ext>, pq: set<Queued>, busy: set<Pos>, n: Pos, k: nat)
    requires Waiting(G, d, pq, busy) && n in d && Improves(d[n], k)
    ensures Waiting(G, d[n := Fin(k)], pq + {Queued(k, n)}, busy)
  {
    var d', pq' := d[n := Fin(k)], pq + {Queued(k, n)};
    forall u | u in d' && d'[u].Fin? && u !in busy
      ensures ClosedAt(G, d', u) || Queued(d'[u].n, u) in pq'
    {
      if u != n && ClosedAt(G, d, u) {
        LowerClosed(G, d, n, k, u);
      }
    }
  }

  /** One relaxation `dists[n] = dist + 1` with its push. */
  lemma RelaxStep(g: Grid, here: Pos, d0: map<Pos, Ext>, pq0: set<Queued>, d: map<Pos, Ext>, pq: set<Queued>,
                  v: Pos, j: nat, nbrs: seq<Pos>, i: nat)
    requires Relaxing(g, here, d0, pq0, d, pq, v, j, nbrs, i) && i < |nbrs|
    requires IsNeighbor(g, v, nbrs[i], false) && Improves(d[nbrs[i]], j + 1)
    ensures Relaxing(g, here, d0, pq0, d[nbrs[i] := Fin(j + 1)], pq + {Queued(j + 1, nbrs[i])}, v, j, nbrs, i + 1)
  {
    var n := nbrs[i];
    var d' := d[n := Fin(j + 1)];
    LowerSound(g, here, d, v, n, j + 1);
    LowerEntries(d, pq, n, j + 1);
    LowerWaiting(Moves(g), d, pq, {v}, n, j + 1);
    LowerBelow(g, d, n, j + 1);
    if d != d0 {
      BelowTransitive(g, d', d, d0);
    }
  }

  /** A neighbour already labelled at most j + 1 is left alone. */
  lemma KeepStep(g: Grid, here: Pos, d0: map<Pos, Ext>, pq0: set<Queued>, d: map<Pos, Ext>, pq: set<Queued>,
                 v: Pos, j: nat, nbrs: seq<Pos>, i: nat)
    requires Relaxing(g, here, d0, pq0, d, pq, v, j, nbrs, i) && i < |nbrs|
    requires nbrs[i] in d && !Improves(d[nbrs[i]], j + 1)
    ensures Relaxing(g, here, d0, pq0, d, pq, v, j, nbrs, i + 1)
  {
  }

  /** Once every neighbour is labelled at most j + 1, v is explored and the search is back in step. */
  lemma RelaxDone(g: Grid, here: Pos, d0: map<Pos, Ext>, pq0: set<Queued>, d: map<Pos, Ext>, pq: set<Queued>,
                  v: Pos, j: nat)
    requires Relaxing(g, here, d0, pq0, d, pq, v, j, Neighbors(g, v, false), |Neighbors(g, v, false)|)
    ensures DijkstraState(g, here, d, pq)
  {
    var nbrs := Neighbors(g, v, false);
    NeighborSteps(g, false, v);
    assert ClosedAt(Moves(g), d, v) by {
      forall w | Step(Moves(g), v, w)
        ensures w in d && d[w].Fin? && d[w].n <= j + 1
      {
        var k :| 0 <= k < |nbrs| && nbrs[k] == w;
      }
    }
  }

  /** The moves out of v, at label j: every neighbour labelled more than j + 1 is lowered to j + 1 and queued. */
  method RelaxAll(g: Grid, ghost here: Pos, d0: map<Pos, Ext>, pq0: set<Queued>, v: Pos, j: nat)
    returns (d: map<Pos, Ext>, pq: set<Queued>)
    requires Relaxing(g, here, d0, pq0, d0, pq0, v, j, [], 0)
    ensures DijkstraState(g, here, d, pq)
    ensures (d == d0 && pq == pq0) || Below(g, d, d0)
  {
    var nbrs := Neighbors(g, v, false);
    d, pq := d0, pq0;
    for i := 0 to |nbrs|
      invariant Relaxing(g, here, d0, pq0, d, pq, v, j, nbrs, i)
    {
      var n := nbrs[i];
      assert n in nbrs;
      NeighborLabelled(g, here, d, v, n);
      if Improves(d[n], j + 1) {
        RelaxStep(g, here, d0, pq0, d, pq, v, j, nbrs, i);
        d := d[n := Fin(j + 1)];
        pq := pq + {Queued(j + 1, n)};
      } else {
        KeepStep(g, here, d0, pq0, d, pq, v, j, nbrs, i);
      }
    }
    RelaxDone(g, here, d0, pq0, d, pq, v, j);
  }

  /** One turn of the search: take entry e off the queue, skip it if stale, otherwise relax the moves out of its cell. */
  method Settle(g: Grid, ghost here: Pos, d: map<Pos, Ext>, pq: set<Queued>, e: Queued)
    returns (d': map<Pos, Ext>, pq': set<Queued>)
    requires DijkstraState(g, here, d, pq) && e in pq
    ensures DijkstraState(g, here, d', pq')
    ensures (d' == d && |pq'| < |pq|) || Below(g, d', d)
  {
    var rest := pq - {e};
    if Lt(d[e.p], Fin(e.dist)) {
      d', pq' := d, rest;
      return;
    }
    assert Relaxing(g, here, d, rest, d, rest, e.p, e.dist, [], 0);
    d', pq' := RelaxAll(g, here, d, rest, e.p, e.dist);
  }

  /** The strict comparison `dists[node] < dist`. */
  predicate Lt(a: Ext, b: Ext)
  {
    !Le(b, a)
  }

  /** The start: every cell `Inf` except the hider's own, at 0 and queued. */
  method DijkstraStart(g: Grid, here: Pos) returns (d: map<Pos, Ext>, pq: set<Queued>)
    requires InBounds(g, here)
    ensures DijkstraState(g, here, d, pq)
  {
    d := map p | p in Cells(g) :: if p == here then Fin(0) else Inf;
    pq := {Queued(0, here)};
    assert Supported(Moves(g), {here}, d) by {
      forall p | p in d && d[p].Fin?
        ensures Backed(Moves(g), {here}, d, p)
      {
        assert p == here;
      }
    }
  }

  /**
   The search itself: when the queue runs dry every cell is labelled with
   its hop distance from `here` through non-wall cells, or `Inf` when no
   such walk reaches it.
   */
  method Dijkstra(g: Grid, here: Pos) returns (d: map<Pos, Ext>)
    requires InBounds(g, here)
    ensures forall p :: p in d <==> InBounds(g, p)
    ensures forall p :: p in d ==> IsDistance(Moves(g), {here}, p, d[p])
  {
    var pq;
    d, pq := DijkstraStart(g, here);
    while pq != {}
      invariant DijkstraState(g, here, d, pq)
      decreases |Unlabelled(d)|, LabelSum(d, AllPositions(g)), |pq|
    {
      var e :| e in pq;
      d, pq := Settle(g, here, d, pq, e);
    }
    LabelsAreDistances(Moves(g), {here}, d);
  }

  /** The second loop of `create_dist_to_me`: a distance for each hiding cell with a shadow distance, `-inf` elsewhere. */
  function KeepCandidates(pl: map<Pos, Ext>, sd: map<Pos, Ext>, dists: map<Pos, Ext>): (dm: map<Pos, Ext>)
    requires pl.Keys <= sd.Keys && pl.Keys <= dists.Keys
    ensures dm.Keys == pl.Keys
    ensures forall p :: p in dm ==> dm[p] == if pl[p] == Fin(0) && sd[p] != NegInf then dists[p] else NegInf
  {
    map p | p in pl :: if pl[p] == Fin(0) && sd[p] != NegInf then dists[p] else NegInf
  }

  /**
   `create_dist_to_me`: the search's distance for every hiding cell whose
   shadow distance is not `-inf`, and `-inf` for every other cell. A kept
   hiding cell that no walk from `here` reaches keeps `Inf`.
   */
  method DistToMe(g: Grid, pl: map<Pos, Ext>, sd: map<Pos, Ext>, here: Pos) returns (dm: map<Pos, Ext>)
    requires IsPossibleLocations(g, pl) && InBounds(g, here)
    requires forall p :: p in sd <==> InBounds(g, p)
    ensures forall p :: p in dm <==> InBounds(g, p)
    ensures forall p :: p in dm ==> (dm[p] != NegInf <==> Spot(g, p) && sd[p] != NegInf)
    ensures forall p :: p in dm && dm[p] != NegInf ==> IsDistance(Moves(g), {here}, p, dm[p])
  {
    var dists := Dijkstra(g, here);
    dm := KeepCandidates(pl, sd, dists);
  }
}
