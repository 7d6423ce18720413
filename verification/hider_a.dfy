/**
 The first hider's reasoning: two distance transforms from the cells the
 seeker sees (one that stops at walls, one that passes through them), the
 deepest finite shadow, and the choice of a target among the non-wall
 cells by a score.
 */
module HiderA {
  import opened Wrappers
  import opened GridNode
  import opened GridModel
  import opened Extended
  import opened Paths
  import opened Npc

  /** The sources of both transforms: every cell the seeker sees, walls included. */
  function SeenCells(g: Grid): (s: set<Pos>)
    ensures forall p :: p in s <==> InBounds(g, p) && At(g, p).seenBySeeker
  {
    set p | p in Cells(g) && At(g, p).seenBySeeker
  }

  /** An entry of the queue: a cell, or the marker that closes one layer of the search. */
  datatype Item = Cell(p: Pos) | Marker

  /** Every cell labelled, with a distance or `Inf`. */
  ghost predicate Labelled(g: Grid, d: map<Pos, Ext>)
  {
    (forall p :: p in d <==> InBounds(g, p)) && (forall p :: p in d ==> d[p] != NegInf)
  }

  ghost function Unlabelled(d: map<Pos, Ext>): set<Pos>
  {
    set p | p in d && d[p] == Inf
  }

  /** No finite label exceeds the current layer. */
  ghost predicate Bounded(d: map<Pos, Ext>, dist: nat)
  {
    forall p :: p in d && d[p].Fin? ==> d[p].n <= dist
  }

  /**
   The queue is empty, or it holds the marker once, at `m`: the cells
   before it are labelled one less than the current layer, those after it
   are labelled with the current layer.
   */
  ghost predicate Layered(d: map<Pos, Ext>, q: seq<Item>, m: nat, dist: nat)
  {
    q == [] ||
    (m < |q| && q[m] == Marker && dist >= 1 &&
     forall i :: 0 <= i < |q| && i != m ==>
       q[i].Cell? && q[i].p in d && d[q[i].p] == Fin(if i < m then dist - 1 else dist))
  }

  /** A labelled cell that has left the queue has had all its moves explored. */
  ghost predicate Explored(G: Graph, d: map<Pos, Ext>, q: seq<Item>)
  {
    forall u :: u in d && d[u].Fin? && Cell(u) !in q ==> ClosedAt(G, d, u)
  }

  /** Labelling a fresh cell one more than a labelled neighbour keeps every label supported. */
  lemma RelabelSupported(G: Graph, srcs: set<Pos>, d: map<Pos, Ext>, u: Pos, v: Pos, k: nat)
    requires Based(srcs, d) && Supported(G, srcs, d)
    requires v in d && d[v] == Inf
    requires u in d && d[u].Fin? && d[u].n < k && Step(G, u, v)
    ensures Based(srcs, d[v := Fin(k)]) && Supported(G, srcs, d[v := Fin(k)])
  {
    var d' := d[v := Fin(k)];
    forall p | p in d' && d'[p].Fin?
      ensures Backed(G, srcs, d', p)
    {
      if p == v {
        assert u in d' && d'[u].Fin? && d'[u].n < d'[p].n && Step(G, u, p);
      } else {
        assert Backed(G, srcs, d, p);
        if p !in srcs {
          var w :| w in d && d[w].Fin? && d[w].n < d[p].n && Step(G, w, p);
          assert w in d' && d'[w] == d[w];
        }
      }
    }
  }

  /** Labels that only go from `Inf` to finite keep every closed cell closed. */
  lemma ClosedKept(G: Graph, d: map<Pos, Ext>, d': map<Pos, Ext>, w: Pos)
    requires forall p :: p in d && d[p].Fin? ==> p in d' && d'[p] == d[p]
    requires ClosedAt(G, d, w)
    ensures ClosedAt(G, d', w)
  {
  }

  lemma RelabelCount(d: map<Pos, Ext>, v: Pos, k: nat)
    requires v in d && d[v] == Inf
    ensures |Unlabelled(d[v := Fin(k)])| + 1 == |Unlabelled(d)|
  {
    assert Unlabelled(d[v := Fin(k)]) == Unlabelled(d) - {v};
  }

  /** The queue before the search: every seen cell labelled 0 and queued in grid order, every other cell `Inf`. */
  method InitialLayer(g: Grid) returns (d: map<Pos, Ext>, q: seq<Item>)
    ensures forall p :: p in d <==> InBounds(g, p)
    ensures forall p :: p in d ==> d[p] == if At(g, p).seenBySeeker then Fin(0) else Inf
    ensures forall j :: 0 <= j < |q| ==> q[j].Cell? && q[j].p in d && d[q[j].p] == Fin(0)
    ensures forall p :: p in d && d[p].Fin? ==> Cell(p) in q
  {
    var all := AllPositions(g);
    d, q := map[], [];
    for i := 0 to |all|
      invariant forall p :: p in d <==> p in all[..i]
      invariant forall p :: p in d ==> InBounds(g, p) && d[p] == if At(g, p).seenBySeeker then Fin(0) else Inf
      invariant forall c :: c in q ==> c.Cell? && c.p in d && d[c.p] == Fin(0)
      invariant forall p :: p in d && d[p].Fin? ==> Cell(p) in q
    {
      var p := all[i];
      assert all[..i + 1] == all[..i] + [p];
      if At(g, p).seenBySeeker {
        d := d[p := Fin(0)];
        q := q + [Cell(p)];
      } else {
        d := d[p := Inf];
      }
    }
    assert all[..|all|] == all;
  }

  /** What exploring some of the moves out of a cell has done to the labels `d` it started from. */
  ghost predicate Progress(g: Grid, wallOk: bool, srcs: set<Pos>, d: map<Pos, Ext>, d': map<Pos, Ext>, added: seq<Pos>, dist: nat)
  {
    && Labelled(g, d') && Based(srcs, d') && Supported(Traversal(g, wallOk), srcs, d') && Bounded(d', dist)
    && (forall p :: p in d && d[p].Fin? ==> p in d' && d'[p] == d[p])
    && (forall j :: 0 <= j < |added| ==> added[j] in d' && d'[added[j]] == Fin(dist))
    && (forall p :: p in d' && d'[p].Fin? && !(p in d && d[p].Fin?) ==> p in added)
    && |Unlabelled(d')| + |added| == |Unlabelled(d)|
  }

  /** One neighbour n of u: labelled with the current layer and queued if it is still at `Inf`. */
  method Consider(g: Grid, wallOk: bool, ghost srcs: set<Pos>, ghost d: map<Pos, Ext>, d': map<Pos, Ext>, added: seq<Pos>,
                  u: Pos, n: Pos, dist: nat)
    returns (d'': map<Pos, Ext>, added': seq<Pos>)
    requires Progress(g, wallOk, srcs, d, d', added, dist)
    requires u in d && dist >= 1 && d[u] == Fin(dist - 1) && Step(Traversal(g, wallOk), u, n)
    ensures Progress(g, wallOk, srcs, d, d'', added', dist)
    ensures n in d'' && d''[n].Fin? && d''[n].n <= dist
    ensures forall p :: p in d' && d'[p].Fin? ==> p in d'' && d''[p] == d'[p]
  {
    assert n in d';
    d'', added' := d', added;
    if d'[n] == Inf {
      RelabelSupported(Traversal(g, wallOk), srcs, d', u, n, dist);
      RelabelCount(d', n, dist);
      d'' := d'[n := Fin(dist)];
      added' := added + [n];
    }
  }

  /** Considers the given moves out of u in order. */
  method VisitAll(g: Grid, wallOk: bool, ghost srcs: set<Pos>, d: map<Pos, Ext>, u: Pos, nbrs: seq<Pos>, dist: nat)
    returns (d': map<Pos, Ext>, added: seq<Pos>)
    requires Labelled(g, d) && Based(srcs, d) && Supported(Traversal(g, wallOk), srcs, d) && Bounded(d, dist)
    requires u in d && dist >= 1 && d[u] == Fin(dist - 1)
    requires forall j :: 0 <= j < |nbrs| ==> Step(Traversal(g, wallOk), u, nbrs[j])
    ensures Progress(g, wallOk, srcs, d, d', added, dist)
    ensures forall j :: 0 <= j < |nbrs| ==> nbrs[j] in d' && d'[nbrs[j]].Fin? && d'[nbrs[j]].n <= dist
  {
    d', added := d, [];
    for i := 0 to |nbrs|
      invariant Progress(g, wallOk, srcs, d, d', added, dist)
      invariant forall j :: 0 <= j < i ==> nbrs[j] in d' && d'[nbrs[j]].Fin? && d'[nbrs[j]].n <= dist
    {
      ghost var d0 := d';
      d', added := Consider(g, wallOk, srcs, d, d', added, u, nbrs[i], dist);
      LabelsKept(d0, d', nbrs, i, dist);
    }
  }

  /** Labels that stay put keep the first i neighbours labelled; the next one has just been labelled. */
  lemma LabelsKept(d: map<Pos, Ext>, d': map<Pos, Ext>, nbrs: seq<Pos>, i: nat, dist: nat)
    requires i < |nbrs|
    requires forall j :: 0 <= j < i ==> nbrs[j] in d && d[nbrs[j]].Fin? && d[nbrs[j]].n <= dist
    requires forall p :: p in d && d[p].Fin? ==> p in d' && d'[p] == d[p]
    requires nbrs[i] in d' && d'[nbrs[i]].Fin? && d'[nbrs[i]].n <= dist
    ensures forall j :: 0 <= j <= i ==> nbrs[j] in d' && d'[nbrs[j]].Fin? && d'[nbrs[j]].n <= dist
  {
    forall j | 0 <= j <= i
      ensures nbrs[j] in d' && d'[nbrs[j]].Fin? && d'[nbrs[j]].n <= dist
    {
      if j < i {
        assert nbrs[j] in d && d[nbrs[j]].Fin?;
      }
    }
  }

  /**
   Explores the moves out of u, a cell of the previous layer: every
   neighbour still at `Inf` is labelled with the current layer, and the
   cells so labelled are returned in the order they are met, to be queued.
   */
  method Visit(g: Grid, wallOk: bool, ghost srcs: set<Pos>, d: map<Pos, Ext>, u: Pos, dist: nat)
    returns (d': map<Pos, Ext>, added: seq<Pos>)
    requires Labelled(g, d) && Based(srcs, d) && Supported(Traversal(g, wallOk), srcs, d) && Bounded(d, dist)
    requires u in d && dist >= 1 && d[u] == Fin(dist - 1)
    ensures Progress(g, wallOk, srcs, d, d', added, dist)
    ensures ClosedAt(Traversal(g, wallOk), d', u)
  {
    var nbrs := Neighbors(g, u, wallOk);
    NeighborSteps(g, wallOk, u);
    d', added := VisitAll(g, wallOk, srcs, d, u, nbrs, dist);
    AllNeighborsLabelled(g, wallOk, d', u, nbrs, dist);
  }

  /** Once every neighbour of u carries a label at most one more than u's, u is closed. */
  lemma AllNeighborsLabelled(g: Grid, wallOk: bool, d: map<Pos, Ext>, u: Pos, nbrs: seq<Pos>, dist: nat)
    requires nbrs == Neighbors(g, u, wallOk)
    requires u in d && dist >= 1 && d[u] == Fin(dist - 1)
    requires forall j :: 0 <= j < |nbrs| ==> nbrs[j] in d && d[nbrs[j]].Fin? && d[nbrs[j]].n <= dist
    ensures ClosedAt(Traversal(g, wallOk), d, u)
  {
    NeighborSteps(g, wallOk, u);
    forall v | Step(Traversal(g, wallOk), u, v)
      ensures v in d && d[v].Fin? && d[v].n <= d[u].n + 1
    {
      var j :| 0 <= j < |nbrs| && nbrs[j] == v;
    }
  }

  /** A cell at the front of the queue belongs to the previous layer. */
  lemma FrontOfLayer(d: map<Pos, Ext>, q: seq<Item>, m: nat, dist: nat)
    requires Layered(d, q, m, dist) && q != [] && q[0].Cell?
    ensures m >= 1 && dist >= 1 && q[0].p in d && d[q[0].p] == Fin(dist - 1)
  {
  }

  /** Taking the marker off the front starts the next layer. */
  lemma MarkerStep(G: Graph, d: map<Pos, Ext>, q: seq<Item>, m: nat, dist: nat)
    requires Layered(d, q, m, dist) && Explored(G, d, q) && Bounded(d, dist)
    requires q != [] && q[0].Marker?
    ensures m == 0 && Bounded(d, dist + 1)
    ensures Explored(G, d, q[1..]) && Explored(G, d, q[1..] + [Marker])
    ensures |q| > 1 ==> Layered(d, q[1..] + [Marker], |q| - 1, dist + 1)
  {
    assert q == [Marker] + q[1..];
    var q' := q[1..] + [Marker];
    forall u | u in d && d[u].Fin? && Cell(u) !in q'
      ensures ClosedAt(G, d, u)
    {
      assert Cell(u) !in q;
    }
  }

  /**
   Taking a cell off the front and queueing what its exploration labelled
   keeps the search's state, and either labels a cell or brings the next
   layer closer.
   */
  lemma CellStep(g: Grid, wallOk: bool, srcs: set<Pos>, d: map<Pos, Ext>, d': map<Pos, Ext>, added: seq<Pos>,
                 q: seq<Item>, m: nat, dist: nat)
    requires BfsState(g, wallOk, srcs, d, q, m, dist) && q != [] && q[0].Cell?
    requires Progress(g, wallOk, srcs, d, d', added, dist) && ClosedAt(Traversal(g, wallOk), d', q[0].p)
    ensures m >= 1 && BfsState(g, wallOk, srcs, d', q[1..] + CellItems(added), m - 1, dist)
    ensures |Unlabelled(d')| < |Unlabelled(d)| ||
      (|Unlabelled(d')| == |Unlabelled(d)| && QueueRank(q[1..] + CellItems(added), m - 1) < QueueRank(q, m))
  {
    CellStepLayered(g, wallOk, srcs, d, d', added, q, m, dist);
    CellStepExplored(g, wallOk, srcs, d, d', added, q, m, dist);
  }

  lemma CellStepLayered(g: Grid, wallOk: bool, srcs: set<Pos>, d: map<Pos, Ext>, d': map<Pos, Ext>, added: seq<Pos>,
                        q: seq<Item>, m: nat, dist: nat)
    requires Layered(d, q, m, dist)
    requires q != [] && q[0].Cell?
    requires Progress(g, wallOk, srcs, d, d', added, dist)
    ensures m >= 1 && q[1..] + CellItems(added) != []
    ensures Layered(d', q[1..] + CellItems(added), m - 1, dist)
  {
    var q' := q[1..] + CellItems(added);
    forall i | 0 <= i < |q'| && i != m - 1
      ensures q'[i].Cell? && q'[i].p in d' && d'[q'[i].p] == Fin(if i < m - 1 then dist - 1 else dist)
    {
      if i < |q| - 1 {
        assert q'[i] == q[i + 1];
      } else {
        assert q'[i] == Cell(added[i - (|q| - 1)]);
      }
    }
  }

  lemma CellStepExplored(g: Grid, wallOk: bool, srcs: set<Pos>, d: map<Pos, Ext>, d': map<Pos, Ext>, added: seq<Pos>,
                         q: seq<Item>, m: nat, dist: nat)
    requires Explored(Traversal(g, wallOk), d, q)
    requires q != [] && q[0].Cell?
    requires Progress(g, wallOk, srcs, d, d', added, dist) && ClosedAt(Traversal(g, wallOk), d', q[0].p)
    ensures Explored(Traversal(g, wallOk), d', q[1..] + CellItems(added))
  {
    var G := Traversal(g, wallOk);
    var q' := q[1..] + CellItems(added);
    QueueTurn(q, added);
    forall u | u in d' && d'[u].Fin? && Cell(u) !in q' && u != q[0].p
      ensures ClosedAt(G, d', u)
    {
      ClosedKept(G, d, d', u);
    }
  }

  /** After a turn the queue holds everything it held but its front, and every cell just queued. */
  lemma QueueTurn(q: seq<Item>, added: seq<Pos>)
    requires q != []
    ensures forall x :: x in q ==> x == q[0] || x in q[1..] + CellItems(added)
    ensures forall j :: 0 <= j < |added| ==> Cell(added[j]) in q[1..] + CellItems(added)
  {
    var q' := q[1..] + CellItems(added);
    assert q == [q[0]] + q[1..];
    forall j | 0 <= j < |added|
      ensures Cell(added[j]) in q'
    {
      assert q'[|q| - 1 + j] == Cell(added[j]);
    }
  }

  /** Queue entries for the given cells, in order. */
  function CellItems(ps: seq<Pos>): (r: seq<Item>)
    ensures |r| == |ps| && forall j :: 0 <= j < |ps| ==> r[j] == Cell(ps[j])
  {
    seq(|ps|, j requires 0 <= j < |ps| => Cell(ps[j]))
  }

  /** The state the layered search keeps between turns of its loop. */
  ghost predicate BfsState(g: Grid, wallOk: bool, srcs: set<Pos>, d: map<Pos, Ext>, q: seq<Item>, m: nat, dist: nat)
  {
    && Labelled(g, d) && Based(srcs, d) && Supported(Traversal(g, wallOk), srcs, d) && Bounded(d, dist)
    && Layered(d, q, m, dist) && dist >= 1
    && Explored(Traversal(g, wallOk), d, q)
  }

  /** How far the queue is from its next layer: every turn that labels nothing lowers it. */
  ghost function QueueRank(q: seq<Item>, m: nat): int
  {
    |q| + (if q == [] then 0 else |q| - 1 - m)
  }

  /**
   The search's start: the seen cells at 0 queued in grid order, then the
   marker closing layer 0.
   */
  method StartSearch(g: Grid, wallOk: bool) returns (d: map<Pos, Ext>, q: seq<Item>, dist: nat, ghost m: nat)
    ensures BfsState(g, wallOk, SeenCells(g), d, q, m, dist)
    ensures dist == 1 && q != [] && q[|q| - 1] == Marker
    ensures forall p :: p in d ==> d[p] == if At(g, p).seenBySeeker then Fin(0) else Inf
  {
    var cells;
    d, cells := InitialLayer(g);
    dist, m := 1, |cells|;
    q := cells + [Marker];
    forall u | u in d && d[u].Fin?
      ensures Cell(u) in q
    {
      assert Cell(u) in cells;
    }
  }

  /** A turn that takes the marker off the front: the next layer begins. */
  method MarkerTurn(ghost g: Grid, ghost wallOk: bool, ghost srcs: set<Pos>, ghost d: map<Pos, Ext>,
                    q: seq<Item>, ghost m: nat, dist: nat)
    returns (q': seq<Item>, dist': nat, ghost m': nat)
    requires BfsState(g, wallOk, srcs, d, q, m, dist) && q != [] && q[0].Marker?
    ensures BfsState(g, wallOk, srcs, d, q', m', dist')
    ensures QueueRank(q', m') < QueueRank(q, m)
    ensures dist' == dist + 1
    ensures q' == if |q| == 1 then [] else q[1..] + [Marker]
  {
    MarkerStep(Traversal(g, wallOk), d, q, m, dist);
    q', dist', m' := q[1..], dist + 1, 0;
    if q' != [] {
      m' := |q'|;
      q' := q' + [Marker];
    }
  }

  /** A turn that takes a cell off the front, explores its moves and queues what they labelled. */
  method CellTurn(g: Grid, wallOk: bool, ghost srcs: set<Pos>, d: map<Pos, Ext>, q: seq<Item>, ghost m: nat, dist: nat)
    returns (d': map<Pos, Ext>, q': seq<Item>, ghost m': nat)
    requires BfsState(g, wallOk, srcs, d, q, m, dist) && q != [] && q[0].Cell?
    ensures BfsState(g, wallOk, srcs, d', q', m', dist)
    ensures |Unlabelled(d')| < |Unlabelled(d)| ||
      (|Unlabelled(d')| == |Unlabelled(d)| && QueueRank(q', m') < QueueRank(q, m))
    ensures forall p :: p in d && d[p].Fin? ==> p in d' && d'[p] == d[p]
    ensures |q'| >= |q| - 1 && q'[..|q| - 1] == q[1..]
    ensures forall i :: |q| - 1 <= i < |q'| ==> q'[i].Cell? && q'[i].p in d' && d'[q'[i].p] == Fin(dist)
  {
    FrontOfLayer(d, q, m, dist);
    var added;
    d', added := Visit(g, wallOk, srcs, d, q[0].p, dist);
    CellStep(g, wallOk, srcs, d, d', added, q, m, dist);
    q', m' := q[1..] + CellItems(added), m - 1;
  }

  /**
   The layered multi-source search (`calculate_shadow_depths` with `wallOk`
   false, `calculate_wall_distances` with it true): every seen cell starts
   at 0 in the queue, a marker closes each layer, and each cell still at
   `Inf` is labelled with the layer in which a neighbour reaches it. Every
   cell ends labelled with its hop distance from the seen cells, or `Inf`
   when none reaches it.
   */
  method LayeredBfs(g: Grid, wallOk: bool) returns (d: map<Pos, Ext>)
    ensures forall p :: p in d <==> InBounds(g, p)
    ensures forall p :: p in d ==> IsDistance(Traversal(g, wallOk), SeenCells(g), p, d[p])
  {
    ghost var srcs := SeenCells(g);
    var q, dist;
    ghost var m;
    d, q, dist, m := StartSearch(g, wallOk);
    while q != []
      invariant BfsState(g, wallOk, srcs, d, q, m, dist)
      decreases |Unlabelled(d)|, QueueRank(q, m)
    {
      if q[0].Marker? {
        q, dist, m := MarkerTurn(g, wallOk, srcs, d, q, m, dist);
      } else {
        d, q, m := CellTurn(g, wallOk, srcs, d, q, m, dist);
      }
    }
    LabelsAreDistances(Traversal(g, wallOk), srcs, d);
  }

  /** `calculate_shadow_depths`: hop distance from the seen cells through non-wall cells. */
  method ShadowDepths(g: Grid) returns (d: map<Pos, Ext>)
    ensures forall p :: p in d <==> InBounds(g, p)
    ensures forall p :: p in d ==> IsDistance(Traversal(g, false), SeenCells(g), p, d[p])
    ensures forall p :: p in d && At(g, p).seenBySeeker ==> d[p] == Fin(0)
    ensures forall p :: p in d && At(g, p).isWall && !At(g, p).seenBySeeker ==> d[p] == Inf
  {
    d := LayeredBfs(g, false);
    forall p | p in d && At(g, p).isWall && !At(g, p).seenBySeeker
      ensures d[p] == Inf
    {
      UnseenWallUnreached(g, p);
      DistanceUnique(Traversal(g, false), SeenCells(g), p, d[p], Inf);
    }
    forall p | p in d && At(g, p).seenBySeeker
      ensures d[p] == Fin(0)
    {
      SourceAtZero(Traversal(g, false), SeenCells(g), p);
      DistanceUnique(Traversal(g, false), SeenCells(g), p, d[p], Fin(0));
    }
  }

  /** `calculate_wall_distances`: the same sources, but walls may be crossed. */
  method WallDistances(g: Grid) returns (d: map<Pos, Ext>)
    ensures forall p :: p in d <==> InBounds(g, p)
    ensures forall p :: p in d ==> IsDistance(Traversal(g, true), SeenCells(g), p, d[p])
    ensures forall p :: p in d && At(g, p).seenBySeeker ==> d[p] == Fin(0)
  {
    d := LayeredBfs(g, true);
    forall p | p in d && At(g, p).seenBySeeker
      ensures d[p] == Fin(0)
    {
      SourceAtZero(Traversal(g, true), SeenCells(g), p);
      DistanceUnique(Traversal(g, true), SeenCells(g), p, d[p], Fin(0));
    }
  }

  /**
   An unseen wall is never reached when walls may not be entered: a walk
   from a seen cell would have to step onto it.
   */
  lemma UnseenWallUnreached(g: Grid, p: Pos)
    requires InBounds(g, p) && At(g, p).isWall && !At(g, p).seenBySeeker
    ensures IsDistance(Traversal(g, false), SeenCells(g), p, Inf)
  {
    var G := Traversal(g, false);
    forall k: nat
      ensures !ReachesIn(G, SeenCells(g), p, k)
    {
      forall w | IsWalk(G, w) && |w| == k + 1 && w[0] in SeenCells(g)
        ensures w[k] != p
      {
        if k > 0 {
          assert Step(G, w[k - 1], w[k]);
        }
      }
    }
  }

  /** Letting walls be crossed never lengthens the way from the seen cells: `wall_distances[n] <= shadow_depths[n]`. */
  lemma WallDistanceAtMostShadowDepth(g: Grid, p: Pos, shadow: Ext, wall: Ext)
    requires IsDistance(Traversal(g, false), SeenCells(g), p, shadow)
    requires IsDistance(Traversal(g, true), SeenCells(g), p, wall)
    ensures Le(wall, shadow)
  {
    forall u, v | Step(Traversal(g, false), u, v)
      ensures Step(Traversal(g, true), u, v)
    {
    }
    WiderGraphNoFarther(Traversal(g, false), Traversal(g, true), SeenCells(g), p, shadow, wall);
  }

  /**
   `get_max_shadow_depth` over the labels listed in `ps`: the largest
   finite label, or 0 when there is none.
   */
  method MaxShadowDepth(d: map<Pos, Ext>, ps: seq<Pos>) returns (r: nat)
    requires forall i :: 0 <= i < |ps| ==> ps[i] in d
    ensures forall i :: 0 <= i < |ps| && d[ps[i]].Fin? ==> d[ps[i]].n <= r
    ensures r == 0 || exists i :: 0 <= i < |ps| && d[ps[i]] == Fin(r)
  {
    r := 0;
    for i := 0 to |ps|
      invariant forall j :: 0 <= j < i && d[ps[j]].Fin? ==> d[ps[j]].n <= r
      invariant r == 0 || exists j :: 0 <= j < i && d[ps[j]] == Fin(r)
    {
      var depth := d[ps[i]];
      if depth.Fin? && depth.n > r {
        r := depth.n;
      }
    }
  }

  /** Non-decreasing by score. */
  predicate SortedBy(score: Pos -> real, s: seq<Pos>)
  {
    forall i, j :: 0 <= i < j < |s| ==> score(s[i]) <= score(s[j])
  }

  /** Inserts p before the first entry scored at least as high. */
  function Insert(score: Pos -> real, p: Pos, s: seq<Pos>): (r: seq<Pos>)
    ensures multiset(r) == multiset(s) + multiset{p}
  {
    if s == [] || score(p) <= score(s[0]) then [p] + s
    else
      assert s == [s[0]] + s[1..];
      [s[0]] + Insert(score, p, s[1..])
  }

  /** A sorted list stays sorted under a new head scored no higher than any entry. */
  lemma SortedCons(score: Pos -> real, x: Pos, s: seq<Pos>)
    requires SortedBy(score, s) && forall j :: 0 <= j < |s| ==> score(x) <= score(s[j])
    ensures SortedBy(score, [x] + s)
  {
    var r := [x] + s;
    forall i, j | 0 <= i < j < |r|
      ensures score(r[i]) <= score(r[j])
    {
      assert r[j] == s[j - 1];
      if i > 0 {
        assert r[i] == s[i - 1];
      }
    }
  }

  /** A lower bound of p and of every entry bounds every entry after insertion. */
  lemma {:induction false} InsertBound(score: Pos -> real, p: Pos, s: seq<Pos>, b: real)
    requires b <= score(p) && forall j :: 0 <= j < |s| ==> b <= score(s[j])
    ensures forall j :: 0 <= j < |Insert(score, p, s)| ==> b <= score(Insert(score, p, s)[j])
  {
    if s != [] && score(s[0]) < score(p) {
      InsertBound(score, p, s[1..], b);
      var rest := Insert(score, p, s[1..]);
      assert Insert(score, p, s) == [s[0]] + rest;
      forall j | 0 <= j < |rest| + 1
        ensures b <= score(([s[0]] + rest)[j])
      {
        if j > 0 {
          assert ([s[0]] + rest)[j] == rest[j - 1];
        }
      }
    }
  }

  /** Insertion keeps a sorted list sorted. */
  lemma {:induction false} InsertSorted(score: Pos -> real, p: Pos, s: seq<Pos>)
    requires SortedBy(score, s)
    ensures SortedBy(score, Insert(score, p, s))
  {
    if s == [] || score(p) <= score(s[0]) {
      SortedCons(score, p, s);
    } else {
      var rest := Insert(score, p, s[1..]);
      assert SortedBy(score, s[1..]) by {
        forall i, j | 0 <= i < j < |s[1..]|
          ensures score(s[1..][i]) <= score(s[1..][j])
        {
          assert s[1..][i] == s[i + 1] && s[1..][j] == s[j + 1];
        }
      }
      InsertSorted(score, p, s[1..]);
      assert forall j :: 0 <= j < |s[1..]| ==> score(s[0]) <= score(s[1..][j]) by {
        forall j | 0 <= j < |s[1..]|
          ensures score(s[0]) <= score(s[1..][j])
        {
          assert s[1..][j] == s[j + 1];
        }
      }
      InsertBound(score, p, s[1..], score(s[0]));
      SortedCons(score, s[0], rest);
    }
  }

  lemma SameMembers(a: seq<Pos>, b: seq<Pos>)
    requires multiset(a) == multiset(b)
    ensures forall p :: p in a <==> p in b
  {
    forall p
      ensures p in a <==> p in b
    {
      assert p in multiset(a) <==> p in multiset(b);
    }
  }

  /** The entries of score v, in their order in s. */
  function WithScore(score: Pos -> real, v: real, s: seq<Pos>): (r: seq<Pos>)
    ensures forall p :: p in r <==> p in s && score(p) == v
  {
    if s == [] then [] else (if score(s[0]) == v then [s[0]] else []) + WithScore(score, v, s[1..])
  }

  /** Insertion puts p ahead of every entry of its own score and moves no other entry past one of equal score. */
  lemma {:induction false} InsertStable(score: Pos -> real, p: Pos, s: seq<Pos>)
    ensures forall v :: WithScore(score, v, Insert(score, p, s)) == (if score(p) == v then [p] else []) + WithScore(score, v, s)
  {
    if s == [] || score(p) <= score(s[0]) {
      var r := [p] + s;
      assert r[0] == p && r[1..] == s;
    } else {
      InsertStable(score, p, s[1..]);
      var rest := Insert(score, p, s[1..]);
      var r := [s[0]] + rest;
      assert r[0] == s[0] && r[1..] == rest;
    }
  }

  /**
   Sorts by score; entries of equal score keep their order, as Python's
   `sorted` does: for every score, the entries of that score appear in the
   same order before and after.
   */
  function SortByScore(score: Pos -> real, s: seq<Pos>): (r: seq<Pos>)
    ensures SortedBy(score, r)
    ensures multiset(r) == multiset(s)
    ensures forall v :: WithScore(score, v, r) == WithScore(score, v, s)
  {
    if s == [] then []
    else
      var rest := SortByScore(score, s[1..]);
      InsertSorted(score, s[0], rest);
      InsertStable(score, s[0], rest);
      HeadTail(s);
      Insert(score, s[0], rest)
  }

  /** The first entry of lowest score: the reference for the head of a stable sort. */
  function FirstLowest(score: Pos -> real, s: seq<Pos>): (x: Pos)
    requires s != []
    ensures x in s
    ensures forall j :: 0 <= j < |s| ==> score(x) <= score(s[j])
  {
    if |s| == 1 then s[0]
    else
      var y := FirstLowest(score, s[1..]);
      if score(s[0]) <= score(y) then s[0] else y
  }

  /** The head of the sorted list is the first entry of lowest score. */
  lemma {:induction false} SortHeadIsFirstLowest(score: Pos -> real, s: seq<Pos>)
    requires s != []
    ensures |SortByScore(score, s)| == |s|
    ensures SortByScore(score, s)[0] == FirstLowest(score, s)
  {
    var r := SortByScore(score, s);
    assert |r| == |multiset(r)| == |multiset(s)| == |s|;
    if |s| > 1 {
      SortHeadIsFirstLowest(score, s[1..]);
    }
  }

  /** The non-wall entries of s, in order. */
  function NonWalls(g: Grid, s: seq<Pos>): (r: seq<Pos>)
    ensures forall p :: p in r <==> p in s && !WallAt(g, p)
  {
    if s == [] then [] else (if WallAt(g, s[0]) then [] else [s[0]]) + NonWalls(g, s[1..])
  }

  lemma {:induction false} NonWallsAppend(g: Grid, s: seq<Pos>, x: Pos)
    ensures NonWalls(g, s + [x]) == NonWalls(g, s) + (if WallAt(g, x) then [] else [x])
  {
    if s != [] {
      assert (s + [x])[1..] == s[1..] + [x];
      NonWallsAppend(g, s[1..], x);
    }
  }

  lemma FirstLowestCons(score: Pos -> real, x: Pos, t: seq<Pos>)
    ensures FirstLowest(score, [x] + t) ==
      if t == [] then x else if score(x) <= score(FirstLowest(score, t)) then x else FirstLowest(score, t)
  {
    assert ([x] + t)[1..] == t;
  }

  /** Skipping the head of s keeps what the rest says of the entries before an index. */
  lemma BeforeShift(g: Grid, score: Pos -> real, s: seq<Pos>, k: nat)
    requires 0 < |s| && k < |s| - 1
    requires forall j :: 0 <= j < k && !WallAt(g, s[1..][j]) ==> score(s[1..][k]) < score(s[1..][j])
    requires !WallAt(g, s[0]) ==> score(s[k + 1]) < score(s[0])
    ensures forall j :: 0 <= j < k + 1 && !WallAt(g, s[j]) ==> score(s[k + 1]) < score(s[j])
  {
    forall j | 0 < j < k + 1 && !WallAt(g, s[j])
      ensures score(s[k + 1]) < score(s[j])
    {
      assert s[j] == s[1..][j - 1];
    }
  }

  /**
   The first lowest-scored non-wall entry of s sits at an index before
   which every non-wall entry scores strictly more.
   */
  lemma {:induction false} FirstLowestComesFirst(g: Grid, score: Pos -> real, s: seq<Pos>) returns (i: nat)
    requires NonWalls(g, s) != []
    ensures i < |s| && s[i] == FirstLowest(score, NonWalls(g, s))
    ensures forall j :: 0 <= j < i && !WallAt(g, s[j]) ==> score(s[i]) < score(s[j])
  {
    var t := NonWalls(g, s[1..]);
    if WallAt(g, s[0]) {
      assert NonWalls(g, s) == t;
      var k := FirstLowestComesFirst(g, score, s[1..]);
      BeforeShift(g, score, s, k);
      i := k + 1;
    } else {
      assert NonWalls(g, s) == [s[0]] + t;
      FirstLowestCons(score, s[0], t);
      if t == [] || score(s[0]) <= score(FirstLowest(score, t)) {
        i := 0;
      } else {
        var k := FirstLowestComesFirst(g, score, s[1..]);
        BeforeShift(g, score, s, k);
        i := k + 1;
      }
    }
  }

  lemma HeadTail(s: seq<Pos>)
    requires s != []
    ensures multiset(s) == multiset{s[0]} + multiset(s[1..])
  {
    assert s == [s[0]] + s[1..];
  }

  /** The candidates of `think`: the non-wall cells, in grid order. */
  method Candidates(g: Grid) returns (cands: seq<Pos>)
    ensures forall p :: p in cands <==> InBounds(g, p) && !At(g, p).isWall
    ensures cands == NonWalls(g, AllPositions(g))
  {
    var all := AllPositions(g);
    cands := [];
    for i := 0 to |all|
      invariant cands == NonWalls(g, all[..i])
    {
      assert all[..i + 1] == all[..i] + [all[i]];
      NonWallsAppend(g, all[..i], all[i]);
      if !At(g, all[i]).isWall {
        cands := cands + [all[i]];
      }
    }
    assert all[..|all|] == all;
  }

  /** The head of the sorted candidates is a lowest-scored non-wall cell. */
  lemma SortedHeadLowest(g: Grid, score: Pos -> real)
    requires NonWalls(g, AllPositions(g)) != []
    ensures |SortByScore(score, NonWalls(g, AllPositions(g)))| > 0
    ensures SortByScore(score, NonWalls(g, AllPositions(g)))[0] in NonWalls(g, AllPositions(g))
    ensures forall q :: InBounds(g, q) && !At(g, q).isWall ==>
      score(SortByScore(score, NonWalls(g, AllPositions(g)))[0]) <= score(q)
  {
    var cands := NonWalls(g, AllPositions(g));
    SortHeadIsFirstLowest(score, cands);
    var c := FirstLowest(score, cands);
    forall q | InBounds(g, q) && !At(g, q).isWall
      ensures score(c) <= score(q)
    {
      assert q in AllPositions(g);
      var k :| 0 <= k < |cands| && cands[k] == q;
    }
  }

  /** Every non-wall cell before the head of the sorted candidates, in grid order, scores strictly more. */
  lemma SortedHeadFirst(g: Grid, score: Pos -> real)
    requires NonWalls(g, AllPositions(g)) != []
    ensures |SortByScore(score, NonWalls(g, AllPositions(g)))| > 0
    ensures forall i, j :: (0 <= j < i < |AllPositions(g)| && AllPositions(g)[i] == SortByScore(score, NonWalls(g, AllPositions(g)))[0] &&
        !WallAt(g, AllPositions(g)[j])) ==>
      score(AllPositions(g)[i]) < score(AllPositions(g)[j])
  {
    var all := AllPositions(g);
    SortHeadIsFirstLowest(score, NonWalls(g, all));
    var k := FirstLowestComesFirst(g, score, all);
    AllPositionsDistinct(g);
    forall i, j | 0 <= j < i < |all| && all[i] == all[k] && !WallAt(g, all[j])
      ensures score(all[i]) < score(all[j])
    {
      assert i == k;
    }
  }

  /**
   The choice in `think`: the candidates sorted by score, and the first
   one `set_target` accepts becomes the target. Every candidate is an
   in-bounds non-wall cell, so the first is accepted: the target is the
   first lowest-scored non-wall cell in grid order (the sort is stable),
   pursued as `set_target` leaves it, and nothing changes on a grid of
   walls.
   */
  method ChooseTarget(g: Grid, a: Agent, here: Pos, score: Pos -> real) returns (r: Agent, chosen: Option<Pos>)
    ensures chosen == None <==> forall p :: InBounds(g, p) ==> At(g, p).isWall
    ensures chosen == None ==> r == a
    ensures chosen.Some? ==> InBounds(g, chosen.value) && !At(g, chosen.value).isWall && r.target == chosen
    ensures chosen.Some? ==> forall c :: InBounds(g, c) && !At(g, c).isWall ==> score(chosen.value) <= score(c)
    ensures chosen.Some? ==> forall i, j ::
      (0 <= j < i < |AllPositions(g)| && AllPositions(g)[i] == chosen.value && !WallAt(g, AllPositions(g)[j])) ==>
      score(chosen.value) < score(AllPositions(g)[j])
    ensures chosen.Some? ==> Pursues(g, here, r, chosen.value)
  {
    var cands := Candidates(g);
    var order := SortByScore(score, cands);
    SameMembers(order, cands);
    r, chosen := a, None;
    var i := 0;
    while i < |order| && chosen == None
      invariant 0 <= i <= |order|
      invariant chosen == None ==> r == a && i == 0
      invariant chosen.Some? ==> |order| > 0 && chosen == Some(order[0]) && r.target == chosen
      invariant chosen.Some? ==> Pursues(g, here, r, chosen.value)
    {
      assert order[i] in cands;
      var next, accepted := SetTarget(g, r, here, order[i].x, order[i].y);
      if accepted {
        r, chosen := next, Some(order[i]);
      }
      i := i + 1;
    }
    if chosen.Some? {
      SortedHeadLowest(g, score);
      SortedHeadFirst(g, score);
    } else if |order| > 0 {
      assert false;
    }
  }
}
