/**
 Walks over the neighbour relation, and the hop distance they define. Every
 distance map the hiders compute is characterised here by one notion:
 the length of a shortest walk from a source cell.
 */
module Paths {
  import opened GridNode
  import opened GridModel
  import opened Extended

  /** A traversal: the grid, whether wall cells may be entered, and the cells it may enter at all. */
  datatype Graph = Graph(g: Grid, wallOk: bool, allowed: set<Pos>)

  /** One move of a traversal: to a neighbour of u that the traversal admits. */
  predicate Step(G: Graph, u: Pos, v: Pos)
  {
    IsNeighbor(G.g, u, v, G.wallOk) && v in G.allowed
  }

  /** Moves between neighbouring cells of the grid, entering walls only when `wallOk`. */
  function Traversal(g: Grid, wallOk: bool): Graph
  {
    Graph(g, wallOk, Cells(g))
  }

  /** The moves out of a cell are exactly its neighbours. */
  lemma NeighborSteps(g: Grid, wallOk: bool, u: Pos)
    ensures forall v :: v in Neighbors(g, u, wallOk) <==> Step(Traversal(g, wallOk), u, v)
  {
  }

  ghost predicate IsWalk(G: Graph, w: seq<Pos>)
  {
    |w| >= 1 && forall i :: 0 <= i < |w| - 1 ==> Step(G, w[i], w[i + 1])
  }

  /** p can be reached from one of `srcs` in exactly k moves. */
  ghost predicate ReachesIn(G: Graph, srcs: set<Pos>, p: Pos, k: nat)
  {
    exists w :: IsWalk(G, w) && |w| == k + 1 && w[0] in srcs && w[k] == p
  }

  ghost predicate Reachable(G: Graph, srcs: set<Pos>, p: Pos)
  {
    exists k: nat :: ReachesIn(G, srcs, p, k)
  }

  /** e is the hop distance from `srcs` to p: the least k with a walk of k moves, or `Inf` when there is none. */
  ghost predicate IsDistance(G: Graph, srcs: set<Pos>, p: Pos, e: Ext)
  {
    match e
    case Fin(k) => ReachesIn(G, srcs, p, k) && forall j: nat :: j < k ==> !ReachesIn(G, srcs, p, j)
    case Inf => !Reachable(G, srcs, p)
    case NegInf => false
  }

  lemma ExtendWalk(G: Graph, w: seq<Pos>, v: Pos)
    requires IsWalk(G, w) && Step(G, w[|w| - 1], v)
    ensures IsWalk(G, w + [v])
  {
  }

  lemma PrefixWalk(G: Graph, w: seq<Pos>, n: nat)
    requires IsWalk(G, w) && 1 <= n <= |w|
    ensures IsWalk(G, w[..n])
  {
  }

  /** Every source labelled 0. */
  ghost predicate Based(srcs: set<Pos>, d: map<Pos, Ext>)
  {
    forall s :: s in srcs ==> s in d && d[s] == Fin(0)
  }

  /** p is a source, or one move from a cell with a smaller finite label. */
  ghost predicate Backed(G: Graph, srcs: set<Pos>, d: map<Pos, Ext>, p: Pos)
    requires p in d && d[p].Fin?
  {
    p in srcs || exists u :: u in d && d[u].Fin? && d[u].n < d[p].n && Step(G, u, p)
  }

  /**
   Every finite label is backed. The trigger keeps the solver from
   chasing the backing cell of the backing cell without end.
   */
  ghost predicate Supported(G: Graph, srcs: set<Pos>, d: map<Pos, Ext>)
  {
    forall p {:trigger Backed(G, srcs, d, p)} :: p in d && d[p].Fin? ==> Backed(G, srcs, d, p)
  }

  /** u is labelled, and every move out of u lands on a label at most one larger. */
  ghost predicate ClosedAt(G: Graph, d: map<Pos, Ext>, u: Pos)
  {
    u in d && d[u].Fin? &&
    forall v :: Step(G, u, v) ==> v in d && d[v].Fin? && d[v].n <= d[u].n + 1
  }

  ghost predicate Closed(G: Graph, d: map<Pos, Ext>)
  {
    forall u :: u in d && d[u].Fin? ==> ClosedAt(G, d, u)
  }

  /** Under a closed labelling, the end of every walk from a source is labelled at most its length. */
  lemma {:induction false} WalkBound(G: Graph, srcs: set<Pos>, d: map<Pos, Ext>, w: seq<Pos>)
    requires Based(srcs, d) && Closed(G, d)
    requires IsWalk(G, w) && w[0] in srcs
    ensures w[|w| - 1] in d && d[w[|w| - 1]].Fin? && d[w[|w| - 1]].n <= |w| - 1
    decreases |w|
  {
    if |w| > 1 {
      var w' := w[..|w| - 1];
      PrefixWalk(G, w, |w| - 1);
      WalkBound(G, srcs, d, w');
      assert ClosedAt(G, d, w'[|w'| - 1]);
      assert Step(G, w[|w| - 2], w[|w| - 1]);
    }
  }

  /** Under a supported labelling, a finite label is backed by a walk no longer than it. */
  lemma {:induction false} SupportWalk(G: Graph, srcs: set<Pos>, d: map<Pos, Ext>, p: Pos) returns (w: seq<Pos>)
    requires Supported(G, srcs, d)
    requires p in d && d[p].Fin?
    ensures IsWalk(G, w) && w[0] in srcs && w[|w| - 1] == p && |w| - 1 <= d[p].n
    decreases d[p].n
  {
    assert Backed(G, srcs, d, p);
    if p in srcs {
      w := [p];
    } else {
      var u :| u in d && d[u].Fin? && d[u].n < d[p].n && Step(G, u, p);
      var wu := SupportWalk(G, srcs, d, u);
      ExtendWalk(G, wu, p);
      w := wu + [p];
    }
  }

  /**
   A labelling that is based, supported and closed is the hop distance:
   every finite label is a shortest-walk length and every `Inf` label an
   unreachable cell.
   */
  lemma LabelsAreDistances(G: Graph, srcs: set<Pos>, d: map<Pos, Ext>)
    requires Based(srcs, d) && Supported(G, srcs, d) && Closed(G, d)
    ensures forall p :: p in d && d[p] != NegInf ==> IsDistance(G, srcs, p, d[p])
  {
    forall p | p in d && d[p] != NegInf
      ensures IsDistance(G, srcs, p, d[p])
    {
      if d[p].Fin? {
        var w := SupportWalk(G, srcs, d, p);
        WalkBound(G, srcs, d, w);
        assert ReachesIn(G, srcs, p, d[p].n);
        forall j: nat | j < d[p].n
          ensures !ReachesIn(G, srcs, p, j)
        {
          if ReachesIn(G, srcs, p, j) {
            var w' :| IsWalk(G, w') && |w'| == j + 1 && w'[0] in srcs && w'[j] == p;
            WalkBound(G, srcs, d, w');
          }
        }
      } else {
        if Reachable(G, srcs, p) {
          var k: nat :| ReachesIn(G, srcs, p, k);
          var w' :| IsWalk(G, w') && |w'| == k + 1 && w'[0] in srcs && w'[k] == p;
          WalkBound(G, srcs, d, w');
        }
      }
    }
  }

  /** A cell has one distance. */
  lemma DistanceUnique(G: Graph, srcs: set<Pos>, p: Pos, a: Ext, b: Ext)
    requires IsDistance(G, srcs, p, a) && IsDistance(G, srcs, p, b)
    ensures a == b
  {
    if a.Fin? {
      assert ReachesIn(G, srcs, p, a.n);
    }
    if b.Fin? {
      assert ReachesIn(G, srcs, p, b.n);
    }
  }

  /** A source is at distance 0. */
  lemma SourceAtZero(G: Graph, srcs: set<Pos>, p: Pos)
    requires p in srcs
    ensures IsDistance(G, srcs, p, Fin(0))
  {
    assert IsWalk(G, [p]);
  }

  /** Nothing is reachable from no source. */
  lemma NoSourcesNoReach(G: Graph, p: Pos)
    ensures IsDistance(G, {}, p, Inf)
  {
  }

  /** The distance from a union of sources is the smaller of the two distances. */
  lemma DistanceOfUnion(G: Graph, S: set<Pos>, s: Pos, p: Pos, a: Ext, b: Ext)
    requires IsDistance(G, S, p, a) && IsDistance(G, {s}, p, b)
    ensures IsDistance(G, S + {s}, p, Min(a, b))
  {
    forall k: nat
      ensures ReachesIn(G, S + {s}, p, k) <==> ReachesIn(G, S, p, k) || ReachesIn(G, {s}, p, k)
    {
      if ReachesIn(G, S + {s}, p, k) {
        var w :| IsWalk(G, w) && |w| == k + 1 && w[0] in S + {s} && w[k] == p;
        if w[0] in S {
          assert ReachesIn(G, S, p, k);
        } else {
          assert ReachesIn(G, {s}, p, k);
        }
      }
      if ReachesIn(G, S, p, k) {
        var w :| IsWalk(G, w) && |w| == k + 1 && w[0] in S && w[k] == p;
        assert w[0] in S + {s};
      }
      if ReachesIn(G, {s}, p, k) {
        var w :| IsWalk(G, w) && |w| == k + 1 && w[0] in {s} && w[k] == p;
        assert w[0] in S + {s};
      }
    }
  }

  /** A traversal with more moves has distances no larger. */
  lemma WiderGraphNoFarther(G1: Graph, G2: Graph, srcs: set<Pos>, p: Pos, a: Ext, b: Ext)
    requires forall u, v :: Step(G1, u, v) ==> Step(G2, u, v)
    requires IsDistance(G1, srcs, p, a) && IsDistance(G2, srcs, p, b)
    ensures Le(b, a)
  {
    if a.Fin? {
      var w :| IsWalk(G1, w) && |w| == a.n + 1 && w[0] in srcs && w[a.n] == p;
      assert IsWalk(G2, w);
      assert ReachesIn(G2, srcs, p, a.n);
    }
  }

  /** A set that holds the sources and is closed under moves holds every reachable cell. */
  lemma {:induction false} ClosedSetHoldsReach(G: Graph, srcs: set<Pos>, R: set<Pos>, w: seq<Pos>)
    requires srcs <= R
    requires forall u, v :: u in R && Step(G, u, v) ==> v in R
    requires IsWalk(G, w) && w[0] in srcs
    ensures w[|w| - 1] in R
    decreases |w|
  {
    if |w| > 1 {
      PrefixWalk(G, w, |w| - 1);
      ClosedSetHoldsReach(G, srcs, R, w[..|w| - 1]);
      assert Step(G, w[|w| - 2], w[|w| - 1]);
    }
  }

  lemma ReachableAll(G: Graph, srcs: set<Pos>, R: set<Pos>)
    requires srcs <= R
    requires forall u, v :: u in R && Step(G, u, v) ==> v in R
    ensures forall p :: Reachable(G, srcs, p) ==> p in R
  {
    forall p | Reachable(G, srcs, p)
      ensures p in R
    {
      var k: nat :| ReachesIn(G, srcs, p, k);
      var w :| IsWalk(G, w) && |w| == k + 1 && w[0] in srcs && w[k] == p;
      ClosedSetHoldsReach(G, srcs, R, w);
    }
  }

  /** One more move from a reachable cell is reachable. */
  lemma ReachableStep(G: Graph, srcs: set<Pos>, u: Pos, v: Pos)
    requires Reachable(G, srcs, u) && Step(G, u, v)
    ensures Reachable(G, srcs, v)
  {
    var k: nat :| ReachesIn(G, srcs, u, k);
    var w :| IsWalk(G, w) && |w| == k + 1 && w[0] in srcs && w[k] == u;
    ExtendWalk(G, w, v);
    assert ReachesIn(G, srcs, v, k + 1);
  }

  lemma SourceReachable(G: Graph, srcs: set<Pos>, s: Pos)
    requires s in srcs
    ensures Reachable(G, srcs, s)
  {
    assert IsWalk(G, [s]);
    assert ReachesIn(G, srcs, s, 0);
  }

  /** Moves are reversible between the cells the traversal admits. */
  ghost predicate SymmetricOn(G: Graph)
  {
    forall u, v :: u in G.allowed && Step(G, u, v) ==> Step(G, v, u)
  }

  lemma {:induction false} ReverseWalk(G: Graph, w: seq<Pos>) returns (r: seq<Pos>)
    requires SymmetricOn(G) && IsWalk(G, w) && w[0] in G.allowed
    ensures IsWalk(G, r) && |r| == |w| && r[0] == w[|w| - 1] && r[|r| - 1] == w[0]
    ensures forall i :: 0 <= i < |r| ==> r[i] in G.allowed
    decreases |w|
  {
    if |w| == 1 {
      r := w;
    } else {
      var last := w[|w| - 1];
      PrefixWalk(G, w, |w| - 1);
      var r' := ReverseWalk(G, w[..|w| - 1]);
      assert Step(G, w[|w| - 2], last);
      assert last in G.allowed;
      r := [last] + r';
      assert Step(G, last, w[|w| - 2]);
      forall i | 0 <= i < |r| - 1
        ensures Step(G, r[i], r[i + 1])
      {
        if i > 0 {
          assert Step(G, r'[i - 1], r'[i]);
        }
      }
    }
  }

  /** Reachability from a single admitted cell is symmetric when moves are reversible. */
  lemma ReachSymmetric(G: Graph, a: Pos, b: Pos)
    requires SymmetricOn(G) && a in G.allowed && Reachable(G, {a}, b)
    ensures Reachable(G, {b}, a)
  {
    var k: nat :| ReachesIn(G, {a}, b, k);
    var w :| IsWalk(G, w) && |w| == k + 1 && w[0] in {a} && w[k] == b;
    var r := ReverseWalk(G, w);
    assert ReachesIn(G, {b}, a, k);
  }

  lemma {:induction false} ConcatWalks(G: Graph, w1: seq<Pos>, w2: seq<Pos>)
    requires IsWalk(G, w1) && IsWalk(G, w2) && w1[|w1| - 1] == w2[0]
    ensures IsWalk(G, w1 + w2[1..])
  {
    var r := w1 + w2[1..];
    forall i | 0 <= i < |r| - 1
      ensures Step(G, r[i], r[i + 1])
    {
      if i < |w1| - 1 {
        assert r[i] == w1[i] && r[i + 1] == w1[i + 1];
      } else {
        assert r[i] == w2[i - |w1| + 1] && r[i + 1] == w2[i - |w1| + 2];
      }
    }
  }

  lemma ReachTransitive(G: Graph, a: Pos, b: Pos, c: Pos)
    requires Reachable(G, {a}, b) && Reachable(G, {b}, c)
    ensures Reachable(G, {a}, c)
  {
    var k1: nat :| ReachesIn(G, {a}, b, k1);
    var w1 :| IsWalk(G, w1) && |w1| == k1 + 1 && w1[0] in {a} && w1[k1] == b;
    var k2: nat :| ReachesIn(G, {b}, c, k2);
    var w2 :| IsWalk(G, w2) && |w2| == k2 + 1 && w2[0] in {b} && w2[k2] == c;
    ConcatWalks(G, w1, w2);
    var w := w1 + w2[1..];
    assert w[k1 + k2] == c;
    assert ReachesIn(G, {a}, c, k1 + k2);
  }
}
