/**
 How the second hider picks its hiding cell. Each candidate cell gets four
 scores: nearness to a wall, distance from what the seeker sees, nearness
 to the hider, and the size of its blind spot. Each score is scaled into
 [0, 1] against the largest value of its map and weighted. The candidate
 with the highest total wins, and on a tie the first one in grid order.
 */
module HiderBBest {
  import opened Wrappers
  import opened GridNode
  import opened GridModel
  import opened Extended
  import opened Scoring

  /** The largest value d holds for a cell listed in ps, or None when it holds none of them. */
  function MaxOf(d: map<Pos, Ext>, ps: seq<Pos>): (m: Option<Ext>)
    ensures m == None <==> forall p :: p in ps ==> p !in d
    ensures m.Some? ==> exists p :: p in ps && p in d && d[p] == m.value
    ensures m.Some? ==> forall p :: p in ps && p in d ==> Le(d[p], m.value)
  {
    if ps == [] then None
    else
      var rest := MaxOf(d, ps[1..]);
      assert forall p :: p in ps ==> p == ps[0] || p in ps[1..];
      if ps[0] !in d then rest
      else if rest == None then Some(d[ps[0]])
      else
        LeTotal(d[ps[0]], rest.value);
        forall p | p in ps[1..] && p in d
          ensures Le(d[p], Max(rest.value, d[ps[0]]))
        {
          LeTransitive(d[p], rest.value, Max(rest.value, d[ps[0]]));
        }
        Some(Max(rest.value, d[ps[0]]))
  }

  /**
   `max(d.values() or [0])`, with every key of d listed in ps: the largest
   value, or 0 for an empty map. The order of the values does not matter
   to the maximum.
   */
  function Largest(d: map<Pos, Ext>, ps: seq<Pos>): (m: Ext)
    ensures forall p :: p in ps && p in d ==> Le(d[p], m)
    ensures (exists p :: p in ps && p in d && d[p] == m) || (m == Fin(0) && forall p :: p in ps ==> p !in d)
  {
    match MaxOf(d, ps)
    case None => Fin(0)
    case Some(v) => v
  }

  /** A map of sizes read as a map of distance values, for the maximum. */
  function AsExt(sizes: map<Pos, nat>): (d: map<Pos, Ext>)
    ensures d.Keys == sizes.Keys
    ensures forall p :: p in d ==> d[p] == Fin(sizes[p])
  {
    map p | p in sizes :: Fin(sizes[p])
  }

  /** The four upper ends the scores are scaled against; every lower end is 0. */
  datatype Ranges = Ranges(wall: Float, shadow: Float, dist: Float, size: Float)

  /** A score times its positive weight times 10, multiplied left to right as `determine_best_location` does. */
  function Weighted(score: Float, weight: real): Float
    requires 0.0 < weight
  {
    Scale(Scale(score, weight), 10.0)
  }

  /** The score of a value where smaller is better: its reflection in [0, hi], scaled into [0, 1]. */
  function Closeness(v: Ext, hi: Float): Float
  {
    ScoreWithRange(InvertInRange(FromExt(v), Num(0.0), hi), Num(0.0), hi)
  }

  /** The score of a value where larger is better: the value scaled into [0, 1]. */
  function Farness(v: Float, hi: Float): Float
  {
    ScoreWithRange(v, Num(0.0), hi)
  }

  /** The four weighted scores added to 0 in the order `determine_best_location` adds them: 3 for the wall, 2 for the shadow, 4 for the distance and 1 for the size. */
  function Combine(a: Float, b: Float, c: Float, e: Float): Float
  {
    Add(Add(Add(Add(Num(0.0), Weighted(a, 3.0)), Weighted(b, 2.0)), Weighted(c, 4.0)), Weighted(e, 1.0))
  }

  /**
   The total of one candidate: nearness to a wall, distance from the
   seeker's view, nearness to the hider and the size of the blind spot,
   each scored against its range and combined with its weight.
   */
  function Total(r: Ranges, wall: Ext, shadow: Ext, dist: Ext, size: nat): Float
  {
    Combine(Closeness(wall, r.wall), Farness(FromExt(shadow), r.shadow), Closeness(dist, r.dist), Farness(Num(size as real), r.size))
  }

  /** The score of a finite value v in [0, hi] where larger is better, as a real: v / hi, or 0 when hi is 0. */
  function FarScore(v: real, hi: real): real
  {
    if hi == 0.0 then 0.0 else v / hi
  }

  /** The score of a finite value v in [0, hi] where smaller is better, as a real: (hi - v) / hi, or 0 when hi is 0. */
  function CloseScore(v: nat, hi: real): real
  {
    FarScore(hi - v as real, hi)
  }

  /** Against a finite upper end, the float score of a finite value is the real one. */
  lemma FarnessValue(v: real, hi: Float)
    requires hi.Num?
    ensures Farness(Num(v), hi) == Num(FarScore(v, hi.v))
  {
    assert Sub(Num(v), Num(0.0)) == Num(v);
    assert Sub(hi, Num(0.0)) == hi;
  }

  lemma ClosenessValue(v: nat, hi: Float)
    requires hi.Num?
    ensures Closeness(Fin(v), hi) == Num(CloseScore(v, hi.v))
  {
    assert Sub(Num(v as real), Num(0.0)) == Num(v as real);
    assert InvertInRange(FromExt(Fin(v)), Num(0.0), hi) == Num(hi.v - v as real);
    FarnessValue(hi.v - v as real, hi);
  }

  /** Four finite scores combine to 30a + 20b + 40c + 10e. */
  lemma CombineFinite(a: real, b: real, c: real, e: real)
    ensures Combine(Num(a), Num(b), Num(c), Num(e)) == Num(30.0 * a + 20.0 * b + 40.0 * c + 10.0 * e)
  {
    assert Weighted(Num(a), 3.0) == Num(a * 3.0 * 10.0);
    assert Weighted(Num(b), 2.0) == Num(b * 2.0 * 10.0);
    assert Weighted(Num(c), 4.0) == Num(c * 4.0 * 10.0);
    assert Weighted(Num(e), 1.0) == Num(e * 1.0 * 10.0);
  }

  /** Finite upper ends. */
  predicate FiniteRanges(r: Ranges)
  {
    r.wall.Num? && r.shadow.Num? && r.dist.Num? && r.size.Num?
  }

  /** The real-valued total of finite values against finite upper ends. */
  function RealTotal(r: Ranges, w: nat, s: nat, d: nat, z: nat): real
    requires FiniteRanges(r)
  {
    30.0 * CloseScore(w, r.wall.v) + 20.0 * FarScore(s as real, r.shadow.v)
    + 40.0 * CloseScore(d, r.dist.v) + 10.0 * FarScore(z as real, r.size.v)
  }

  /** On finite values against finite upper ends each float score is the real one. */
  lemma TotalScores(r: Ranges, w: nat, s: nat, d: nat, z: nat)
    requires FiniteRanges(r)
    ensures Total(r, Fin(w), Fin(s), Fin(d), z)
         == Combine(Num(CloseScore(w, r.wall.v)), Num(FarScore(s as real, r.shadow.v)), Num(CloseScore(d, r.dist.v)), Num(FarScore(z as real, r.size.v)))
  {
    ClosenessValue(w, r.wall);
    assert FromExt(Fin(s)) == Num(s as real);
    FarnessValue(s as real, r.shadow);
    ClosenessValue(d, r.dist);
    FarnessValue(z as real, r.size);
  }

  /** On finite values against finite upper ends the float total is the real one: no special value arises. */
  lemma TotalValue(r: Ranges, w: nat, s: nat, d: nat, z: nat)
    requires FiniteRanges(r)
    ensures Total(r, Fin(w), Fin(s), Fin(d), z) == Num(RealTotal(r, w, s, d, z))
  {
    var a, b, c, e := CloseScore(w, r.wall.v), FarScore(s as real, r.shadow.v), CloseScore(d, r.dist.v), FarScore(z as real, r.size.v);
    TotalScores(r, w, s, d, z);
    CombineFinite(a, b, c, e);
  }

  /** A value in [0, hi] scores in [0, 1]. */
  lemma FarScoreUnit(v: real, hi: real)
    requires 0.0 <= v <= hi
    ensures 0.0 <= FarScore(v, hi) <= 1.0
  {
    if hi != 0.0 {
      UnitRatio(v, 0.0, hi);
    }
  }

  /** Against a positive upper end, a larger value scores strictly more. */
  lemma FarScoreOrder(v1: real, v2: real, hi: real)
    requires 0.0 < hi && v1 < v2
    ensures FarScore(v1, hi) < FarScore(v2, hi)
  {
    var x1, x2 := v1 / hi, v2 / hi;
    assert x1 * hi == v1 && x2 * hi == v2;
    if x1 >= x2 {
      assert x1 * hi >= x2 * hi;
    }
  }

  /** Each category adds between 0 and ten times its weight, so a total of values within their ranges lies in [0, 100]. */
  lemma TotalBounds(r: Ranges, w: nat, s: nat, d: nat, z: nat)
    requires FiniteRanges(r)
    requires w as real <= r.wall.v && s as real <= r.shadow.v && d as real <= r.dist.v && z as real <= r.size.v
    ensures Total(r, Fin(w), Fin(s), Fin(d), z).Num?
    ensures 0.0 <= Total(r, Fin(w), Fin(s), Fin(d), z).v <= 100.0
  {
    TotalValue(r, w, s, d, z);
    FarScoreUnit(r.wall.v - w as real, r.wall.v);
    FarScoreUnit(s as real, r.shadow.v);
    FarScoreUnit(r.dist.v - d as real, r.dist.v);
    FarScoreUnit(z as real, r.size.v);
  }

  /** Nearer a wall scores higher, everything else equal, once the largest wall distance is positive. */
  lemma NearerWallBetter(r: Ranges, w1: nat, w2: nat, s: nat, d: nat, z: nat)
    requires FiniteRanges(r) && 0.0 < r.wall.v && w1 < w2
    ensures LessThan(Total(r, Fin(w2), Fin(s), Fin(d), z), Total(r, Fin(w1), Fin(s), Fin(d), z))
  {
    TotalValue(r, w1, s, d, z);
    TotalValue(r, w2, s, d, z);
    FarScoreOrder(r.wall.v - w2 as real, r.wall.v - w1 as real, r.wall.v);
  }

  /** Farther from the seeker's view scores higher, everything else equal, once the largest such distance is positive. */
  lemma FartherFromViewBetter(r: Ranges, w: nat, s1: nat, s2: nat, d: nat, z: nat)
    requires FiniteRanges(r) && 0.0 < r.shadow.v && s1 < s2
    ensures LessThan(Total(r, Fin(w), Fin(s1), Fin(d), z), Total(r, Fin(w), Fin(s2), Fin(d), z))
  {
    TotalValue(r, w, s1, d, z);
    TotalValue(r, w, s2, d, z);
    FarScoreOrder(s1 as real, s2 as real, r.shadow.v);
  }

  /** Nearer the hider scores higher, everything else equal, once the largest distance to the hider is positive. */
  lemma NearerHiderBetter(r: Ranges, w: nat, s: nat, d1: nat, d2: nat, z: nat)
    requires FiniteRanges(r) && 0.0 < r.dist.v && d1 < d2
    ensures LessThan(Total(r, Fin(w), Fin(s), Fin(d2), z), Total(r, Fin(w), Fin(s), Fin(d1), z))
  {
    TotalValue(r, w, s, d1, z);
    TotalValue(r, w, s, d2, z);
    FarScoreOrder(r.dist.v - d2 as real, r.dist.v - d1 as real, r.dist.v);
  }

  /** A larger blind spot scores higher, everything else equal, once the largest blind spot is positive. */
  lemma LargerSpotBetter(r: Ranges, w: nat, s: nat, d: nat, z1: nat, z2: nat)
    requires FiniteRanges(r) && 0.0 < r.size.v && z1 < z2
    ensures LessThan(Total(r, Fin(w), Fin(s), Fin(d), z1), Total(r, Fin(w), Fin(s), Fin(d), z2))
  {
    TotalValue(r, w, s, d, z1);
    TotalValue(r, w, s, d, z2);
    FarScoreOrder(z1 as real, z2 as real, r.size.v);
  }

  /**
   An infinite upper end for the wall or the hider distances makes every
   total NaN, whatever the candidate's values: a number reflected in
   [0, inf] is inf, inf reflected is NaN, and either scaled by inf is NaN.
   */
  lemma InfiniteRangePoisons(r: Ranges, wall: Ext, shadow: Ext, dist: Ext, size: nat)
    requires r.wall == PInf || r.dist == PInf
    ensures Total(r, wall, shadow, dist, size) == NaN
  {
    var w := InvertInRange(FromExt(wall), Num(0.0), PInf);
    assert w == PInf || w == NaN by {
      InfiniteRangeInvert(FromExt(wall));
      if wall == NegInf {
        assert Sub(FromExt(wall), Num(0.0)) == NInf;
      }
    }
    var d := InvertInRange(FromExt(dist), Num(0.0), PInf);
    assert d == PInf || d == NaN by {
      InfiniteRangeInvert(FromExt(dist));
      if dist == NegInf {
        assert Sub(FromExt(dist), Num(0.0)) == NInf;
      }
    }
    if r.wall == PInf {
      InfiniteRangeScoreNaN(w);
      assert Closeness(wall, r.wall) == NaN;
    } else {
      InfiniteRangeScoreNaN(d);
      assert Closeness(dist, r.dist) == NaN;
    }
  }

  /** The candidates: the cells listed in ps whose shadow distance is not `-inf`, in order. */
  function Candidates(sd: map<Pos, Ext>, ps: seq<Pos>): (c: seq<Pos>)
    requires forall k :: 0 <= k < |ps| ==> ps[k] in sd
    ensures forall p :: p in c <==> p in ps && sd[p] != NegInf
    ensures |c| <= |ps|
  {
    if ps == [] then []
    else if sd[ps[0]] != NegInf then [ps[0]] + Candidates(sd, ps[1..])
    else Candidates(sd, ps[1..])
  }

  /** The ranges of the four maps: the largest value of each, read as a float. */
  function RangesOf(g: Grid, wd: map<Pos, Ext>, sd: map<Pos, Ext>, dm: map<Pos, Ext>, bss: map<Pos, nat>): Ranges
  {
    var all := AllPositions(g);
    Ranges(FromExt(Largest(wd, all)), FromExt(Largest(sd, all)), FromExt(Largest(dm, all)), FromExt(Largest(AsExt(bss), all)))
  }

  /** The keys the scoring reads: every cell in the three distance maps, and every candidate in the sizes. */
  ghost predicate Scorable(g: Grid, wd: map<Pos, Ext>, sd: map<Pos, Ext>, dm: map<Pos, Ext>, bss: map<Pos, nat>)
  {
    && (forall p :: p in wd <==> InBounds(g, p))
    && (forall p :: p in sd <==> InBounds(g, p))
    && (forall p :: p in dm <==> InBounds(g, p))
    && (forall p :: p in sd && sd[p] != NegInf ==> p in bss)
  }

  /** The total of candidate p against the ranges r. */
  function Score(g: Grid, r: Ranges, wd: map<Pos, Ext>, sd: map<Pos, Ext>, dm: map<Pos, Ext>, bss: map<Pos, nat>, p: Pos): Float
    requires Scorable(g, wd, sd, dm, bss) && p in sd && sd[p] != NegInf
  {
    Total(r, wd[p], sd[p], dm[p], bss[p])
  }

  /**
   `max` over a non-empty list by key: it keeps the first element and
   moves on only to a strictly greater one, so no later element is
   greater, and a NaN first element is never left. Without NaN the result
   is the first greatest element.
   */
  method ArgMax(s: seq<Float>) returns (best: nat)
    requires s != []
    ensures best < |s|
    ensures forall j :: best < j < |s| ==> !LessThan(s[best], s[j])
    ensures s[0] == NaN ==> best == 0
    ensures NoNaN(s) ==> forall j :: 0 <= j < |s| ==> !LessThan(s[best], s[j])
    ensures NoNaN(s) ==> forall j :: 0 <= j < best ==> LessThan(s[j], s[best])
  {
    ghost var noNaN := NoNaN(s);
    best := 0;
    for i := 1 to |s|
      invariant best < i
      invariant forall j :: best < j < i ==> !LessThan(s[best], s[j])
      invariant s[0] == NaN ==> best == 0
      invariant noNaN ==> forall j :: 0 <= j < best ==> LessThan(s[j], s[best])
    {
      if LessThan(s[best], s[i]) {
        if noNaN {
          forall j | 0 <= j < i
            ensures LessThan(s[j], s[i])
          {
            if j < best {
              LessTransitive(s[j], s[best], s[i]);
            } else if best < j {
              LessTotal(s[j], s[best]);
              if s[j] != s[best] {
                LessTransitive(s[j], s[best], s[i]);
              }
            }
          }
        }
        best := i;
      }
    }
    if noNaN {
      forall j | 0 <= j < best
        ensures !LessThan(s[best], s[j])
      {
        if LessThan(s[best], s[j]) {
          LessTransitive(s[j], s[best], s[j]);
          LessIrreflexive(s[j]);
        }
      }
      LessIrreflexive(s[best]);
    }
  }

  /** The totals of the listed candidates, in order: the values of `possibilities` once the four passes are done. */
  function Totals(g: Grid, r: Ranges, wd: map<Pos, Ext>, sd: map<Pos, Ext>, dm: map<Pos, Ext>, bss: map<Pos, nat>, keys: seq<Pos>)
    : (ts: seq<Float>)
    requires Scorable(g, wd, sd, dm, bss)
    requires forall k :: 0 <= k < |keys| ==> keys[k] in sd && sd[keys[k]] != NegInf
    ensures |ts| == |keys|
    ensures forall k :: 0 <= k < |keys| ==> ts[k] == Score(g, r, wd, sd, dm, bss, keys[k])
  {
    if keys == [] then []
    else [Score(g, r, wd, sd, dm, bss, keys[0])] + Totals(g, r, wd, sd, dm, bss, keys[1..])
  }

  /** No NaN among the values. */
  predicate NoNaN(s: seq<Float>)
  {
    forall k :: 0 <= k < |s| ==> s[k] != NaN
  }

  /**
   What `max(possibilities, key=possibilities.get)` promises of the key at
   index i: no later total is greater; and without NaN, no total is
   greater and every earlier one is strictly less, so i is the first
   highest.
   */
  ghost predicate IsPick(totals: seq<Float>, i: nat)
  {
    && i < |totals|
    && (forall j :: i < j < |totals| ==> !LessThan(totals[i], totals[j]))
    && (NoNaN(totals) ==> forall j :: 0 <= j < |totals| ==> !LessThan(totals[i], totals[j]))
    && (NoNaN(totals) ==> forall j :: 0 <= j < i ==> LessThan(totals[j], totals[i]))
  }

  /** Index i holds the first highest total: no total is greater, and every earlier one is strictly less. */
  predicate FirstHighest(totals: seq<Float>, i: nat)
  {
    && i < |totals|
    && (forall j :: 0 <= j < |totals| ==> !LessThan(totals[i], totals[j]))
    && (forall j :: 0 <= j < i ==> LessThan(totals[j], totals[i]))
  }

  /** The key `max` returns over an ordered map given as its keys and their totals; None for an empty one. */
  method Pick(keys: seq<Pos>, totals: seq<Float>) returns (best: Option<Pos>)
    requires |totals| == |keys|
    ensures best == None <==> keys == []
    ensures best.Some? ==> exists i: nat :: IsPick(totals, i) && best == Some(keys[i])
    ensures keys != [] && totals[0] == NaN ==> best == Some(keys[0])
    ensures NoNaN(totals) && best.Some? ==> exists i: nat :: FirstHighest(totals, i) && best == Some(keys[i])
  {
    if keys == [] {
      return None;
    }
    var i := ArgMax(totals);
    best := Some(keys[i]);
  }

  /** An infinite upper end for the wall or the hider distances, which `determine_best_location` does not guard against. */
  predicate Poisoned(r: Ranges)
  {
    r.wall == PInf || r.dist == PInf
  }

  /** Against poisoned ranges every total is NaN. */
  lemma TotalsPoisoned(g: Grid, r: Ranges, wd: map<Pos, Ext>, sd: map<Pos, Ext>, dm: map<Pos, Ext>, bss: map<Pos, nat>, keys: seq<Pos>)
    requires Scorable(g, wd, sd, dm, bss)
    requires forall k :: 0 <= k < |keys| ==> keys[k] in sd && sd[keys[k]] != NegInf
    requires Poisoned(r)
    ensures forall k :: 0 <= k < |keys| ==> Totals(g, r, wd, sd, dm, bss, keys)[k] == NaN
  {
    forall k | 0 <= k < |keys|
      ensures Totals(g, r, wd, sd, dm, bss, keys)[k] == NaN
    {
      var p := keys[k];
      InfiniteRangePoisons(r, wd[p], sd[p], dm[p], bss[p]);
    }
  }

  /**
   What the passes of `think` guarantee of the values, besides the keys:
   no shadow distance is `inf`, and no candidate is `-inf` in the wall or
   the hider distances.
   */
  ghost predicate Valued(g: Grid, wd: map<Pos, Ext>, sd: map<Pos, Ext>, dm: map<Pos, Ext>, bss: map<Pos, nat>)
  {
    && Scorable(g, wd, sd, dm, bss)
    && (forall p :: p in sd ==> sd[p] != Inf)
    && (forall p :: p in sd && sd[p] != NegInf ==> wd[p] != NegInf && dm[p] != NegInf)
  }

  /** A value that is not `-inf`, under a largest value that is not `inf`, is finite and at most that value. */
  lemma UnderLargest(d: map<Pos, Ext>, all: seq<Pos>, p: Pos)
    requires p in all && p in d && d[p] != NegInf && Largest(d, all) != Inf
    ensures d[p].Fin? && Largest(d, all).Fin? && d[p].n <= Largest(d, all).n
  {
    assert Le(d[p], Largest(d, all));
  }

  /** With such values, a candidate's total is a number unless a range is poisoned. */
  lemma CandidateTotalNumber(g: Grid, wd: map<Pos, Ext>, sd: map<Pos, Ext>, dm: map<Pos, Ext>, bss: map<Pos, nat>, p: Pos)
    requires Valued(g, wd, sd, dm, bss) && p in sd && sd[p] != NegInf
    requires !Poisoned(RangesOf(g, wd, sd, dm, bss))
    ensures Score(g, RangesOf(g, wd, sd, dm, bss), wd, sd, dm, bss, p).Num?
  {
    var all := AllPositions(g);
    var r := RangesOf(g, wd, sd, dm, bss);
    assert p in all;
    UnderLargest(wd, all, p);
    UnderLargest(dm, all, p);
    UnderLargest(sd, all, p);
    var sizes := AsExt(bss);
    UnderLargest(sizes, all, p);
    TotalBounds(r, wd[p].n, sd[p].n, dm[p].n, bss[p]);
  }

  /** With such values, no total is NaN unless a range is poisoned. */
  lemma UnpoisonedNoNaN(g: Grid, wd: map<Pos, Ext>, sd: map<Pos, Ext>, dm: map<Pos, Ext>, bss: map<Pos, nat>, keys: seq<Pos>)
    requires Valued(g, wd, sd, dm, bss)
    requires forall k :: 0 <= k < |keys| ==> keys[k] in sd && sd[keys[k]] != NegInf
    requires !Poisoned(RangesOf(g, wd, sd, dm, bss))
    ensures NoNaN(Totals(g, RangesOf(g, wd, sd, dm, bss), wd, sd, dm, bss, keys))
  {
    forall k | 0 <= k < |keys|
      ensures Totals(g, RangesOf(g, wd, sd, dm, bss), wd, sd, dm, bss, keys)[k] != NaN
    {
      CandidateTotalNumber(g, wd, sd, dm, bss, keys[k]);
    }
  }

  /**
   `determine_best_location`. The candidates, in grid order, with their
   totals (the ordered map `possibilities`), and the pick: None exactly
   when there is no candidate, and otherwise the first highest total as
   long as no total is NaN. When the wall or the hider distances hold
   `inf`, every total is NaN (TotalsPoisoned) and the pick is the first
   candidate. With the values the passes produce, nothing else gives NaN,
   so otherwise the pick is the first highest total.
   */
  method DetermineBestLocation(g: Grid, wd: map<Pos, Ext>, sd: map<Pos, Ext>, dm: map<Pos, Ext>, bss: map<Pos, nat>)
    returns (best: Option<Pos>, keys: seq<Pos>, totals: seq<Float>)
    requires Scorable(g, wd, sd, dm, bss)
    ensures keys == Candidates(sd, AllPositions(g))
    ensures totals == Totals(g, RangesOf(g, wd, sd, dm, bss), wd, sd, dm, bss, keys)
    ensures best == None <==> keys == []
    ensures best.Some? ==> exists i: nat :: IsPick(totals, i) && best == Some(keys[i])
    ensures Poisoned(RangesOf(g, wd, sd, dm, bss)) && keys != [] ==> best == Some(keys[0])
    ensures Valued(g, wd, sd, dm, bss) && !Poisoned(RangesOf(g, wd, sd, dm, bss)) && best.Some? ==>
      exists i: nat :: FirstHighest(totals, i) && best == Some(keys[i])
  {
    keys := Candidates(sd, AllPositions(g));
    var r := RangesOf(g, wd, sd, dm, bss);
    totals := Totals(g, r, wd, sd, dm, bss, keys);
    if Poisoned(r) {
      TotalsPoisoned(g, r, wd, sd, dm, bss, keys);
    } else if Valued(g, wd, sd, dm, bss) {
      UnpoisonedNoNaN(g, wd, sd, dm, bss, keys);
    }
    best := Pick(keys, totals);
  }
}
