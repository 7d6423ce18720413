/**
 One turn of the second hider: unless it already stands, unseen, on the
 cell it chose last time, it rebuilds its maps of the grid, picks the best
 hiding cell and heads there. The cell chosen last time is an attribute
 the hider only gets on its first choice, so a first turn on a cell the
 seeker does not see fails.
 */
module HiderB {
  import opened Wrappers
  import opened GridNode
  import opened GridModel
  import opened Extended
  import opened Paths
  import opened Npc
  import opened HiderBMaps
  import opened HiderBDist
  import opened HiderBSizes
  import opened HiderBBest

  /** A cell worth hiding in: a hiding cell joined through hiding cells to one beside the seeker's view. */
  ghost predicate Hideable(g: Grid, p: Pos)
  {
    Spot(g, p) && Reachable(SpotGraph(g), AnchorSet(g, NearSight), p)
  }

  /** `best_location`: missing until `think` first assigns it, then the last pick, which may be None. */
  datatype Memory = Unset | Chosen(cell: Option<Pos>)

  /** The four maps the scoring reads: wall, shadow and hider distances, and blind-spot sizes. */
  datatype Mind = Mind(wd: map<Pos, Ext>, sd: map<Pos, Ext>, dm: map<Pos, Ext>, bss: map<Pos, nat>)

  /**
   How a call of `think` ends: with the AttributeError of reading a
   missing attribute, staying put, or after rebuilding the maps with a new
   pick, which becomes the memory, and the agent that pursues it.
   */
  datatype Outcome = Raised | Stayed | Chose(agent: Agent, mind: Mind, best: Option<Pos>)

  /**
   What the passes of `think` leave, rebuilt from empty maps for the
   hider's cell `here`: the wall distances; shadow distances with an entry
   per cell, never `inf`, `-inf` exactly off the cells worth hiding in and
   otherwise the hop distance from the cells beside the seeker's view;
   distances to the hider kept exactly on those cells; and blind-spot
   sizes of at least 1 on exactly the cells with a distance to the hider,
   each the size of its blind spot.
   */
  ghost predicate MapsOf(g: Grid, here: Pos, m: Mind)
  {
    && DistancesFrom(g, AnchorSet(g, NearWall), m.wd)
    && (forall p :: p in m.sd <==> InBounds(g, p))
    && (forall p :: p in m.sd ==> m.sd[p] != Inf)
    && (forall p :: p in m.sd ==> (m.sd[p] == NegInf <==> !Hideable(g, p)))
    && (forall p :: p in m.sd && m.sd[p].Fin? ==> IsDistance(SpotGraph(g), AnchorSet(g, NearSight), p, m.sd[p]))
    && (forall p :: p in m.dm <==> InBounds(g, p))
    && (forall p :: p in m.dm ==> (m.dm[p] != NegInf <==> Spot(g, p) && m.sd[p] != NegInf))
    && (forall p :: p in m.dm && m.dm[p] != NegInf ==> IsDistance(Moves(g), {here}, p, m.dm[p]))
    && m.bss.Keys == OpenCells(g, m.dm)
    && (forall p :: p in m.bss ==> m.bss[p] >= 1)
    && (OpenNonWall(g, m.dm) ==> forall p :: p in m.bss ==> m.bss[p] == |Component(Blind(g, m.dm), p)|)
  }

  /** The maps the passes leave fit the scoring, and their values give no NaN total unless a range is `inf`. */
  lemma MapsValued(g: Grid, here: Pos, m: Mind)
    requires MapsOf(g, here, m)
    ensures Valued(g, m.wd, m.sd, m.dm, m.bss)
  {
    forall p | p in m.sd && m.sd[p] != NegInf
      ensures p in m.bss
    {
      assert p in OpenCells(g, m.dm);
    }
  }

  /**
   The pick `determine_best_location` makes from the maps: None exactly
   when no cell is a candidate; the first candidate in grid order when the
   wall or the hider distances reach `inf`; otherwise the candidate with
   the first highest total.
   */
  ghost predicate IsBest(g: Grid, m: Mind, best: Option<Pos>)
  {
    && Scorable(g, m.wd, m.sd, m.dm, m.bss)
    && var keys := Candidates(m.sd, AllPositions(g));
       var r := RangesOf(g, m.wd, m.sd, m.dm, m.bss);
       && (best == None <==> keys == [])
       && (Poisoned(r) && keys != [] ==> best == Some(keys[0]))
       && (!Poisoned(r) && best.Some? ==>
             exists i: nat :: FirstHighest(Totals(g, r, m.wd, m.sd, m.dm, m.bss, keys), i) && best == Some(keys[i]))
  }

  /** The shadow distances' `-inf` entries, restated through the cells worth hiding in. */
  lemma ShadowHideable(g: Grid, sd: map<Pos, Ext>)
    requires forall p :: p in sd ==>
      (sd[p] == NegInf <==> !Spot(g, p) || !Reachable(SpotGraph(g), AnchorSet(g, NearSight), p))
    ensures forall p :: p in sd ==> (sd[p] == NegInf <==> !Hideable(g, p))
  {
  }

  /** The five passes of `think` that rebuild the hider's maps, from empty maps and in the order `think` runs them. */
  method BuildMaps(g: Grid, here: Pos) returns (m: Mind)
    requires InBounds(g, here)
    ensures MapsOf(g, here, m)
  {
    var pl := PossibleLocations(g);
    var wd := WallDistances(g, pl);
    var sd := ShadowDistances(g, pl);
    var dm := DistToMe(g, pl, sd, here);
    var bss := BlindSpotSizes(g, dm);
    m := Mind(wd, sd, dm, bss);
    ShadowHideable(g, sd);
  }

  /** `determine_best_location` on the rebuilt maps: the pick, which is a cell worth hiding in, and None only when there is none. */
  method PickCandidate(g: Grid, here: Pos, m: Mind) returns (best: Option<Pos>)
    requires MapsOf(g, here, m)
    ensures IsBest(g, m, best)
    ensures best == None <==> forall p :: InBounds(g, p) ==> !Hideable(g, p)
    ensures best.Some? ==> Hideable(g, best.value)
  {
    MapsValued(g, here, m);
    var keys, totals;
    best, keys, totals := DetermineBestLocation(g, m.wd, m.sd, m.dm, m.bss);
    if best.None? {
      forall p | InBounds(g, p)
        ensures !Hideable(g, p)
      {
        assert p in AllPositions(g);
        assert p !in keys;
      }
    } else {
      assert best.value in keys;
    }
  }

  /**
   `think`. Standing unseen on the cell last chosen, the hider stays put.
   Otherwise, when it has chosen before, it rebuilds its maps, picks the
   best cell and pursues it, or stays as it is when no cell is worth
   hiding in; the pick becomes its memory, pursued as `set_target`
   leaves it. Off the grid, or unseen before any choice, reading the
   hider's cell or its memory fails.
   */
  method Think(g: Grid, a: Agent, here: Pos, mem: Memory) returns (o: Outcome)
    ensures !InBounds(g, here) ==> o == Raised
    ensures InBounds(g, here) && !At(g, here).seenBySeeker && mem == Unset ==> o == Raised
    ensures InBounds(g, here) && !At(g, here).seenBySeeker && mem == Chosen(Some(here)) ==> o == Stayed
    ensures o.Chose? <==> InBounds(g, here) && (At(g, here).seenBySeeker || (mem.Chosen? && mem.cell != Some(here)))
    ensures o.Chose? ==> MapsOf(g, here, o.mind) && IsBest(g, o.mind, o.best)
    ensures o.Chose? ==> (o.best == None <==> forall p :: InBounds(g, p) ==> !Hideable(g, p))
    ensures o.Chose? && o.best == None ==> o.agent == a
    ensures o.Chose? && o.best.Some? ==> Hideable(g, o.best.value) && o.agent.target == o.best
    ensures o.Chose? && o.best.Some? ==> Pursues(g, here, o.agent, o.best.value)
  {
    if !InBounds(g, here) {
      return Raised;
    }
    if !At(g, here).seenBySeeker {
      match mem
      case Unset =>
        return Raised;
      case Chosen(cell) =>
        if cell == Some(here) {
          return Stayed;
        }
    }
    var m := BuildMaps(g, here);
    var best := PickCandidate(g, here, m);
    if best.None? {
      return Chose(a, m, best);
    }
    var p := best.value;
    var r, accepted := SetTarget(g, a, here, p.x, p.y);
    return Chose(r, m, best);
  }
}
