/**
 Target setting for an agent: checking a requested cell, running the
 pathfinder from the agent's own cell, and turning the cells of the path
 into waypoints at the centres of those cells.
 */
module Npc {
  import opened Wrappers
  import opened GridNode
  import opened GridModel
  import opened Paths
  import opened Pathfinder

  /** A point in world coordinates: cell coordinates, but continuous. */
  datatype Waypoint = Waypoint(x: real, y: real)

  /** The pursuit state of an agent: where it is heading, the waypoints to get there, and the next one to reach. */
  datatype Agent = Agent(target: Option<Pos>, path: seq<Waypoint>, pathIndex: nat)

  /** The centre of a cell: each tile is one unit wide, so half a unit past its corner. */
  function Centre(p: Pos): Waypoint
  {
    Waypoint(p.x as real + 0.5, p.y as real + 0.5)
  }

  /** The cell a world point lies in. */
  function CellOf(w: Waypoint): Pos
  {
    Pos(w.x.Floor, w.y.Floor)
  }

  /** A cell's centre lies in that cell. */
  lemma CentreInCell(p: Pos)
    ensures CellOf(Centre(p)) == p
  {
  }

  /** The waypoints for a list of cells: one per cell, in order, each inside its cell. */
  function ToWaypoints(cells: seq<Pos>): (r: seq<Waypoint>)
    ensures |r| == |cells|
    ensures forall i :: 0 <= i < |r| ==> CellOf(r[i]) == cells[i]
  {
    seq(|cells|, i requires 0 <= i < |cells| => CentreInCell(cells[i]); Centre(cells[i]))
  }

  /**
   The second half of `update_path`, given the cells the pathfinder
   returned: the new waypoints replace the old ones. A non-empty path
   restarts from its first waypoint and reports success; an empty one
   reports failure and leaves the index where it was.
   */
  function Follow(a: Agent, cells: seq<Pos>): (r: (Agent, bool))
    ensures r.0.target == a.target
    ensures |r.0.path| == |cells| && forall i :: 0 <= i < |cells| ==> CellOf(r.0.path[i]) == cells[i]
    ensures r.1 <==> cells != []
    ensures r.0.pathIndex == if cells != [] then 0 else a.pathIndex
  {
    var path := ToWaypoints(cells);
    if path != [] then (a.(path := path, pathIndex := 0), true)
    else (a.(path := path), false)
  }

  /**
   What `set_target` leaves for an accepted cell c, pursued from `here`:
   c is the target; a non-empty path starts at index 0, runs from `here`
   to c and steps between neighbouring non-wall cells; and on a grid of at
   most 99999 cells the path is non-empty whenever c can be reached
   through non-wall cells.
   */
  ghost predicate Pursues(g: Grid, here: Pos, r: Agent, c: Pos)
  {
    && r.target == Some(c)
    && (r.path != [] ==> r.pathIndex == 0 && CellOf(r.path[0]) == here && CellOf(r.path[|r.path| - 1]) == c)
    && (forall i :: 0 <= i < |r.path| - 1 ==> IsNeighbor(g, CellOf(r.path[i]), CellOf(r.path[i + 1]), false))
    && (InBounds(g, here) && g.size * g.size <= UnreachedScore && Reachable(Traversal(g, false), {here}, c) ==> r.path != [])
  }

  /**
   `update_path` from the agent's cell `here`. With no target the path is
   emptied, the index reset, and nothing is reported (`None`). Otherwise
   the reported flag says whether a path was found; a found path runs
   from `here` to the target through neighbouring non-wall cells, and on a
   grid of at most 99999 cells one is found whenever the target can be
   reached through non-wall cells.
   */
  method UpdatePath(g: Grid, a: Agent, here: Pos) returns (r: Agent, ok: Option<bool>)
    ensures a.target == None ==> r == Agent(None, [], 0) && ok == None
    ensures a.target != None ==> ok != None && r.target == a.target
    ensures ok != None ==> (ok.value <==> r.path != [])
    ensures ok == Some(true) ==> r.pathIndex == 0
    ensures ok == Some(false) ==> r.pathIndex == a.pathIndex
    ensures ok == Some(true) ==> CellOf(r.path[0]) == here && CellOf(r.path[|r.path| - 1]) == a.target.value
    ensures forall i :: 0 <= i < |r.path| - 1 ==> IsNeighbor(g, CellOf(r.path[i]), CellOf(r.path[i + 1]), false)
    ensures (a.target != None && InBounds(g, here) && InBounds(g, a.target.value) && !WallAt(g, a.target.value) &&
             g.size * g.size <= UnreachedScore && Reachable(Traversal(g, false), {here}, a.target.value)) ==> ok == Some(true)
  {
    if a.target == None {
      return a.(path := [], pathIndex := 0), None;
    }
    var s := FindPath(g, here, a.target.value);
    var followed := Follow(a, s.path);
    r := followed.0;
    ok := Some(followed.1);
  }

  /**
   `set_target`: a cell off the grid or a wall is refused and the agent is
   left exactly as it was. Any other cell becomes the target, the path is
   recomputed, and the request is accepted whether or not a path exists;
   on a grid of at most 99999 cells a reachable target gets a path.
   */
  method SetTarget(g: Grid, a: Agent, here: Pos, x: int, y: int) returns (r: Agent, accepted: bool)
    ensures accepted <==> IsValidPosition(g, x, y) && !WallAt(g, Pos(x, y))
    ensures !accepted ==> r == a
    ensures accepted ==> r.target == Some(Pos(x, y))
    ensures accepted && r.path == [] ==> r.pathIndex == a.pathIndex
    ensures accepted && r.path != [] ==>
      r.pathIndex == 0 && CellOf(r.path[0]) == here && CellOf(r.path[|r.path| - 1]) == Pos(x, y)
    ensures forall i :: 0 <= i < |r.path| - 1 ==> accepted ==> IsNeighbor(g, CellOf(r.path[i]), CellOf(r.path[i + 1]), false)
    ensures (accepted && InBounds(g, here) && g.size * g.size <= UnreachedScore &&
             Reachable(Traversal(g, false), {here}, Pos(x, y))) ==> r.path != []
    ensures accepted ==> Pursues(g, here, r, Pos(x, y))
  {
    if !IsValidPosition(g, x, y) {
      return a, false;
    }
    var node := GetNode(g, x, y);
    if node.Some? && !node.value.isWall {
      var found;
      r, found := UpdatePath(g, a.(target := Some(Pos(x, y))), here);
      return r, true;
    }
    return a, false;
  }
}
