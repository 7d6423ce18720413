/**
 The per-frame visibility pass: every cell is marked seen by an agent
 exactly when the line from the cell towards the agent's cell holds no wall.
 */
module Visibility {
  import opened GridNode
  import opened GridModel
  import opened LineOfSight

  /**
   `update_visibility`: recomputes both seen flags of every cell from the
   line-of-sight test, and changes nothing else.
   */
  function UpdateVisibility(g: Grid, seekerCell: Pos, hiderCell: Pos): (r: Grid)
    ensures r.size == g.size
    ensures forall p :: InBounds(g, p) ==>
      && At(r, p).seenBySeeker == !WallOnLine(g, p, seekerCell)
      && At(r, p).seenByHider == !WallOnLine(g, p, hiderCell)
    ensures forall p :: InBounds(g, p) ==>
      At(r, p) == At(g, p).(seenBySeeker := At(r, p).seenBySeeker, seenByHider := At(r, p).seenByHider)
  {
    RawGrid(g.size, seq(g.size, y requires 0 <= y < g.size =>
      seq(g.size, x requires 0 <= x < g.size =>
        g.nodes[y][x].(seenBySeeker := !WallOnLine(g, Pos(x, y), seekerCell),
                       seenByHider := !WallOnLine(g, Pos(x, y), hiderCell)))))
  }

  /** The seeker always sees its own cell, and the hider its own. */
  lemma OwnCellSeen(g: Grid, seekerCell: Pos, hiderCell: Pos)
    ensures InBounds(g, seekerCell) ==> At(UpdateVisibility(g, seekerCell, hiderCell), seekerCell).seenBySeeker
    ensures InBounds(g, hiderCell) ==> At(UpdateVisibility(g, seekerCell, hiderCell), hiderCell).seenByHider
  {
  }

  /** A wall cell is unseen by the seeker unless the seeker stands on it: the line starts on that wall. */
  lemma WallCellsUnseen(g: Grid, seekerCell: Pos, hiderCell: Pos, p: Pos)
    requires WallAt(g, p) && p != seekerCell
    ensures !At(UpdateVisibility(g, seekerCell, hiderCell), p).seenBySeeker
  {
    assert Line(p, seekerCell)[0] == p;
  }

  /** With no walls at all every cell is seen by both agents. */
  lemma ClearedGridAllSeen(g: Grid, seekerCell: Pos, hiderCell: Pos, p: Pos)
    requires InBounds(g, p)
    ensures At(UpdateVisibility(Clear(g), seekerCell, hiderCell), p).seenBySeeker
    ensures At(UpdateVisibility(Clear(g), seekerCell, hiderCell), p).seenByHider
  {
  }

  /** The pass reads walls only, so running it twice gives what running it once gives. */
  lemma UpdateVisibilityIdempotent(g: Grid, seekerCell: Pos, hiderCell: Pos)
    ensures UpdateVisibility(UpdateVisibility(g, seekerCell, hiderCell), seekerCell, hiderCell)
         == UpdateVisibility(g, seekerCell, hiderCell)
  {
    var r := UpdateVisibility(g, seekerCell, hiderCell);
    forall p0, p1 ensures WallOnLine(r, p0, p1) <==> WallOnLine(g, p0, p1) {
      assert forall c :: WallAt(r, c) <==> WallAt(g, c);
    }
    SameCellsSameGrid(UpdateVisibility(r, seekerCell, hiderCell), r);
  }
}
