/**
 One cell of the grid: its coordinates, its wall flag, the two visibility
 flags, and the scratch fields the path search writes into it.
 */
module GridNode {
  import opened Wrappers

  /** A cell coordinate. Cells are identified by it alone. */
  datatype Pos = Pos(x: int, y: int)

  /** The g-score of a cell no search has reached yet. */
  const UnreachedScore: int := 99999

  datatype Node = Node(
    x: int,
    y: int,
    isWall: bool,
    gScore: int,
    hScore: int,
    cameFrom: Option<Pos>,
    seenByHider: bool,
    seenBySeeker: bool,
    stench: bool)
  {
    /** The coordinate pair of the cell. */
    function Position(): Pos
    {
      Pos(x, y)
    }

    /** Path cost so far plus the heuristic estimate. */
    function FScore(): (f: int)
      ensures IsReset() ==> f == UnreachedScore
    {
      gScore + hScore
    }

    /** The search scratch state every cell holds between searches. */
    predicate IsReset()
    {
      gScore == UnreachedScore && hScore == 0 && cameFrom == None
    }

    /** Clears the search scratch state and nothing else. */
    function ResetPathData(): (n: Node)
      ensures n.IsReset()
      ensures n.x == x && n.y == y && n.isWall == isWall
      ensures n.seenByHider == seenByHider && n.seenBySeeker == seenBySeeker && n.stench == stench
    {
      this.(gScore := UnreachedScore, hScore := 0, cameFrom := None)
    }
  }

  /** A freshly built cell: visible to both agents and with no search state. */
  function NewNode(x: int, y: int, isWall: bool): (n: Node)
    ensures n.Position() == Pos(x, y) && n.isWall == isWall
    ensures n.IsReset()
    ensures n.seenByHider && n.seenBySeeker && !n.stench
  {
    Node(x, y, isWall, UnreachedScore, 0, None, true, true, false)
  }

  /** The priority order of the open set: by f-score alone. */
  predicate Less(a: Node, b: Node)
  {
    a.FScore() < b.FScore()
  }

  /** Cell equality: the coordinates, nothing else. */
  predicate SameCell(a: Node, b: Node)
  {
    a.x == b.x && a.y == b.y
  }

  /** What a cell is hashed by. */
  function Hash(n: Node): Pos
  {
    n.Position()
  }

  /** Equal cells hash equally, and equality ignores every field but the coordinates. */
  lemma SameCellHashesEqual(a: Node, b: Node)
    requires SameCell(a, b)
    ensures Hash(a) == Hash(b)
    ensures SameCell(a.ResetPathData(), b)
    ensures forall w, s, h :: SameCell(a.(isWall := w, seenBySeeker := s, seenByHider := h), b)
  {
  }

  /** Two cells are the same cell exactly when their positions agree. */
  lemma SameCellIsSamePosition(a: Node, b: Node)
    ensures SameCell(a, b) <==> a.Position() == b.Position()
  {
  }

  /** `Less` is a strict order that looks at the f-score only. */
  lemma LessIsStrictOrder(a: Node, b: Node, c: Node)
    ensures !Less(a, a)
    ensures Less(a, b) && Less(b, c) ==> Less(a, c)
    ensures Less(a, b) ==> !Less(b, a)
    ensures a.FScore() == b.FScore() ==> (Less(a, c) <==> Less(b, c))
  {
  }
}
