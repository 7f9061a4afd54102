/** The unit moves of the grid (the Actions class, present twice in the
    repository with the same content). */
module Actions {
  import opened Common

  const UP: Cell := (0, -1)
  const LEFT: Cell := (-1, 0)
  const RIGHT: Cell := (1, 0)
  const DOWN: Cell := (0, 1)

  const LEFT_UP: Cell := (-1, -1)
  const LEFT_DOWN: Cell := (-1, 1)
  const RIGHT_UP: Cell := (1, -1)
  const RIGHT_DOWN: Cell := (1, 1)

  const ACTIONS_SIMPLE: seq<Cell> := [LEFT, RIGHT, DOWN, UP]
  const ACTIONS_DIAG: seq<Cell> := [LEFT_UP, LEFT_DOWN, RIGHT_UP, RIGHT_DOWN]
  const ACTIONS_ALL: seq<Cell> := ACTIONS_SIMPLE + ACTIONS_DIAG

  /** A step of at most one in each coordinate. */
  predicate UnitStep(d: Cell)
  {
    -1 <= d.0 <= 1 && -1 <= d.1 <= 1
  }

  /** The simple actions are exactly the four orthogonal unit steps. */
  lemma SimpleAreOrthogonal()
    ensures |ACTIONS_SIMPLE| == 4 && NoDup(ACTIONS_SIMPLE)
    ensures forall d :: d in ACTIONS_SIMPLE <==> UnitStep(d) && (if d.0 < 0 then -d.0 else d.0) + (if d.1 < 0 then -d.1 else d.1) == 1
  {
  }

  /** The diagonal actions are exactly the four diagonal unit steps. */
  lemma DiagAreDiagonal()
    ensures |ACTIONS_DIAG| == 4 && NoDup(ACTIONS_DIAG)
    ensures forall d :: d in ACTIONS_DIAG <==> UnitStep(d) && d.0 != 0 && d.1 != 0
  {
  }

  /** All actions: the eight distinct unit steps, none of them standing still. */
  lemma AllAreUnitMoves()
    ensures |ACTIONS_ALL| == 8 && NoDup(ACTIONS_ALL)
    ensures forall d :: d in ACTIONS_ALL <==> UnitStep(d) && d != (0, 0)
    ensures (0, 0) !in ACTIONS_ALL
  {
    SimpleAreOrthogonal();
    DiagAreDiagonal();
  }
}
