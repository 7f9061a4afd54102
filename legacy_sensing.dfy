/** The first trail-following scout (blob/sensing_scouter.py): it looks at
    the four orthogonal neighbours on the legacy board and steps to one of
    those with the lowest intensity, drawn at random among the ties. The
    base class it extends (blob/dumb_scouter.py) is not part of this model;
    only the fields move uses are kept. */
module LegacySensingModel {
  import opened Common
  import Actions
  import LegacyBoard

  /** The loop of move over the directions ds, from the left: the
      directions kept so far and the lowest intensity seen, starting from
      MAX_BLOB + 1. A direction off the board is skipped; one with a lower
      intensity restarts the list; a tie joins it. */
  function Scan(b: LegacyBoard.Board, x: int, y: int, ds: seq<Cell>): (seq<Cell>, real)
    reads b, b.cells
    requires b.Valid()
  {
    if ds == [] then ([], LegacyBoard.MAX_BLOB + 1.0)
    else
      var (kept, low) := Scan(b, x, y, ds[..|ds| - 1]);
      var d := ds[|ds| - 1];
      var v := b.GetBlob(x + d.0, y + d.1);
      if b.Inside(x + d.0, y + d.1) && v.Some? then
        if v.value < low then ([d], v.value)
        else if v.value == low then (kept + [d], low)
        else (kept, low)
      else (kept, low)
  }

  /** The intensity of the neighbour of (x, y) in direction d. */
  function Toward(b: LegacyBoard.Board, x: int, y: int, d: Cell): real
    reads b, b.cells
    requires b.Valid() && b.Inside(x + d.0, y + d.1)
  {
    b.cells[x + d.0, y + d.1].blob
  }

  /** What the loop computes: the lowest intensity among the directions of
      ds that stay on the board (capped at MAX_BLOB + 1), and exactly those
      directions that reach it. */
  lemma {:induction false} ScanSpec(b: LegacyBoard.Board, x: int, y: int, ds: seq<Cell>)
    requires b.Valid()
    ensures var (kept, low) := Scan(b, x, y, ds);
      low <= LegacyBoard.MAX_BLOB + 1.0 &&
      (forall d :: d in ds && b.Inside(x + d.0, y + d.1) ==> low <= Toward(b, x, y, d)) &&
      (forall d :: d in kept <==> d in ds && b.Inside(x + d.0, y + d.1) && Toward(b, x, y, d) == low) &&
      (low < LegacyBoard.MAX_BLOB + 1.0 ==> kept != [])
  {
    if ds != [] {
      var init := ds[..|ds| - 1];
      var d := ds[|ds| - 1];
      ScanSpec(b, x, y, init);
      assert ds == init + [d];
      var (kept0, low0) := Scan(b, x, y, init);
      var (kept, low) := Scan(b, x, y, ds);
      assert forall e :: e in ds <==> e in init || e == d;
      if b.Inside(x + d.0, y + d.1) {
        var v := Toward(b, x, y, d);
        if v < low0 {
          assert kept == [d] && low == v;
        } else if v == low0 {
          assert kept == kept0 + [d] && low == low0;
        } else {
          assert kept == kept0 && low == low0;
        }
      } else {
        assert kept == kept0 && low == low0;
      }
    }
  }

  class SensingScouter {
    const board: LegacyBoard.Board
    var x: int
    var y: int

    ghost predicate Valid()
      reads this, board
    {
      board.Valid() && board.Inside(x, y)
    }

    constructor (board: LegacyBoard.Board, x: int, y: int)
      requires board.Valid() && board.Inside(x, y)
      ensures Valid() && this.board == board && this.x == x && this.y == y
    {
      this.board := board;
      this.x := x;
      this.y := y;
    }

    /** move: the directions of ACTIONS_SIMPLE are scanned in order, and the
        scout takes the kept direction drawn by pick (randrange over the
        kept list), or stays when none is kept. */
    method Move(pick: nat)
      requires Valid()
      modifies this
      ensures Valid()
      ensures var (kept, low) := old(Scan(board, x, y, Actions.ACTIONS_SIMPLE));
        if kept == [] then x == old(x) && y == old(y)
        else (x - old(x), y - old(y)) == kept[pick % |kept|]
    {
      var kept: seq<Cell> := [];
      var low := LegacyBoard.MAX_BLOB + 1.0;
      var ds := Actions.ACTIONS_SIMPLE;
      var i := 0;
      while i < |ds|
        invariant 0 <= i <= |ds|
        invariant (kept, low) == Scan(board, x, y, ds[..i])
      {
        assert ds[..i + 1][..i] == ds[..i];
        var d := ds[i];
        if board.Inside(x + d.0, y + d.1) {
          var v := board.GetBlob(x + d.0, y + d.1);
          if v.Some? {
            if v.value < low {
              kept := [d];
              low := v.value;
            } else if v.value == low {
              kept := kept + [d];
            }
          }
        }
        i := i + 1;
      }
      assert ds[..i] == ds;
      if |kept| != 0 {
        ScanSpec(board, x, y, ds);
        var d := kept[pick % |kept|];
        x := x + d.0;
        y := y + d.1;
      }
    }
  }

  /** The step move takes: when one is taken, it is a single orthogonal
      step onto the board, to a neighbour whose intensity is the lowest
      among the orthogonal neighbours on the board; on a bounded board a
      step is taken whenever some orthogonal neighbour lies on the board. */
  lemma MoveSpec(b: LegacyBoard.Board, x: int, y: int, pick: nat)
    requires b.Valid() && b.Inside(x, y)
    ensures var (kept, low) := Scan(b, x, y, Actions.ACTIONS_SIMPLE);
      kept != [] ==> var d := kept[pick % |kept|];
        d in Actions.ACTIONS_SIMPLE && (if d.0 < 0 then -d.0 else d.0) + (if d.1 < 0 then -d.1 else d.1) == 1 &&
        b.Inside(x + d.0, y + d.1) &&
        forall e :: e in Actions.ACTIONS_SIMPLE && b.Inside(x + e.0, y + e.1) ==>
          Toward(b, x, y, d) <= Toward(b, x, y, e)
    ensures var (kept, low) := Scan(b, x, y, Actions.ACTIONS_SIMPLE);
      b.Bounded() && (exists e :: e in Actions.ACTIONS_SIMPLE && b.Inside(x + e.0, y + e.1)) ==> kept != []
    ensures var (kept, low) := Scan(b, x, y, Actions.ACTIONS_SIMPLE);
      (forall e :: e in Actions.ACTIONS_SIMPLE ==> !b.Inside(x + e.0, y + e.1)) ==> kept == []
  {
    ScanSpec(b, x, y, Actions.ACTIONS_SIMPLE);
    Actions.SimpleAreOrthogonal();
    var (kept, low) := Scan(b, x, y, Actions.ACTIONS_SIMPLE);
    if kept != [] {
      assert kept[pick % |kept|] in kept;
    }
    if b.Bounded() && exists e :: e in Actions.ACTIONS_SIMPLE && b.Inside(x + e.0, y + e.1) {
      var e :| e in Actions.ACTIONS_SIMPLE && b.Inside(x + e.0, y + e.1);
      assert Toward(b, x, y, e) <= LegacyBoard.MAX_BLOB;
    }
    if kept != [] {
      assert kept[0] in kept;
    }
  }
}
