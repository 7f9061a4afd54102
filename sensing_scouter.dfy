/** The sensing scouter: it looks at the squares within its sightline,
    aims at one of least intensity, plans a path there through a cost
    matrix that makes low-trail squares cheap to avoid, and follows it. */
module SensingScouterModel {
  import opened Common
  import opened Shared
  import opened Pathing
  import SimulationBoard

  /** Traversal cost of a square for a scouter: (1 + 255 - intensity) * 1.5
      on trail, 510 on a touched square with no trail left, 1 elsewhere. */
  function ScoutCost(b: real, t: bool): real
  {
    if b > 0.0 then (1.0 + SimulationBoard.MAX_BLOB - b) * 1.5
    else if t then SimulationBoard.MAX_BLOB * 2.0
    else 1.0
  }

  /** Every cost is positive and the three bands do not overlap; a stronger
      trail is cheaper to cross. */
  lemma ScoutCostBands(b: real, t: bool, b2: real)
    requires SimulationBoard.MIN_BLOB <= b <= SimulationBoard.MAX_BLOB
    ensures ScoutCost(b, t) > 0.0
    ensures b > 0.0 ==> 1.5 <= ScoutCost(b, t) < 384.0
    ensures b <= 0.0 ==> ScoutCost(b, t) == (if t then 510.0 else 1.0)
    ensures 0.0 < b < b2 ==> ScoutCost(b2, t) < ScoutCost(b, t)
  {
  }

  /** The sightline window of a scouter at pos. */
  function Window(b: SimulationBoard.Board, pos: Cell, s: int): Rect
    requires b.Valid() && On(pos, b.width, b.height) && s >= 0
    reads b
  {
    SightWindow(pos.0, pos.1, s, b.width, b.height)
  }

  /** Cells paired with their intensity. */
  function Scored(b: SimulationBoard.Board, cs: seq<Cell>): (ps: seq<(Cell, real)>)
    requires b.Valid() && forall i :: 0 <= i < |cs| ==> 0 <= cs[i].0 < b.width && 0 <= cs[i].1 < b.height
    reads b, b.blob
    ensures |ps| == |cs| && forall i :: 0 <= i < |cs| ==> ps[i] == (cs[i], b.blob[cs[i].0, cs[i].1])
  {
    if cs == [] then [] else [(cs[0], b.blob[cs[0].0, cs[0].1])] + Scored(b, cs[1..])
  }

  /** The window's cells with the agent's own square masked out. */
  function Unmasked(b: SimulationBoard.Board, pos: Cell, s: int): (cs: seq<Cell>)
    requires b.Valid() && On(pos, b.width, b.height) && s >= 0
    reads b
    ensures forall c :: c in cs <==> Window(b, pos, s).Contains(c) && c != pos
    ensures forall i :: 0 <= i < |cs| ==> 0 <= cs[i].0 < b.width && 0 <= cs[i].1 < b.height
  {
    var cs := Without(Cells(Window(b, pos, s)), pos);
    WithoutMembers(Cells(Window(b, pos, s)), pos);
    cs
  }

  /** On a board of more than one square some other square is in sight. */
  lemma NeighbourInSight(b: SimulationBoard.Board, pos: Cell, s: int)
    requires b.Valid() && On(pos, b.width, b.height) && s >= 1
    ensures Unmasked(b, pos, s) == [] <==> b.width == 1 && b.height == 1
  {
    if b.width == 1 && b.height == 1 {
      LoneSquare(b, pos, s);
    } else {
      var n := Neighbour(pos, b.width, b.height);
      assert Window(b, pos, s).Contains(n);
      assert n in Unmasked(b, pos, s);
    }
  }

  /** On a single-square board the window holds only the agent's square. */
  lemma LoneSquare(b: SimulationBoard.Board, pos: Cell, s: int)
    requires b.Valid() && On(pos, b.width, b.height) && s >= 0
    requires b.width == 1 && b.height == 1
    ensures Unmasked(b, pos, s) == []
  {
    var win := Window(b, pos, s);
    assert win == Rect(0, 0, 1, 1) && pos == (0, 0);
    assert Cells(win) == [(0, 0)] by {
      assert Cells(Rect(0, 0, 0, 1)) == [];
      assert Column(0, 0, 0) == [];
    }
    assert Without([(0, 0)], (0, 0)) == Without([], (0, 0));
  }

  /** A square next to pos, on a board of more than one square. */
  function Neighbour(pos: Cell, w: int, h: int): (n: Cell)
    requires On(pos, w, h) && (w > 1 || h > 1)
    ensures On(n, w, h) && n != pos
    ensures pos.0 - 1 <= n.0 <= pos.0 + 1 && pos.1 - 1 <= n.1 <= pos.1 + 1
  {
    if w > 1 then (if pos.0 + 1 < w then (pos.0 + 1, pos.1) else (pos.0 - 1, pos.1))
    else (if pos.1 + 1 < h then (pos.0, pos.1 + 1) else (pos.0, pos.1 - 1))
  }

  /** The minimum of a non-empty scored list is reached by some cell. */
  lemma MinimaNonEmpty(ps: seq<(Cell, real)>)
    requires |ps| > 0
    ensures |AtScore(ps, MinScore(ps))| > 0
  {
    var i :| 0 <= i < |ps| && ps[i].1 == MinScore(ps);
    assert ps[i] == (ps[i].0, MinScore(ps));
    assert ps[i].0 in AtScore(ps, MinScore(ps));
  }

  /** choose_goal: among the squares in sight other than its own, one of
      least intensity, the pick-th of them in numpy's order (pick stands for
      the draw of np.random.randint); None when no other square is in sight. */
  function LocalGoal(b: SimulationBoard.Board, pos: Cell, s: int, pick: nat): (r: Option<Cell>)
    requires b.Valid() && On(pos, b.width, b.height) && s >= 1
    reads b, b.blob
    ensures r.None? <==> b.width == 1 && b.height == 1
    ensures r.Some? ==> Window(b, pos, s).Contains(r.value) && r.value != pos
    ensures r.Some? ==> forall c :: Window(b, pos, s).Contains(c) && c != pos ==>
      b.blob[r.value.0, r.value.1] <= b.blob[c.0, c.1]
  {
    NeighbourInSight(b, pos, s);
    var cs := Unmasked(b, pos, s);
    var ps := Scored(b, cs);
    if ps == [] then None
    else
      var m := MinScore(ps);
      var mins := AtScore(ps, m);
      MinimaNonEmpty(ps);
      var g := mins[pick % |mins|];
      LeastOfScored(b, cs, m, g);
      Some(g)
  }

  /** A cell scored at the minimum has the least intensity of the list. */
  lemma LeastOfScored(b: SimulationBoard.Board, cs: seq<Cell>, m: real, g: Cell)
    requires b.Valid() && forall i :: 0 <= i < |cs| ==> 0 <= cs[i].0 < b.width && 0 <= cs[i].1 < b.height
    requires |cs| > 0 && m == MinScore(Scored(b, cs)) && g in AtScore(Scored(b, cs), m)
    ensures g in cs
    ensures forall c :: c in cs ==> b.blob[g.0, g.1] <= b.blob[c.0, c.1]
  {
    var ps := Scored(b, cs);
    var k :| 0 <= k < |ps| && ps[k] == (g, m);
    assert cs[k] == g;
    forall c | c in cs ensures b.blob[g.0, g.1] <= b.blob[c.0, c.1] {
      var j :| 0 <= j < |cs| && cs[j] == c;
      assert ps[j].1 == b.blob[c.0, c.1];
    }
  }

  /** The path a scouter at pos plans toward g: the search run on the cost
      matrix of its window from its own square to g, trimmed and shifted
      back to board coordinates. */
  function ScoutPlan(b: SimulationBoard.Board, pos: Cell, s: int, diag: bool, g: Cell, find: Finder): seq<Cell>
    requires b.Valid() && On(pos, b.width, b.height) && s >= 0
    reads b, b.blob, b.touched
  {
    var win := Window(b, pos, s);
    Trimmed(find(CostsOf(b, win, ScoutCost), Local(pos, win.x0, win.y0), Local(g, win.x0, win.y0), diag),
            win.x0, win.y0)
  }

  /** A planned path stays in the window, and reaches g when g is in it. */
  lemma ScoutPlanInWindow(b: SimulationBoard.Board, pos: Cell, s: int, diag: bool, g: Cell, find: Finder)
    requires b.Valid() && On(pos, b.width, b.height) && s >= 0 && FinderContract(find)
    ensures var p := ScoutPlan(b, pos, s, diag, g, find);
      (forall i :: 0 <= i < |p| ==> Window(b, pos, s).Contains(p[i])) &&
      (|p| > 0 && Window(b, pos, s).Contains(g) ==> p[|p| - 1] == g)
  {
    var win := Window(b, pos, s);
    SearchInWindow(CostsOf(b, win, ScoutCost), Local(pos, win.x0, win.y0), Local(g, win.x0, win.y0), diag, find, win);
  }

  /** best_way_to: build the cost matrix, run the search, trim and shift. */
  method BestWayTo(b: SimulationBoard.Board, pos: Cell, s: int, diag: bool, g: Cell, find: Finder)
    returns (p: seq<Cell>)
    requires b.Valid() && On(pos, b.width, b.height) && s >= 1
    ensures p == ScoutPlan(b, pos, s, diag, g, find)
  {
    var win := Window(b, pos, s);
    var m := CostMatrix(b, win, ScoutCost);
    var raw := find(m, Local(pos, win.x0, win.y0), Local(g, win.x0, win.y0), diag);
    p := TrimAndShift(raw, win.x0, win.y0);
  }

  /** With light compute, a kept path ends on the kept goal. */
  predicate Tracks(light: bool, goal: Option<Cell>, path: seq<Cell>)
  {
    light && goal.Some? ==> |path| > 0 && path[|path| - 1] == goal.value
  }

  /** The path a scouter follows toward g leads there: a path it plans is
      aimed at a goal in sight, and a path it keeps ends on the goal. */
  predicate Leads(win: Rect, g: Cell, kept: seq<Cell>, light: bool)
  {
    if kept == [] || !light then win.Contains(g) else kept[|kept| - 1] == g
  }

  /** The path a move follows: a fresh plan when nothing is kept or light
      compute is off, the kept path otherwise. */
  function Plan(b: SimulationBoard.Board, pos: Cell, s: int, diag: bool, light: bool,
                g: Cell, kept: seq<Cell>, find: Finder): seq<Cell>
    requires b.Valid() && On(pos, b.width, b.height) && s >= 1
    reads b, b.blob, b.touched
  {
    if kept == [] || !light then ScoutPlan(b, pos, s, diag, g, find) else kept
  }

  /** The path a move follows stays on the board, and ends on the goal when
      the goal leads it. */
  lemma PlanSpec(b: SimulationBoard.Board, pos: Cell, s: int, diag: bool, light: bool,
                 g: Cell, kept: seq<Cell>, find: Finder)
    requires b.Valid() && On(pos, b.width, b.height) && s >= 1 && FinderContract(find)
    requires AllOn(kept, b.width, b.height)
    ensures var p := Plan(b, pos, s, diag, light, g, kept, find);
      AllOn(p, b.width, b.height) &&
      (Leads(Window(b, pos, s), g, kept, light) && p != [] ==> p[|p| - 1] == g)
  {
    if kept == [] || !light {
      var win := Window(b, pos, s);
      var p := ScoutPlan(b, pos, s, diag, g, find);
      ScoutPlanInWindow(b, pos, s, diag, g, find);
      forall i | 0 <= i < |p| ensures 0 <= p[i].0 < b.width && 0 <= p[i].1 < b.height {
        assert win.Contains(p[i]);
      }
    }
  }

  /** The second half of move, once the goal g is known: plan when nothing
      is kept or light compute is off, then step. */
  function Proceed(b: SimulationBoard.Board, pos: Cell, s: int, diag: bool, light: bool,
                   g: Cell, kept: seq<Cell>, find: Finder): Course
    requires b.Valid() && On(pos, b.width, b.height) && s >= 1
    reads b, b.blob, b.touched
  {
    Follow(pos, g, Plan(b, pos, s, diag, light, g, kept, find))
  }

  /** The second half of move computed: plan (or keep the path), then step. */
  method ProceedStep(b: SimulationBoard.Board, pos: Cell, s: int, diag: bool, light: bool,
                     g: Cell, kept: seq<Cell>, find: Finder) returns (c: Course)
    requires b.Valid() && On(pos, b.width, b.height) && s >= 1
    ensures c == old(Proceed(b, pos, s, diag, light, g, kept, find))
  {
    var p := kept;
    if kept == [] || !light {
      p := BestWayTo(b, pos, s, diag, g, find);
    }
    c := Follow(pos, g, p);
  }

  /** A step keeps the agent and its path on the board, and a path that
      leads to the goal still does after the step. */
  lemma ProceedSpec(b: SimulationBoard.Board, pos: Cell, s: int, diag: bool, light: bool,
                    g: Cell, kept: seq<Cell>, find: Finder)
    requires b.Valid() && On(pos, b.width, b.height) && s >= 1 && FinderContract(find)
    requires AllOn(kept, b.width, b.height)
    ensures var c := Proceed(b, pos, s, diag, light, g, kept, find);
      On(c.pos, b.width, b.height) && AllOn(c.path, b.width, b.height) &&
      (c.goal.Some? ==> c.goal == Some(g)) &&
      (Leads(Window(b, pos, s), g, kept, light) && c.goal.Some? ==> |c.path| > 0 && c.path[|c.path| - 1] == g)
  {
    PlanSpec(b, pos, s, diag, light, g, kept, find);
    FollowStaysOn(pos, g, Plan(b, pos, s, diag, light, g, kept, find), b.width, b.height);
  }

  /** The goal a scouter pursues: the kept one, or a fresh local goal. */
  function Pursuit(b: SimulationBoard.Board, pos: Cell, s: int, goal: Option<Cell>, pick: nat): (g: Cell)
    requires b.Valid() && On(pos, b.width, b.height) && s >= 1
    requires goal.None? ==> b.width > 1 || b.height > 1
    reads b, b.blob
    ensures goal.None? ==> Window(b, pos, s).Contains(g)
    ensures goal.Some? ==> g == goal.value
  {
    if goal.None? then LocalGoal(b, pos, s, pick).value else goal.value
  }

  /** Where one move takes a scouter at pos with the given goal and path:
      the goal is pursued along the kept path, which a fresh goal empties. */
  ghost function Scout(b: SimulationBoard.Board, pos: Cell, s: int, diag: bool, light: bool,
                       goal: Option<Cell>, path: seq<Cell>, pick: nat, find: Finder): Course
    requires b.Valid() && On(pos, b.width, b.height) && s >= 1
    requires goal.None? ==> b.width > 1 || b.height > 1
    reads b, b.blob, b.touched
  {
    Proceed(b, pos, s, diag, light, Pursuit(b, pos, s, goal, pick), if goal.None? then [] else path, find)
  }

  /** A move keeps the scouter and its path on the board, and with light
      compute a path that led to the goal still does. */
  lemma ScoutSpec(b: SimulationBoard.Board, pos: Cell, s: int, diag: bool, light: bool,
                  goal: Option<Cell>, path: seq<Cell>, pick: nat, find: Finder)
    requires b.Valid() && On(pos, b.width, b.height) && s >= 1 && FinderContract(find)
    requires AllOn(path, b.width, b.height)
    requires goal.None? ==> b.width > 1 || b.height > 1
    ensures var n := Scout(b, pos, s, diag, light, goal, path, pick, find);
      Lands(n, b.width, b.height) && (Tracks(light, goal, path) ==> Tracks(light, n.goal, n.path))
  {
    var g := Pursuit(b, pos, s, goal, pick);
    var kept := if goal.None? then [] else path;
    ProceedSpec(b, pos, s, diag, light, g, kept, find);
    if Tracks(light, goal, path) {
      assert light ==> Leads(Window(b, pos, s), g, kept, light);
    }
  }

  /** A move computed: the goal, then the plan and the step. */
  method ScoutStep(b: SimulationBoard.Board, pos: Cell, s: int, diag: bool, light: bool,
                   goal: Option<Cell>, path: seq<Cell>, pick: nat, find: Finder) returns (c: Course)
    requires b.Valid() && On(pos, b.width, b.height) && s >= 1
    requires goal.None? ==> b.width > 1 || b.height > 1
    ensures c == old(Scout(b, pos, s, diag, light, goal, path, pick, find))
  {
    var g := Pursuit(b, pos, s, goal, pick);
    c := ProceedStep(b, pos, s, diag, light, g, if goal.None? then [] else path, find);
  }

  class SensingScouter {
    const board: SimulationBoard.Board
    const drop: real
    const useDiagonal: bool
    const sightSee: int
    const lightCompute: bool
    var x: int
    var y: int
    var goal: Option<Cell>
    var path: seq<Cell>

    ghost predicate Valid()
      reads this, board
    {
      board.Valid() && board.Inside(x, y) && sightSee >= 1 && AllOn(path, board.width, board.height)
    }

    /** With light compute, the kept path always leads to the goal. */
    ghost predicate Tracking()
      reads this
    {
      Tracks(lightCompute, goal, path)
    }

    /** A sightline that is not positive becomes 1; no goal, no path. */
    constructor (board: SimulationBoard.Board, config: Config, x: int, y: int,
                 useDiagonal: bool, sightline: int, lightCompute: bool)
      requires board.Valid() && board.Inside(x, y)
      ensures Valid() && Tracking()
      ensures this.board == board && this.x == x && this.y == y && drop == config.dropByEat
      ensures this.useDiagonal == useDiagonal && this.lightCompute == lightCompute
      ensures sightSee == if sightline > 0 then sightline else 1
      ensures goal == None && path == []
    {
      this.board := board;
      this.x, this.y := x, y;
      drop := config.dropByEat;
      this.useDiagonal := useDiagonal;
      sightSee := if sightline > 0 then sightline else 1;
      this.lightCompute := lightCompute;
      goal, path := None, [];
    }

    /** Where one move takes the scouter. */
    ghost function Next(pick: nat, find: Finder): Course
      requires Valid() && (goal.None? ==> board.width > 1 || board.height > 1)
      reads this, board, board.blob, board.touched
    {
      Scout(board, (x, y), sightSee, useDiagonal, lightCompute, goal, path, pick, find)
    }

    /** A move keeps the scouter and its path on the board, and with light
        compute the kept path still leads to the goal. */
    lemma NextSpec(pick: nat, find: Finder)
      requires Valid() && FinderContract(find)
      requires goal.None? ==> board.width > 1 || board.height > 1
      ensures var n := Next(pick, find);
        Lands(n, board.width, board.height) && (Tracking() ==> Tracks(lightCompute, n.goal, n.path))
    {
      ScoutSpec(board, (x, y), sightSee, useDiagonal, lightCompute, goal, path, pick, find);
    }

    /** move: pick a goal when there is none (the source reads goal[0]
        before testing for None, so a board of a single square, where no
        goal exists, is excluded), plan when there is no path or light
        compute is off, then step along the path. */
    method Move(pick: nat, find: Finder)
      requires Valid() && FinderContract(find)
      requires goal.None? ==> board.width > 1 || board.height > 1
      modifies this
      ensures Valid()
      ensures old(Tracking()) ==> Tracking()
      ensures Course((x, y), goal, path) == old(Next(pick, find))
    {
      ghost var tracking := Tracking();
      ghost var expected := Next(pick, find);
      NextSpec(pick, find);
      assert Lands(expected, board.width, board.height) && (tracking ==> Tracks(lightCompute, expected.goal, expected.path));
      var next := ScoutStep(board, (x, y), sightSee, useDiagonal, lightCompute, goal, path, pick, find);
      assert next == expected;
      Apply(next);
    }

    /** The effect of a move: the scouter takes the computed position, goal
        and path. */
    method Apply(next: Course)
      requires Valid() && Lands(next, board.width, board.height)
      modifies this
      ensures Valid()
      ensures x == next.pos.0 && y == next.pos.1 && goal == next.goal && path == next.path
    {
      x, y, goal, path := next.pos.0, next.pos.1, next.goal, next.path;
    }

    /** reset: no goal, no path, back to (0, 0). */
    method Reset()
      requires Valid()
      modifies this
      ensures Valid() && Tracking()
      ensures goal == None && path == [] && x == 0 && y == 0
    {
      goal, path := None, [];
      x, y := 0, 0;
    }
  }

  /** A fresh goal lies in sight, so the first plan toward it ends on it:
      with light compute the kept path then always leads to the goal. */
  lemma FreshPlanTracks(b: SimulationBoard.Board, pos: Cell, s: int, diag: bool, pick: nat, find: Finder)
    requires b.Valid() && On(pos, b.width, b.height) && s >= 1 && FinderContract(find) && (b.width > 1 || b.height > 1)
    ensures var g := LocalGoal(b, pos, s, pick).value;
      var p := ScoutPlan(b, pos, s, diag, g, find);
      p == [] || p[|p| - 1] == g
  {
    var g := LocalGoal(b, pos, s, pick).value;
    assert Window(b, pos, s).Contains(g);
    ScoutPlanInWindow(b, pos, s, diag, g, find);
  }
}
