/** The advanced scouter: a sensing scouter with a local/global state bit.
    In the local state it aims like the sensing scouter; in the global state
    it aims at the square of its window whose neighbourhood carries the least
    trail, to leave an explored region. Stepping on food while global sends
    it back to local search. */
module AdvancedScouterModel {
  import opened Common
  import opened Shared
  import opened Pathing
  import SimulationBoard
  import opened SensingScouterModel

  /** The sub-window scored for the square c: the sightline square around c
      clipped to the outer window. */
  function Neighbourhood(win: Rect, c: Cell, s: int): (r: Rect)
    requires win.Contains(c) && s >= 0
    ensures win.x0 <= r.x0 <= c.0 < r.x1 <= win.x1 && win.y0 <= r.y0 <= c.1 < r.y1 <= win.y1
  {
    Rect(Max(win.x0, c.0 - s), Max(win.y0, c.1 - s), Min(win.x1, c.0 + s + 1), Min(win.y1, c.1 + s + 1))
  }

  /** The global score of c: the trail summed over its neighbourhood, divided
      by the area of the whole window (not of the neighbourhood). */
  function GlobalScore(b: SimulationBoard.Board, win: Rect, s: int, c: Cell): real
    requires b.Valid() && OnBoard(win, b.width, b.height) && win.Contains(c) && s >= 0
    reads b, b.blob
  {
    b.RectSum(Neighbourhood(win, c, s)) / (win.Height() * win.Width()) as real
  }

  /** On a board whose intensities lie in [0, 255], every global score does
      too: a neighbourhood is never larger than the window. */
  lemma GlobalScoreRange(b: SimulationBoard.Board, win: Rect, s: int, c: Cell)
    requires b.Valid() && b.Bounded() && OnBoard(win, b.width, b.height) && win.Contains(c) && s >= 0
    ensures 0.0 <= GlobalScore(b, win, s, c) <= SimulationBoard.MAX_BLOB
  {
    var r := Neighbourhood(win, c, s);
    b.RectSumBounds(r);
    var area := win.Height() * win.Width();
    assert r.Width() * r.Height() <= area by {
      MulMono(r.Width(), win.Width(), r.Height(), win.Height());
    }
    var sum := b.RectSum(r);
    assert 0.0 <= sum <= SimulationBoard.MAX_BLOB * area as real;
    SimulationBoard.DivLe(sum, SimulationBoard.MAX_BLOB * area as real, area as real);
    SimulationBoard.DivLe(0.0, sum, area as real);
    SimulationBoard.MulDiv(SimulationBoard.MAX_BLOB, area as real);
  }

  lemma MulMono(a: int, a2: int, c: int, c2: int)
    requires 0 <= a <= a2 && 0 <= c <= c2
    ensures a * c <= c2 * a2
  {
    assert a * c <= a2 * c;
    assert a2 * c <= a2 * c2;
  }

  /** Cells paired with their global score. */
  function GlobalScored(b: SimulationBoard.Board, win: Rect, s: int, cs: seq<Cell>): (ps: seq<(Cell, real)>)
    requires b.Valid() && OnBoard(win, b.width, b.height) && s >= 0
    requires forall i :: 0 <= i < |cs| ==> win.Contains(cs[i])
    reads b, b.blob
    ensures |ps| == |cs| && forall i :: 0 <= i < |cs| ==> ps[i] == (cs[i], GlobalScore(b, win, s, cs[i]))
  {
    if cs == [] then [] else [(cs[0], GlobalScore(b, win, s, cs[0]))] + GlobalScored(b, win, s, cs[1..])
  }

  /** A window that holds at least one square. */
  predicate NonEmpty(win: Rect)
  {
    win.x0 < win.x1 && win.y0 < win.y1
  }

  /** Every square of the window with its global score, in numpy's order. */
  function WindowScores(b: SimulationBoard.Board, win: Rect, s: int): (ps: seq<(Cell, real)>)
    requires b.Valid() && OnBoard(win, b.width, b.height) && NonEmpty(win) && s >= 0
    reads b, b.blob
    ensures |ps| > 0
  {
    var cs := Cells(win);
    assert (win.x0, win.y0) in cs;
    GlobalScored(b, win, s, cs)
  }

  /** np.where(scores == np.min(scores)): the window squares of least score. */
  function GlobalMinima(b: SimulationBoard.Board, win: Rect, s: int): seq<Cell>
    requires b.Valid() && OnBoard(win, b.width, b.height) && NonEmpty(win) && s >= 0
    reads b, b.blob
  {
    var ps := WindowScores(b, win, s);
    AtScore(ps, MinScore(ps))
  }

  /** c is a square of the window whose global score is least. */
  ghost predicate Least(b: SimulationBoard.Board, win: Rect, s: int, c: Cell)
    requires b.Valid() && OnBoard(win, b.width, b.height) && s >= 0
    reads b, b.blob
  {
    win.Contains(c) && forall d :: win.Contains(d) ==> GlobalScore(b, win, s, c) <= GlobalScore(b, win, s, d)
  }

  /** The candidates of the global policy are exactly the squares of the
      window whose score is least; the agent's own square is not excluded. */
  lemma GlobalMinimaSpec(b: SimulationBoard.Board, win: Rect, s: int)
    requires b.Valid() && OnBoard(win, b.width, b.height) && NonEmpty(win) && s >= 0
    ensures |GlobalMinima(b, win, s)| > 0
    ensures forall c :: c in GlobalMinima(b, win, s) <==> Least(b, win, s, c)
  {
    MinimaNonEmpty(WindowScores(b, win, s));
    forall c ensures c in GlobalMinima(b, win, s) ==> Least(b, win, s, c) {
      if c in GlobalMinima(b, win, s) {
        MinimumIsLeast(b, win, s, c);
      }
    }
    forall c ensures Least(b, win, s, c) ==> c in GlobalMinima(b, win, s) {
      if Least(b, win, s, c) {
        LeastIsMinimum(b, win, s, c);
      }
    }
  }

  lemma MinimumIsLeast(b: SimulationBoard.Board, win: Rect, s: int, c: Cell)
    requires b.Valid() && OnBoard(win, b.width, b.height) && NonEmpty(win) && s >= 0
    requires c in GlobalMinima(b, win, s)
    ensures Least(b, win, s, c)
  {
    var cs := Cells(win);
    var ps := WindowScores(b, win, s);
    var m := MinScore(ps);
    var k :| 0 <= k < |ps| && ps[k] == (c, m);
    assert win.Contains(cs[k]);
    forall d | win.Contains(d) ensures GlobalScore(b, win, s, c) <= GlobalScore(b, win, s, d) {
      var j :| 0 <= j < |cs| && cs[j] == d;
      assert ps[j].1 == GlobalScore(b, win, s, d);
    }
  }

  lemma LeastIsMinimum(b: SimulationBoard.Board, win: Rect, s: int, c: Cell)
    requires b.Valid() && OnBoard(win, b.width, b.height) && NonEmpty(win) && s >= 0
    requires Least(b, win, s, c)
    ensures c in GlobalMinima(b, win, s)
  {
    var cs := Cells(win);
    var ps := WindowScores(b, win, s);
    var m := MinScore(ps);
    var k :| 0 <= k < |cs| && cs[k] == c;
    var i :| 0 <= i < |ps| && ps[i].1 == m;
    assert win.Contains(cs[i]);
    assert ps[i].1 == GlobalScore(b, win, s, cs[i]);
    assert GlobalScore(b, win, s, c) <= m;
    assert m <= ps[k].1 && ps[k].1 == GlobalScore(b, win, s, c);
    var (pc, pm) := ps[k];
    assert pc == c && pm == m;
    assert (c, m) in ps;
  }

  /** choose_global_goal: the pick-th square of least global score. */
  function GlobalGoal(b: SimulationBoard.Board, win: Rect, s: int, pick: nat): (g: Cell)
    requires b.Valid() && OnBoard(win, b.width, b.height) && NonEmpty(win) && s >= 0
    reads b, b.blob
    ensures Least(b, win, s, g)
  {
    GlobalMinimaSpec(b, win, s);
    var mins := GlobalMinima(b, win, s);
    mins[pick % |mins|]
  }

  /** choose_global_goal: score the window, then take the squares of least
      score and draw one of them. */
  method ChooseGlobalGoal(b: SimulationBoard.Board, win: Rect, s: int, pick: nat) returns (g: Cell)
    requires b.Valid() && OnBoard(win, b.width, b.height) && NonEmpty(win) && s >= 0
    ensures g == GlobalGoal(b, win, s, pick)
  {
    var scores := ScoreWindow(b, win, s);
    var ps := ListScores(b, win, s, scores);
    var mins := AtScore(ps, MinScore(ps));
    MinimaNonEmpty(ps);
    g := mins[pick % |mins|];
  }

  /** The score array of choose_global_goal, filled column by column:
      scores[i, j] scores the square (x0 + i, y0 + j). */
  method ScoreWindow(b: SimulationBoard.Board, win: Rect, s: int) returns (scores: array2<real>)
    requires b.Valid() && OnBoard(win, b.width, b.height) && s >= 0
    ensures fresh(scores) && scores.Length0 == win.Width() && scores.Length1 == win.Height()
    ensures forall i, j :: 0 <= i < win.Width() && 0 <= j < win.Height() ==>
      scores[i, j] == GlobalScore(b, win, s, (win.x0 + i, win.y0 + j))
  {
    scores := new real[win.Width(), win.Height()];
    var x := 0;
    while x < win.Width()
      invariant 0 <= x <= win.Width()
      invariant forall i, j :: 0 <= i < x && 0 <= j < win.Height() ==>
        scores[i, j] == GlobalScore(b, win, s, (win.x0 + i, win.y0 + j))
    {
      ScoreColumn(b, win, s, scores, x);
      x := x + 1;
    }
  }

  /** The inner loop: column x of the score array. */
  method ScoreColumn(b: SimulationBoard.Board, win: Rect, s: int, scores: array2<real>, x: int)
    requires b.Valid() && OnBoard(win, b.width, b.height) && s >= 0 && scores != b.blob
    requires scores.Length0 == win.Width() && scores.Length1 == win.Height() && 0 <= x < win.Width()
    modifies scores
    ensures forall j :: 0 <= j < win.Height() ==> scores[x, j] == GlobalScore(b, win, s, (win.x0 + x, win.y0 + j))
    ensures forall i, j :: 0 <= i < win.Width() && 0 <= j < win.Height() && i != x ==> scores[i, j] == old(scores[i, j])
  {
    var y := 0;
    while y < win.Height()
      invariant 0 <= y <= win.Height()
      invariant forall j :: 0 <= j < y ==> scores[x, j] == GlobalScore(b, win, s, (win.x0 + x, win.y0 + j))
      invariant forall i, j :: 0 <= i < win.Width() && 0 <= j < win.Height() && i != x ==> scores[i, j] == old(scores[i, j])
    {
      var score := ScoreOf(b, win, s, (win.x0 + x, win.y0 + y));
      scores[x, y] := score;
      y := y + 1;
    }
  }

  /** The body of the inner loop: the sum over the neighbourhood of c divided
      by the area of the window. */
  method ScoreOf(b: SimulationBoard.Board, win: Rect, s: int, c: Cell) returns (score: real)
    requires b.Valid() && OnBoard(win, b.width, b.height) && win.Contains(c) && s >= 0
    ensures score == GlobalScore(b, win, s, c)
  {
    var local := Neighbourhood(win, c, s);
    var area := win.Height() * win.Width();
    score := b.RectSum(local) / area as real;
  }

  /** The scores read back square by square, in numpy's order. */
  method ListScores(b: SimulationBoard.Board, win: Rect, s: int, scores: array2<real>)
    returns (ps: seq<(Cell, real)>)
    requires b.Valid() && OnBoard(win, b.width, b.height) && NonEmpty(win) && s >= 0
    requires scores.Length0 == win.Width() && scores.Length1 == win.Height()
    requires forall i, j :: 0 <= i < win.Width() && 0 <= j < win.Height() ==>
      scores[i, j] == GlobalScore(b, win, s, (win.x0 + i, win.y0 + j))
    ensures ps == WindowScores(b, win, s)
  {
    var cs := Cells(win);
    ps := [];
    var k := 0;
    while k < |cs|
      invariant 0 <= k <= |cs| && |ps| == k
      invariant forall i :: 0 <= i < k ==> ps[i] == (cs[i], GlobalScore(b, win, s, cs[i]))
    {
      var c := cs[k];
      assert win.Contains(c);
      ps := ps + [(c, scores[c.0 - win.x0, c.1 - win.y0])];
      k := k + 1;
    }
  }

  /** The state after choose_goal, from the state before it, whether the
      agent stands on food, the "Search Locally on Food" flag, the "Global
      Explore Probability" and the draw u of random.random(). */
  function NextState(state: int, onFood: bool, searchLocally: bool, prob: real, u: real): (st: int)
    ensures st == 0 || st == 1
  {
    if state == 0 then (if !(onFood && searchLocally) && prob < u then 1 else 0)
    else if prob >= u then 0 else 1
  }

  /** The probability sets the mix of the two policies: leaving the local
      state needs a draw above it, leaving the global state a draw at or
      below it; with draws in [0, 1), probability 1 keeps a local scouter
      local and a negative probability keeps a global scouter global. Food
      with local search enabled never lets a local scouter go global. */
  lemma NextStateSpec(state: int, onFood: bool, searchLocally: bool, prob: real, u: real)
    requires state == 0 || state == 1
    ensures state == 0 ==>
      (NextState(state, onFood, searchLocally, prob, u) == 1 <==> prob < u && !(onFood && searchLocally))
    ensures state == 0 ==>
      (NextState(state, onFood, searchLocally, prob, u) == 0 <==> u <= prob || (onFood && searchLocally))
    ensures state == 1 ==> (NextState(state, onFood, searchLocally, prob, u) == 0 <==> u <= prob)
    ensures state == 1 ==> (NextState(state, onFood, searchLocally, prob, u) == 1 <==> prob < u)
    ensures state == 0 && onFood && searchLocally ==> NextState(state, onFood, searchLocally, prob, u) == 0
    ensures 0.0 <= u < 1.0 && prob >= 1.0 && state == 0 ==> NextState(state, onFood, searchLocally, prob, u) == 0
    ensures 0.0 <= u < 1.0 && prob < 0.0 && state == 1 ==> NextState(state, onFood, searchLocally, prob, u) == 1
  {
  }

  /** The goal choose_goal returns: the local goal in state 0, the global
      goal in state 1 (the state before the switch decides). */
  function Aim(b: SimulationBoard.Board, pos: Cell, s: int, state: int, pick: nat): (g: Cell)
    requires b.Valid() && On(pos, b.width, b.height) && s >= 1
    requires state == 0 ==> b.width > 1 || b.height > 1
    reads b, b.blob
    ensures Window(b, pos, s).Contains(g)
  {
    if state == 0 then LocalGoal(b, pos, s, pick).value
    else GlobalGoal(b, Window(b, pos, s), s, pick)
  }

  /** A local goal is a neighbour of least intensity in sight; a global goal
      is a square of least neighbourhood score in sight. */
  lemma AimSpec(b: SimulationBoard.Board, pos: Cell, s: int, state: int, pick: nat)
    requires b.Valid() && On(pos, b.width, b.height) && s >= 1
    requires state == 0 ==> b.width > 1 || b.height > 1
    ensures var g := Aim(b, pos, s, state, pick);
      (state == 0 ==> g != pos && forall c :: Window(b, pos, s).Contains(c) && c != pos ==>
        b.blob[g.0, g.1] <= b.blob[c.0, c.1]) &&
      (state != 0 ==> Least(b, Window(b, pos, s), s, g))
  {
  }

  /** choose_goal's goal: the local goal in state 0, the global one in state 1. */
  method ChooseGoal(b: SimulationBoard.Board, pos: Cell, s: int, state: int, pick: nat) returns (g: Cell)
    requires b.Valid() && On(pos, b.width, b.height) && s >= 1
    requires state == 0 ==> b.width > 1 || b.height > 1
    ensures g == old(Aim(b, pos, s, state, pick))
  {
    if state == 0 {
      g := LocalGoal(b, pos, s, pick).value;
    } else {
      g := ChooseGlobalGoal(b, Window(b, pos, s), s, pick);
    }
  }

  /** The goal a move pursues: the kept one, or choose_goal's. */
  function Target(b: SimulationBoard.Board, pos: Cell, s: int, focus: Option<Cell>, state: int, pick: nat): (g: Cell)
    requires b.Valid() && On(pos, b.width, b.height) && s >= 1
    requires focus.None? && state == 0 ==> b.width > 1 || b.height > 1
    reads b, b.blob
    ensures focus.None? ==> Window(b, pos, s).Contains(g)
    ensures focus.Some? ==> g == focus.value
  {
    if focus.None? then Aim(b, pos, s, state, pick) else focus.value
  }

  /** With light compute, the path a move follows leads to the goal it
      pursues: a fresh goal lies in sight, and a kept path ends on the kept goal. */
  lemma FocusLeads(b: SimulationBoard.Board, pos: Cell, s: int, focus: Option<Cell>, state: int,
                   goal: Option<Cell>, path: seq<Cell>, pick: nat)
    requires b.Valid() && On(pos, b.width, b.height) && s >= 1
    requires focus.None? && state == 0 ==> b.width > 1 || b.height > 1
    requires focus.None? || focus == goal
    requires goal.Some? ==> |path| > 0 && path[|path| - 1] == goal.value
    ensures Leads(Window(b, pos, s), Target(b, pos, s, focus, state, pick), if focus.None? then [] else path, true)
  {
  }

  /** Where a move takes a scouter at pos once the food check has left it
      the goal focus, in the given state, with the given path. */
  ghost function Advance(b: SimulationBoard.Board, pos: Cell, s: int, diag: bool, light: bool,
                         focus: Option<Cell>, state: int, path: seq<Cell>, pick: nat, find: Finder): Course
    requires b.Valid() && On(pos, b.width, b.height) && s >= 1
    requires focus.None? && state == 0 ==> b.width > 1 || b.height > 1
    reads b, b.blob, b.touched
  {
    Proceed(b, pos, s, diag, light, Target(b, pos, s, focus, state, pick), if focus.None? then [] else path, find)
  }

  /** A move keeps the scouter and its path on the board, and with light
      compute a path that led to the goal still does. */
  lemma AdvanceSpec(b: SimulationBoard.Board, pos: Cell, s: int, diag: bool, light: bool,
                    focus: Option<Cell>, state: int, goal: Option<Cell>, path: seq<Cell>, pick: nat, find: Finder)
    requires b.Valid() && On(pos, b.width, b.height) && s >= 1 && FinderContract(find)
    requires AllOn(path, b.width, b.height)
    requires focus.None? && state == 0 ==> b.width > 1 || b.height > 1
    requires focus.None? || focus == goal
    ensures var n := Advance(b, pos, s, diag, light, focus, state, path, pick, find);
      Lands(n, b.width, b.height) && (Tracks(light, goal, path) ==> Tracks(light, n.goal, n.path))
  {
    var aim := Target(b, pos, s, focus, state, pick);
    var kept := if focus.None? then [] else path;
    ProceedSpec(b, pos, s, diag, light, aim, kept, find);
    if light && Tracks(light, goal, path) {
      FocusLeads(b, pos, s, focus, state, goal, path, pick);
    }
  }

  /** A move computed once the food check is done: the goal, then the plan
      and the step. */
  method PursueStep(b: SimulationBoard.Board, pos: Cell, s: int, diag: bool, light: bool,
                    focus: Option<Cell>, state: int, path: seq<Cell>, pick: nat, find: Finder)
    returns (c: Course)
    requires b.Valid() && On(pos, b.width, b.height) && s >= 1
    requires focus.None? && state == 0 ==> b.width > 1 || b.height > 1
    ensures c == old(Advance(b, pos, s, diag, light, focus, state, path, pick, find))
  {
    var kept := if focus.None? then [] else path;
    var aim: Cell;
    if focus.None? {
      aim := ChooseGoal(b, pos, s, state, pick);
    } else {
      aim := focus.value;
    }
    c := ProceedStep(b, pos, s, diag, light, aim, kept, find);
  }

  class AdvancedScouter {
    const board: SimulationBoard.Board
    const drop: real
    const useDiagonal: bool
    const sightSee: int
    const lightCompute: bool
    const exploreProbability: real
    const searchLocally: bool
    var x: int
    var y: int
    var goal: Option<Cell>
    var path: seq<Cell>
    var state: int

    ghost predicate Valid()
      reads this, board
    {
      board.Valid() && board.Inside(x, y) && sightSee >= 1 &&
      AllOn(path, board.width, board.height) && (state == 0 || state == 1)
    }

    /** With light compute, the kept path always leads to the goal. */
    ghost predicate Tracking()
      reads this
    {
      Tracks(lightCompute, goal, path)
    }

    /** As the sensing scouter, in the local state. */
    constructor (board: SimulationBoard.Board, config: Config, x: int, y: int,
                 useDiagonal: bool, sightline: int, lightCompute: bool)
      requires board.Valid() && board.Inside(x, y)
      ensures Valid() && Tracking()
      ensures this.board == board && this.x == x && this.y == y && drop == config.dropByEat
      ensures this.useDiagonal == useDiagonal && this.lightCompute == lightCompute
      ensures sightSee == if sightline > 0 then sightline else 1
      ensures exploreProbability == config.exploreProbability && searchLocally == config.searchLocallyOnFood
      ensures goal == None && path == [] && state == 0
    {
      this.board := board;
      this.x, this.y := x, y;
      drop := config.dropByEat;
      this.useDiagonal := useDiagonal;
      sightSee := if sightline > 0 then sightline else 1;
      this.lightCompute := lightCompute;
      exploreProbability := config.exploreProbability;
      searchLocally := config.searchLocallyOnFood;
      goal, path, state := None, [], 0;
    }

    /** The food check that opens move: on food with local search enabled a
        global scouter drops its goal and turns local. */
    predicate Refocused()
      requires Valid()
      reads this, board, board.foods
    {
      board.HasFood(x, y) && searchLocally && state == 1
    }

    /** The goal after the food check. */
    function Focus(): Option<Cell>
      requires Valid()
      reads this, board, board.foods
    {
      if Refocused() then None else goal
    }

    /** The state after the food check. */
    function FocusState(): int
      requires Valid()
      reads this, board, board.foods
    {
      if Refocused() then 0 else state
    }

    /** The source reads goal[0] before testing for None: a move that has to
        choose a local goal on a single-square board is excluded. */
    ghost predicate CanAim()
      reads this, board, board.foods
      requires Valid()
    {
      Focus().None? && FocusState() == 0 ==> board.width > 1 || board.height > 1
    }

    /** The state after a move. */
    function StateAfter(u: real): (st: int)
      requires Valid()
      reads this, board, board.foods
      ensures st == 0 || st == 1
    {
      if Focus().None? then NextState(FocusState(), board.HasFood(x, y), searchLocally, exploreProbability, u)
      else FocusState()
    }

    /** Where one move takes the scouter. */
    ghost function Next(pick: nat, find: Finder): Course
      requires Valid() && CanAim()
      reads this, board, board.blob, board.foods, board.touched
    {
      Advance(board, (x, y), sightSee, useDiagonal, lightCompute, Focus(), FocusState(), path, pick, find)
    }

    /** A move keeps the scouter and its path on the board, and with light
        compute the kept path still leads to the goal. */
    lemma NextSpec(pick: nat, find: Finder)
      requires Valid() && CanAim() && FinderContract(find)
      ensures var n := Next(pick, find);
        Lands(n, board.width, board.height) && (Tracking() ==> Tracks(lightCompute, n.goal, n.path))
    {
      AdvanceSpec(board, (x, y), sightSee, useDiagonal, lightCompute, Focus(), FocusState(), goal, path, pick, find);
    }

    /** move: the food check, a new goal (and state) when there is none,
        then the sensing scouter's plan-and-step. */
    method Move(u: real, pick: nat, find: Finder)
      requires Valid() && CanAim() && FinderContract(find)
      modifies this
      ensures Valid()
      ensures old(Tracking()) ==> Tracking()
      ensures Course((x, y), goal, path) == old(Next(pick, find))
      ensures state == old(StateAfter(u))
    {
      ghost var tracking := Tracking();
      ghost var expected := Next(pick, find);
      NextSpec(pick, find);
      assert Lands(expected, board.width, board.height) && (tracking ==> Tracks(lightCompute, expected.goal, expected.path));
      var st := StateAfter(u);
      var next := Step(pick, find);
      assert next == expected;
      Apply(next, st);
    }

    /** The effect of a move: the scouter takes the computed position, goal,
        path and state. */
    method Apply(next: Course, st: int)
      requires Valid() && Lands(next, board.width, board.height)
      requires st == 0 || st == 1
      modifies this
      ensures Valid()
      ensures x == next.pos.0 && y == next.pos.1 && goal == next.goal && path == next.path && state == st
    {
      x, y, goal, path, state := next.pos.0, next.pos.1, next.goal, next.path, st;
    }

    /** The computation of a move, without its effect. */
    method Step(pick: nat, find: Finder) returns (next: Course)
      requires Valid() && CanAim() && FinderContract(find)
      ensures next == old(Next(pick, find))
    {
      next := PursueStep(board, (x, y), sightSee, useDiagonal, lightCompute, Focus(), FocusState(), path, pick, find);
    }

    /** reset, inherited from the sensing scouter: the state bit is kept. */
    method Reset()
      requires Valid()
      modifies this
      ensures Valid() && Tracking()
      ensures goal == None && path == [] && x == 0 && y == 0 && state == old(state)
    {
      goal, path := None, [];
      x, y := 0, 0;
    }
  }
}
