/** The gatherer: it walks from one known food square to another along the
    blob's trail. It aims at a known food square other than its own, and
    when that square lies beyond its sightline it aims instead at a touched
    square where the line from the food to itself enters its sight. */
module GathererModel {
  import opened Common
  import opened Shared
  import opened Pathing
  import SimulationBoard

  /** Traversal cost of a square for a gatherer: 1 + (255 - intensity) on
      trail, 510 on a touched square with no trail left, 0 elsewhere (the
      search treats a cost of 0 as a wall). */
  function GatherCost(b: real, t: bool): real
  {
    if b > 0.0 then 1.0 + (SimulationBoard.MAX_BLOB - b)
    else if t then SimulationBoard.MAX_BLOB * 2.0
    else 0.0
  }

  /** Trail costs lie in [1, 256), a stronger trail is cheaper, and squares
      without trail cost 510 when touched and nothing (a wall) otherwise. */
  lemma GatherCostBands(b: real, t: bool, b2: real)
    requires SimulationBoard.MIN_BLOB <= b <= SimulationBoard.MAX_BLOB
    ensures b > 0.0 ==> 1.0 <= GatherCost(b, t) < 256.0
    ensures b <= 0.0 ==> GatherCost(b, t) == (if t then 510.0 else 0.0)
    ensures 0.0 < b < b2 ==> GatherCost(b2, t) < GatherCost(b, t)
  {
  }

  /** The sightline window of a gatherer at pos. */
  function Window(b: SimulationBoard.Board, pos: Cell, s: int): Rect
    requires b.Valid() && On(pos, b.width, b.height) && s >= 0
    reads b
  {
    SightWindow(pos.0, pos.1, s, b.width, b.height)
  }

  // ---------------------------------------------------------------------
  // compute_sight_see_goal: the local goal when the food lies out of sight

  /** The parameter t at which the line g + t * (p - g), from the goal g
      toward the agent p, meets the window's edge [lo, hi) on one axis: the
      low edge when the agent lies above the goal, the high edge otherwise;
      absent when the line does not move on this axis. */
  function Crossing(g: int, p: int, lo: int, hi: int): Option<real>
  {
    var d := p - g;
    if d == 0 then None else Some(((if d > 0 then lo else hi - 1) - g) as real / d as real)
  }

  /** A parameter that is present and lies in [0, 1]. */
  predicate Unit(t: Option<real>)
  {
    t.Some? && 0.0 <= t.value <= 1.0
  }

  /** On an axis where the goal lies outside the window and the agent
      inside, the crossing lies in (0, 1]; where the goal lies inside, it is
      absent or not positive. */
  lemma CrossingSpec(g: int, p: int, lo: int, hi: int)
    requires lo <= p < hi
    ensures !(lo <= g < hi) ==> Unit(Crossing(g, p, lo, hi)) && Crossing(g, p, lo, hi).value > 0.0
    ensures lo <= g < hi ==> Crossing(g, p, lo, hi).None? || Crossing(g, p, lo, hi).value <= 0.0
  {
    var d := p - g;
    if d != 0 {
      var e := (if d > 0 then lo else hi - 1) - g;
      var t := e as real / d as real;
      assert t * d as real == e as real;
      if d > 0 {
        if g < lo { assert 0 < e <= d; } else { assert e <= 0; }
      } else {
        if g >= hi { assert d <= e < 0; } else { assert e >= 0; }
      }
    }
  }

  /** The crossings of the two axes. */
  function CrossX(g: Cell, p: Cell, win: Rect): Option<real>
  {
    Crossing(g.0, p.0, win.x0, win.x1)
  }

  function CrossY(g: Cell, p: Cell, win: Rect): Option<real>
  {
    Crossing(g.1, p.1, win.y0, win.y1)
  }

  /** The first parameter as the source picks it: t_y when t_x is absent or
      outside [0, 1], else t_x when t_y is, else the smaller of the two. */
  function EntryAsWritten(tx: Option<real>, ty: Option<real>): Option<real>
  {
    if !Unit(tx) then ty else if !Unit(ty) then tx else Some(MinR(tx.value, ty.value))
  }

  /** The parameter at which the line enters the window: as above, but the
      larger of the two crossings, the point where both coordinates are in. */
  function Entry(tx: Option<real>, ty: Option<real>): Option<real>
  {
    if !Unit(tx) then ty else if !Unit(ty) then tx else Some(MaxR(tx.value, ty.value))
  }

  /** With the agent in the window and the goal outside it, a parameter in
      [0, 1] is always found (so the source never multiplies by None). */
  lemma EntryDefined(g: Cell, p: Cell, win: Rect)
    requires win.Contains(p) && !win.Contains(g)
    ensures Unit(Entry(CrossX(g, p, win), CrossY(g, p, win)))
    ensures Unit(EntryAsWritten(CrossX(g, p, win), CrossY(g, p, win)))
  {
    CrossingSpec(g.0, p.0, win.x0, win.x1);
    CrossingSpec(g.1, p.1, win.y0, win.y1);
  }

  /** int(g + t * (p - g)) on one axis. */
  function Coord(g: int, p: int, t: real): int
  {
    Trunc(g as real + t * (p - g) as real)
  }

  /** The square of the line at parameter t. */
  function Point(g: Cell, p: Cell, t: real): Cell
  {
    (Coord(g.0, p.0, t), Coord(g.1, p.1, t))
  }

  /** The increments of 1 / n left before t passes 1. */
  function Rest(t: real, n: int): int
    requires n > 0
  {
    if t <= 1.0 then ((1.0 - t) * n as real).Floor + 1 else 0
  }

  lemma RestDecreases(t: real, n: int)
    requires n > 0 && t <= 1.0
    ensures 0 <= Rest(t + 1.0 / n as real, n) < Rest(t, n)
  {
    var inc := 1.0 / n as real;
    assert inc * n as real == 1.0;
    assert (1.0 - (t + inc)) * n as real == (1.0 - t) * n as real - 1.0;
    assert (1.0 - t) * n as real >= 0.0;
  }

  /** The walk along the line from parameter t in steps of 1 / n (n is
      width + height): the first square that is touched, or the first one
      reached once t has passed 1. */
  function Walk(b: SimulationBoard.Board, g: Cell, p: Cell, t: real, n: int): Cell
    requires b.Valid() && n > 0
    reads b, b.touched
    decreases Rest(t, n)
  {
    var c := Point(g, p, t);
    if b.IsTouched(c.0, c.1) || t > 1.0 then c
    else
      RestDecreases(t, n);
      Walk(b, g, p, t + 1.0 / n as real, n)
  }

  /** compute_sight_see_goal as written: the goal itself when in sight,
      otherwise the walk from the smaller crossing; window coordinates. */
  function SightGoalAsWritten(b: SimulationBoard.Board, pos: Cell, g: Cell, win: Rect): Cell
    requires b.Valid() && On(pos, b.width, b.height) && win.Contains(pos)
    reads b, b.touched
  {
    if win.Contains(g) then Local(g, win.x0, win.y0)
    else
      EntryDefined(g, pos, win);
      var t := EntryAsWritten(CrossX(g, pos, win), CrossY(g, pos, win)).value;
      Local(Walk(b, g, pos, t, b.width + b.height), win.x0, win.y0)
  }

  /** compute_sight_see_goal with the walk started where the line enters
      the window. */
  function SightGoal(b: SimulationBoard.Board, pos: Cell, g: Cell, win: Rect): Cell
    requires b.Valid() && On(pos, b.width, b.height) && win.Contains(pos)
    reads b, b.touched
  {
    if win.Contains(g) then Local(g, win.x0, win.y0)
    else
      EntryDefined(g, pos, win);
      var t := Entry(CrossX(g, pos, win), CrossY(g, pos, win)).value;
      Local(Walk(b, g, pos, t, b.width + b.height), win.x0, win.y0)
  }

  /** The smaller crossing can lie outside the window: on a 10 x 10 board an
      agent at (5, 5) with sightline 1 sees [4, 7) x [4, 7); toward food at
      (0, 9) the crossings are 0.8 and 0.75, and at 0.75 the line is on
      (3, 6). When (3, 6) is touched the local goal is (-1, 2), outside the
      3 x 3 grid handed to the search. */
  lemma SightGoalLeavesWindow(b: SimulationBoard.Board)
    requires b.Valid() && b.width == 10 && b.height == 10 && b.touched[3, 6]
    ensures var win := Window(b, (5, 5), 1);
      win == Rect(4, 4, 7, 7) &&
      SightGoalAsWritten(b, (5, 5), (0, 9), win) == (-1, 2)
  {
    var win := Window(b, (5, 5), 1);
    assert win == Rect(4, 4, 7, 7);
    assert CrossX((0, 9), (5, 5), win) == Some(0.8);
    assert CrossY((0, 9), (5, 5), win) == Some(0.75);
    assert Point((0, 9), (5, 5), 0.75) == (3, 6);
  }

  lemma MulNonNeg(a: real, b: real)
    requires 0.0 <= a && 0.0 <= b
    ensures 0.0 <= a * b
  {
  }

  lemma MulLe(k: real, a: real, b: real)
    requires 0.0 <= k && a <= b
    ensures k * a <= k * b
  {
    MulNonNeg(k, b - a);
  }

  lemma MulLt(k: real, a: real, b: real)
    requires 0.0 < k && a < b
    ensures k * a < k * b
  {
  }

  /** A value in [lo, hi - 1] truncates into [lo, hi). */
  lemma TruncIn(v: real, lo: int, hi: int)
    requires 0 <= lo && lo as real <= v <= (hi - 1) as real
    ensures lo <= Trunc(v) < hi
  {
  }

  /** Between a goal and an agent that both lie in [lo, hi), every point of
      the line lies there too. */
  lemma AxisBetween(g: int, p: int, lo: int, hi: int, t: real)
    requires 0 <= lo <= g < hi && lo <= p < hi && 0.0 <= t <= 1.0
    ensures lo <= Coord(g, p, t) < hi
  {
    SegmentPast(g, p, g, 0.0, t);
    TruncIn(g as real + t * (p - g) as real, lo, hi);
  }

  /** The crossing parameter scaled back: the edge coordinate minus the goal's. */
  lemma CrossingScaled(g: int, p: int, lo: int, hi: int)
    requires p != g
    ensures Crossing(g, p, lo, hi).value * (p - g) as real == ((if p - g > 0 then lo else hi - 1) - g) as real
  {
  }

  /** Past the crossing of the window's edge, the line toward an agent in
      [lo, hi) stays in [lo, hi). */
  lemma AxisPast(g: int, p: int, lo: int, hi: int, t: real)
    requires 0 <= lo <= p < hi && !(lo <= g < hi)
    requires Crossing(g, p, lo, hi).Some? && Crossing(g, p, lo, hi).value <= t <= 1.0
    ensures lo <= Coord(g, p, t) < hi
  {
    CrossingScaled(g, p, lo, hi);
    SegmentPast(g, p, if p - g > 0 then lo else hi - 1, Crossing(g, p, lo, hi).value, t);
    TruncIn(g as real + t * (p - g) as real, lo, hi);
  }

  /** With c = g + tc * (p - g), the point at t in [tc, 1] lies between c and p. */
  lemma SegmentPast(g: int, p: int, c: int, tc: real, t: real)
    requires tc * (p - g) as real == (c - g) as real && tc <= t <= 1.0
    ensures var v := g as real + t * (p - g) as real;
      (p >= g ==> c as real <= v <= p as real) && (p < g ==> p as real <= v <= c as real)
  {
    var d := (p - g) as real;
    var v := g as real + t * d;
    assert v - c as real == (t - tc) * d;
    assert p as real - v == (1.0 - t) * d;
    if d >= 0.0 {
      MulNonNeg(t - tc, d);
      MulNonNeg(1.0 - t, d);
    } else {
      MulNonNeg(t - tc, -d);
      MulNonNeg(1.0 - t, -d);
    }
  }

  /** One increment past the agent the point is less than a square beyond
      it, so it stays in [lo, hi) when the window reaches at least one square
      before the agent or the agent is on the board's first square. */
  lemma AxisOver(g: int, p: int, lo: int, hi: int, t: real, n: int)
    requires 0 <= lo <= p < hi && (p == 0 || lo < p)
    requires n > 0 && -n < p - g < n && 1.0 < t <= 1.0 + 1.0 / n as real
    ensures lo <= Coord(g, p, t) < hi
  {
    SegmentOver(g, p, t, n);
  }

  /** Less than one increment of 1 / n past the agent, with the goal fewer
      than n squares away, the point is less than a square beyond the agent. */
  lemma SegmentOver(g: int, p: int, t: real, n: int)
    requires n > 0 && -n < p - g < n && 1.0 < t <= 1.0 + 1.0 / n as real
    ensures var v := g as real + t * (p - g) as real;
      (p >= g ==> p as real <= v < p as real + 1.0) && (p < g ==> p as real - 1.0 < v <= p as real)
  {
    var d := (p - g) as real;
    var k := t - 1.0;
    assert g as real + t * d == p as real + k * d;
    assert k * n as real <= 1.0 by {
      MulLe(n as real, k, 1.0 / n as real);
      assert n as real * (1.0 / n as real) == 1.0;
    }
    if d >= 0.0 {
      MulLt(k, d, n as real);
      MulNonNeg(k, d);
    } else {
      MulLt(k, -d, n as real);
      MulNonNeg(k, -d);
    }
  }

  /** The agent lies in the window, the goal outside it and fewer than n
      squares away on each axis, and the window reaches one square before
      the agent on each axis unless the agent is on the board's first. */
  predicate Framed(g: Cell, p: Cell, win: Rect, n: int)
  {
    win.Contains(p) && !win.Contains(g) && 0 <= win.x0 && 0 <= win.y0 &&
    (p.0 == 0 || win.x0 < p.0) && (p.1 == 0 || win.y0 < p.1) &&
    n > 0 && -n < p.0 - g.0 < n && -n < p.1 - g.1 < n
  }

  /** From the entry into the window up to one increment past the agent,
      the line stays in the window. */
  lemma PointInWindow(g: Cell, p: Cell, win: Rect, n: int, t: real)
    requires Framed(g, p, win, n)
    requires Entry(CrossX(g, p, win), CrossY(g, p, win)).Some?
    requires Entry(CrossX(g, p, win), CrossY(g, p, win)).value <= t <= 1.0 + 1.0 / n as real
    ensures win.Contains(Point(g, p, t))
  {
    EntryDefined(g, p, win);
    CrossingSpec(g.0, p.0, win.x0, win.x1);
    CrossingSpec(g.1, p.1, win.y0, win.y1);
    if t <= 1.0 {
      if win.x0 <= g.0 < win.x1 {
        AxisBetween(g.0, p.0, win.x0, win.x1, t);
      } else {
        AxisPast(g.0, p.0, win.x0, win.x1, t);
      }
      if win.y0 <= g.1 < win.y1 {
        AxisBetween(g.1, p.1, win.y0, win.y1, t);
      } else {
        AxisPast(g.1, p.1, win.y0, win.y1, t);
      }
    } else {
      AxisOver(g.0, p.0, win.x0, win.x1, t, n);
      AxisOver(g.1, p.1, win.y0, win.y1, t, n);
    }
  }

  /** The walk from the entry never leaves the window. */
  lemma {:induction false} WalkInWindow(b: SimulationBoard.Board, g: Cell, p: Cell, win: Rect, n: int, t: real)
    requires b.Valid() && Framed(g, p, win, n)
    requires Entry(CrossX(g, p, win), CrossY(g, p, win)).Some?
    requires Entry(CrossX(g, p, win), CrossY(g, p, win)).value <= t <= 1.0 + 1.0 / n as real
    ensures win.Contains(Walk(b, g, p, t, n))
    decreases Rest(t, n)
  {
    PointInWindow(g, p, win, n, t);
    var c := Point(g, p, t);
    if !(b.IsTouched(c.0, c.1) || t > 1.0) {
      RestDecreases(t, n);
      WalkInWindow(b, g, p, win, n, t + 1.0 / n as real);
    }
  }

  /** The local goal of a gatherer always lies in the grid of its window,
      and is the goal itself, in window coordinates, when the goal is in sight. */
  lemma SightGoalInGrid(b: SimulationBoard.Board, pos: Cell, s: int, g: Cell)
    requires b.Valid() && On(pos, b.width, b.height) && s >= 1 && On(g, b.width, b.height)
    ensures var win := Window(b, pos, s);
      var l := SightGoal(b, pos, g, win);
      0 <= l.0 < win.Width() && 0 <= l.1 < win.Height() &&
      (win.Contains(g) ==> l == Local(g, win.x0, win.y0))
  {
    var win := Window(b, pos, s);
    if !win.Contains(g) {
      if pos.0 > 0 { assert win.Contains((pos.0 - 1, pos.1)); }
      if pos.1 > 0 { assert win.Contains((pos.0, pos.1 - 1)); }
      var n := b.width + b.height;
      assert Framed(g, pos, win, n);
      EntryDefined(g, pos, win);
      WalkInWindow(b, g, pos, win, n, Entry(CrossX(g, pos, win), CrossY(g, pos, win)).value);
    }
  }

  /** compute_sight_see_goal computed: the goal when in sight; otherwise the
      entry parameter and the walk from it. */
  method ComputeSightGoal(b: SimulationBoard.Board, pos: Cell, g: Cell, win: Rect) returns (l: Cell)
    requires b.Valid() && On(pos, b.width, b.height) && win.Contains(pos)
    ensures l == SightGoal(b, pos, g, win)
  {
    if win.x0 <= g.0 < win.x1 && win.y0 <= g.1 < win.y1 {
      return (g.0 - win.x0, g.1 - win.y0);
    }
    var t := EntryParameter(g, pos, win);
    var symb := WalkFrom(b, g, pos, t, b.width + b.height);
    l := (symb.0 - win.x0, symb.1 - win.y0);
  }

  /** The two crossings and the parameter picked from them. */
  method EntryParameter(g: Cell, pos: Cell, win: Rect) returns (t: real)
    requires win.Contains(pos) && !win.Contains(g)
    ensures Entry(CrossX(g, pos, win), CrossY(g, pos, win)) == Some(t)
  {
    var dx, dy := pos.0 - g.0, pos.1 - g.1;
    var tx: Option<real> := None;
    if dx != 0 {
      var xc := if dx > 0 then win.x0 else win.x1 - 1;
      tx := Some((xc - g.0) as real / dx as real);
    }
    var ty: Option<real> := None;
    if dy != 0 {
      var yc := if dy >= 0 then win.y0 else win.y1 - 1;
      ty := Some((yc - g.1) as real / dy as real);
    }
    assert tx == CrossX(g, pos, win) && ty == CrossY(g, pos, win);
    EntryDefined(g, pos, win);
    if !Unit(tx) {
      t := ty.value;
    } else if !Unit(ty) {
      t := tx.value;
    } else {
      t := MaxR(tx.value, ty.value);
    }
  }

  /** The walk computed: step t by 1 / n until a touched square or t past 1. */
  method WalkFrom(b: SimulationBoard.Board, g: Cell, pos: Cell, t0: real, n: int) returns (symb: Cell)
    requires b.Valid() && n > 0
    ensures symb == Walk(b, g, pos, t0, n)
  {
    var t := t0;
    symb := Point(g, pos, t);
    var found := b.IsTouched(symb.0, symb.1);
    while !found && t <= 1.0
      invariant symb == Point(g, pos, t) && found == b.IsTouched(symb.0, symb.1)
      invariant Walk(b, g, pos, t, n) == Walk(b, g, pos, t0, n)
      decreases Rest(t, n)
    {
      RestDecreases(t, n);
      t := t + 1.0 / n as real;
      symb := Point(g, pos, t);
      found := b.IsTouched(symb.0, symb.1);
    }
  }

  // ---------------------------------------------------------------------
  // best_way_to

  /** The path a gatherer at pos plans toward the food g: the search run on
      the gatherer's cost matrix of its window from its own square to the
      local goal, trimmed and shifted back to board coordinates. */
  function GatherPlan(b: SimulationBoard.Board, pos: Cell, s: int, diag: bool, g: Cell, find: Finder): seq<Cell>
    requires b.Valid() && On(pos, b.width, b.height) && s >= 1
    reads b, b.blob, b.touched
  {
    var win := Window(b, pos, s);
    Trimmed(find(CostsOf(b, win, GatherCost), Local(pos, win.x0, win.y0), SightGoal(b, pos, g, win), diag),
            win.x0, win.y0)
  }

  /** A non-empty planned path ends on the local goal, which is the food
      itself when the food is in sight. */
  lemma GatherPlanEnds(b: SimulationBoard.Board, pos: Cell, s: int, diag: bool, g: Cell, find: Finder)
    requires b.Valid() && On(pos, b.width, b.height) && s >= 1 && FinderContract(find)
    requires On(g, b.width, b.height)
    ensures var win := Window(b, pos, s);
      var p := GatherPlan(b, pos, s, diag, g, find);
      (p != [] ==> p[|p| - 1] == Shift(SightGoal(b, pos, g, win), win.x0, win.y0)) &&
      (p != [] && win.Contains(g) ==> p[|p| - 1] == g)
  {
    var win := Window(b, pos, s);
    var m := CostsOf(b, win, GatherCost);
    var l := SightGoal(b, pos, g, win);
    SightGoalInGrid(b, pos, s, g);
    assert InGrid(m, l);
    SearchInWindow(m, Local(pos, win.x0, win.y0), l, diag, find, win);
  }

  /** A planned path stays in the window, so on the board. */
  lemma GatherPlanOn(b: SimulationBoard.Board, pos: Cell, s: int, diag: bool, g: Cell, find: Finder)
    requires b.Valid() && On(pos, b.width, b.height) && s >= 1 && FinderContract(find)
    ensures var p := GatherPlan(b, pos, s, diag, g, find);
      (forall i :: 0 <= i < |p| ==> Window(b, pos, s).Contains(p[i])) && AllOn(p, b.width, b.height)
  {
    var win := Window(b, pos, s);
    SearchInWindow(CostsOf(b, win, GatherCost), Local(pos, win.x0, win.y0), SightGoal(b, pos, g, win), diag, find, win);
  }

  /** best_way_to: build the cost matrix, compute the local goal, run the
      search, trim and shift. */
  method BestWayTo(b: SimulationBoard.Board, pos: Cell, s: int, diag: bool, g: Cell, find: Finder)
    returns (p: seq<Cell>)
    requires b.Valid() && On(pos, b.width, b.height) && s >= 1
    ensures p == GatherPlan(b, pos, s, diag, g, find)
  {
    var win := Window(b, pos, s);
    var m := CostMatrix(b, win, GatherCost);
    var l := ComputeSightGoal(b, pos, g, win);
    var raw := find(m, Local(pos, win.x0, win.y0), l, diag);
    p := TrimAndShift(raw, win.x0, win.y0);
  }

  // ---------------------------------------------------------------------
  // choose_goal

  /** reached: the goal exists and is the agent's square. */
  predicate Reached(pos: Cell, goal: Option<Cell>)
  {
    goal.Some? && goal.value == pos
  }

  /** Some draw, taken as an index modulo the number of known foods, names
      a food square other than the agent's. */
  predicate Hits(food: seq<Cell>, pos: Cell, draws: seq<nat>, k: nat)
  {
    |food| > 0 && exists j :: k <= j < |draws| && !Reached(pos, Some(food[draws[j] % |food|]))
  }

  /** The first draw from the k-th on that names a food square other than
      the agent's. */
  function FirstHit(food: seq<Cell>, pos: Cell, draws: seq<nat>, k: nat): (i: nat)
    requires Hits(food, pos, draws, k)
    ensures k <= i < |draws| && !Reached(pos, Some(food[draws[i] % |food|]))
    ensures forall j :: k <= j < i ==> Reached(pos, Some(food[draws[j] % |food|]))
    decreases |draws| - k
  {
    if !Reached(pos, Some(food[draws[k] % |food|])) then k
    else
      assert Hits(food, pos, draws, k + 1) by {
        var j :| k <= j < |draws| && !Reached(pos, Some(food[draws[j] % |food|]));
        assert j != k;
      }
      FirstHit(food, pos, draws, k + 1)
  }

  /** choose_goal, with draws the successive values of random.randrange
      (required to name an unreached square eventually): nothing when no
      food is known or the only known food is the agent's square; otherwise
      a known food square other than the agent's. */
  function Choice(food: seq<Cell>, pos: Cell, draws: seq<nat>): (r: Option<Cell>)
    requires |food| >= 2 ==> Hits(food, pos, draws, 0)
    ensures r.None? <==> |food| == 0 || (|food| == 1 && food[0] == pos)
    ensures r.Some? ==> r.value in food && r.value != pos
  {
    if |food| == 0 then None
    else if |food| == 1 then (if Reached(pos, Some(food[0])) then None else Some(food[0]))
    else Some(food[draws[FirstHit(food, pos, draws, 0)] % |food|])
  }

  /** choose_goal computed: redraw while the drawn food is the agent's square. */
  method ChooseGoal(food: seq<Cell>, pos: Cell, draws: seq<nat>) returns (r: Option<Cell>)
    requires |food| >= 2 ==> Hits(food, pos, draws, 0)
    ensures r == Choice(food, pos, draws)
  {
    if |food| == 0 {
      return None;
    } else if |food| == 1 {
      if Reached(pos, Some(food[0])) {
        return None;
      }
      return Some(food[0]);
    }
    ghost var last := FirstHit(food, pos, draws, 0);
    var k := 0;
    var i := draws[k] % |food|;
    while Reached(pos, Some(food[i]))
      invariant k <= last && i == draws[k] % |food|
      decreases last - k
    {
      k := k + 1;
      i := draws[k] % |food|;
    }
    r := Some(food[i]);
  }

  // ---------------------------------------------------------------------
  // move

  /** Whether a move replaces the goal: there is none, or it is no longer
      known food. */
  predicate Stale(food: seq<Cell>, goal: Option<Cell>)
  {
    goal.None? || goal.value !in food
  }

  /** The goal a move pursues: the kept one, or a fresh choice when it is stale. */
  function Pursued(food: seq<Cell>, pos: Cell, goal: Option<Cell>, draws: seq<nat>): Option<Cell>
    requires Stale(food, goal) && |food| >= 2 ==> Hits(food, pos, draws, 0)
  {
    if Stale(food, goal) then Choice(food, pos, draws) else goal
  }

  /** The path a move follows toward g: a fresh plan when nothing is kept
      (a stale goal drops the path) or light compute is off, the kept path
      otherwise. */
  function Route(b: SimulationBoard.Board, pos: Cell, s: int, diag: bool, light: bool,
                 g: Cell, kept: seq<Cell>, find: Finder): seq<Cell>
    requires b.Valid() && On(pos, b.width, b.height) && s >= 1
    reads b, b.blob, b.touched
  {
    if kept == [] || !light then GatherPlan(b, pos, s, diag, g, find) else kept
  }

  /** The second half of a move, once the goal g is known: plan when
      nothing is kept or light compute is off, then step. */
  function Approach(b: SimulationBoard.Board, pos: Cell, s: int, diag: bool, light: bool,
                    g: Cell, kept: seq<Cell>, find: Finder): Course
    requires b.Valid() && On(pos, b.width, b.height) && s >= 1
    reads b, b.blob, b.touched
  {
    Follow(pos, g, Route(b, pos, s, diag, light, g, kept, find))
  }

  /** The second half of a move computed: an empty search result drops the
      goal without moving; otherwise the head of the path is popped and
      taken, and reaching the goal clears goal and path. */
  method ApproachStep(b: SimulationBoard.Board, pos: Cell, s: int, diag: bool, light: bool,
                      g: Cell, kept: seq<Cell>, find: Finder) returns (c: Course)
    requires b.Valid() && On(pos, b.width, b.height) && s >= 1
    ensures c == old(Approach(b, pos, s, diag, light, g, kept, find))
  {
    var p := kept;
    if |p| == 0 || !light {
      p := BestWayTo(b, pos, s, diag, g, find);
      if |p| == 0 {
        return Course(pos, None, []);
      }
    }
    var next := p[0];
    p := p[1..];
    if Reached(next, Some(g)) {
      return Course(next, None, []);
    }
    c := Course(next, Some(g), p);
  }

  /** Where one move takes a gatherer at pos with the given goal and path. */
  ghost function Gather(b: SimulationBoard.Board, pos: Cell, s: int, diag: bool, light: bool,
                        food: seq<Cell>, goal: Option<Cell>, path: seq<Cell>, draws: seq<nat>, find: Finder): Course
    requires b.Valid() && On(pos, b.width, b.height) && s >= 1
    requires Stale(food, goal) && |food| >= 2 ==> Hits(food, pos, draws, 0)
    reads b, b.blob, b.touched
  {
    var g := Pursued(food, pos, goal, draws);
    if g.None? then Course(pos, None, [])
    else Approach(b, pos, s, diag, light, g.value, if Stale(food, goal) then [] else path, find)
  }

  /** A move keeps the gatherer and its path on the board and leaves it
      aiming only at known food other than its own square; with no goal to
      pursue it stays put with no path, and with light compute a live goal
      is pursued along the kept path without a new search. */
  lemma GatherSpec(b: SimulationBoard.Board, pos: Cell, s: int, diag: bool, light: bool,
                   food: seq<Cell>, goal: Option<Cell>, path: seq<Cell>, draws: seq<nat>, find: Finder)
    requires b.Valid() && On(pos, b.width, b.height) && s >= 1 && FinderContract(find)
    requires AllOn(path, b.width, b.height)
    requires Stale(food, goal) && |food| >= 2 ==> Hits(food, pos, draws, 0)
    ensures var n := Gather(b, pos, s, diag, light, food, goal, path, draws, find);
      Lands(n, b.width, b.height) &&
      (n.goal.Some? ==> n.goal.value in food && n.goal.value != n.pos) &&
      (Pursued(food, pos, goal, draws).None? ==> n == Course(pos, None, [])) &&
      (light && !Stale(food, goal) && path != [] ==>
        n.pos == path[0] && (n.goal.Some? ==> n.goal == goal && n.path == path[1..]))
  {
    var g := Pursued(food, pos, goal, draws);
    if g.Some? {
      var kept := if Stale(food, goal) then [] else path;
      var p := Route(b, pos, s, diag, light, g.value, kept, find);
      assert Gather(b, pos, s, diag, light, food, goal, path, draws, find) == Follow(pos, g.value, p);
      if kept == [] || !light {
        GatherPlanOn(b, pos, s, diag, g.value, find);
      }
      FollowStaysOn(pos, g.value, p, b.width, b.height);
      FollowSpec(pos, g.value, p);
    }
  }

  /** A move computed: a stale goal is replaced (the path with it), and
      without a goal the gatherer stays put; then the second half. */
  method GatherStep(b: SimulationBoard.Board, pos: Cell, s: int, diag: bool, light: bool,
                    food: seq<Cell>, goal: Option<Cell>, path: seq<Cell>, draws: seq<nat>, find: Finder)
    returns (c: Course)
    requires b.Valid() && On(pos, b.width, b.height) && s >= 1
    requires Stale(food, goal) && |food| >= 2 ==> Hits(food, pos, draws, 0)
    ensures c == old(Gather(b, pos, s, diag, light, food, goal, path, draws, find))
  {
    var g := goal;
    var kept := path;
    if goal.None? || goal.value !in food {
      g := ChooseGoal(food, pos, draws);
      kept := [];
      if g.None? {
        return Course(pos, None, []);
      }
    }
    c := ApproachStep(b, pos, s, diag, light, g.value, kept, find);
  }

  class Gatherer {
    const board: SimulationBoard.Board
    const knowledge: Knowledge
    const drop: real
    const useDiagonal: bool
    const lightCompute: bool
    const sightline: int
    var x: int
    var y: int
    var goal: Option<Cell>
    var path: seq<Cell>

    ghost predicate Valid()
      reads this, board
    {
      board.Valid() && board.Inside(x, y) && sightline >= 1 && AllOn(path, board.width, board.height)
    }

    /** The gatherer aims only at known food other than its own square. */
    ghost predicate Settled()
      reads this, knowledge
    {
      goal.Some? ==> goal.value in knowledge.food && goal.value != (x, y)
    }

    /** A sightline that is not positive becomes the board's larger side;
        no goal, no path. */
    constructor (board: SimulationBoard.Board, knowledge: Knowledge, config: Config, x: int, y: int,
                 useDiagonal: bool, sightline: int, lightCompute: bool)
      requires board.Valid() && board.Inside(x, y)
      ensures Valid() && Settled()
      ensures this.board == board && this.knowledge == knowledge && this.x == x && this.y == y
      ensures drop == config.dropByEat && this.useDiagonal == useDiagonal && this.lightCompute == lightCompute
      ensures this.sightline == if sightline > 0 then sightline else Max(board.width, board.height)
      ensures goal == None && path == []
    {
      this.board := board;
      this.knowledge := knowledge;
      this.x, this.y := x, y;
      drop := config.dropByEat;
      this.useDiagonal := useDiagonal;
      this.lightCompute := lightCompute;
      this.sightline := if sightline > 0 then sightline else Max(board.width, board.height);
      goal, path := None, [];
    }

    /** The draws a move needs: enough to hit an unreached food when the
        goal is stale and several foods are known. */
    ghost predicate Drawable(draws: seq<nat>)
      reads this, knowledge
    {
      Stale(knowledge.food, goal) && |knowledge.food| >= 2 ==> Hits(knowledge.food, (x, y), draws, 0)
    }

    /** Where one move takes the gatherer. */
    ghost function Next(draws: seq<nat>, find: Finder): Course
      requires Valid() && Drawable(draws)
      reads this, board, board.blob, board.touched, knowledge
    {
      Gather(board, (x, y), sightline, useDiagonal, lightCompute, knowledge.food, goal, path, draws, find)
    }

    /** A move keeps the gatherer and its path on the board and leaves it
        settled on known food. */
    lemma NextSpec(draws: seq<nat>, find: Finder)
      requires Valid() && Drawable(draws) && FinderContract(find)
      ensures var n := Next(draws, find);
        Lands(n, board.width, board.height) &&
        (n.goal.Some? ==> n.goal.value in knowledge.food && n.goal.value != n.pos)
    {
      GatherSpec(board, (x, y), sightline, useDiagonal, lightCompute, knowledge.food, goal, path, draws, find);
    }

    /** move: replace a stale goal (staying put when none is left), plan when
        there is no path or light compute is off (dropping the goal when the
        search finds nothing), then step along the path. */
    method Move(draws: seq<nat>, find: Finder)
      requires Valid() && Drawable(draws) && FinderContract(find)
      modifies this
      ensures Valid() && Settled()
      ensures Course((x, y), goal, path) == old(Next(draws, find))
    {
      ghost var expected := Next(draws, find);
      NextSpec(draws, find);
      var next := GatherStep(board, (x, y), sightline, useDiagonal, lightCompute, knowledge.food, goal, path, draws, find);
      assert next == expected;
      Apply(next);
    }

    /** The effect of a move: the gatherer takes the computed position, goal
        and path. */
    method Apply(next: Course)
      requires Valid() && Lands(next, board.width, board.height)
      requires next.goal.Some? ==> next.goal.value in knowledge.food && next.goal.value != next.pos
      modifies this
      ensures Valid() && Settled()
      ensures x == next.pos.0 && y == next.pos.1 && goal == next.goal && path == next.path
    {
      x, y, goal, path := next.pos.0, next.pos.1, next.goal, next.path;
    }

    /** reset: no goal, no path, back to (0, 0). */
    method Reset()
      requires Valid()
      modifies this
      ensures Valid() && Settled()
      ensures goal == None && path == [] && x == 0 && y == 0
    {
      goal, path := None, [];
      x, y := 0, 0;
    }
  }
}
