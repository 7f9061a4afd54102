/** The first gatherer (blob/gatherer.py): it searches the whole legacy
    board for a path to a known food square, keeps the path exactly as the
    search returns it (start node included) and takes one node per move.
    The base class it extends (blob/dumb_scouter.py) is not part of this
    model; only the fields move uses are kept. */
module LegacyGathererModel {
  import opened Common
  import opened Shared
  import opened Pathing
  import LegacyBoard

  /** get_matrix's cost of a square with intensity blob: 0 (a wall for the
      search) without trail, otherwise MAX_BLOB - blob + 1. */
  function Cost(blob: real): real
  {
    if blob <= 0.0 then 0.0 else LegacyBoard.MAX_BLOB - blob + 1.0
  }

  /** On intensities up to MAX_BLOB, exactly the squares without trail are
      walls; every other cost lies in [1, MAX_BLOB + 1), and a stronger
      trail never costs more. */
  lemma CostBands(b: real, b2: real)
    requires b <= LegacyBoard.MAX_BLOB && b2 <= LegacyBoard.MAX_BLOB
    ensures Cost(b) == 0.0 <==> b <= 0.0
    ensures b > 0.0 ==> 1.0 <= Cost(b) < LegacyBoard.MAX_BLOB + 1.0
    ensures 0.0 < b <= b2 ==> Cost(b2) <= Cost(b)
  {
  }

  /** The whole board's cost matrix, one row per y. */
  ghost function Costs(b: LegacyBoard.Board): (m: Matrix)
    reads b, b.cells
    requires b.Valid()
    ensures Shaped(m, b.width, b.height)
  {
    seq(b.height, j requires 0 <= j < b.height reads b.cells =>
      seq(b.width, i requires 0 <= i < b.width reads b.cells => Cost(b.cells[i, j].blob)))
  }

  /** get_matrix: an empty row appended per y, then filled with the cost of
      each square of that row. */
  method GetMatrix(b: LegacyBoard.Board) returns (m: Matrix)
    requires b.Valid()
    ensures m == Costs(b)
  {
    ghost var spec := Costs(b);
    m := [];
    var y := 0;
    while y < b.height
      invariant 0 <= y <= b.height && |m| == y
      invariant forall j :: 0 <= j < y ==> m[j] == spec[j]
    {
      m := m + [[]];
      var x := 0;
      while x < b.width
        invariant 0 <= x <= b.width && |m| == y + 1
        invariant forall j :: 0 <= j < y ==> m[j] == spec[j]
        invariant m[y] == spec[y][..x]
      {
        m := m[y := m[y] + [Cost(b.cells[x, y].blob)]];
        x := x + 1;
      }
      assert spec[y][..x] == spec[y];
      y := y + 1;
    }
  }

  /** A grid node of the board's matrix is a square of the board. */
  lemma InGridOn(b: LegacyBoard.Board, c: Cell)
    requires b.Valid() && b.height > 0
    ensures InGrid(Costs(b), c) <==> On(c, b.width, b.height)
  {
    assert |Costs(b)[0]| == b.width;
  }

  /** reached: the goal exists and is the agent's square. */
  predicate Reached(pos: Cell, goal: Option<Cell>)
  {
    goal.Some? && goal.value == pos
  }

  /** The known food squares other than pos, in their order. */
  function Goals(food: seq<Cell>, pos: Cell): (r: seq<Cell>)
    ensures forall c :: c in r <==> c in food && c != pos
  {
    if food == [] then []
    else
      var init := Goals(food[..|food| - 1], pos);
      assert food == food[..|food| - 1] + [food[|food| - 1]];
      var f := food[|food| - 1];
      if Reached(pos, Some(f)) then init else init + [f]
  }

  /** choose_goal with pick the value of random.randrange's draw. */
  function Choice(food: seq<Cell>, pos: Cell, pick: nat): Option<Cell>
  {
    var goals := Goals(food, pos);
    if |goals| == 0 then None else Some(goals[pick % |goals|])
  }

  /** There is no goal to choose exactly when every known food square is
      the agent's own; a chosen goal is known food elsewhere. */
  lemma ChoiceSpec(food: seq<Cell>, pos: Cell, pick: nat)
    ensures Choice(food, pos, pick).None? <==> forall f :: f in food ==> f == pos
    ensures Choice(food, pos, pick).Some? ==>
      Choice(food, pos, pick).value in food && Choice(food, pos, pick).value != pos
  {
    var goals := Goals(food, pos);
    if |goals| != 0 {
      assert goals[pick % |goals|] in goals;
      assert goals[0] in goals;
    } else {
      forall f | f in food ensures f == pos {
        assert f !in goals;
      }
    }
  }

  /** Whether the goal must be replaced: there is none, or it is no longer
      known food. */
  predicate Stale(food: seq<Cell>, goal: Option<Cell>)
  {
    goal.None? || goal.value !in food
  }

  /** The second half of a move, once goal g and a non-empty path p are
      known: take the head of p; reaching g drops goal and path; then a
      goal that is gone or stale is replaced when another one is known. */
  function Arrive(food: seq<Cell>, g: Cell, p: seq<Cell>, pick2: nat): Course
    requires p != []
  {
    var pos := p[0];
    var g2 := if Reached(pos, Some(g)) then None else Some(g);
    var rest := if Reached(pos, Some(g)) then [] else p[1..];
    if Reached(pos, g2) || Stale(food, g2) then
      var v := Choice(food, pos, pick2);
      if v.None? then Course(pos, g2, rest) else Course(pos, v, rest)
    else Course(pos, g2, rest)
  }

  /** The first half of a move on course c, on a board whose cost matrix
      is m: a stale goal is replaced by the one pick1 draws, with the path
      dropped; then a search is made when no path is kept or light compute
      is off. No goal, or a search that finds nothing, leaves the gatherer
      with neither goal nor path. */
  function Aimed(m: Matrix, food: seq<Cell>, c: Course, light: bool, diag: bool,
                 pick1: nat, find: Finder): Course
  {
    var g := if Stale(food, c.goal) then Choice(food, c.pos, pick1) else c.goal;
    var kept := if Stale(food, c.goal) then [] else c.path;
    if g.None? then Course(c.pos, None, [])
    else
      var p := if kept == [] || !light then find(m, c.pos, g.value, diag) else kept;
      if p == [] then Course(c.pos, None, []) else Course(c.pos, g, p)
  }

  /** Where one move takes a gatherer on course c; pick1 and pick2 are the
      draws of the two choices of a goal the move may make. */
  function Next(m: Matrix, food: seq<Cell>, c: Course, light: bool, diag: bool,
                pick1: nat, pick2: nat, find: Finder): Course
  {
    var a := Aimed(m, food, c, light, diag, pick1, find);
    if a.goal.None? || a.path == [] then a else Arrive(food, a.goal.value, a.path, pick2)
  }

  /** A move keeps the gatherer and its path on the board and leaves it
      aiming only at known food other than its own square. With no goal to
      choose it stays put with no path. Because the path keeps its start
      node, a move that searches leaves the gatherer on its square; only a
      move along a kept path, with light compute, changes its square, and
      then to the head of that path. */
  lemma {:induction false} NextSpec(b: LegacyBoard.Board, food: seq<Cell>, c: Course, light: bool, diag: bool,
                                    pick1: nat, pick2: nat, find: Finder)
    requires b.Valid() && FinderContract(find) && Lands(c, b.width, b.height)
    ensures var n := Next(Costs(b), food, c, light, diag, pick1, pick2, find);
      Lands(n, b.width, b.height) &&
      (n.goal.Some? ==> n.goal.value in food && n.goal.value != n.pos) &&
      (Stale(food, c.goal) && (forall f :: f in food ==> f == c.pos) ==> n == Course(c.pos, None, [])) &&
      ((Stale(food, c.goal) || c.path == [] || !light) ==> n.pos == c.pos) &&
      (n.pos != c.pos ==> light && !Stale(food, c.goal) && n.pos == c.path[0])
  {
    var a := Aimed(Costs(b), food, c, light, diag, pick1, find);
    AimedSpec(b, food, c, light, diag, pick1, find);
    if a.goal.Some? && a.path != [] {
      ArriveSpec(b, food, a.goal.value, a.path, pick2);
    }
  }

  /** The first half of a move stays on the square and on the board, aims
      only at known food, along a path, and holds a path whose head is another
      square only when it kept its path under light compute. */
  lemma AimedSpec(b: LegacyBoard.Board, food: seq<Cell>, c: Course, light: bool, diag: bool,
                  pick1: nat, find: Finder)
    requires b.Valid() && FinderContract(find) && Lands(c, b.width, b.height)
    ensures var a := Aimed(Costs(b), food, c, light, diag, pick1, find);
      a.pos == c.pos && Lands(a, b.width, b.height) &&
      (a.goal.Some? ==> a.goal.value in food && a.path != []) &&
      (Stale(food, c.goal) && (forall f :: f in food ==> f == c.pos) ==> a == Course(c.pos, None, [])) &&
      (a.path != [] && a.path[0] != c.pos ==> light && !Stale(food, c.goal) && a.path == c.path)
  {
    var m := Costs(b);
    ChoiceSpec(food, c.pos, pick1);
    var g := if Stale(food, c.goal) then Choice(food, c.pos, pick1) else c.goal;
    var kept := if Stale(food, c.goal) then [] else c.path;
    if g.Some? && (kept == [] || !light) {
      var p := find(m, c.pos, g.value, diag);
      assert PathOk(m, c.pos, g.value, p);
      forall i | 0 <= i < |p| ensures On(p[i], b.width, b.height) {
        InGridOn(b, p[i]);
      }
    }
  }

  /** The second half of a move lands on the head of the path, on the
      board, and aims only at known food elsewhere. */
  lemma ArriveSpec(b: LegacyBoard.Board, food: seq<Cell>, g: Cell, p: seq<Cell>, pick2: nat)
    requires p != [] && AllOn(p, b.width, b.height) && g in food
    ensures var n := Arrive(food, g, p, pick2);
      n.pos == p[0] && Lands(n, b.width, b.height) &&
      (n.goal.Some? ==> n.goal.value in food && n.goal.value != n.pos)
  {
    ChoiceSpec(food, p[0], pick2);
    assert AllOn(p[1..], b.width, b.height);
  }

  class Gatherer {
    const board: LegacyBoard.Board
    const knowledge: Knowledge
    const drop: real
    const useDiagonal: bool
    const lightCompute: bool
    var x: int
    var y: int
    var goal: Option<Cell>
    var path: seq<Cell>

    ghost predicate Valid()
      reads this, board
    {
      board.Valid() && board.Inside(x, y) && AllOn(path, board.width, board.height)
    }

    /** The gatherer aims only at known food other than its own square. */
    ghost predicate Settled()
      reads this, knowledge
    {
      goal.Some? ==> goal.value in knowledge.food && goal.value != (x, y)
    }

    /** No goal, no path; diagonal moves and light compute default to on in
        the source. */
    constructor (board: LegacyBoard.Board, knowledge: Knowledge, x: int, y: int, drop: real,
                 useDiagonal: bool, lightCompute: bool)
      requires board.Valid() && board.Inside(x, y)
      ensures Valid() && Settled()
      ensures this.board == board && this.knowledge == knowledge && this.x == x && this.y == y
      ensures this.drop == drop && this.useDiagonal == useDiagonal && this.lightCompute == lightCompute
      ensures goal == None && path == []
    {
      this.board := board;
      this.knowledge := knowledge;
      this.x, this.y := x, y;
      this.drop := drop;
      this.useDiagonal := useDiagonal;
      this.lightCompute := lightCompute;
      goal, path := None, [];
    }

    /** choose_goal: the known food squares not reached, then the one the
        draw picks. */
    method ChooseGoal(pick: nat) returns (g: Option<Cell>)
      ensures g == Choice(knowledge.food, (x, y), pick)
    {
      var food := knowledge.food;
      var goals: seq<Cell> := [];
      var i := 0;
      while i < |food|
        invariant 0 <= i <= |food|
        invariant goals == Goals(food[..i], (x, y))
      {
        assert food[..i + 1][..i] == food[..i];
        if !Reached((x, y), Some(food[i])) {
          goals := goals + [food[i]];
        }
        i := i + 1;
      }
      assert food[..i] == food;
      if |goals| == 0 {
        return None;
      }
      g := Some(goals[pick % |goals|]);
    }

    /** best_way_to: the path the search finds on the board's matrix from
        the agent's square to the goal, kept as returned. */
    method BestWayTo(find: Finder)
      requires Valid() && goal.Some? && FinderContract(find)
      modifies this
      ensures Valid() && x == old(x) && y == old(y) && goal == old(goal)
      ensures path == find(Costs(board), (x, y), goal.value, useDiagonal)
    {
      var m := GetMatrix(board);
      path := find(m, (x, y), goal.value, useDiagonal);
      assert PathOk(m, (x, y), goal.value, path);
      forall i | 0 <= i < |path| ensures On(path[i], board.width, board.height) {
        InGridOn(board, path[i]);
      }
    }

    /** move: replace a stale goal (staying put when none is left), search
        when there is no path or light compute is off (dropping the goal
        when the search finds nothing), take the head of the path, then
        replace a reached goal when another is known. */
    method Move(pick1: nat, pick2: nat, find: Finder)
      requires Valid() && FinderContract(find)
      modifies this
      ensures Valid() && Settled()
      ensures Course((x, y), goal, path) ==
        old(Next(Costs(board), knowledge.food, Course((x, y), goal, path), lightCompute, useDiagonal, pick1, pick2, find))
    {
      NextSpec(board, knowledge.food, Course((x, y), goal, path), lightCompute, useDiagonal, pick1, pick2, find);
      Aim(pick1, find);
      if goal.Some? {
        Advance(pick2);
      }
    }

    /** The first half of move: replace a stale goal, dropping the path, and
        stop when none is left; search when there is no path or light
        compute is off, and drop the goal when the search finds nothing. */
    method Aim(pick1: nat, find: Finder)
      requires Valid() && FinderContract(find)
      modifies this
      ensures Valid() && (goal.Some? <==> path != [])
      ensures Course((x, y), goal, path) ==
        old(Aimed(Costs(board), knowledge.food, Course((x, y), goal, path), lightCompute, useDiagonal, pick1, find))
    {
      if goal.None? || goal.value !in knowledge.food {
        goal := ChooseGoal(pick1);
        path := [];
        if goal.None? {
          return;
        }
      }
      if |path| == 0 || !lightCompute {
        BestWayTo(find);
        if |path| == 0 {
          goal := None;
          return;
        }
      }
    }

    /** The second half of move: pop the head of the path and step there,
        drop a reached goal, and replace it when another food is known. */
    method Advance(pick2: nat)
      requires Valid() && goal.Some? && path != []
      modifies this
      ensures Valid()
      ensures Course((x, y), goal, path) == old(Arrive(knowledge.food, goal.value, path, pick2))
    {
      var next := path[0];
      path := path[1..];
      x, y := next.0, next.1;
      if Reached((x, y), goal) {
        goal, path := None, [];
      }
      if Reached((x, y), goal) || goal.None? || goal.value !in knowledge.food {
        var v := ChooseGoal(pick2);
        if v.None? {
          return;
        }
        goal := v;
      }
    }

    /** reset: no goal, no path, back to (0, 0). */
    method Reset()
      requires Valid() && board.Inside(0, 0)
      modifies this
      ensures Valid() && Settled()
      ensures goal == None && path == [] && x == 0 && y == 0
    {
      goal, path := None, [];
      x, y := 0, 0;
    }
  }
}
