/** What the agents do around the external A* search: the cost matrix they
    hand it (rows indexed by y, as numpy's transpose gives), the search
    itself as an abstract function with the properties the agents rely on,
    the post-processing of its result (drop the start node, shift every node
    from window coordinates back to board coordinates), and the step an
    agent takes along its path. */
module Pathing {
  import opened Common
  import SimulationBoard

  /** A cost matrix: m[y][x]. */
  type Matrix = seq<seq<real>>

  /** m has h rows of w entries each. */
  predicate Shaped(m: Matrix, w: int, h: int)
  {
    |m| == h && forall j :: 0 <= j < |m| ==> |m[j]| == w
  }

  /** The grid width the finder sees: the length of the first row. */
  function GridWidth(m: Matrix): int
  {
    if |m| == 0 then 0 else |m[0]|
  }

  predicate InGrid(m: Matrix, c: Cell)
  {
    0 <= c.0 < GridWidth(m) && 0 <= c.1 < |m|
  }

  /** A window lying on a w x h board. */
  predicate OnBoard(win: Rect, w: int, h: int)
  {
    0 <= win.x0 <= win.x1 <= w && 0 <= win.y0 <= win.y1 <= h
  }

  /** The cost matrix of a window: the cost of each cell from its intensity
      and touched flag, entry [j][i] for the cell (x0 + i, y0 + j). */
  function CostsOf(b: SimulationBoard.Board, win: Rect, cost: (real, bool) -> real): (m: Matrix)
    requires b.Valid() && OnBoard(win, b.width, b.height)
    reads b, b.blob, b.touched
    ensures Shaped(m, win.Width(), win.Height())
  {
    seq(win.y1 - win.y0, j requires 0 <= j < win.y1 - win.y0 reads b.blob, b.touched =>
      seq(win.x1 - win.x0, i requires 0 <= i < win.x1 - win.x0 reads b.blob, b.touched =>
        cost(b.blob[win.x0 + i, win.y0 + j], b.touched[win.x0 + i, win.y0 + j])))
  }

  /** get_matrix: fill a (width, height) matrix cell by cell, row after row,
      then transpose it. */
  method CostMatrix(b: SimulationBoard.Board, win: Rect, cost: (real, bool) -> real) returns (m: Matrix)
    requires b.Valid() && OnBoard(win, b.width, b.height)
    ensures m == CostsOf(b, win, cost)
  {
    var w, h := win.x1 - win.x0, win.y1 - win.y0;
    var mat := new real[w, h];
    var y := 0;
    while y < h
      invariant 0 <= y <= h
      invariant forall i, j :: 0 <= i < w && 0 <= j < y ==>
        mat[i, j] == cost(b.blob[win.x0 + i, win.y0 + j], b.touched[win.x0 + i, win.y0 + j])
    {
      var x := 0;
      while x < w
        invariant 0 <= x <= w
        invariant forall i, j :: 0 <= i < w && 0 <= j < y ==>
          mat[i, j] == cost(b.blob[win.x0 + i, win.y0 + j], b.touched[win.x0 + i, win.y0 + j])
        invariant forall i :: 0 <= i < x ==>
          mat[i, y] == cost(b.blob[win.x0 + i, win.y0 + y], b.touched[win.x0 + i, win.y0 + y])
      {
        mat[x, y] := cost(b.blob[win.x0 + x, win.y0 + y], b.touched[win.x0 + x, win.y0 + y]);
        x := x + 1;
      }
      y := y + 1;
    }
    m := seq(h, j requires 0 <= j < h reads mat => seq(w, i requires 0 <= i < w reads mat => mat[i, j]));
    ghost var spec := CostsOf(b, win, cost);
    forall j | 0 <= j < h ensures m[j] == spec[j] {
      assert forall i :: 0 <= i < w ==> m[j][i] == spec[j][i];
    }
  }

  /** The path search: (matrix, start, end, diagonal moves) to a list of
      window-local nodes, empty when no path exists. */
  type Finder = (Matrix, Cell, Cell, bool) -> seq<Cell>

  /** What is assumed of the unseen search: a non-empty path starts at the
      start node, never leaves the grid, and ends at the end node when that
      node is on the grid. */
  predicate PathOk(m: Matrix, start: Cell, end: Cell, p: seq<Cell>)
  {
    p == [] ||
    (p[0] == start && (forall i :: 0 <= i < |p| ==> InGrid(m, p[i])) &&
     (InGrid(m, end) ==> p[|p| - 1] == end))
  }

  ghost predicate FinderContract(find: Finder)
  {
    forall m, s, e, d {:trigger find(m, s, e, d)} :: PathOk(m, s, e, find(m, s, e, d))
  }

  /** A node of the window grid shifted back to board coordinates. */
  function Shift(c: Cell, x0: int, y0: int): Cell
  {
    (c.0 + x0, c.1 + y0)
  }

  /** A cell of the board in the coordinates of a window at (x0, y0). */
  function Local(c: Cell, x0: int, y0: int): Cell
  {
    (c.0 - x0, c.1 - y0)
  }

  /** path[1:] with every node shifted by the window origin. */
  function Trimmed(p: seq<Cell>, x0: int, y0: int): (r: seq<Cell>)
    ensures |r| == if p == [] then 0 else |p| - 1
  {
    if p == [] then [] else seq(|p| - 1, i requires 0 <= i < |p| - 1 => Shift(p[i + 1], x0, y0))
  }

  /** path = path[1:], then every node shifted in place, one index at a time. */
  method TrimAndShift(p: seq<Cell>, x0: int, y0: int) returns (r: seq<Cell>)
    ensures r == Trimmed(p, x0, y0)
  {
    r := if |p| == 0 then [] else p[1..];
    var i := 0;
    while i < |r|
      invariant 0 <= i <= |r| && |r| == |Trimmed(p, x0, y0)|
      invariant forall k :: 0 <= k < i ==> r[k] == Shift(p[k + 1], x0, y0)
      invariant forall k :: i <= k < |r| ==> r[k] == p[k + 1]
    {
      r := r[i := Shift(r[i], x0, y0)];
      i := i + 1;
    }
  }

  /** A path the search returned for a window, once trimmed and shifted, lies
      inside that window on the board, and ends at the shifted end node when
      the end node was on the grid. */
  lemma ShiftedPathInWindow(m: Matrix, start: Cell, end: Cell, p: seq<Cell>, win: Rect)
    requires Shaped(m, win.Width(), win.Height()) && win.Height() > 0 && PathOk(m, start, end, p)
    ensures forall i :: 0 <= i < |Trimmed(p, win.x0, win.y0)| ==> win.Contains(Trimmed(p, win.x0, win.y0)[i])
    ensures |p| > 1 && InGrid(m, end) ==> Trimmed(p, win.x0, win.y0)[|p| - 2] == Shift(end, win.x0, win.y0)
  {
    var r := Trimmed(p, win.x0, win.y0);
    forall i | 0 <= i < |r| ensures win.Contains(r[i]) {
      assert InGrid(m, p[i + 1]);
    }
  }

  /** What the agents get from the search on a window's matrix: a path, once
      trimmed and shifted, inside the window, that ends on the shifted end
      node when that node is on the grid. */
  lemma SearchInWindow(m: Matrix, start: Cell, end: Cell, diag: bool, find: Finder, win: Rect)
    requires FinderContract(find) && Shaped(m, win.Width(), win.Height()) && win.Height() > 0
    ensures var p := Trimmed(find(m, start, end, diag), win.x0, win.y0);
      (forall i :: 0 <= i < |p| ==> win.Contains(p[i])) &&
      (p != [] && InGrid(m, end) ==> p[|p| - 1] == Shift(end, win.x0, win.y0))
  {
    var raw := find(m, start, end, diag);
    assert PathOk(m, start, end, raw);
    ShiftedPathInWindow(m, start, end, raw, win);
  }

  /** Shifting undoes Local: the end node handed to the search is the goal. */
  lemma ShiftLocal(c: Cell, x0: int, y0: int)
    ensures Shift(Local(c, x0, y0), x0, y0) == c
  {
  }

  /** Where an agent is, what it aims at and the path it keeps. */
  datatype Course = Course(pos: Cell, goal: Option<Cell>, path: seq<Cell>)

  /** Cells that all lie on a w x h board. */
  predicate AllOn(p: seq<Cell>, w: int, h: int)
  {
    forall i :: 0 <= i < |p| ==> 0 <= p[i].0 < w && 0 <= p[i].1 < h
  }

  /** A course that leaves the agent and its path on a w x h board. */
  predicate Lands(c: Course, w: int, h: int)
  {
    On(c.pos, w, h) && AllOn(c.path, w, h)
  }

  /** One step toward goal g along path p (the cached or freshly searched
      path): no path drops the goal and stays; otherwise the agent moves to
      the head of the path, and reaching g clears goal and path. */
  function Follow(pos: Cell, g: Cell, p: seq<Cell>): Course
  {
    if p == [] then Course(pos, None, [])
    else if p[0] == g then Course(p[0], None, [])
    else Course(p[0], Some(g), p[1..])
  }

  /** After a step the agent never stands on a goal it keeps; it moves
      exactly to the head of a non-empty path, which loses that node. */
  lemma FollowSpec(pos: Cell, g: Cell, p: seq<Cell>)
    ensures var c := Follow(pos, g, p);
      (p == [] ==> c.pos == pos && c.goal == None && c.path == []) &&
      (p != [] ==> c.pos == p[0]) &&
      (c.goal.Some? ==> c.goal == Some(g) && c.pos != g && c.path == p[1..]) &&
      (c.goal.None? ==> c.path == [])
  {
  }

  /** Following a path on the board stays on it, and a path that ends on
      the goal still does after its head is taken. */
  lemma FollowStaysOn(pos: Cell, g: Cell, p: seq<Cell>, w: int, h: int)
    requires On(pos, w, h) && AllOn(p, w, h)
    ensures var c := Follow(pos, g, p);
      On(c.pos, w, h) && AllOn(c.path, w, h) && (c.goal.Some? ==> c.goal == Some(g)) &&
      (p != [] && p[|p| - 1] == g && c.goal.Some? ==> |c.path| > 0 && c.path[|c.path| - 1] == g)
  {
    FollowSpec(pos, g, p);
    if p != [] {
      assert 0 <= p[0].0 < w && 0 <= p[0].1 < h;
    }
  }
}
