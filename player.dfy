/** The player (player.py, and its copy simulation/player.py): it puts food
    on the board, measures how much of the board the blob covers and cleans
    half of the board at a time. Both copies index the board through
    board_array, which only the legacy board has, so both are modelled by
    one class over LegacyBoard; the blob manager it cleans alongside is the
    legacy one. */
module PlayerModel {
  import opened Common
  import LegacyBoard
  import LegacyManagerModel

  /** ceil(h / 2) for a height h >= 0. */
  function HalfUp(h: nat): nat
  {
    (h + 1) / 2
  }

  /** The first row clean_board cleans: 0 for the top half, int(h / 2)
      for the bottom half. */
  function CleanOffset(top: bool, h: nat): nat
  {
    if top then 0 else h / 2
  }

  /** Whether row j lies in the band (offset, count). */
  predicate InRows(j: int, band: (nat, nat))
  {
    band.0 <= j < band.0 + band.1
  }

  /** The two halves clean_board alternates between lie on the board and
      together cover every row; on an odd height they share the middle row. */
  lemma CleanHalves(h: nat)
    ensures CleanOffset(true, h) + HalfUp(h) <= h && CleanOffset(false, h) + HalfUp(h) == h
    ensures forall j :: 0 <= j < h ==>
      InRows(j, (CleanOffset(true, h), HalfUp(h))) || InRows(j, (CleanOffset(false, h), HalfUp(h)))
    ensures h % 2 == 1 ==> CleanOffset(false, h) < CleanOffset(true, h) + HalfUp(h)
  {
  }

  /** The rows set_random_food draws from: (offset, count). The test for
      None picks the whole board, but it is followed by `if random_top` /
      `elif not random_top`, and not random_top holds for None too, so
      None ends on the bottom half like False. */
  function Band(top: Option<bool>, h: nat): (nat, nat)
  {
    if top == Some(true) then (0, HalfUp(h))
    else (h / 2, HalfUp(h))
  }

  /** With no half asked for, the draws fall in the bottom half, so no food
      ever lands on the top row of a board two or more rows high. */
  lemma NoneIsBottom(h: nat)
    requires h >= 2
    ensures Band(None, h) == Band(Some(false), h)
    ensures Band(None, h).0 > 0
  {
  }

  /** Every band lies on the board and is non-empty on a non-empty board;
      the top and bottom bands together cover every row. */
  lemma BandSpec(top: Option<bool>, h: nat)
    ensures Band(top, h).0 + Band(top, h).1 <= h
    ensures h > 0 ==> Band(top, h).1 > 0
    ensures Band(Some(true), h) == (0, HalfUp(h)) && Band(Some(false), h) == (h / 2, HalfUp(h))
    ensures forall j :: 0 <= j < h ==> InRows(j, Band(Some(true), h)) || InRows(j, Band(Some(false), h))
  {
    CleanHalves(h);
  }

  /** What set_food does to one square of its square of cells: a square the
      blob has not touched gets food, a touched one is left alone. */
  function Fed(sq: LegacyBoard.Square): (r: LegacyBoard.Square)
    ensures r.touched == sq.touched && r.blob == sq.blob
    ensures r.food == (sq.food || !sq.touched)
  {
    if sq.touched then sq else sq.(food := true)
  }

  /** Whether (i, j) lies in the w x h box with corner (x, y). */
  predicate InBox(i: int, j: int, x: int, y: int, w: int, h: int)
  {
    x <= i < x + w && y <= j < y + h
  }

  /** Whether (i, j) lies in the size x size square with corner (x, y). */
  predicate InSquare(i: int, j: int, x: int, y: int, size: int)
  {
    InBox(i, j, x, y, size, size)
  }

  /** The number of touched squares in rows [0, m) of column i. */
  ghost function ColumnTouched(b: LegacyBoard.Board, i: int, m: int): (n: nat)
    reads b, b.cells
    requires b.Valid() && 0 <= i < b.width && 0 <= m <= b.height
    ensures n <= m
  {
    if m == 0 then 0
    else ColumnTouched(b, i, m - 1) + (if b.cells[i, m - 1].touched then 1 else 0)
  }

  /** The number of touched squares in columns [0, k). */
  ghost function Touched(b: LegacyBoard.Board, k: int): (n: nat)
    reads b, b.cells
    requires b.Valid() && 0 <= k <= b.width
  {
    if k == 0 then 0 else Touched(b, k - 1) + ColumnTouched(b, k - 1, b.height)
  }

  /** No more squares are touched than the columns hold. */
  lemma {:induction false} TouchedBound(b: LegacyBoard.Board, k: int)
    requires b.Valid() && 0 <= k <= b.width
    ensures Touched(b, k) <= k * b.height
  {
    if k > 0 {
      TouchedBound(b, k - 1);
      assert (k - 1) * b.height + b.height == k * b.height;
    }
  }

  /** A count of at most w * h squares, as a percentage of w * h. */
  lemma Share(t: nat, w: int, h: int)
    requires w > 0 && h > 0 && t <= w * h
    ensures 0.0 <= (t as real) / ((w * h) as real) * 100.0 <= 100.0
  {
    var area := (w * h) as real;
    assert area > 0.0;
    assert (t as real) <= area;
    assert (t as real) / area <= 1.0;
  }

  class Player {
    const board: LegacyBoard.Board
    const blob: LegacyManagerModel.BlobManager
    var cleanTop: bool

    ghost predicate Valid()
      reads this, board, blob, blob.board, blob.board.blob, blob.knowledge`food, blob.Repr()
    {
      board.Valid() && blob.Valid()
    }

    constructor (board: LegacyBoard.Board, blob: LegacyManagerModel.BlobManager)
      ensures this.board == board && this.blob == blob && cleanTop
    {
      this.board := board;
      this.blob := blob;
      cleanTop := true;
    }

    /** save: the clean_top flag as "1" or "0". */
    method Save() returns (text: string)
      ensures text == LegacyBoard.Flag(cleanTop)
    {
      text := if cleanTop then "1" else "0";
    }

    /** load: clean_top is set exactly when the line read is "1". */
    method Load(line: string)
      modifies this
      ensures cleanTop == (line == "1")
    {
      cleanTop := line == "1";
    }

    /** Whether some square of the size x size square at (x, y) is on the
        board and untouched. */
    ghost predicate Room(x: int, y: int, size: int)
      reads this, board, board.cells
      requires board.Valid()
    {
      exists i, j :: InSquare(i, j, x, y, size) && board.Inside(i, j) && !board.cells[i, j].touched
    }

    /** set_food: every square of the size x size square at (x, y) that is
        on the board and untouched gets food; nothing else changes; true is
        returned exactly when some square got food that way. */
    method SetFood(x: int, y: int, size: int) returns (put: bool)
      requires board.Valid()
      modifies board.cells
      ensures forall i, j :: 0 <= i < board.width && 0 <= j < board.height ==>
        board.cells[i, j] == if InSquare(i, j, x, y, size) then Fed(old(board.cells[i, j])) else old(board.cells[i, j])
      ensures put == old(Room(x, y, size))
    {
      put := false;
      var a := 0;
      while a < size
        invariant 0 <= a <= Max(0, size) && (size <= 0 ==> a == 0)
        invariant forall i, j :: 0 <= i < board.width && 0 <= j < board.height ==>
          board.cells[i, j] == if InBox(i, j, x, y, a, size) then Fed(old(board.cells[i, j])) else old(board.cells[i, j])
        invariant put <==> exists i, j :: InBox(i, j, x, y, a, size) && board.Inside(i, j) && !old(board.cells[i, j]).touched
      {
        var any := FeedColumn(x + a, y, size);
        put := put || any;
        a := a + 1;
      }
      assert put == old(Room(x, y, size)) by {
        if size > 0 {
          assert forall i, j :: InBox(i, j, x, y, a, size) <==> InSquare(i, j, x, y, size);
        } else {
          assert forall i, j :: !InSquare(i, j, x, y, size);
        }
      }
    }

    /** The inner loop of set_food: the cells (i, y), ..., (i, y + size - 1). */
    method FeedColumn(i: int, y: int, size: int) returns (any: bool)
      requires board.Valid()
      modifies board.cells
      ensures forall p, q :: 0 <= p < board.width && 0 <= q < board.height ==>
        board.cells[p, q] == if p == i && y <= q < y + size then Fed(old(board.cells[p, q])) else old(board.cells[p, q])
      ensures any <==> exists q :: y <= q < y + size && board.Inside(i, q) && !old(board.cells[i, q]).touched
    {
      any := false;
      var b := 0;
      while b < size
        invariant 0 <= b <= Max(0, size)
        invariant forall p, q :: 0 <= p < board.width && 0 <= q < board.height ==>
          board.cells[p, q] == if p == i && y <= q < y + b then Fed(old(board.cells[p, q])) else old(board.cells[p, q])
        invariant any <==> exists q :: y <= q < y + b && board.Inside(i, q) && !old(board.cells[i, q]).touched
      {
        if 0 <= i < board.width && 0 <= y + b < board.height {
          if !board.cells[i, y + b].touched {
            board.cells[i, y + b] := board.cells[i, y + b].(food := true);
            any := true;
          }
        }
        b := b + 1;
      }
    }

    /** set_random_food: draws holds the successive pairs of randrange
        results (taken modulo the band's width and height). Each draw names a square of the band; a square
        without food is given food by set_food, and it counts when the blob
        has not touched it. The loop stops at qt new food squares, or when
        the draws run out. */
    method SetRandomFood(qt: int, top: Option<bool>, draws: seq<(nat, nat)>) returns (foods: nat, ghost placed: set<Cell>)
      requires board.Valid() && (qt > 0 ==> board.width > 0 && board.height > 0)
      modifies board.cells
      ensures foods == |placed| && (if qt <= 0 then foods == 0 else foods <= qt)
      ensures forall c :: c in placed ==>
        board.Inside(c.0, c.1) && Band(top, board.height).0 <= c.1 < Band(top, board.height).0 + Band(top, board.height).1 &&
        !old(board.cells[c.0, c.1]).food && !old(board.cells[c.0, c.1]).touched &&
        board.cells[c.0, c.1] == old(board.cells[c.0, c.1]).(food := true)
      ensures forall i, j :: 0 <= i < board.width && 0 <= j < board.height && (i, j) !in placed ==>
        board.cells[i, j] == old(board.cells[i, j])
    {
      var (off, n) := Band(top, board.height);
      BandSpec(top, board.height);
      foods, placed := 0, {};
      var k := 0;
      while foods < qt && k < |draws|
        invariant 0 <= k <= |draws| && foods == |placed| && (if qt <= 0 then foods == 0 else foods <= qt)
        invariant forall c :: c in placed ==>
          board.Inside(c.0, c.1) && off <= c.1 < off + n &&
          !old(board.cells[c.0, c.1]).food && !old(board.cells[c.0, c.1]).touched &&
          board.cells[c.0, c.1] == old(board.cells[c.0, c.1]).(food := true)
        invariant forall i, j :: 0 <= i < board.width && 0 <= j < board.height && (i, j) !in placed ==>
          board.cells[i, j] == old(board.cells[i, j])
      {
        var x := draws[k].0 % board.width;
        var y := off + draws[k].1 % n;
        var ok := PlaceFood(x, y, off, n, placed);
        if ok {
          placed := placed + {(x, y)};
          foods := foods + 1;
        }
        k := k + 1;
      }
    }

    /** The body of set_random_food's loop at the drawn square (x, y) of the
        band (off, n), food having been placed so far on the squares of
        placed: a square without food is handed to set_food, and true comes
        back when it received food. */
    method PlaceFood(x: int, y: int, off: int, n: int, ghost placed: set<Cell>) returns (ok: bool)
      requires board.Valid() && board.Inside(x, y) && off <= y < off + n
      requires forall c :: c in placed ==>
        board.Inside(c.0, c.1) && board.cells[c.0, c.1].food
      modifies board.cells
      ensures ok ==> ((x, y) !in placed && !old(board.cells[x, y]).food && !old(board.cells[x, y]).touched &&
                      board.cells[x, y] == old(board.cells[x, y]).(food := true))
      ensures forall i, j :: 0 <= i < board.width && 0 <= j < board.height && (!ok || (i, j) != (x, y)) ==>
        board.cells[i, j] == old(board.cells[i, j])
    {
      ok := false;
      if !board.HasFood(x, y) {
        ok := SetFood(x, y, 1);
        assert forall i, j :: InSquare(i, j, x, y, 1) <==> (i, j) == (x, y);
      }
    }

    /** check_blob_size: the share of the board's squares the blob has
        touched, in percent. */
    method CheckBlobSize() returns (pct: real)
      requires board.Valid() && board.width > 0 && board.height > 0
      ensures pct == (Touched(board, board.width) as real) / ((board.width * board.height) as real) * 100.0
      ensures 0.0 <= pct <= 100.0
    {
      var size := 0;
      var x := 0;
      while x < board.width
        invariant 0 <= x <= board.width && size == Touched(board, x)
      {
        var y := 0;
        while y < board.height
          invariant 0 <= y <= board.height && size == Touched(board, x) + ColumnTouched(board, x, y)
        {
          if board.cells[x, y].touched {
            size := size + 1;
          }
          y := y + 1;
        }
        x := x + 1;
      }
      TouchedBound(board, board.width);
      pct := (size as real) / ((board.width * board.height) as real) * 100.0;
      Share(size, board.width, board.height);
    }

    /** A square cleaned on the board, in a column < k and a row of [y0, y1). */
    static predicate Swept(c: Cell, k: int, y0: int, y1: int)
    {
      0 <= c.0 < k && y0 <= c.1 < y1
    }

    /** clean_board: every square of the half named by clean_top is reset on
        the board (back to a new square) and in the blob manager (the agents
        on it and the food listed there are dropped, together with the
        target the food added); then the other half is named. */
    method CleanBoard()
      requires Valid()
      modifies this, board.cells, blob, blob.knowledge
      ensures Valid() && cleanTop == !old(cleanTop)
      ensures var off, n := CleanOffset(old(cleanTop), board.height), HalfUp(board.height);
        (forall i, j :: 0 <= i < board.width && 0 <= j < board.height ==>
          board.cells[i, j] == if off <= j < off + n then LegacyBoard.NewSquare() else old(board.cells[i, j])) &&
        (forall a :: a in blob.scouters <==> a in old(blob.scouters) && !Swept((a.x, a.y), board.width, off, off + n)) &&
        (forall c :: c in blob.knowledge.food <==> c in old(blob.knowledge.food) && !Swept(c, board.width, off, off + n))
      ensures blob.knowledge.maxScouters - |blob.knowledge.food| == old(blob.knowledge.maxScouters - |blob.knowledge.food|)
    {
      var n := HalfUp(board.height);
      var off := if cleanTop then 0 else board.height / 2;
      CleanHalves(board.height);
      var x := 0;
      while x < board.width
        invariant 0 <= x <= board.width && Valid() && cleanTop == old(cleanTop)
        invariant forall i, j :: 0 <= i < board.width && 0 <= j < board.height ==>
          board.cells[i, j] == if i < x && off <= j < off + n then LegacyBoard.NewSquare() else old(board.cells[i, j])
        invariant forall a :: a in blob.scouters <==> a in old(blob.scouters) && !Swept((a.x, a.y), x, off, off + n)
        invariant forall c :: c in blob.knowledge.food <==> c in old(blob.knowledge.food) && !Swept(c, x, off, off + n)
        invariant blob.knowledge.maxScouters - |blob.knowledge.food| == old(blob.knowledge.maxScouters - |blob.knowledge.food|)
      {
        CleanColumn(x, off, n);
        x := x + 1;
      }
      cleanTop := !cleanTop;
    }

    /** The inner loop of clean_board: the squares (x, off), ..., (x, off + n - 1). */
    method CleanColumn(x: int, off: int, n: int)
      requires Valid() && 0 <= x < board.width && 0 <= off && off + n <= board.height
      modifies board.cells, blob, blob.knowledge
      ensures Valid()
      ensures forall i, j :: 0 <= i < board.width && 0 <= j < board.height ==>
        board.cells[i, j] == if i == x && off <= j < off + n then LegacyBoard.NewSquare() else old(board.cells[i, j])
      ensures forall a :: a in blob.scouters <==> a in old(blob.scouters) && !(a.x == x && off <= a.y < off + n)
      ensures forall c :: c in blob.knowledge.food <==> c in old(blob.knowledge.food) && !(c.0 == x && off <= c.1 < off + n)
      ensures blob.knowledge.maxScouters - |blob.knowledge.food| == old(blob.knowledge.maxScouters - |blob.knowledge.food|)
    {
      var y := 0;
      while y < n
        invariant 0 <= y <= Max(0, n) && Valid()
        invariant forall i, j :: 0 <= i < board.width && 0 <= j < board.height ==>
          board.cells[i, j] == if i == x && off <= j < off + y then LegacyBoard.NewSquare() else old(board.cells[i, j])
        invariant forall a :: a in blob.scouters <==> a in old(blob.scouters) && !(a.x == x && off <= a.y < off + y)
        invariant forall c :: c in blob.knowledge.food <==> c in old(blob.knowledge.food) && !(c.0 == x && off <= c.1 < off + y)
        invariant blob.knowledge.maxScouters - |blob.knowledge.food| == old(blob.knowledge.maxScouters - |blob.knowledge.food|)
      {
        CleanSquare(x, off + y);
        y := y + 1;
      }
    }

    /** The body of clean_board's loops: reset one square on the board and
        in the blob manager. */
    method CleanSquare(x: int, y: int)
      requires Valid() && board.Inside(x, y)
      modifies board.cells, blob, blob.knowledge
      ensures Valid()
      ensures forall i, j :: 0 <= i < board.width && 0 <= j < board.height ==>
        board.cells[i, j] == if (i, j) == (x, y) then LegacyBoard.NewSquare() else old(board.cells[i, j])
      ensures forall a :: a in blob.scouters <==> a in old(blob.scouters) && (a.x, a.y) != (x, y)
      ensures forall c :: c in blob.knowledge.food <==> c in old(blob.knowledge.food) && c != (x, y)
      ensures blob.knowledge.maxScouters - |blob.knowledge.food| == old(blob.knowledge.maxScouters - |blob.knowledge.food|)
    {
      board.Reset(x, y);
      assert blob.Valid();
      ghost var ants := blob.scouters;
      ghost var food := blob.knowledge.food;
      LegacyManagerModel.AwayAnts(ants, (x, y));
      WithoutMembers(food, (x, y));
      WithoutLength(food, (x, y));
      blob.Reset(x, y);
    }
  }
}
