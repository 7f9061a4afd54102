/** The first board of the project (board.py): a width x height grid of
    Square cells, each holding a food flag, a touched flag and a trail
    intensity. A Square is never shared between two cells (the constructor
    and reset create a new one per cell), so it is modelled as a value and
    the grid as an array2 of those values. */
module LegacyBoard {
  import opened Common
  import opened Text
  import SimulationBoard

  const MAX_BLOB: real := 255.0
  const DECREASE_BLOB: real := 0.1

  datatype Square = Square(food: bool, touched: bool, blob: real)

  /** A new Square: no food, untouched, no intensity. */
  function NewSquare(): (sq: Square)
    ensures !sq.food && !sq.touched && sq.blob == 0.0
  {
    Square(false, false, 0.0)
  }

  /** Square.update_blob: the square becomes touched and its intensity is
      clamped into [0, MAX_BLOB]; food is untouched. */
  function UpdatedSquare(sq: Square, delta: real): (r: Square)
    ensures r.touched && r.food == sq.food
    ensures 0.0 <= r.blob <= MAX_BLOB
    ensures 0.0 <= sq.blob + delta <= MAX_BLOB ==> r.blob == sq.blob + delta
    ensures sq.blob + delta < 0.0 ==> r.blob == 0.0
    ensures MAX_BLOB < sq.blob + delta ==> r.blob == MAX_BLOB
  {
    sq.(touched := true, blob := SimulationBoard.Clamp(sq.blob + delta))
  }

  /** A square after one next_turn pass: touched squares lose DECREASE_BLOB,
      except food squares while the food lock is on. */
  function Aged(sq: Square, foodLock: bool): Square
  {
    if sq.touched && !(foodLock && sq.food) then UpdatedSquare(sq, -DECREASE_BLOB) else sq
  }

  lemma AgedCases(sq: Square, foodLock: bool)
    requires 0.0 <= sq.blob <= MAX_BLOB
    ensures !sq.touched ==> Aged(sq, foodLock) == sq
    ensures foodLock && sq.food ==> Aged(sq, foodLock) == sq
    ensures sq.touched && !(foodLock && sq.food) ==>
      Aged(sq, foodLock) == sq.(blob := MaxR(0.0, sq.blob - DECREASE_BLOB))
    ensures Aged(sq, foodLock).touched == sq.touched && Aged(sq, foodLock).food == sq.food
  {
  }

  /** format(b, 'd'): "1" for True, "0" for False. */
  function Flag(b: bool): string
  {
    if b then "1" else "0"
  }

  /** Square.save: "touched,food,blob", the intensity written by `fmt`
      (Python's str on a number). */
  function SaveSquare(sq: Square, fmt: real -> string): string
  {
    Flag(sq.touched) + "," + Flag(sq.food) + "," + fmt(sq.blob)
  }

  /** Square.load: split on ','; a flag is set iff its field is "1"; the
      intensity is read by `parse` (Python's float). Fewer than three fields
      make the source fail (None). */
  function LoadSquare(node: string, parse: string -> real): Option<Square>
  {
    var values := Split(node, ',');
    if |values| < 3 then None
    else Some(Square(values[1] == "1", values[0] == "1", parse(values[2])))
  }

  /** Loading a saved square restores both flags, and the intensity as
      parse reads back what fmt wrote. */
  lemma {:induction false} LoadSaveSquare(sq: Square, fmt: real -> string, parse: string -> real)
    requires ',' !in fmt(sq.blob)
    ensures LoadSquare(SaveSquare(sq, fmt), parse) == Some(sq.(blob := parse(fmt(sq.blob))))
  {
    var parts := [Flag(sq.touched), Flag(sq.food), fmt(sq.blob)];
    assert Join(parts[..2], ',') == Flag(sq.touched) + "," + Flag(sq.food) by {
      assert parts[..2][..1] == [Flag(sq.touched)];
    }
    assert Join(parts, ',') == SaveSquare(sq, fmt);
    SplitJoin(parts, ',');
  }

  /** The text written for a number contains none of the separators of the
      save format. */
  ghost predicate FormatOk(fmt: real -> string)
  {
    forall r {:trigger Clean(fmt(r))} :: Clean(fmt(r))
  }

  /** t holds no space, comma or newline. */
  predicate Clean(t: string)
  {
    t == [] || (t[0] != ' ' && t[0] != ',' && t[0] != '\n' && Clean(t[1..]))
  }

  lemma {:induction false} CleanHasNoSeparator(t: string)
    requires Clean(t)
    ensures ' ' !in t && ',' !in t && '\n' !in t
  {
    if t != [] {
      CleanHasNoSeparator(t[1..]);
      assert t == [t[0]] + t[1..];
    }
  }

  class Board {
    const width: int
    const height: int
    const cells: array2<Square>

    ghost predicate Valid()
      reads this
    {
      cells.Length0 == width && cells.Length1 == height
    }

    ghost predicate Bounded()
      reads this, cells
      requires Valid()
    {
      forall x, y :: 0 <= x < width && 0 <= y < height ==> 0.0 <= cells[x, y].blob <= MAX_BLOB
    }

    constructor (w: nat, h: nat)
      ensures Valid() && Bounded() && width == w && height == h && fresh(cells)
      ensures forall x, y :: 0 <= x < w && 0 <= y < h ==> cells[x, y] == NewSquare()
    {
      width, height := w, h;
      cells := new Square[w, h]((x, y) => NewSquare());
    }

    predicate Inside(x: int, y: int)
      reads this
    {
      0 <= x < width && 0 <= y < height
    }

    function HasFood(x: int, y: int): bool
      reads this, cells
      requires Valid()
    {
      Inside(x, y) && cells[x, y].food
    }

    function GetBlob(x: int, y: int): Option<real>
      reads this, cells
      requires Valid()
    {
      if Inside(x, y) then Some(cells[x, y].blob) else None
    }

    function IsTouched(x: int, y: int): bool
      reads this, cells
      requires Valid()
    {
      if Inside(x, y) then cells[x, y].touched else false
    }

    /** Queries are bounds-checked: outside the grid there is no food, no
        touch and no intensity. */
    lemma QueriesOutside(x: int, y: int)
      requires Valid()
      ensures !Inside(x, y) ==> !HasFood(x, y) && !IsTouched(x, y) && GetBlob(x, y) == None
      ensures Inside(x, y) ==>
        GetBlob(x, y) == Some(cells[x, y].blob) &&
        (HasFood(x, y) <==> cells[x, y].food) && (IsTouched(x, y) <==> cells[x, y].touched)
    {
    }

    /** Inside the grid the square is updated and true returned; outside
        nothing changes. */
    method UpdateBlob(x: int, y: int, delta: real) returns (ok: bool)
      requires Valid()
      modifies cells
      ensures ok == Inside(x, y)
      ensures ok ==> cells[x, y] == UpdatedSquare(old(cells[x, y]), delta)
      ensures forall i, j :: 0 <= i < width && 0 <= j < height && (i, j) != (x, y) ==>
        cells[i, j] == old(cells[i, j])
      ensures old(Bounded()) ==> Bounded()
    {
      if Inside(x, y) {
        cells[x, y] := UpdatedSquare(cells[x, y], delta);
        ok := true;
      } else {
        ok := false;
      }
    }

    /** next_turn: one decay pass over every square. */
    method NextTurn(foodLock: bool)
      requires Valid()
      modifies cells
      ensures forall x, y :: 0 <= x < width && 0 <= y < height ==>
        cells[x, y] == Aged(old(cells[x, y]), foodLock)
      ensures old(Bounded()) ==> Bounded()
    {
      var x := 0;
      while x < width
        invariant 0 <= x <= width
        invariant forall i, j :: 0 <= i < x && 0 <= j < height ==> cells[i, j] == Aged(old(cells[i, j]), foodLock)
        invariant forall i, j :: x <= i < width && 0 <= j < height ==> cells[i, j] == old(cells[i, j])
      {
        var y := 0;
        while y < height
          invariant 0 <= y <= height
          invariant forall i, j :: 0 <= i < x && 0 <= j < height ==> cells[i, j] == Aged(old(cells[i, j]), foodLock)
          invariant forall j :: 0 <= j < y ==> cells[x, j] == Aged(old(cells[x, j]), foodLock)
          invariant forall i, j :: x <= i < width && 0 <= j < height && (i > x || j >= y) ==>
            cells[i, j] == old(cells[i, j])
        {
          if cells[x, y].touched {
            if !(foodLock && cells[x, y].food) {
              cells[x, y] := UpdatedSquare(cells[x, y], -DECREASE_BLOB);
            }
          }
          y := y + 1;
        }
        x := x + 1;
      }
    }

    /** reset: inside the grid the square is replaced by a new one. */
    method Reset(x: int, y: int)
      requires Valid()
      modifies cells
      ensures Inside(x, y) ==> cells[x, y] == NewSquare()
      ensures forall i, j :: 0 <= i < width && 0 <= j < height && (i, j) != (x, y) ==>
        cells[i, j] == old(cells[i, j])
      ensures old(Bounded()) ==> Bounded()
    {
      if Inside(x, y) {
        cells[x, y] := NewSquare();
      }
    }

    /** The saved texts of the squares (0, y) .. (n - 1, y). */
    function RowTexts(y: int, n: int, fmt: real -> string): (r: seq<string>)
      reads this, cells
      requires Valid() && 0 <= y < height && 0 <= n <= width
      ensures |r| == n
    {
      if n == 0 then [] else RowTexts(y, n - 1, fmt) + [SaveSquare(cells[n - 1, y], fmt)]
    }

    lemma {:induction false} RowTextsAt(y: int, n: int, fmt: real -> string, x: int)
      requires Valid() && 0 <= y < height && 0 <= x < n <= width
      ensures RowTexts(y, n, fmt)[x] == SaveSquare(cells[x, y], fmt)
      decreases n
    {
      if x < n - 1 {
        RowTextsAt(y, n - 1, fmt, x);
      }
    }

    /** The lines of rows 0 .. n - 1: the saved squares of a row joined by spaces. */
    function Lines(n: int, fmt: real -> string): (r: seq<string>)
      reads this, cells
      requires Valid() && 0 <= n <= height
      ensures |r| == n
    {
      if n == 0 then [] else Lines(n - 1, fmt) + [Join(RowTexts(n - 1, width, fmt), ' ')]
    }

    lemma {:induction false} LinesAt(n: int, fmt: real -> string, y: int)
      requires Valid() && 0 <= y < n <= height
      ensures Lines(n, fmt)[y] == Join(RowTexts(y, width, fmt), ' ')
      decreases n
    {
      if y < n - 1 {
        LinesAt(n - 1, fmt, y);
      }
    }

    /** save: one line per row y, the squares of the row in x order separated
        by one space, lines separated by '\n' (a board without columns saves
        as the empty text, the source stripping its empty lines). */
    method Save(fmt: real -> string) returns (text: string)
      requires Valid() && FormatOk(fmt)
      ensures text == if width == 0 then "" else Join(Lines(height, fmt), '\n')
    {
      ghost var lines := Lines(height, fmt);
      text := "";
      var y := 0;
      while y < height
        invariant 0 <= y <= height
        invariant text == Terminated(lines[..y], '\n')
      {
        var nodes := RowNodes(y, fmt);
        RowStep(text, y, fmt);
        text := RStrip(text + nodes, ' ') + "\n";
        y := y + 1;
      }
      SaveEnd(text, fmt);
      text := RStrip(text, '\n');
    }

    /** The inner loop of save: the saved squares of row y in x order, each
        followed by a space. */
    method RowNodes(y: int, fmt: real -> string) returns (nodes: string)
      requires Valid() && 0 <= y < height
      ensures nodes == Terminated(RowTexts(y, width, fmt), ' ')
    {
      nodes := "";
      var x := 0;
      while x < width
        invariant 0 <= x <= width
        invariant nodes == Terminated(RowTexts(y, x, fmt), ' ')
      {
        TerminatedSnoc(RowTexts(y, x, fmt), SaveSquare(cells[x, y], fmt), ' ');
        nodes := nodes + SaveSquare(cells[x, y], fmt) + " ";
        x := x + 1;
      }
    }

    /** One pass of the row loop of save extends the saved lines by row y. */
    lemma RowStep(text: string, y: int, fmt: real -> string)
      requires Valid() && FormatOk(fmt) && 0 <= y < height
      requires text == Terminated(Lines(height, fmt)[..y], '\n')
      ensures RStrip(text + Terminated(RowTexts(y, width, fmt), ' '), ' ') + "\n" ==
        Terminated(Lines(height, fmt)[..y + 1], '\n')
    {
      var lines := Lines(height, fmt);
      var row := Join(RowTexts(y, width, fmt), ' ');
      assert RStrip(text, ' ') == text by {
        TerminatedEnd(lines[..y], '\n');
        RStripNone(text, ' ');
      }
      assert RStrip(text + Terminated(RowTexts(y, width, fmt), ' '), ' ') == text + row by {
        StripRow(text, y, fmt);
      }
      assert Terminated(lines[..y + 1], '\n') == text + row + "\n" by {
        LinesAt(height, fmt, y);
        TakeOneMore(lines, y);
        TerminatedSnoc(lines[..y], row, '\n');
      }
    }

    /** Stripping the trailing space of a row leaves the joined row. */
    lemma StripRow(before: string, y: int, fmt: real -> string)
      requires Valid() && FormatOk(fmt) && 0 <= y < height
      requires RStrip(before, ' ') == before
      ensures RStrip(before + Terminated(RowTexts(y, width, fmt), ' '), ' ') ==
        before + Join(RowTexts(y, width, fmt), ' ')
    {
      var row := RowTexts(y, width, fmt);
      if width == 0 {
        assert before + Terminated(row, ' ') == before;
        assert before + Join(row, ' ') == before;
      } else {
        assert |row[width - 1]| > 0 && row[width - 1][|row[width - 1]| - 1] != ' ' by {
          RowTextsAt(y, width, fmt, width - 1);
          SaveSquareLast(cells[width - 1, y], fmt);
        }
        StripJoined(before, row);
      }
    }

    /** The final rstrip of save leaves the joined lines. */
    lemma SaveEnd(text: string, fmt: real -> string)
      requires Valid() && FormatOk(fmt)
      requires text == Terminated(Lines(height, fmt)[..height], '\n')
      ensures RStrip(text, '\n') == if width == 0 then "" else Join(Lines(height, fmt), '\n')
    {
      assert Lines(height, fmt)[..height] == Lines(height, fmt);
      StripLines(fmt);
    }

    /** Stripping the trailing newlines leaves the joined lines. */
    lemma StripLines(fmt: real -> string)
      requires Valid() && FormatOk(fmt)
      ensures RStrip(Terminated(Lines(height, fmt), '\n'), '\n') ==
        if width == 0 then "" else Join(Lines(height, fmt), '\n')
    {
      var lines := Lines(height, fmt);
      if width == 0 {
        EmptyLinesStrip(height, fmt);
      } else if height > 0 {
        TerminatedJoin(lines, '\n');
        var row := RowTexts(height - 1, width, fmt);
        SaveSquareLast(cells[width - 1, height - 1], fmt);
        JoinLast(row, ' ');
        JoinLast(lines, '\n');
        RStripOne(Join(lines, '\n'), '\n');
      }
    }

    lemma {:induction false} EmptyLinesStrip(n: int, fmt: real -> string)
      requires Valid() && width == 0 && 0 <= n <= height
      ensures RStrip(Terminated(Lines(n, fmt), '\n'), '\n') == ""
      decreases n
    {
      if n > 0 {
        EmptyLinesStrip(n - 1, fmt);
        var prev := Terminated(Lines(n - 1, fmt), '\n');
        assert Join(RowTexts(n - 1, width, fmt), ' ') == "";
        TerminatedSnoc(Lines(n - 1, fmt), "", '\n');
        var t := prev + "" + "\n";
        assert t[..|t| - 1] == prev;
      }
    }

    lemma LineClean(fmt: real -> string, i: int)
      requires Valid() && FormatOk(fmt) && 0 <= i < height
      ensures '\n' !in Lines(height, fmt)[i]
    {
      var row := RowTexts(i, width, fmt);
      forall k | 0 <= k < width ensures '\n' !in row[k] {
        NodeClean(fmt, i, k);
      }
      NotInJoin(row, ' ', '\n');
      LinesAt(height, fmt, i);
    }

    lemma NodeClean(fmt: real -> string, y: int, x: int)
      requires Valid() && FormatOk(fmt) && 0 <= y < height && 0 <= x < width
      ensures ' ' !in RowTexts(y, width, fmt)[x] && '\n' !in RowTexts(y, width, fmt)[x]
    {
      RowTextsAt(y, width, fmt, x);
      var f := fmt(cells[x, y].blob);
      assert Clean(fmt(cells[x, y].blob));
      CleanHasNoSeparator(f);
      var t := SaveSquare(cells[x, y], fmt);
      assert t == Flag(cells[x, y].touched) + "," + Flag(cells[x, y].food) + "," + f;
    }

    /** Reading a saved board back: splitting the text on '\n' gives one line
        per row, splitting a line on ' ' one node per column, and loading the
        node of (x, y) restores the flags of that square and the intensity as
        parse reads back what fmt wrote. */
    lemma SaveRoundTrip(fmt: real -> string, parse: string -> real, x: int, y: int)
      requires Valid() && FormatOk(fmt) && Inside(x, y)
      ensures var lines := Split(Join(Lines(height, fmt), '\n'), '\n');
        |lines| == height && lines[y] == Join(RowTexts(y, width, fmt), ' ') &&
        var nodes := Split(lines[y], ' ');
        |nodes| == width &&
        LoadSquare(nodes[x], parse) == Some(cells[x, y].(blob := parse(fmt(cells[x, y].blob))))
    {
      var lines := Lines(height, fmt);
      forall i | 0 <= i < height ensures '\n' !in lines[i] {
        LineClean(fmt, i);
      }
      SplitJoin(lines, '\n');
      LinesAt(height, fmt, y);
      var row := RowTexts(y, width, fmt);
      forall i | 0 <= i < width ensures ' ' !in row[i] {
        NodeClean(fmt, y, i);
      }
      SplitJoin(row, ' ');
      RowTextsAt(y, width, fmt, x);
      assert Clean(fmt(cells[x, y].blob));
      CleanHasNoSeparator(fmt(cells[x, y].blob));
      LoadSaveSquare(cells[x, y], fmt, parse);
    }

  }

  /** Stripping the spaces after a terminated run of parts whose last part
      does not end with a space leaves their join. */
  lemma StripJoined(before: string, row: seq<string>)
    requires |row| >= 1 && |row[|row| - 1]| > 0 && row[|row| - 1][|row[|row| - 1]| - 1] != ' '
    ensures RStrip(before + Terminated(row, ' '), ' ') == before + Join(row, ' ')
  {
    TerminatedJoin(row, ' ');
    JoinLast(row, ' ');
    assert before + Terminated(row, ' ') == (before + Join(row, ' ')) + [' '];
    RStripOne(before + Join(row, ' '), ' ');
  }

  /** The saved text of a square ends with neither a space nor a newline. */
  lemma SaveSquareLast(sq: Square, fmt: real -> string)
    requires FormatOk(fmt)
    ensures var t := SaveSquare(sq, fmt); |t| > 0 && t[|t| - 1] != ' ' && t[|t| - 1] != '\n'
  {
    var t := SaveSquare(sq, fmt);
    var f := fmt(sq.blob);
    assert Clean(fmt(sq.blob));
    CleanHasNoSeparator(f);
    if |f| > 0 {
      assert t[|t| - 1] == f[|f| - 1];
    } else {
      assert t[|t| - 1] == ',';
    }
  }
}
