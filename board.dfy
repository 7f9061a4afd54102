/** The simulation board (simulation/board.py): a width x height grid whose
    cells hold a trail intensity ("dropped blob") clamped to [0, 255], a food
    amount and a "touched" flag. The three numpy arrays of the source are
    indexed [x, y] and are modelled as three array2 fields of the same shape. */
module SimulationBoard {
  import opened Common

  const MAX_BLOB: real := 255.0
  const MIN_BLOB: real := 0.0
  const INIT_FOOD: real := 100.0

  /** max(MIN_BLOB, min(v, MAX_BLOB)), the clamp applied by update_blob. */
  function Clamp(v: real): (r: real)
    ensures MIN_BLOB <= r <= MAX_BLOB
    ensures MIN_BLOB <= v <= MAX_BLOB ==> r == v
    ensures v < MIN_BLOB ==> r == MIN_BLOB
    ensures MAX_BLOB < v ==> r == MAX_BLOB
  {
    MaxR(MIN_BLOB, MinR(v, MAX_BLOB))
  }

  /** The intensity a cell has after one manage_blob pass: touched cells lose
      `value`, except food cells whose intensity is already at or below the floor. */
  function Decayed(b: real, t: bool, f: real, value: real, floor: real): real
  {
    if t && !(f > 0.0 && b <= floor) then Clamp(b - value) else b
  }

  lemma DecayedCases(b: real, t: bool, f: real, value: real, floor: real)
    requires MIN_BLOB <= b <= MAX_BLOB && 0.0 <= value
    ensures !t ==> Decayed(b, t, f, value, floor) == b
    ensures t && f > 0.0 && b <= floor ==> Decayed(b, t, f, value, floor) == b
    ensures t && !(f > 0.0 && b <= floor) ==> Decayed(b, t, f, value, floor) == MaxR(0.0, b - value)
    ensures MIN_BLOB <= Decayed(b, t, f, value, floor) <= b
  {
  }

  /** What eat_food(x, y, a) returns and leaves on a cell holding food f:
      (consumed, remaining food). */
  function EatOutcome(f: real, a: real): (real, real)
  {
    if f > 0.0 then
      if f - a >= 0.0 then (a, f - a) else (f, 0.0)
    else (0.0, f)
  }

  lemma EatOutcomeSpec(f: real, a: real)
    requires 0.0 <= a
    ensures f > 0.0 ==> EatOutcome(f, a).0 == MinR(a, f)
    ensures f > 0.0 ==> EatOutcome(f, a).1 == f - EatOutcome(f, a).0 >= 0.0
    ensures f > 0.0 ==> (EatOutcome(f, a).1 <= 0.0 <==> a >= f)
    ensures f <= 0.0 ==> EatOutcome(f, a) == (0.0, f)
  {
  }

  /** The size check of compare as written: it gives up only when BOTH
      dimensions differ (`and` where `or` was meant). */
  predicate CompareRejectsAsWritten(w: int, h: int, ow: int, oh: int)
  {
    oh != h && ow != w
  }

  /** A 2 x 2 board compared with a 2 x 1 board passes the size check as
      written, and the comparison loop then reads row y = 1 of the smaller
      board, which does not exist. */
  lemma CompareAsWrittenReadsOutside()
    ensures !CompareRejectsAsWritten(2, 2, 2, 1)
    ensures IsCell(2, 2, 0, 1) && !IsCell(2, 1, 0, 1)
  {
  }

  /** (x, y) is a cell of a w x h board. */
  predicate IsCell(w: int, h: int, x: int, y: int)
  {
    0 <= x < w && 0 <= y < h
  }

  /** The corrected size check: compare proceeds only on equal dimensions,
      and then every cell it visits exists on both boards. */
  predicate Comparable(w: int, h: int, ow: int, oh: int)
  {
    w == ow && h == oh
  }

  lemma ComparableReadsInside(w: int, h: int, ow: int, oh: int)
    requires Comparable(w, h, ow, oh)
    ensures forall x, y :: IsCell(w, h, x, y) ==> IsCell(ow, oh, x, y)
    ensures !CompareRejectsAsWritten(w, h, ow, oh)
  {
  }

  class Board {
    const width: int
    const height: int
    const blob: array2<real>
    const foods: array2<real>
    const touched: array2<bool>

    /** The three arrays have shape (width, height). */
    ghost predicate Valid()
      reads this
    {
      blob.Length0 == width && blob.Length1 == height &&
      foods.Length0 == width && foods.Length1 == height &&
      touched.Length0 == width && touched.Length1 == height &&
      blob != foods
    }

    /** Every intensity lies in [MIN_BLOB, MAX_BLOB]. (A board built by
        compare holds differences and need not satisfy this.) */
    ghost predicate Bounded()
      reads this, blob
      requires Valid()
    {
      forall x, y :: 0 <= x < width && 0 <= y < height ==> MIN_BLOB <= blob[x, y] <= MAX_BLOB
    }

    constructor (w: nat, h: nat)
      ensures Valid() && Bounded() && width == w && height == h
      ensures fresh(blob) && fresh(foods) && fresh(touched)
      ensures forall x, y :: 0 <= x < w && 0 <= y < h ==>
        blob[x, y] == 0.0 && foods[x, y] == 0.0 && !touched[x, y]
    {
      width, height := w, h;
      blob := new real[w, h]((x, y) => 0.0);
      foods := new real[w, h]((x, y) => 0.0);
      touched := new bool[w, h]((x, y) => false);
    }

    predicate Inside(x: int, y: int)
      reads this
    {
      0 <= x < width && 0 <= y < height
    }

    function HasFood(x: int, y: int): bool
      reads this, foods
      requires Valid()
    {
      Inside(x, y) && foods[x, y] > 0.0
    }

    function GetBlob(x: int, y: int): Option<real>
      reads this, blob
      requires Valid()
    {
      if Inside(x, y) then Some(blob[x, y]) else None
    }

    function IsTouched(x: int, y: int): bool
      reads this, touched
      requires Valid()
    {
      if Inside(x, y) then touched[x, y] else false
    }

    /** Queries are bounds-checked: outside the grid there is no food, no
        touch and no intensity; inside they read the cell. */
    lemma QueriesOutside(x: int, y: int)
      requires Valid()
      ensures !Inside(x, y) ==> !HasFood(x, y) && !IsTouched(x, y) && GetBlob(x, y) == None
      ensures Inside(x, y) ==>
        GetBlob(x, y) == Some(blob[x, y]) &&
        (HasFood(x, y) <==> foods[x, y] > 0.0) && (IsTouched(x, y) <==> touched[x, y])
    {
    }

    /** Food is written only where there is none, so existing food is never
        overwritten. The arrays have no bounds check: (x, y) must be a cell. */
    method SetFood(x: int, y: int, value: real)
      requires Valid() && Inside(x, y)
      modifies foods
      ensures foods[x, y] == if old(foods[x, y]) > 0.0 then old(foods[x, y]) else value
      ensures forall i, j :: 0 <= i < width && 0 <= j < height && (i, j) != (x, y) ==>
        foods[i, j] == old(foods[i, j])
    {
      if !(foods[x, y] > 0.0) {
        foods[x, y] := value;
      }
    }

    method RemoveFood(x: int, y: int)
      requires Valid() && Inside(x, y)
      modifies foods
      ensures foods[x, y] == if old(foods[x, y]) > 0.0 then 0.0 else old(foods[x, y])
      ensures !HasFood(x, y)
      ensures forall i, j :: 0 <= i < width && 0 <= j < height && (i, j) != (x, y) ==>
        foods[i, j] == old(foods[i, j])
    {
      if foods[x, y] > 0.0 {
        foods[x, y] := 0.0;
      }
    }

    /** Inside the grid: the cell becomes touched and its intensity becomes
        Clamp(old + delta); outside: nothing changes and false is returned. */
    method UpdateBlob(x: int, y: int, delta: real) returns (ok: bool)
      requires Valid()
      modifies blob, touched
      ensures ok == Inside(x, y)
      ensures ok ==> touched[x, y] && blob[x, y] == Clamp(old(blob[x, y]) + delta)
      ensures forall i, j :: 0 <= i < width && 0 <= j < height && (i, j) != (x, y) ==>
        blob[i, j] == old(blob[i, j]) && touched[i, j] == old(touched[i, j])
      ensures old(Bounded()) ==> Bounded()
    {
      if Inside(x, y) {
        touched[x, y] := true;
        blob[x, y] := Clamp(blob[x, y] + delta);
        ok := true;
      } else {
        ok := false;
      }
    }

    /** Consume up to `amount` of the food of (x, y): returns what was
        consumed and whether the cell is now empty. No bounds check. */
    method EatFood(x: int, y: int, amount: real) returns (consumed: real, finished: bool)
      requires Valid() && Inside(x, y)
      modifies foods
      ensures (consumed, foods[x, y]) == EatOutcome(old(foods[x, y]), amount)
      ensures finished <==> foods[x, y] <= 0.0
      ensures forall i, j :: 0 <= i < width && 0 <= j < height && (i, j) != (x, y) ==>
        foods[i, j] == old(foods[i, j])
    {
      consumed := amount;
      if foods[x, y] > 0.0 {
        if foods[x, y] - consumed >= 0.0 {
          foods[x, y] := foods[x, y] - consumed;
        } else {
          consumed := foods[x, y];
          foods[x, y] := 0.0;
        }
      } else {
        consumed := 0.0;
      }
      finished := foods[x, y] <= 0.0;
    }

    /** Inside the grid the cell becomes untouched with no intensity and no food. */
    method Reset(x: int, y: int)
      requires Valid()
      modifies blob, foods, touched
      ensures Inside(x, y) ==> !touched[x, y] && blob[x, y] == 0.0 && foods[x, y] == 0.0
      ensures forall i, j :: 0 <= i < width && 0 <= j < height && (i, j) != (x, y) ==>
        blob[i, j] == old(blob[i, j]) && foods[i, j] == old(foods[i, j]) &&
        touched[i, j] == old(touched[i, j])
      ensures old(Bounded()) ==> Bounded()
    {
      if Inside(x, y) {
        touched[x, y] := false;
        blob[x, y] := 0.0;
        foods[x, y] := 0.0;
      }
    }

    /** Touched cells (x, y) of row y with x < x1. */
    function RowCount(y: int, x1: int): (n: nat)
      reads this, touched
      requires Valid() && 0 <= y < height && 0 <= x1 <= width
      ensures n <= x1
      decreases x1
    {
      if x1 == 0 then 0 else RowCount(y, x1 - 1) + (if touched[x1 - 1, y] then 1 else 0)
    }

    /** Touched cells in rows [y0, y1). */
    function CountRows(y0: int, y1: int): (n: nat)
      reads this, touched
      requires Valid() && 0 <= y0 <= y1 <= height
      ensures n <= width * (y1 - y0)
      decreases y1 - y0
    {
      if y0 == y1 then 0
      else
        assert width * (y1 - y0) == width * (y1 - 1 - y0) + width;
        CountRows(y0, y1 - 1) + RowCount(y1 - 1, width)
    }

    lemma {:induction false} CountRowsSplit(y0: int, m: int, y1: int)
      requires Valid() && 0 <= y0 <= m <= y1 <= height
      ensures CountRows(y0, y1) == CountRows(y0, m) + CountRows(m, y1)
      decreases y1 - m
    {
      if m < y1 {
        CountRowsSplit(y0, m, y1 - 1);
      }
    }

    /** get_cover: the percentage of touched cells, over the whole board or,
        doubled, over the top rows [0, h/2) (half 1) or the bottom rows [h/2, h) (half 2). */
    function Cover(half: int): real
      reads this, touched
      requires Valid() && width > 0 && height > 0
    {
      var count :=
        if half == 1 then CountRows(0, height / 2) * 2
        else if half == 2 then CountRows(height / 2, height) * 2
        else CountRows(0, height);
      count as real / height as real / width as real * 100.0
    }

    /** Whole-board and top-half coverage lie in [0, 100]. */
    lemma CoverBounds(half: int)
      requires Valid() && width > 0 && height > 0 && half != 2
      ensures 0.0 <= Cover(half) <= 100.0
    {
      if half == 1 {
        var top := CountRows(0, height / 2);
        TopHalfAtMost(top, width, height);
        PercentAtMost(top * 2, width * height, height, width);
      } else {
        PercentAtMost(CountRows(0, height), width * height, height, width);
      }
    }

    /** The bottom half holds ceil(h/2) rows, so doubled its coverage can
        reach 100 * 2 * ceil(h/2) / h, above 100 for an odd height. */
    lemma CoverBottomBound()
      requires Valid() && width > 0 && height > 0
      ensures 0.0 <= Cover(2) <= 100.0 * (2 * (height - height / 2)) as real / height as real
    {
      var bottom := CountRows(height / 2, height);
      assert bottom * 2 <= width * (2 * (height - height / 2)) by {
        assert bottom <= width * (height - height / 2);
      }
      PercentOfRows(bottom * 2, 2 * (height - height / 2), height, width);
    }

    /** For an even height the whole-board coverage is the mean of the two halves. */
    lemma CoverHalvesMean()
      requires Valid() && width > 0 && height > 0 && height % 2 == 0
      ensures Cover(0) == (Cover(1) + Cover(2)) / 2.0
    {
      var top, bottom := CountRows(0, height / 2), CountRows(height / 2, height);
      CountRowsSplit(0, height / 2, height);
      PercentMean(top as real, bottom as real, height as real, width as real);
    }

    /** Sum of the intensities blob[x, y] for y0 <= y < y1 (np.sum over one column slice). */
    function ColumnSum(x: int, y0: int, y1: int): real
      reads this, blob
      requires Valid() && 0 <= x < width && 0 <= y0 <= y1 <= height
      decreases y1 - y0
    {
      if y1 == y0 then 0.0 else ColumnSum(x, y0, y1 - 1) + blob[x, y1 - 1]
    }

    /** Sum of the intensities over the rectangle r (np.sum over a 2-D slice). */
    function RectSum(r: Rect): real
      reads this, blob
      requires Valid() && 0 <= r.x0 <= r.x1 <= width && 0 <= r.y0 <= r.y1 <= height
      decreases r.x1 - r.x0
    {
      if r.x1 == r.x0 then 0.0 else RectSum(r.(x1 := r.x1 - 1)) + ColumnSum(r.x1 - 1, r.y0, r.y1)
    }

    lemma {:induction false} ColumnSumBounds(x: int, y0: int, y1: int)
      requires Valid() && Bounded() && 0 <= x < width && 0 <= y0 <= y1 <= height
      ensures 0.0 <= ColumnSum(x, y0, y1) <= MAX_BLOB * (y1 - y0) as real
      decreases y1 - y0
    {
      if y1 > y0 {
        ColumnSumBounds(x, y0, y1 - 1);
      }
    }

    /** On a bounded board a rectangle sums to at most MAX_BLOB per cell. */
    lemma {:induction false} RectSumBounds(r: Rect)
      requires Valid() && Bounded() && 0 <= r.x0 <= r.x1 <= width && 0 <= r.y0 <= r.y1 <= height
      ensures 0.0 <= RectSum(r) <= MAX_BLOB * (r.Width() * r.Height()) as real
      decreases r.x1 - r.x0
    {
      if r.x1 > r.x0 {
        RectSumBounds(r.(x1 := r.x1 - 1));
        ColumnSumBounds(r.x1 - 1, r.y0, r.y1);
        assert r.Width() * r.Height() == (r.Width() - 1) * r.Height() + r.Height();
      }
    }

    /** get_blob_total: the mean intensity as a percentage of MAX_BLOB. */
    method BlobTotal() returns (pct: real)
      requires Valid() && width > 0 && height > 0
      ensures pct == RectSum(Rect(0, 0, width, height)) / height as real / width as real / MAX_BLOB * 100.0
      ensures Bounded() ==> 0.0 <= pct <= 100.0
    {
      var total := 0.0;
      var x := 0;
      while x < width
        invariant 0 <= x <= width
        invariant total == RectSum(Rect(0, 0, x, height))
      {
        var y := 0;
        while y < height
          invariant 0 <= y <= height
          invariant total == RectSum(Rect(0, 0, x, height)) + ColumnSum(x, 0, y)
        {
          total := total + blob[x, y];
          y := y + 1;
        }
        x := x + 1;
      }
      pct := total / height as real / width as real / MAX_BLOB * 100.0;
      if Bounded() {
        RectSumBounds(Rect(0, 0, width, height));
        MeanPercentAtMost(total, height, width);
      }
    }

    /** manage_blob: one decay pass over every cell; the touched flags do not change. */
    method ManageBlob(value: real, floor: real)
      requires Valid()
      modifies blob, touched
      ensures forall x, y :: 0 <= x < width && 0 <= y < height ==>
        blob[x, y] == Decayed(old(blob[x, y]), old(touched[x, y]), foods[x, y], value, floor) &&
        touched[x, y] == old(touched[x, y])
      ensures old(Bounded()) ==> Bounded()
    {
      var x := 0;
      while x < width
        invariant 0 <= x <= width
        invariant forall i, j :: 0 <= i < x && 0 <= j < height ==>
          blob[i, j] == Decayed(old(blob[i, j]), old(touched[i, j]), foods[i, j], value, floor)
        invariant forall i, j :: x <= i < width && 0 <= j < height ==> blob[i, j] == old(blob[i, j])
        invariant forall i, j :: 0 <= i < width && 0 <= j < height ==> touched[i, j] == old(touched[i, j])
      {
        var y := 0;
        while y < height
          invariant 0 <= y <= height
          invariant forall i, j :: 0 <= i < x && 0 <= j < height ==>
            blob[i, j] == Decayed(old(blob[i, j]), old(touched[i, j]), foods[i, j], value, floor)
          invariant forall j :: 0 <= j < y ==>
            blob[x, j] == Decayed(old(blob[x, j]), old(touched[x, j]), foods[x, j], value, floor)
          invariant forall j :: y <= j < height ==> blob[x, j] == old(blob[x, j])
          invariant forall i, j :: x < i < width && 0 <= j < height ==> blob[i, j] == old(blob[i, j])
          invariant forall i, j :: 0 <= i < width && 0 <= j < height ==> touched[i, j] == old(touched[i, j])
        {
          if touched[x, y] {
            if !(foods[x, y] > 0.0 && blob[x, y] <= floor) {
              blob[x, y] := Clamp(blob[x, y] - value);
              touched[x, y] := true;
            }
          }
          y := y + 1;
        }
        x := x + 1;
      }
      if old(Bounded()) {
        forall i, j | 0 <= i < width && 0 <= j < height
          ensures MIN_BLOB <= blob[i, j] <= MAX_BLOB
        {
        }
      }
    }

    /** compare: a new board holding other - this for food and intensity and
        "equal" for the touched flags; None when the sizes differ (corrected
        guard, see CompareRejectsAsWritten). */
    method Compare(other: Board) returns (r: Option<Board>)
      requires Valid() && other.Valid()
      ensures r.None? <==> !Comparable(width, height, other.width, other.height)
      ensures r.Some? ==>
        fresh(r.value) && fresh(r.value.blob) && fresh(r.value.foods) &&
        fresh(r.value.touched) && r.value.Valid() &&
        r.value.width == width && r.value.height == height
      ensures r.Some? ==> forall x, y :: 0 <= x < width && 0 <= y < height ==>
        r.value.foods[x, y] == other.foods[x, y] - foods[x, y] &&
        r.value.blob[x, y] == other.blob[x, y] - blob[x, y] &&
        (r.value.touched[x, y] <==> touched[x, y] == other.touched[x, y])
    {
      if !Comparable(width, height, other.width, other.height) {
        return None;
      }
      var comp := new Board(width, height);
      var x := 0;
      while x < width
        invariant 0 <= x <= width
        invariant forall i, j :: 0 <= i < x && 0 <= j < height ==>
          comp.foods[i, j] == other.foods[i, j] - foods[i, j] &&
          comp.blob[i, j] == other.blob[i, j] - blob[i, j] &&
          (comp.touched[i, j] <==> touched[i, j] == other.touched[i, j])
      {
        CompareColumn(other, comp, x);
        x := x + 1;
      }
      r := Some(comp);
    }

    /** One column of compare: column x of comp gets the differences, the
        other columns keep their values. */
    method CompareColumn(other: Board, comp: Board, x: int)
      requires Valid() && other.Valid() && comp.Valid()
      requires other.width == width && other.height == height && comp.width == width && comp.height == height
      requires 0 <= x < width
      requires comp.blob != blob && comp.blob != foods && comp.blob != other.blob && comp.blob != other.foods
      requires comp.foods != blob && comp.foods != foods && comp.foods != other.blob && comp.foods != other.foods
      requires comp.touched != touched && comp.touched != other.touched
      modifies comp.blob, comp.foods, comp.touched
      ensures forall j :: 0 <= j < height ==>
        comp.foods[x, j] == other.foods[x, j] - foods[x, j] &&
        comp.blob[x, j] == other.blob[x, j] - blob[x, j] &&
        (comp.touched[x, j] <==> touched[x, j] == other.touched[x, j])
      ensures forall i, j :: 0 <= i < width && i != x && 0 <= j < height ==>
        comp.foods[i, j] == old(comp.foods[i, j]) && comp.blob[i, j] == old(comp.blob[i, j]) &&
        comp.touched[i, j] == old(comp.touched[i, j])
    {
      var y := 0;
      while y < height
        invariant 0 <= y <= height
        invariant forall j :: 0 <= j < y ==>
          comp.foods[x, j] == other.foods[x, j] - foods[x, j] &&
          comp.blob[x, j] == other.blob[x, j] - blob[x, j] &&
          (comp.touched[x, j] <==> touched[x, j] == other.touched[x, j])
        invariant forall i, j :: 0 <= i < width && i != x && 0 <= j < height ==>
          comp.foods[i, j] == old(comp.foods[i, j]) && comp.blob[i, j] == old(comp.blob[i, j]) &&
          comp.touched[i, j] == old(comp.touched[i, j])
      {
        comp.foods[x, y] := other.foods[x, y] - foods[x, y];
        comp.touched[x, y] := touched[x, y] == other.touched[x, y];
        comp.blob[x, y] := other.blob[x, y] - blob[x, y];
        y := y + 1;
      }
    }
  }

  /** count / h / w * 100 <= 100 when count <= w * h. */
  lemma PercentAtMost(count: int, cap: int, h: int, w: int)
    requires 0 <= count <= cap && cap == w * h && h > 0 && w > 0
    ensures 0.0 <= count as real / h as real / w as real * 100.0 <= 100.0
  {
    var hr, wr := h as real, w as real;
    IntMulReal(w, h);
    DivLe(count as real, wr * hr, hr);
    MulDiv(wr, hr);
    var perRow := count as real / hr;
    assert 0.0 <= perRow <= wr;
    DivLe(perRow, wr, wr);
    assert 0.0 <= perRow / wr <= 1.0;
  }

  /** total / h / w / MAX_BLOB * 100 <= 100 when total <= MAX_BLOB * w * h. */
  lemma MeanPercentAtMost(total: real, h: int, w: int)
    requires h > 0 && w > 0 && 0.0 <= total <= MAX_BLOB * (w * h) as real
    ensures 0.0 <= total / h as real / w as real / MAX_BLOB * 100.0 <= 100.0
  {
    var hr, wr := h as real, w as real;
    var cap := (MAX_BLOB * wr) * hr;
    assert total <= cap by {
      IntMulReal(w, h);
      assert MAX_BLOB * (wr * hr) == cap;
    }
    var perRow := total / hr;
    DivLe(total, cap, hr);
    MulDiv(MAX_BLOB * wr, hr);
    assert 0.0 <= perRow <= MAX_BLOB * wr;
    var perCell := perRow / wr;
    DivLe(perRow, MAX_BLOB * wr, wr);
    MulDiv(MAX_BLOB, wr);
    assert 0.0 <= perCell <= MAX_BLOB;
    var ratio := perCell / MAX_BLOB;
    DivLe(perCell, MAX_BLOB, MAX_BLOB);
    assert 0.0 <= ratio <= 1.0;
  }

  lemma IntMulReal(a: int, b: int)
    ensures (a * b) as real == a as real * b as real
  {
  }

  lemma TopHalfAtMost(top: int, w: int, h: int)
    requires 0 <= top <= w * (h / 2) && 0 < w && 0 < h
    ensures top * 2 <= w * h
  {
    assert 2 * (w * (h / 2)) == w * (2 * (h / 2));
    assert w * (2 * (h / 2)) <= w * h;
  }

  lemma DivLe(a: real, b: real, d: real)
    requires d > 0.0 && a <= b
    ensures a / d <= b / d
  {
  }

  lemma MulDiv(x: real, d: real)
    requires d > 0.0
    ensures (x * d) / d == x
  {
  }

  /** count / h / w * 100 <= 100 * rows / h when count <= w * rows. */
  lemma PercentOfRows(count: int, rows: int, h: int, w: int)
    requires 0 <= count && 0 <= rows && h > 0 && w > 0 && count <= w * rows
    ensures 0.0 <= count as real / h as real / w as real * 100.0 <= 100.0 * rows as real / h as real
  {
    var hr, wr := h as real, w as real;
    assert count as real <= wr * rows as real;
    assert count as real / hr <= wr * rows as real / hr;
    assert count as real / hr / wr <= rows as real / hr;
  }

  lemma PercentMean(top: real, bottom: real, h: real, w: real)
    requires h > 0.0 && w > 0.0
    ensures (top + bottom) / h / w * 100.0 ==
      ((top * 2.0) / h / w * 100.0 + (bottom * 2.0) / h / w * 100.0) / 2.0
  {
    var k := 100.0 / (h * w);
    assert (top + bottom) / h / w * 100.0 == (top + bottom) * k;
    assert (top * 2.0) / h / w * 100.0 == top * 2.0 * k;
    assert (bottom * 2.0) / h / w * 100.0 == bottom * 2.0 * k;
  }
}
