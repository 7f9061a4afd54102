/** The colony manager: it seeds the known-food list from the board, keeps
    the population of adapting ants at a target computed from the board
    statistics, runs one tick of every ant, replaces the ants that could not
    move, and lets the trail decay. */
module BlobManagerModel {
  import opened Common
  import opened Shared
  import opened Pathing
  import SimulationBoard
  import GathererModel
  import FSMAntModel

  /** Every cell of the board, in the order of the nested x / y loops. */
  function AllCells(b: SimulationBoard.Board): (cs: seq<Cell>)
    reads b
  {
    Cells(Rect(0, 0, b.width, b.height))
  }

  lemma {:induction false} ColumnNoDup(x: int, y0: int, y1: int)
    ensures NoDup(Column(x, y0, y1))
    decreases y1 - y0
  {
    if y1 > y0 {
      ColumnNoDup(x, y0, y1 - 1);
    }
  }

  /** The nested loops visit every cell once. */
  lemma {:induction false} CellsNoDup(r: Rect)
    ensures NoDup(Cells(r))
    decreases r.x1 - r.x0
  {
    if r.x1 > r.x0 {
      var left, col := Cells(r.(x1 := r.x1 - 1)), Column(r.x1 - 1, r.y0, r.y1);
      CellsNoDup(r.(x1 := r.x1 - 1));
      ColumnNoDup(r.x1 - 1, r.y0, r.y1);
      forall i, j | 0 <= i < j < |left + col| ensures (left + col)[i] != (left + col)[j] {
        if i < |left| && j >= |left| {
          assert (left + col)[i] in left && (left + col)[j] in col;
        }
      }
    }
  }

  // ---------------------------------------------------------------------
  // The initial food list

  /** The cells of cs that hold food and are touched, in order. */
  function FoodCells(b: SimulationBoard.Board, cs: seq<Cell>): seq<Cell>
    reads b, b.foods, b.touched
    requires b.Valid()
  {
    if cs == [] then []
    else
      var c := cs[|cs| - 1];
      FoodCells(b, cs[..|cs| - 1]) + (if b.HasFood(c.0, c.1) && b.IsTouched(c.0, c.1) then [c] else [])
  }

  /** The food list holds exactly the cells of cs that have food and are touched. */
  lemma {:induction false} FoodCellsSpec(b: SimulationBoard.Board, cs: seq<Cell>)
    requires b.Valid()
    ensures forall c :: c in FoodCells(b, cs) <==> c in cs && b.HasFood(c.0, c.1) && b.IsTouched(c.0, c.1)
  {
    if cs != [] {
      FoodCellsSpec(b, cs[..|cs| - 1]);
      assert cs == cs[..|cs| - 1] + [cs[|cs| - 1]];
    }
  }

  /** Filtering a list without repetitions gives one without repetitions. */
  lemma {:induction false} FoodCellsNoDup(b: SimulationBoard.Board, cs: seq<Cell>)
    requires b.Valid() && NoDup(cs)
    ensures NoDup(FoodCells(b, cs))
  {
    if cs != [] {
      var init, c := cs[..|cs| - 1], cs[|cs| - 1];
      assert NoDup(init) by {
        forall i, j | 0 <= i < j < |init| ensures init[i] != init[j] {
          assert init[i] == cs[i] && init[j] == cs[j];
        }
      }
      FoodCellsNoDup(b, init);
      FoodCellsSpec(b, init);
      assert c !in init by {
        forall i | 0 <= i < |init| ensures init[i] != c {
          assert init[i] == cs[i];
        }
      }
    }
  }

  // ---------------------------------------------------------------------
  // The target population

  /** The weighted board statistics of compute_max_scouters, scaled by the
      global factor and the board area over 100000 (true division). */
  function Demand(c: Config, blobPct: real, cover: real, known: int, w: int, h: int): real
  {
    (c.blobSizeFactor * blobPct + c.coveringFactor * cover + c.knownFoodsFactor * known as real)
      * (c.globalFactor * ((h * w) as real / 100000.0))
  }

  /** compute_max_scouters: the truncated demand, never below Scouters / Min. */
  function MaxScouters(c: Config, blobPct: real, cover: real, known: int, w: int, h: int): (n: int)
    ensures n >= c.minScouters
    ensures n >= Trunc(Demand(c, blobPct, cover, known, w, h))
  {
    Max(c.minScouters, Trunc(Demand(c, blobPct, cover, known, w, h)))
  }

  /** The factors of compute_max_scouters are weights: none negative. */
  predicate Weights(c: Config)
  {
    0.0 <= c.blobSizeFactor && 0.0 <= c.coveringFactor && 0.0 <= c.knownFoodsFactor && 0.0 <= c.globalFactor
  }

  lemma TruncMono(a: real, b: real)
    requires a <= b
    ensures Trunc(a) <= Trunc(b)
  {
  }

  lemma ScaleMono(a: real, b: real, k: real)
    requires a <= b && 0.0 <= k
    ensures a * k <= b * k
  {
    assert b * k - a * k == (b - a) * k;
    GathererModel.MulNonNeg(b - a, k);
  }

  /** With weights, every further known food raises the target population
      or leaves it as it is. */
  lemma MoreFoodMoreScouters(c: Config, blobPct: real, cover: real, k1: int, k2: int, w: int, h: int)
    requires Weights(c) && 0 <= w && 0 <= h && k1 <= k2
    ensures MaxScouters(c, blobPct, cover, k1, w, h) <= MaxScouters(c, blobPct, cover, k2, w, h)
  {
    var base := c.blobSizeFactor * blobPct + c.coveringFactor * cover;
    var scale := c.globalFactor * ((h * w) as real / 100000.0);
    GathererModel.MulNonNeg(h as real, w as real);
    assert (h * w) as real == h as real * w as real;
    GathererModel.MulNonNeg(c.globalFactor, (h * w) as real / 100000.0);
    ScaleMono(k1 as real, k2 as real, c.knownFoodsFactor);
    assert k1 as real * c.knownFoodsFactor == c.knownFoodsFactor * k1 as real;
    assert k2 as real * c.knownFoodsFactor == c.knownFoodsFactor * k2 as real;
    ScaleMono(base + c.knownFoodsFactor * k1 as real, base + c.knownFoodsFactor * k2 as real, scale);
    TruncMono(Demand(c, blobPct, cover, k1, w, h), Demand(c, blobPct, cover, k2, w, h));
  }

  /** get_blob_total: the mean intensity as a percentage of MAX_BLOB. */
  ghost function BlobPct(b: SimulationBoard.Board): real
    reads b, b.blob
    requires b.Valid() && b.width > 0 && b.height > 0
  {
    b.RectSum(Rect(0, 0, b.width, b.height)) / b.height as real / b.width as real / SimulationBoard.MAX_BLOB * 100.0
  }

  // ---------------------------------------------------------------------
  // find_blob_square

  /** The touched cells of cs, each weighted by its intensity + 1. */
  function Availables(b: SimulationBoard.Board, cs: seq<Cell>): seq<(Cell, real)>
    reads b, b.blob, b.touched
    requires b.Valid()
  {
    if cs == [] then []
    else
      Availables(b, cs[..|cs| - 1]) + Available(b, cs[|cs| - 1])
  }

  /** One square of find_blob_square's first loop: its entry if it is touched. */
  function Available(b: SimulationBoard.Board, c: Cell): seq<(Cell, real)>
    reads b, b.blob, b.touched
    requires b.Valid()
  {
    if b.IsTouched(c.0, c.1) then [(c, b.blob[c.0, c.1] + 1.0)] else []
  }

  /** The entries are the touched cells of cs with their weights; there are
      none exactly when no cell of cs is touched. */
  lemma {:induction false} AvailablesSpec(b: SimulationBoard.Board, cs: seq<Cell>)
    requires b.Valid()
    ensures var ps := Availables(b, cs);
      (forall i :: 0 <= i < |ps| ==>
        ps[i].0 in cs && b.IsTouched(ps[i].0.0, ps[i].0.1) && ps[i].1 == b.blob[ps[i].0.0, ps[i].0.1] + 1.0) &&
      (ps == [] <==> forall c :: c in cs ==> !b.IsTouched(c.0, c.1))
  {
    if cs != [] {
      var c := cs[|cs| - 1];
      assert cs == cs[..|cs| - 1] + [c];
      AvailablesSpec(b, cs[..|cs| - 1]);
    }
  }

  /** The total weight of ps, summed in order. */
  function Weight(ps: seq<(Cell, real)>): real
  {
    if ps == [] then 0.0 else Weight(ps[..|ps| - 1]) + ps[|ps| - 1].1
  }

  /** Weights of at least 1 add up to at least the number of entries. */
  lemma {:induction false} WeightAtLeastCount(ps: seq<(Cell, real)>)
    requires forall i :: 0 <= i < |ps| ==> ps[i].1 >= 1.0
    ensures Weight(ps) >= |ps| as real
  {
    if ps != [] {
      WeightAtLeastCount(ps[..|ps| - 1]);
    }
  }

  /** The running weight up to and including entry j falls short of r. */
  predicate Short(ps: seq<(Cell, real)>, r: real, j: int)
    requires 0 <= j < |ps|
  {
    Weight(ps[..j + 1]) < r
  }

  /** The first index, from k on, whose running weight reaches r (|ps| if none). */
  function Reach(ps: seq<(Cell, real)>, r: real, k: nat): (i: nat)
    requires k <= |ps|
    ensures k <= i <= |ps|
    ensures i < |ps| ==> !Short(ps, r, i)
    ensures forall j :: k <= j < i ==> Short(ps, r, j)
    decreases |ps| - k
  {
    if k == |ps| then k
    else if !Short(ps, r, k) then k
    else Reach(ps, r, k + 1)
  }

  /** A draw within the total weight always reaches some entry. */
  lemma ReachFound(ps: seq<(Cell, real)>, r: real)
    requires |ps| > 0 && r <= Weight(ps)
    ensures Reach(ps, r, 0) < |ps|
  {
    assert ps[..|ps|] == ps;
    assert !Short(ps, r, |ps| - 1);
  }

  /** The square find_blob_square returns for a draw of randrange: (0, 0)
      when no square is touched; otherwise the first touched square whose
      running weight reaches draw mod int(total weight). */
  function BlobSquare(b: SimulationBoard.Board, draw: nat): Cell
    reads b, b.blob, b.touched
    requires b.Valid() && b.Bounded()
  {
    var ps := Availables(b, AllCells(b));
    if ps == [] then (0, 0)
    else
      DrawInRange(b, draw);
      var r := (draw % Trunc(Weight(ps))) as real;
      ReachFound(ps, r);
      ps[Reach(ps, r, 0)].0
  }

  /** Every weight is at least 1, so the drawn index lies below the total weight. */
  lemma DrawInRange(b: SimulationBoard.Board, draw: nat)
    requires b.Valid() && b.Bounded() && Availables(b, AllCells(b)) != []
    ensures var w := Weight(Availables(b, AllCells(b)));
      Trunc(w) >= 1 && (draw % Trunc(w)) as real <= w
  {
    AvailablesSpec(b, AllCells(b));
    WeightAtLeastCount(Availables(b, AllCells(b)));
  }

  /** The returned square is on the board: a touched one whenever some square is touched. */
  lemma BlobSquareSpec(b: SimulationBoard.Board, draw: nat)
    requires b.Valid() && b.Bounded() && b.width > 0 && b.height > 0
    ensures var c := BlobSquare(b, draw);
      b.Inside(c.0, c.1) &&
      ((exists d :: d in AllCells(b) && b.IsTouched(d.0, d.1)) <==> b.IsTouched(c.0, c.1))
  {
    var ps := Availables(b, AllCells(b));
    AvailablesSpec(b, AllCells(b));
    if ps != [] {
      WeightAtLeastCount(ps);
      ReachFound(ps, (draw % Trunc(Weight(ps))) as real);
    }
  }

  /** find_blob_square: collect the weighted touched squares, then walk the
      running weight up to the drawn index. */
  method FindBlobSquare(b: SimulationBoard.Board, draw: nat) returns (c: Cell)
    requires b.Valid() && b.Bounded()
    ensures c == BlobSquare(b, draw)
  {
    var ps, total := CollectAvailables(b);
    if |ps| == 0 {
      return (0, 0);
    }
    DrawInRange(b, draw);
    var r := (draw % Trunc(total)) as real;
    var k := WalkWeights(ps, r);
    c := ps[k].0;
  }

  /** The second loop of find_blob_square: add up the weights until the
      running total reaches r. */
  method WalkWeights(ps: seq<(Cell, real)>, r: real) returns (k: nat)
    requires |ps| > 0 && r <= Weight(ps)
    ensures k == Reach(ps, r, 0) && k < |ps|
  {
    ReachFound(ps, r);
    var acc := 0.0;
    k := 0;
    while k < |ps|
      invariant 0 <= k <= Reach(ps, r, 0)
      invariant acc == Weight(ps[..k])
    {
      assert ps[..k + 1][..k] == ps[..k];
      acc := acc + ps[k].1;
      if acc >= r {
        assert !Short(ps, r, k);
        return;
      }
      k := k + 1;
    }
  }

  /** The first loop of find_blob_square: the weighted touched squares and their total. */
  method CollectAvailables(b: SimulationBoard.Board) returns (ps: seq<(Cell, real)>, total: real)
    requires b.Valid()
    ensures ps == Availables(b, AllCells(b)) && total == Weight(ps)
  {
    ps, total := [], 0.0;
    var x := 0;
    while x < b.width
      invariant 0 <= x <= b.width
      invariant ps == Availables(b, Cells(Rect(0, 0, x, b.height))) && total == Weight(ps)
    {
      var col, sum := CollectColumn(b, x);
      AvailablesNextColumn(b, x);
      WeightConcat(ps, col);
      ps, total := ps + col, total + sum;
      x := x + 1;
    }
  }

  /** One column of the first loop of find_blob_square: its entries and their total. */
  method CollectColumn(b: SimulationBoard.Board, x: int) returns (col: seq<(Cell, real)>, sum: real)
    requires b.Valid() && 0 <= x < b.width
    ensures col == Availables(b, Column(x, 0, b.height)) && sum == Weight(col)
  {
    col, sum := [], 0.0;
    var y := 0;
    while y < b.height
      invariant 0 <= y <= b.height
      invariant col == ColumnEntries(b, x, y) && sum == Weight(col)
    {
      var e, w := Entry(b, x, y);
      WeightConcat(col, e);
      col, sum := col + e, sum + w;
      y := y + 1;
    }
    ColumnEntriesAvailables(b, x, y);
  }

  /** The entries of the first y squares of column x, one square at a time. */
  function ColumnEntries(b: SimulationBoard.Board, x: int, y: int): seq<(Cell, real)>
    reads b, b.blob, b.touched
    requires b.Valid()
    decreases y
  {
    if y <= 0 then [] else ColumnEntries(b, x, y - 1) + Available(b, (x, y - 1))
  }

  /** Collecting a column square by square gives the entries of that column. */
  lemma {:induction false} ColumnEntriesAvailables(b: SimulationBoard.Board, x: int, y: int)
    requires b.Valid() && 0 <= y
    ensures ColumnEntries(b, x, y) == Availables(b, Column(x, 0, y))
  {
    if y > 0 {
      ColumnEntriesAvailables(b, x, y - 1);
      var cs := Column(x, 0, y - 1);
      assert Column(x, 0, y) == cs + [(x, y - 1)];
      AvailablesSnoc(b, cs, (x, y - 1));
    }
  }

  /** The body of find_blob_square's first loop for one square: its entry,
      if it is touched, and the weight that entry adds. */
  method Entry(b: SimulationBoard.Board, x: int, y: int) returns (e: seq<(Cell, real)>, w: real)
    requires b.Valid() && 0 <= x < b.width && 0 <= y < b.height
    ensures e == Available(b, (x, y)) && w == Weight(e)
  {
    if b.IsTouched(x, y) {
      e := [((x, y), b.blob[x, y] + 1.0)];
      WeightSnoc([], e[0]);
      assert [] + e == e;
      w := e[0].1;
    } else {
      e, w := [], 0.0;
    }
  }

  /** The entries of the first x + 1 columns: those of the first x, then those of column x. */
  lemma AvailablesNextColumn(b: SimulationBoard.Board, x: int)
    requires b.Valid() && 0 <= x
    ensures Availables(b, Cells(Rect(0, 0, x + 1, b.height))) ==
      Availables(b, Cells(Rect(0, 0, x, b.height))) + Availables(b, Column(x, 0, b.height))
  {
    CellsSnoc(x, b.height);
    AvailablesConcat(b, Cells(Rect(0, 0, x, b.height)), Column(x, 0, b.height));
  }

  lemma {:induction false} AvailablesConcat(b: SimulationBoard.Board, cs: seq<Cell>, ds: seq<Cell>)
    requires b.Valid()
    ensures Availables(b, cs + ds) == Availables(b, cs) + Availables(b, ds)
  {
    if ds != [] {
      AvailablesConcat(b, cs, ds[..|ds| - 1]);
      assert (cs + ds)[..|cs + ds| - 1] == cs + ds[..|ds| - 1];
      assert (cs + ds)[|cs + ds| - 1] == ds[|ds| - 1];
    } else {
      assert cs + ds == cs;
    }
  }

  lemma {:induction false} WeightConcat(ps: seq<(Cell, real)>, qs: seq<(Cell, real)>)
    ensures Weight(ps + qs) == Weight(ps) + Weight(qs)
  {
    if qs != [] {
      WeightConcat(ps, qs[..|qs| - 1]);
      assert (ps + qs)[..|ps + qs| - 1] == ps + qs[..|qs| - 1];
      assert (ps + qs)[|ps + qs| - 1] == qs[|qs| - 1];
    } else {
      assert ps + qs == ps;
    }
  }

  lemma ColumnSnoc(left: seq<Cell>, x: int, y: int)
    requires 0 <= y
    ensures left + Column(x, 0, y) + [(x, y)] == left + Column(x, 0, y + 1)
  {
    assert Column(x, 0, y + 1) == Column(x, 0, y) + [(x, y)];
  }

  /** The cells of the first x + 1 columns: those of the first x, then column x. */
  lemma CellsSnoc(x: int, h: int)
    requires 0 <= x
    ensures Cells(Rect(0, 0, x + 1, h)) == Cells(Rect(0, 0, x, h)) + Column(x, 0, h)
  {
    assert Rect(0, 0, x + 1, h).(x1 := x) == Rect(0, 0, x, h);
  }

  lemma AvailablesSnoc(b: SimulationBoard.Board, cs: seq<Cell>, c: Cell)
    requires b.Valid()
    ensures Availables(b, cs + [c]) == Availables(b, cs) + Available(b, c)
  {
    assert (cs + [c])[..|cs|] == cs;
  }

  lemma WeightSnoc(ps: seq<(Cell, real)>, p: (Cell, real))
    ensures Weight(ps + [p]) == Weight(ps) + p.1
  {
    assert (ps + [p])[..|ps|] == ps;
  }

  lemma FoodCellsSnoc(b: SimulationBoard.Board, cs: seq<Cell>, c: Cell)
    requires b.Valid()
    ensures FoodCells(b, cs + [c]) ==
      FoodCells(b, cs) + (if b.HasFood(c.0, c.1) && b.IsTouched(c.0, c.1) then [c] else [])
  {
    assert (cs + [c])[..|cs|] == cs;
  }

  /** The seeding loops of the constructor: the squares that hold food and are touched. */
  method ScanFood(b: SimulationBoard.Board) returns (food: seq<Cell>)
    requires b.Valid()
    ensures food == FoodCells(b, AllCells(b))
  {
    food := [];
    var x := 0;
    while x < b.width
      invariant 0 <= x <= b.width
      invariant food == FoodCells(b, Cells(Rect(0, 0, x, b.height)))
    {
      food := ScanColumn(b, x, food);
      x := x + 1;
    }
  }

  /** One column of the seeding loops. */
  method ScanColumn(b: SimulationBoard.Board, x: int, food0: seq<Cell>) returns (food: seq<Cell>)
    requires b.Valid() && 0 <= x < b.width
    requires food0 == FoodCells(b, Cells(Rect(0, 0, x, b.height)))
    ensures food == FoodCells(b, Cells(Rect(0, 0, x + 1, b.height)))
  {
    food := food0;
    ghost var left := Cells(Rect(0, 0, x, b.height));
    assert left + Column(x, 0, 0) == left;
    var y := 0;
    while y < b.height
      invariant 0 <= y <= b.height
      invariant food == FoodCells(b, left + Column(x, 0, y))
    {
      ColumnSnoc(left, x, y);
      FoodCellsSnoc(b, left + Column(x, 0, y), (x, y));
      if b.HasFood(x, y) && b.IsTouched(x, y) {
        food := food + [(x, y)];
      }
      y := y + 1;
    }
    CellsSnoc(x, b.height);
  }

  // ---------------------------------------------------------------------
  // List bookkeeping

  /** Two distinct ants own distinct gatherer and scouter logics. */
  predicate Apart(s: seq<FSMAntModel.FSMAnt>)
  {
    forall i, j :: 0 <= i < j < |s| ==>
      s[i] != s[j] && s[i].gatherer != s[j].gatherer && s[i].scouter != s[j].scouter
  }

  lemma ApartRemoveAt(s: seq<FSMAntModel.FSMAnt>, k: nat)
    requires Apart(s) && k < |s|
    ensures Apart(s[..k] + s[k + 1..])
  {
    var r := s[..k] + s[k + 1..];
    forall i, j | 0 <= i < j < |r|
      ensures r[i] != r[j] && r[i].gatherer != r[j].gatherer && r[i].scouter != r[j].scouter
    {
      assert r[i] == s[if i < k then i else i + 1];
      assert r[j] == s[if j < k then j else j + 1];
    }
  }

  lemma ApartRemoveFirst(s: seq<FSMAntModel.FSMAnt>, a: FSMAntModel.FSMAnt)
    requires Apart(s) && a in s
    ensures Apart(RemoveFirst(s, a)) && a !in RemoveFirst(s, a)
    ensures forall b :: b in RemoveFirst(s, a) <==> b in s && b != a
  {
    var k := IndexOf(s, a);
    ApartRemoveAt(s, k);
    assert RemoveFirst(s, a) == s[..k] + s[k + 1..];
    assert NoDup(s);
    RemoveFirstOfUnique(s, a);
    WithoutMembers(s, a);
  }

  /** The squares the ants stand on, in order. */
  ghost function Places(s: seq<FSMAntModel.FSMAnt>): (at: seq<Cell>)
    reads set a | a in s
    ensures |at| == |s| && forall j :: 0 <= j < |s| ==> at[j] == (s[j].x, s[j].y)
  {
    if s == [] then [] else [(s[0].x, s[0].y)] + Places(s[1..])
  }

  /** Enough draws for a starving ant's redraw loop: with distinct known
      foods, draws 0 and 1 name two different squares, one of them not the
      ant's own. */
  predicate Redraws(draws: seq<nat>)
  {
    0 in draws && 1 in draws
  }

  lemma RedrawsHit(food: seq<Cell>, pos: Cell, draws: seq<nat>)
    requires NoDup(food) && |food| >= 2 && Redraws(draws)
    ensures GathererModel.Hits(food, pos, draws, 0)
  {
    var i :| 0 <= i < |draws| && draws[i] == 0;
    var j :| 0 <= j < |draws| && draws[j] == 1;
    assert food[draws[i] % |food|] == food[0] && food[draws[j] % |food|] == food[1];
    assert food[0] != food[1];
  }

  /** scouter.move() as the manager sees it: the ant stays a valid ant
      with the same store and state. */
  method Walk(a: FSMAntModel.FSMAnt, draws: seq<nat>, u: real, pick: nat, find: Finder)
    requires a.Valid() && FinderContract(find)
    requires a.starving ==> a.gatherer.Drawable(draws)
    requires !a.starving ==> a.scouter.CanAim()
    modifies a, a.gatherer, a.scouter
    ensures a.Valid() && a.stored == old(a.stored) && a.starving == old(a.starving)
  {
    a.Move(draws, u, pick, find);
  }

  /** The squares of food name distinct squares of b that hold food. */
  ghost predicate ListedOn(b: SimulationBoard.Board, food: seq<Cell>)
    reads b, b.foods
    requires b.Valid()
  {
    NoDup(food) && forall c :: c in food ==> b.HasFood(c.0, c.1)
  }

  /** scouter.update() as the manager sees it: the ant stays on its square
      and leaves trail there, no other square changes, and the food list
      loses the square exactly when the harvest empties it. */
  method Feed(a: FSMAntModel.FSMAnt)
    requires a.Valid() && (a.Finishes() ==> (a.x, a.y) in a.knowledge.food)
    modifies a, a.gatherer, a.scouter, a.board.blob, a.board.touched, a.board.foods, a.knowledge`food
    ensures a.Valid() && a.x == old(a.x) && a.y == old(a.y) && a.board.touched[a.x, a.y]
    ensures forall i, j :: a.board.Inside(i, j) && (i, j) != (a.x, a.y) ==>
      a.board.blob[i, j] == old(a.board.blob[i, j]) && a.board.touched[i, j] == old(a.board.touched[i, j]) &&
      a.board.foods[i, j] == old(a.board.foods[i, j])
    ensures old(a.board.Bounded()) ==> a.board.Bounded()
    ensures a.board.HasFood(a.x, a.y) ==>
      old(a.board.HasFood(a.x, a.y)) && a.knowledge.food == old(a.knowledge.food)
    ensures !a.board.HasFood(a.x, a.y) && !old(a.board.HasFood(a.x, a.y)) ==>
      a.knowledge.food == old(a.knowledge.food)
    ensures !a.board.HasFood(a.x, a.y) && old(a.board.HasFood(a.x, a.y)) ==>
      (a.x, a.y) in old(a.knowledge.food) && a.knowledge.food == RemoveFirst(old(a.knowledge.food), (a.x, a.y))
  {
    a.Update();
  }

  /** Feeding keeps the food list faithful to the board: only the ant's
      square can leave it, and only once its food is gone. */
  method FeedListed(a: FSMAntModel.FSMAnt)
    requires a.Valid() && (a.board.HasFood(a.x, a.y) ==> (a.x, a.y) in a.knowledge.food)
    requires ListedOn(a.board, a.knowledge.food)
    modifies a, a.gatherer, a.scouter, a.board.blob, a.board.touched, a.board.foods, a.knowledge`food
    ensures a.Valid() && a.x == old(a.x) && a.y == old(a.y) && a.board.touched[a.x, a.y]
    ensures forall i, j :: a.board.Inside(i, j) && (i, j) != (a.x, a.y) ==>
      a.board.blob[i, j] == old(a.board.blob[i, j]) && a.board.touched[i, j] == old(a.board.touched[i, j]) &&
      a.board.foods[i, j] == old(a.board.foods[i, j])
    ensures old(a.board.Bounded()) ==> a.board.Bounded()
    ensures ListedOn(a.board, a.knowledge.food)
    ensures (a.x, a.y) in a.knowledge.food <==> a.board.HasFood(a.x, a.y)
    ensures forall c :: c != (a.x, a.y) ==> (c in a.knowledge.food <==> c in old(a.knowledge.food))
  {
    ghost var food := a.knowledge.food;
    Feed(a);
    if a.knowledge.food != food {
      WithoutMembers(food, (a.x, a.y));
      RemoveFirstOfUnique(food, (a.x, a.y));
    }
  }

  /** The last loop of move as written: each dead ant is taken out with
      list.remove, which fails (None) when the ant is no longer listed. The
      replacement added after each removal is a new ant, never a dead one,
      and is left out of this value model. */
  function RemoveDeads<T(==)>(ants: seq<T>, deads: seq<T>): Option<seq<T>>
  {
    if deads == [] then Some(ants)
    else if deads[0] !in ants then None
    else RemoveDeads(RemoveFirst(ants, deads[0]), deads[1..])
  }

  /** remove_scouter at index k. */
  function Cull<T>(s: seq<T>, k: nat): (r: seq<T>)
    requires k < |s|
    ensures |r| == |s| - 1 && forall x :: x in r ==> x in s
  {
    s[..k] + s[k + 1..]
  }

  /** A dead ant that is no longer listed makes the loop fail, whatever the
      other dead ants are. */
  lemma {:induction false} UnlistedDeadFails<T>(ants: seq<T>, deads: seq<T>, d: T)
    requires d in deads && d !in ants
    ensures RemoveDeads(ants, deads) == None
  {
    if deads[0] in ants {
      assert deads[0] != d && d in deads[1..];
      assert d !in RemoveFirst(ants, deads[0]) by {
        assert multiset(RemoveFirst(ants, deads[0]))[d] == 0;
      }
      UnlistedDeadFails(RemoveFirst(ants, deads[0]), deads[1..], d);
    }
  }

  /** The failure happens: two ants, the first one stayed on its square and is
      dead, the target drops to one, and the cull (draw 0) takes the dead ant
      before the loop over the dead ants reaches it. */
  lemma CulledDeadFails()
    ensures var ants := [0, 1]; var culled := Cull(ants, 0 % |ants|);
      |culled| == 1 && RemoveDeads(culled, [0]) == None
  {
    var culled := Cull([0, 1], 0);
    assert culled == [1];
    UnlistedDeadFails(culled, [0], 0);
  }

  /** The ant stands on p with store st and starving flag sv. */
  ghost predicate Kept(a: FSMAntModel.FSMAnt, p: Cell, st: real, sv: bool)
    reads a
  {
    (a.x, a.y) == p && a.stored == st && a.starving == sv
  }

  /** The elements of s whose flag is set, in order. */
  function Pick<T>(s: seq<T>, flags: seq<bool>): seq<T>
    requires |flags| == |s|
  {
    if s == [] then []
    else Pick(s[..|s| - 1], flags[..|s| - 1]) + (if flags[|s| - 1] then [s[|s| - 1]] else [])
  }

  /** Of distinct elements, Pick keeps exactly the flagged ones, once each. */
  lemma {:induction false} PickSpec<T>(s: seq<T>, flags: seq<bool>)
    requires |flags| == |s| && NoDup(s)
    ensures NoDup(Pick(s, flags))
    ensures forall j :: 0 <= j < |s| ==> (s[j] in Pick(s, flags) <==> flags[j])
    ensures forall x :: x in Pick(s, flags) ==> x in s
  {
    if s != [] {
      var m := |s| - 1;
      assert NoDup(s[..m]);
      PickSpec(s[..m], flags[..m]);
      var p := Pick(s[..m], flags[..m]);
      var q := p + (if flags[m] then [s[m]] else []);
      assert Pick(s, flags) == q;
      assert s[m] !in p by {
        assert forall j :: 0 <= j < m ==> s[..m][j] != s[m];
      }
      forall j | 0 <= j < |s| ensures s[j] in q <==> flags[j] {
        if j < m {
          assert s[..m][j] == s[j] != s[m];
        }
      }
      forall x | x in q ensures x in s {
        if x in p {
          assert x in s[..m];
        }
      }
      if flags[m] {
        forall i, j | 0 <= i < j < |q| ensures q[i] != q[j] {
          if j == |p| {
            assert q[i] in p;
          }
        }
      }
    }
  }

  /** The food list reset leaves: distinct squares that hold food. */
  lemma ClearedListed(b: SimulationBoard.Board, fs: seq<Cell>, c: Cell)
    requires b.Valid() && NoDup(fs)
    requires forall d :: d in fs ==> d == c || b.HasFood(d.0, d.1)
    ensures ListedOn(b, Without(fs, c))
  {
    WithoutMembers(fs, c);
    if c in fs {
      RemoveFirstOfUnique(fs, c);
    } else {
      WithoutAbsent(fs, c);
    }
  }

  // ---------------------------------------------------------------------
  // The manager

  class BlobManager {
    const board: SimulationBoard.Board
    const knowledge: Knowledge
    const config: Config
    var scouters: seq<FSMAntModel.FSMAnt>

    /** The ants and the logics they own. */
    ghost function Repr(): set<object>
      reads this
    {
      (set j | 0 <= j < |scouters| :: scouters[j] as object) +
      (set j | 0 <= j < |scouters| :: scouters[j].gatherer as object) +
      (set j | 0 <= j < |scouters| :: scouters[j].scouter as object)
    }

    /** An ant of this colony: on its board, with its knowledge and configuration. */
    ghost predicate Fits(a: FSMAntModel.FSMAnt)
      reads a, board, a.gatherer, a.scouter
    {
      a.board == board && a.knowledge == knowledge && a.config == config && a.Valid()
    }

    /** The board is non-empty with bounded intensities. */
    ghost predicate Grid()
      reads board, board.blob
    {
      board.Valid() && board.width > 0 && board.height > 0 && board.Bounded()
    }

    /** The food list names distinct squares that hold food. */
    ghost predicate Listed()
      reads board, board.foods, knowledge`food
      requires board.Valid()
    {
      ListedOn(board, knowledge.food)
    }

    /** The ants are distinct colony ants with logics of their own. */
    ghost predicate Colony()
      reads this, board, Repr()
    {
      Apart(scouters) && forall j :: 0 <= j < |scouters| ==> Fits(scouters[j])
    }

    ghost predicate Valid()
      reads this, board, board.blob, board.foods, knowledge`food, Repr()
    {
      Grid() && Listed() && Colony()
    }

    /** __init__: the food list starts as the squares that hold food and
        are touched, the target is computed, and ants are added until it is
        reached. The knowledge file's entries are the configuration. */
    constructor (board: SimulationBoard.Board, config: Config, spawn: nat -> nat)
      requires board.Valid() && board.width > 0 && board.height > 0 && board.Bounded()
      ensures Valid() && this.board == board && this.config == config && fresh(knowledge)
      ensures Seeded() && Targeted()
      ensures |scouters| == Max(0, knowledge.maxScouters)
    {
      this.board := board;
      this.config := config;
      knowledge := new Knowledge(0);
      scouters := [];
      new;
      SeedFood();
      SetTarget();
      Populate(spawn);
    }

    /** The target of __init__ and move: compute_max_scouters stored in the knowledge. */
    method SetTarget()
      requires Valid()
      modifies knowledge`maxScouters
      ensures Valid() && Targeted()
    {
      var m := ComputeMaxScouters();
      knowledge.maxScouters := m;
    }

    /** The target is compute_max_scouters on the current board and food list. */
    ghost predicate Targeted()
      reads board, board.blob, board.touched, knowledge
      requires board.Valid() && board.width > 0 && board.height > 0
    {
      knowledge.maxScouters ==
        MaxScouters(config, BlobPct(board), board.Cover(0), |knowledge.food|, board.width, board.height)
    }

    /** The food list is that of __init__: the touched squares that hold
        food, column by column. */
    ghost predicate Seeded()
      reads board, board.foods, board.touched, knowledge`food
      requires board.Valid()
    {
      knowledge.food == FoodCells(board, AllCells(board))
    }

    /** The food list of __init__. */
    method SeedFood()
      requires board.Valid() && board.width > 0 && board.height > 0 && board.Bounded() && scouters == []
      modifies knowledge`food
      ensures Valid() && Seeded()
    {
      var food := ScanFood(board);
      CellsNoDup(Rect(0, 0, board.width, board.height));
      FoodCellsNoDup(board, AllCells(board));
      FoodCellsSpec(board, AllCells(board));
      knowledge.food := food;
    }

    /** The constructor's loop: add ants until the target is reached. */
    method Populate(spawn: nat -> nat)
      requires Valid()
      modifies this
      ensures Valid() && |scouters| == Max(|old(scouters)|, knowledge.maxScouters)
      ensures scouters[..|old(scouters)|] == old(scouters)
      ensures knowledge.food == old(knowledge.food) && knowledge.maxScouters == old(knowledge.maxScouters)
      ensures old(Seeded()) ==> Seeded()
      ensures old(Targeted()) ==> Targeted()
      ensures forall j :: |old(scouters)| <= j < |scouters| ==> fresh(scouters[j])
    {
      var k := 0;
      while |scouters| < knowledge.maxScouters
        invariant Valid() && |old(scouters)| <= |scouters| <= Max(|old(scouters)|, knowledge.maxScouters)
        invariant scouters[..|old(scouters)|] == old(scouters)
        invariant forall j :: |old(scouters)| <= j < |scouters| ==> fresh(scouters[j])
        decreases knowledge.maxScouters - |scouters|
      {
        AddScouter(spawn(k));
        k := k + 1;
      }
    }

    /** compute_max_scouters on the current board and food list. */
    method ComputeMaxScouters() returns (m: int)
      requires Valid()
      ensures m == MaxScouters(config, BlobPct(board), board.Cover(0), |knowledge.food|, board.width, board.height)
    {
      var pct := board.BlobTotal();
      var total := Demand(config, pct, board.Cover(0), |knowledge.food|, board.width, board.height);
      m := Max(config.minScouters, Trunc(total));
    }

    /** A board on which a scouter can always aim somewhere. */
    predicate Roomy()
      reads this, board
    {
      board.width > 1 || board.height > 1
    }

    /** food_discovered: the square joins the food list. */
    method FoodDiscovered(x: int, y: int)
      requires Valid() && board.HasFood(x, y) && (x, y) !in knowledge.food
      modifies knowledge`food
      ensures Valid() && knowledge.food == old(knowledge.food) + [(x, y)]
      ensures knowledge.maxScouters == old(knowledge.maxScouters)
    {
      knowledge.food := knowledge.food + [(x, y)];
    }

    /** food_destroyed: the square leaves the food list (list.remove fails
        when it is not listed). */
    method FoodDestroyed(x: int, y: int)
      requires Valid() && (x, y) in knowledge.food
      modifies knowledge
      ensures Valid() && knowledge.food == Without(old(knowledge.food), (x, y))
      ensures knowledge.maxScouters == old(knowledge.maxScouters)
    {
      RemoveFirstOfUnique(knowledge.food, (x, y));
      WithoutMembers(knowledge.food, (x, y));
      knowledge.food := RemoveFirst(knowledge.food, (x, y));
    }

    /** Where add_scouter puts a new ant: a known food drawn at random, or a
        blob square when no food is known. */
    ghost function Spawn(draw: nat): Cell
      reads this, board, board.blob, board.touched, knowledge
      requires board.Valid() && board.Bounded()
    {
      if |knowledge.food| != 0 then knowledge.food[draw % |knowledge.food|] else BlobSquare(board, draw)
    }

    /** The spawn square of add_scouter, computed. */
    method SpawnSquare(draw: nat) returns (c: Cell)
      requires Valid()
      ensures c == Spawn(draw) && board.Inside(c.0, c.1)
    {
      if |knowledge.food| != 0 {
        c := knowledge.food[draw % |knowledge.food|];
      } else {
        c := FindBlobSquare(board, draw);
        BlobSquareSpec(board, draw);
      }
    }

    /** add_scouter: below the target, a new ant on the spawn square;
        otherwise nothing. */
    method AddScouter(draw: nat)
      requires Valid()
      modifies this
      ensures Valid()
      ensures |old(scouters)| < knowledge.maxScouters ==>
        |scouters| == |old(scouters)| + 1 && scouters[..|old(scouters)|] == old(scouters) &&
        fresh(scouters[|old(scouters)|]) && fresh(scouters[|old(scouters)|].gatherer) &&
        fresh(scouters[|old(scouters)|].scouter) &&
        (scouters[|old(scouters)|].x, scouters[|old(scouters)|].y) == old(Spawn(draw))
      ensures |old(scouters)| >= knowledge.maxScouters ==> scouters == old(scouters)
      ensures forall a :: a in scouters ==> a in old(scouters) || fresh(a)
    {
      if |scouters| < knowledge.maxScouters {
        var c := SpawnSquare(draw);
        var a := new FSMAntModel.FSMAnt(board, knowledge, config, c.0, c.1);
        scouters := scouters + [a];
        assert Apart(scouters) by {
          forall i, j | 0 <= i < j < |scouters|
            ensures scouters[i] != scouters[j] && scouters[i].gatherer != scouters[j].gatherer &&
              scouters[i].scouter != scouters[j].scouter
          {
            if j < |scouters| - 1 {
              assert scouters[i] == old(scouters)[i] && scouters[j] == old(scouters)[j];
            }
          }
        }
      }
    }

    /** remove_scouter: the ant at a random index leaves (randrange fails on
        an empty list). */
    method RemoveScouter(draw: nat)
      requires Valid() && |scouters| > 0
      modifies this
      ensures Valid()
      ensures var k := draw % |old(scouters)|; scouters == old(scouters)[..k] + old(scouters)[k + 1..]
    {
      var k := draw % |scouters|;
      ApartRemoveAt(scouters, k);
      assert forall a :: a in scouters[..k] + scouters[k + 1..] ==> a in scouters;
      scouters := scouters[..k] + scouters[k + 1..];
    }

    /** The position of the ant at index i. */
    ghost function Pos(i: nat): Cell
      reads this, scouters[..]
      requires i < |scouters|
    {
      (scouters[i].x, scouters[i].y)
    }

    /** The first half of one ant's turn in move: the ant moves, and it is
        dead when it stayed on its square. */
    method MoveAnt(i: nat, draws: seq<nat>, u: real, pick: nat, find: Finder) returns (dead: bool)
      requires Valid() && i < |scouters| && FinderContract(find) && Roomy() && Redraws(draws)
      modifies scouters[i], scouters[i].gatherer, scouters[i].scouter
      ensures Valid()
      ensures dead <==> Pos(i) == old(Pos(i))
      ensures scouters[i].stored == old(scouters[i].stored) && scouters[i].starving == old(scouters[i].starving)
    {
      var a := scouters[i];
      assert Fits(a);
      if a.starving && |knowledge.food| >= 2 {
        RedrawsHit(knowledge.food, (a.gatherer.x, a.gatherer.y), draws);
      }
      assert forall j :: 0 <= j < |scouters| && j != i ==>
        scouters[j] != a && scouters[j].gatherer != a.gatherer && scouters[j].scouter != a.scouter;
      var before := (a.x, a.y);
      Walk(a, draws, u, pick, find);
      dead := (a.x, a.y) == before;
      assert Colony() by {
        forall j | 0 <= j < |scouters| ensures Fits(scouters[j]) {
          if j != i {
            assert unchanged(scouters[j], scouters[j].gatherer, scouters[j].scouter);
          }
        }
      }
    }

    /** Before an ant that moved updates, the square it found joins the
        food list when it holds food and is not listed yet. */
    method Discover(i: nat)
      requires Valid() && i < |scouters|
      modifies knowledge`food
      ensures Valid() && (board.HasFood(Pos(i).0, Pos(i).1) ==> Pos(i) in knowledge.food)
      ensures forall c :: c != Pos(i) ==> (c in knowledge.food <==> c in old(knowledge.food))
    {
      var a := scouters[i];
      assert Fits(a);
      if board.HasFood(a.x, a.y) && (a.x, a.y) !in knowledge.food {
        FoodDiscovered(a.x, a.y);
      }
    }

    /** The second half of one ant's turn in move, for an ant that moved and
        whose square, if it holds food, is listed: the ant updates. */
    method FeedAnt(i: nat)
      requires Valid() && i < |scouters| && (board.HasFood(Pos(i).0, Pos(i).1) ==> Pos(i) in knowledge.food)
      modifies scouters[i], scouters[i].gatherer, scouters[i].scouter
      modifies board.blob, board.touched, board.foods, knowledge`food
      ensures Valid() && Pos(i) == old(Pos(i)) && board.touched[Pos(i).0, Pos(i).1]
      ensures Pos(i) in knowledge.food <==> board.HasFood(Pos(i).0, Pos(i).1)
      ensures forall c :: c != Pos(i) ==> (c in knowledge.food <==> c in old(knowledge.food))
      ensures forall x, y :: board.Inside(x, y) && (x, y) != Pos(i) ==>
        board.blob[x, y] == old(board.blob[x, y]) && board.touched[x, y] == old(board.touched[x, y]) &&
        board.foods[x, y] == old(board.foods[x, y])
    {
      var a := scouters[i];
      assert Fits(a);
      assert forall j :: 0 <= j < |scouters| && j != i ==>
        scouters[j] != a && scouters[j].gatherer != a.gatherer && scouters[j].scouter != a.scouter;
      FeedListed(a);
      assert Colony() by {
        forall j | 0 <= j < |scouters| ensures Fits(scouters[j]) {
          if j != i {
            assert unchanged(scouters[j], scouters[j].gatherer, scouters[j].scouter);
          }
        }
      }
    }

    /** One ant's turn in move: it moves; when it stayed on its square it is
        dead and nothing else happens, otherwise it finds food and updates. */
    method StepAnt(i: nat, draws: seq<nat>, u: real, pick: nat, find: Finder) returns (dead: bool)
      requires Valid() && i < |scouters| && FinderContract(find) && Roomy() && Redraws(draws)
      modifies scouters[i], scouters[i].gatherer, scouters[i].scouter
      modifies board.blob, board.touched, board.foods, knowledge`food
      ensures Valid() && (dead <==> Pos(i) == old(Pos(i)))
      ensures dead ==> Kept(scouters[i], old(Pos(i)), old(scouters[i].stored), old(scouters[i].starving))
      ensures forall j :: 0 <= j < |scouters| && j != i ==>
        Kept(scouters[j], old(Pos(j)), old(scouters[j].stored), old(scouters[j].starving))
    {
      assert forall j :: 0 <= j < |scouters| && j != i ==> scouters[j] != scouters[i];
      dead := MoveAnt(i, draws, u, pick, find);
      if !dead {
        Settle(i);
      }
    }

    /** An ant that moved lists the food of its square and updates; no other
        ant changes. */
    method Settle(i: nat)
      requires Valid() && i < |scouters|
      modifies scouters[i], scouters[i].gatherer, scouters[i].scouter
      modifies board.blob, board.touched, board.foods, knowledge`food
      ensures Valid() && Pos(i) == old(Pos(i))
      ensures forall j :: 0 <= j < |scouters| && j != i ==>
        Kept(scouters[j], old(Pos(j)), old(scouters[j].stored), old(scouters[j].starving))
    {
      assert forall j :: 0 <= j < |scouters| && j != i ==> scouters[j] != scouters[i];
      Discover(i);
      FeedAnt(i);
    }

    /** The loop over the ants in move: each ant moves; one that stayed on
        its square is dead and is collected, in order; any other finds food
        and updates. The draws of the k-th ant are draws(k), us(k) and picks(k). */
    method Tick(draws: nat -> seq<nat>, us: nat -> real, picks: nat -> nat, find: Finder)
      returns (deads: seq<FSMAntModel.FSMAnt>)
      requires Valid() && FinderContract(find) && Roomy() && forall k: nat :: Redraws(draws(k))
      modifies Repr(), board.blob, board.touched, board.foods, knowledge`food
      ensures Valid() && NoDup(deads) && forall d :: d in deads ==> d in scouters
      ensures forall j :: 0 <= j < |scouters| ==> (scouters[j] in deads <==> Pos(j) == old(Pos(j)))
      ensures forall j :: 0 <= j < |scouters| && Pos(j) == old(Pos(j)) ==>
        scouters[j].stored == old(scouters[j].stored) && scouters[j].starving == old(scouters[j].starving)
    {
      ghost var before := Snapshot();
      ghost var stayed;
      deads, stayed := Sweep(draws, us, picks, find, before);
      assert NoDup(scouters) by {
        assert forall i, j :: 0 <= i < j < |scouters| ==> scouters[i] != scouters[j];
      }
      SweptPicks(before, deads, stayed);
    }

    /** Square, store and starving flag of every ant, in order. */
    ghost function Snapshot(): (r: seq<(Cell, real, bool)>)
      reads this, scouters
      ensures |r| == |scouters| &&
        forall j :: 0 <= j < |scouters| ==> r[j] == (Pos(j), scouters[j].stored, scouters[j].starving)
    {
      seq(|scouters|, j requires 0 <= j < |scouters| reads this, scouters =>
        ((scouters[j].x, scouters[j].y), scouters[j].stored, scouters[j].starving))
    }

    /** After a full sweep the dead are the distinct ants that stayed. */
    lemma SweptPicks(before: seq<(Cell, real, bool)>, deads: seq<FSMAntModel.FSMAnt>, stayed: seq<bool>)
      requires |before| == |scouters| && NoDup(scouters) && Swept(before, |scouters|, deads, stayed)
      ensures NoDup(deads) && forall d :: d in deads ==> d in scouters
      ensures forall j :: 0 <= j < |scouters| ==> (scouters[j] in deads <==> Pos(j) == before[j].0)
      ensures forall j :: 0 <= j < |scouters| && Pos(j) == before[j].0 ==>
        scouters[j].stored == before[j].1 && scouters[j].starving == before[j].2
    {
      assert scouters[..|scouters|] == scouters;
      PickSpec(scouters, stayed);
    }

    /** The loop of Tick, with the ants that stayed flagged. */
    method Sweep(draws: nat -> seq<nat>, us: nat -> real, picks: nat -> nat, find: Finder,
                 ghost before: seq<(Cell, real, bool)>)
      returns (deads: seq<FSMAntModel.FSMAnt>, ghost stayed: seq<bool>)
      requires Valid() && FinderContract(find) && Roomy() && forall k: nat :: Redraws(draws(k))
      requires |before| == |scouters| && Swept(before, 0, [], [])
      modifies Repr(), board.blob, board.touched, board.foods, knowledge`food
      ensures Valid() && Swept(before, |scouters|, deads, stayed)
    {
      ghost var ants := scouters;
      stayed := [];
      deads := [];
      var k := 0;
      while k < |scouters|
        invariant k <= |scouters| == |before| && Valid() && Swept(before, k, deads, stayed)
        invariant scouters == ants
      {
        assert scouters[k] in old(Repr()) && scouters[k].gatherer in old(Repr()) &&
          scouters[k].scouter in old(Repr());
        deads, stayed := SweepStep(k, draws(k), us(k), picks(k), find, before, deads, stayed);
        k := k + 1;
      }
    }

    /** After the first k ants of the sweep: those still to come are as
        before, each of the others stayed exactly when its flag is set (and
        then kept its store and state), and deads lists the flagged ants. */
    ghost predicate Swept(before: seq<(Cell, real, bool)>, k: nat, deads: seq<FSMAntModel.FSMAnt>, stayed: seq<bool>)
      reads this, scouters
      requires k <= |scouters| == |before|
    {
      |stayed| == k && deads == Pick(scouters[..k], stayed) &&
      (forall j :: k <= j < |scouters| ==> Kept(scouters[j], before[j].0, before[j].1, before[j].2)) &&
      (forall j :: 0 <= j < k ==>
        if stayed[j] then Kept(scouters[j], before[j].0, before[j].1, before[j].2) else Pos(j) != before[j].0)
    }

    /** One iteration of Sweep: the k-th ant takes its turn. */
    method SweepStep(k: nat, draws: seq<nat>, u: real, pick: nat, find: Finder,
                     ghost before: seq<(Cell, real, bool)>, deads: seq<FSMAntModel.FSMAnt>, ghost stayed: seq<bool>)
      returns (deads': seq<FSMAntModel.FSMAnt>, ghost stayed': seq<bool>)
      requires Valid() && FinderContract(find) && Roomy() && Redraws(draws)
      requires k < |scouters| == |before| && Swept(before, k, deads, stayed)
      modifies scouters[k], scouters[k].gatherer, scouters[k].scouter
      modifies board.blob, board.touched, board.foods, knowledge`food
      ensures Valid() && Swept(before, k + 1, deads', stayed')
    {
      var dead := StepAnt(k, draws, u, pick, find);
      assert scouters[..k + 1][..k] == scouters[..k] && (stayed + [dead])[..k] == stayed;
      deads' := if dead then deads + [scouters[k]] else deads;
      stayed' := stayed + [dead];
    }

    /** list.remove(a) on the ants, for an ant that is listed. */
    method RemoveAnt(a: FSMAntModel.FSMAnt)
      requires Colony() && a in scouters
      modifies this
      ensures Colony() && scouters == RemoveFirst(old(scouters), a)
      ensures forall b :: b in scouters <==> b in old(scouters) && b != a
    {
      var k := IndexOf(scouters, a);
      ApartRemoveFirst(scouters, a);
      assert RemoveFirst(scouters, a) == scouters[..k] + scouters[k + 1..];
      assert forall j :: 0 <= j < |scouters| - 1 ==> RemoveFirst(scouters, a)[j] == scouters[if j < k then j else j + 1];
      scouters := RemoveFirst(scouters, a);
    }

    /** The shrinking branch of move: count ants at random indices leave. */
    method Shrink(count: nat, cull: nat -> nat)
      requires Valid() && count <= |scouters|
      modifies this
      ensures Valid() && |scouters| == |old(scouters)| - count
      ensures forall a :: a in scouters ==> a in old(scouters)
    {
      var k := 0;
      while k < count
        invariant k <= count && Valid() && |scouters| == |old(scouters)| - k
        invariant forall a :: a in scouters ==> a in old(scouters)
      {
        ghost var prev := scouters;
        RemoveScouter(cull(k));
        assert forall a :: a in scouters ==> a in prev;
        k := k + 1;
      }
    }

    /** The middle of move: the target is recomputed, then ants are added
        (draws spawn(0), spawn(1), ...) or culled (draws cull(0), ...) until
        there are exactly as many as the target. A negative target would make
        the source cull from an empty list, so Scouters / Min is at least 0. */
    method Resize(spawn: nat -> nat, cull: nat -> nat)
      requires Valid() && config.minScouters >= 0
      modifies this, knowledge`maxScouters
      ensures Valid() && Targeted() && |scouters| == knowledge.maxScouters
      ensures |old(scouters)| <= |scouters| ==> scouters[..|old(scouters)|] == old(scouters)
      ensures forall a :: a in scouters ==> a in old(scouters) || fresh(a)
    {
      SetTarget();
      var diff := knowledge.maxScouters - |scouters|;
      if diff > 0 {
        Populate(spawn);
        assert forall a :: a in scouters ==> a in old(scouters) || fresh(a) by {
          forall a | a in scouters ensures a in old(scouters) || fresh(a) {
            var j :| 0 <= j < |scouters| && scouters[j] == a;
            if j < |old(scouters)| {
              assert scouters[..|old(scouters)|][j] == a;
            }
          }
        }
      } else if diff < 0 {
        Shrink(-diff, cull);
      }
    }

    /** The last loop of move: each dead ant is taken out with list.remove
        and add_scouter is called after it. list.remove raises ValueError
        when the ant is no longer listed, which happens when Resize culled it
        (see RemoveDeads and CulledDeadFails); ok is then false and the loop
        stops where the exception leaves it. */
    method Replace(deads: seq<FSMAntModel.FSMAnt>, spawn: nat -> nat) returns (ok: bool)
      requires Valid() && |scouters| == knowledge.maxScouters && NoDup(deads)
      modifies this
      ensures Valid() && |scouters| == knowledge.maxScouters
      ensures ok <==> forall d :: d in deads ==> d in old(scouters)
      ensures ok ==> forall d :: d in deads ==> d !in scouters
      ensures forall a :: a in scouters ==> a in old(scouters) || fresh(a)
    {
      var k := 0;
      while k < |deads|
        invariant k <= |deads| && Valid() && |scouters| == knowledge.maxScouters
        invariant forall i :: 0 <= i < k ==> deads[i] in old(scouters) && deads[i] !in scouters
        invariant forall i :: k <= i < |deads| ==> (deads[i] in scouters <==> deads[i] in old(scouters))
        invariant forall a :: a in scouters ==> a in old(scouters) || fresh(a)
      {
        if deads[k] !in scouters {
          return false;
        }
        ReplaceOne(deads[k], spawn(k));
        forall i | k < i < |deads| ensures deads[i] in scouters <==> deads[i] in old(scouters) {
          assert deads[i] != deads[k];
        }
        k := k + 1;
      }
      forall d | d in deads ensures d in old(scouters) && d !in scouters {
        var i :| 0 <= i < |deads| && deads[i] == d;
      }
      return true;
    }

    /** One iteration of Replace: the dead ant leaves, then add_scouter. */
    method ReplaceOne(d: FSMAntModel.FSMAnt, draw: nat)
      requires Valid() && |scouters| == knowledge.maxScouters && d in scouters
      modifies this
      ensures Valid() && |scouters| == knowledge.maxScouters && d !in scouters
      ensures forall a :: a in old(scouters) && a != d ==> a in scouters
      ensures forall a :: a in scouters ==> (a in old(scouters) && a != d) || fresh(a)
    {
      RemoveAnt(d);
      AddScouter(draw);
    }

    /** move: every ant takes its turn, the target is recomputed and the
        colony resized to it, the dead ants are replaced, and the trail
        decays. Afterwards the colony has exactly as many ants as the
        target, and every ant that was there before and is still there
        moved this turn. ok is false when the replacement loop raised (a
        dead ant had been culled); the decay is then not made. That can only
        happen when the colony was above its new target. The draws of the
        turn are draws, us and picks (the ants), spawn and cull (the resize)
        and respawn (the replacements). */
    method Move(draws: nat -> seq<nat>, us: nat -> real, picks: nat -> nat, find: Finder,
                spawn: nat -> nat, cull: nat -> nat, respawn: nat -> nat) returns (ok: bool)
      requires Valid() && FinderContract(find) && Roomy() && (forall k: nat :: Redraws(draws(k)))
      requires config.minScouters >= 0
      modifies this, Repr(), board.blob, board.touched, board.foods, knowledge
      ensures Valid() && |scouters| == knowledge.maxScouters && knowledge.maxScouters >= config.minScouters
      ensures |old(scouters)| <= knowledge.maxScouters ==> ok
      ensures forall a :: a in scouters ==> a in old(scouters) || fresh(a)
      ensures ok ==> forall i :: 0 <= i < |old(scouters)| && old(scouters)[i] in scouters ==>
        (old(scouters)[i].x, old(scouters)[i].y) != old(Pos(i))
    {
      var deads := Tick(draws, us, picks, find);
      ok := Turnover(deads, spawn, cull, respawn);
      if ok {
        Decay();
      }
    }

    /** The decay pass closing move: every square decays, and the colony
        invariant survives it. */
    method Decay()
      requires Valid()
      modifies board.blob, board.touched
      ensures Valid()
      ensures forall x, y :: 0 <= x < board.width && 0 <= y < board.height ==>
        board.blob[x, y] == SimulationBoard.Decayed(old(board.blob[x, y]), old(board.touched[x, y]),
          board.foods[x, y], config.globalDecrease, config.remainingBlobOnFood) &&
        board.touched[x, y] == old(board.touched[x, y])
    {
      board.ManageBlob(config.globalDecrease, config.remainingBlobOnFood);
    }

    /** The part of move between the ants' turns and the decay: resize to
        the new target, then replace the dead ants. When every dead ant is
        listed and no ant had to be culled, the replacement succeeds. */
    method Turnover(deads: seq<FSMAntModel.FSMAnt>, spawn: nat -> nat, cull: nat -> nat, respawn: nat -> nat)
      returns (ok: bool)
      requires Valid() && config.minScouters >= 0 && NoDup(deads)
      modifies this, knowledge`maxScouters
      ensures Valid() && |scouters| == knowledge.maxScouters && knowledge.maxScouters >= config.minScouters
      ensures ok ==> forall d :: d in deads ==> d !in scouters
      ensures (forall d :: d in deads ==> d in old(scouters)) && |old(scouters)| <= knowledge.maxScouters ==> ok
      ensures forall a :: a in scouters ==> a in old(scouters) || fresh(a)
    {
      Resize(spawn, cull);
      ok := Replace(deads, respawn);
    }

    /** reset(x, y): every ant standing on (x, y) leaves, and every listing
        of (x, y) leaves the food list, each one lowering the target by one.
        The player resets the board square first, so the square may already
        have lost its food: the food list need only be right elsewhere. */
    method Reset(x: int, y: int)
      requires Grid() && Colony() && NoDup(knowledge.food)
      requires forall c :: c in knowledge.food ==> c == (x, y) || board.HasFood(c.0, c.1)
      modifies this, knowledge
      ensures Valid()
      ensures scouters == Away(old(scouters), old(Places(scouters)), (x, y))
      ensures knowledge.food == Without(old(knowledge.food), (x, y))
      ensures knowledge.maxScouters == old(knowledge.maxScouters) - multiset(old(knowledge.food))[(x, y)]
    {
      ClearAnts((x, y), Places(scouters));
      ClearFood((x, y));
    }

    /** The first loop of reset, over a copy of the ants; at holds their
        squares. */
    method ClearAnts(c: Cell, ghost at: seq<Cell>)
      requires Colony() && |at| == |scouters|
      requires forall j :: 0 <= j < |scouters| ==> at[j] == (scouters[j].x, scouters[j].y)
      modifies this
      ensures Colony() && scouters == Away(old(scouters), at, c)
    {
      var ants := scouters;
      var k := 0;
      while k < |ants|
        invariant k <= |ants| && Colony() && NoDup(ants)
        invariant scouters == Away(ants[..k], at[..k], c) + ants[k..]
      {
        assert at[k] == (ants[k].x, ants[k].y);
        ClearAnt(ants, at, k, c);
        k := k + 1;
      }
      assert ants[..k] == ants && at[..k] == at && ants[k..] == [];
      assert scouters == Away(ants, at, c) + [];
    }

    /** One iteration of reset's first loop: ant k of the copy leaves if it
        stands on c. */
    method ClearAnt(ants: seq<FSMAntModel.FSMAnt>, ghost at: seq<Cell>, k: nat, c: Cell)
      requires Colony() && NoDup(ants) && |at| == |ants| && k < |ants| && at[k] == (ants[k].x, ants[k].y)
      requires scouters == Away(ants[..k], at[..k], c) + ants[k..]
      modifies this
      ensures Colony() && scouters == Away(ants[..k + 1], at[..k + 1], c) + ants[k + 1..]
    {
      var a := ants[k];
      if a.x == c.0 && a.y == c.1 {
        AwayDrop(ants, at, k, c);
        RemoveAnt(a);
      } else {
        AwayKeep(ants, at, k, c);
      }
    }

    /** The second loop of reset, over a copy of the food list. */
    method ClearFood(c: Cell)
      requires board.Valid() && NoDup(knowledge.food)
      requires forall d :: d in knowledge.food ==> d == c || board.HasFood(d.0, d.1)
      modifies knowledge
      ensures Listed() && knowledge.food == Without(old(knowledge.food), c)
      ensures knowledge.maxScouters == old(knowledge.maxScouters) - multiset(old(knowledge.food))[c]
    {
      ghost var fs := knowledge.food;
      ClearListings(c);
      ClearedListed(board, fs, c);
    }

    /** The loop itself: every listing of c leaves, each lowering the target by one. */
    method ClearListings(c: Cell)
      modifies knowledge
      ensures knowledge.food == Without(old(knowledge.food), c)
      ensures knowledge.maxScouters == old(knowledge.maxScouters) - multiset(old(knowledge.food))[c]
    {
      var fs := knowledge.food;
      var k := 0;
      while k < |fs|
        invariant k <= |fs|
        invariant knowledge.food == Without(fs[..k], c) + fs[k..]
        invariant knowledge.maxScouters == old(knowledge.maxScouters) - multiset(fs[..k])[c]
      {
        ClearListing(fs, k, c);
        k := k + 1;
      }
      assert fs[..k] == fs && fs[k..] == [];
    }

    /** One iteration of reset's second loop: entry k of the copy leaves the
        list, and the target drops by one, if it is c. */
    method ClearListing(fs: seq<Cell>, k: nat, c: Cell)
      requires k < |fs| && knowledge.food == Without(fs[..k], c) + fs[k..]
      modifies knowledge
      ensures knowledge.food == Without(fs[..k + 1], c) + fs[k + 1..]
      ensures knowledge.maxScouters + multiset(fs[..k + 1])[c] ==
        old(knowledge.maxScouters) + multiset(fs[..k])[c]
    {
      WithoutStep(fs, k, c);
      if fs[k] == c {
        knowledge.food := RemoveFirst(knowledge.food, c);
        knowledge.maxScouters := knowledge.maxScouters - 1;
      }
    }
  }
}
