/** Helpers shared by every part of the simulation model: optional values,
    grid cells, the Python list operations the source relies on, and the
    clipped sightline window. */
module Common {

  datatype Option<T> = None | Some(value: T)

  /** A grid cell (x, y), as the Python tuples of the source. */
  type Cell = (int, int)

  /** c lies on a w x h grid. */
  predicate On(c: Cell, w: int, h: int)
  {
    0 <= c.0 < w && 0 <= c.1 < h
  }

  /** No element occurs twice. */
  predicate NoDup<T(==)>(s: seq<T>)
  {
    forall i, j :: 0 <= i < j < |s| ==> s[i] != s[j]
  }

  /** Position of the first occurrence of v in s. */
  function IndexOf<T(==)>(s: seq<T>, v: T): (k: nat)
    requires v in s
    ensures k < |s| && s[k] == v && v !in s[..k]
  {
    if s[0] == v then 0 else
      assert s[1..][..IndexOf(s[1..], v)] == s[1..IndexOf(s[1..], v) + 1];
      1 + IndexOf(s[1..], v)
  }

  /** Python's list.remove(v): drop the first occurrence of v. */
  function RemoveFirst<T(==)>(s: seq<T>, v: T): (r: seq<T>)
    requires v in s
    ensures |r| == |s| - 1
    ensures multiset(r) == multiset(s) - multiset{v}
  {
    var k := IndexOf(s, v);
    assert s == s[..k] + [v] + s[k + 1..];
    s[..k] + s[k + 1..]
  }

  /** The elements of s that differ from v, in order. */
  function Without<T(==)>(s: seq<T>, v: T): (r: seq<T>)
    ensures v !in r
    ensures multiset(r) == multiset(s)[v := 0]
  {
    if s == [] then []
    else
      assert s == [s[0]] + s[1..];
      if s[0] == v then Without(s[1..], v) else [s[0]] + Without(s[1..], v)
  }

  /** The members of Without(s, v): those of s other than v. */
  lemma WithoutMembers<T>(s: seq<T>, v: T)
    ensures forall c :: c in Without(s, v) <==> c in s && c != v
  {
    forall c ensures c in Without(s, v) <==> c in s && c != v {
      assert c in Without(s, v) <==> multiset(Without(s, v))[c] > 0;
      assert c in s <==> multiset(s)[c] > 0;
    }
  }

  /** Without(s, v) is shorter than s by the number of occurrences of v. */
  lemma {:induction false} WithoutLength<T>(s: seq<T>, v: T)
    ensures |Without(s, v)| == |s| - multiset(s)[v]
  {
    if s != [] {
      WithoutLength(s[1..], v);
      assert s == [s[0]] + s[1..];
      assert multiset(s)[v] == multiset(s[1..])[v] + (if s[0] == v then 1 else 0);
    }
  }

  /** Removing the first occurrence of a value that occurs once removes it altogether. */
  lemma {:induction false} RemoveFirstOfUnique<T>(s: seq<T>, v: T)
    requires v in s && NoDup(s)
    ensures RemoveFirst(s, v) == Without(s, v)
    ensures NoDup(RemoveFirst(s, v))
  {
    var k := IndexOf(s, v);
    assert s == s[..k] + [v] + s[k + 1..];
    assert v !in s[k + 1..] by { NoDupAfter(s, k); }
    WithoutSingle(s[..k], v, s[k + 1..]);
    NoDupRemoveAt(s, k);
  }

  /** Clearing a value out of a list without duplicates leaves none. */
  lemma WithoutNoDup<T>(s: seq<T>, v: T)
    requires NoDup(s)
    ensures NoDup(Without(s, v))
  {
    if v in s {
      RemoveFirstOfUnique(s, v);
    } else {
      WithoutAbsent(s, v);
    }
  }

  lemma {:induction false} NoDupAfter<T>(s: seq<T>, k: nat)
    requires k < |s| && NoDup(s)
    ensures s[k] !in s[k + 1..]
  {
    forall i | k + 1 <= i < |s| ensures s[i] != s[k] { }
  }

  lemma {:induction false} WithoutSingle<T>(a: seq<T>, v: T, b: seq<T>)
    requires v !in a && v !in b
    ensures Without(a + [v] + b, v) == a + b
  {
    var s := a + [v] + b;
    if a == [] {
      assert s[0] == v && s[1..] == b;
      assert Without(s, v) == Without(b, v);
      WithoutAbsent(b, v);
    } else {
      assert s[0] == a[0] && s[1..] == a[1..] + [v] + b;
      WithoutSingle(a[1..], v, b);
      assert Without(s, v) == [a[0]] + (a[1..] + b);
      assert [a[0]] + (a[1..] + b) == a + b;
    }
  }

  lemma {:induction false} NoDupRemoveAt<T>(s: seq<T>, k: nat)
    requires k < |s| && NoDup(s)
    ensures NoDup(s[..k] + s[k + 1..])
  {
    var r := s[..k] + s[k + 1..];
    forall i, j | 0 <= i < j < |r| ensures r[i] != r[j] {
      assert r[i] == s[if i < k then i else i + 1];
      assert r[j] == s[if j < k then j else j + 1];
    }
  }

  lemma {:induction false} WithoutAbsent<T>(s: seq<T>, v: T)
    requires v !in s
    ensures Without(s, v) == s
  {
    if s != [] {
      WithoutAbsent(s[1..], v);
      assert s == [s[0]] + s[1..];
    }
  }

  lemma {:induction false} WithoutConcat<T>(a: seq<T>, b: seq<T>, v: T)
    ensures Without(a + b, v) == Without(a, v) + Without(b, v)
  {
    if a != [] {
      assert (a + b)[1..] == a[1..] + b;
      WithoutConcat(a[1..], b, v);
    } else {
      assert a + b == b;
    }
  }

  /** The elements of s whose place (the same index of at) is not c, in
      order: what a loop over a copy of s that removes every element
      standing on c leaves behind. */
  function Away<T>(s: seq<T>, at: seq<Cell>, c: Cell): (r: seq<T>)
    requires |s| == |at|
    ensures forall a :: a in r ==> a in s
  {
    if s == [] then []
    else
      var r := Away(s[..|s| - 1], at[..|s| - 1], c);
      assert forall a :: a in r ==> a in s[..|s| - 1];
      r + (if at[|s| - 1] != c then [s[|s| - 1]] else [])
  }

  /** Of distinct elements, Away keeps exactly those placed elsewhere than c. */
  lemma {:induction false} AwaySpec<T>(s: seq<T>, at: seq<Cell>, c: Cell)
    requires |s| == |at| && NoDup(s)
    ensures forall j :: 0 <= j < |s| ==> (s[j] in Away(s, at, c) <==> at[j] != c)
  {
    if s != [] {
      var m := |s| - 1;
      assert NoDup(s[..m]);
      AwaySpec(s[..m], at[..m], c);
      forall j | 0 <= j < m ensures s[j] != s[m] { }
      forall j | 0 <= j < |s| ensures s[j] in Away(s, at, c) <==> at[j] != c {
        if j < m {
          assert s[..m][j] == s[j] && at[..m][j] == at[j];
        }
      }
    }
  }

  /** Away on one more element. */
  lemma AwaySnoc<T>(s: seq<T>, at: seq<Cell>, k: nat, c: Cell)
    requires |s| == |at| && k < |s|
    ensures Away(s[..k + 1], at[..k + 1], c) ==
      Away(s[..k], at[..k], c) + (if at[k] != c then [s[k]] else [])
  {
    assert s[..k + 1][..k] == s[..k] && at[..k + 1][..k] == at[..k];
  }

  /** One step of the removing loop, for an element placed on c. */
  lemma AwayDrop<T>(s: seq<T>, at: seq<Cell>, k: nat, c: Cell)
    requires |s| == |at| && k < |s| && NoDup(s) && at[k] == c
    ensures var r := Away(s[..k], at[..k], c) + s[k..];
      s[k] in r && RemoveFirst(r, s[k]) == Away(s[..k + 1], at[..k + 1], c) + s[k + 1..]
  {
    var p, a, q := Away(s[..k], at[..k], c), s[k], s[k + 1..];
    AwaySnoc(s, at, k, c);
    assert a !in s[..k];
    assert a !in p;
    assert p + s[k..] == p + [a] + q by {
      assert s[k..] == [a] + q;
    }
    RemoveFirstAfter(p, a, q);
  }

  /** One step of the removing loop, for an element placed elsewhere. */
  lemma AwayKeep<T>(s: seq<T>, at: seq<Cell>, k: nat, c: Cell)
    requires |s| == |at| && k < |s| && at[k] != c
    ensures Away(s[..k], at[..k], c) + s[k..] == Away(s[..k + 1], at[..k + 1], c) + s[k + 1..]
  {
    AwaySnoc(s, at, k, c);
    assert s[k..] == [s[k]] + s[k + 1..];
  }

  /** Removing the first occurrence of a value not in the prefix removes it there. */
  lemma RemoveFirstAfter<T>(p: seq<T>, a: T, q: seq<T>)
    requires a !in p
    ensures RemoveFirst(p + [a] + q, a) == p + q
  {
    var s := p + [a] + q;
    assert s[..|p|] == p && s[|p| + 1..] == q;
    assert IndexOf(s, a) == |p|;
  }

  /** One step of a loop over a copy of fs that removes every c: the list
      with the first k entries cleared of c, then the rest, gains entry k
      as cleared. */
  lemma {:induction false} WithoutStep<T>(fs: seq<T>, k: nat, c: T)
    requires k < |fs|
    ensures fs[k] == c ==> var s := Without(fs[..k], c) + fs[k..];
      c in s && RemoveFirst(s, c) == Without(fs[..k + 1], c) + fs[k + 1..]
    ensures fs[k] != c ==> Without(fs[..k], c) + fs[k..] == Without(fs[..k + 1], c) + fs[k + 1..]
    ensures multiset(fs[..k + 1])[c] == multiset(fs[..k])[c] + (if fs[k] == c then 1 else 0)
  {
    assert fs[..k + 1] == fs[..k] + [fs[k]];
    WithoutConcat(fs[..k], [fs[k]], c);
    assert [fs[k]][1..] == [];
    assert fs[k..] == [fs[k]] + fs[k + 1..];
    if fs[k] == c {
      var p, q := Without(fs[..k], c), fs[k + 1..];
      assert Without([fs[k]], c) == [];
      assert Without(fs[..k + 1], c) == p;
      assert p + fs[k..] == p + [c] + q;
      RemoveFirstAfter(p, c, q);
    }
  }

  /** A prefix one longer ends with the next element. */
  lemma TakeOneMore<T>(s: seq<T>, k: nat)
    requires k < |s|
    ensures s[..k + 1] == s[..k] + [s[k]]
  {
  }

  /** Python's int() on a real: truncation toward zero (Dafny's .Floor rounds down). */
  function Trunc(r: real): (n: int)
    ensures 0.0 <= r ==> n as real <= r < n as real + 1.0
    ensures r < 0.0 ==> n as real - 1.0 < r <= n as real
    ensures 0.0 <= r ==> 0 <= n
    ensures r < 0.0 ==> n <= 0
  {
    if r >= 0.0 then r.Floor else -((-r).Floor)
  }

  function Max(a: int, b: int): int { if a >= b then a else b }
  function Min(a: int, b: int): int { if a <= b then a else b }
  function MaxR(a: real, b: real): real { if a >= b then a else b }
  function MinR(a: real, b: real): real { if a <= b then a else b }

  /** The half-open rectangle [x0, x1) x [y0, y1). */
  datatype Rect = Rect(x0: int, y0: int, x1: int, y1: int)
  {
    predicate Contains(c: Cell) { x0 <= c.0 < x1 && y0 <= c.1 < y1 }
    function Width(): int { x1 - x0 }
    function Height(): int { y1 - y0 }
  }

  /** The sightline window of an agent at (x, y) with radius s, clipped to a
      width x height board: [max(0, x - s), min(w, x + s + 1)) x [max(0, y - s), min(h, y + s + 1)). */
  function SightWindow(x: int, y: int, s: int, w: int, h: int): (r: Rect)
    requires 0 <= x < w && 0 <= y < h && 0 <= s
    ensures 0 <= r.x0 <= x < r.x1 <= w && 0 <= r.y0 <= y < r.y1 <= h
    ensures forall c: Cell :: r.Contains(c) <==>
      0 <= c.0 < w && 0 <= c.1 < h && x - s <= c.0 <= x + s && y - s <= c.1 <= y + s
  {
    Rect(Max(0, x - s), Max(0, y - s), Min(w, x + s + 1), Min(h, y + s + 1))
  }

  /** The cells (x, y0) .. (x, y1 - 1) of one column. */
  function Column(x: int, y0: int, y1: int): (cs: seq<Cell>)
    ensures forall c :: c in cs <==> c.0 == x && y0 <= c.1 < y1
    decreases y1 - y0
  {
    if y1 <= y0 then [] else Column(x, y0, y1 - 1) + [(x, y1 - 1)]
  }

  /** Every cell of r, column by column: the order numpy's where lists the
      indices of an array indexed [x, y]. */
  function Cells(r: Rect): (cs: seq<Cell>)
    ensures forall c :: c in cs <==> r.Contains(c)
    decreases r.x1 - r.x0
  {
    if r.x1 <= r.x0 then [] else Cells(r.(x1 := r.x1 - 1)) + Column(r.x1 - 1, r.y0, r.y1)
  }

  /** np.min over scored cells. */
  function MinScore(ps: seq<(Cell, real)>): (m: real)
    requires |ps| > 0
    ensures exists i :: 0 <= i < |ps| && ps[i].1 == m
    ensures forall i :: 0 <= i < |ps| ==> m <= ps[i].1
  {
    if |ps| == 1 then ps[0].1 else MinR(ps[0].1, MinScore(ps[1..]))
  }

  /** np.where(score == m): the cells whose score is m, in order. */
  function AtScore(ps: seq<(Cell, real)>, m: real): (r: seq<Cell>)
    ensures forall c :: c in r <==> (c, m) in ps
  {
    if ps == [] then []
    else (if ps[0].1 == m then [ps[0].0] else []) + AtScore(ps[1..], m)
  }
}
