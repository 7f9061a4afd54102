/** The string operations the save formats rely on: Python's str.split on a
    one-character separator, "sep".join, and rstrip of one character. */
module Text {

  /** sep.join(parts). */
  function Join(parts: seq<string>, sep: char): string
  {
    if |parts| == 0 then ""
    else if |parts| == 1 then parts[0]
    else Join(parts[..|parts| - 1], sep) + [sep] + parts[|parts| - 1]
  }

  /** Every part followed by sep: what a loop appending part + sep builds. */
  function Terminated(parts: seq<string>, sep: char): string
  {
    if |parts| == 0 then "" else Terminated(parts[..|parts| - 1], sep) + parts[|parts| - 1] + [sep]
  }

  /** s.split(sep): the maximal pieces between separators (one piece for a
      string without separator, including the empty string). */
  function Split(s: string, sep: char): (r: seq<string>)
    ensures |r| >= 1
  {
    if s == [] then [""]
    else if s[0] == sep then [""] + Split(s[1..], sep)
    else Prepend(s[0], Split(s[1..], sep))
  }

  /** The pieces r with c put in front of the first. */
  function Prepend(c: char, r: seq<string>): (p: seq<string>)
    requires |r| >= 1
    ensures |p| == |r|
  {
    [[c] + r[0]] + r[1..]
  }

  lemma PrependConcat(c: char, r: seq<string>, tail: seq<string>)
    requires |r| >= 1
    ensures Prepend(c, r + tail) == Prepend(c, r) + tail
  {
    assert (r + tail)[0] == r[0] && (r + tail)[1..] == r[1..] + tail;
  }

  /** s.rstrip(c). */
  function RStrip(s: string, c: char): (r: string)
    ensures |r| <= |s| && r == s[..|r|]
    ensures |r| > 0 ==> r[|r| - 1] != c
  {
    if |s| > 0 && s[|s| - 1] == c then RStrip(s[..|s| - 1], c) else s
  }

  lemma {:induction false} SplitWithout(s: string, sep: char)
    requires sep !in s
    ensures Split(s, sep) == [s]
  {
    if s != [] {
      SplitWithout(s[1..], sep);
      assert s == [s[0]] + s[1..];
    }
  }

  lemma {:induction false} SplitAt(a: string, sep: char, b: string)
    ensures Split(a + [sep] + b, sep) == Split(a, sep) + Split(b, sep)
  {
    var s := a + [sep] + b;
    if a == [] {
      assert s[0] == sep && s[1..] == b;
    } else {
      assert s[0] == a[0] && s[1..] == a[1..] + [sep] + b;
      SplitAt(a[1..], sep, b);
      var rest, tail := Split(a[1..], sep), Split(b, sep);
      if a[0] == sep {
        assert [""] + (rest + tail) == [""] + rest + tail;
      } else {
        PrependConcat(a[0], rest, tail);
      }
    }
  }

  /** Splitting a join gives back the parts, when no part holds the separator. */
  lemma {:induction false} SplitJoin(parts: seq<string>, sep: char)
    requires |parts| >= 1
    requires forall i :: 0 <= i < |parts| ==> sep !in parts[i]
    ensures Split(Join(parts, sep), sep) == parts
    decreases |parts|
  {
    var n := |parts|;
    if n == 1 {
      SplitWithout(parts[0], sep);
    } else {
      var init := parts[..n - 1];
      SplitJoin(init, sep);
      SplitAt(Join(init, sep), sep, parts[n - 1]);
      SplitWithout(parts[n - 1], sep);
      assert init + [parts[n - 1]] == parts;
    }
  }

  lemma TerminatedSnoc(parts: seq<string>, p: string, sep: char)
    ensures Terminated(parts + [p], sep) == Terminated(parts, sep) + p + [sep]
  {
    assert (parts + [p])[..|parts|] == parts;
  }

  /** A text not ending with c is left alone by rstrip(c). */
  lemma RStripNone(s: string, c: char)
    requires s == "" || s[|s| - 1] != c
    ensures RStrip(s, c) == s
  {
  }

  /** A terminated run is empty or ends with the terminator. */
  lemma TerminatedEnd(parts: seq<string>, sep: char)
    ensures var t := Terminated(parts, sep); t == "" || t[|t| - 1] == sep
  {
  }

  /** A character that is neither the separator nor in any part is not in the join. */
  lemma {:induction false} NotInJoin(parts: seq<string>, sep: char, c: char)
    requires c != sep && forall i :: 0 <= i < |parts| ==> c !in parts[i]
    ensures c !in Join(parts, sep)
    decreases |parts|
  {
    if |parts| > 1 {
      NotInJoin(parts[..|parts| - 1], sep, c);
    }
  }

  /** A run of terminated parts is their join plus one terminator. */
  lemma {:induction false} TerminatedJoin(parts: seq<string>, sep: char)
    requires |parts| >= 1
    ensures Terminated(parts, sep) == Join(parts, sep) + [sep]
    decreases |parts|
  {
    if |parts| > 1 {
      TerminatedJoin(parts[..|parts| - 1], sep);
      assert parts[..|parts| - 1][..|parts| - 2] == parts[..|parts| - 2];
    }
  }

  /** Stripping the terminator of a text not ending in it gives back the text. */
  lemma RStripOne(s: string, c: char)
    requires |s| > 0 && s[|s| - 1] != c
    ensures RStrip(s + [c], c) == s
  {
    assert (s + [c])[..|s|] == s;
  }

  /** The last character of a join is the last character of its last part. */
  lemma {:induction false} JoinLast(parts: seq<string>, sep: char)
    requires |parts| >= 1 && |parts[|parts| - 1]| > 0
    ensures |Join(parts, sep)| > 0
    ensures Join(parts, sep)[|Join(parts, sep)| - 1] == parts[|parts| - 1][|parts[|parts| - 1]| - 1]
  {
  }
}
