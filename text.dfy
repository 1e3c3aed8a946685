/** The operations of Go's `strings` and `bytes` packages that the codec relies on,
    over text as a sequence of characters: joining, splitting on a separator,
    finding a character, replacing a character and trimming a set of characters. */
module Text {

  /** `strings.Join(parts, sep)`: the parts with one separator between neighbours. */
  function Join(parts: seq<string>, sep: char): string
  {
    if |parts| == 0 then ""
    else if |parts| == 1 then parts[0]
    else parts[0] + [sep] + Join(parts[1..], sep)
  }

  /** The text `Join` puts before a part appended after `parts`: the joined parts and a
      separator, or nothing when there are no parts yet. */
  function Lead(parts: seq<string>, sep: char): string
  {
    if parts == [] then "" else Join(parts, sep) + [sep]
  }

  /** Appending a part to the list appends it, after `Lead`, to the joined text. */
  lemma {:induction false} JoinSnoc(parts: seq<string>, p: string, sep: char)
    ensures Join(parts + [p], sep) == Lead(parts, sep) + p
  {
    if |parts| >= 1 {
      assert (parts + [p])[0] == parts[0];
      assert (parts + [p])[1..] == parts[1..] + [p];
      JoinSnoc(parts[1..], p, sep);
    }
  }

  /** Joining a concatenation of lists: the first list's text and a separator come
      before the second list's text. */
  lemma {:induction false} JoinAppend(a: seq<string>, b: seq<string>, sep: char)
    requires |b| >= 1
    ensures Join(a + b, sep) == Lead(a, sep) + Join(b, sep)
  {
    if |a| >= 1 {
      assert (a + b)[0] == a[0];
      assert (a + b)[1..] == a[1..] + b;
      JoinAppend(a[1..], b, sep);
      if |a| == 1 {
        assert a[1..] == [];
        assert a[1..] + b == b;
      }
    } else {
      assert a + b == b;
    }
  }

  /** The joined text of a non-empty list starts with its first part, followed by a
      separator and the rest when there is more than one part. */
  lemma JoinFirst(parts: seq<string>, sep: char)
    requires |parts| >= 1
    ensures |parts| == 1 ==> Join(parts, sep) == parts[0]
    ensures |parts| > 1 ==> Join(parts, sep) == parts[0] + [sep] + Join(parts[1..], sep)
  {
  }

  /** Joined non-empty parts start with the first character of the first part and end
      with the last character of the last part. */
  lemma {:induction false} JoinEnds(parts: seq<string>, sep: char)
    requires |parts| >= 1
    requires forall k :: 0 <= k < |parts| ==> |parts[k]| >= 1
    ensures var j := Join(parts, sep); var last := parts[|parts| - 1];
            && |j| >= |parts[0]| && |j| >= |last|
            && j[0] == parts[0][0] && j[|j| - 1] == last[|last| - 1]
  {
    if |parts| > 1 {
      var tail := Join(parts[1..], sep);
      JoinEnds(parts[1..], sep);
      assert parts[1..][|parts| - 2] == parts[|parts| - 1];
      var j := parts[0] + [sep] + tail;
      assert j[0] == parts[0][0];
      assert j[|j| - 1] == tail[|tail| - 1];
    }
  }

  /** Number of occurrences of `c` in `s`. */
  function Count(s: string, c: char): nat
  {
    if s == [] then 0 else (if s[0] == c then 1 else 0) + Count(s[1..], c)
  }

  /** `strings.IndexRune` / `bytes.IndexByte`: the first position of `c`, or -1. */
  function IndexOf(s: string, c: char): (r: int)
    ensures -1 <= r < |s|
    ensures r == -1 <==> c !in s
    ensures 0 <= r ==> s[r] == c && c !in s[..r]
  {
    if s == [] then -1
    else if s[0] == c then 0
    else
      var k := IndexOf(s[1..], c);
      assert s[1..] == s[1..][..|s| - 1];
      if k == -1 then -1
      else
        assert s[..k + 1] == [s[0]] + s[1..][..k];
        k + 1
  }

  /** A text is what comes before position `k`, the character at `k`, and what follows. */
  lemma CutAround(s: string, k: int)
    requires 0 <= k < |s|
    ensures s == s[..k] + [s[k]] + s[k + 1..]
  {
  }

  /** `bytes.Split(s, [sep])`: the maximal runs of `s` free of `sep`; always at least
      one piece, so empty input gives one empty piece. */
  function Split(s: string, sep: char): (r: seq<string>)
    ensures |r| >= 1
    ensures Join(r, sep) == s
    ensures forall k :: 0 <= k < |r| ==> sep !in r[k]
    decreases |s|
  {
    var k := IndexOf(s, sep);
    if k < 0 then [s]
    else
      var rest := Split(s[k + 1..], sep);
      var r := [s[..k]] + rest;
      assert r[0] == s[..k] && r[1..] == rest;
      CutAround(s, k);
      assert Join(r, sep) == r[0] + [sep] + Join(rest, sep);
      assert forall j :: 1 <= j < |r| ==> r[j] == rest[j - 1];
      r
  }

  /** Splitting undoes joining when no part holds the separator. */
  lemma {:induction false} SplitJoin(parts: seq<string>, sep: char)
    requires |parts| >= 1
    requires forall k :: 0 <= k < |parts| ==> sep !in parts[k]
    ensures Split(Join(parts, sep), sep) == parts
  {
    if |parts| > 1 {
      var s := Join(parts, sep);
      assert s == parts[0] + [sep] + Join(parts[1..], sep);
      assert s[..|parts[0]|] == parts[0];
      assert s[|parts[0]|] == sep;
      assert IndexOf(s, sep) == |parts[0]|;
      assert s[|parts[0]| + 1..] == Join(parts[1..], sep);
      SplitJoin(parts[1..], sep);
    } else {
      assert Join(parts, sep) == parts[0];
      assert IndexOf(parts[0], sep) == -1;
    }
  }

  /** Joining n parts free of the separator puts exactly n - 1 separators in the text. */
  lemma {:induction false} JoinCount(parts: seq<string>, sep: char)
    requires |parts| >= 1
    requires forall k :: 0 <= k < |parts| ==> sep !in parts[k]
    ensures Count(Join(parts, sep), sep) == |parts| - 1
  {
    NoneCounted(parts[0], sep);
    if |parts| > 1 {
      assert Join(parts, sep) == parts[0] + ([sep] + Join(parts[1..], sep));
      CountConcat(parts[0], [sep] + Join(parts[1..], sep), sep);
      CountConcat([sep], Join(parts[1..], sep), sep);
      assert Count([sep], sep) == 1 by {
        assert [sep][1..] == [];
      }
      JoinCount(parts[1..], sep);
    }
  }

  lemma {:induction false} NoneCounted(s: string, c: char)
    requires c !in s
    ensures Count(s, c) == 0
  {
    if s != [] {
      assert s == [s[0]] + s[1..];
      NoneCounted(s[1..], c);
    }
  }

  lemma {:induction false} CountConcat(a: string, b: string, c: char)
    ensures Count(a + b, c) == Count(a, c) + Count(b, c)
  {
    if a != [] {
      assert (a + b)[1..] == a[1..] + b;
      CountConcat(a[1..], b, c);
    } else {
      assert a + b == b;
    }
  }

  /** Every character of a joined text comes from a part or is the separator. */
  lemma {:induction false} JoinChars(parts: seq<string>, sep: char, c: char)
    requires c != sep
    requires forall k :: 0 <= k < |parts| ==> c !in parts[k]
    ensures c !in Join(parts, sep)
  {
    if |parts| > 1 {
      JoinChars(parts[1..], sep, c);
    }
  }

  /** `strings.Replace(s, [from], repl, -1)` for a one-character `from`. */
  function Replace(s: string, from: char, repl: string): (r: string)
    ensures from !in repl ==> from !in r
    ensures from !in s ==> r == s
  {
    if s == [] then ""
    else (if s[0] == from then repl else [s[0]]) + Replace(s[1..], from, repl)
  }

  /** Replacing distributes over concatenation. */
  lemma {:induction false} ReplaceConcat(a: string, b: string, from: char, repl: string)
    ensures Replace(a + b, from, repl) == Replace(a, from, repl) + Replace(b, from, repl)
  {
    if a == [] {
      assert a + b == b;
    } else {
      assert (a + b)[1..] == a[1..] + b;
      ReplaceConcat(a[1..], b, from, repl);
    }
  }

  /** Concatenation regroups: the text `(a + b) + q + r` is `a + (b + q + r)`. */
  lemma Regroup(a: string, b: string, q: string, r: string)
    ensures (a + b) + q + r == a + (b + q + r)
  {
    assert (a + b) + q == a + (b + q);
    assert (a + (b + q)) + r == a + ((b + q) + r);
  }

  /** A suffix of a suffix of `s` is a suffix of `s`. */
  lemma SuffixOfSuffix(s: string, t: string, u: string)
    requires |t| <= |s| && t == s[|s| - |t|..]
    requires |u| <= |t| && u == t[|t| - |u|..]
    ensures u == s[|s| - |u|..]
  {
  }

  /** `strings.TrimLeft(s, cutset)`: drops the leading characters that are in `cut`. */
  function TrimLeft(s: string, cut: set<char>): (r: string)
    ensures |r| <= |s|
  {
    if s != [] && s[0] in cut then TrimLeft(s[1..], cut) else s
  }

  /** TrimLeft leaves a suffix that does not start with a cut character, and every
      character it removes is in `cut`. */
  lemma {:induction false} TrimLeftDrops(s: string, cut: set<char>)
    ensures var r := TrimLeft(s, cut);
            && r == s[|s| - |r|..]
            && (forall k :: 0 <= k < |s| - |r| ==> s[k] in cut)
            && (r != [] ==> r[0] !in cut)
  {
    if s != [] && s[0] in cut {
      TrimLeftDrops(s[1..], cut);
    }
  }

  /** `strings.TrimRight(s, cutset)`: drops the trailing characters that are in `cut`. */
  function TrimRight(s: string, cut: set<char>): (r: string)
    ensures |r| <= |s|
  {
    if s != [] && s[|s| - 1] in cut then TrimRight(s[..|s| - 1], cut) else s
  }

  /** TrimRight leaves a prefix that does not end with a cut character, and every
      character it removes is in `cut`. */
  lemma {:induction false} TrimRightDrops(s: string, cut: set<char>)
    ensures var r := TrimRight(s, cut);
            && r == s[..|r|]
            && (forall k :: |r| <= k < |s| ==> s[k] in cut)
            && (r != [] ==> r[|r| - 1] !in cut)
  {
    if s != [] && s[|s| - 1] in cut {
      TrimRightDrops(s[..|s| - 1], cut);
    }
  }

  /** `strings.Trim(s, cutset)`: both ends trimmed, every cut character removed, not just one. */
  function Trim(s: string, cut: set<char>): (r: string)
  {
    TrimRight(TrimLeft(s, cut), cut)
  }

  /** Trimming removes exactly the outer cut characters when the inner text starts and
      ends with a character that is not cut. */
  lemma TrimFrame(open: char, inner: string, close: char, cut: set<char>)
    requires open in cut && close in cut
    requires inner == [] || (inner[0] !in cut && inner[|inner| - 1] !in cut)
    ensures Trim([open] + inner + [close], cut) == inner
  {
    var t := inner + [close];
    var s := [open] + t;
    assert s[0] == open && s[1..] == t;
    assert TrimLeft(s, cut) == TrimLeft(t, cut);
    if inner == [] {
      assert t == [close] && t[1..] == [];
      assert TrimLeft(t, cut) == TrimLeft([], cut) == [];
      assert TrimRight([], cut) == [];
    } else {
      assert t[0] == inner[0];
      assert TrimLeft(t, cut) == t;
      assert t[|t| - 1] == close && t[..|t| - 1] == inner;
      assert TrimRight(t, cut) == TrimRight(inner, cut);
      assert TrimRight(inner, cut) == inner;
    }
    assert [open] + inner + [close] == s;
  }
}
