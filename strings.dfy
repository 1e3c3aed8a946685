/** string.go: the nullable `String`, the text-array type `Strings` with its encoder
    `Value` and decoder `Scan`, and the list utilities on `Strings`.

    `Strings` values that the source only reads are sequences; where a result is a
    nil or a non-nil slice the distinction is kept with `Slice`. `Scan`, which
    assigns through its pointer receiver, is a method of a class holding the slice. */
module PgString {
  import opened Base
  import opened Text
  import opened Seqs
  import opened ParseArray

  // ---------------------------------------------------------------------------
  // The nullable String

  /** `String` (sql.NullString): a text and whether it is present. */
  datatype NullString = NullString(value: string, valid: bool) {
    /** `String.Value`: the text when present, the database NULL otherwise. */
    function Value(): (r: DbValue)
      ensures valid <==> r.Text?
      ensures valid ==> r == Text(value)
      ensures !valid ==> r == Null
    {
      if valid then Text(value) else Null
    }
  }

  /** `NewString`: an absent string when `emptyToNull` is set and `s` is empty,
      `s` itself otherwise. */
  function NewString(s: string, emptyToNull: bool): (r: NullString)
    ensures r.valid <==> !(emptyToNull && s == "")
    ensures r.valid ==> r.value == s
    ensures !r.valid ==> r == NullString("", false)
  {
    if emptyToNull && s == "" then NullString("", false) else NullString(s, true)
  }

  /** `String.Scan`: NULL gives the absent string; text is stored as present; any
      other kind is an error and leaves the empty, absent string behind. The new
      value does not depend on the old one, so the update is given as the value it
      assigns. */
  function ScanString(src: DbValue): (r: (NullString, Option<Error>))
    ensures src == Null ==> r == (NullString("", false), None)
    ensures r.1 == None <==> src == Null || src.Bytes? || src.Text?
    ensures r.0.valid <==> src.Bytes? || src.Text?
    ensures r.1.Some? ==> r.0 == NullString("", false)
  {
    if src == Null then (NullString("", false), None)
    else
      match ConvertToString(src)
      case Success(t) => (NullString(t, true), None)
      case Failure(e) => (NullString("", false), Some(e))
  }

  /** Scanning what `Value` produces restores every string `NewString` can build. */
  lemma StringValueScan(s: string, emptyToNull: bool)
    ensures ScanString(NewString(s, emptyToNull).Value()) == (NewString(s, emptyToNull), None)
  {
  }

  /** `FilterValidStrings`: the texts of the present strings, in order. */
  method FilterValidStrings(ss: seq<NullString>) returns (res: seq<string>)
    ensures res == Texts(Filter(ss, IsValid))
  {
    res := [];
    for i := 0 to |ss|
      invariant res == Texts(Filter(ss[..i], IsValid))
    {
      assert ss[..i + 1] == ss[..i] + [ss[i]];
      FilterSnoc(ss[..i], ss[i], IsValid);
      if ss[i].valid {
        res := res + [ss[i].value];
      }
    }
    assert ss[..|ss|] == ss;
  }

  predicate IsValid(x: NullString) { x.valid }

  function Texts(xs: seq<NullString>): (r: seq<string>)
    ensures |r| == |xs| && forall k :: 0 <= k < |xs| ==> r[k] == xs[k].value
  {
    seq(|xs|, k requires 0 <= k < |xs| => xs[k].value)
  }

  /** The texts kept are exactly those of present strings, and in the given order. */
  lemma FilterValidMembers(ss: seq<NullString>, t: string)
    ensures t in Texts(Filter(ss, IsValid)) <==> exists k :: 0 <= k < |ss| && ss[k].valid && ss[k].value == t
  {
    var f := Filter(ss, IsValid);
    if t in Texts(f) {
      var m :| 0 <= m < |f| && Texts(f)[m] == t;
      FilterMembers(ss, IsValid, f[m]);
    }
    if k :| 0 <= k < |ss| && ss[k].valid && ss[k].value == t {
      FilterMembers(ss, IsValid, ss[k]);
      var m :| 0 <= m < |f| && f[m] == ss[k];
      assert Texts(f)[m] == t;
    }
  }

  // ---------------------------------------------------------------------------
  // The text-array encoder

  /** What escaping does to one character: backslash and quote get a backslash. */
  function EscapeChar(c: char): string
  {
    if c == '\\' then "\\\\" else if c == '"' then "\\\"" else [c]
  }

  /** The escaping of `Strings.Value`: first every backslash is doubled, then every
      quote gets a backslash. */
  function Escape(s: string): string
  {
    Replace(Replace(s, '\\', "\\\\"), '"', "\\\"")
  }

  /** Because backslashes are doubled before quotes are escaped, the two passes act
      like one pass escaping each character on its own. */
  lemma EscapeCons(c: char, rest: string)
    ensures Escape([c] + rest) == EscapeChar(c) + Escape(rest)
  {
    ReplaceConcat([c], rest, '\\', "\\\\");
    var first := Replace([c], '\\', "\\\\");
    assert [c][1..] == [];
    ReplaceConcat(first, Replace(rest, '\\', "\\\\"), '"', "\\\"");
    if c == '\\' {
      assert first == "\\\\";
      assert Replace(first, '"', "\\\"") == "\\\\" by {
        assert first[1..] == "\\";
        assert first[1..][1..] == "";
      }
    } else {
      assert first == [c];
    }
  }

  /** One element as `Value` writes it: escaped and between quotes. */
  function Quote(s: string): string
  {
    "\"" + Escape(s) + "\""
  }

  function Quoted(ss: seq<string>): (r: seq<string>)
    ensures |r| == |ss| && forall k :: 0 <= k < |ss| ==> r[k] == Quote(ss[k])
  {
    seq(|ss|, k requires 0 <= k < |ss| => Quote(ss[k]))
  }

  /** The array literal `Strings.Value` produces. */
  function Encode(ss: seq<string>): string
  {
    "{" + Join(Quoted(ss), ',') + "}"
  }

  /** `Strings.Value`: quotes every element into a buffer of one slot per element,
      then joins and wraps in braces. The source's error result is always nil. */
  method Value(ss: seq<string>) returns (r: string)
    ensures r == Encode(ss)
  {
    var quoted := new string[|ss|];
    ghost var done: seq<string> := [];
    for i := 0 to |ss|
      invariant |done| == i && quoted[..i] == done
      invariant forall k :: 0 <= k < i ==> done[k] == Quote(ss[k])
    {
      var escapedBackslash := Replace(ss[i], '\\', "\\\\");
      var escapedQuote := Replace(escapedBackslash, '"', "\\\"");
      quoted[i] := "\"" + escapedQuote + "\"";
      done := done + [quoted[i]];
      assert quoted[..i + 1] == quoted[..i] + [quoted[i]];
    }
    assert quoted[..] == quoted[..|ss|];
    assert done == Quoted(ss);
    r := "{" + Join(quoted[..], ',') + "}";
  }

  /** The empty list is the empty array literal. */
  lemma EncodeEmpty()
    ensures Encode([]) == "{}"
  {
  }

  // ---------------------------------------------------------------------------
  // The round trip

  /** One escaped character is decoded back, and the text after it handed on. */
  lemma UnquoteEscaped(c: char, tail: string)
    ensures var s := EscapeChar(c) + tail;
            && s[0] != '"' && UnquoteChar(s) == Success((c, tail))
  {
    var s := EscapeChar(c) + tail;
    if c == '\\' || c == '"' {
      assert s[0] == '\\' && s[1] == c && s[2..] == tail;
    } else {
      assert s[0] == c && s[1..] == tail;
    }
  }

  /** The decoder reads an escaped body back up to the quote that ends it. */
  lemma {:induction false} ScanEscaped(x: string, rest: string)
    ensures ScanQuoted(Escape(x) + "\"" + rest) == Success((x, "\"" + rest))
  {
    if x == [] {
      assert Escape(x) == "";
      assert Escape(x) + "\"" + rest == "\"" + rest;
    } else {
      var c := x[0];
      assert x == [c] + x[1..];
      EscapeCons(c, x[1..]);
      var head := EscapeChar(c);
      var e := Escape(x[1..]);
      assert Escape(x) == head + e;
      var tail := e + "\"" + rest;
      var s := Escape(x) + "\"" + rest;
      Regroup(head, e, "\"", rest);
      UnquoteEscaped(c, tail);
      ScanEscaped(x[1..], rest);
      assert ScanQuoted(s) == PrefixToken([c], ScanQuoted(tail));
    }
  }

  /** A quoted body that runs out before its closing quote is a syntax error: an
      escaped text holds no unescaped quote, so the reader reaches the end of it. */
  lemma {:induction false} UnterminatedEscaped(x: string)
    ensures ScanQuoted(Escape(x)) == Failure(SyntaxError)
  {
    if x == [] {
      assert Escape(x) == "";
    } else {
      var c := x[0];
      assert x == [c] + x[1..];
      EscapeCons(c, x[1..]);
      var tail := Escape(x[1..]);
      UnquoteEscaped(c, tail);
      UnterminatedEscaped(x[1..]);
      assert ScanQuoted(Escape(x)) == PrefixToken([c], ScanQuoted(tail));
    }
  }

  /** A quoted token whose closing quote is missing is rejected: `"` followed by any
      escaped text and nothing else. */
  lemma UnterminatedQuoted(x: string)
    ensures Token("\"" + Escape(x)) == Failure(SyntaxError)
  {
    var s := "\"" + Escape(x);
    assert s[0] == '"' && s[1..] == Escape(x);
    UnterminatedEscaped(x);
  }

  /** A quoted element followed by a comma is read, and the comma consumed. */
  lemma QuotedThenComma(x: string, rest: string)
    ensures Token(Quote(x) + "," + rest) == Success((x, rest))
  {
    var after := "\"" + ("," + rest);
    var body := Escape(x) + "\"" + ("," + rest);
    var s := Quote(x) + "," + rest;
    assert s == "\"" + body;
    assert s[0] == '"' && s[1..] == body;
    ScanEscaped(x, "," + rest);
    assert ScanQuoted(body) == Success((x, after));
    assert |after| >= 2 && after[1] == ',' && after[2..] == rest;
    assert QuotedToken(body) == Success((x, rest));
  }

  /** A quoted element at the very end is the last token. */
  lemma QuotedAtEnd(x: string)
    ensures Token(Quote(x)) == Success((x, ""))
  {
    var body := Escape(x) + "\"" + "";
    var s := Quote(x);
    assert s == "\"" + body;
    assert s[0] == '"' && s[1..] == body;
    ScanEscaped(x, "");
    assert ScanQuoted(body) == Success((x, "\"" + ""));
    assert QuotedToken(body) == Success((x, ""));
  }

  /** The encoding of a list of two or more elements: the first one quoted, a comma,
      and the encoding of the rest. */
  lemma JoinQuotedCons(ss: seq<string>)
    requires |ss| >= 2
    ensures Join(Quoted(ss), ',') == Quote(ss[0]) + "," + Join(Quoted(ss[1..]), ',')
  {
    var q := Quoted(ss);
    assert q[1..] == Quoted(ss[1..]);
    JoinFirst(q, ',');
  }

  /** The token loop reads every element of a non-empty encoded list back. */
  lemma {:induction false} TokensOfQuoted(ss: seq<string>)
    requires |ss| >= 1
    ensures Tokens(Join(Quoted(ss), ',')) == Success(ss)
  {
    var j := Join(Quoted(ss), ',');
    if |ss| == 1 {
      assert Quoted(ss) == [Quote(ss[0])];
      assert j == Quote(ss[0]);
      QuotedAtEnd(ss[0]);
      TokensStep(j, ss[0], "");
      assert Tokens("") == Success([]);
      assert [ss[0]] + [] == ss;
    } else {
      var rest := Join(Quoted(ss[1..]), ',');
      JoinQuotedCons(ss);
      QuotedThenComma(ss[0], rest);
      TokensStep(j, ss[0], rest);
      TokensOfQuoted(ss[1..]);
      assert [ss[0]] + ss[1..] == ss;
    }
  }

  /** The joined quoted elements start and end with a quote. */
  lemma QuotedEnds(ss: seq<string>)
    requires |ss| >= 1
    ensures var j := Join(Quoted(ss), ','); |j| >= 2 && j[0] == '"' && j[|j| - 1] == '"'
  {
    var q := Quoted(ss);
    forall k | 0 <= k < |q|
      ensures |q[k]| >= 2 && q[k][0] == '"' && q[k][|q[k]| - 1] == '"'
    {
      assert q[k] == Quote(ss[k]);
    }
    JoinEnds(q, ',');
  }

  /** Decoding what `Strings.Value` encodes gives the list back, for every list of
      every text: quotes, backslashes, commas, braces and control characters
      included. */
  lemma RoundTrip(ss: seq<string>)
    ensures Decoded(Encode(ss)) == Success(ss)
  {
    if ss == [] {
      DecodedFrame("");
    } else {
      QuotedEnds(ss);
      DecodedFrame(Join(Quoted(ss), ','));
      TokensOfQuoted(ss);
    }
  }

  lemma EscapeOne(c: char)
    ensures Escape([c]) == EscapeChar(c)
  {
    EscapeCons(c, "");
    assert [c] + "" == [c];
  }

  lemma EncodeOne(x: string)
    ensures Encode([x]) == "{" + Quote(x) + "}"
  {
    assert Quoted([x]) == [Quote(x)];
  }

  /** A quote is written with a backslash before it: `["\""]` gives `{"\""}`. */
  lemma EncodeQuote()
    ensures Encode(["\""]) == "{" + "\"" + "\\" + "\"" + "\"" + "}"
  {
    EscapeOne('"');
    EncodeOne("\"");
  }

  /** A backslash is doubled: `["\\"]` gives `{"\\\\"}`. */
  lemma EncodeBackslash()
    ensures Encode(["\\"]) == "{" + "\"" + "\\" + "\\" + "\"" + "}"
  {
    EscapeOne('\\');
    EncodeOne("\\");
  }

  /** As written, a comma after a closing quote is consumed even when nothing
      follows it, so a quoted last element may carry a trailing comma, which a bare
      one may not (`{mary,}` is rejected). */
  lemma QuotedTrailingCommaAccepted(x: string)
    ensures Decoded("{" + Quote(x) + "," + "}") == Success([x])
  {
    var inner := Quote(x) + "," + "";
    assert "{" + Quote(x) + "," + "}" == "{" + inner + "}";
    DecodedFrame(inner);
    QuotedThenComma(x, "");
    assert Tokens("") == Success([]);
    assert [x] + [] == [x];
  }

  /** `{"a",}` decodes to `[a]`. */
  lemma QuotedTrailingCommaExample()
    ensures Decoded("{" + "\"a\"" + "," + "}") == Success(["a"])
  {
    EscapeOne('a');
    assert Quote("a") == "\"a\"";
    QuotedTrailingCommaAccepted("a");
  }

  // ---------------------------------------------------------------------------
  // The decoder as the scanner of a Strings variable

  /** What `Strings.Scan` decodes from a database value: text is required, then the
      array literal. */
  function ScanSource(src: DbValue): (r: Result<seq<string>>)
    ensures !(src.Bytes? || src.Text?) ==> r.Failure?
  {
    match ConvertToString(src)
    case Failure(e) => Failure(e)
    case Success(t) => Decoded(t)
  }

  /** A variable of type `Strings`. */
  class Strings {
    var slice: Slice<string>

    constructor(init: Slice<string>)
      ensures slice == init
    {
      slice := init;
    }

    /** `Strings.Scan`: on success the variable holds the decoded, non-nil list; on
        any error it is left as it was and the error is returned. */
    method Scan(src: DbValue) returns (err: Option<Error>)
      modifies this
      ensures ScanSource(src).Success? ==> err == None && slice == Of(ScanSource(src).value)
      ensures ScanSource(src).Failure? ==> err == Some(ScanSource(src).error) && slice == old(slice)
    {
      var str := ConvertToString(src);
      if str.Failure? {
        return Some(str.error);
      }
      var parsed := ParseArray.ParseArray(str.value);
      if parsed.Failure? {
        return Some(parsed.error);
      }
      slice := Of(parsed.value);
      return None;
    }
  }

  /** Encoding a list and scanning the text into a variable gives the list back:
      the randomized marshalling test as a theorem. */
  method ValueThenScan(ss: seq<string>) returns (back: Slice<string>, err: Option<Error>)
    ensures err == None && back == Of(ss)
  {
    var v := Value(ss);
    var target := new Strings(Nil);
    RoundTrip(ss);
    assert ScanSource(Bytes(v)) == Success(ss) by {
      assert ConvertToString(Bytes(v)) == Success(v);
    }
    err := target.Scan(Bytes(v));
    back := target.slice;
  }

  // ---------------------------------------------------------------------------
  // List utilities

  /** `Strings.Equals`: the lengths match and the elements agree in place. */
  method Equals(s: seq<string>, s2: seq<string>) returns (r: bool)
    ensures r <==> s == s2
  {
    if |s| != |s2| {
      return false;
    }
    for i := 0 to |s|
      invariant s[..i] == s2[..i]
    {
      if s[i] != s2[i] {
        return false;
      }
      assert s[..i + 1] == s[..i] + [s[i]];
      assert s2[..i + 1] == s2[..i] + [s2[i]];
    }
    assert s == s[..|s|] && s2 == s2[..|s2|];
    return true;
  }

  /** `Strings.Contains`. */
  method Contains(s: seq<string>, val: string) returns (r: bool)
    ensures r <==> val in s
  {
    for i := 0 to |s|
      invariant val !in s[..i]
    {
      if s[i] == val {
        return true;
      }
      assert s[..i + 1] == s[..i] + [s[i]];
    }
    assert s == s[..|s|];
    return false;
  }

  /** `Strings.ContainsAll`: every one of `vals` is in `s`. */
  method ContainsAll(s: seq<string>, vals: seq<string>) returns (r: bool)
    ensures r <==> forall k :: 0 <= k < |vals| ==> vals[k] in s
  {
    for i := 0 to |vals|
      invariant forall k :: 0 <= k < i ==> vals[k] in s
    {
      var found := Contains(s, vals[i]);
      if !found {
        return false;
      }
    }
    return true;
  }

  /** `Strings.ContainsAllSorted`: walks `s` once, matching each element of `s2` with
      the next equal element of `s`. It answers whether `s2` is a subsequence of
      `s`; for sorted lists that is whether `s` contains all of `s2`. */
  method ContainsAllSorted(s: seq<string>, s2: seq<string>) returns (r: bool)
    ensures r <==> Subsequence(s2, s)
  {
    InOrderIsSubsequence(s2, s);
    var lens, lens2 := |s|, |s2|;
    if lens2 > lens {
      LongerNotSubsequence(s2, s);
      return false;
    }
    var i, j := 0, 0;
    var ok := true;
    while j < lens2
      invariant 0 <= j <= lens2 && 0 <= i <= lens
      invariant ok
      invariant InOrder(s2, s) == InOrder(s2[j..], s[i..])
      decreases lens2 - j
    {
      ok := false;
      while i < lens
        invariant 0 <= i <= lens && !ok
        invariant InOrder(s2, s) == InOrder(s2[j..], s[i..])
        decreases lens - i
      {
        if s[i] == s2[j] {
          assert s2[j..][1..] == s2[j + 1..];
          assert s[i..][1..] == s[i + 1..];
          i := i + 1;
          ok := true;
          break;
        }
        assert s[i..][1..] == s[i + 1..];
        i := i + 1;
      }
      if i == lens || !ok {
        if !ok {
          assert s[i..] == [];
        } else {
          assert s[i..] == [];
          assert InOrder(s2[j + 1..], []) <==> j + 1 == lens2;
        }
        break;
      }
      j := j + 1;
    }
    if j == lens2 {
      assert s2[j..] == [];
    }
    return ok && j >= lens2 - 1;
  }

  /** The membership test used by `Exclude`. */
  function Outside(ss: seq<string>): string -> bool
  {
    e => e !in ss
  }

  /** `Strings.Exclude`: the elements of `s` that are not among `ss`, in order. */
  method Exclude(s: seq<string>, ss: seq<string>) returns (r: seq<string>)
    ensures r == Filter(s, Outside(ss))
  {
    r := [];
    for i := 0 to |s|
      invariant r == Filter(s[..i], Outside(ss))
    {
      assert s[..i + 1][..i] == s[..i];
      var found := Contains(ss, s[i]);
      if !found {
        r := r + [s[i]];
      }
    }
    assert s[..|s|] == s;
  }

  /** What `Exclude` keeps: exactly the elements of `s` not in `ss`, each as often as
      in `s`, in their original order. */
  lemma ExcludeKeeps(s: seq<string>, ss: seq<string>, e: string)
    ensures e in Filter(s, Outside(ss)) <==> e in s && e !in ss
    ensures multiset(Filter(s, Outside(ss)))[e] == if e in ss then 0 else multiset(s)[e]
    ensures Subsequence(Filter(s, Outside(ss)), s)
  {
    FilterMembers(s, Outside(ss), e);
    FilterMultiset(s, Outside(ss), e);
    FilterSubsequence(s, Outside(ss));
  }

  predicate NonEmpty(e: string) { e != "" }

  /** `Strings.EmptyToNil`: nil when no element is non-empty, the list itself
      otherwise. The non-empty elements are collected but only their number is used. */
  method EmptyToNil(s: Slice<string>) returns (r: Slice<string>)
    ensures r == Nil <==> forall k :: 0 <= k < |s.Elements()| ==> s.Elements()[k] == ""
    ensures r != Nil ==> r == s
  {
    var items := s.Elements();
    var result: Slice<string> := Nil;
    ghost var kept: seq<string> := [];
    for i := 0 to |items|
      invariant kept == Filter(items[..i], NonEmpty)
      invariant result == if kept == [] then Nil else Of(kept)
    {
      KeepStep(items, i);
      if |items[i]| > 0 {
        result := Of(result.Elements() + [items[i]]);
        kept := kept + [items[i]];
      }
    }
    assert items[..|items|] == items;
    FilterEmpty(items, NonEmpty);
    if |result.Elements()| == 0 {
      return Nil;
    }
    return s;
  }

  lemma KeepStep(items: seq<string>, i: int)
    requires 0 <= i < |items|
    ensures Filter(items[..i + 1], NonEmpty)
         == Filter(items[..i], NonEmpty) + (if items[i] != "" then [items[i]] else [])
  {
    ghost var before := items[..i + 1];
    assert before[..|before| - 1] == items[..i] && before[|before| - 1] == items[i];
  }

  /** A filter keeps nothing exactly when it accepts no element. */
  lemma FilterEmpty<T(!new)>(s: seq<T>, keep: T -> bool)
    ensures Filter(s, keep) == [] <==> forall k :: 0 <= k < |s| ==> !keep(s[k])
  {
    if k :| 0 <= k < |s| && keep(s[k]) {
      FilterMembers(s, keep, s[k]);
    }
    if Filter(s, keep) != [] {
      FilterMembers(s, keep, Filter(s, keep)[0]);
    }
  }

  /** `Strings.ForEachPair`: the calls made to `f`, in order. Each element is paired
      with the one after it, so there are no calls below two elements. */
  method ForEachPair(s: seq<string>) returns (calls: seq<(string, string)>)
    ensures |s| < 2 ==> calls == []
    ensures |s| >= 2 ==> |calls| == |s| - 1
    ensures forall k :: 0 <= k < |calls| ==> calls[k] == (s[k], s[k + 1])
  {
    calls := [];
    if |s| < 2 {
      return;
    }
    var first := s[0];
    for n := 1 to |s|
      invariant |calls| == n - 1 && first == s[n - 1]
      invariant forall k :: 0 <= k < |calls| ==> calls[k] == (s[k], s[k + 1])
    {
      var second := s[n];
      calls := calls + [(first, second)];
      first := second;
    }
  }

  /** Go's `append` on a slice: the result is never nil. */
  function Append<T>(sl: Slice<T>, x: T): (r: Slice<T>)
    ensures r == Of(sl.Elements() + [x])
  {
    Of(sl.Elements() + [x])
  }

  /** `Strings.Map`: `f` applied to every element, in order; nil for no elements,
      since nothing was ever appended. */
  method Map(s: seq<string>, f: string -> string) returns (r: Slice<string>)
    ensures |s| == 0 <==> r == Nil
    ensures |r.Elements()| == |s|
    ensures forall k :: 0 <= k < |s| ==> r.Elements()[k] == f(s[k])
  {
    r := Nil;
    for i := 0 to |s|
      invariant i == 0 <==> r == Nil
      invariant |r.Elements()| == i
      invariant forall k :: 0 <= k < i ==> r.Elements()[k] == f(s[k])
    {
      r := Append(r, f(s[i]));
    }
  }

  /** `Strings.GetOrEmpty`: the element at `i`, or "" past the end. A negative index
      makes the source panic. */
  function GetOrEmpty(s: seq<string>, i: int): (r: string)
    requires i >= 0
    ensures i < |s| ==> r == s[i]
    ensures i >= |s| ==> r == ""
  {
    if i >= |s| then "" else s[i]
  }

  function Id(e: string): string { e }

  lemma KeysOfId(s: seq<string>)
    ensures Keys(s, Id) == s
  {
  }

  /** A Go `map[string]bool` lookup: a missing key reads as false. */
  function Seen(m: map<string, bool>, k: string): bool
  {
    k in m && m[k]
  }

  /** `Strings.Distinct`: nil stays nil; otherwise the first occurrence of every
      element is kept, in order, in a non-nil list. */
  method Distinct(s: Slice<string>) returns (r: Slice<string>)
    ensures s == Nil ==> r == Nil
    ensures s.Of? ==> r == Of(FirstBy(s.items, Id))
  {
    if s == Nil {
      return Nil;
    }
    var items := s.items;
    var result: seq<string> := [];
    var seen: map<string, bool> := map[];
    for i := 0 to |items|
      invariant result == FirstBy(items[..i], Id)
      invariant forall e :: Seen(seen, e) <==> e in items[..i]
    {
      var elem := items[i];
      DistinctStep(items, i, seen, result);
      ghost var marked := if Seen(seen, elem) then seen else seen[elem := true];
      SeenStep(items, i, seen, marked);
      if !Seen(seen, elem) {
        seen := seen[elem := true];
        result := result + [elem];
      }
    }
    assert items[..|items|] == items;
    return Of(result);
  }

  /** One turn of the loop of `Distinct`, for the result: an unseen element is kept,
      a seen one skipped. */
  lemma DistinctStep(items: seq<string>, i: int, seen: map<string, bool>, result: seq<string>)
    requires 0 <= i < |items|
    requires result == FirstBy(items[..i], Id)
    requires forall e :: Seen(seen, e) <==> e in items[..i]
    ensures Seen(seen, items[i]) ==> result == FirstBy(items[..i + 1], Id)
    ensures !Seen(seen, items[i]) ==> result + [items[i]] == FirstBy(items[..i + 1], Id)
  {
    var elem := items[i];
    assert items[..i + 1] == items[..i] + [elem];
    FirstBySnoc(items[..i], elem, Id);
    KeysOfId(items[..i]);
  }

  /** One turn of the loop of `Distinct`, for the map: an unseen element is marked. */
  lemma SeenStep(items: seq<string>, i: int, seen: map<string, bool>, marked: map<string, bool>)
    requires 0 <= i < |items|
    requires forall e :: Seen(seen, e) <==> e in items[..i]
    requires marked == if Seen(seen, items[i]) then seen else seen[items[i] := true]
    ensures forall e :: Seen(marked, e) <==> e in items[..i + 1]
  {
    assert items[..i + 1] == items[..i] + [items[i]];
    assert forall e :: e in items[..i + 1] <==> e in items[..i] || e == items[i];
  }

  /** What `Distinct` keeps: no element twice, every element of the input, and each
      one at its first occurrence, in order. */
  lemma DistinctKeeps(s: seq<string>)
    ensures forall i, j :: 0 <= i < j < |FirstBy(s, Id)| ==> FirstBy(s, Id)[i] != FirstBy(s, Id)[j]
    ensures forall k :: 0 <= k < |s| ==> s[k] in FirstBy(s, Id)
    ensures forall e :: e in FirstBy(s, Id) ==> e in s
    ensures exists idx :: && IsEmbedding(idx, FirstBy(s, Id), s)
                          && forall i :: 0 <= i < |idx| ==> IsFirst(s, Id, idx[i])
  {
    var r := FirstBy(s, Id);
    forall i, j | 0 <= i < j < |r|
      ensures r[i] != r[j]
    {
      FirstByDistinctKeys(s, Id, i, j);
    }
    forall k | 0 <= k < |s|
      ensures s[k] in r
    {
      FirstByKeepsKeys(s, Id, k);
      assert Keys(r, Id) == r;
    }
    var idx := FirstPositions(s, Id);
    forall e | e in r
      ensures e in s
    {
      var m :| 0 <= m < |r| && r[m] == e;
      assert s[idx[m]] == e;
    }
  }

  /** A repeat of the first of three different keys is dropped. */
  lemma DistinctPrefixPattern<T, K>(a: T, b: T, e: T, key: T -> K)
    requires key(a) != key(b) && key(a) != key(e) && key(b) != key(e)
    ensures FirstBy([a, b, e, a], key) == [a, b, e]
  {
    FirstByAllDistinct([a, b, e], key);
    FirstBySnoc([a, b, e], a, key);
    assert Keys([a, b, e], key)[0] == key(a) && [a, b, e] + [a] == [a, b, e, a];
  }

  /** The shape of the source's test table: of `[a b e a e c]` with four different
      keys, `[a b e c]` is kept. */
  lemma DistinctPattern<T, K>(a: T, b: T, e: T, c: T, key: T -> K)
    requires key(a) != key(b) && key(a) != key(e) && key(a) != key(c)
    requires key(b) != key(e) && key(b) != key(c) && key(e) != key(c)
    ensures FirstBy([a, b, e, a, e, c], key) == [a, b, e, c]
  {
    var s4 := [a, b, e, a];
    var s5 := s4 + [e];
    DistinctPrefixPattern(a, b, e, key);
    FirstBySnoc(s4, e, key);
    assert Keys(s4, key)[2] == key(e);
    FirstBySnoc(s5, c, key);
    assert s5 == [a, b, e, a, e];
    assert s5 + [c] == [a, b, e, a, e, c];
    assert [a, b, e] + [c] == [a, b, e, c];
  }

  /** De-duplicating twice is de-duplicating once. */
  lemma DistinctIdempotent(s: seq<string>)
    ensures FirstBy(FirstBy(s, Id), Id) == FirstBy(s, Id)
  {
    var r := FirstBy(s, Id);
    forall i, j | 0 <= i < j < |r|
      ensures Id(r[i]) != Id(r[j])
    {
      FirstByDistinctKeys(s, Id, i, j);
    }
    FirstByAllDistinct(r, Id);
  }

  /** The source's test table: `[a b "" a "" c]` keeps `[a b "" c]`. */
  lemma DistinctExample()
    ensures FirstBy(["a", "b", "", "a", "", "c"], Id) == ["a", "b", "", "c"]
  {
    DistinctPattern("a", "b", "", "c", Id);
  }
}
