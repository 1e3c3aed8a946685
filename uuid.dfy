/** uuid.go: the `UUID` value (a byte slice, nil when absent), its canonical text,
    the fixed-width array encoder `UUIDs.Value`, the array decoder
    `ParseUUIDArray`, the scanners, and `ExtractUUIDs`.

    The canonical text is the 8-4-4-4-12 grouping of 32 lower-case hexadecimal
    digits of section 3 of RFC 4122, which is what the uuid package writes and reads. */
module PgUuid {
  import opened Base
  import opened Text
  import opened Seqs
  import opened ParseArray

  type byte = x: int | 0 <= x < 256

  /** `UUID`: a byte slice; nil is the absent identifier. */
  type UUID = Slice<byte>

  /** A proper identifier: sixteen bytes. */
  predicate Valid(u: UUID)
  {
    u.Of? && |u.items| == 16
  }

  /** `UUID.Empty`: only the nil slice is empty; an empty identifier has no bytes,
      is not proper and has the empty text. */
  predicate Empty(u: UUID): (r: bool)
    ensures r ==> u.Elements() == [] && !Valid(u) && String(u) == ""
    ensures Valid(u) ==> !r
    ensures !r <==> u.Of?
  {
    u == Nil
  }

  /** `UUID.Equals` (`bytes.Equal`): the same bytes; nil and an empty slice are equal. */
  predicate Equals(u: UUID, u2: UUID): (r: bool)
    ensures r <==> && |u.Elements()| == |u2.Elements()|
                   && forall k :: 0 <= k < |u.Elements()| ==> u.Elements()[k] == u2.Elements()[k]
    ensures u.Elements() == [] && u2.Elements() == [] ==> r
  {
    u.Elements() == u2.Elements()
  }

  // ---------------------------------------------------------------------------
  // Hexadecimal digits

  function HexChar(d: int): (c: char)
    requires 0 <= d < 16
  {
    if d < 10 then (('0' as int) + d) as char else (('a' as int) + d - 10) as char
  }

  /** The value of a hexadecimal digit of either case. */
  function HexValue(c: char): (r: Option<int>)
    ensures r.Some? ==> 0 <= r.value < 16
  {
    if '0' <= c <= '9' then Some((c as int) - ('0' as int))
    else if 'a' <= c <= 'f' then Some((c as int) - ('a' as int) + 10)
    else if 'A' <= c <= 'F' then Some((c as int) - ('A' as int) + 10)
    else None
  }

  lemma HexRoundTrip(d: int)
    requires 0 <= d < 16
    ensures HexValue(HexChar(d)) == Some(d)
  {
  }

  /** Two hexadecimal digits as one byte. */
  function HexByte(hi: char, lo: char): (r: Option<byte>)
    ensures r.Some? <==> HexValue(hi).Some? && HexValue(lo).Some?
  {
    match (HexValue(hi), HexValue(lo))
    case (Some(h), Some(l)) => Some(h * 16 + l)
    case _ => None
  }

  // ---------------------------------------------------------------------------
  // The canonical text

  predicate IsDash(i: int)
  {
    i == 8 || i == 13 || i == 18 || i == 23
  }

  /** The number of dashes before text position `i`. */
  function DashesBefore(i: int): int
  {
    if i < 8 then 0 else if i < 13 then 1 else if i < 18 then 2 else if i < 23 then 3 else 4
  }

  /** Where the two digits of byte `k` start in the text. */
  function Pos(k: int): int
  {
    2 * k + (if k < 4 then 0 else if k < 6 then 1 else if k < 8 then 2 else if k < 10 then 3 else 4)
  }

  /** The character at text position `i` of the canonical form of `b`. */
  function CanonicalChar(b: seq<byte>, i: int): (c: char)
    requires |b| == 16 && 0 <= i < 36
    ensures c == '-' || HexValue(c).Some?
  {
    if IsDash(i) then '-'
    else
      var n := i - DashesBefore(i);
      if n % 2 == 0 then HexChar(b[n / 2] / 16) else HexChar(b[n / 2] % 16)
  }

  /** `UUID.String`: 36 characters for a proper identifier, "" for any other
      slice, as in the uuid package. */
  function String(u: UUID): (r: string)
    ensures Valid(u) ==> |r| == 36
    ensures !Valid(u) ==> r == ""
    ensures forall k :: 0 <= k < |r| ==> r[k] == '-' || HexValue(r[k]).Some?
    ensures ',' !in r && '{' !in r && '}' !in r
  {
    if !Valid(u) then ""
    else
      var r := seq(36, i requires 0 <= i < 36 => CanonicalChar(u.items, i));
      assert forall k :: 0 <= k < 36 ==> r[k] == '-' || HexValue(r[k]).Some?;
      r
  }

  /** `uuid.Parse` on the canonical form: 36 characters, dashes at positions 8, 13,
      18 and 23, and hexadecimal digits of either case elsewhere; nil otherwise. */
  function Parse(s: string): (r: UUID)
    ensures r == Nil || Valid(r)
  {
    if |s| != 36 || s[8] != '-' || s[13] != '-' || s[18] != '-' || s[23] != '-' then Nil
    else if exists k :: 0 <= k < 16 && HexByte(s[Pos(k)], s[Pos(k) + 1]).None? then Nil
    else Of(seq(16, k requires 0 <= k < 16 => HexByte(s[Pos(k)], s[Pos(k) + 1]).value))
  }

  /** The digits of byte `k` sit where `Parse` reads them. */
  lemma DigitsOfByte(b: seq<byte>, k: int)
    requires |b| == 16 && 0 <= k < 16
    ensures !IsDash(Pos(k)) && !IsDash(Pos(k) + 1)
    ensures CanonicalChar(b, Pos(k)) == HexChar(b[k] / 16)
    ensures CanonicalChar(b, Pos(k) + 1) == HexChar(b[k] % 16)
  {
  }

  /** Parsing reads back the identifier the canonical text was written from. */
  lemma ParseString(u: UUID)
    requires Valid(u)
    ensures Parse(String(u)) == u
  {
    var s := String(u);
    var b := u.items;
    forall k | 0 <= k < 16
      ensures HexByte(s[Pos(k)], s[Pos(k) + 1]) == Some(b[k])
    {
      DigitsOfByte(b, k);
      HexRoundTrip(b[k] / 16);
      HexRoundTrip(b[k] % 16);
    }
    assert Parse(s).items == b;
  }

  /** Two proper identifiers are equal exactly when their texts are. */
  lemma StringInjective(u: UUID, u2: UUID)
    requires Valid(u) && Valid(u2)
    ensures Equals(u, u2) <==> String(u) == String(u2)
    ensures Equals(u, u2) <==> u == u2
  {
    if String(u) == String(u2) {
      ParseString(u);
      ParseString(u2);
    }
  }

  /** `ParseUUID`: an error exactly when the text does not parse. */
  function ParseUUID(s: string): (r: Result<UUID>)
    ensures r.Failure? <==> Parse(s) == Nil
    ensures r.Failure? ==> r.error == BadUuid(s)
    ensures r.Success? ==> r.value == Parse(s) && Valid(r.value)
  {
    var u := Parse(s);
    if u == Nil then Failure(BadUuid(s)) else Success(u)
  }

  /** `UUID.Value`: NULL for the absent identifier, the text otherwise. */
  function Value(u: UUID): (r: DbValue)
    ensures Empty(u) <==> r == Null
    ensures !Empty(u) ==> r == Text(String(u))
  {
    if Empty(u) then Null else Text(String(u))
  }

  // ---------------------------------------------------------------------------
  // The fixed-width array encoder

  /** The length `UUIDs.Value` allocates: the braces, and 36 characters plus a comma
      per identifier but one comma fewer. */
  function BufferLength(n: nat): nat
  {
    if n > 0 then 2 + 37 * n - 1 else 2
  }

  /** What the encoder's cursor has written when the last identifier of `ls` is done:
      a brace, then every text followed by a comma. */
  function Written(ls: seq<UUID>): (r: string)
    ensures |r| >= 1 && r[0] == '{'
    ensures |r| <= 1 + 37 * |ls|
  {
    if ls == [] then "{" else Written(ls[..|ls| - 1]) + String(ls[|ls| - 1]) + ","
  }

  function Zeros(n: nat): (r: string)
    ensures |r| == n && forall k :: 0 <= k < n ==> r[k] == 0 as char
  {
    seq(n, _ => 0 as char)
  }

  /** The buffer `UUIDs.Value` returns: the written text, zero bytes where nothing was
      written, and a closing brace in the last slot. */
  function Layout(ls: seq<UUID>): (r: string)
    ensures |r| == BufferLength(|ls|)
  {
    var w := Written(ls);
    var length := BufferLength(|ls|);
    (w + Zeros(length - |w|))[length - 1 := '}']
  }

  function Strings(ls: seq<UUID>): (r: seq<string>)
    ensures |r| == |ls| && forall k :: 0 <= k < |ls| ==> r[k] == String(ls[k])
  {
    seq(|ls|, k requires 0 <= k < |ls| => String(ls[k]))
  }

  predicate AllValid(ls: seq<UUID>)
  {
    forall k :: 0 <= k < |ls| ==> Valid(ls[k])
  }

  /** `UUIDs.Value`: writes into a buffer of the precomputed length through a cursor;
      every write is in bounds. */
  method UUIDsValue(ls: seq<UUID>) returns (r: string)
    ensures r == Layout(ls)
  {
    var length := 2;
    if |ls| > 0 {
      length := length + 37 * |ls| - 1;
    }
    var out := new char[length](_ => 0 as char);
    out[0] := '{';
    var i := 1;
    assert ls[..0] == [];
    for m := 0 to |ls|
      invariant i == |Written(ls[..m])| && out[..i] == Written(ls[..m])
      invariant forall p :: i <= p < length ==> out[p] == 0 as char
    {
      i := WriteEntry(out, i, ls, m);
    }
    assert ls[..|ls|] == ls;
    ghost var filled := out[..];
    LayoutOfBuffer(ls, filled, i);
    out[length - 1] := '}';
    r := out[..];
    assert r == filled[length - 1 := '}'];
  }

  /** The buffer after the last identifier, with the closing brace put in its last
      slot, is the layout. */
  lemma LayoutOfBuffer(ls: seq<UUID>, filled: string, i: int)
    requires |filled| == BufferLength(|ls|)
    requires 0 <= i <= |filled| && filled[..i] == Written(ls)
    requires forall p :: i <= p < |filled| ==> filled[p] == 0 as char
    ensures filled[|filled| - 1 := '}'] == Layout(ls)
  {
    assert filled == Written(ls) + Zeros(|filled| - i);
  }

  /** The inner loop of `UUIDs.Value`: copies `s` into `out` from position `i` on and
      returns the position after it. */
  method CopyAt(out: array<char>, i: int, s: string) returns (next: int)
    requires 0 <= i && i + |s| <= out.Length
    modifies out
    ensures next == i + |s|
    ensures out[..next] == old(out[..i]) + s
    ensures forall p :: next <= p < out.Length ==> out[p] == old(out[p])
  {
    next := i;
    for j := 0 to |s|
      invariant next == i + j
      invariant out[..next] == old(out[..i]) + s[..j]
      invariant forall p :: next <= p < out.Length ==> out[p] == old(out[p])
    {
      out[next] := s[j];
      next := next + 1;
      assert s[..j + 1] == s[..j] + [s[j]];
    }
    assert s[..|s|] == s;
  }

  /** One pass of the outer loop of `UUIDs.Value`: the text of the next identifier and
      a comma go in at the cursor. */
  method WriteEntry(out: array<char>, i: int, ls: seq<UUID>, m: int) returns (next: int)
    requires 0 <= m < |ls| && 0 <= i <= out.Length
    requires i == |Written(ls[..m])| && out[..i] == Written(ls[..m])
    requires |Written(ls[..m + 1])| <= out.Length
    modifies out
    ensures i < next == |Written(ls[..m + 1])| && out[..next] == Written(ls[..m + 1])
    ensures forall p :: next <= p < out.Length ==> out[p] == old(out[p])
  {
    WrittenStep(ls, m);
    var s := String(ls[m]);
    next := CopyAt(out, i, s);
    out[next] := ',';
    next := next + 1;
    assert out[..next] == out[..next - 1] + [','];
  }

  /** Each identifier adds its text and a comma to what was written before it. */
  lemma WrittenStep(ls: seq<UUID>, m: int)
    requires 0 <= m < |ls|
    ensures Written(ls[..m + 1]) == Written(ls[..m]) + String(ls[m]) + ","
  {
    assert ls[..m + 1][..m] == ls[..m];
  }

  /** What the cursor has written is a brace and then every text followed by a comma. */
  lemma {:induction false} WrittenLead(ls: seq<UUID>)
    ensures Written(ls) == "{" + Lead(Strings(ls), ',')
  {
    if ls != [] {
      var init := ls[..|ls| - 1];
      var x := String(ls[|ls| - 1]);
      assert Strings(ls) == Strings(init) + [x];
      WrittenLead(init);
      JoinSnoc(Strings(init), x, ',');
      Regroup("{", Lead(Strings(init), ','), x, ",");
    }
  }

  /** With at least one identifier the written text is the joined texts between an
      opening brace and a trailing comma. */
  lemma WrittenJoin(ls: seq<UUID>)
    requires |ls| >= 1
    ensures Written(ls) == "{" + Join(Strings(ls), ',') + ","
  {
    WrittenLead(ls);
    BraceLead(Strings(ls));
  }

  lemma BraceLead(parts: seq<string>)
    requires parts != []
    ensures "{" + Lead(parts, ',') == "{" + Join(parts, ',') + ","
  {
    var j := Join(parts, ',');
    assert "{" + (j + [',']) == ("{" + j) + [','];
  }

  /** The encoder's output for proper identifiers: their texts, joined by commas,
      between braces; `{}` for none. */
  lemma ValueJoins(ls: seq<UUID>)
    requires AllValid(ls)
    ensures Layout(ls) == "{" + Join(Strings(ls), ',') + "}"
    ensures |ls| == 1 ==> Layout(ls) == "{" + String(ls[0]) + "}"
  {
    if |ls| >= 1 {
      WrittenJoin(ls);
      JoinCount(Strings(ls), ',');
      assert |Join(Strings(ls), ',')| == 36 * |ls| + |ls| - 1 by {
        JoinLength(Strings(ls), ',', 36);
      }
    }
  }

  lemma {:induction false} JoinLength(parts: seq<string>, sep: char, w: nat)
    requires |parts| >= 1
    requires forall k :: 0 <= k < |parts| ==> |parts[k]| == w
    ensures |Join(parts, sep)| == w * |parts| + |parts| - 1
  {
    if |parts| > 1 {
      JoinLength(parts[1..], sep, w);
    }
  }

  /** The empty list, nil or not, encodes as `{}`. */
  lemma ValueOfNone()
    ensures Layout([]) == "{}"
  {
  }

  // ---------------------------------------------------------------------------
  // The array decoder

  /** What `ParseUUIDArray` decodes: `{}` is the empty list, anything else is split
      on commas and every element must parse. */
  function DecodeUUIDs(src: string): (r: Result<seq<UUID>>)
    ensures src == EmptyArray ==> r == Success([])
    ensures r.Success? ==> AllValid(r.value)
    ensures r.Failure? ==> exists k :: 0 <= k < |SplitSimpleArray(src)| && Parse(SplitSimpleArray(src)[k]) == Nil
  {
    if src == EmptyArray then Success([])
    else ParseAll(SplitSimpleArray(src), ParseUUID)
  }

  /** `ParseUUIDArray`: fills a results buffer of one slot per element and stops at
      the first element that does not parse. */
  method ParseUUIDArray(src: string) returns (r: Result<seq<UUID>>)
    ensures r == DecodeUUIDs(src)
  {
    if src == EmptyArray {
      return Success([]);
    }
    var vals := SplitSimpleArray(src);
    var results := new UUID[|vals|];
    ghost var parsed: seq<UUID> := [];
    for i := 0 to |vals|
      invariant |parsed| == i && results[..i] == parsed
      invariant forall k :: 0 <= k < i ==> ParseUUID(vals[k]) == Success(parsed[k])
    {
      var u := ParseUUID(vals[i]);
      if u.Failure? {
        FirstFailure(vals, ParseUUID, i);
        return Failure(u.error);
      }
      results[i] := u.value;
      parsed := parsed + [u.value];
      assert results[..i + 1] == results[..i] + [results[i]];
    }
    ghost var all := ParseAll(vals, ParseUUID);
    assert results[..] == results[..|vals|];
    assert all.value == parsed;
    return Success(results[..]);
  }

  /** Decoding what `UUIDs.Value` encodes gives the list back. */
  lemma RoundTrip(ls: seq<UUID>)
    requires AllValid(ls)
    ensures DecodeUUIDs(Layout(ls)) == Success(ls)
  {
    ValueJoins(ls);
    if |ls| >= 1 {
      var strs := Strings(ls);
      assert |Layout(ls)| > 2;
      SimpleSplitJoin(strs);
      ParseStrings(ls);
    }
  }

  /** Every text of proper identifiers parses, back to the identifiers. */
  lemma ParseStrings(ls: seq<UUID>)
    requires AllValid(ls)
    ensures ParseAll(Strings(ls), ParseUUID) == Success(ls)
  {
    var strs := Strings(ls);
    forall k | 0 <= k < |strs|
      ensures ParseUUID(strs[k]) == Success(ls[k])
    {
      ParseString(ls[k]);
    }
    var all := ParseAll(strs, ParseUUID);
    assert all.value == ls;
  }

  // ---------------------------------------------------------------------------
  // Scanners

  /** A variable of type `UUIDs`. */
  class UUIDs {
    var ids: Slice<UUID>

    constructor(init: Slice<UUID>)
      ensures ids == init
    {
      ids := init;
    }

    /** `UUIDs.Scan`: text is required, and is decoded into the variable; a decode
        error leaves nil behind, a value that is not text leaves the variable as it was. */
    method Scan(src: DbValue) returns (err: Option<Error>)
      modifies this
      ensures ConvertToString(src).Failure? ==> err == Some(ConvertToString(src).error) && ids == old(ids)
      ensures ConvertToString(src).Success? ==>
                var d := DecodeUUIDs(ConvertToString(src).value);
                && (d.Success? ==> err == None && ids == Of(d.value))
                && (d.Failure? ==> err == Some(d.error) && ids == Nil)
    {
      var bs := ConvertToString(src);
      if bs.Failure? {
        return Some(bs.error);
      }
      var parsed := ParseUUIDArray(bs.value);
      if parsed.Failure? {
        ids := Nil;
        return Some(parsed.error);
      }
      ids := Of(parsed.value);
      return None;
    }
  }

  /** Encoding proper identifiers and scanning the text gives them back, the empty
      list included. */
  method ValueThenScan(ls: seq<UUID>) returns (back: Slice<UUID>, err: Option<Error>)
    requires AllValid(ls)
    ensures err == None && back == Of(ls)
  {
    var text := UUIDsValue(ls);
    var target := new UUIDs(Nil);
    RoundTrip(ls);
    assert ConvertToString(Text(text)) == Success(text);
    err := target.Scan(Text(text));
    back := target.ids;
  }

  /** A variable of type `UUID`. */
  class UuidVar {
    var id: UUID

    constructor(init: UUID)
      ensures id == init
    {
      id := init;
    }

    /** `UUID.Scan` as written: the assignment meant to clear the variable on NULL only
        rebinds the method's own pointer, so NULL leaves the variable as it was. Text
        that does not parse stores nil without an error. */
    method Scan(value: DbValue) returns (err: Option<Error>)
      modifies this
      ensures value == Null ==> err == None && id == old(id)
      ensures value != Null && ConvertToString(value).Failure? ==>
                err == Some(ConvertToString(value).error) && id == old(id)
      ensures ConvertToString(value).Success? ==> err == None && id == Parse(ConvertToString(value).value)
    {
      if value == Null {
        return None;
      }
      var str := ConvertToString(value);
      if str.Failure? {
        return Some(str.error);
      }
      id := Parse(str.value);
      return None;
    }

    /** `UUID.Scan` as intended: NULL clears the variable. */
    method ScanClearing(value: DbValue) returns (err: Option<Error>)
      modifies this
      ensures value == Null ==> err == None && id == Nil
      ensures value != Null && ConvertToString(value).Failure? ==>
                err == Some(ConvertToString(value).error) && id == old(id)
      ensures ConvertToString(value).Success? ==> err == None && id == Parse(ConvertToString(value).value)
    {
      if value == Null {
        id := Nil;
        return None;
      }
      var str := ConvertToString(value);
      if str.Failure? {
        return Some(str.error);
      }
      id := Parse(str.value);
      return None;
    }
  }

  /** As written, scanning the NULL that an absent identifier's `Value` gives into a
      variable that holds an identifier does not make it absent. */
  method NullScanKeepsOld(u: UUID) returns (after: UUID)
    requires Valid(u)
    ensures Value(Nil) == Null
    ensures after == u && after != Nil
  {
    var v := new UuidVar(u);
    var _ := v.Scan(Value(Nil));
    after := v.id;
  }

  /** With the clearing scanner, `Value` then `Scan` restores every absent or proper
      identifier, whatever the variable held before. */
  method ValueThenScanClearing(u: UUID, previous: UUID) returns (after: UUID)
    requires u == Nil || Valid(u)
    ensures after == u
  {
    var v := new UuidVar(previous);
    if Valid(u) {
      ParseString(u);
      assert ConvertToString(Value(u)) == Success(String(u));
    }
    var _ := v.ScanClearing(Value(u));
    after := v.id;
  }

  // ---------------------------------------------------------------------------
  // De-duplication

  /** A Go `map[string]bool` lookup: a missing key reads as false. */
  function Seen(m: map<string, bool>, k: string): bool
  {
    k in m && m[k]
  }

  /** `ExtractUUIDs`: the identifiers the iterator yields, keeping the first of each
      text. The iterator is given as the sequence it yields. */
  method ExtractUUIDs(yielded: seq<UUID>) returns (res: seq<UUID>)
    ensures res == FirstBy(yielded, String)
  {
    res := [];
    var seenTexts: map<string, bool> := map[];
    for i := 0 to |yielded|
      invariant res == FirstBy(yielded[..i], String)
      invariant forall s :: Seen(seenTexts, s) <==> s in Keys(yielded[..i], String)
    {
      var v := yielded[i];
      var s := String(v);
      assert yielded[..i + 1][..i] == yielded[..i];
      assert Keys(yielded[..i + 1], String) == Keys(yielded[..i], String) + [s];
      if !Seen(seenTexts, s) {
        seenTexts := seenTexts[s := true];
        res := res + [v];
      }
    }
    assert yielded[..|yielded|] == yielded;
  }

  /** What `ExtractUUIDs` keeps: no two results with the same text, every text
      yielded is kept, and each result is the first identifier with its text. For
      proper identifiers the same text means the same identifier. */
  lemma ExtractKeeps(yielded: seq<UUID>)
    ensures forall i, j :: 0 <= i < j < |FirstBy(yielded, String)| ==>
              String(FirstBy(yielded, String)[i]) != String(FirstBy(yielded, String)[j])
    ensures forall k :: 0 <= k < |yielded| ==> String(yielded[k]) in Keys(FirstBy(yielded, String), String)
    ensures exists idx :: && IsEmbedding(idx, FirstBy(yielded, String), yielded)
                          && forall i :: 0 <= i < |idx| ==> IsFirst(yielded, String, idx[i])
  {
    forall i, j | 0 <= i < j < |FirstBy(yielded, String)|
      ensures String(FirstBy(yielded, String)[i]) != String(FirstBy(yielded, String)[j])
    {
      FirstByDistinctKeys(yielded, String, i, j);
    }
    forall k | 0 <= k < |yielded|
      ensures String(yielded[k]) in Keys(FirstBy(yielded, String), String)
    {
      FirstByKeepsKeys(yielded, String, k);
    }
    var idx := FirstPositions(yielded, String);
  }
}
