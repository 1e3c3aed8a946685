/** number.go and number_array.go: the nullable `Int64` and the integer array type
    `Ints` with its encoder `Value` and scanner `Scan`. The two files declare `Ints`
    identically; it is modelled once. */
module PgNumber {
  import opened Base
  import opened Text
  import opened Decimal
  import opened ParseArray

  /** The name `%T` prints for a dynamically typed value. */
  function TypeName(src: DbValue): string
  {
    match src
    case Null => "<nil>"
    case Int64Val(_) => "int64"
    case Int32Val(_) => "int32"
    case Bytes(_) => "[]uint8"
    case Text(_) => "string"
    case Other(kind) => kind
  }

  /** The JSON literal for an absent value. */
  const NullLiteral := "null"

  /** No decimal rendering is the JSON null literal. */
  lemma DecimalNotNull(x: int)
    ensures FormatInt(x) != NullLiteral
  {
    var s := FormatInt(x);
    assert IsDigit(s[0]) || s[0] == '-';
    assert NullLiteral[0] == 'n';
  }

  // ---------------------------------------------------------------------------
  // The nullable Int64

  /** A variable of type `Int64` (sql.NullInt64): an integer and whether it is present. */
  class Int64 {
    var value: int64
    var valid: bool

    constructor(value: int64, valid: bool)
      ensures this.value == value && this.valid == valid
    {
      this.value := value;
      this.valid := valid;
    }

    /** `Int64.Value`: the integer when present, NULL otherwise. */
    function Value(): (r: DbValue)
      reads this
      ensures valid <==> r.Int64Val?
      ensures valid ==> r == Int64Val(value)
      ensures !valid ==> r == Null
    {
      if valid then Int64Val(value) else Null
    }

    /** `Int64.MarshalJSON`: the decimal text when present, `null` otherwise. */
    function MarshalJSON(): (r: string)
      reads this
      ensures valid ==> ParseInt64(r) == Success(value)
      ensures valid <==> r != NullLiteral
    {
      if valid then
        ParseFormat(value);
        DecimalNotNull(value);
        FormatInt(value)
      else NullLiteral
    }

    /** `Int64.Scan`: NULL clears to (0, absent); an int64 is stored as present, an
        int32 widened and stored; any other kind is an error naming its type, and
        leaves the variable as it was. */
    method Scan(src: DbValue) returns (err: Option<Error>)
      modifies this
      ensures src == Null ==> err == None && value == 0 && !valid
      ensures src.Int64Val? ==> err == None && value == src.i && valid
      ensures src.Int32Val? ==> err == None && value == src.j && valid
      ensures !(src == Null || src.Int64Val? || src.Int32Val?) ==>
                err == Some(NotInteger(TypeName(src))) && value == old(value) && valid == old(valid)
    {
      if src == Null {
        value, valid := 0, false;
        return None;
      }
      if src.Int64Val? {
        value, valid := src.i, true;
        return None;
      }
      if src.Int32Val? {
        value, valid := src.j, true;
        return None;
      }
      return Some(NotInteger(TypeName(src)));
    }

    /** `Int64.UnmarshalJSON`: `null` makes the variable absent but keeps the integer;
        decimal text is stored as present; anything else is the parser's error and
        changes nothing. */
    method UnmarshalJSON(data: string) returns (err: Option<Error>)
      modifies this
      ensures data == NullLiteral ==> err == None && !valid && value == old(value)
      ensures data != NullLiteral && ParseInt64(data).Success? ==>
                err == None && valid && value == ParseInt64(data).value
      ensures data != NullLiteral && ParseInt64(data).Failure? ==>
                err == Some(ParseInt64(data).error) && valid == old(valid) && value == old(value)
    {
      if data == NullLiteral {
        valid := false;
        return None;
      }
      var i := ParseInt64(data);
      if i.Failure? {
        return Some(i.error);
      }
      value := i.value;
      valid := true;
      return None;
    }
  }

  /** Scanning what `Value` gives restores presence and, when present, the integer;
      an absent value comes back as (0, absent) whatever the target held. */
  method ValueThenScan(v: int64, ok: bool, previous: int64) returns (value: int64, valid: bool)
    ensures valid == ok
    ensures ok ==> value == v
    ensures !ok ==> value == 0
  {
    var x := new Int64(v, ok);
    var target := new Int64(previous, !ok);
    var _ := target.Scan(x.Value());
    value, valid := target.value, target.valid;
  }

  /** Unmarshalling what `MarshalJSON` gives restores presence and, when present, the
      integer; for an absent value the target keeps its own integer. */
  method MarshalThenUnmarshal(v: int64, ok: bool, previous: int64) returns (value: int64, valid: bool, err: Option<Error>)
    ensures err == None && valid == ok
    ensures ok ==> value == v
    ensures !ok ==> value == previous
  {
    var x := new Int64(v, ok);
    var data := x.MarshalJSON();
    var target := new Int64(previous, !ok);
    err := target.UnmarshalJSON(data);
    value, valid := target.value, target.valid;
  }

  // ---------------------------------------------------------------------------
  // The integer array

  function Decimals(ls: seq<int64>): (r: seq<string>)
    ensures |r| == |ls| && forall k :: 0 <= k < |ls| ==> r[k] == FormatInt(ls[k])
  {
    seq(|ls|, k requires 0 <= k < |ls| => FormatInt(ls[k]))
  }

  /** The array literal `Ints.Value` produces: decimal renderings, unquoted, joined by
      commas between braces. */
  function EncodeInts(ls: seq<int64>): string
  {
    "{" + Join(Decimals(ls), ',') + "}"
  }

  /** `Ints.Value`: renders every element into a buffer of one slot per element, then
      joins and wraps in braces. The error result is always nil. */
  method IntsValue(ls: seq<int64>) returns (r: string)
    ensures r == EncodeInts(ls)
  {
    var res := new string[|ls|];
    ghost var done: seq<string> := [];
    for i := 0 to |ls|
      invariant |done| == i && res[..i] == done
      invariant forall k :: 0 <= k < i ==> done[k] == FormatInt(ls[k])
    {
      res[i] := FormatInt(ls[i]);
      done := done + [res[i]];
      assert res[..i + 1] == res[..i] + [res[i]];
    }
    assert res[..] == res[..|ls|];
    assert done == Decimals(ls);
    r := "{" + Join(res[..], ',') + "}";
  }

  /** The empty list is `{}`. */
  lemma EncodeIntsEmpty()
    ensures EncodeInts([]) == "{}"
  {
  }

  /** Decimal renderings hold no comma, no quote and no brace. */
  lemma DecimalsPlain(ls: seq<int64>)
    ensures forall k :: 0 <= k < |ls| ==> ',' !in Decimals(ls)[k] && '"' !in Decimals(ls)[k]
    ensures forall k :: 0 <= k < |ls| ==> '{' !in Decimals(ls)[k] && '}' !in Decimals(ls)[k]
  {
    forall k, j | 0 <= k < |ls| && 0 <= j < |Decimals(ls)[k]|
      ensures Decimals(ls)[k][j] !in ",\"{}"
    {
      assert IsDigit(Decimals(ls)[k][j]) || Decimals(ls)[k][j] == '-';
    }
  }

  /** The elements are not quoted, and n elements are separated by exactly n - 1 commas. */
  lemma EncodeIntsCommas(ls: seq<int64>)
    requires |ls| >= 1
    ensures Count(EncodeInts(ls), ',') == |ls| - 1
    ensures '"' !in EncodeInts(ls)
  {
    var j := Join(Decimals(ls), ',');
    DecimalsPlain(ls);
    JoinCount(Decimals(ls), ',');
    CountConcat("{" + j, "}", ',');
    CountConcat("{", j, ',');
    assert Count("}", ',') == 0 && Count("{", ',') == 0;
    JoinChars(Decimals(ls), ',', '"');
  }

  /** Every rendering parses back into its integer. */
  lemma ParseDecimals(ls: seq<int64>)
    ensures ParseAll(Decimals(ls), ParseInt64) == Success(ls)
  {
    var all := ParseAll(Decimals(ls), ParseInt64);
    forall k | 0 <= k < |ls|
      ensures ParseInt64(Decimals(ls)[k]) == Success(ls[k])
    {
      ParseFormat(ls[k]);
    }
    assert all.value == ls;
  }

  /** Decoding what `Ints.Value` encodes gives the list back, both int64 extremes and
      the empty list included. */
  lemma RoundTrip(ls: seq<int64>)
    ensures DecodeInt64s(EncodeInts(ls)) == Success(ls)
  {
    if |ls| >= 1 {
      var j := Join(Decimals(ls), ',');
      JoinFirst(Decimals(ls), ',');
      assert |j| >= 1;
      assert EncodeInts(ls) != EmptyArray by {
        assert |EncodeInts(ls)| >= 3;
      }
      DecimalsPlain(ls);
      SimpleSplitJoin(Decimals(ls));
      ParseDecimals(ls);
    }
  }

  /** A variable of type `Ints`. */
  class Ints {
    var items: Slice<int64>

    constructor(init: Slice<int64>)
      ensures items == init
    {
      items := init;
    }

    /** `Ints.Scan`: text is required and is decoded with `ParseInt64Array`; a decode
        error leaves nil behind, a value that is not text leaves the variable as it was. */
    method Scan(src: DbValue) returns (err: Option<Error>)
      modifies this
      ensures ConvertToString(src).Failure? ==> err == Some(ConvertToString(src).error) && items == old(items)
      ensures ConvertToString(src).Success? ==>
                var d := DecodeInt64s(ConvertToString(src).value);
                && (d.Success? ==> err == None && items == Of(d.value))
                && (d.Failure? ==> err == Some(d.error) && items == Nil)
    {
      var bs := ConvertToString(src);
      if bs.Failure? {
        return Some(bs.error);
      }
      var parsed := ParseInt64Array(bs.value);
      if parsed.Failure? {
        items := Nil;
        return Some(parsed.error);
      }
      items := Of(parsed.value);
      return None;
    }
  }

  /** Encoding a list and scanning the text into a variable gives the list back. */
  method IntsValueThenScan(ls: seq<int64>) returns (back: Slice<int64>, err: Option<Error>)
    ensures err == None && back == Of(ls)
  {
    var text := IntsValue(ls);
    var target := new Ints(Nil);
    RoundTrip(ls);
    assert ConvertToString(Text(text)) == Success(text);
    err := target.Scan(Text(text));
    back := target.items;
  }
}
