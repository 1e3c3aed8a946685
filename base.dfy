/** Values shared by every part of the model: machine integer ranges, the
    error kinds the package reports, Go's nil-or-slice distinction, the
    dynamically typed values that cross the database driver boundary, and
    the all-or-nothing result of a decode. */
module Base {

  const MinInt64: int := -0x8000_0000_0000_0000
  const MaxInt64: int := 0x7fff_ffff_ffff_ffff
  const MaxUint64: int := 0xffff_ffff_ffff_ffff
  const MinInt32: int := -0x8000_0000
  const MaxInt32: int := 0x7fff_ffff

  /** Go's int64 and int32 as ranges of the unbounded integers. */
  type int64 = x: int | MinInt64 <= x <= MaxInt64
  type int32 = x: int | MinInt32 <= x <= MaxInt32

  /** The error values the package returns. */
  datatype Error =
    | SyntaxError             // strconv.ErrSyntax: the array grammar is violated
    | UnsupportedEscape       // an escape of strconv.UnquoteChar this model does not decode
    | NumSyntax(num: string)  // strconv.ParseInt: the text is not a decimal integer
    | NumRange(num: string)   // strconv.ParseInt: the value does not fit in an int64
    | BadUuid(text: string)   // ParseUUID: "Failed to parse %s as UUID"
    | NotText(kind: string)   // convertToString / convertToBytes: source of another type
    | NotInteger(kind: string) // Int64.Scan: source neither int64 nor int32

  /** A decode either produces its whole value or fails; partial results are not kept. */
  datatype Result<T> = Success(value: T) | Failure(error: Error)

  datatype Option<T> = None | Some(value: T)

  /** A Go slice: `Nil` is the nil slice, `Of(items)` a non-nil one (possibly empty). */
  datatype Slice<T> = Nil | Of(items: seq<T>) {
    /** What ranging over the slice visits: nothing for nil. */
    function Elements(): (r: seq<T>)
      ensures Nil? ==> r == []
      ensures Of? ==> r == items
    {
      match this
      case Nil => []
      case Of(s) => s
    }
  }

  /** The dynamically typed values (`interface{}` / `driver.Value`) exchanged with the
      database driver. `Other` stands for any other Go type, named by `kind`. */
  datatype DbValue =
    | Null
    | Int64Val(i: int64)
    | Int32Val(j: int32)
    | Bytes(b: string)
    | Text(s: string)
    | Other(kind: string)

  /** `convertToString`: byte slices and strings are accepted as text, anything else fails. */
  function ConvertToString(src: DbValue): (r: Result<string>)
    ensures r.Success? <==> src.Bytes? || src.Text?
    ensures src.Bytes? ==> r == Success(src.b)
    ensures src.Text? ==> r == Success(src.s)
  {
    match src
    case Bytes(b) => Success(b)
    case Text(s) => Success(s)
    case Null => Failure(NotText("<nil>"))
    case Int64Val(_) => Failure(NotText("int64"))
    case Int32Val(_) => Failure(NotText("int32"))
    case Other(kind) => Failure(NotText(kind))
  }

  /** Prefixes the items `done` to a successful result and passes a failure through:
      the state of a decoding loop that has already produced `done`. */
  function Prepend<T>(done: seq<T>, rest: Result<seq<T>>): (r: Result<seq<T>>)
    ensures r.Success? <==> rest.Success?
    ensures r.Success? ==> r.value == done + rest.value
    ensures r.Failure? ==> r.error == rest.error
  {
    match rest
    case Success(items) => Success(done + items)
    case Failure(e) => Failure(e)
  }

  lemma PrependNothing<T>(rest: Result<seq<T>>)
    ensures Prepend([], rest) == rest
  {
    if rest.Success? {
      assert [] + rest.value == rest.value;
    }
  }

  lemma PrependTwice<T>(a: seq<T>, b: seq<T>, rest: Result<seq<T>>)
    ensures Prepend(a, Prepend(b, rest)) == Prepend(a + b, rest)
  {
    if rest.Success? {
      assert a + (b + rest.value) == (a + b) + rest.value;
    }
  }

  /** Parses every text in turn and stops at the first failure: the shape of the typed
      array decoders, which return no partial results. */
  function ParseAll<T>(texts: seq<string>, parse: string -> Result<T>): (r: Result<seq<T>>)
    ensures r.Success? <==> forall k :: 0 <= k < |texts| ==> parse(texts[k]).Success?
    ensures r.Success? ==>
              && |r.value| == |texts|
              && forall k :: 0 <= k < |texts| ==> r.value[k] == parse(texts[k]).value
    ensures r.Failure? ==>
              exists k :: && 0 <= k < |texts|
                          && parse(texts[k]).Failure?
                          && r.error == parse(texts[k]).error
                          && forall m :: 0 <= m < k ==> parse(texts[m]).Success?
  {
    if texts == [] then Success([])
    else
      match parse(texts[0])
      case Failure(e) => Failure(e)
      case Success(x) =>
        var rest := ParseAll(texts[1..], parse);
        assert forall k :: 1 <= k < |texts| ==> texts[k] == texts[1..][k - 1];
        Prepend([x], rest)
  }

  /** A decode that has parsed everything before position `i` and fails at `i`
      reports the error of position `i`. */
  lemma FirstFailure<T>(texts: seq<string>, parse: string -> Result<T>, i: int)
    requires 0 <= i < |texts|
    requires forall k :: 0 <= k < i ==> parse(texts[k]).Success?
    requires parse(texts[i]).Failure?
    ensures ParseAll(texts, parse) == Failure(parse(texts[i]).error)
  {
    var r := ParseAll(texts, parse);
    var k :| && 0 <= k < |texts|
             && parse(texts[k]).Failure?
             && r.error == parse(texts[k]).error
             && forall m :: 0 <= m < k ==> parse(texts[m]).Success?;
    assert k == i;
  }

  /** A decode whose every element parses gives exactly the parsed values. */
  lemma AllParsed<T>(texts: seq<string>, parse: string -> Result<T>, values: seq<T>)
    requires |values| == |texts|
    requires forall k :: 0 <= k < |texts| ==> parse(texts[k]) == Success(values[k])
    ensures ParseAll(texts, parse) == Success(values)
  {
    var r := ParseAll(texts, parse);
    assert r.Success?;
    assert r.value == values;
  }
}
