/** Decimal text of 64-bit integers: `fmt.Sprintf("%d", v)` and
    `strconv.ParseInt(s, 10, 64)` (the integer parser behind `bat.Atoi64`),
    and the fact that parsing inverts formatting. */
module Decimal {
  import opened Base

  predicate IsDigit(c: char)
  {
    '0' <= c <= '9'
  }

  function DigitChar(d: int): (c: char)
    requires 0 <= d < 10
    ensures IsDigit(c)
  {
    (('0' as int) + d) as char
  }

  function DigitValue(c: char): (d: int)
    requires IsDigit(c)
    ensures 0 <= d < 10 && DigitChar(d) == c
  {
    (c as int) - ('0' as int)
  }

  /** The decimal digits of `n`, most significant first, without leading zeros. */
  function Digits(n: nat): (r: string)
    ensures |r| >= 1
    ensures forall k :: 0 <= k < |r| ==> IsDigit(r[k])
    ensures r[0] == '0' ==> n == 0
  {
    if n < 10 then [DigitChar(n)] else Digits(n / 10) + [DigitChar(n % 10)]
  }

  /** `%d`: an optional minus sign followed by the digits of the magnitude. */
  function FormatInt(x: int): (r: string)
    ensures |r| >= 1
    ensures forall k :: 0 <= k < |r| ==> IsDigit(r[k]) || (k == 0 && r[k] == '-')
    ensures r[0] == '-' <==> x < 0
  {
    if x < 0 then "-" + Digits(-x) else Digits(x)
  }

  /** Outcome of the unsigned digit loop of strconv.ParseUint. */
  datatype Scan = Value(n: nat) | BadDigit | Overflow

  /** strconv.ParseUint's loop for base 10 and 64 bits: characters are read left to
      right; a non-digit is a syntax error and the first digit that takes the value
      past 2^64 - 1 is a range error, whichever comes first. */
  function ScanUint(s: string): (r: Scan)
    ensures r.Value? ==> r.n <= MaxUint64
    ensures r.Value? ==> forall k :: 0 <= k < |s| ==> IsDigit(s[k])
  {
    if s == [] then Value(0)
    else
      match ScanUint(s[..|s| - 1])
      case Value(n) =>
        var c := s[|s| - 1];
        if !IsDigit(c) then BadDigit
        else if n * 10 + DigitValue(c) > MaxUint64 then Overflow
        else Value(n * 10 + DigitValue(c))
      case other => other
  }

  /** `strconv.ParseInt(s, 10, 64)`: an optional `+` or `-`, then one or more decimal
      digits whose value must fit in an int64. Failures carry the whole input. */
  function ParseInt64(s: string): (r: Result<int64>)
    ensures s == "" ==> r == Failure(NumSyntax(s))
    ensures r.Failure? ==> r.error == NumSyntax(s) || r.error == NumRange(s)
    ensures r.Success? ==> forall k :: 0 <= k < |s| ==> IsDigit(s[k]) || (k == 0 && s[k] in "+-")
    ensures r.Success? ==> (r.value < 0 ==> s[0] == '-')
  {
    if s == "" then Failure(NumSyntax(s))
    else
      var neg := s[0] == '-';
      var body := if s[0] == '+' || s[0] == '-' then s[1..] else s;
      if body == "" then Failure(NumSyntax(s))
      else
        match ScanUint(body)
        case BadDigit => Failure(NumSyntax(s))
        case Overflow => Failure(NumRange(s))
        case Value(n) =>
          if !neg && n > MaxInt64 then Failure(NumRange(s))
          else if neg && n > -MinInt64 then Failure(NumRange(s))
          else
            var v: int := if neg then 0 - n else n;
            Success(v)
  }

  /** The digit loop reads back the digits of any 64-bit unsigned value. */
  lemma {:induction false} ScanDigits(n: nat)
    requires n <= MaxUint64
    ensures ScanUint(Digits(n)) == Value(n)
  {
    var d := Digits(n);
    if n < 10 {
      assert d[..|d| - 1] == [];
    } else {
      assert d[..|d| - 1] == Digits(n / 10);
      ScanDigits(n / 10);
      assert d[|d| - 1] == DigitChar(n % 10);
      assert (n / 10) * 10 + n % 10 == n;
    }
  }

  /** A minus sign and the digits of a magnitude up to 2^63 parse back. */
  lemma ParseNegative(m: nat)
    requires 0 < m <= -MinInt64
    ensures ParseInt64("-" + Digits(m)).Success? && ParseInt64("-" + Digits(m)).value == -(m as int)
  {
    var d := Digits(m);
    var s := "-" + d;
    assert s[0] == '-' && s[1..] == d;
    assert d != "";
    ScanDigits(m);
    assert ScanUint(s[1..]) == Value(m);
    assert !(m > -MinInt64);
  }

  /** The digits of a value up to 2^63 - 1 parse back. */
  lemma ParseNonNegative(m: nat)
    requires m <= MaxInt64
    ensures ParseInt64(Digits(m)).Success? && ParseInt64(Digits(m)).value == m
  {
    var d := Digits(m);
    assert IsDigit(d[0]);
    ScanDigits(m);
  }

  /** Parsing inverts formatting on the whole int64 range, both extremes included. */
  lemma ParseFormat(x: int64)
    ensures ParseInt64(FormatInt(x)) == Success(x)
  {
    var m: int := x;
    if m < 0 {
      ParseNegative(-m);
    } else {
      ParseNonNegative(m);
    }
  }
}
