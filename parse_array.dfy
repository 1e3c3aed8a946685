/** The array-literal decoders of parse_array.go: the quote-aware decoder of text
    arrays (`parseArray` and its token readers), the two structural splitters that
    do not interpret quotes, and the int64 array decoder built on the flat one.

    Each loop of the source is a method proved equal to a recursive function that
    serves as its specification; the properties of the format are lemmas about
    those functions. */
module ParseArray {
  import opened Base
  import opened Text
  import Decimal

  /** The cutset of `strings.Trim(source, "{}")`. */
  const Braces: set<char> := {'{', '}'}

  /** The canonical empty array, `EmptyArray`. */
  const EmptyArray: string := "{}"

  // ---------------------------------------------------------------------------
  // Reading one character of a quoted token: strconv.UnquoteChar(s, '"')

  /** The one-letter escapes strconv.UnquoteChar decodes inside double quotes:
      the control characters, the backslash and the double quote. */
  function EscapeValue(c: char): (r: Option<char>)
    ensures c == '\\' ==> r == Some('\\')
    ensures c == '"' ==> r == Some('"')
    ensures c == '\'' ==> r == None
  {
    match c
    case 'a' => Some('\U{7}')
    case 'b' => Some('\U{8}')
    case 'f' => Some('\U{c}')
    case 'n' => Some('\n')
    case 'r' => Some('\r')
    case 't' => Some('\t')
    case 'v' => Some('\U{b}')
    case '\\' => Some('\\')
    case '"' => Some('"')
    case _ => None
  }

  /** One possibly escaped character of a double-quoted literal and the text after
      it. An unescaped `"` and a lone trailing backslash are syntax errors; a
      backslash and a one-letter escape decode to one character; `\'` is refused
      inside double quotes; the numeric escapes are not decoded by this model. */
  function UnquoteChar(s: string): (r: Result<(char, string)>)
    ensures r.Success? ==> |r.value.1| < |s| && r.value.1 == s[|s| - |r.value.1|..]
    ensures |s| > 0 && s[0] != '\\' && s[0] != '"' ==> r == Success((s[0], s[1..]))
    ensures |s| >= 2 && s[0] == '\\' && s[1] == '\\' ==> r == Success(('\\', s[2..]))
    ensures |s| >= 2 && s[0] == '\\' && s[1] == '"' ==> r == Success(('"', s[2..]))
    ensures |s| == 0 || s[0] == '"' || s == "\\" ==> r == Failure(SyntaxError)
  {
    if |s| == 0 || s[0] == '"' then Failure(SyntaxError)
    else if s[0] != '\\' then Success((s[0], s[1..]))
    else if |s| == 1 then Failure(SyntaxError)
    else
      match EscapeValue(s[1])
      case Some(v) => Success((v, s[2..]))
      case None =>
        if s[1] in "xuU01234567" then Failure(UnsupportedEscape) else Failure(SyntaxError)
  }

  // ---------------------------------------------------------------------------
  // Token readers: specifications

  /** Adds decoded text in front of the token of a successful read. */
  function PrefixToken(t: string, r: Result<(string, string)>): (p: Result<(string, string)>)
    ensures p.Success? <==> r.Success?
    ensures p.Success? ==> p.value.1 == r.value.1
  {
    match r
    case Success((tok, rest)) => Success((t + tok, rest))
    case Failure(e) => Failure(e)
  }

  lemma PrefixNothing(r: Result<(string, string)>)
    ensures PrefixToken("", r) == r
  {
    if r.Success? {
      assert "" + r.value.0 == r.value.0;
    }
  }

  lemma PrefixTwice(a: string, b: string, r: Result<(string, string)>)
    ensures PrefixToken(a, PrefixToken(b, r)) == PrefixToken(a + b, r)
  {
    if r.Success? {
      assert a + (b + r.value.0) == (a + b) + r.value.0;
    }
  }

  /** The body of a quoted token (the text after its opening quote): the characters
      decoded up to the first unescaped `"`, and the text from that quote on. Running
      out of text first is a syntax error. */
  function ScanQuoted(s: string): (r: Result<(string, string)>)
    ensures r.Success? ==> var rest := r.value.1;
              && 1 <= |rest| <= |s| && rest[0] == '"'
              && rest == s[|s| - |rest|..]
    decreases |s|
  {
    if |s| == 0 then Failure(SyntaxError)
    else if s[0] == '"' then Success(("", s))
    else
      match UnquoteChar(s)
      case Failure(e) => Failure(e)
      case Success((c, tail)) =>
        var inner := ScanQuoted(tail);
        ScanQuotedStep(s, c, tail, inner);
        PrefixToken([c], inner)
  }

  /** One decoded character in front of the rest of a quoted body keeps the text
      after the closing quote a suffix of the whole body. */
  lemma ScanQuotedStep(s: string, c: char, tail: string, inner: Result<(string, string)>)
    requires |tail| < |s| && tail == s[|s| - |tail|..]
    requires inner.Success? ==>
               (1 <= |inner.value.1| <= |tail| && inner.value.1[0] == '"'
                && inner.value.1 == tail[|tail| - |inner.value.1|..])
    ensures var r := PrefixToken([c], inner);
      r.Success? ==>
        (1 <= |r.value.1| <= |s| && r.value.1[0] == '"' && r.value.1 == s[|s| - |r.value.1|..])
  {
    if inner.Success? {
      SuffixOfSuffix(s, tail, inner.value.1);
    }
  }

  /** A body that does not start with the closing quote reads its first character
      and then the rest. */
  lemma ScanQuotedUnfold(s: string)
    requires |s| > 0 && s[0] != '"'
    ensures UnquoteChar(s).Failure? ==> ScanQuoted(s) == Failure(UnquoteChar(s).error)
    ensures UnquoteChar(s).Success? ==>
              var (c, tail) := UnquoteChar(s).value;
              ScanQuoted(s) == PrefixToken([c], ScanQuoted(tail))
  {
  }

  /** A quoted token whose body read fails from some point on fails with that error. */
  lemma QuotedTokenFails(source: string, token: string, s: string)
    requires ScanQuoted(source) == PrefixToken(token, ScanQuoted(s)) && ScanQuoted(s).Failure?
    ensures QuotedToken(source) == Failure(ScanQuoted(s).error)
  {
  }

  /** Once the closing quote is reached, what follows it decides the quoted token. */
  lemma QuotedTokenAfter(source: string, token: string, s: string)
    requires |s| > 0 && s[0] == '"' && ScanQuoted(source) == PrefixToken(token, ScanQuoted(s))
    ensures |s| == 1 ==> QuotedToken(source) == Success((token, ""))
    ensures |s| > 1 && s[1] != ',' ==> QuotedToken(source) == Failure(SyntaxError)
    ensures |s| > 1 && s[1] == ',' ==> QuotedToken(source) == Success((token, s[2..]))
  {
    assert ScanQuoted(s) == Success(("", s));
    assert token + "" == token;
  }

  /** `parseQuotedToken` as a function: after the closing quote the token is either
      the last one (nothing follows), or is followed by a `,` that is consumed;
      anything else is a syntax error. */
  function QuotedToken(source: string): (r: Result<(string, string)>)
    ensures source == "" ==> r == Failure(SyntaxError)
    ensures r.Success? ==> |r.value.1| < |source| && r.value.1 == source[|source| - |r.value.1|..]
  {
    match ScanQuoted(source)
    case Failure(e) => Failure(e)
    case Success((tok, rest)) =>
      if |rest| == 1 then Success((tok, ""))
      else if rest[1] != ',' then Failure(SyntaxError)
      else
        assert rest[2..] == source[|source| - |rest| + 2..];
        Success((tok, rest[2..]))
  }

  /** `parseUnquotedToken`: a bare token runs up to the first comma, which is consumed.
      With no comma the whole text is the last token. A comma that is the last
      character leaves a dangling empty element and is a syntax error. */
  function ParseUnquotedToken(source: string): (r: Result<(string, string)>)
    ensures ',' !in source ==> r == Success((source, ""))
    ensures r.Success? ==> ',' !in r.value.0
    ensures r.Success? && r.value.1 != "" ==> source == r.value.0 + "," + r.value.1
    ensures r.Failure? <==> |source| > 0 && source[|source| - 1] == ',' && ',' !in source[..|source| - 1]
    ensures r.Failure? ==> r.error == SyntaxError
  {
    var commaPos := IndexOf(source, ',');
    if commaPos == -1 then Success((source, ""))
    else if source[commaPos + 1..] == "" then
      assert source[..|source| - 1] == source[..commaPos];
      Failure(SyntaxError)
    else
      assert source == source[..commaPos] + "," + source[commaPos + 1..];
      assert source[|source| - 1] == ',' ==> source[..|source| - 1][commaPos] == ',';
      Success((source[..commaPos], source[commaPos + 1..]))
  }

  /** `parseToken`: a token starting with `"` is quoted, any other is bare. */
  function Token(source: string): (r: Result<(string, string)>)
    ensures r.Success? && |source| > 0 ==> |r.value.1| < |source|
  {
    if |source| > 0 && source[0] == '"' then QuotedToken(source[1..])
    else ParseUnquotedToken(source)
  }

  /** The token loop of `parseArray`: tokens are read until no text is left; the
      first failing token fails the whole decode. */
  function Tokens(source: string): (r: Result<seq<string>>)
    decreases |source|
  {
    if |source| == 0 then Success([])
    else
      match Token(source)
      case Failure(e) => Failure(e)
      case Success((tok, rest)) => Prepend([tok], Tokens(rest))
  }

  /** `parseArray`: every leading and trailing brace is trimmed, then the tokens are
      read. Nothing left after trimming (as in `{}`) is the empty list, not an error. */
  function Decoded(source: string): (r: Result<seq<string>>)
    ensures Trim(source, Braces) == "" ==> r == Success([])
  {
    Tokens(Trim(source, Braces))
  }

  // ---------------------------------------------------------------------------
  // Token readers: the loops of the source

  /** `parseQuotedToken`: decodes characters into a buffer until the closing quote. */
  method ParseQuotedToken(source: string) returns (r: Result<(string, string)>)
    ensures r == QuotedToken(source)
  {
    var token := "";
    var src := source;
    if |src| == 0 {
      return Failure(SyntaxError);
    }
    PrefixNothing(ScanQuoted(src));
    while src[0] != '"'
      invariant |src| > 0
      invariant ScanQuoted(source) == PrefixToken(token, ScanQuoted(src))
      decreases |src|
    {
      var u := UnquoteChar(src);
      ScanQuotedUnfold(src);
      if u.Failure? {
        QuotedTokenFails(source, token, src);
        return Failure(u.error);
      }
      var (c, tail) := u.value;
      PrefixTwice(token, [c], ScanQuoted(tail));
      token := token + [c];
      src := tail;
      if |src| == 0 {
        QuotedTokenFails(source, token, src);
        return Failure(SyntaxError);
      }
    }
    QuotedTokenAfter(source, token, src);
    if |src| == 1 {
      src := "";
    } else {
      if src[1] != ',' {
        return Failure(SyntaxError);
      }
      src := src[2..];
    }
    return Success((token, src));
  }

  /** `parseToken`. */
  method ParseToken(source: string) returns (r: Result<(string, string)>)
    ensures r == Token(source)
  {
    if |source| > 0 && source[0] == '"' {
      r := ParseQuotedToken(source[1..]);
    } else {
      r := ParseUnquotedToken(source);
    }
  }

  /** `parseArray`: trims the braces, then appends token after token. On an error the
      source also hands back the tokens read so far; here the decode simply fails. */
  method ParseArray(source: string) returns (r: Result<seq<string>>)
    ensures r == Decoded(source)
  {
    var tokens: seq<string> := [];
    var src := Trim(source, Braces);
    PrependNothing(Tokens(src));
    while |src| > 0
      invariant Decoded(source) == Prepend(tokens, Tokens(src))
      decreases |src|
    {
      var t := ParseToken(src);
      if t.Failure? {
        assert Tokens(src) == Failure(t.error);
        return Failure(t.error);
      }
      var (token, remaining) := t.value;
      assert Tokens(src) == Prepend([token], Tokens(remaining));
      PrependTwice(tokens, [token], Tokens(remaining));
      tokens := tokens + [token];
      src := remaining;
    }
    assert Tokens(src) == Success([]);
    assert tokens + [] == tokens;
    return Success(tokens);
  }

  // ---------------------------------------------------------------------------
  // Facts about the decoder

  /** Trimming only removes the outer braces of `{inner}` when `inner` does not itself
      start or end with a brace. */
  lemma DecodedFrame(inner: string)
    requires inner == [] || (inner[0] !in Braces && inner[|inner| - 1] !in Braces)
    ensures Decoded("{" + inner + "}") == Tokens(inner)
  {
    TrimFrame('{', inner, '}', Braces);
    assert "{" + inner + "}" == ['{'] + inner + ['}'];
  }

  /** A quoted body without backslashes or quotes is read verbatim up to the quote. */
  lemma {:induction false} ScanPlain(plain: string, rest: string)
    requires '\\' !in plain && '"' !in plain
    ensures ScanQuoted(plain + "\"" + rest) == Success((plain, "\"" + rest))
  {
    var s := plain + "\"" + rest;
    if plain == [] {
      assert s == "\"" + rest;
    } else {
      assert s[0] == plain[0];
      assert s[1..] == plain[1..] + "\"" + rest;
      ScanPlain(plain[1..], rest);
      assert [plain[0]] + plain[1..] == plain;
    }
  }

  /** A token read in front of the remaining text puts its element in front. */
  lemma TokensStep(s: string, tok: string, rest: string)
    requires |s| > 0 && Token(s) == Success((tok, rest))
    ensures Tokens(s) == Prepend([tok], Tokens(rest))
  {
  }

  /** A token read in front of text whose tokens are known. */
  lemma TokensCons(s: string, tok: string, rest: string, tl: seq<string>)
    requires |s| > 0 && Token(s) == Success((tok, rest)) && Tokens(rest) == Success(tl)
    ensures Tokens(s) == Success([tok] + tl)
  {
    TokensStep(s, tok, rest);
  }

  /** A bare token is everything before the first comma, which is consumed. */
  lemma UnquotedFirst(tok: string, rest: string)
    requires ',' !in tok && rest != ""
    ensures ParseUnquotedToken(tok + "," + rest) == Success((tok, rest))
  {
    var s := tok + "," + rest;
    assert s[..|tok|] == tok;
    assert s[|tok|] == ',';
    assert IndexOf(s, ',') == |tok|;
    assert s[|tok| + 1..] == rest;
  }

  /** A last bare token is read whole. */
  lemma BareLast(p: string)
    requires p != "" && ',' !in p && p[0] != '"'
    ensures Tokens(p) == Success([p])
  {
    assert Token(p) == Success((p, ""));
    TokensStep(p, p, "");
    assert Tokens("") == Success([]);
    assert [p] + [] == [p];
  }

  /** Bare tokens are the comma-separated pieces of the text: a list of pieces free of
      commas, none starting with a quote and the last one not empty, is read back
      exactly. */
  lemma {:induction false} BareTokens(parts: seq<string>)
    requires |parts| >= 1 && parts[|parts| - 1] != ""
    requires forall k :: 0 <= k < |parts| ==> ',' !in parts[k]
    requires forall k :: 0 <= k < |parts| && parts[k] != "" ==> parts[k][0] != '"'
    ensures Tokens(Join(parts, ',')) == Success(parts)
  {
    var s := Join(parts, ',');
    if |parts| == 1 {
      assert s == parts[0] && parts == [parts[0]];
      BareLast(parts[0]);
    } else {
      var tl := parts[1..];
      BareHead(parts);
      BareRest(parts);
      BareTokens(tl);
      TokensCons(s, parts[0], Join(tl, ','), tl);
      assert [parts[0]] + tl == parts;
    }
  }

  /** The first of several bare pieces is read as the first token, and the joined
      remaining pieces are what is left. */
  lemma BareHead(parts: seq<string>)
    requires |parts| >= 2 && parts[|parts| - 1] != ""
    requires forall k :: 0 <= k < |parts| ==> ',' !in parts[k]
    requires forall k :: 0 <= k < |parts| && parts[k] != "" ==> parts[k][0] != '"'
    ensures var rest := Join(parts[1..], ',');
      |Join(parts, ',')| > 0 && Token(Join(parts, ',')) == Success((parts[0], rest))
  {
    var s := Join(parts, ',');
    var tl := parts[1..];
    var rest := Join(tl, ',');
    assert s == parts[0] + "," + rest by {
      JoinFirst(parts, ',');
    }
    assert tl[|tl| - 1] == parts[|parts| - 1];
    assert rest != "" by {
      if |tl| == 1 {
        assert rest == tl[0];
      } else {
        JoinFirst(tl, ',');
      }
    }
    UnquotedFirst(parts[0], rest);
    if parts[0] == "" {
      assert s[0] == ',';
    } else {
      assert s[0] == parts[0][0];
    }
  }

  /** The pieces after the first still meet the conditions of `BareTokens`. */
  lemma BareRest(parts: seq<string>)
    requires |parts| >= 2 && parts[|parts| - 1] != ""
    requires forall k :: 0 <= k < |parts| ==> ',' !in parts[k]
    requires forall k :: 0 <= k < |parts| && parts[k] != "" ==> parts[k][0] != '"'
    ensures var tl := parts[1..];
      && |tl| >= 1 && tl[|tl| - 1] != ""
      && (forall k :: 0 <= k < |tl| ==> ',' !in tl[k])
      && (forall k :: 0 <= k < |tl| && tl[k] != "" ==> tl[k][0] != '"')
  {
    var tl := parts[1..];
    assert forall k :: 0 <= k < |tl| ==> tl[k] == parts[k + 1];
  }

  /** A quoted token without escapes decodes to its body. */
  lemma QuotedPlain(plain: string)
    requires '\\' !in plain && '"' !in plain
    ensures Tokens("\"" + plain + "\"") == Success([plain])
  {
    var s := "\"" + plain + "\"";
    QuotedPlainToken(plain);
    assert Tokens(s) == Prepend([plain], Tokens(""));
    assert Tokens("") == Success([]);
    assert [plain] + [] == [plain];
  }

  lemma QuotedPlainToken(plain: string)
    requires '\\' !in plain && '"' !in plain
    ensures Token("\"" + plain + "\"") == Success((plain, ""))
  {
    var body := plain + "\"" + "";
    var s := "\"" + plain + "\"";
    assert s == "\"" + body;
    assert s[0] == '"' && s[1..] == body;
    ScanPlain(plain, "");
    assert ScanQuoted(body) == Success((plain, "\"" + ""));
    assert QuotedToken(body) == Success((plain, ""));
  }

  /** A quote with nothing after it opens a token that never closes. */
  lemma LoneQuote()
    ensures Tokens("\"").Failure?
  {
    assert Token("\"") == QuotedToken("");
  }

  lemma EmptyQuotedThenText()
    ensures Tokens("\"\"a").Failure?
  {
    ScanPlain("", "a");
    assert "\"\"a"[1..] == "" + "\"" + "a";
  }

  lemma BareThenLoneQuote()
    ensures Tokens("mary,\"").Failure?
  {
    UnquotedFirst("mary", "\"");
    assert "mary,\"" == "mary" + "," + "\"";
    LoneQuote();
  }

  lemma BareThenComma()
    ensures Tokens("mary,").Failure?
  {
    assert "mary,"[..4] == "mary";
  }

  /** `{"}` is rejected: the closing quote is missing. */
  lemma UnterminatedRejected()
    ensures Decoded("{" + "\"" + "}").Failure?
  {
    DecodedFrame("\"");
    LoneQuote();
  }

  /** `{""a}` is rejected: text follows a closing quote. */
  lemma TextAfterQuoteRejected()
    ensures Decoded("{" + "\"\"a" + "}").Failure?
  {
    DecodedFrame("\"\"a");
    EmptyQuotedThenText();
  }

  /** `{mary,"}` is rejected: the last token never closes. */
  lemma UnterminatedLastRejected()
    ensures Decoded("{" + "mary,\"" + "}").Failure?
  {
    DecodedFrame("mary,\"");
    BareThenLoneQuote();
  }

  /** `{mary,}` is rejected: a comma with no element after it. */
  lemma DanglingCommaRejected()
    ensures Decoded("{" + "mary," + "}").Failure?
  {
    DecodedFrame("mary,");
    BareThenComma();
  }

  /** A braced quoted element without escapes decodes to its body: `{"mary"}` is
      `[mary]`. */
  lemma QuotedPlainDecoded(plain: string)
    requires '\\' !in plain && '"' !in plain
    ensures Decoded("{" + ("\"" + plain + "\"") + "}") == Success([plain])
  {
    var inner := "\"" + plain + "\"";
    assert inner[0] == '"' && inner[|inner| - 1] == '"';
    QuotedPlain(plain);
    DecodedFrame(inner);
  }

  /** `{}` holds no element. */
  lemma EmptyArrayExample()
    ensures Decoded("{" + "" + "}") == Success([])
  {
    DecodedFrame("");
  }

  /** Trimming `{{a}}` removes both braces on each side. */
  lemma TrimDoubleBraces()
    ensures Trim("{{" + "a" + "}}", Braces) == "a"
  {
    var s := "{{" + "a" + "}}";
    var t := "{a}}";
    var u := "a}}";
    assert s[0] == '{' && s[1..] == t;
    assert t[0] == '{' && t[1..] == u;
    assert u[0] == 'a';
    assert TrimLeft(u, Braces) == u;
    assert TrimLeft(t, Braces) == u;
    assert TrimLeft(s, Braces) == u;
    var v := "a}";
    assert u[2] == '}' && u[..2] == v;
    assert v[1] == '}' && v[..1] == "a";
    assert TrimRight("a", Braces) == "a";
    assert TrimRight(v, Braces) == "a";
    assert TrimRight(u, Braces) == "a";
  }

  /** Every outer brace is trimmed, not just one: `{{a}}` is read as `[a]`. */
  lemma AllOuterBracesTrimmed()
    ensures Decoded("{{" + "a" + "}}") == Success(["a"])
  {
    TrimDoubleBraces();
    assert Tokens("a") == Prepend(["a"], Tokens(""));
    assert Tokens("") == Success([]);
    assert ["a"] + [] == ["a"];
  }

  // ---------------------------------------------------------------------------
  // Structural splitters

  /** `SplitSimpleArray`: drops the first and the last character and splits the rest
      at every comma; shorter input has no elements. */
  function SplitSimpleArray(src: string): (r: seq<string>)
    ensures |src| < 2 ==> r == []
    ensures |src| >= 2 ==> |r| >= 1 && Join(r, ',') == src[1..|src| - 1]
    ensures forall k :: 0 <= k < |r| ==> ',' !in r[k]
  {
    if |src| < 2 then [] else Split(src[1..|src| - 1], ',')
  }

  /** `{}` splits into one empty element, not into none; the number decoders therefore
      test for the empty array first. */
  lemma SimpleSplitOfEmpty()
    ensures SplitSimpleArray(EmptyArray) == [""]
  {
    assert EmptyArray[1..1] == "";
    assert IndexOf("", ',') == -1;
  }

  /** Splitting the inside of `{...}` recovers elements that hold no comma. */
  lemma SimpleSplitJoin(elems: seq<string>)
    requires |elems| >= 1
    requires forall k :: 0 <= k < |elems| ==> ',' !in elems[k]
    ensures SplitSimpleArray("{" + Join(elems, ',') + "}") == elems
  {
    var src := "{" + Join(elems, ',') + "}";
    assert src[1..|src| - 1] == Join(elems, ',');
    SplitJoin(elems, ',');
  }

  /** Brace depth at the end of `t`: opening minus closing braces. */
  function Depth(t: string): int
  {
    Count(t, '{') - Count(t, '}')
  }

  lemma DepthWithoutBraces(t: string)
    requires '{' !in t && '}' !in t
    ensures Depth(t) == 0
  {
    NoneCounted(t, '{');
    NoneCounted(t, '}');
  }

  lemma DepthConcat(a: string, b: string)
    ensures Depth(a + b) == Depth(a) + Depth(b)
  {
    CountConcat(a, b, '{');
    CountConcat(a, b, '}');
  }

  /** Reading one more character moves the depth by that character alone. */
  lemma DepthStep(t: string, i: int)
    requires 0 <= i < |t|
    ensures Depth(t[..i + 1]) == Depth(t[..i]) + (if t[i] == '{' then 1 else if t[i] == '}' then -1 else 0)
  {
    assert t[..i + 1] == t[..i] + [t[i]];
    DepthConcat(t[..i], [t[i]]);
    assert [t[i]][1..] == [];
    assert Count([t[i]], '{') == (if t[i] == '{' then 1 else 0);
    assert Count([t[i]], '}') == (if t[i] == '}' then 1 else 0);
  }

  /** `r` cuts `inner` at exactly the commas found at brace depth zero, counting from
      depth `d`: the pieces joined with commas give `inner` back, the text before
      every cut has depth zero, and every comma left inside a piece lies at a
      nonzero depth. */
  ghost predicate TopSplit(r: seq<string>, inner: string, d: int)
  {
    && |r| >= 1
    && Join(r, ',') == inner
    && (forall k :: 0 < k < |r| ==> d + Depth(Join(r[..k], ',')) == 0)
    && (forall k, j :: 0 <= k < |r| && 0 <= j < |r[k]| && r[k][j] == ',' ==>
          d + Depth(Lead(r[..k], ',') + r[k][..j]) != 0)
  }

  /** `SplitNestedSimpleArray`: removes the outer characters and splits at the commas
      that are not inside an inner `{...}`; `{}` and anything shorter give no
      elements. */
  method SplitNestedSimpleArray(src: string) returns (resp: seq<string>)
    ensures |src| <= 2 ==> resp == []
    ensures |src| > 2 ==> TopSplit(resp, src[1..|src| - 1], 0)
  {
    resp := [];
    var l := |src|;
    if l < 2 {
      return;
    }
    var inner := src[1..l - 1];
    var level, start := 0, 0;
    for i := 0 to |inner|
      invariant 0 <= start <= i
      invariant level == Depth(inner[..i])
      invariant inner[..start] == Lead(resp, ',')
      invariant forall k :: 0 < k <= |resp| ==> Depth(Join(resp[..k], ',')) == 0
      invariant forall k, j :: 0 <= k < |resp| && 0 <= j < |resp[k]| && resp[k][j] == ',' ==>
                  Depth(Lead(resp[..k], ',') + resp[k][..j]) != 0
      invariant forall j :: start <= j < i && inner[j] == ',' ==> Depth(inner[..j]) != 0
    {
      var c := inner[i];
      DepthStep(inner, i);
      if c == '{' {
        level := level + 1;
      } else if c == '}' {
        level := level - 1;
      } else if level == 0 && c == ',' {
        CutAt(inner, resp, start, i);
        resp := resp + [inner[start..i]];
        start := i + 1;
      }
    }
    if l != 2 {
      LastPiece(inner, resp, start);
      resp := resp + [inner[start..]];
    }
  }

  /** The step of the splitting loop that cuts at a depth-zero comma keeps its invariant. */
  lemma CutAt(inner: string, resp: seq<string>, start: int, i: int)
    requires 0 <= start <= i < |inner| && inner[i] == ','
    requires Depth(inner[..i]) == 0
    requires inner[..start] == Lead(resp, ',')
    requires forall k :: 0 < k <= |resp| ==> Depth(Join(resp[..k], ',')) == 0
    requires forall k, j :: 0 <= k < |resp| && 0 <= j < |resp[k]| && resp[k][j] == ',' ==>
               Depth(Lead(resp[..k], ',') + resp[k][..j]) != 0
    requires forall j :: start <= j < i && inner[j] == ',' ==> Depth(inner[..j]) != 0
    ensures var resp' := resp + [inner[start..i]];
            && inner[..i + 1] == Lead(resp', ',')
            && (forall k :: 0 < k <= |resp'| ==> Depth(Join(resp'[..k], ',')) == 0)
            && (forall k, j :: 0 <= k < |resp'| && 0 <= j < |resp'[k]| && resp'[k][j] == ',' ==>
                  Depth(Lead(resp'[..k], ',') + resp'[k][..j]) != 0)
  {
    var x := inner[start..i];
    var resp' := resp + [x];
    JoinSnoc(resp, x, ',');
    assert inner[..i] == inner[..start] + x;
    assert Join(resp', ',') == inner[..i];
    assert inner[..i + 1] == inner[..i] + [','];
    forall k | 0 < k <= |resp'|
      ensures Depth(Join(resp'[..k], ',')) == 0
    {
      if k <= |resp| {
        assert resp'[..k] == resp[..k];
      } else {
        assert resp'[..k] == resp';
      }
    }
    forall k, j | 0 <= k < |resp'| && 0 <= j < |resp'[k]| && resp'[k][j] == ','
      ensures Depth(Lead(resp'[..k], ',') + resp'[k][..j]) != 0
    {
      if k < |resp| {
        assert resp'[..k] == resp[..k];
        assert resp'[k] == resp[k];
      } else {
        assert resp'[..k] == resp;
        assert inner[..start + j] == inner[..start] + x[..j];
        assert inner[start + j] == x[j];
      }
    }
  }

  /** Appending the last piece after the loop establishes the split. */
  lemma LastPiece(inner: string, resp: seq<string>, start: int)
    requires 0 <= start <= |inner|
    requires inner[..start] == Lead(resp, ',')
    requires forall k :: 0 < k <= |resp| ==> Depth(Join(resp[..k], ',')) == 0
    requires forall k, j :: 0 <= k < |resp| && 0 <= j < |resp[k]| && resp[k][j] == ',' ==>
               Depth(Lead(resp[..k], ',') + resp[k][..j]) != 0
    requires forall j :: start <= j < |inner| && inner[j] == ',' ==> Depth(inner[..j]) != 0
    ensures TopSplit(resp + [inner[start..]], inner, 0)
  {
    var x := inner[start..];
    var r := resp + [x];
    JoinSnoc(resp, x, ',');
    assert inner == inner[..start] + x;
    forall k | 0 < k < |r|
      ensures Depth(Join(r[..k], ',')) == 0
    {
      assert r[..k] == resp[..k];
    }
    forall k, j | 0 <= k < |r| && 0 <= j < |r[k]| && r[k][j] == ','
      ensures Depth(Lead(r[..k], ',') + r[k][..j]) != 0
    {
      if k < |resp| {
        assert r[..k] == resp[..k];
        assert r[k] == resp[k];
      } else {
        assert r[..k] == resp;
        assert inner[..start + j] == inner[..start] + x[..j];
        assert inner[start + j] == x[j];
      }
    }
  }

  /** The text before piece k + 1 is the first piece, a comma, and the text before
      piece k of the remaining pieces. */
  lemma LeadTail(r: seq<string>, k: int)
    requires 0 <= k < |r|
    ensures Lead(r[..k + 1], ',') == r[0] + "," + Lead(r[1..][..k], ',')
  {
    if k == 0 {
      assert r[1..][..0] == [];
      assert r[..1] == [r[0]];
    } else {
      assert r[..k + 1][0] == r[0];
      assert r[..k + 1][1..] == r[1..][..k];
    }
  }

  lemma CommaDepth()
    ensures Depth(",") == 0
  {
    assert ","[1..] == [];
  }

  /** The depth after the first piece, a comma and more text adds up. */
  lemma DepthAfterFirst(first: string, t: string)
    ensures Depth(first + "," + t) == Depth(first) + Depth(t)
  {
    DepthConcat(first + ",", t);
    DepthConcat(first, ",");
    CommaDepth();
  }

  lemma CutsOfTail(r: seq<string>, k: int)
    requires 0 < k < |r| - 1
    ensures Join(r[..k + 1], ',') == r[0] + "," + Join(r[1..][..k], ',')
  {
    assert r[..k + 1][0] == r[0];
    assert r[..k + 1][1..] == r[1..][..k];
  }

  /** Dropping the first piece of a split leaves a split of the text after the first
      cut, counted from the depth reached at that cut. */
  lemma TopSplitTail(r: seq<string>, inner: string, d: int)
    requires |r| > 1 && TopSplit(r, inner, d)
    ensures TopSplit(r[1..], inner[|r[0]| + 1..], d + Depth(r[0]))
  {
    var t := r[1..];
    var e := d + Depth(r[0]);
    JoinFirst(r, ',');
    assert inner[|r[0]| + 1..] == Join(t, ',');
    forall k | 0 < k < |t|
      ensures e + Depth(Join(t[..k], ',')) == 0
    {
      CutsOfTail(r, k);
      DepthAfterFirst(r[0], Join(t[..k], ','));
      assert d + Depth(Join(r[..k + 1], ',')) == 0;
    }
    forall k, j | 0 <= k < |t| && 0 <= j < |t[k]| && t[k][j] == ','
      ensures e + Depth(Lead(t[..k], ',') + t[k][..j]) != 0
    {
      LeadTail(r, k);
      assert r[k + 1] == t[k];
      assert Lead(r[..k + 1], ',') + r[k + 1][..j] == r[0] + "," + (Lead(t[..k], ',') + t[k][..j]);
      DepthAfterFirst(r[0], Lead(t[..k], ',') + t[k][..j]);
      assert d + Depth(Lead(r[..k + 1], ',') + r[k + 1][..j]) != 0;
    }
  }

  /** The first cut of a split lies at a comma the text reaches at depth zero. */
  lemma FirstCut(r: seq<string>, inner: string, d: int)
    ensures TopSplit(r, inner, d) && |r| > 1 ==>
              && |r[0]| < |inner| && inner[|r[0]|] == ','
              && inner[..|r[0]|] == r[0] && d + Depth(r[0]) == 0
  {
    if TopSplit(r, inner, d) && |r| > 1 {
      JoinFirst(r, ',');
      assert r[..1] == [r[0]];
    }
  }

  /** A comma inside the first piece of a split lies at a nonzero depth. */
  lemma CommaInFirstPiece(r: seq<string>, inner: string, d: int, j: int)
    ensures TopSplit(r, inner, d) && 0 <= j < |r[0]| && inner[j] == ',' ==>
              d + Depth(inner[..j]) != 0
  {
    if TopSplit(r, inner, d) && 0 <= j < |r[0]| && inner[j] == ',' {
      JoinFirst(r, ',');
      assert inner[..|r[0]|] == r[0];
      assert r[0][j] == ',';
      assert Lead(r[..0], ',') + r[0][..j] == inner[..j];
    }
  }

  /** The first piece of one split is never shorter than the first piece of another:
      the shorter one ends at a depth-zero comma that the longer one keeps inside. */
  lemma FirstPieceNotShorter(r1: seq<string>, r2: seq<string>, inner: string, d: int)
    requires TopSplit(r1, inner, d) && TopSplit(r2, inner, d)
    ensures |r1[0]| >= |r2[0]|
  {
    JoinFirst(r1, ',');
    JoinFirst(r2, ',');
    FirstCut(r1, inner, d);
    CommaInFirstPiece(r2, inner, d, |r1[0]|);
  }

  /** The cuts are determined by the text: two splits of the same text from the same
      depth are equal. */
  lemma {:induction false} TopSplitUnique(r1: seq<string>, r2: seq<string>, inner: string, d: int)
    requires TopSplit(r1, inner, d) && TopSplit(r2, inner, d)
    ensures r1 == r2
    decreases |inner|
  {
    FirstPieceNotShorter(r1, r2, inner, d);
    FirstPieceNotShorter(r2, r1, inner, d);
    var a := r1[0];
    JoinFirst(r1, ',');
    JoinFirst(r2, ',');
    assert a == inner[..|a|] == r2[0];
    if |r1| == 1 || |r2| == 1 {
      assert |r1| == 1 && |r2| == 1;
    } else {
      TopSplitTail(r1, inner, d);
      TopSplitTail(r2, inner, d);
      TopSplitUnique(r1[1..], r2[1..], inner[|a| + 1..], d + Depth(a));
      assert r1 == [a] + r1[1..];
      assert r2 == [a] + r2[1..];
    }
  }

  /** The texts before the cuts are prefixes of the joined text. */
  lemma JoinPrefix(r: seq<string>, k: int)
    requires 0 < k < |r|
    ensures Join(r, ',') == Join(r[..k], ',') + "," + Join(r[k..], ',')
  {
    assert r == r[..k] + r[k..];
    JoinAppend(r[..k], r[k..], ',');
  }

  lemma PrefixWithoutBraces(inner: string, t: string, u: string)
    requires '{' !in inner && '}' !in inner
    requires inner == t + u
    ensures Depth(t) == 0
  {
    assert forall i :: 0 <= i < |t| ==> t[i] == inner[i];
    DepthWithoutBraces(t);
  }

  lemma FlatCut(inner: string, r: seq<string>, k: int)
    requires '{' !in inner && '}' !in inner
    requires Join(r, ',') == inner && 0 < k < |r|
    ensures Depth(Join(r[..k], ',')) == 0
  {
    JoinPrefix(r, k);
    assert inner == Join(r[..k], ',') + ("," + Join(r[k..], ','));
    PrefixWithoutBraces(inner, Join(r[..k], ','), "," + Join(r[k..], ','));
  }

  /** Without nested arrays a split at depth-zero commas is the plain split at every
      comma. */
  lemma FlatTopSplit(inner: string)
    requires '{' !in inner && '}' !in inner
    ensures TopSplit(Split(inner, ','), inner, 0)
  {
    var r := Split(inner, ',');
    forall k | 0 < k < |r|
      ensures Depth(Join(r[..k], ',')) == 0
    {
      FlatCut(inner, r, k);
    }
  }

  /** On input without nested arrays the two splitters agree: whatever satisfies the
      nested splitter's contract is the flat splitter's result. */
  lemma NestedAgreesWithFlat(src: string, r: seq<string>)
    requires |src| > 2 && TopSplit(r, src[1..|src| - 1], 0)
    requires '{' !in src[1..|src| - 1] && '}' !in src[1..|src| - 1]
    ensures r == SplitSimpleArray(src)
  {
    FlatTopSplit(src[1..|src| - 1]);
    TopSplitUnique(r, SplitSimpleArray(src), src[1..|src| - 1], 0);
  }

  lemma DepthOfOpen()
    ensures Depth("{1") == 1 && Depth("{1,2}") == 0
  {
    assert "{1"[1..] == "1" && "1"[1..] == "";
    assert "{1,2}"[1..] == "1,2}" && "1,2}"[1..] == ",2}" && ",2}"[1..] == "2}";
    assert "2}"[1..] == "}" && "}"[1..] == "";
  }

  /** A two-dimensional literal `{{1,2},3}` has two elements: the comma inside the
      inner braces does not cut. */
  lemma NestedExample(r: seq<string>)
    requires TopSplit(r, "{1,2},3", 0)
    ensures r == ["{1,2}", "3"]
  {
    var e := ["{1,2}", "3"];
    assert Join(e, ',') == "{1,2}" + "," + "3" == "{1,2},3";
    assert e[..1] == ["{1,2}"];
    assert e[..0] == [];
    DepthOfOpen();
    forall k, j | 0 <= k < |e| && 0 <= j < |e[k]| && e[k][j] == ','
      ensures Depth(Lead(e[..k], ',') + e[k][..j]) != 0
    {
      if k == 0 {
        assert j == 2;
        assert Lead(e[..0], ',') + e[0][..2] == "{1";
      }
    }
    assert TopSplit(e, "{1,2},3", 0);
    TopSplitUnique(r, e, "{1,2},3", 0);
  }

  // ---------------------------------------------------------------------------
  // The int64 array decoder

  /** `ParseInt64Array`: `{}` is the empty list; otherwise every element the flat
      splitter yields must parse as an int64, and the first that does not fails
      the decode. */
  function DecodeInt64s(src: string): (r: Result<seq<int64>>)
    ensures src == EmptyArray || |src| < 2 ==> r == Success([])
    ensures r.Success? && src != EmptyArray ==> |r.value| == |SplitSimpleArray(src)|
  {
    if src == EmptyArray then Success([])
    else ParseAll(SplitSimpleArray(src), Decimal.ParseInt64)
  }

  /** `ParseInt64Array`: fills a results buffer of one slot per element. */
  method ParseInt64Array(src: string) returns (r: Result<seq<int64>>)
    ensures r == DecodeInt64s(src)
  {
    if src == EmptyArray {
      return Success([]);
    }
    var vals := SplitSimpleArray(src);
    var results := new int64[|vals|];
    ghost var parsed: seq<int64> := [];
    for i := 0 to |vals|
      invariant |parsed| == i && results[..i] == parsed
      invariant forall k :: 0 <= k < i ==> Decimal.ParseInt64(vals[k]) == Success(parsed[k])
    {
      var x := Decimal.ParseInt64(vals[i]);
      if x.Failure? {
        FirstFailure(vals, Decimal.ParseInt64, i);
        return Failure(x.error);
      }
      results[i] := x.value;
      parsed := parsed + [x.value];
      assert results[..i + 1] == results[..i] + [results[i]];
    }
    assert results[..] == results[..|vals|];
    AllParsed(vals, Decimal.ParseInt64, parsed);
    return Success(results[..]);
  }
}
