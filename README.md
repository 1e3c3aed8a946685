# go-pgt array-literal codec in Dafny

This project models the core of go-pgt, a Go helper package for PostgreSQL
columns. The core is the text codec for PostgreSQL array literals (section 8.15.6,
"Array Input and Output Syntax", of the PostgreSQL manual), together with the
list utilities built around it. The model covers:

- the quote-aware decoder of text arrays, `parseArray`, and its token readers. It
  trims braces, then reads bare tokens (cut at the first comma) and quoted tokens
  (backslash escapes, closed by an unescaped quote);
- the encoder of text arrays, `Strings.Value`. It escapes backslashes, then
  quotes; wraps every element in quotes; joins them with commas; and wraps the
  result in braces;
- the two structural splitters, which do not look at quotes: the flat
  `SplitSimpleArray` and the brace-depth-aware `SplitNestedSimpleArray`;
- the typed arrays. For int64 these are `ParseInt64Array` and `Ints.Value` /
  `Ints.Scan`. For UUID they are `ParseUUIDArray`, the fixed-width buffer encoder
  `UUIDs.Value`, and `UUIDs.Scan`;
- the utilities on `Strings`: `Equals`, `Contains`, `ContainsAll`,
  `ContainsAllSorted`, `Exclude`, `EmptyToNil`, `ForEachPair`, `Map`,
  `GetOrEmpty`, `Distinct` and `FilterValidStrings`;
- the nullable wrappers `String` and `Int64`, and the single `UUID`, with their
  scanners and valuers. In `Int64`'s case this includes the JSON marshalling.

## Design

Text is `seq<char>`. Go's byte slices and strings are both modelled as this one
kind of text, as the unsafe casts of the source make them. Go counts bytes where
the model counts characters; the two agree on ASCII and on the structural
characters `{`, `}`, `,`, `"` and `\`. "## Left out" says where they differ. A dynamically typed database value is a
`DbValue`, one constructor per Go type the core distinguishes. Whether a Go slice
is nil or empty matters where the source treats them differently, such as
`Distinct`, `EmptyToNil`, `Map` and the results of the scanners. There it is kept
with `Slice<T> = Nil | Of(items)`. Errors are values of an `Error` datatype.

Each loop of the source is a method proved equal to a specification function:
- `parseArray`, `parseQuotedToken`, `Strings.Value`, `Ints.Value` and
  `UUIDs.Value`;
- `ParseInt64Array` and `ParseUUIDArray`;
- the utilities.

For `SplitNestedSimpleArray` the specification is a predicate instead, and the
splitter then provably leaves no choice. The properties of the format are lemmas
about the specification functions.

The central theorems are:
- `PgString.RoundTrip`: decoding `Strings.Value(ss)` gives `ss` back for every
  list of texts, where a text is a sequence of characters. For Go strings this
  is the case of valid UTF-8.
- `PgNumber.RoundTrip` and `PgUuid.RoundTrip`: the same for int64 lists and for
  lists of proper UUIDs.

A receiver updated through a pointer becomes a class whose fields the method
modifies: `Strings`, `Ints`, `UUIDs`, `Int64` and a `UUID` variable. Methods
named `...ThenScan` / `...ThenUnmarshal` run an encoder and then a scanner on
fresh variables, and restate the round-trip tests of the repository as proved
contracts.

The modules are:

| module | file | what it holds |
|---|---|---|
| `Base` | base.dfy | results, slices, database values, `convertToString`, and the "parse every element" loop |
| `Text` | text.dfy | the `strings`/`bytes` functions the core uses: Join, Split, IndexRune, Replace, Trim |
| `Decimal` | decimal.dfy | `%d` and `strconv.ParseInt(s, 10, 64)`, and the proof that they invert each other |
| `Seqs` | seqs.dfy | subsequences, filtering, and first-occurrence de-duplication |
| `ParseArray` | parse_array.dfy | parse_array.go |
| `PgString` | strings.dfy | string.go |
| `PgUuid` | uuid.dfy | uuid.go |
| `PgNumber` | number.dfy | number.go and number_array.go |

Where the code and its description disagree, the model follows the code:

- After a closing quote, a comma followed by nothing is consumed. So the last
  quoted element may carry a trailing comma: `{"a",}` decodes to `[a]`. A bare
  element may not: `{mary,}` is rejected. See
  `PgString.QuotedTrailingCommaAccepted`.
- The doc comment of `Strings.Value` says it fails on an element holding a comma.
  The code never fails, and quotes such an element instead.
- `ParseUUIDArray` calls `SplitArray`, which none of the modelled files defines.
  The model assumes it is `SplitSimpleArray` (see "## Left out").
- The doc comment of `GetOrEmpty` promises the empty text for any index out of
  range. The code returns it only for an index at or past the end; a negative
  index panics. The model follows the code and requires a non-negative index.

## Model

| member | source | states |
|---|---|---|
| Base.ConvertToString | unmarshal.go:10-31 | byte slices and strings are accepted unchanged; every other kind is an error |
| Base.ParseAll | parse_array.go:178-184 | the element loop succeeds exactly when every element parses, with the parsed values in order; on failure it carries the error of the first element that does not parse |
| Base.FirstFailure | parse_array.go:180-182 | when the elements before `i` parse and element `i` does not, the whole decode fails with element `i`'s error |
| Text.Split | parse_array.go:127 | at least one piece; the pieces joined by the separator give the input back; no piece holds the separator |
| Text.SplitJoin | parse_array.go:127 | splitting a join of separator-free pieces gives the pieces back |
| Text.IndexOf | parse_array.go:67 | -1 exactly when the character is absent; otherwise the first position holding it |
| Text.TrimFrame | parse_array.go:46 | trimming the brace set from `{inner}` leaves `inner` when `inner` neither starts nor ends with a brace |
| Text.ReplaceConcat | string.go:101-102 | replacing a character distributes over concatenation |
| Decimal.FormatInt | number_array.go:28 | `%d` gives one or more characters: digits and a leading minus exactly for negative values |
| Decimal.ParseInt64 | parse_array.go:181 | an empty text is a syntax error; failures are syntax or range errors on the whole text; a success holds only digits after an optional sign, and a negative result needs a minus |
| Decimal.ScanDigits | parse_array.go:181 | the digit loop reads back the digits of any value up to 2^64 - 1 |
| Decimal.ParseFormat | number_array.go:28 | parsing the `%d` text of any int64, both extremes included, gives it back |
| Seqs.InOrderIsSubsequence | string.go:154-175 | the greedy two-cursor scan succeeds exactly when the first list is a subsequence of the second |
| Seqs.LongerNotSubsequence | string.go:156-158 | a longer list is never a subsequence |
| Seqs.FirstByKeepsKeys | string.go:243-249 | every key of the input occurs among the keys of the first-occurrence list |
| Seqs.FirstByDistinctKeys | string.go:243-249 | no two elements of the first-occurrence list share a key |
| Seqs.FirstByIsFirstOccurrences | string.go:237-251 | the first-occurrence list is the input at an increasing sequence of positions, each the first with its key, covering every such first position |
| Seqs.Filter | string.go:122-130 | filtering keeps only accepted elements, and never more elements than the input has |
| Seqs.FilterMultiset | string.go:122-130 | every accepted element is kept exactly as often as it occurs in the input, and every other element is dropped |
| Seqs.FilterMembers | string.go:124-128 | an element is kept exactly when it occurs in the input and is accepted |
| Seqs.FilterSubsequence | string.go:122-130 | the kept elements keep their original order |
| ParseArray.UnquoteChar | parse_array.go:86-89 | one character of a quoted literal: plain characters pass through, `\\` gives a backslash, `\"` a quote; an unescaped quote, empty input or a lone backslash is a syntax error; what remains is a strictly shorter suffix |
| ParseArray.ScanQuoted | parse_array.go:85-104 | on success the text left starts with the closing quote and is a suffix of the input |
| ParseArray.QuotedToken | parse_array.go:106-116 | an empty body is a syntax error; a success leaves a strictly shorter suffix |
| ParseArray.ParseUnquotedToken | parse_array.go:66-76 | no comma: the whole text is the last token; the token never holds a comma and token, comma and rest rebuild the input; failure (a syntax error) exactly when the only comma is the last character |
| ParseArray.Token | parse_array.go:58-64 | every successful read of non-empty text consumes something |
| ParseArray.Decoded | parse_array.go:43-56 | nothing left after trimming braces (such as `{}`) is the empty list, not an error |
| ParseArray.ParseQuotedToken | parse_array.go:78-117 | the buffer loop computes the quoted-token specification |
| ParseArray.ParseToken | parse_array.go:58-64 | dispatch on a leading quote, as the token specification |
| ParseArray.ParseArray | parse_array.go:43-56 | the token loop computes the decoder specification |
| ParseArray.DecodedFrame | parse_array.go:46 | `{inner}` decodes as the tokens of `inner` when `inner` neither starts nor ends with a brace |
| ParseArray.AllOuterBracesTrimmed | parse_array.go:46 | every outer brace is trimmed, not just one: `{{a}}` decodes to `[a]` |
| ParseArray.ScanPlain | parse_array.go:85-104 | a body free of backslashes and quotes is read verbatim up to the quote |
| ParseArray.UnquotedFirst | parse_array.go:67-75 | a bare token is the text before the first comma, and the comma is consumed |
| ParseArray.BareTokens | parse_array.go:47-54 | comma-free pieces, none starting with a quote and the last not empty, are read back exactly as bare tokens |
| ParseArray.QuotedPlain | parse_array.go:78-117 | a quoted token without escapes decodes to its body |
| ParseArray.UnterminatedRejected | parse_array.go:101-102 | `{"}` is rejected |
| ParseArray.TextAfterQuoteRejected | parse_array.go:110-112 | `{""a}` is rejected |
| ParseArray.UnterminatedLastRejected | parse_array.go:82-83 | `{mary,"}` is rejected |
| ParseArray.DanglingCommaRejected | parse_array.go:71-73 | `{mary,}` is rejected |
| ParseArray.QuotedPlainDecoded | parse_array.go:37 | a braced quoted element without escapes, such as `{"mary"}`, decodes to its body alone |
| ParseArray.EmptyArrayExample | parse_array.go:43-47 | `{}` decodes to the empty list, not to an error |
| ParseArray.SplitSimpleArray | parse_array.go:121-128 | input shorter than 2 gives no pieces; otherwise at least one piece, the pieces joined by commas give back the text between the first and last characters, and no piece holds a comma |
| ParseArray.SimpleSplitOfEmpty | parse_array.go:121-128 | `{}` splits into one empty piece, not none |
| ParseArray.SimpleSplitJoin | parse_array.go:121-128 | splitting `{` + comma-free elements joined by commas + `}` gives the elements back |
| ParseArray.DepthStep | parse_array.go:141-144 | each character moves the brace depth by one for a brace and leaves it unchanged otherwise |
| ParseArray.SplitNestedSimpleArray | parse_array.go:132-154 | `{}` and shorter input give no pieces; otherwise the pieces rebuild the inner text exactly (whitespace included), every cut lies at depth zero, and every comma left in a piece lies at nonzero depth |
| ParseArray.TopSplitUnique | parse_array.go:140-149 | there is only one way to cut a text at exactly its depth-zero commas |
| ParseArray.NestedAgreesWithFlat | parse_array.go:132-154 | without inner braces, the nested splitter agrees with the flat one |
| ParseArray.NestedExample | parse_array_test.go:32-35 | `{{1,2},3}` splits into `{1,2}` and `3` |
| ParseArray.DecodeInt64s | parse_array.go:173-186 | `{}` (and anything shorter than 2) is the empty list; a success has one value per piece of the flat split |
| ParseArray.ParseInt64Array | parse_array.go:173-186 | the buffer loop computes the int64 decoder specification and stops at the first bad element |
| PgString.NullString.Value | string.go:53-58 | the text when valid, NULL otherwise |
| PgString.NewString | string.go:61-66 | absent exactly when empty input is asked to become NULL; otherwise the text, present |
| PgString.ScanString | string.go:42-50 | NULL gives the absent empty string without error; text and bytes are stored as present; other kinds are errors and leave the empty, absent string |
| PgString.StringValueScan | string.go:42-58 | scanning the value of any `NewString` result gives it back |
| PgString.FilterValidStrings | string.go:69-77 | the texts of the valid strings, in order |
| PgString.FilterValidMembers | string.go:69-77 | a text is returned exactly when some valid input string holds it |
| PgString.EscapeCons | string.go:101-102 | because backslashes are escaped before quotes, the two replace passes act as one escape per character |
| PgString.Value | string.go:98-106 | the buffer loop produces the braces-wrapped, comma-joined list of escaped, quoted elements |
| PgString.EncodeEmpty | string.go:98-106 | the empty list gives `{}` |
| PgString.EncodeQuote | string_test.go:137 | `["\""]` gives `{"\""}` |
| PgString.EncodeBackslash | string_test.go:138 | `["\\"]` gives `{"\\\\"}` |
| PgString.ScanEscaped | parse_array.go:85-104 | the quoted-token loop reads any escaped text back up to its closing quote |
| PgString.UnterminatedEscaped | parse_array.go:101-102 | a quoted body that runs out before an unescaped closing quote is a syntax error, for every escaped text |
| PgString.UnterminatedQuoted | parse_array.go:82-83 | a token made of an opening quote and an escaped text with no closing quote is a syntax error |
| PgString.QuotedThenComma | parse_array.go:106-114 | a quoted element followed by a comma is read and the comma is consumed |
| PgString.QuotedAtEnd | parse_array.go:107-108 | a quoted element at the end is the last token |
| PgString.TokensOfQuoted | parse_array.go:47-54 | the token loop reads a non-empty encoded list back exactly |
| PgString.RoundTrip | string.go:98-106 | decoding the encoding of any list gives the list back |
| PgString.QuotedTrailingCommaAccepted | parse_array.go:106-114 | a quoted last element followed by a lone trailing comma is accepted |
| PgString.QuotedTrailingCommaExample | parse_array.go:110-113 | `{"a",}` decodes to `[a]` |
| PgString.ScanSource | string.go:83-94 | anything other than text or bytes fails |
| PgString.Strings.Scan | string.go:83-94 | on success the variable holds the decoded non-nil list; any error leaves it unchanged and is returned |
| PgString.ValueThenScan | string_test.go:110-118 | encoding any list and scanning the text into a variable gives the list back, without error |
| PgString.Equals | string.go:109-119 | true exactly when the lists are equal |
| PgString.Contains | string.go:133-140 | true exactly when the value occurs in the list |
| PgString.ContainsAll | string.go:143-150 | true exactly when every one of the values occurs in the list |
| PgString.ContainsAllSorted | string.go:154-175 | true exactly when the second list is a subsequence of the first, for all inputs, sorted or not |
| PgString.Exclude | string.go:122-130 | the filter of the list by "not among the excluded values" |
| PgString.ExcludeKeeps | string.go:122-130 | an element is kept exactly when it is in the list and not excluded, each as often as in the list, in original order |
| PgString.EmptyToNil | string.go:179-190 | nil exactly when every element is empty (an empty or nil list included); otherwise the list itself, unfiltered |
| PgString.FilterEmpty | string.go:186-189 | a filter keeps nothing exactly when it accepts no element |
| PgString.ForEachPair | string.go:193-202 | the calls are the neighbouring pairs in order, one fewer than the elements, none below two |
| PgString.Map | string.go:205-211 | the function applied to every element in order; nil exactly when there are no elements |
| PgString.GetOrEmpty | string.go:230-235 | the element at a valid index, the empty text past the end |
| PgString.Distinct | string.go:238-251 | nil stays nil; otherwise the non-nil first-occurrence list of the input |
| PgString.DistinctKeeps | string.go:238-251 | the result has no duplicates, the same elements as the input, and keeps the first occurrences in order |
| PgString.DistinctExample | string_test.go:102 | `[a b "" a "" c]` gives `[a b "" c]` |
| PgUuid.String | uuid.go:75-77 | 36 characters for a sixteen-byte identifier, empty text otherwise; only hexadecimal digits and dashes, so never a comma or a brace |
| PgUuid.Empty | uuid.go:37-40 | only the nil identifier is empty; it has no bytes, is not proper, and its text is empty |
| PgUuid.Equals | uuid.go:79-82 | true exactly when the two byte sequences have the same length and agree at every position; nil equals the empty slice |
| PgUuid.Parse | uuid.go:86 | the result is nil or a sixteen-byte identifier |
| PgUuid.ParseString | uuid.go:75-91 | parsing the text of any identifier gives it back |
| PgUuid.StringInjective | uuid.go:80-82 | two identifiers are equal, as bytes and as values, exactly when their texts are |
| PgUuid.ParseUUID | uuid.go:85-91 | an error exactly when parsing yields nil; a success is a sixteen-byte identifier |
| PgUuid.Value | uuid.go:30-35 | NULL exactly for the empty identifier, its text otherwise |
| PgUuid.Written | uuid.go:153-162 | the cursor's text starts with a brace and grows by at most 37 characters per identifier |
| PgUuid.Layout | uuid.go:147-166 | the buffer has the precomputed length `2 + 37n - 1` for `n > 0` and 2 otherwise |
| PgUuid.UUIDsValue | uuid.go:147-166 | the cursor loop writes inside the buffer on every step and produces the layout |
| PgUuid.WrittenJoin | uuid.go:155-162 | for proper identifiers the cursor writes a brace, then the texts joined by commas, then a final comma |
| PgUuid.ValueJoins | uuid.go:147-166 | for proper identifiers the buffer is filled exactly, the brace overwrites the last comma, and the result is `{` + texts joined by commas + `}`; one identifier gives `{` + its text + `}` |
| PgUuid.ValueOfNone | uuid.go:148-152 | the empty or nil list gives `{}` |
| PgUuid.DecodeUUIDs | uuid.go:169-182 | `{}` is the empty list; a success holds only proper identifiers; a failure has a piece that does not parse |
| PgUuid.ParseUUIDArray | uuid.go:169-182 | the buffer loop computes the UUID array decoder and stops at the first bad element |
| PgUuid.ParseStrings | uuid.go:176-180 | every text of a list of proper identifiers parses back to the list |
| PgUuid.RoundTrip | uuid.go:147-182 | decoding the encoding of proper identifiers gives them back |
| PgUuid.UUIDs.Scan | uuid.go:137-144 | a decoded list is stored on success; a decode error stores nil; a value that is not text leaves the variable unchanged |
| PgUuid.ValueThenScan | uuid_test.go:10-39 | encoding proper identifiers and scanning the result gives them back, without error, the empty list included |
| PgUuid.UuidVar.Scan | uuid.go:16-27 | NULL leaves the variable unchanged; text that does not parse stores nil without an error; other kinds are errors that change nothing |
| PgUuid.UuidVar.ScanClearing | uuid.go:16-27 | as intended: NULL clears the variable to nil |
| PgUuid.NullScanKeepsOld | uuid.go:17-20 | as written, scanning the empty identifier's value into a variable holding a proper identifier leaves that identifier in place |
| PgUuid.ValueThenScanClearing | uuid.go:16-35 | with the clearing scanner, `Value` then `Scan` restores every empty or proper identifier, whatever the variable held |
| PgUuid.ExtractUUIDs | uuid.go:115-131 | the set-map loop computes the first occurrence of each identifier text, in the order yielded |
| PgUuid.ExtractKeeps | uuid.go:115-131 | no two results share a text, every yielded text is kept, and each result is the first occurrence of its text |
| PgNumber.DecimalNotNull | number.go:162-167 | no decimal text is the JSON `null` |
| PgNumber.Int64.Value | number.go:202-207 | the integer when valid, NULL otherwise |
| PgNumber.Int64.MarshalJSON | number.go:162-167 | when valid the text parses back to the integer; the text is `null` exactly when not valid |
| PgNumber.Int64.Scan | number.go:185-199 | NULL gives (0, not valid); an int64 is stored valid; an int32 is widened and stored valid; other kinds are an error naming their type, and change nothing |
| PgNumber.Int64.UnmarshalJSON | number.go:170-182 | `null` clears validity and keeps the integer; parseable text is stored valid; a parse error is returned and changes nothing |
| PgNumber.ValueThenScan | number.go:185-207 | scanning a variable's value restores its validity and its integer, or gives (0, not valid) for an invalid one |
| PgNumber.MarshalThenUnmarshal | number.go:162-182 | unmarshalling the JSON of a variable restores it; an invalid one leaves the target's integer in place |
| PgNumber.IntsValue | number_array.go:25-31 | the buffer loop produces the braces-wrapped, comma-joined decimal texts |
| PgNumber.EncodeIntsEmpty | number_array.go:25-31 | the empty list gives `{}` |
| PgNumber.DecimalsPlain | number_array.go:28 | decimal texts hold no comma, quote or brace |
| PgNumber.EncodeIntsCommas | number_array.go:26-30 | n elements give exactly n - 1 commas and no quote |
| PgNumber.ParseDecimals | parse_array.go:180-184 | every decimal text of a list parses back to the list |
| PgNumber.RoundTrip | number_array.go:25-31 | decoding the encoding of any int64 list gives it back |
| PgNumber.Ints.Scan | number_array.go:15-22 | a decoded list is stored on success; a decode error stores nil; a value that is not text leaves the variable unchanged |
| PgNumber.IntsValueThenScan | number.go:143-159 | encoding any int64 list and scanning the text into a variable gives it back, without error |

## Left out

- Floating point: `Float64`, `Float64s`, `ParseFloatArray` and the `%.2f` formatting.
- time.go, which depends on `time.Time`, the clock and binary varints.
- number_big.go, which wraps `math/big`.
- check.go, the database-client error glue.
- logger.go, `MustParseUUID` (a fatal logger) and `RandomUUID` (randomness).
- The JSON and YAML marshalling of `String` and `UUID`, which are thin wrappers over `encoding/json` and the uuid package.
- `TrimSpace` and `TrimMap`: they depend on Unicode whitespace and lower-casing. `Map` is modelled for an arbitrary function.
- The error results that are always nil (`Strings.Value`, `Ints.Value`, `UUIDs.Value`, the valuers): they are not modelled as outputs. Error messages are constructors of `Error`, not formatted text.
- ParseArray.ParseArray: on an error the source also returns the tokens read so far; the model returns only the error.
- ParseArray.UnquoteChar: only the one-letter escapes are decoded. The hexadecimal, Unicode and octal escapes of `strconv.UnquoteChar` give `UnsupportedEscape` instead of a character. The re-encoding of multibyte runes as UTF-8 is not modelled, since text is a sequence of characters.
- PgUuid.Parse: only the canonical 36-character form is accepted. The `urn:uuid:` prefixed form that the uuid package also reads parses to nil here.
- PgUuid.String: the uuid package is not part of this model. Its documented behaviour is assumed: lower-case canonical text for sixteen bytes and the empty text for any other slice.
- ParseArray.SplitSimpleArray: lengths and end trims count characters where the source counts bytes. This also holds for ParseArray.SplitNestedSimpleArray, ParseArray.DecodeInt64s and PgUuid.DecodeUUIDs, and so for the scanners built on them. Input whose first or last character is not ASCII splits differently. For example, Go splits the two-byte `é` into one empty piece and then fails to parse it as an int64; the model sees one character and returns the empty list.
- PgString.RoundTrip: a Go string holding invalid UTF-8 does not come back unchanged, because `strconv.UnquoteChar` decodes each bad byte as U+FFFD. Text here is a sequence of characters, so the theorem covers valid UTF-8 only.
- PgString.GetOrEmpty: requires a non-negative index. The source panics on a negative one, although its doc comment promises the empty text.
- PgUuid.DecodeUUIDs: `SplitArray`, called at uuid.go:173, is not defined in any file of this model. It is assumed to be `SplitSimpleArray`.
- PgUuid.ExtractUUIDs: the iterator is the sequence it yields. The optional length argument is only a capacity hint and is not modelled.
- Decimal.ParseInt64: `bat.Atoi64` is not part of this model. It is modelled as `strconv.ParseInt(s, 10, 64)`.
- PgNumber.Ints.Scan: `bat.UnsafeToBytes` is not part of this model. Like `convertToBytes`, it is taken to accept byte slices and strings and to fail on other kinds.
- `Ints` is declared in both number.go and number_array.go with the same body; one copy is modelled.
- PgString.Exclude and PgString.FilterValidStrings return sequences. The source's results are never nil, so nothing is lost.

## Findings

| source | as written | input that shows it | evidently intended | confidence | as-written member | corrected member |
|---|---|---|---|---|---|---|
| uuid.go:17-20 | `u = nil` rebinds the method's own pointer, so scanning NULL leaves the variable unchanged | a `UUID` variable holding a proper identifier, scanned with NULL (the value of the empty identifier) | NULL clears the variable to nil, so that `Value` then `Scan` is the identity | high; not executed | PgUuid.NullScanKeepsOld | PgUuid.ValueThenScanClearing |
