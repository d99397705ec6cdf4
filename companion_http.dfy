/**
 * The request-parsing core of the embedded web companion server
 * (src-tauri/src/web_companion.rs): percent-decoding of query components,
 * query-string and request-target splitting, the header terminator search,
 * the size-limited request reader, the token check and the status reason
 * phrases.
 *
 * The Rust code works on the bytes of the request, so the model does too.
 * `String::from_utf8_lossy` is not modelled: header text and decoded
 * components stay byte sequences, which agrees with the source whenever
 * those bytes are valid UTF-8. Whitespace is the ASCII part of
 * `char::is_whitespace` (tab, LF, VT, FF, CR, space).
 */
module CompanionHttp {
  import opened Base
  import opened Text

  type Byte = b: int | 0 <= b < 256

  const MAX_REQUEST_HEADER_BYTES: nat := 64 * 1024
  const MAX_REQUEST_BODY_BYTES: nat := 512 * 1024
  /** `usize` on the 64-bit targets the companion is built for. */
  const USIZE_LIMIT: nat := 0x1_0000_0000_0000_0000

  const LF: Byte := 10
  const CR: Byte := 13
  const SPACE: Byte := 32
  const PERCENT: Byte := 37
  const AMPERSAND: Byte := 38
  const PLUS: Byte := 43
  const COLON: Byte := 58
  const EQUALS: Byte := 61
  const QUESTION: Byte := 63

  const CRLF: seq<Byte> := [CR, LF]
  const HEADER_TERMINATOR: seq<Byte> := [CR, LF, CR, LF]

  /** The bytes of an ASCII string literal. */
  function Ascii(s: string): (r: seq<Byte>)
    ensures |r| == |s|
    ensures forall i :: 0 <= i < |s| && s[i] < 128 as char ==> r[i] == s[i] as int
  {
    seq(|s|, i requires 0 <= i < |s| => (s[i] as int) % 256)
  }

  const CONTENT_LENGTH: seq<Byte> := Ascii("content-length")
  const TOKEN_HEADER: seq<Byte> := Ascii("x-codex-monitor-token")
  const TOKEN_PARAM: seq<Byte> := Ascii("token")

  predicate IsAsciiWhitespace(b: Byte) {
    9 <= b <= 13 || b == SPACE
  }

  function AsciiLowerByte(b: Byte): Byte {
    if 65 <= b <= 90 then b + 32 else b
  }

  /** `to_ascii_lowercase` on bytes. */
  function AsciiLowerBytes(s: seq<Byte>): (r: seq<Byte>)
    ensures |r| == |s|
    ensures forall i :: 0 <= i < |s| ==> r[i] == AsciiLowerByte(s[i])
  {
    seq(|s|, i requires 0 <= i < |s| => AsciiLowerByte(s[i]))
  }

  // ---------------------------------------------------------------------------
  // Errors and responses

  datatype WebError = WebError(status: nat, message: string)

  function BadRequest(message: string): WebError { WebError(400, message) }
  function Unauthorized(message: string): WebError { WebError(401, message) }

  /** The reason phrase `write_response` puts on the status line. */
  function ReasonPhrase(status: nat): string {
    match status
    case 200 => "OK"
    case 204 => "No Content"
    case 400 => "Bad Request"
    case 401 => "Unauthorized"
    case 404 => "Not Found"
    case _ => "Internal Server Error"
  }

  /** The reason phrases of section 15 of RFC 9110 for the codes the server sends. */
  function StandardReason(status: nat): Option<string> {
    match status
    case 200 => Some("OK")
    case 204 => Some("No Content")
    case 400 => Some("Bad Request")
    case 401 => Some("Unauthorized")
    case 404 => Some("Not Found")
    case 500 => Some("Internal Server Error")
    case _ => None
  }

  /**
   * Every status the companion produces (200 and 204 from the router, 400,
   * 401, 404 and 500 from its error constructors) gets its standard phrase;
   * any other status would be labelled "Internal Server Error".
   */
  lemma ReasonPhraseStandard(status: nat)
    ensures status in {200, 204, 400, 401, 404, 500} ==> StandardReason(status) == Some(ReasonPhrase(status))
    ensures status !in {200, 204, 400, 401, 404} ==> ReasonPhrase(status) == "Internal Server Error"
  {
  }

  // ---------------------------------------------------------------------------
  // Percent-decoding (`from_hex`, `decode_component`)

  predicate IsHexDigit(b: Byte) {
    (48 <= b <= 57) || (97 <= b <= 102) || (65 <= b <= 70)
  }

  /** The value of one hexadecimal digit, either case. */
  function FromHex(b: Byte): (r: Option<Byte>)
    ensures r.Some? <==> IsHexDigit(b)
    ensures r.Some? ==> r.value < 16
  {
    if 48 <= b <= 57 then Some(b - 48)
    else if 97 <= b <= 102 then Some(b - 97 + 10)
    else if 65 <= b <= 70 then Some(b - 65 + 10)
    else None
  }

  /** Independent reading of a hex digit: its position in "0123456789abcdef", ignoring case. */
  function HexDigitValue(b: Byte): int {
    var lowered := AsciiLowerByte(b);
    if lowered <= 57 then lowered - 48 else lowered - 87
  }

  /** `from_hex` agrees with the positional reading of a digit. */
  lemma FromHexIsDigitValue(b: Byte)
    requires IsHexDigit(b)
    ensures FromHex(b) == Some(HexDigitValue(b))
  {
  }

  /** The upper-case hex digit for `n`, as a percent-encoder writes it. */
  function HexDigitUpper(n: nat): Byte
    requires n < 16
  {
    if n < 10 then 48 + n else 55 + n
  }

  /**
   * What `decode_component` produces, as bytes: `+` becomes a space, `%XY`
   * with two hex digits becomes the byte 16*X+Y, every other byte (a `%`
   * included) is copied and the scan moves one byte on.
   */
  function Decoded(s: seq<Byte>): seq<Byte>
    decreases |s|
  {
    if s == [] then []
    else if s[0] == PLUS then [SPACE] + Decoded(s[1..])
    else if s[0] == PERCENT && |s| > 2 && FromHex(s[1]).Some? && FromHex(s[2]).Some? then
      [FromHex(s[1]).value * 16 + FromHex(s[2]).value] + Decoded(s[3..])
    else [s[0]] + Decoded(s[1..])
  }

  /** The byte `decode_component` emits at `index` and how many input bytes it consumes there. */
  function DecodeStep(value: seq<Byte>, index: nat): (Byte, nat)
    requires index < |value|
  {
    if value[index] == PLUS then (SPACE, 1)
    else if value[index] == PERCENT && index + 2 < |value| && FromHex(value[index + 1]).Some? && FromHex(value[index + 2]).Some? then
      (FromHex(value[index + 1]).value * 16 + FromHex(value[index + 2]).value, 3)
    else (value[index], 1)
  }

  /** After `done` bytes of output, one step of the loop keeps the output on course for `whole`. */
  lemma DecodedStepAt(value: seq<Byte>, index: nat, done: seq<Byte>, whole: seq<Byte>)
    requires index < |value|
    requires done + Decoded(value[index..]) == whole
    ensures index + DecodeStep(value, index).1 <= |value|
    ensures (done + [DecodeStep(value, index).0]) + Decoded(value[index + DecodeStep(value, index).1..]) == whole
  {
    var s := value[index..];
    var (b, width) := DecodeStep(value, index);
    assert s[0] == value[index];
    if |s| > 2 {
      assert s[1] == value[index + 1] && s[2] == value[index + 2];
    }
    assert s[width..] == value[index + width..];
    assert Decoded(s) == [b] + Decoded(s[width..]);
    AppendAssoc(done, [b], Decoded(s[width..]));
  }

  lemma AppendAssoc<T>(a: seq<T>, b: seq<T>, c: seq<T>)
    ensures a + (b + c) == (a + b) + c
  {
  }

  /** The index-driven loop of `decode_component`. */
  method DecodeComponent(value: seq<Byte>) returns (output: seq<Byte>)
    ensures output == Decoded(value)
  {
    var index := 0;
    output := [];
    while index < |value|
      invariant index <= |value|
      invariant output + Decoded(value[index..]) == Decoded(value)
    {
      DecodedStepAt(value, index, output, Decoded(value));
      if value[index] == PLUS {
        output := output + [SPACE];
        index := index + 1;
      } else if value[index] == PERCENT && index + 2 < |value| {
        var high := FromHex(value[index + 1]);
        var low := FromHex(value[index + 2]);
        if high.Some? && low.Some? {
          output := output + [high.value * 16 + low.value];
          index := index + 3;
        } else {
          output := output + [value[index]];
          index := index + 1;
        }
      } else {
        output := output + [value[index]];
        index := index + 1;
      }
    }
  }

  /** Decoding never lengthens its input. */
  lemma {:induction false} DecodedNotLonger(s: seq<Byte>)
    ensures |Decoded(s)| <= |s|
    decreases |s|
  {
    if s == [] {
    } else if s[0] == PLUS {
      DecodedNotLonger(s[1..]);
    } else if s[0] == PERCENT && |s| > 2 && FromHex(s[1]).Some? && FromHex(s[2]).Some? {
      DecodedNotLonger(s[3..]);
    } else {
      DecodedNotLonger(s[1..]);
    }
  }

  /** A component with no `+` and no `%` decodes to itself. */
  lemma {:induction false} DecodedPlain(s: seq<Byte>)
    requires PLUS !in s && PERCENT !in s
    ensures Decoded(s) == s
    decreases |s|
  {
    if s != [] {
      DecodedPlain(s[1..]);
    }
  }

  /** A `%` not followed by two hex digits is kept literally and decoding resumes at the next byte. */
  lemma DecodedMalformedEscape(s: seq<Byte>)
    requires s != [] && s[0] == PERCENT
    requires |s| <= 2 || !IsHexDigit(s[1]) || !IsHexDigit(s[2])
    ensures Decoded(s) == [PERCENT] + Decoded(s[1..])
  {
  }

  /** Bytes that JavaScript's `encodeURIComponent` leaves as they are. */
  predicate Unreserved(b: Byte) {
    || (48 <= b <= 57) || (65 <= b <= 90) || (97 <= b <= 122)
    || b == 45 || b == 95 || b == 46 || b == 33 || b == 126 || b == 42 || b == 39 || b == 40 || b == 41
  }

  /**
   * Percent-encoding as the companion's page applies it to ids in query
   * strings (`encodeURIComponent`, on the UTF-8 bytes): unreserved bytes
   * stay, every other byte becomes `%` and two upper-case hex digits.
   */
  function Encoded(s: seq<Byte>): seq<Byte>
    decreases |s|
  {
    if s == [] then []
    else if Unreserved(s[0]) then [s[0]] + Encoded(s[1..])
    else [PERCENT, HexDigitUpper(s[0] / 16), HexDigitUpper(s[0] % 16)] + Encoded(s[1..])
  }

  /** The server decodes exactly what the page encodes. */
  lemma {:induction false} DecodeEncode(s: seq<Byte>)
    ensures Decoded(Encoded(s)) == s
    decreases |s|
  {
    if s != [] {
      var rest := Encoded(s[1..]);
      DecodeEncode(s[1..]);
      if Unreserved(s[0]) {
        var e := [s[0]] + rest;
        assert e[1..] == rest;
      } else {
        var hi := HexDigitUpper(s[0] / 16);
        var lo := HexDigitUpper(s[0] % 16);
        var e := [PERCENT, hi, lo] + rest;
        assert e[3..] == rest;
        assert FromHex(hi) == Some(s[0] / 16);
        assert FromHex(lo) == Some(s[0] % 16);
      }
    }
  }

  // ---------------------------------------------------------------------------
  // Query strings and request targets

  type Query = map<seq<Byte>, seq<Byte>>

  /**
   * What one `&`-separated part contributes to the query map: nothing when it
   * is blank or its decoded key is empty; otherwise the decoded key and the
   * decoded text after the first `=` (empty when there is no `=`).
   */
  function QueryEntry(part: seq<Byte>): Option<(seq<Byte>, seq<Byte>)> {
    if IsBlank(part, IsAsciiWhitespace) then None
    else
      var raw := match SplitOnce(part, EQUALS) case Some(kv) => kv case None => (part, []);
      var key := Decoded(raw.0);
      if key == [] then None else Some((key, Decoded(raw.1)))
  }

  function Insert(m: Query, entry: Option<(seq<Byte>, seq<Byte>)>): Query {
    match entry
    case None => m
    case Some(kv) => m[kv.0 := kv.1]
  }

  /** The parts inserted left to right, so that a later key overwrites an earlier one. */
  function QueryFold(parts: seq<seq<Byte>>, m: Query): Query
    decreases |parts|
  {
    if parts == [] then m else QueryFold(parts[1..], Insert(m, QueryEntry(parts[0])))
  }

  function QueryMap(query: seq<Byte>): Query {
    QueryFold(Split(query, [AMPERSAND]), map[])
  }

  /** The loop of `parse_query_string`. */
  method ParseQueryString(query: seq<Byte>) returns (m: Query)
    ensures m == QueryMap(query)
  {
    var parts := Split(query, [AMPERSAND]);
    m := map[];
    for i := 0 to |parts|
      invariant QueryFold(parts[i..], m) == QueryMap(query)
    {
      var part := parts[i];
      assert parts[i..][1..] == parts[i + 1..];
      if IsBlank(part, IsAsciiWhitespace) {
        continue;
      }
      var raw := match SplitOnce(part, EQUALS) case Some(kv) => kv case None => (part, []);
      var key := DecodeComponent(raw.0);
      if key == [] {
        continue;
      }
      var value := DecodeComponent(raw.1);
      m := m[key := value];
    }
  }

  /** Folding over appended parts continues from the map the first parts built. */
  lemma {:induction false} QueryFoldAppend(a: seq<seq<Byte>>, b: seq<seq<Byte>>, m: Query)
    ensures QueryFold(a + b, m) == QueryFold(b, QueryFold(a, m))
    decreases |a|
  {
    if a == [] {
      assert a + b == b;
    } else {
      assert (a + b)[0] == a[0];
      assert (a + b)[1..] == a[1..] + b;
      QueryFoldAppend(a[1..], b, Insert(m, QueryEntry(a[0])));
    }
  }

  /** Splitting at a one-element delimiter distributes over a delimiter placed between two texts. */
  lemma {:induction false} SplitAround<T>(a: seq<T>, d: T, b: seq<T>)
    ensures Split(a + [d] + b, [d]) == Split(a, [d]) + Split(b, [d])
    decreases |a|
  {
    var whole := a + [d] + b;
    assert whole[|a|..|a| + 1] == [d];
    match Find(a, [d])
    case Some(i) =>
      FindExtend(a, [d] + b, [d]);
      assert a + ([d] + b) == whole;
      assert whole[..i] == a[..i];
      assert whole[i + 1..] == a[i + 1..] + [d] + b;
      SplitAround(a[i + 1..], d, b);
    case None =>
      forall j: nat | j < |a| ensures !OccursAt(whole, [d], j) {
        assert whole[j..j + 1] == a[j..j + 1];
        assert !OccursAt(a, [d], j);
      }
      FindIsFirst(whole, [d], |a|);
      assert whole[..|a|] == a;
      assert whole[|a| + 1..] == b;
  }

  /** Every key in a parsed query is non-empty. */
  lemma {:induction false} QueryFoldKeysNonEmpty(parts: seq<seq<Byte>>, m: Query)
    requires forall k :: k in m ==> k != []
    ensures forall k :: k in QueryFold(parts, m) ==> k != []
    decreases |parts|
  {
    if parts != [] {
      QueryFoldKeysNonEmpty(parts[1..], Insert(m, QueryEntry(parts[0])));
    }
  }

  /**
   * Properties of `parse_query_string`: keys are never empty, and when a
   * further part with key `k` is appended after `&`, `k` maps to that part's
   * value whatever came before; a part that contributes nothing leaves the
   * map as it was.
   */
  lemma QueryMapLaterWins(q: seq<Byte>, part: seq<Byte>)
    requires AMPERSAND !in part
    ensures forall k :: k in QueryMap(q) ==> k != []
    ensures QueryEntry(part).Some? ==>
      var kv := QueryEntry(part).value;
      kv.0 in QueryMap(q + [AMPERSAND] + part) && QueryMap(q + [AMPERSAND] + part)[kv.0] == kv.1
    ensures QueryEntry(part).None? ==> QueryMap(q + [AMPERSAND] + part) == QueryMap(q)
  {
    QueryFoldKeysNonEmpty(Split(q, [AMPERSAND]), map[]);
    SplitAround(q, AMPERSAND, part);
    assert Split(part, [AMPERSAND]) == [part] by {
      forall j: nat ensures !OccursAt(part, [AMPERSAND], j) {
        if j < |part| {
          assert part[j..j + 1] == [part[j]];
        }
      }
    }
    QueryFoldAppend(Split(q, [AMPERSAND]), [part], map[]);
  }

  /** A part without `=` maps its decoded key to the empty value. */
  lemma QueryEntryWithoutEquals(part: seq<Byte>)
    requires EQUALS !in part
    requires !IsBlank(part, IsAsciiWhitespace) && Decoded(part) != []
    ensures QueryEntry(part) == Some((Decoded(part), []))
  {
  }

  /** `parse_target`: the path before the first `?`, and the query after it. */
  function ParseTarget(target: seq<Byte>): (r: (seq<Byte>, Query))
    ensures QUESTION !in target ==> r.0 == target && r.1 == map[]
    ensures QUESTION in target ==>
      && QUESTION !in r.0
      && |r.0| < |target|
      && target[..|r.0| + 1] == r.0 + [QUESTION]
      && r.1 == QueryMap(target[|r.0| + 1..])
  {
    match SplitOnce(target, QUESTION)
    case None => (target, map[])
    case Some(pq) =>
      assert target[..|pq.0| + 1] == pq.0 + [QUESTION];
      assert target[|pq.0| + 1..] == pq.1;
      (pq.0, QueryMap(pq.1))
  }

  // ---------------------------------------------------------------------------
  // The request head

  /** `find_header_end`: where the first CR LF CR LF starts. */
  function FindHeaderEnd(buffer: seq<Byte>): (r: Option<nat>)
    ensures r.Some? ==> r.value + 4 <= |buffer| && buffer[r.value..r.value + 4] == HEADER_TERMINATOR
    ensures r.Some? ==> forall i: nat :: i < r.value ==> !OccursAt(buffer, HEADER_TERMINATOR, i)
    ensures r.None? ==> forall i: nat :: !OccursAt(buffer, HEADER_TERMINATOR, i)
  {
    Find(buffer, HEADER_TERMINATOR)
  }

  predicate IsDigit(b: Byte) { 48 <= b <= 57 }

  /** The value of a run of decimal digits, most significant first. */
  function DigitsValue(ds: seq<Byte>): nat
    requires forall i :: 0 <= i < |ds| ==> IsDigit(ds[i])
  {
    if ds == [] then 0
    else
      var last := ds[|ds| - 1];
      assert IsDigit(last);
      DigitsValue(ds[..|ds| - 1]) * 10 + (last - 48)
  }

  /** `str::parse::<usize>()`: an optional `+`, then at least one digit, and a value that fits. */
  function ParseUsize(s: seq<Byte>): Option<nat> {
    var digits := if |s| > 0 && s[0] == PLUS then s[1..] else s;
    if digits != [] && (forall i :: 0 <= i < |digits| ==> IsDigit(digits[i])) && DigitsValue(digits) < USIZE_LIMIT
    then Some(DigitsValue(digits))
    else None
  }

  /** The decimal text of `n`, as `format!` writes a `Content-Length`. */
  function Decimal(n: nat): (r: seq<Byte>)
    ensures r != [] && forall i :: 0 <= i < |r| ==> IsDigit(r[i])
  {
    if n < 10 then [48 + n] else Decimal(n / 10) + [48 + n % 10]
  }

  lemma {:induction false} DecimalValue(n: nat)
    ensures DigitsValue(Decimal(n)) == n
  {
    if n >= 10 {
      var d := Decimal(n);
      assert d[..|d| - 1] == Decimal(n / 10);
      DecimalValue(n / 10);
    }
  }

  /** A length written in decimal reads back as the same number. */
  lemma ParseUsizeDecimal(n: nat)
    requires n < USIZE_LIMIT
    ensures ParseUsize(Decimal(n)) == Some(n)
  {
    DecimalValue(n);
  }

  /** A header line with a `:` yields its trimmed, lower-cased name and its trimmed value; any other line is skipped. */
  function HeaderField(line: seq<Byte>): Option<(seq<Byte>, seq<Byte>)> {
    if IsBlank(line, IsAsciiWhitespace) then None
    else match SplitOnce(line, COLON)
      case None => None
      case Some(nv) =>
        Some((AsciiLowerBytes(Trim(nv.0, IsAsciiWhitespace)), Trim(nv.1, IsAsciiWhitespace)))
  }

  /** A `content-length` field whose value is not a number or exceeds the body limit. */
  predicate BadLength(line: seq<Byte>) {
    var f := HeaderField(line);
    f.Some? && f.value.0 == CONTENT_LENGTH &&
    (ParseUsize(f.value.1).None? || ParseUsize(f.value.1).value > MAX_REQUEST_BODY_BYTES)
  }

  /** What one header line does to the headers and the expected body length. */
  function HeaderStep(line: seq<Byte>, headers: Query, contentLength: nat): Result<(Query, nat), WebError> {
    match HeaderField(line)
    case None => Ok((headers, contentLength))
    case Some(kv) =>
      if kv.0 == CONTENT_LENGTH then
        match ParseUsize(kv.1)
        case None => Err(BadRequest("Invalid content-length"))
        case Some(n) =>
          if n > MAX_REQUEST_BODY_BYTES then Err(BadRequest("Request body too large"))
          else Ok((headers[kv.0 := kv.1], n))
      else Ok((headers[kv.0 := kv.1], contentLength))
  }

  /** The header-line loop: each field is inserted (later ones win) and a `content-length` field sets the expected body length. */
  function HeaderFold(lines: seq<seq<Byte>>, headers: Query, contentLength: nat): Result<(Query, nat), WebError>
    decreases |lines|
  {
    if lines == [] then Ok((headers, contentLength))
    else match HeaderStep(lines[0], headers, contentLength)
      case Err(e) => Err(e)
      case Ok(hc) => HeaderFold(lines[1..], hc.0, hc.1)
  }

  /** The `for line in lines` loop of `read_request`, mutating `headers` and `content_length`. */
  method ParseHeaderLines(lines: seq<seq<Byte>>) returns (r: Result<(Query, nat), WebError>)
    ensures r == HeaderFold(lines, map[], 0)
  {
    var headers: Query := map[];
    var contentLength: nat := 0;
    for i := 0 to |lines|
      invariant HeaderFold(lines[i..], headers, contentLength) == HeaderFold(lines, map[], 0)
    {
      assert lines[i..][1..] == lines[i + 1..];
      var field := HeaderField(lines[i]);
      if field.None? {
        continue;
      }
      var key := field.value.0;
      var val := field.value.1;
      if key == CONTENT_LENGTH {
        var parsed := ParseUsize(val);
        if parsed.None? {
          return Err(BadRequest("Invalid content-length"));
        }
        contentLength := parsed.value;
        if contentLength > MAX_REQUEST_BODY_BYTES {
          return Err(BadRequest("Request body too large"));
        }
      }
      headers := headers[key := val];
    }
    r := Ok((headers, contentLength));
  }

  /** The body length the stored headers declare: the `content-length` value, or 0 without one. */
  function DeclaredLength(headers: Query): nat {
    if CONTENT_LENGTH in headers then ParseUsize(headers[CONTENT_LENGTH]).GetOr(0) else 0
  }

  /** A header name as the parser stores it: trimmed and lower-case. */
  predicate NormalKey(k: seq<Byte>) {
    AsciiLowerBytes(k) == k && Trim(k, IsAsciiWhitespace) == k
  }

  /** Lower-casing keeps a trimmed name trimmed, and is idempotent. */
  lemma LowerTrimmedIsNormal(t: seq<Byte>)
    requires Trim(t, IsAsciiWhitespace) == t
    ensures NormalKey(AsciiLowerBytes(t))
  {
    var l := AsciiLowerBytes(t);
    assert AsciiLowerBytes(l) == l;
    if t != [] {
      assert !IsAsciiWhitespace(t[0]) && !IsAsciiWhitespace(t[|t| - 1]);
    }
    TrimTrimmed(l, IsAsciiWhitespace);
  }

  lemma FieldKeyNormal(line: seq<Byte>)
    requires HeaderField(line).Some?
    ensures NormalKey(HeaderField(line).value.0)
  {
    var nv := SplitOnce(line, COLON).value;
    TrimIdempotent(nv.0, IsAsciiWhitespace);
    LowerTrimmedIsNormal(Trim(nv.0, IsAsciiWhitespace));
  }

  /** What every state of the header loop satisfies. */
  predicate HeadersInvariant(headers: Query, contentLength: nat) {
    && contentLength == DeclaredLength(headers)
    && contentLength <= MAX_REQUEST_BODY_BYTES
    && (CONTENT_LENGTH in headers ==> ParseUsize(headers[CONTENT_LENGTH]) == Some(contentLength))
    && (forall k :: k in headers ==> NormalKey(k))
  }

  /** One line fails the loop exactly when it is a bad `content-length` field. */
  lemma HeaderStepFails(line: seq<Byte>, headers: Query, contentLength: nat)
    ensures HeaderStep(line, headers, contentLength).Err? <==> BadLength(line)
  {
  }

  /** A line that is accepted keeps the header invariant. */
  lemma HeaderStepKeepsInvariant(line: seq<Byte>, headers: Query, contentLength: nat)
    requires HeadersInvariant(headers, contentLength)
    requires HeaderStep(line, headers, contentLength).Ok?
    ensures
      var hc := HeaderStep(line, headers, contentLength).value;
      HeadersInvariant(hc.0, hc.1)
  {
    var field := HeaderField(line);
    if field.Some? {
      FieldKeyNormal(line);
      var kv := field.value;
      var next := headers[kv.0 := kv.1];
      if kv.0 == CONTENT_LENGTH {
        var n := ParseUsize(kv.1).value;
        assert next[CONTENT_LENGTH] == kv.1;
        assert DeclaredLength(next) == n;
      } else {
        assert CONTENT_LENGTH in next <==> CONTENT_LENGTH in headers;
        assert CONTENT_LENGTH in headers ==> next[CONTENT_LENGTH] == headers[CONTENT_LENGTH];
        assert DeclaredLength(next) == DeclaredLength(headers);
      }
    }
  }

  /** The header loop fails exactly when some line is a `content-length` field with a non-numeric or oversized value. */
  lemma {:induction false} HeaderFoldFails(lines: seq<seq<Byte>>, headers: Query, contentLength: nat)
    ensures HeaderFold(lines, headers, contentLength).Err? <==> exists i :: 0 <= i < |lines| && BadLength(lines[i])
    decreases |lines|
  {
    if lines != [] {
      var tail := lines[1..];
      HeaderStepFails(lines[0], headers, contentLength);
      var step := HeaderStep(lines[0], headers, contentLength);
      if step.Ok? {
        HeaderFoldFails(tail, step.value.0, step.value.1);
        if exists i :: 0 <= i < |lines| && BadLength(lines[i]) {
          var i :| 0 <= i < |lines| && BadLength(lines[i]);
          assert tail[i - 1] == lines[i];
        }
        if exists i :: 0 <= i < |tail| && BadLength(tail[i]) {
          var i :| 0 <= i < |tail| && BadLength(tail[i]);
          assert lines[i + 1] == tail[i];
        }
      }
    }
  }

  /** A successful header loop ends with trimmed lower-case keys and the body length its stored `content-length` declares. */
  lemma {:induction false} HeaderFoldKeepsInvariant(lines: seq<seq<Byte>>, headers: Query, contentLength: nat)
    requires HeadersInvariant(headers, contentLength)
    requires HeaderFold(lines, headers, contentLength).Ok?
    ensures
      var hc := HeaderFold(lines, headers, contentLength).value;
      HeadersInvariant(hc.0, hc.1)
    decreases |lines|
  {
    if lines != [] {
      HeaderStepKeepsInvariant(lines[0], headers, contentLength);
      var step := HeaderStep(lines[0], headers, contentLength).value;
      HeaderFoldKeepsInvariant(lines[1..], step.0, step.1);
    }
  }

  /** Length of the leading run of non-whitespace bytes. */
  function TokenLength(s: seq<Byte>): (n: nat)
    ensures n <= |s|
    ensures forall i :: 0 <= i < n ==> !IsAsciiWhitespace(s[i])
    ensures n < |s| ==> IsAsciiWhitespace(s[n])
  {
    if s == [] || IsAsciiWhitespace(s[0]) then 0 else 1 + TokenLength(s[1..])
  }

  /** One step of `split_whitespace`: the next token and the text after it. */
  function NextToken(s: seq<Byte>): (r: Option<(seq<Byte>, seq<Byte>)>)
    ensures r.None? <==> forall i :: 0 <= i < |s| ==> IsAsciiWhitespace(s[i])
    ensures r.Some? ==> r.value.0 != [] && forall i :: 0 <= i < |r.value.0| ==> !IsAsciiWhitespace(r.value.0[i])
  {
    var t := TrimStart(s, IsAsciiWhitespace);
    TrimStartSuffix(s, IsAsciiWhitespace);
    assert t != [] ==> t[0] == s[|s| - |t|];
    if t == [] then None
    else
      var n := TokenLength(t);
      Some((t[..n], t[n..]))
  }

  datatype RequestHead = RequestHead(httpMethod: seq<Byte>, path: seq<Byte>, query: Query, headers: Query, contentLength: nat)

  /** Everything `read_request` does with the bytes before the terminator. */
  function ParseHead(header: seq<Byte>): Result<RequestHead, WebError> {
    var lines := Split(header, CRLF);
    match NextToken(lines[0])
    case None => Err(BadRequest("Missing method"))
    case Some(m) =>
      match NextToken(m.1)
      case None => Err(BadRequest("Missing target"))
      case Some(t) =>
        var pq := ParseTarget(t.0);
        match HeaderFold(lines[1..], map[], 0)
        case Err(e) => Err(e)
        case Ok(hc) => Ok(RequestHead(m.0, pq.0, pq.1, hc.0, hc.1))
  }

  /**
   * The head parses unless the request line lacks a method or a target, or
   * a header line declares a malformed or oversized `content-length`.
   */
  lemma ParseHeadFails(header: seq<Byte>)
    ensures
      var lines := Split(header, CRLF);
      ParseHead(header).Err? <==>
        || NextToken(lines[0]).None?
        || NextToken(NextToken(lines[0]).value.1).None?
        || exists i :: 1 <= i < |lines| && BadLength(lines[i])
  {
    var lines := Split(header, CRLF);
    HeaderFoldFails(lines[1..], map[], 0);
    ExistsInTail(lines, BadLength);
  }

  /** A parsed head has a method, trimmed lower-case header names, and the body length its `content-length` declares. */
  lemma ParseHeadInvariant(header: seq<Byte>)
    requires ParseHead(header).Ok?
    ensures
      var head := ParseHead(header).value;
      HeadersInvariant(head.headers, head.contentLength) && head.httpMethod != []
  {
    var lines := Split(header, CRLF);
    HeaderFoldKeepsInvariant(lines[1..], map[], 0);
  }

  // ---------------------------------------------------------------------------
  // Reading a request from the stream

  /** One `stream.read`: some bytes (none means end of stream), or an I/O failure. */
  datatype ReadResult = Bytes(data: seq<Byte>) | ReadFailed

  /** Everything the peer delivers from read `i` on, up to end of stream or the first failure. */
  function ReceivedFrom(chunks: seq<ReadResult>, i: nat): seq<Byte>
    decreases |chunks| - i
  {
    if i >= |chunks| then []
    else match chunks[i]
      case ReadFailed => []
      case Bytes(data) => if data == [] then [] else data + ReceivedFrom(chunks, i + 1)
  }

  function Received(chunks: seq<ReadResult>): seq<Byte> { ReceivedFrom(chunks, 0) }

  datatype HeadRead = HeadRead(buffer: seq<Byte>, end: nat, next: nat)

  /** The first loop of `read_request`: read until the terminator shows, checking the size after each read. */
  function ReadHead(chunks: seq<ReadResult>, i: nat, buffer: seq<Byte>): (r: Result<HeadRead, WebError>)
    ensures r.Ok? ==> r.value.end + 4 <= |r.value.buffer| <= MAX_REQUEST_HEADER_BYTES
    ensures r.Ok? ==> i < r.value.next <= |chunks|
    decreases |chunks| - i
  {
    if i >= |chunks| then Err(BadRequest("Empty request"))
    else match chunks[i]
      case ReadFailed => Err(BadRequest("Failed to read request"))
      case Bytes(data) =>
        if data == [] then Err(BadRequest("Empty request"))
        else
          var grown := buffer + data;
          if |grown| > MAX_REQUEST_HEADER_BYTES then Err(BadRequest("Request headers too large"))
          else match FindHeaderEnd(grown)
            case Some(h) => Ok(HeadRead(grown, h, i + 1))
            case None => ReadHead(chunks, i + 1, grown)
  }

  /** The second loop: read until the body holds `contentLength` bytes, then truncate. */
  function ReadBody(chunks: seq<ReadResult>, i: nat, body: seq<Byte>, contentLength: nat): Result<seq<Byte>, WebError>
    decreases |chunks| - i
  {
    if |body| >= contentLength then Ok(body[..contentLength])
    else if i >= |chunks| then Err(BadRequest("Unexpected EOF in request body"))
    else match chunks[i]
      case ReadFailed => Err(BadRequest("Failed to read request body"))
      case Bytes(data) =>
        if data == [] then Err(BadRequest("Unexpected EOF in request body"))
        else
          var grown := body + data;
          if |grown| > MAX_REQUEST_BODY_BYTES then Err(BadRequest("Request body too large"))
          else ReadBody(chunks, i + 1, grown, contentLength)
  }

  datatype HttpRequest = HttpRequest(httpMethod: seq<Byte>, path: seq<Byte>, query: Query, headers: Query, body: seq<Byte>)

  function ReadRequestSpec(chunks: seq<ReadResult>): Result<HttpRequest, WebError> {
    match ReadHead(chunks, 0, [])
    case Err(e) => Err(e)
    case Ok(hr) =>
      match ParseHead(hr.buffer[..hr.end])
      case Err(e) => Err(e)
      case Ok(head) =>
        match ReadBody(chunks, hr.next, hr.buffer[hr.end + 4..], head.contentLength)
        case Err(e) => Err(e)
        case Ok(body) => Ok(HttpRequest(head.httpMethod, head.path, head.query, head.headers, body))
  }

  /** The header-reading loop of `read_request`. */
  method ReadHeadLoop(chunks: seq<ReadResult>) returns (r: Result<HeadRead, WebError>)
    ensures r == ReadHead(chunks, 0, [])
  {
    var buffer: seq<Byte> := [];
    var i := 0;
    while true
      invariant i <= |chunks|
      invariant ReadHead(chunks, i, buffer) == ReadHead(chunks, 0, [])
      decreases |chunks| - i
    {
      if i == |chunks| {
        return Err(BadRequest("Empty request"));
      }
      match chunks[i]
      case ReadFailed =>
        return Err(BadRequest("Failed to read request"));
      case Bytes(data) =>
        if data == [] {
          return Err(BadRequest("Empty request"));
        }
        buffer := buffer + data;
        i := i + 1;
        if |buffer| > MAX_REQUEST_HEADER_BYTES {
          return Err(BadRequest("Request headers too large"));
        }
        var found := FindHeaderEnd(buffer);
        if found.Some? {
          return Ok(HeadRead(buffer, found.value, i));
        }
    }
  }

  /** The body-reading loop of `read_request`, from read `start` on with the bytes already buffered. */
  method ReadBodyLoop(chunks: seq<ReadResult>, start: nat, initial: seq<Byte>, contentLength: nat) returns (r: Result<seq<Byte>, WebError>)
    ensures r == ReadBody(chunks, start, initial, contentLength)
  {
    var body := initial;
    var i := start;
    while |body| < contentLength
      invariant ReadBody(chunks, i, body, contentLength) == ReadBody(chunks, start, initial, contentLength)
      decreases |chunks| - i
    {
      if i >= |chunks| {
        return Err(BadRequest("Unexpected EOF in request body"));
      }
      match chunks[i]
      case ReadFailed =>
        return Err(BadRequest("Failed to read request body"));
      case Bytes(data) =>
        if data == [] {
          return Err(BadRequest("Unexpected EOF in request body"));
        }
        body := body + data;
        i := i + 1;
        if |body| > MAX_REQUEST_BODY_BYTES {
          return Err(BadRequest("Request body too large"));
        }
    }
    r := Ok(body[..contentLength]);
  }

  /** `read_request`, with the stream's successive reads given as `chunks`. */
  method ReadRequest(chunks: seq<ReadResult>) returns (r: Result<HttpRequest, WebError>)
    ensures r == ReadRequestSpec(chunks)
  {
    var read := ReadHeadLoop(chunks);
    if read.Err? {
      return Err(read.error);
    }
    var buffer, headerEnd := read.value.buffer, read.value.end;
    var head := ParseHead(buffer[..headerEnd]);
    if head.Err? {
      return Err(head.error);
    }
    var lines := Split(buffer[..headerEnd], CRLF);
    var fields := ParseHeaderLines(lines[1..]);
    assert fields.Ok? && fields.value == (head.value.headers, head.value.contentLength);
    var body := ReadBodyLoop(chunks, read.value.next, buffer[headerEnd + 4..], fields.value.1);
    if body.Err? {
      return Err(body.error);
    }
    r := Ok(HttpRequest(head.value.httpMethod, head.value.path, head.value.query, fields.value.0, body.value));
  }

  /** The accepted head is the first terminator of the whole stream, and its buffer never passed the limit. */
  lemma {:induction false} ReadHeadSound(chunks: seq<ReadResult>, i: nat, buffer: seq<Byte>)
    requires Find(buffer, HEADER_TERMINATOR).None?
    requires ReadHead(chunks, i, buffer).Ok?
    ensures
      var hr := ReadHead(chunks, i, buffer).value;
      && Find(buffer + ReceivedFrom(chunks, i), HEADER_TERMINATOR) == Some(hr.end)
      && hr.end + 4 <= |hr.buffer| <= MAX_REQUEST_HEADER_BYTES
      && hr.buffer + ReceivedFrom(chunks, hr.next) == buffer + ReceivedFrom(chunks, i)
    decreases |chunks| - i
  {
    var data := chunks[i].data;
    var grown := buffer + data;
    assert ReceivedFrom(chunks, i) == data + ReceivedFrom(chunks, i + 1);
    assert buffer + ReceivedFrom(chunks, i) == grown + ReceivedFrom(chunks, i + 1);
    if Find(grown, HEADER_TERMINATOR).Some? {
      assert FindHeaderEnd(grown) == Find(grown, HEADER_TERMINATOR);
      FindExtend(grown, ReceivedFrom(chunks, i + 1), HEADER_TERMINATOR);
    } else {
      ReadHeadSound(chunks, i + 1, grown);
    }
  }

  /** The body is the first `contentLength` bytes of what follows, so the stream must deliver at least that many. */
  lemma {:induction false} ReadBodySound(chunks: seq<ReadResult>, i: nat, body: seq<Byte>, contentLength: nat)
    requires ReadBody(chunks, i, body, contentLength).Ok?
    ensures
      var all := body + ReceivedFrom(chunks, i);
      contentLength <= |all| && ReadBody(chunks, i, body, contentLength).value == all[..contentLength]
    decreases |chunks| - i
  {
    if |body| < contentLength {
      var data := chunks[i].data;
      assert ReceivedFrom(chunks, i) == data + ReceivedFrom(chunks, i + 1);
      assert body + ReceivedFrom(chunks, i) == (body + data) + ReceivedFrom(chunks, i + 1);
      ReadBodySound(chunks, i + 1, body + data, contentLength);
    }
  }

  /**
   * A request's head as it sits in the received bytes: the header ends at the
   * stream's first CR LF CR LF, within 64 KiB; the bytes before it parse to
   * the request's method, path, query and headers; the body length is the
   * declared `content-length` (at most 512 KiB); names are normalised.
   */
  predicate HeadFramed(rx: seq<Byte>, req: HttpRequest) {
    && FindHeaderEnd(rx).Some?
    && var h := FindHeaderEnd(rx).value;
    && h + 4 <= MAX_REQUEST_HEADER_BYTES
    && ParseHead(rx[..h]) == Ok(RequestHead(req.httpMethod, req.path, req.query, req.headers, |req.body|))
    && |req.body| == DeclaredLength(req.headers) <= MAX_REQUEST_BODY_BYTES
    && forall k :: k in req.headers ==> NormalKey(k)
  }

  /** The body is the bytes that directly follow the 4-byte terminator. */
  predicate BodyFramed(rx: seq<Byte>, body: seq<Byte>) {
    && FindHeaderEnd(rx).Some?
    && var h := FindHeaderEnd(rx).value;
    && h + 4 + |body| <= |rx|
    && body == rx[h + 4..h + 4 + |body|]
  }

  /**
   * What a successfully read request is, in terms of the bytes received. So
   * a stream without a terminator, a longer header, a bad `content-length`
   * or a short body all give an error.
   */
  lemma {:induction false} ReadRequestSound(chunks: seq<ReadResult>, req: HttpRequest)
    requires ReadRequestSpec(chunks) == Ok(req)
    ensures HeadFramed(Received(chunks), req)
    ensures BodyFramed(Received(chunks), req.body)
  {
    ReadRequestStages(chunks);
    var hr := ReadHead(chunks, 0, []).value;
    var head := ParseHead(hr.buffer[..hr.end]).value;
    HeadFromStream(chunks);
    ParseHeadInvariant(hr.buffer[..hr.end]);
    var after := hr.buffer[hr.end + 4..];
    ReadBodySound(chunks, hr.next, after, head.contentLength);
    var rx := Received(chunks);
    HeadFramedFromParts(rx, req, hr.buffer, hr.end, head);
    BodyFramedFromParts(rx, hr.end, after + ReceivedFrom(chunks, hr.next), head.contentLength, req.body);
  }

  /** `HeadFramed`, from the facts the first two stages establish. */
  lemma HeadFramedFromParts(rx: seq<Byte>, req: HttpRequest, buffer: seq<Byte>, h: nat, head: RequestHead)
    requires h + 4 <= |buffer| <= MAX_REQUEST_HEADER_BYTES
    requires FindHeaderEnd(rx) == Some(h)
    requires rx[..h] == buffer[..h]
    requires ParseHead(buffer[..h]) == Ok(head)
    requires HeadersInvariant(head.headers, head.contentLength)
    requires |req.body| == head.contentLength
    requires req.httpMethod == head.httpMethod && req.path == head.path && req.query == head.query && req.headers == head.headers
    ensures HeadFramed(rx, req)
  {
    assert RequestHead(req.httpMethod, req.path, req.query, req.headers, |req.body|) == head;
  }

  /** `BodyFramed`, from the facts the last stage establishes. */
  lemma BodyFramedFromParts(rx: seq<Byte>, h: nat, suffix: seq<Byte>, n: nat, body: seq<Byte>)
    requires FindHeaderEnd(rx) == Some(h)
    requires suffix == rx[h + 4..]
    requires n <= |suffix| && body == suffix[..n]
    ensures BodyFramed(rx, body)
  {
  }

  /** A successful read passes all three stages, and the request is assembled from their results. */
  lemma {:induction false} ReadRequestStages(chunks: seq<ReadResult>)
    requires ReadRequestSpec(chunks).Ok?
    ensures ReadHead(chunks, 0, []).Ok?
    ensures
      var hr := ReadHead(chunks, 0, []).value;
      && ParseHead(hr.buffer[..hr.end]).Ok?
      && var head := ParseHead(hr.buffer[..hr.end]).value;
      && ReadBody(chunks, hr.next, hr.buffer[hr.end + 4..], head.contentLength).Ok?
      && ReadRequestSpec(chunks).value ==
           HttpRequest(head.httpMethod, head.path, head.query, head.headers,
                       ReadBody(chunks, hr.next, hr.buffer[hr.end + 4..], head.contentLength).value)
  {
  }

  /** The head the first loop accepts, restated over the whole received stream. */
  lemma {:induction false} HeadFromStream(chunks: seq<ReadResult>)
    requires ReadHead(chunks, 0, []).Ok?
    ensures
      var rx := Received(chunks);
      var hr := ReadHead(chunks, 0, []).value;
      && FindHeaderEnd(rx) == Some(hr.end)
      && rx[..hr.end] == hr.buffer[..hr.end]
      && rx[hr.end + 4..] == hr.buffer[hr.end + 4..] + ReceivedFrom(chunks, hr.next)
  {
    var rx := Received(chunks);
    var hr := ReadHead(chunks, 0, []).value;
    ReadHeadSound(chunks, 0, []);
    assert [] + rx == rx;
    ConcatSlices(hr.buffer, ReceivedFrom(chunks, hr.next), hr.end);
  }

  lemma ConcatSlices(a: seq<Byte>, b: seq<Byte>, k: nat)
    requires k + 4 <= |a|
    ensures (a + b)[..k] == a[..k]
    ensures (a + b)[k + 4..] == a[k + 4..] + b
  {
  }

  // ---------------------------------------------------------------------------
  // Token check

  /** The token a request supplies: the `x-codex-monitor-token` header, else the `token` query parameter, else empty. */
  function SuppliedToken(request: HttpRequest): seq<Byte> {
    if TOKEN_HEADER in request.headers then request.headers[TOKEN_HEADER]
    else if TOKEN_PARAM in request.query then request.query[TOKEN_PARAM]
    else []
  }

  /** `validate_token` */
  function ValidateToken(request: HttpRequest, expected: seq<Byte>): (r: Result<(), WebError>)
    ensures r.Ok? <==> SuppliedToken(request) == expected
    ensures r.Err? ==> r.error == Unauthorized("Unauthorized")
  {
    if SuppliedToken(request) == expected then Ok(()) else Err(Unauthorized("Unauthorized"))
  }

  /**
   * The header takes precedence: when it is present, the query parameter is
   * never consulted; without either, only an empty expected token would be
   * met, so with the server's non-empty token such a request is refused.
   */
  lemma ValidateTokenPrecedence(request: HttpRequest, other: Query, expected: seq<Byte>)
    ensures TOKEN_HEADER in request.headers ==>
      ValidateToken(request, expected) == ValidateToken(request.(query := other), expected)
    ensures TOKEN_HEADER in request.headers ==>
      (ValidateToken(request, expected).Ok? <==> request.headers[TOKEN_HEADER] == expected)
    ensures TOKEN_HEADER !in request.headers && TOKEN_PARAM !in request.query && expected != [] ==>
      ValidateToken(request, expected) == Err(Unauthorized("Unauthorized"))
  {
  }
}
