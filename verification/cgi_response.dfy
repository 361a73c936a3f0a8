/**
 * The CGI response parser of the gateway handler (src/serve/frontend.rs:249-283):
 * the CGI program's captured stdout is read line by line as a header block
 * (section 6 of RFC 3875) up to the first empty line; the rest is the body.
 *
 * Quirks reproduced from the handler:
 *  - lines starting with "getEnvs " are diagnostic echo and are skipped;
 *  - the name is the text before the first ':' and exactly one character
 *    after that ':' is dropped from the value;
 *  - a `Status` value is the decimal number in its first three bytes
 *    (section 6.3.3 of RFC 3875), the last one wins, and 200 is the default.
 */
module CgiResponse {
  import opened Results
  import opened Text
  import opened Lines

  datatype Header = Header(name: Bytes, value: Bytes)

  /** Status code, headers in arrival order, and the unread rest of the output. */
  datatype Response = Response(status: nat, headers: seq<Header>, body: Bytes)

  const DefaultStatus: nat := 200
  const DiagnosticPrefix: string := "getEnvs "
  const StatusName: string := "Status"

  /** tchar (section 3.2.6 of RFC 7230): the bytes `HeaderName::from_str` accepts. */
  predicate IsTokenChar(c: char) {
    IsDigit(c) || ('a' <= c <= 'z') || IsUpper(c) || c in "!#$%&'*+-.^_`|~"
  }

  predicate ValidHeaderName(name: Bytes) {
    |name| > 0 && forall i | 0 <= i < |name| :: IsTokenChar(name[i])
  }

  /** The bytes `HeaderValue::from_str` accepts. */
  predicate IsValueByte(c: char) {
    (32 <= c as int && c as int != 127) || c == '\t'
  }

  predicate ValidHeaderValue(value: Bytes) {
    forall i | 0 <= i < |value| :: IsValueByte(value[i])
  }

  /** The range `StatusCode::from_u16` accepts when the response is built. */
  predicate IsValidStatus(code: nat) {
    100 <= code < 1000
  }

  /** `u16::from_str` on the three status bytes: an optional '+' then decimal digits. */
  function ParseStatusCode(s: Bytes): (r: Option<nat>)
    requires |s| == 3
    ensures r.Some? <==> IsDigits(s) || (s[0] == '+' && IsDigits(s[1..]))
    ensures IsDigits(s) ==> r == Some(DigitsValue(s))
    ensures s[0] == '+' && IsDigits(s[1..]) ==> r == Some(DigitsValue(s[1..]))
    ensures r.Some? ==> r.value < 1000
  {
    if s[0] == '+' then
      (if IsDigits(s[1..]) then Some(DigitsValue(s[1..])) else None)
    else if IsDigits(s) then Some(DigitsValue(s))
    else None
  }

  /** A signed status parses, but to a two-digit number, which the response builder refuses. */
  lemma SignedStatusInvalid(s: Bytes)
    requires |s| == 3 && s[0] == '+'
    ensures ParseStatusCode(s).Some? ==> !IsValidStatus(ParseStatusCode(s).value)
  {
    assert Pow10(2) == 100;
  }

  /** `split_once(':')` followed by `&val[1..]`, which panics when no whole character follows the colon. */
  function SplitHeaderLine(line: Bytes): (r: Result<(Bytes, Bytes)>)
    ensures r == Err(MissingColon) <==> ':' !in line
    ensures r.Err? ==> r.error in {MissingColon, Panic}
    ensures ':' in line ==> (r.Ok? <==> IsCharBoundary(SplitOnce(line, ':').value.1, 1))
    ensures r.Ok? ==>
      var (name, value) := r.value;
      && ':' !in name
      && |line| == |name| + 2 + |value|
      && line[..|name| + 1] == name + [':']
      && line[|name| + 2..] == value
  {
    match SplitOnce(line, ':')
    case None => Err(MissingColon)
    case Some((name, rest)) =>
      if IsCharBoundary(rest, 1) then
        assert line[..|name| + 1] == name + [':'];
        assert line[|name| + 2..] == rest[1..];
        Ok((name, rest[1..]))
      else Err(Panic)
  }

  /** The headers the handler can emit: accepted by the HTTP library and not a `Status` line. */
  predicate Emittable(h: Header) {
    h.name != StatusName && ValidHeaderName(h.name) && ValidHeaderValue(h.value)
  }

  /** An empty line ("", LF or CR LF) is never a UTF-8 failure. */
  lemma BlankLineIsUtf8(chunk: Bytes)
    ensures Content(chunk) == [] ==> IsUtf8(chunk)
  {
    if Content(chunk) == [] {
      assert IsAscii(chunk);
      AsciiIsUtf8(chunk);
    }
  }

  /** What one line read from the output means to the header loop. */
  datatype LineKind =
    | Blank
    | Diagnostic
    | StatusLine(code: nat)
    | HeaderLine(header: Header)
    | Bad(error: Error)

  /** One iteration of the header loop on a chunk read from the output. */
  function Classify(chunk: Bytes): (k: LineKind)
    ensures k.Blank? <==> Content(chunk) == []
    ensures k.HeaderLine? ==> Emittable(k.header)
  {
    if !IsUtf8(chunk) then
      BlankLineIsUtf8(chunk);
      Bad(InvalidUtf8)
    else
      var line := Content(chunk);
      if |line| == 0 then Blank
      else if StartsWith(line, DiagnosticPrefix) then Diagnostic
      else
        match SplitHeaderLine(line)
        case Err(e) => Bad(e)
        case Ok((name, value)) =>
          if name == StatusName then
            if !IsCharBoundary(value, 3) then Bad(Panic)
            else
              match ParseStatusCode(value[..3])
              case None => Bad(InvalidStatus)
              case Some(code) => StatusLine(code)
          else if ValidHeaderName(name) && ValidHeaderValue(value) then HeaderLine(Header(name, value))
          else Bad(InvalidHeader)
  }

  /** A line of valid UTF-8 starting with "Status:" is a Status line or fails: it is never taken as a header. */
  lemma ClassifyStatusPrefix(chunk: Bytes)
    ensures IsUtf8(chunk) && StartsWith(Content(chunk), StatusName + ":") ==>
      Classify(chunk).StatusLine? || Classify(chunk).Bad?
  {
    var line := Content(chunk);
    if IsUtf8(chunk) && StartsWith(line, StatusName + ":") {
      assert line[0] != DiagnosticPrefix[0];
      assert line == StatusName + [':'] + line[7..];
      SplitOnceAfter(line, StatusName, line[7..], ':');
    }
  }

  /** When a line is skipped, ends the block, or fails for want of a colon or of valid UTF-8. */
  lemma ClassifyBasics(chunk: Bytes)
    ensures Classify(chunk) == Bad(InvalidUtf8) <==> !IsUtf8(chunk)
    ensures Classify(chunk).Blank? <==> Content(chunk) == []
    ensures Classify(chunk).Diagnostic? <==> IsUtf8(chunk) && StartsWith(Content(chunk), DiagnosticPrefix)
    ensures Classify(chunk) == Bad(MissingColon) <==>
      IsUtf8(chunk) && Content(chunk) != [] && !StartsWith(Content(chunk), DiagnosticPrefix) && ':' !in Content(chunk)
  {
    var line := Content(chunk);
    if IsUtf8(chunk) && |line| > 0 && !StartsWith(line, DiagnosticPrefix) {
      var r := SplitHeaderLine(line);
      assert r.Err? ==> r.error != InvalidUtf8;
    }
  }

  /** A Status line carries the number in the three bytes after "Status:" and the one dropped character. */
  lemma ClassifyStatusMeaning(chunk: Bytes)
    ensures Classify(chunk).StatusLine? ==>
      var line := Content(chunk);
      |line| >= 11 && line[..7] == StatusName + ":" && ParseStatusCode(line[8..11]) == Some(Classify(chunk).code)
  {
    var line := Content(chunk);
    if Classify(chunk).StatusLine? {
      var (name, value) := SplitHeaderLine(line).value;
      assert value[..3] == line[8..11];
    }
  }

  /** A header line is its name, the colon, one dropped character and its value. */
  lemma ClassifyHeaderMeaning(chunk: Bytes)
    ensures Classify(chunk).HeaderLine? ==>
      var line := Content(chunk);
      var n := |Classify(chunk).header.name|;
      && Emittable(Classify(chunk).header)
      && |line| >= n + 2
      && line == Classify(chunk).header.name + [':', line[n + 1]] + Classify(chunk).header.value
  {
    if Classify(chunk).HeaderLine? {
      var line := Content(chunk);
      var (name, value) := SplitHeaderLine(line).value;
      Reassemble(line, name, value);
    }
  }

  lemma Reassemble(line: Bytes, name: Bytes, value: Bytes)
    requires |line| == |name| + 2 + |value|
    requires line[..|name| + 1] == name + [':'] && line[|name| + 2..] == value
    ensures line == name + [':', line[|name| + 1]] + value
  {
    var n := |name|;
    assert line == line[..n + 1] + [line[n + 1]] + line[n + 2..];
  }

  /** `builder.status(status_code).body(..)`: the builder rejects a code outside 100..999. */
  function Finish(status: nat, headers: seq<Header>, body: Bytes): (r: Result<Response>)
    ensures r.Ok? <==> IsValidStatus(status)
    ensures r.Ok? ==> r.value == Response(status, headers, body)
  {
    if IsValidStatus(status) then Ok(Response(status, headers, body)) else Err(InvalidStatus)
  }

  /** The header loop over the chunks still to be read, with the status and headers gathered so far. */
  function Scan(chunks: seq<Bytes>, status: nat, acc: seq<Header>): (r: Result<Response>)
    ensures r.Ok? && (forall i | 0 <= i < |acc| :: Emittable(acc[i])) ==>
      forall i | 0 <= i < |r.value.headers| :: Emittable(r.value.headers[i])
    ensures r.Ok? ==> IsValidStatus(r.value.status) && StartsWith(r.value.headers, acc)
    decreases |chunks|
  {
    if |chunks| == 0 then Finish(status, acc, [])
    else
      match Classify(chunks[0])
      case Bad(e) => Err(e)
      case Blank => Finish(status, acc, Concat(chunks[1..]))
      case Diagnostic => Scan(chunks[1..], status, acc)
      case StatusLine(code) => Scan(chunks[1..], code, acc)
      case HeaderLine(h) =>
        var r := Scan(chunks[1..], status, acc + [h]);
        AllEmittableAppend(acc, h);
        if r.Ok? then PrefixOfExtension(r.value.headers, acc, h); r else r
  }

  lemma AllEmittableAppend(acc: seq<Header>, h: Header)
    requires Emittable(h)
    ensures (forall i | 0 <= i < |acc| :: Emittable(acc[i])) ==> forall i | 0 <= i < |acc + [h]| :: Emittable((acc + [h])[i])
  {
  }

  lemma PrefixOfExtension(headers: seq<Header>, acc: seq<Header>, h: Header)
    requires StartsWith(headers, acc + [h])
    ensures StartsWith(headers, acc)
  {
    assert headers[..|acc|] == (acc + [h])[..|acc|] == acc;
  }

  /** The status a line of this kind leaves behind. */
  function StatusAfter(k: LineKind, status: nat): nat {
    match k
    case StatusLine(code) => code
    case _ => status
  }

  /** The header a line of this kind contributes. */
  function Emitted(k: LineKind): seq<Header> {
    match k
    case HeaderLine(h) => [h]
    case _ => []
  }

  /** One step of the loop past a line that is neither empty nor failing. */
  lemma ScanStep(chunks: seq<Bytes>, status: nat, acc: seq<Header>)
    requires |chunks| > 0 && !Classify(chunks[0]).Blank? && !Classify(chunks[0]).Bad?
    ensures var k := Classify(chunks[0]);
      Scan(chunks, status, acc) == Scan(chunks[1..], StatusAfter(k, status), acc + Emitted(k))
  {
    match Classify(chunks[0])
    case Diagnostic => assert acc + [] == acc;
    case StatusLine(_) => assert acc + [] == acc;
    case HeaderLine(_) =>
  }

  /** The whole parser: the CGI program's stdout to a response or an application error. */
  function Parse(out: Bytes): (r: Result<Response>)
    ensures r.Ok? ==> IsValidStatus(r.value.status)
    ensures r.Ok? ==> forall i | 0 <= i < |r.value.headers| :: Emittable(r.value.headers[i])
  {
    Scan(Chunks(out), DefaultStatus, [])
  }
}
