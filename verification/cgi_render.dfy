/**
 * The other side of the CGI response format: the stdout a CGI program writes
 * to answer with a status, header fields and a body (section 6 of RFC 3875),
 * and the round trip of that output through the gateway's parser.
 */
module CgiRender {
  import opened Results
  import opened Text
  import opened Lines
  import opened CgiResponse

  /** "name: value" and LF: the one space after the colon is the character the parser drops. */
  function HeaderText(h: Header): Bytes {
    h.name + ": " + h.value + "\n"
  }

  function HeadersText(hs: seq<Header>): Bytes {
    if |hs| == 0 then [] else HeaderText(hs[0]) + HeadersText(hs[1..])
  }

  function HeaderLines(hs: seq<Header>): seq<Bytes> {
    if |hs| == 0 then [] else [HeaderText(hs[0])] + HeaderLines(hs[1..])
  }

  function StatusText(code: nat): Bytes {
    "Status: " + Decimal(code) + "\n"
  }

  /** The output of a CGI program answering with `r`: a Status line, the headers, an empty line, the body. */
  function Render(r: Response): Bytes {
    StatusText(r.status) + HeadersText(r.headers) + "\n" + r.body
  }

  /** Headers a CGI program can send through the gateway unchanged. */
  predicate Renderable(h: Header) {
    Emittable(h) && IsUtf8(h.value)
  }

  lemma DecimalOfStatus(code: nat)
    requires IsValidStatus(code)
    ensures |Decimal(code)| == 3
  {
    var q := code / 10;
    assert Decimal(code) == Decimal(q) + [(code % 10 + '0' as int) as char];
    assert Decimal(q) == Decimal(q / 10) + [(q % 10 + '0' as int) as char];
  }

  lemma AsciiAppend(a: seq<char>, b: seq<char>)
    requires IsAscii(a) && IsAscii(b)
    ensures IsAscii(a + b)
  {
  }

  lemma StatusChunkText(chunk: Bytes, line: Bytes, digits: Bytes)
    requires line == "Status: " + digits && chunk == line + "\n"
    requires IsDigits(digits)
    ensures IsUtf8(chunk) && Content(chunk) == line
  {
    assert IsAscii(digits);
    AsciiAppend("Status: ", digits);
    AsciiAppend(line, "\n");
    AsciiIsUtf8(chunk);
    assert line[|line| - 1] != '\r';
    ContentOfLine(line, chunk);
  }

  lemma SplitStatusText(line: Bytes, digits: Bytes)
    requires line == "Status: " + digits
    ensures |line| > 0 && !StartsWith(line, DiagnosticPrefix)
    ensures IsDigits(digits) && |digits| > 0 ==> SplitHeaderLine(line) == Ok((StatusName, digits))
  {
    assert line[0] != DiagnosticPrefix[0];
    var rest := " " + digits;
    assert line == StatusName + [':'] + rest;
    SplitOnceAfter(line, StatusName, rest, ':');
    assert rest[1..] == digits;
  }

  lemma ClassifyStatusLine(chunk: Bytes, line: Bytes, digits: Bytes, code: nat)
    requires line == "Status: " + digits && chunk == line + "\n"
    requires IsDigits(digits) && |digits| == 3 && DigitsValue(digits) == code
    ensures Classify(chunk) == StatusLine(code)
  {
    StatusChunkText(chunk, line, digits);
    SplitStatusText(line, digits);
    assert digits[..3] == digits;
  }

  lemma StatusTextIsStatusLine(code: nat)
    requires IsValidStatus(code)
    ensures Classify(StatusText(code)) == StatusLine(code)
  {
    DecimalOfStatus(code);
    ClassifyStatusLine(StatusText(code), "Status: " + Decimal(code), Decimal(code), code);
  }

  lemma HeaderChunkText(chunk: Bytes, line: Bytes, h: Header)
    requires Renderable(h)
    requires line == h.name + ": " + h.value && chunk == line + "\n"
    ensures IsUtf8(chunk) && Content(chunk) == line
  {
    TokenHeadIsAscii(h.name);
    HeaderLineUtf8(h.name + ": ", h.value, line, chunk);
    if |h.value| > 0 {
      assert line[|line| - 1] == h.value[|h.value| - 1];
      assert IsValueByte(h.value[|h.value| - 1]);
    } else {
      assert line[|line| - 1] == ' ';
    }
    ContentOfLine(line, chunk);
  }

  lemma TokenHeadIsAscii(name: Bytes)
    requires ValidHeaderName(name)
    ensures IsAscii(name + ": ")
  {
    var head := name + ": ";
    forall i | 0 <= i < |head| ensures head[i] as int < 0x80 {
      if i < |name| {
        assert IsTokenChar(name[i]);
      }
    }
  }

  lemma HeaderLineUtf8(head: Bytes, value: Bytes, line: Bytes, chunk: Bytes)
    requires IsAscii(head) && IsUtf8(value)
    requires line == head + value && chunk == line + "\n"
    ensures IsUtf8(chunk)
  {
    AsciiIsUtf8(head);
    AsciiIsUtf8("\n");
    Utf8Append(head, value);
    Utf8Append(line, "\n");
  }

  lemma SplitHeaderText(line: Bytes, h: Header)
    requires Renderable(h)
    requires line == h.name + ": " + h.value
    ensures |line| > 0 && !StartsWith(line, DiagnosticPrefix)
    ensures SplitHeaderLine(line) == Ok((h.name, h.value))
  {
    HeaderTextNotDiagnostic(line, h.name, h.value);
    assert forall i | 0 <= i < |h.name| :: h.name[i] != ':' by {
      forall i | 0 <= i < |h.name| ensures h.name[i] != ':' {
        assert IsTokenChar(h.name[i]);
      }
    }
    HeaderTextSplits(line, h.name, h.value);
  }

  /** A token name cannot contain the space at index 7 of "getEnvs ". */
  lemma HeaderTextNotDiagnostic(line: Bytes, name: Bytes, value: Bytes)
    requires ValidHeaderName(name)
    requires line == name + ": " + value
    ensures |line| > 0 && !StartsWith(line, DiagnosticPrefix)
  {
    if |name| < 8 {
      assert line[|name|] == ':' != DiagnosticPrefix[|name|];
    } else {
      assert line[7] == name[7] != ' ';
    }
  }

  lemma HeaderTextSplits(line: Bytes, name: Bytes, value: Bytes)
    requires ':' !in name && IsUtf8(value)
    requires line == name + ": " + value
    ensures SplitHeaderLine(line) == Ok((name, value))
  {
    var rest := " " + value;
    assert line == name + [':'] + rest;
    SplitOnceAfter(line, name, rest, ':');
    if |value| > 0 {
      Utf8StartsOnBoundary(value);
      assert rest[1] == value[0];
    }
    assert IsCharBoundary(rest, 1);
    assert rest[1..] == value;
  }

  lemma ClassifyHeaderLine(chunk: Bytes, line: Bytes, h: Header)
    requires Renderable(h)
    requires line == h.name + ": " + h.value && chunk == line + "\n"
    ensures Classify(chunk) == HeaderLine(h)
  {
    HeaderChunkText(chunk, line, h);
    SplitHeaderText(line, h);
  }

  lemma HeaderTextIsHeaderLine(h: Header)
    requires Renderable(h)
    ensures Classify(HeaderText(h)) == HeaderLine(h)
  {
    ClassifyHeaderLine(HeaderText(h), h.name + ": " + h.value, h);
  }

  lemma HeaderTextIsOneLine(h: Header)
    requires Renderable(h)
    ensures Chunks(HeaderText(h)) == [HeaderText(h)]
  {
    var line := h.name + ": " + h.value;
    assert '\n' !in line;
    ChunksOfLine(line);
  }

  lemma {:induction false} ChunksOfHeaders(hs: seq<Header>, rest: Bytes)
    requires forall i | 0 <= i < |hs| :: Renderable(hs[i])
    ensures Chunks(HeadersText(hs) + rest) == HeaderLines(hs) + Chunks(rest)
    decreases |hs|
  {
    if |hs| == 0 {
      assert HeadersText(hs) + rest == rest;
    } else {
      var t, more := HeaderText(hs[0]), HeadersText(hs[1..]);
      ChunksOfHeaders(hs[1..], rest);
      HeaderTextIsOneLine(hs[0]);
      AppendAssoc(t, more, rest);
      ChunksAppend(t, more + rest);
      AppendAssoc([t], HeaderLines(hs[1..]), Chunks(rest));
    }
  }

  lemma ChunksOfBlankThen(b: Bytes)
    ensures Chunks("\n" + b) == ["\n"] + Chunks(b)
  {
    ChunksOfLine([]);
    assert [] + ['\n'] == "\n";
    ChunksAppend("\n", b);
  }

  /** Splitting a rendered output: a first line, then a header block `hs`, then the rest `tail`. */
  lemma ChunksOfParts(out: Bytes, s: Bytes, hs: Bytes, tail: Bytes, lines: seq<Bytes>, more: seq<Bytes>)
    requires out == s + hs + tail
    requires |s| > 0 && s[|s| - 1] == '\n' && Chunks(s) == [s]
    requires Chunks(hs + tail) == lines + more
    ensures Chunks(out) == [s] + (lines + more)
  {
    AppendAssoc(s, hs, tail);
    ChunksAppend(s, hs + tail);
  }

  lemma StatusTextIsOneLine(code: nat)
    ensures var s := StatusText(code); |s| > 0 && s[|s| - 1] == '\n' && Chunks(s) == [s]
  {
    var line := "Status: " + Decimal(code);
    assert forall i | 0 <= i < |line| :: line[i] != '\n' by {
      forall i | 8 <= i < |line| ensures line[i] != '\n' {
        assert line[i] == Decimal(code)[i - 8];
      }
    }
    ChunksOfLine(line);
  }

  lemma ChunksOfRender(r: Response)
    requires forall i | 0 <= i < |r.headers| :: Renderable(r.headers[i])
    ensures Chunks(Render(r)) == [StatusText(r.status)] + (HeaderLines(r.headers) + (["\n"] + Chunks(r.body)))
  {
    var s, hs, b := StatusText(r.status), HeadersText(r.headers), r.body;
    ChunksOfBlankThen(b);
    ChunksOfHeaders(r.headers, "\n" + b);
    StatusTextIsOneLine(r.status);
    AppendAssoc(s + hs, "\n", b);
    ChunksOfParts(Render(r), s, hs, "\n" + b, HeaderLines(r.headers), ["\n"] + Chunks(b));
  }

  lemma ScanAtBlank(chunks: seq<Bytes>, rest: seq<Bytes>, status: nat, acc: seq<Header>)
    requires chunks == ["\n"] + rest
    ensures Scan(chunks, status, acc) == Finish(status, acc, Concat(rest))
  {
    assert Content("\n") == [];
    assert chunks[0] == "\n" && chunks[1..] == rest;
  }

  lemma HeaderLinesCons(hs: seq<Header>, rest: seq<Bytes>, chunks: seq<Bytes>)
    requires |hs| > 0 && chunks == HeaderLines(hs) + (["\n"] + rest)
    ensures |chunks| > 0 && chunks[0] == HeaderText(hs[0])
    ensures chunks[1..] == HeaderLines(hs[1..]) + (["\n"] + rest)
  {
    AppendAssoc([HeaderText(hs[0])], HeaderLines(hs[1..]), ["\n"] + rest);
  }

  lemma ScanHeaderStep(chunks: seq<Bytes>, h: Header, status: nat, acc: seq<Header>)
    requires |chunks| > 0 && Classify(chunks[0]) == HeaderLine(h)
    ensures Scan(chunks, status, acc) == Scan(chunks[1..], status, acc + [h])
  {
    ScanStep(chunks, status, acc);
  }

  lemma {:induction false} ScanHeaderLines(hs: seq<Header>, rest: seq<Bytes>, status: nat, acc: seq<Header>)
    requires forall i | 0 <= i < |hs| :: Renderable(hs[i])
    ensures Scan(HeaderLines(hs) + (["\n"] + rest), status, acc) == Finish(status, acc + hs, Concat(rest))
    decreases |hs|
  {
    var chunks := HeaderLines(hs) + (["\n"] + rest);
    if |hs| == 0 {
      assert HeaderLines(hs) == [];
      ScanAtBlank(chunks, rest, status, acc);
      assert acc + hs == acc;
    } else {
      HeaderLinesCons(hs, rest, chunks);
      HeaderTextIsHeaderLine(hs[0]);
      ScanHeaderStep(chunks, hs[0], status, acc);
      ScanHeaderLines(hs[1..], rest, status, acc + [hs[0]]);
      AppendAssoc(acc, [hs[0]], hs[1..]);
      assert [hs[0]] + hs[1..] == hs;
    }
  }

  lemma ParseRendered(out: Bytes, s: Bytes, r: Response)
    requires IsValidStatus(r.status) && forall i | 0 <= i < |r.headers| :: Renderable(r.headers[i])
    requires s == StatusText(r.status)
    requires Chunks(out) == [s] + (HeaderLines(r.headers) + (["\n"] + Chunks(r.body)))
    ensures Parse(out) == Ok(r)
  {
    var chunks := Chunks(out);
    StatusTextIsStatusLine(r.status);
    ScanStep(chunks, DefaultStatus, []);
    assert chunks[1..] == HeaderLines(r.headers) + (["\n"] + Chunks(r.body));
    ScanHeaderLines(r.headers, Chunks(r.body), r.status, []);
    assert [] + r.headers == r.headers;
  }

  /** Whatever a CGI program answers with a Status line, valid headers and a body, the gateway
      responds with exactly that status, those headers in that order, and that body. */
  lemma RenderParseRoundTrip(r: Response)
    requires IsValidStatus(r.status)
    requires forall i | 0 <= i < |r.headers| :: Renderable(r.headers[i])
    ensures Parse(Render(r)) == Ok(r)
  {
    ChunksOfRender(r);
    ParseRendered(Render(r), StatusText(r.status), r);
  }
}
