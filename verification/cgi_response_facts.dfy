/**
 * Properties of the CGI response parser, stated against a reference reading
 * of the output that does not follow the handler's loop: cut the output at
 * the first empty line, then take the first failing line, the last Status
 * line and the remaining header lines of that block separately.
 */
module CgiResponseFacts {
  import opened Results
  import opened Text
  import opened Lines
  import opened CgiResponse

  /** Index of the first chunk that reads as an empty line, or the number of chunks when none does. */
  function BlankIndex(chunks: seq<Bytes>): (k: nat)
    ensures k <= |chunks|
    ensures forall i | 0 <= i < k :: Content(chunks[i]) != []
    ensures k < |chunks| ==> Content(chunks[k]) == []
  {
    if |chunks| == 0 then 0
    else if Content(chunks[0]) == [] then 0
    else 1 + BlankIndex(chunks[1..])
  }

  /** None of the chunks reads as an empty line. */
  predicate NoBlankLine(chunks: seq<Bytes>)
    decreases |chunks|
  {
    |chunks| == 0 || (Content(chunks[0]) != [] && NoBlankLine(chunks[1..]))
  }

  /** The chunks read as header lines: everything before the first empty line. */
  function HeaderBlock(chunks: seq<Bytes>): seq<Bytes> {
    chunks[..BlankIndex(chunks)]
  }

  /** How the loop reads each chunk of a block. */
  function Kinds(block: seq<Bytes>): (ks: seq<LineKind>)
    ensures |ks| == |block|
    ensures forall i | 0 <= i < |block| :: ks[i] == Classify(block[i])
    decreases |block|
  {
    if |block| == 0 then []
    else
      var rest := Kinds(block[1..]);
      assert forall i | 1 <= i < |block| :: block[i] == block[1..][i - 1];
      [Classify(block[0])] + rest
  }

  /** The error of the first line of the block the loop cannot get past. */
  function FirstError(ks: seq<LineKind>): (r: Option<Error>)
    ensures r.None? <==> forall i | 0 <= i < |ks| :: !ks[i].Bad?
  {
    if |ks| == 0 then None
    else if ks[0].Bad? then Some(ks[0].error)
    else FirstError(ks[1..])
  }

  /** The code of the last Status line of the block, or `status` when it has none. */
  function LastStatus(ks: seq<LineKind>, status: nat): nat
    decreases |ks|
  {
    if |ks| == 0 then status
    else
      match ks[|ks| - 1]
      case StatusLine(code) => code
      case _ => LastStatus(ks[..|ks| - 1], status)
  }

  /** The header lines of the block, in order. */
  function HeadersOf(ks: seq<LineKind>): seq<Header> {
    if |ks| == 0 then []
    else
      Emitted(ks[0]) + HeadersOf(ks[1..])
  }

  /** The bytes after the first empty line; nothing when there is none. */
  function BodyOf(chunks: seq<Bytes>): Bytes {
    var k := BlankIndex(chunks);
    if k < |chunks| then Concat(chunks[k + 1..]) else []
  }

  /** The outcome of a header block followed by a body, given the status and headers before it. */
  function Assemble(ks: seq<LineKind>, body: Bytes, status: nat, acc: seq<Header>): Result<Response> {
    match FirstError(ks)
    case Some(e) => Err(e)
    case None => Finish(LastStatus(ks, status), acc + HeadersOf(ks), body)
  }

  function Reference(chunks: seq<Bytes>, status: nat, acc: seq<Header>): Result<Response> {
    Assemble(Kinds(HeaderBlock(chunks)), BodyOf(chunks), status, acc)
  }

  lemma {:induction false} LastStatusCons(k: LineKind, ks: seq<LineKind>, status: nat)
    ensures LastStatus([k] + ks, status) == LastStatus(ks, StatusAfter(k, status))
    decreases |ks|
  {
    var whole := [k] + ks;
    if |ks| == 0 {
      assert whole[..0] == [];
    } else {
      assert whole[|whole| - 1] == ks[|ks| - 1];
      if !ks[|ks| - 1].StatusLine? {
        assert whole[..|whole| - 1] == [k] + ks[..|ks| - 1];
        LastStatusCons(k, ks[..|ks| - 1], status);
      }
    }
  }

  lemma BlockCons(chunks: seq<Bytes>)
    requires |chunks| > 0 && Content(chunks[0]) != []
    ensures HeaderBlock(chunks) == [chunks[0]] + HeaderBlock(chunks[1..])
    ensures BodyOf(chunks) == BodyOf(chunks[1..])
  {
    var rest := chunks[1..];
    assert BlankIndex(chunks) == 1 + BlankIndex(rest);
    if BlankIndex(rest) < |rest| {
      assert rest[BlankIndex(rest) + 1..] == chunks[BlankIndex(chunks) + 1..];
    }
  }

  lemma AssembleCons(k: LineKind, ks: seq<LineKind>, body: Bytes, status: nat, acc: seq<Header>)
    requires !k.Bad?
    ensures Assemble([k] + ks, body, status, acc) == Assemble(ks, body, StatusAfter(k, status), acc + Emitted(k))
  {
    assert ([k] + ks)[1..] == ks;
    LastStatusCons(k, ks, status);
    assert acc + Emitted(k) + HeadersOf(ks) == acc + (Emitted(k) + HeadersOf(ks));
  }

  lemma KindsCons(block: seq<Bytes>)
    requires |block| > 0
    ensures Kinds(block) == [Classify(block[0])] + Kinds(block[1..])
  {
  }

  /** Past a line that is neither empty nor failing, the reference reading carries on with the
      rest of the output exactly as the loop does. */
  lemma ReferenceStep(chunks: seq<Bytes>, status: nat, acc: seq<Header>)
    requires |chunks| > 0 && !Classify(chunks[0]).Blank? && !Classify(chunks[0]).Bad?
    ensures var k := Classify(chunks[0]);
      Reference(chunks, status, acc) == Reference(chunks[1..], StatusAfter(k, status), acc + Emitted(k))
  {
    var k := Classify(chunks[0]);
    BlockCons(chunks);
    KindsCons(HeaderBlock(chunks));
    AssembleCons(k, Kinds(HeaderBlock(chunks[1..])), BodyOf(chunks), status, acc);
  }

  /** The handler's loop computes the reference reading. */
  lemma {:induction false} ScanIsReference(chunks: seq<Bytes>, status: nat, acc: seq<Header>)
    ensures Scan(chunks, status, acc) == Reference(chunks, status, acc)
    decreases |chunks|
  {
    if |chunks| == 0 {
      assert HeaderBlock(chunks) == [] && acc + [] == acc;
    } else {
      var c := chunks[0];
      if Classify(c).Blank? {
        assert HeaderBlock(chunks) == [] && acc + [] == acc;
      } else if Classify(c).Bad? {
        assert HeaderBlock(chunks)[0] == c;
      } else {
        var k := Classify(c);
        ScanIsReference(chunks[1..], StatusAfter(k, status), acc + Emitted(k));
        ReferenceStep(chunks, status, acc);
      }
    }
  }

  /** The parse succeeds exactly when no header line fails and the final status is valid; it then
      holds the last Status code (200 when none), the header lines in order and the bytes after the
      first empty line. */
  lemma ParseCharacterization(out: Bytes)
    ensures var ks := Kinds(HeaderBlock(Chunks(out)));
      Parse(out).Ok? <==> FirstError(ks).None? && IsValidStatus(LastStatus(ks, DefaultStatus))
    ensures var ks := Kinds(HeaderBlock(Chunks(out)));
      Parse(out).Ok? ==>
        Parse(out).value == Response(LastStatus(ks, DefaultStatus), HeadersOf(ks), BodyOf(Chunks(out)))
  {
    ScanIsReference(Chunks(out), DefaultStatus, []);
  }

  lemma {:induction false} NoStatusLineKeepsStatus(ks: seq<LineKind>, status: nat)
    requires forall i | 0 <= i < |ks| :: !ks[i].StatusLine?
    ensures LastStatus(ks, status) == status
    decreases |ks|
  {
    if |ks| > 0 {
      NoStatusLineKeepsStatus(ks[..|ks| - 1], status);
    }
  }

  /** Without a Status line in the header block the status is 200, and only a failing line makes
      the parse fail. */
  lemma DefaultStatusIs200(out: Bytes)
    requires var block := HeaderBlock(Chunks(out));
      forall i | 0 <= i < |block| :: !StartsWith(Content(block[i]), StatusName + ":")
    ensures Parse(out).Ok? <==> FirstError(Kinds(HeaderBlock(Chunks(out)))).None?
    ensures Parse(out).Ok? ==> Parse(out).value.status == DefaultStatus
  {
    var block := HeaderBlock(Chunks(out));
    var ks := Kinds(block);
    forall i | 0 <= i < |ks| ensures !ks[i].StatusLine? {
      var c := block[i];
      assert ks[i] == Classify(c);
      ClassifyStatusMeaning(c);
      assert ks[i].StatusLine? ==> StartsWith(Content(c), StatusName + ":");
    }
    ParseCharacterization(out);
    NoStatusLineKeepsStatus(ks, DefaultStatus);
  }

  lemma {:induction false} LastStatusIsLastLine(ks: seq<LineKind>, i: nat, status: nat)
    requires i < |ks| && ks[i].StatusLine?
    requires forall j | i < j < |ks| :: !ks[j].StatusLine?
    ensures LastStatus(ks, status) == ks[i].code
    decreases |ks|
  {
    if i < |ks| - 1 {
      var init := ks[..|ks| - 1];
      assert init[i] == ks[i];
      assert forall j | i < j < |init| :: init[j] == ks[j];
      LastStatusIsLastLine(init, i, status);
    }
  }

  /** The last Status line of the header block decides the status: the decimal value of the three
      bytes after "Status:" and the one dropped character. */
  lemma LastStatusLineWins(out: Bytes, i: nat)
    requires var block := HeaderBlock(Chunks(out));
      && i < |block|
      && StartsWith(Content(block[i]), StatusName + ":")
      && forall j | i < j < |block| :: !StartsWith(Content(block[j]), StatusName + ":")
    ensures var line := Content(HeaderBlock(Chunks(out))[i]);
      Parse(out).Ok? ==> |line| >= 11 && ParseStatusCode(line[8..11]) == Some(Parse(out).value.status)
  {
    var block := HeaderBlock(Chunks(out));
    var ks := Kinds(block);
    ParseCharacterization(out);
    if Parse(out).Ok? {
      assert !ks[i].Bad?;
      ClassifyStatusPrefix(block[i]);
      ClassifyStatusMeaning(block[i]);
      forall j | i < j < |ks| ensures !ks[j].StatusLine? {
        ClassifyStatusMeaning(block[j]);
      }
      LastStatusIsLastLine(ks, i, DefaultStatus);
    }
  }

  /** A Status line whose three status bytes are not a number fails the whole response. */
  lemma NonNumericStatusFails(out: Bytes, i: nat)
    requires var block := HeaderBlock(Chunks(out));
      && i < |block|
      && var line := Content(block[i]);
         StartsWith(line, StatusName + ":") && |line| >= 11 && ParseStatusCode(line[8..11]).None?
    ensures Parse(out).Err?
  {
    var block := HeaderBlock(Chunks(out));
    var line := Content(block[i]);
    ClassifyStatusPrefix(block[i]);
    ClassifyStatusMeaning(block[i]);
    ParseCharacterization(out);
  }

  /** A header line without a colon fails the whole response. */
  lemma MissingColonFails(out: Bytes, i: nat)
    requires var block := HeaderBlock(Chunks(out));
      && i < |block|
      && !StartsWith(Content(block[i]), DiagnosticPrefix)
      && ':' !in Content(block[i])
    ensures Parse(out).Err?
  {
    ClassifyBasics(HeaderBlock(Chunks(out))[i]);
    ParseCharacterization(out);
  }

  /** An empty line read as a chunk is LF or CR LF. */
  lemma BlankChunk(c: Bytes)
    requires IsChunk(c) && Content(c) == []
    ensures c == "\n" || c == "\r\n"
  {
  }

  lemma OutputSplitsAtBlank(out: Bytes)
    ensures var cs := Chunks(out);
      var k := BlankIndex(cs);
      k < |cs| ==> out == Concat(HeaderBlock(cs)) + cs[k] + BodyOf(cs)
    ensures var cs := Chunks(out);
      BlankIndex(cs) == |cs| ==> out == Concat(HeaderBlock(cs))
  {
    var cs := Chunks(out);
    var k := BlankIndex(cs);
    if k < |cs| {
      ConcatAt(cs, k);
    } else {
      assert cs[..k] == cs;
    }
  }

  lemma ConcatAt(cs: seq<Bytes>, k: nat)
    requires k < |cs|
    ensures Concat(cs) == Concat(cs[..k]) + cs[k] + Concat(cs[k + 1..])
  {
    var p, c, r := cs[..k], cs[k], cs[k + 1..];
    var t := [c] + r;
    assert cs == p + t;
    ConcatAppend(p, t);
    ConcatCons(t, c, r);
    AppendAssoc(Concat(p), c, Concat(r));
  }

  lemma ConcatCons(t: seq<Bytes>, c: Bytes, r: seq<Bytes>)
    requires t == [c] + r
    ensures Concat(t) == c + Concat(r)
  {
    assert t[0] == c && t[1..] == r;
  }

  /** The output is the header block, one empty line ending in LF, and the body, unchanged;
      without an empty line the body is empty. */
  lemma ParseBody(out: Bytes)
    requires Parse(out).Ok?
    ensures var block := Concat(HeaderBlock(Chunks(out)));
      var body := Parse(out).value.body;
      || out == block + "\n" + body
      || out == block + "\r\n" + body
      || (out == block && body == [])
  {
    var cs := Chunks(out);
    var k := BlankIndex(cs);
    ParseCharacterization(out);
    OutputSplitsAtBlank(out);
    if k < |cs| {
      ChunksShape(out);
      BlankChunk(cs[k]);
    }
  }

  /** The loop on a known first chunk: a failing one ends it, any other but an empty one is one step. */
  lemma ScanCons(chunks: seq<Bytes>, c: Bytes, rest: seq<Bytes>, status: nat, acc: seq<Header>)
    requires chunks == [c] + rest && Content(c) != []
    ensures Classify(c).Bad? ==> Scan(chunks, status, acc) == Err(Classify(c).error)
    ensures !Classify(c).Bad? ==>
      Scan(chunks, status, acc) == Scan(rest, StatusAfter(Classify(c), status), acc + Emitted(Classify(c)))
  {
    assert chunks[0] == c && chunks[1..] == rest;
    if !Classify(c).Bad? {
      ScanStep(chunks, status, acc);
    }
  }

  lemma SplitHead<T>(pre: seq<T>, mid: seq<T>, post: seq<T>)
    requires |pre| > 0
    ensures pre + mid + post == [pre[0]] + (pre[1..] + mid + post)
  {
    assert pre == [pre[0]] + pre[1..];
  }

  lemma ConsSplit<T>(pre: seq<T>, post: seq<T>)
    requires |pre| > 0
    ensures pre + post == [pre[0]] + (pre[1..] + post)
  {
    assert pre == [pre[0]] + pre[1..];
  }

  lemma AppendEmpty<T>(s: seq<T>)
    ensures s + [] == s
  {
  }

  lemma SkipAtHead(d: Bytes, post: seq<Bytes>, status: nat, acc: seq<Header>)
    requires Classify(d).Diagnostic?
    ensures Scan([d] + post, status, acc) == Scan(post, status, acc)
  {
    ScanCons([d] + post, d, post, status, acc);
    AppendEmpty(acc);
  }

  /** Both outputs start with the same line `c`, so both loops take the same step past it. */
  lemma SameFirstStep(c: Bytes, x: seq<Bytes>, y: seq<Bytes>, status: nat, acc: seq<Header>)
    requires Content(c) != [] && !Classify(c).Bad?
    ensures var k := Classify(c);
      && Scan([c] + x, status, acc) == Scan(x, StatusAfter(k, status), acc + Emitted(k))
      && Scan([c] + y, status, acc) == Scan(y, StatusAfter(k, status), acc + Emitted(k))
  {
    ScanCons([c] + x, c, x, status, acc);
    ScanCons([c] + y, c, y, status, acc);
  }

  lemma SameFirstFailure(c: Bytes, x: seq<Bytes>, y: seq<Bytes>, status: nat, acc: seq<Header>)
    requires Content(c) != [] && Classify(c).Bad?
    ensures Scan([c] + x, status, acc) == Scan([c] + y, status, acc)
  {
    ScanCons([c] + x, c, x, status, acc);
    ScanCons([c] + y, c, y, status, acc);
  }

  lemma {:induction false} ScanSkipsDiagnostic(pre: seq<Bytes>, d: Bytes, post: seq<Bytes>,
                                               with: seq<Bytes>, without: seq<Bytes>, status: nat, acc: seq<Header>)
    requires Classify(d).Diagnostic?
    requires NoBlankLine(pre)
    requires with == pre + [d] + post && without == pre + post
    ensures Scan(with, status, acc) == Scan(without, status, acc)
    decreases |pre|
  {
    if |pre| == 0 {
      assert with == [d] + post;
      assert without == post;
      SkipAtHead(d, post, status, acc);
    } else {
      var c, tail := pre[0], pre[1..];
      var x, y := tail + [d] + post, tail + post;
      assert Content(c) != [] && NoBlankLine(tail);
      SplitHead(pre, [d], post);
      ConsSplit(pre, post);
      assert with == [c] + x;
      assert without == [c] + y;
      if Classify(c).Bad? {
        SameFirstFailure(c, x, y, status, acc);
      } else {
        var k := Classify(c);
        SameFirstStep(c, x, y, status, acc);
        ScanSkipsDiagnostic(tail, d, post, x, y, StatusAfter(k, status), acc + Emitted(k));
      }
    }
  }

  lemma ChunksAroundLine(pre: Bytes, line: Bytes, post: Bytes)
    requires |pre| == 0 || pre[|pre| - 1] == '\n'
    requires '\n' !in line
    ensures Chunks(pre + (line + "\n") + post) == Chunks(pre) + [line + "\n"] + Chunks(post)
  {
    var d := line + "\n";
    ChunksOfLine(line);
    assert Chunks(d) == [d];
    ChunksAppend(d, post);
    ChunksAppend(pre, d + post);
    AppendAssoc(pre, d, post);
    AppendAssoc(Chunks(pre), [d], Chunks(post));
  }

  lemma DiagnosticChunk(note: Bytes)
    requires StartsWith(note, DiagnosticPrefix) && '\n' !in note && IsUtf8(note)
    ensures Classify(note + "\n").Diagnostic?
  {
    var d := note + "\n";
    AsciiIsUtf8("\n");
    Utf8Append(note, "\n");
    assert d[..|d| - 1] == note;
    var line := Content(d);
    if |note| > 0 && note[|note| - 1] == '\r' {
      assert note[7] == ' ' && |note| > |DiagnosticPrefix|;
      assert line == note[..|note| - 1];
      assert line[..|DiagnosticPrefix|] == note[..|DiagnosticPrefix|];
    } else {
      assert line == note;
    }
  }

  /** The chunks of an output with a diagnostic line inserted, and without it. */
  lemma ChunksAroundDiagnostic(pre: Bytes, note: Bytes, post: Bytes, with: Bytes, without: Bytes)
    returns (a: seq<Bytes>, d: Bytes, b: seq<Bytes>)
    requires |pre| == 0 || pre[|pre| - 1] == '\n'
    requires NoBlankLine(Chunks(pre))
    requires StartsWith(note, DiagnosticPrefix) && '\n' !in note && IsUtf8(note)
    requires with == pre + (note + "\n") + post && without == pre + post
    ensures Chunks(with) == a + [d] + b && Chunks(without) == a + b
    ensures Classify(d).Diagnostic? && NoBlankLine(a)
  {
    a, d, b := Chunks(pre), note + "\n", Chunks(post);
    ChunksAroundLine(pre, note, post);
    DiagnosticChunk(note);
    ChunksAppend(pre, post);
  }

  /** A "getEnvs " line anywhere in the header block changes nothing: it is neither a header nor an
      error, and removing it leaves the parse unchanged. */
  lemma DiagnosticLineIgnored(pre: Bytes, note: Bytes, post: Bytes)
    requires |pre| == 0 || pre[|pre| - 1] == '\n'
    requires NoBlankLine(Chunks(pre))
    requires StartsWith(note, DiagnosticPrefix) && '\n' !in note && IsUtf8(note)
    ensures Parse(pre + (note + "\n") + post) == Parse(pre + post)
  {
    var with, without := pre + (note + "\n") + post, pre + post;
    var a, d, b := ChunksAroundDiagnostic(pre, note, post, with, without);
    ScanSkipsDiagnostic(a, d, b, Chunks(with), Chunks(without), DefaultStatus, []);
  }
}
