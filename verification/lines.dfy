/**
 * How `BufRead::lines` walks a `Cursor` over the CGI program's stdout
 * (src/serve/frontend.rs:256-257): each read takes the bytes up to and
 * including the next LF (or up to the end), and the cursor stops right after
 * them, so whatever has not been read yet is exactly the remaining suffix.
 */
module Lines {
  import opened Text

  /** Number of bytes one `read_line` consumes from a non-empty input. */
  function LineLen(out: Bytes): (n: nat)
    requires |out| > 0
    ensures 0 < n <= |out|
    ensures '\n' !in out[..n - 1]
    ensures out[n - 1] == '\n' || (n == |out| && '\n' !in out)
  {
    match IndexOf(out, '\n')
    case Some(i) => i + 1
    case None => |out|
  }

  /** A chunk is non-empty and holds LF at most as its last byte. */
  predicate IsChunk(c: Bytes) {
    |c| > 0 && '\n' !in c[..|c| - 1]
  }

  predicate EndsWithLF(c: Bytes) {
    |c| > 0 && c[|c| - 1] == '\n'
  }

  function Concat(chunks: seq<Bytes>): Bytes {
    if |chunks| == 0 then [] else chunks[0] + Concat(chunks[1..])
  }

  /** The raw chunks successive reads consume, terminators included. */
  function Chunks(out: Bytes): (r: seq<Bytes>)
    ensures Concat(r) == out
    decreases |out|
  {
    if |out| == 0 then []
    else
      var n := LineLen(out);
      var rest := Chunks(out[n..]);
      var r := [out[..n]] + rest;
      assert r[1..] == rest;
      assert out == out[..n] + out[n..];
      r
  }

  lemma FirstChunkShape(out: Bytes)
    requires |out| > 0
    ensures IsChunk(out[..LineLen(out)])
    ensures LineLen(out) < |out| ==> EndsWithLF(out[..LineLen(out)])
  {
    var n := LineLen(out);
    assert out[..n][..n - 1] == out[..n - 1];
  }

  /** Every chunk is one line: non-empty, LF only at its end, and LF-terminated unless it is the last. */
  lemma {:induction false} ChunksShape(out: Bytes)
    ensures var r := Chunks(out);
      && (forall i | 0 <= i < |r| :: IsChunk(r[i]))
      && (forall i | 0 <= i < |r| - 1 :: EndsWithLF(r[i]))
    decreases |out|
  {
    if |out| > 0 {
      var n := LineLen(out);
      var rest := Chunks(out[n..]);
      ChunksShape(out[n..]);
      ChunksUnfold(out);
      FirstChunkShape(out);
      var r := Chunks(out);
      assert |rest| > 0 ==> n < |out|;
      forall i | 0 <= i < |r|
        ensures IsChunk(r[i])
        ensures i < |r| - 1 ==> EndsWithLF(r[i])
      {
        if i > 0 {
          assert r[i] == rest[i - 1];
        }
      }
    }
  }

  /** The line `lines()` yields for a chunk: LF removed, then CR removed if it preceded that LF. */
  function Content(chunk: Bytes): (line: Bytes)
    ensures StartsWith(chunk, line)
    ensures |chunk| > 0 && '\n' !in chunk[..|chunk| - 1] ==> '\n' !in line
  {
    if |chunk| > 0 && chunk[|chunk| - 1] == '\n' then
      var c := chunk[..|chunk| - 1];
      if |c| > 0 && c[|c| - 1] == '\r' then c[..|c| - 1] else c
    else chunk
  }

  /** Exactly what `lines()` strips: a final LF, and the CR before it when there is one; nothing else. */
  lemma ContentStrips(chunk: Bytes)
    ensures !EndsWithLF(chunk) ==> Content(chunk) == chunk
    ensures EndsWithLF(chunk) ==>
      var line := Content(chunk);
      chunk == line + "\r\n" || (chunk == line + "\n" && (|line| == 0 || line[|line| - 1] != '\r'))
  {
    if EndsWithLF(chunk) {
      var c := chunk[..|chunk| - 1];
      assert chunk == c + "\n";
      if |c| > 0 && c[|c| - 1] == '\r' {
        assert c == c[..|c| - 1] + "\r";
      }
    }
  }

  /** A line that does not end in CR, terminated by LF, reads back as itself. */
  lemma ContentOfLine(line: Bytes, chunk: Bytes)
    requires chunk == line + "\n"
    requires |line| == 0 || line[|line| - 1] != '\r'
    ensures Content(chunk) == line
  {
    assert chunk[..|chunk| - 1] == line;
  }

  lemma {:induction false} ConcatAppend(a: seq<Bytes>, b: seq<Bytes>)
    ensures Concat(a + b) == Concat(a) + Concat(b)
    decreases |a|
  {
    if |a| == 0 {
      assert a + b == b;
    } else {
      assert (a + b)[1..] == a[1..] + b;
      ConcatAppend(a[1..], b);
    }
  }

  lemma ChunksUnfold(out: Bytes)
    requires |out| > 0
    ensures Chunks(out) == [out[..LineLen(out)]] + Chunks(out[LineLen(out)..])
  {
  }

  /** The first line of `a + b` is the first line of `a` when `a` ends with LF. */
  lemma LineLenAppend(a: Bytes, b: Bytes)
    requires |a| > 0 && a[|a| - 1] == '\n'
    ensures LineLen(a + b) == LineLen(a)
    ensures (a + b)[..LineLen(a)] == a[..LineLen(a)]
  {
    var n := LineLen(a);
    var ab := a + b;
    assert ab[..n] == a[..n];
    assert a[n - 1] == '\n';
    assert ab[..n - 1] == a[..n - 1];
    var i := IndexOf(ab, '\n');
    assert ab[n - 1] == '\n';
  }

  lemma AppendAssoc<T>(x: seq<T>, y: seq<T>, z: seq<T>)
    ensures (x + y) + z == x + (y + z)
  {
  }

  lemma DropAppend(a: Bytes, b: Bytes, n: nat)
    requires n <= |a|
    ensures (a + b)[n..] == a[n..] + b
  {
  }

  /** Reading a prefix that ends at a line boundary, then the rest, reads the same chunks. */
  lemma {:induction false} ChunksAppend(a: Bytes, b: Bytes)
    requires |a| == 0 || a[|a| - 1] == '\n'
    ensures Chunks(a + b) == Chunks(a) + Chunks(b)
    decreases |a|
  {
    if |a| == 0 {
      assert a + b == b;
    } else {
      var n := LineLen(a);
      var ab := a + b;
      LineLenAppend(a, b);
      ChunksUnfold(ab);
      ChunksUnfold(a);
      DropAppend(a, b, n);
      ChunksAppend(a[n..], b);
      var head, x, y := [a[..n]], Chunks(a[n..]), Chunks(b);
      assert Chunks(ab) == head + (x + y);
      AppendAssoc(head, x, y);
    }
  }

  /** A single terminated line is read as one chunk. */
  lemma ChunksOfLine(line: Bytes)
    requires '\n' !in line
    ensures Chunks(line + ['\n']) == [line + ['\n']]
  {
    var c := line + ['\n'];
    assert c[..|c| - 1] == line;
    assert LineLen(c) == |c|;
    ChunksUnfold(c);
    assert c[..|c|] == c;
    assert c[|c|..] == [];
  }
}
