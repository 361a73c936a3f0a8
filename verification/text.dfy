/**
 * Byte and string helpers with the semantics of the Rust standard library
 * operations the gateway uses (`split_once`, `split`, `starts_with`, `trim`,
 * `to_ascii_lowercase`, UTF-8 validation and char-boundary slicing).
 *
 * A byte is carried as a `char` whose code is below 256, so that ASCII string
 * literals such as "Status" can be compared with raw bytes directly.
 */
module Text {
  import opened Results

  type byte = c: char | c as int < 256 witness '\0'
  type Bytes = seq<byte>

  predicate StartsWith<T(==)>(s: seq<T>, prefix: seq<T>) {
    |prefix| <= |s| && s[..|prefix|] == prefix
  }

  /** Substring test (`str::contains`). */
  predicate Contains<T(==)>(s: seq<T>, sub: seq<T>) {
    exists i | 0 <= i <= |s| :: StartsWith(s[i..], sub)
  }

  /** Position of the first `x` in `s`. */
  function IndexOf<T(==)>(s: seq<T>, x: T): (r: Option<nat>)
    ensures r.None? <==> x !in s
    ensures r.Some? ==> r.value < |s| && s[r.value] == x && x !in s[..r.value]
  {
    if |s| == 0 then None
    else if s[0] == x then Some(0)
    else
      match IndexOf(s[1..], x)
      case None => None
      case Some(i) => assert s[1..][..i] == s[1..i + 1]; Some(i + 1)
  }

  /** `split_once(sep)`: the text before the first `sep` and the text after it. */
  function SplitOnce<T(==)>(s: seq<T>, sep: T): (r: Option<(seq<T>, seq<T>)>)
    ensures r.None? <==> sep !in s
    ensures r.Some? ==> s == r.value.0 + [sep] + r.value.1 && sep !in r.value.0
  {
    match IndexOf(s, sep)
    case None => None
    case Some(i) =>
      assert s == s[..i] + [sep] + s[i + 1..];
      Some((s[..i], s[i + 1..]))
  }

  /** `split_once` finds the first separator right after a separator-free head. */
  lemma SplitOnceAfter<T>(s: seq<T>, a: seq<T>, b: seq<T>, sep: T)
    requires s == a + [sep] + b && sep !in a
    ensures SplitOnce(s, sep) == Some((a, b))
  {
    var (x, y) := SplitOnce(s, sep).value;
    assert s[|a|] == sep && s[|x|] == sep;
    assert forall i | 0 <= i < |a| :: s[i] == a[i];
    assert forall i | 0 <= i < |x| :: s[i] == x[i];
    assert |x| == |a|;
    assert x == a;
    assert y == s[|a| + 1..] == b;
  }

  /** `parts` joined back together with `sep` between neighbours. */
  function JoinWith<T>(parts: seq<seq<T>>, sep: T): seq<T>
    requires |parts| >= 1
  {
    if |parts| == 1 then parts[0] else parts[0] + [sep] + JoinWith(parts[1..], sep)
  }

  /** `split(sep)`: every maximal `sep`-free piece, empty pieces included. */
  function Split<T(==)>(s: seq<T>, sep: T): (r: seq<seq<T>>)
    ensures |r| >= 1
    ensures forall i | 0 <= i < |r| :: sep !in r[i]
    ensures JoinWith(r, sep) == s
    decreases |s|
  {
    match SplitOnce(s, sep)
    case None => [s]
    case Some((a, b)) =>
      var rest := Split(b, sep);
      assert ([a] + rest)[1..] == rest;
      [a] + rest
  }

  predicate IsUpper(c: char) { 'A' <= c <= 'Z' }

  /** `char::to_ascii_lowercase`: only A-Z change. */
  function LowerChar(c: char): char {
    if IsUpper(c) then (c as int + 32) as char else c
  }

  /** `str::to_ascii_lowercase`. */
  function ToLower(s: string): (r: string)
    ensures |r| == |s|
    ensures forall i | 0 <= i < |r| :: !IsUpper(r[i])
    ensures forall i | 0 <= i < |r| :: r[i] == s[i] || (IsUpper(s[i]) && r[i] as int == s[i] as int + 32)
  {
    seq(|s|, i requires 0 <= i < |s| => LowerChar(s[i]))
  }

  /** Lowercasing leaves a string without upper-case letters unchanged. */
  lemma ToLowerOfLower(s: string)
    requires forall i | 0 <= i < |s| :: !IsUpper(s[i])
    ensures ToLower(s) == s
  {
  }

  /** Whitespace in the sense of `char::is_whitespace`, restricted to ASCII. */
  predicate IsSpace(c: char) {
    c == ' ' || '\t' <= c <= '\r'
  }

  function TrimStart(s: string): (r: string)
    ensures |r| <= |s| && s[|s| - |r|..] == r
    ensures |r| > 0 ==> !IsSpace(r[0])
    ensures forall i | 0 <= i < |s| - |r| :: IsSpace(s[i])
    decreases |s|
  {
    if |s| > 0 && IsSpace(s[0]) then TrimStart(s[1..]) else s
  }

  function TrimEnd(s: string): (r: string)
    ensures |r| <= |s| && s[..|r|] == r
    ensures |r| > 0 ==> !IsSpace(r[|r| - 1])
    ensures forall i | |r| <= i < |s| :: IsSpace(s[i])
    decreases |s|
  {
    if |s| > 0 && IsSpace(s[|s| - 1]) then TrimEnd(s[..|s| - 1]) else s
  }

  /** `str::trim` on text that holds no non-ASCII character. */
  function Trim(s: string): string {
    TrimStart(TrimEnd(s))
  }

  /** The bytes `HeaderValue::to_str` accepts: visible ASCII and horizontal tab. */
  predicate IsVisibleAscii(c: char) {
    (32 <= c as int < 127) || c == '\t'
  }

  /** `HeaderValue::to_str`: the value as text when every byte is visible ASCII. */
  function ToStr(v: Bytes): (r: Option<string>)
    ensures r.Some? <==> forall i | 0 <= i < |v| :: IsVisibleAscii(v[i])
    ensures r.Some? ==> r.value == v
  {
    if forall i | 0 <= i < |v| :: IsVisibleAscii(v[i]) then Some(v) else None
  }

  /** `to_str().unwrap_or_default()`. */
  function ToStrOrEmpty(v: Bytes): string {
    ToStr(v).GetOr("")
  }

  predicate IsDigit(c: char) { '0' <= c <= '9' }

  predicate IsDigits(s: seq<char>) {
    forall i | 0 <= i < |s| :: IsDigit(s[i])
  }

  function Pow10(n: nat): (r: nat)
    ensures r >= 1
  {
    if n == 0 then 1 else 10 * Pow10(n - 1)
  }

  /** The number a string of decimal digits denotes. */
  function DigitsValue(s: seq<char>): (v: nat)
    requires IsDigits(s)
    ensures v < Pow10(|s|)
  {
    if |s| == 0 then 0 else DigitsValue(s[..|s| - 1]) * 10 + (s[|s| - 1] as int - '0' as int)
  }

  /** `n.to_string()` for an unsigned integer. */
  function Decimal(n: nat): (r: string)
    ensures |r| >= 1 && IsDigits(r)
    ensures DigitsValue(r) == n
    ensures n < 10 <==> |r| == 1
    ensures r[0] == '0' ==> n == 0
    decreases n
  {
    var last := [(n % 10 + '0' as int) as char];
    if n < 10 then last
    else
      var r := Decimal(n / 10) + last;
      assert r[..|r| - 1] == Decimal(n / 10);
      r
  }

  // UTF-8 well-formedness, byte by byte, following the table of section 4 of RFC 3629.

  predicate IsContinuation(b: char) { 0x80 <= b as int <= 0xBF }

  predicate InRange(b: char, lo: int, hi: int) { lo <= b as int <= hi }

  /** Length of the well-formed UTF-8 sequence `s` starts with, or 0 when it starts with none. */
  function CharWidth(s: Bytes): (n: nat)
    requires |s| > 0
    ensures n <= 4 && n <= |s|
    ensures s[0] as int < 0x80 <==> n == 1
  {
    var b := s[0] as int;
    if b < 0x80 then 1
    else if 0xC2 <= b <= 0xDF then
      (if |s| >= 2 && IsContinuation(s[1]) then 2 else 0)
    else if b == 0xE0 then
      (if |s| >= 3 && InRange(s[1], 0xA0, 0xBF) && IsContinuation(s[2]) then 3 else 0)
    else if 0xE1 <= b <= 0xEC || 0xEE <= b <= 0xEF then
      (if |s| >= 3 && IsContinuation(s[1]) && IsContinuation(s[2]) then 3 else 0)
    else if b == 0xED then
      (if |s| >= 3 && InRange(s[1], 0x80, 0x9F) && IsContinuation(s[2]) then 3 else 0)
    else if b == 0xF0 then
      (if |s| >= 4 && InRange(s[1], 0x90, 0xBF) && IsContinuation(s[2]) && IsContinuation(s[3]) then 4 else 0)
    else if 0xF1 <= b <= 0xF3 then
      (if |s| >= 4 && IsContinuation(s[1]) && IsContinuation(s[2]) && IsContinuation(s[3]) then 4 else 0)
    else if b == 0xF4 then
      (if |s| >= 4 && InRange(s[1], 0x80, 0x8F) && IsContinuation(s[2]) && IsContinuation(s[3]) then 4 else 0)
    else 0
  }

  /** `str::from_utf8` succeeds. */
  predicate IsUtf8(s: Bytes)
    decreases |s|
  {
    |s| == 0 || (CharWidth(s) > 0 && IsUtf8(s[CharWidth(s)..]))
  }

  predicate IsAscii(s: seq<char>) {
    forall i | 0 <= i < |s| :: s[i] as int < 0x80
  }

  lemma {:induction false} AsciiIsUtf8(s: Bytes)
    requires IsAscii(s)
    ensures IsUtf8(s)
    decreases |s|
  {
    if |s| > 0 {
      assert CharWidth(s) == 1;
      AsciiIsUtf8(s[1..]);
    }
  }

  lemma CharWidthExtends(a: Bytes, b: Bytes)
    requires |a| > 0 && CharWidth(a) > 0
    ensures CharWidth(a + b) == CharWidth(a)
  {
    assert forall i | 0 <= i < |a| :: (a + b)[i] == a[i];
  }

  lemma {:induction false} Utf8Append(a: Bytes, b: Bytes)
    requires IsUtf8(a) && IsUtf8(b)
    ensures IsUtf8(a + b)
    decreases |a|
  {
    if |a| == 0 {
      assert a + b == b;
    } else {
      var n := CharWidth(a);
      CharWidthExtends(a, b);
      assert (a + b)[n..] == a[n..] + b;
      Utf8Append(a[n..], b);
    }
  }

  /** Well-formed UTF-8 never starts in the middle of a character. */
  lemma Utf8StartsOnBoundary(s: Bytes)
    requires IsUtf8(s) && |s| > 0
    ensures !IsContinuation(s[0])
  {
  }

  /** Slicing a `str` at byte `i` does not panic: `i` is in range and on a char boundary. */
  predicate IsCharBoundary(s: Bytes, i: nat) {
    i <= |s| && (i == 0 || i == |s| || !IsContinuation(s[i]))
  }
}
