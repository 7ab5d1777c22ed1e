/**
 * Models the masked byte-pattern scanner `find_infix_windows` of
 * `src/bytes.rs`. The rolling XOR decoder of the same file is `RollingXor`.
 */
module Bytes {
  import opened Wrappers
  import opened LittleEndian

  // ---------------------------------------------------------------------------
  // Pattern text: `split_whitespace` and `u8::from_str_radix(_, 16)`
  // ---------------------------------------------------------------------------

  /** Rust's `char::is_whitespace`: the Unicode White_Space property. */
  predicate IsWhitespace(c: char) {
    || '\U{9}' <= c <= '\U{D}'
    || c == ' ' || c == '\U{85}' || c == '\U{A0}' || c == '\U{1680}'
    || '\U{2000}' <= c <= '\U{200A}'
    || c == '\U{2028}' || c == '\U{2029}' || c == '\U{202F}' || c == '\U{205F}' || c == '\U{3000}'
  }

  predicate WhitespaceFree(t: string) {
    forall i :: 0 <= i < |t| ==> !IsWhitespace(t[i])
  }

  /** `s` with every whitespace character removed. */
  function NonWhitespace(s: string): string {
    if s == [] then []
    else if IsWhitespace(s[0]) then NonWhitespace(s[1..])
    else [s[0]] + NonWhitespace(s[1..])
  }

  function Concat(ts: seq<string>): string {
    if ts == [] then [] else ts[0] + Concat(ts[1..])
  }

  /** `split_whitespace`: the maximal runs of non-whitespace characters, in order. */
  function Tokens(s: string): (ts: seq<string>)
    ensures forall k :: 0 <= k < |ts| ==> |ts[k]| > 0 && WhitespaceFree(ts[k])
  {
    TokensFrom(s, [])
  }

  /** Splits `s`, where `run` is the token read so far (just before `s`). */
  function TokensFrom(s: string, run: string): (ts: seq<string>)
    requires WhitespaceFree(run)
    ensures forall k :: 0 <= k < |ts| ==> |ts[k]| > 0 && WhitespaceFree(ts[k])
    decreases |s|
  {
    if s == [] then
      (if run == [] then [] else [run])
    else if IsWhitespace(s[0]) then
      (if run == [] then [] else [run]) + TokensFrom(s[1..], [])
    else
      TokensFrom(s[1..], run + [s[0]])
  }

  lemma {:induction false} TokensFromWord(t: string, run: string)
    requires WhitespaceFree(t) && WhitespaceFree(run) && |run + t| > 0
    ensures TokensFrom(t, run) == [run + t]
    decreases |t|
  {
    if t == [] {
      assert run + t == run;
    } else {
      assert run + t == (run + [t[0]]) + t[1..];
      TokensFromWord(t[1..], run + [t[0]]);
    }
  }

  lemma {:induction false} TokensFromSplit(a: string, c: char, b: string, run: string)
    requires IsWhitespace(c) && WhitespaceFree(run)
    ensures TokensFrom(a + [c] + b, run) == TokensFrom(a, run) + Tokens(b)
    decreases |a|
  {
    if a == [] {
      assert a + [c] + b == [c] + b;
      assert ([c] + b)[1..] == b;
    } else {
      assert (a + [c] + b)[0] == a[0];
      assert (a + [c] + b)[1..] == a[1..] + [c] + b;
      if IsWhitespace(a[0]) {
        TokensFromSplit(a[1..], c, b, []);
      } else {
        TokensFromSplit(a[1..], c, b, run + [a[0]]);
      }
    }
  }

  /** A whitespace character separates: what lies on each side is split independently. */
  lemma {:induction false} TokensSplit(a: string, c: char, b: string)
    requires IsWhitespace(c)
    ensures Tokens(a + [c] + b) == Tokens(a) + Tokens(b)
  {
    TokensFromSplit(a, c, b, []);
  }

  /** A non-empty run without whitespace is a single token. */
  lemma {:induction false} TokensOfWord(t: string)
    requires |t| > 0 && WhitespaceFree(t)
    ensures Tokens(t) == [t]
  {
    TokensFromWord(t, []);
    assert [] + t == t;
  }

  predicate IsHexDigit(c: char) {
    '0' <= c <= '9' || 'a' <= c <= 'f' || 'A' <= c <= 'F'
  }

  function HexDigitValue(c: char): (v: nat)
    requires IsHexDigit(c)
    ensures v < 16
  {
    if '0' <= c <= '9' then c as nat - '0' as nat
    else if 'a' <= c <= 'f' then c as nat - 'a' as nat + 10
    else c as nat - 'A' as nat + 10
  }

  predicate AllHexDigits(d: string) {
    forall i :: 0 <= i < |d| ==> IsHexDigit(d[i])
  }

  /** The value of a string of hex digits, most significant first. */
  function HexValue(d: string): nat
    requires AllHexDigits(d)
  {
    if d == [] then 0 else HexValue(d[..|d| - 1]) * 16 + HexDigitValue(d[|d| - 1])
  }

  /**
   * `u8::from_str_radix(t, 16)`: an optional leading `+`, then one or more hex
   * digits of either case whose value fits in a byte. `None` is the parse
   * error that the original unwraps into a panic.
   */
  function ParseHexByte(t: string): Option<byte> {
    if |t| == 0 then None
    else
      var digits := if t[0] == '+' then t[1..] else t;
      if |digits| == 0 || !AllHexDigits(digits) then None
      else if HexValue(digits) < 256 then Some(HexValue(digits) as bv8)
      else None
  }

  /** Two hex digits parse as the byte they spell. */
  lemma {:induction false} ParseHexPair(hi: char, lo: char)
    requires IsHexDigit(hi) && IsHexDigit(lo)
    ensures ParseHexByte([hi, lo]) == Some((HexDigitValue(hi) * 16 + HexDigitValue(lo)) as bv8)
  {
    var d := [hi, lo];
    assert d[0] != '+';
    assert AllHexDigits(d);
    assert d[..1] == [hi];
    assert [hi][..0] == [];
    assert HexValue([hi]) == HexDigitValue(hi);
    assert HexValue(d) == HexDigitValue(hi) * 16 + HexDigitValue(lo);
  }

  // ---------------------------------------------------------------------------
  // Masked patterns and the sliding-window scan
  // ---------------------------------------------------------------------------

  /** One pattern position: `??` (matches any byte) or a byte that must match. */
  datatype Mask = Any | Exact(b: byte)

  type Pattern = seq<Mask>

  function ParseToken(t: string): Option<Mask> {
    if t == "??" then Some(Any)
    else match ParseHexByte(t)
      case Some(b) => Some(Exact(b))
      case None => None
  }

  function ParseTokens(ts: seq<string>): (r: Option<Pattern>)
    ensures r.Some? ==> |r.value| == |ts|
  {
    if ts == [] then Some([])
    else match ParseToken(ts[0])
      case None => None
      case Some(m) =>
        match ParseTokens(ts[1..])
        case None => None
        case Some(p) => Some([m] + p)
  }

  /** The pattern a needle string denotes, or `None` if some token would panic. */
  function ParsePattern(needle: string): Option<Pattern> {
    ParseTokens(Tokens(needle))
  }

  /** A needle whose every token is `??` or a byte in hex: the needles that do not panic. */
  predicate WellFormedNeedle(needle: string) {
    ParsePattern(needle).Some?
  }

  /** The window of `h` starting at `i` exists and agrees with `p` at every unmasked position. */
  predicate MatchesAt(h: seq<byte>, p: Pattern, i: nat) {
    && i + |p| <= |h|
    && forall j :: 0 <= j < |p| ==> p[j].Any? || p[j].b == h[i + j]
  }

  /** The scan from window `from` on; the iterator `windows(|p|).position(..)`. */
  function FirstMatchFrom(h: seq<byte>, p: Pattern, from: nat): (r: Option<nat>)
    ensures r.Some? ==> from <= r.value && MatchesAt(h, p, r.value)
    ensures r.Some? ==> forall i :: from <= i < r.value ==> !MatchesAt(h, p, i)
    ensures r.None? <==> forall i :: from <= i ==> !MatchesAt(h, p, i)
    decreases |h| - from
  {
    if from + |p| > |h| then None
    else if MatchesAt(h, p, from) then Some(from)
    else FirstMatchFrom(h, p, from + 1)
  }

  /** The lowest window of `h` matching `p`; an empty pattern matches at 0. */
  function FirstMatch(h: seq<byte>, p: Pattern): (r: Option<nat>)
    ensures r.Some? ==> MatchesAt(h, p, r.value) && forall i :: 0 <= i < r.value ==> !MatchesAt(h, p, i)
    ensures r.None? <==> forall i :: !MatchesAt(h, p, i)
  {
    if p == [] then Some(0) else FirstMatchFrom(h, p, 0)
  }

  /**
   * `find_infix_windows`: the lowest index at which `haystack` matches the
   * needle at every position that is not `??`, or `None`.
   */
  function FindInfixWindows(haystack: seq<byte>, needle: string): (r: Option<nat>)
    requires WellFormedNeedle(needle)
    ensures var p := ParsePattern(needle).value;
      && (r.Some? ==> MatchesAt(haystack, p, r.value))
      && (r.Some? ==> forall i :: 0 <= i < r.value ==> !MatchesAt(haystack, p, i))
      && (r.None? <==> forall i :: !MatchesAt(haystack, p, i))
  {
    if needle == [] then
      assert Tokens(needle) == [];
      assert MatchesAt(haystack, ParsePattern(needle).value, 0);
      Some(0)
    else
      var pattern := ParsePattern(needle).value;
      if pattern == [] then
        assert MatchesAt(haystack, pattern, 0);
        Some(0)
      else FirstMatch(haystack, pattern)
  }
}
