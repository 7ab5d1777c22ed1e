/**
 * Properties of the pattern scanner of `src/bytes.rs`: blank needles, the
 * spelling of pattern bytes, the scan result being pinned down by its
 * specification, and the unit-test vectors of the original.
 */
module ScannerProperties {
  import opened Wrappers
  import opened LittleEndian
  import opened Bytes

  // ---------------------------------------------------------------------------
  // Blank needles
  // ---------------------------------------------------------------------------

  predicate AllWhitespace(s: string) {
    forall i :: 0 <= i < |s| ==> IsWhitespace(s[i])
  }

  lemma {:induction false} TokensFromBlank(s: string)
    requires AllWhitespace(s)
    ensures TokensFrom(s, []) == []
    decreases |s|
  {
    if s != [] {
      TokensFromBlank(s[1..]);
    }
  }

  /**
   * A needle that is empty or only whitespace has no tokens, never panics,
   * and matches at 0 in every haystack.
   */
  lemma {:induction false} BlankNeedle(haystack: seq<byte>, needle: string)
    requires AllWhitespace(needle)
    ensures Tokens(needle) == []
    ensures WellFormedNeedle(needle) && FindInfixWindows(haystack, needle) == Some(0)
  {
    TokensFromBlank(needle);
  }

  // ---------------------------------------------------------------------------
  // Spelling bytes as pattern tokens
  // ---------------------------------------------------------------------------

  /** The lower-case hex digit of a value below 16. */
  function HexDigit(v: nat): (c: char)
    requires v < 16
    ensures IsHexDigit(c) && HexDigitValue(c) == v
  {
    if v < 10 then ('0' as nat + v) as char else ('a' as nat + v - 10) as char
  }

  /** The two-digit token a pattern author writes for byte `b`. */
  function HexToken(b: byte): (t: string)
    ensures |t| == 2
  {
    [HexDigit(b as nat / 16), HexDigit(b as nat % 16)]
  }

  /** Every two-digit hex token parses back to the byte it spells. */
  lemma {:induction false} HexTokenRoundTrip(b: byte)
    ensures ParseToken(HexToken(b)) == Some(Exact(b))
  {
    var hi := HexDigit(b as nat / 16);
    var lo := HexDigit(b as nat % 16);
    HexPairToken(hi, lo);
    HexDigitsOfByte(b);
  }

  /** The two digits of `HexToken(b)` are worth `b`. */
  lemma {:induction false} HexDigitsOfByte(b: byte)
    ensures HexDigitValue(HexDigit(b as nat / 16)) * 16 + HexDigitValue(HexDigit(b as nat % 16)) == b as nat
  {
  }

  /** Tokens written out with a single space between neighbours. */
  function Join(ts: seq<string>): string {
    if |ts| == 0 then [] else if |ts| == 1 then ts[0] else ts[0] + [' '] + Join(ts[1..])
  }

  /** Splitting tokens joined by spaces gives the tokens back. */
  lemma {:induction false} TokensOfJoin(ts: seq<string>)
    requires forall k :: 0 <= k < |ts| ==> |ts[k]| > 0 && WhitespaceFree(ts[k])
    ensures Tokens(Join(ts)) == ts
    decreases |ts|
  {
    if |ts| == 0 {
      assert Tokens([]) == [];
    } else if |ts| == 1 {
      TokensOfWord(ts[0]);
    } else {
      TokensSplit(ts[0], ' ', Join(ts[1..]));
      TokensOfWord(ts[0]);
      TokensOfJoin(ts[1..]);
    }
  }

  /** A token list parses to `ms` when each token parses to its entry. */
  lemma {:induction false} ParseTokensEach(ts: seq<string>, ms: Pattern)
    requires |ts| == |ms|
    requires forall k :: 0 <= k < |ts| ==> ParseToken(ts[k]) == Some(ms[k])
    ensures ParseTokens(ts) == Some(ms)
    decreases |ts|
  {
    if ts != [] {
      ParseTokensEach(ts[1..], ms[1..]);
      assert [ms[0]] + ms[1..] == ms;
    }
  }

  /** The needle spelling bytes `bs` in hex, one token per byte. */
  function ExactNeedle(bs: seq<byte>): string {
    Join(seq(|bs|, k requires 0 <= k < |bs| => HexToken(bs[k])))
  }

  /** The pattern that matches exactly the bytes `bs`. */
  function ExactPattern(bs: seq<byte>): (p: Pattern)
    ensures |p| == |bs|
    ensures forall j :: 0 <= j < |bs| ==> p[j] == Exact(bs[j])
  {
    seq(|bs|, k requires 0 <= k < |bs| => Exact(bs[k]))
  }

  /** Spelling bytes and parsing the spelling gives the exact pattern of those bytes. */
  lemma {:induction false} ExactNeedleRoundTrip(bs: seq<byte>)
    ensures ParsePattern(ExactNeedle(bs)) == Some(ExactPattern(bs))
  {
    var ts := seq(|bs|, k requires 0 <= k < |bs| => HexToken(bs[k]));
    forall k | 0 <= k < |ts|
      ensures |ts[k]| > 0 && WhitespaceFree(ts[k]) && ParseToken(ts[k]) == Some(ExactPattern(bs)[k])
    {
      HexTokenRoundTrip(bs[k]);
    }
    TokensOfJoin(ts);
    ParseTokensEach(ts, ExactPattern(bs));
  }

  /** An exact pattern matches exactly where the bytes occur. */
  lemma {:induction false} ExactPatternMatches(h: seq<byte>, bs: seq<byte>, i: nat)
    ensures MatchesAt(h, ExactPattern(bs), i) <==> i + |bs| <= |h| && h[i..i + |bs|] == bs
  {
    var p := ExactPattern(bs);
    if i + |bs| <= |h| && h[i..i + |bs|] == bs {
      forall j | 0 <= j < |bs|
        ensures p[j].b == h[i + j]
      {
        assert h[i..i + |bs|][j] == h[i + j];
      }
    }
    if MatchesAt(h, p, i) {
      assert h[i..i + |bs|] == bs;
    }
  }

  // ---------------------------------------------------------------------------
  // The scan result is determined by its specification
  // ---------------------------------------------------------------------------

  /** If window `i` matches and no earlier one does, the scan returns `i`. */
  lemma {:induction false} FindInfixWindowsIs(haystack: seq<byte>, needle: string, p: Pattern, i: nat)
    requires ParsePattern(needle) == Some(p)
    requires MatchesAt(haystack, p, i)
    requires forall k :: 0 <= k < i ==> !MatchesAt(haystack, p, k)
    ensures FindInfixWindows(haystack, needle) == Some(i)
  {
  }

  // ---------------------------------------------------------------------------
  // The unit tests of the original
  // ---------------------------------------------------------------------------

  function TestHaystack(): seq<byte> {
    [0x00, 0x11, 0x22, 0x33, 0x44]
  }

  /** A two-digit hex token parses as the byte it spells. */
  lemma {:induction false} HexPairToken(hi: char, lo: char)
    requires IsHexDigit(hi) && IsHexDigit(lo)
    ensures ParseToken([hi, lo]) == Some(Exact((HexDigitValue(hi) * 16 + HexDigitValue(lo)) as bv8))
  {
    ParseHexPair(hi, lo);
    assert [hi, lo] != "??";
  }

  /** Token `t` stands alone in a needle and parses as `m`. */
  predicate TokenDenotes(t: string, m: Mask) {
    |t| > 0 && WhitespaceFree(t) && ParseToken(t) == Some(m)
  }

  /** A doubled decimal digit is a token of the unit tests and parses as the byte it spells. */
  lemma {:induction false} TestToken(d: char, b: byte)
    requires '1' <= d <= '5' && b as int == 17 * (d as int - '0' as int)
    ensures TokenDenotes([d, d], Exact(b))
  {
    HexPairToken(d, d);
  }

  /** The wildcard token. */
  lemma {:induction false} MaskToken()
    ensures TokenDenotes("??", Any)
  {
  }

  /** The tokens of the unit tests. */
  lemma {:induction false} TestTokens()
    ensures TokenDenotes("11", Exact(0x11)) && TokenDenotes("22", Exact(0x22))
    ensures TokenDenotes("33", Exact(0x33)) && TokenDenotes("44", Exact(0x44))
    ensures TokenDenotes("55", Exact(0x55)) && TokenDenotes("??", Any)
  {
    TestToken('1', 0x11);
    TestToken('2', 0x22);
    TestToken('3', 0x33);
    TestToken('4', 0x44);
    TestToken('5', 0x55);
    MaskToken();
    assert "11" == ['1', '1'] && "22" == ['2', '2'] && "33" == ['3', '3'];
    assert "44" == ['4', '4'] && "55" == ['5', '5'];
  }

  /** The needle `Join(ts)` denotes the pattern `ms`. */
  lemma {:induction false} NeedleDenotes(ts: seq<string>, ms: Pattern)
    requires |ts| == |ms| && forall k :: 0 <= k < |ts| ==> TokenDenotes(ts[k], ms[k])
    ensures ParsePattern(Join(ts)) == Some(ms)
  {
    TokensOfJoin(ts);
    ParseTokensEach(ts, ms);
  }

  /** Two tokens joined by a space. */
  lemma {:induction false} NeedleDenotes2(t0: string, t1: string, m0: Mask, m1: Mask)
    requires TokenDenotes(t0, m0) && TokenDenotes(t1, m1)
    ensures ParsePattern(Join([t0, t1])) == Some([m0, m1])
  {
    NeedleDenotes([t0, t1], [m0, m1]);
  }

  /** Three tokens joined by spaces. */
  lemma {:induction false} NeedleDenotes3(t0: string, t1: string, t2: string, m0: Mask, m1: Mask, m2: Mask)
    requires TokenDenotes(t0, m0) && TokenDenotes(t1, m1) && TokenDenotes(t2, m2)
    ensures ParsePattern(Join([t0, t1, t2])) == Some([m0, m1, m2])
  {
    NeedleDenotes([t0, t1, t2], [m0, m1, m2]);
  }

  /** Four tokens joined by spaces. */
  lemma {:induction false} NeedleDenotes4(t0: string, t1: string, t2: string, t3: string, m0: Mask, m1: Mask, m2: Mask, m3: Mask)
    requires TokenDenotes(t0, m0) && TokenDenotes(t1, m1) && TokenDenotes(t2, m2) && TokenDenotes(t3, m3)
    ensures ParsePattern(Join([t0, t1, t2, t3])) == Some([m0, m1, m2, m3])
  {
    NeedleDenotes([t0, t1, t2, t3], [m0, m1, m2, m3]);
  }

  lemma {:induction false} BasicMatchSpelling()
    ensures Join(["11", "22"]) == "11 22"
  {
  }

  lemma {:induction false} BasicMatchTokens()
    ensures ParsePattern(Join(["11", "22"])) == Some([Exact(0x11), Exact(0x22)])
  {
    TestTokens();
    NeedleDenotes2("11", "22", Exact(0x11), Exact(0x22));
  }

  lemma {:induction false} BasicMatchPattern()
    ensures ParsePattern("11 22") == Some([Exact(0x11), Exact(0x22)])
  {
    BasicMatchSpelling();
    BasicMatchTokens();
  }

  /** `"11 22"` is found at 1 in `00 11 22 33 44`. */
  lemma {:induction false} BasicMatch()
    ensures WellFormedNeedle("11 22") && FindInfixWindows(TestHaystack(), "11 22") == Some(1)
  {
    BasicMatchPattern();
    BasicMatchWindow();
    FoundSecond(TestHaystack(), "11 22", [Exact(0x11), Exact(0x22)]);
  }

  lemma {:induction false} BasicMatchWindow()
    ensures MatchesAt(TestHaystack(), [Exact(0x11), Exact(0x22)], 1)
    ensures !MatchesAt(TestHaystack(), [Exact(0x11), Exact(0x22)], 0)
  {
    var p := [Exact(0x11), Exact(0x22)];
    assert p[0].b != TestHaystack()[0];
  }

  lemma {:induction false} MaskedMatchSpelling()
    ensures Join(["11", "??", "33"]) == "11 ?? 33"
  {
  }

  lemma {:induction false} MaskedMatchTokens()
    ensures ParsePattern(Join(["11", "??", "33"])) == Some([Exact(0x11), Any, Exact(0x33)])
  {
    TestTokens();
    NeedleDenotes3("11", "??", "33", Exact(0x11), Any, Exact(0x33));
  }

  lemma {:induction false} MaskedMatchPattern()
    ensures ParsePattern("11 ?? 33") == Some([Exact(0x11), Any, Exact(0x33)])
  {
    MaskedMatchSpelling();
    MaskedMatchTokens();
  }

  /** `"11 ?? 33"` is found at 1 in `00 11 22 33 44`. */
  lemma {:induction false} MaskedMatch()
    ensures WellFormedNeedle("11 ?? 33") && FindInfixWindows(TestHaystack(), "11 ?? 33") == Some(1)
  {
    MaskedMatchPattern();
    MaskedMatchWindow();
    FoundSecond(TestHaystack(), "11 ?? 33", [Exact(0x11), Any, Exact(0x33)]);
  }

  lemma {:induction false} MaskedMatchWindow()
    ensures MatchesAt(TestHaystack(), [Exact(0x11), Any, Exact(0x33)], 1)
    ensures !MatchesAt(TestHaystack(), [Exact(0x11), Any, Exact(0x33)], 0)
  {
    var p := [Exact(0x11), Any, Exact(0x33)];
    assert p[0].b != TestHaystack()[0];
  }

  lemma {:induction false} MultipleMasksSpelling()
    ensures Join(["11", "??", "??", "44"]) == "11 ?? ?? 44"
  {
  }

  lemma {:induction false} MultipleMasksTokens()
    ensures ParsePattern(Join(["11", "??", "??", "44"])) == Some([Exact(0x11), Any, Any, Exact(0x44)])
  {
    TestTokens();
    NeedleDenotes4("11", "??", "??", "44", Exact(0x11), Any, Any, Exact(0x44));
  }

  lemma {:induction false} MultipleMasksPattern()
    ensures ParsePattern("11 ?? ?? 44") == Some([Exact(0x11), Any, Any, Exact(0x44)])
  {
    MultipleMasksSpelling();
    MultipleMasksTokens();
  }

  /** `"11 ?? ?? 44"` is found at 1 in `00 11 22 33 44`. */
  lemma {:induction false} MultipleMasks()
    ensures WellFormedNeedle("11 ?? ?? 44") && FindInfixWindows(TestHaystack(), "11 ?? ?? 44") == Some(1)
  {
    MultipleMasksPattern();
    MultipleMasksWindow();
    FoundSecond(TestHaystack(), "11 ?? ?? 44", [Exact(0x11), Any, Any, Exact(0x44)]);
  }

  /** A needle that matches at window 1 but not at window 0 is found at 1. */
  lemma {:induction false} FoundSecond(haystack: seq<byte>, needle: string, p: Pattern)
    requires ParsePattern(needle) == Some(p)
    requires MatchesAt(haystack, p, 1) && !MatchesAt(haystack, p, 0)
    ensures WellFormedNeedle(needle) && FindInfixWindows(haystack, needle) == Some(1)
  {
    FindInfixWindowsIs(haystack, needle, p, 1);
  }

  lemma {:induction false} MultipleMasksWindow()
    ensures MatchesAt(TestHaystack(), [Exact(0x11), Any, Any, Exact(0x44)], 1)
    ensures !MatchesAt(TestHaystack(), [Exact(0x11), Any, Any, Exact(0x44)], 0)
  {
    var p := [Exact(0x11), Any, Any, Exact(0x44)];
    assert p[0].b != TestHaystack()[0];
  }

  /** The empty needle is found at 0. */
  lemma {:induction false} EmptyNeedle()
    ensures WellFormedNeedle("") && FindInfixWindows(TestHaystack(), "") == Some(0)
  {
    BlankNeedle(TestHaystack(), "");
  }

  lemma {:induction false} NoMatchSpelling()
    ensures Join(["11", "22", "55"]) == "11 22 55"
  {
  }

  lemma {:induction false} NoMatchTokens()
    ensures ParsePattern(Join(["11", "22", "55"])) == Some([Exact(0x11), Exact(0x22), Exact(0x55)])
  {
    TestTokens();
    NeedleDenotes3("11", "22", "55", Exact(0x11), Exact(0x22), Exact(0x55));
  }

  lemma {:induction false} NoMatchPattern()
    ensures ParsePattern("11 22 55") == Some([Exact(0x11), Exact(0x22), Exact(0x55)])
  {
    NoMatchSpelling();
    NoMatchTokens();
  }

  /** `"11 22 55"` is not found in `00 11 22 33 44`. */
  lemma {:induction false} NoMatch()
    ensures WellFormedNeedle("11 22 55") && FindInfixWindows(TestHaystack(), "11 22 55") == None
  {
    var p := [Exact(0x11), Exact(0x22), Exact(0x55)];
    NoMatchPattern();
    NoMatchWindows();
    NotFound(TestHaystack(), "11 22 55", p);
  }

  lemma {:induction false} NoMatchWindows()
    ensures forall i :: !MatchesAt(TestHaystack(), [Exact(0x11), Exact(0x22), Exact(0x55)], i)
  {
    var p := [Exact(0x11), Exact(0x22), Exact(0x55)];
    forall i
      ensures !MatchesAt(TestHaystack(), p, i)
    {
      if i == 0 {
        assert p[0].b != TestHaystack()[0];
      } else if i == 1 {
        assert p[2].b != TestHaystack()[3];
      } else if i == 2 {
        assert p[0].b != TestHaystack()[2];
      }
    }
  }

  /** A needle that matches at no window is not found. */
  lemma {:induction false} NotFound(haystack: seq<byte>, needle: string, p: Pattern)
    requires ParsePattern(needle) == Some(p)
    requires forall i :: !MatchesAt(haystack, p, i)
    ensures WellFormedNeedle(needle) && FindInfixWindows(haystack, needle) == None
  {
  }
}
