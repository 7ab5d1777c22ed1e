/**
 * The four byte-pattern needles of the SteamStub v3.1 x64 detector and the
 * patterns they denote: the `call $+5; push rax; push rbx; …` prologue of
 * the stub, and the three instruction shapes whose 32-bit immediate is the
 * size of the stub header.
 */
module Needles {
  import opened Wrappers
  import opened LittleEndian
  import opened Bytes
  import opened ScannerProperties

  // Each needle is the source's string literal: its tokens, separated by single spaces.

  const SignatureNeedle: string :=
    Join(["E8", "00", "00", "00", "00", "50", "53", "51", "52", "56", "57", "55", "41", "50"])
  /** `lea rdx, [rcx + imm32]` followed by a REX.W prefix. */
  const LeaNeedle: string := Join(["48", "8D", "91", "??", "??", "??", "??", "48"])
  /** `lea rdx, [rcx + imm32]` followed by a REX.B prefix. */
  const LeaRexBNeedle: string := Join(["48", "8D", "91", "??", "??", "??", "??", "41"])
  /** `mov qword [rsp + disp32], imm32` followed by a REX.W prefix. */
  const MovNeedle: string := Join(["48", "C7", "84", "24", "??", "??", "??", "??", "??", "??", "??", "??", "48"])

  const SignaturePattern: Pattern := [
    Exact(0xE8), Exact(0x00), Exact(0x00), Exact(0x00), Exact(0x00), Exact(0x50), Exact(0x53),
    Exact(0x51), Exact(0x52), Exact(0x56), Exact(0x57), Exact(0x55), Exact(0x41), Exact(0x50)]
  const LeaPattern: Pattern := [Exact(0x48), Exact(0x8D), Exact(0x91), Any, Any, Any, Any, Exact(0x48)]
  const LeaRexBPattern: Pattern := [Exact(0x48), Exact(0x8D), Exact(0x91), Any, Any, Any, Any, Exact(0x41)]
  const MovPattern: Pattern := [
    Exact(0x48), Exact(0xC7), Exact(0x84), Exact(0x24), Any, Any, Any, Any, Any, Any, Any, Any, Exact(0x48)]

  // ---------------------------------------------------------------------------
  // Parsing a needle one token at a time
  // ---------------------------------------------------------------------------

  /** A two-digit token denotes the byte it spells. */
  lemma {:induction false} PairDenotes(hi: char, lo: char, b: byte)
    requires IsHexDigit(hi) && IsHexDigit(lo) && b as nat == HexDigitValue(hi) * 16 + HexDigitValue(lo)
    ensures TokenDenotes([hi, lo], Exact(b))
  {
    HexPairToken(hi, lo);
  }

  /** Eight tokens joined by spaces. */
  lemma {:induction false} Denotes8(t0: string, t1: string, t2: string, t3: string, t4: string, t5: string, t6: string, t7: string,
                 m0: Mask, m1: Mask, m2: Mask, m3: Mask, m4: Mask, m5: Mask, m6: Mask, m7: Mask)
    requires TokenDenotes(t0, m0) && TokenDenotes(t1, m1) && TokenDenotes(t2, m2) && TokenDenotes(t3, m3)
    requires TokenDenotes(t4, m4) && TokenDenotes(t5, m5) && TokenDenotes(t6, m6) && TokenDenotes(t7, m7)
    ensures ParsePattern(Join([t0, t1, t2, t3, t4, t5, t6, t7])) == Some([m0, m1, m2, m3, m4, m5, m6, m7])
  {
    NeedleDenotes([t0, t1, t2, t3, t4, t5, t6, t7], [m0, m1, m2, m3, m4, m5, m6, m7]);
  }

  /** Thirteen tokens joined by spaces. */
  lemma {:induction false} Denotes13(t0: string, t1: string, t2: string, t3: string, t4: string, t5: string, t6: string,
                  t7: string, t8: string, t9: string, t10: string, t11: string, t12: string,
                  m0: Mask, m1: Mask, m2: Mask, m3: Mask, m4: Mask, m5: Mask, m6: Mask,
                  m7: Mask, m8: Mask, m9: Mask, m10: Mask, m11: Mask, m12: Mask)
    requires TokenDenotes(t0, m0) && TokenDenotes(t1, m1) && TokenDenotes(t2, m2) && TokenDenotes(t3, m3)
    requires TokenDenotes(t4, m4) && TokenDenotes(t5, m5) && TokenDenotes(t6, m6) && TokenDenotes(t7, m7)
    requires TokenDenotes(t8, m8) && TokenDenotes(t9, m9) && TokenDenotes(t10, m10) && TokenDenotes(t11, m11)
    requires TokenDenotes(t12, m12)
    ensures ParsePattern(Join([t0, t1, t2, t3, t4, t5, t6, t7, t8, t9, t10, t11, t12]))
         == Some([m0, m1, m2, m3, m4, m5, m6, m7, m8, m9, m10, m11, m12])
  {
    NeedleDenotes([t0, t1, t2, t3, t4, t5, t6, t7, t8, t9, t10, t11, t12],
                  [m0, m1, m2, m3, m4, m5, m6, m7, m8, m9, m10, m11, m12]);
  }

  /** Fourteen tokens joined by spaces. */
  lemma {:induction false} Denotes14(t0: string, t1: string, t2: string, t3: string, t4: string, t5: string, t6: string,
                  t7: string, t8: string, t9: string, t10: string, t11: string, t12: string, t13: string,
                  m0: Mask, m1: Mask, m2: Mask, m3: Mask, m4: Mask, m5: Mask, m6: Mask,
                  m7: Mask, m8: Mask, m9: Mask, m10: Mask, m11: Mask, m12: Mask, m13: Mask)
    requires TokenDenotes(t0, m0) && TokenDenotes(t1, m1) && TokenDenotes(t2, m2) && TokenDenotes(t3, m3)
    requires TokenDenotes(t4, m4) && TokenDenotes(t5, m5) && TokenDenotes(t6, m6) && TokenDenotes(t7, m7)
    requires TokenDenotes(t8, m8) && TokenDenotes(t9, m9) && TokenDenotes(t10, m10) && TokenDenotes(t11, m11)
    requires TokenDenotes(t12, m12) && TokenDenotes(t13, m13)
    ensures ParsePattern(Join([t0, t1, t2, t3, t4, t5, t6, t7, t8, t9, t10, t11, t12, t13]))
         == Some([m0, m1, m2, m3, m4, m5, m6, m7, m8, m9, m10, m11, m12, m13])
  {
    NeedleDenotes([t0, t1, t2, t3, t4, t5, t6, t7, t8, t9, t10, t11, t12, t13],
                  [m0, m1, m2, m3, m4, m5, m6, m7, m8, m9, m10, m11, m12, m13]);
  }

  // ---------------------------------------------------------------------------
  // The four needles
  // ---------------------------------------------------------------------------

  /** The tokens the needles are written with. */
  lemma {:induction false} Tokens0()
    ensures TokenDenotes("E8", Exact(0xE8)) && TokenDenotes("00", Exact(0x00)) && TokenDenotes("50", Exact(0x50))
    ensures TokenDenotes("53", Exact(0x53)) && TokenDenotes("51", Exact(0x51)) && TokenDenotes("52", Exact(0x52))
  {
    PairDenotes('E', '8', 0xE8);
    PairDenotes('0', '0', 0x00);
    PairDenotes('5', '0', 0x50);
    PairDenotes('5', '3', 0x53);
    PairDenotes('5', '1', 0x51);
    PairDenotes('5', '2', 0x52);
  }

  lemma {:induction false} Tokens1()
    ensures TokenDenotes("56", Exact(0x56)) && TokenDenotes("57", Exact(0x57)) && TokenDenotes("55", Exact(0x55))
    ensures TokenDenotes("41", Exact(0x41)) && TokenDenotes("48", Exact(0x48)) && TokenDenotes("8D", Exact(0x8D))
  {
    PairDenotes('5', '6', 0x56);
    PairDenotes('5', '7', 0x57);
    PairDenotes('5', '5', 0x55);
    PairDenotes('4', '1', 0x41);
    PairDenotes('4', '8', 0x48);
    PairDenotes('8', 'D', 0x8D);
  }

  lemma {:induction false} Tokens2()
    ensures TokenDenotes("91", Exact(0x91)) && TokenDenotes("C7", Exact(0xC7)) && TokenDenotes("84", Exact(0x84))
    ensures TokenDenotes("24", Exact(0x24)) && TokenDenotes("??", Any)
  {
    PairDenotes('9', '1', 0x91);
    PairDenotes('C', '7', 0xC7);
    PairDenotes('8', '4', 0x84);
    PairDenotes('2', '4', 0x24);
    MaskToken();
  }

  /** The prologue needle denotes the 14 exact bytes of the prologue. */
  lemma {:induction false} SignatureParses()
    ensures ParsePattern(SignatureNeedle) == Some(SignaturePattern)
  {
    Tokens0();
    Tokens1();
    Denotes14("E8", "00", "00", "00", "00", "50", "53", "51", "52", "56", "57", "55", "41", "50",
      Exact(0xE8), Exact(0x00), Exact(0x00), Exact(0x00), Exact(0x00), Exact(0x50), Exact(0x53),
      Exact(0x51), Exact(0x52), Exact(0x56), Exact(0x57), Exact(0x55), Exact(0x41), Exact(0x50));
  }

  /** The first `lea` needle denotes its 8-byte pattern, wild at the immediate. */
  lemma {:induction false} LeaParses()
    ensures ParsePattern(LeaNeedle) == Some(LeaPattern)
  {
    Tokens1();
    Tokens2();
    Denotes8("48", "8D", "91", "??", "??", "??", "??", "48",
      Exact(0x48), Exact(0x8D), Exact(0x91), Any, Any, Any, Any, Exact(0x48));
  }

  /** The second `lea` needle denotes its 8-byte pattern, wild at the immediate. */
  lemma {:induction false} LeaRexBParses()
    ensures ParsePattern(LeaRexBNeedle) == Some(LeaRexBPattern)
  {
    Tokens1();
    Tokens2();
    Denotes8("48", "8D", "91", "??", "??", "??", "??", "41",
      Exact(0x48), Exact(0x8D), Exact(0x91), Any, Any, Any, Any, Exact(0x41));
  }

  /** The `mov` needle denotes its 13-byte pattern, wild at the displacement and the immediate. */
  lemma {:induction false} MovParses()
    ensures ParsePattern(MovNeedle) == Some(MovPattern)
  {
    Tokens1();
    Tokens2();
    Denotes13("48", "C7", "84", "24", "??", "??", "??", "??", "??", "??", "??", "??", "48",
      Exact(0x48), Exact(0xC7), Exact(0x84), Exact(0x24), Any, Any, Any, Any, Any, Any, Any, Any, Exact(0x48));
  }

  /** All four needles are well formed, so searching for them never panics. */
  lemma {:induction false} NeedlesWellFormed()
    ensures WellFormedNeedle(SignatureNeedle) && WellFormedNeedle(LeaNeedle)
    ensures WellFormedNeedle(LeaRexBNeedle) && WellFormedNeedle(MovNeedle)
  {
    SignatureParses();
    LeaParses();
    LeaRexBParses();
    MovParses();
  }
}
