/**
 * `src/drm.rs`: the SteamStub v3.1 x64 detector and unpacker over a parsed
 * PE32+ image. This module holds the section lookups and the detector; the
 * unpacking pipeline is in module `Unpack`.
 */
module Drm {
  import opened Wrappers
  import opened LittleEndian
  import Bytes
  import Needles
  import Pe

  // ---------------------------------------------------------------------------
  // bind_section
  // ---------------------------------------------------------------------------

  /** `".bind"` in ASCII. */
  const BindName: seq<byte> := [0x2E, 0x62, 0x69, 0x6E, 0x64]

  /** `s` with every NUL byte removed, order kept. */
  function WithoutNuls(s: seq<byte>): (r: seq<byte>)
    ensures |r| <= |s|
    ensures forall i :: 0 <= i < |r| ==> r[i] != 0
  {
    if s == [] then []
    else if s[0] == 0 then WithoutNuls(s[1..])
    else [s[0]] + WithoutNuls(s[1..])
  }

  /** A name without NULs is kept whole; a name of NULs only filters to nothing. */
  lemma {:induction false} WithoutNulsKeeps(s: seq<byte>)
    ensures (forall i :: 0 <= i < |s| ==> s[i] != 0) ==> WithoutNuls(s) == s
    ensures (forall i :: 0 <= i < |s| ==> s[i] == 0) ==> WithoutNuls(s) == []
  {
    if s != [] {
      WithoutNulsKeeps(s[1..]);
      assert s == [s[0]] + s[1..];
    }
  }

  /**
   * Filtering a concatenation filters each part: with `WithoutNulsKeeps`,
   * this fixes the filter on every input, keeping the non-NUL bytes in order.
   */
  lemma {:induction false} WithoutNulsAppend(a: seq<byte>, b: seq<byte>)
    ensures WithoutNuls(a + b) == WithoutNuls(a) + WithoutNuls(b)
  {
    if a == [] {
      assert a + b == b;
    } else {
      assert (a + b)[0] == a[0] && (a + b)[1..] == a[1..] + b;
      WithoutNulsAppend(a[1..], b);
    }
  }

  /** The 8-byte name `.bind` padded with NULs filters to `.bind`. */
  lemma {:induction false} PaddedBind()
    ensures WithoutNuls(BindName + [0, 0, 0]) == BindName
  {
    WithoutNulsAppend(BindName, [0, 0, 0]);
    WithoutNulsKeeps(BindName);
    WithoutNulsKeeps([0, 0, 0]);
  }

  /** A section header named `.bind` as a linker writes it, NUL-padded to 8 bytes, passes the name test. */
  lemma {:induction false} PaddedBindIsBind(s: Pe.SectionHeader)
    requires |s| == Pe.SectionHeaderSize && Pe.Name(s) == BindName + [0, 0, 0]
    ensures IsBind(s)
  {
    PaddedBind();
  }

  /**
   * The section is named `.bind` once NUL characters are filtered out of its
   * 8-byte name. `.bind` is ASCII, so comparing the lossily decoded name is
   * comparing the bytes: an invalid sequence becomes U+FFFD and any non-ASCII
   * character differs from every byte of `.bind`.
   */
  predicate IsBind(s: Pe.SectionHeader) {
    |s| == Pe.SectionHeaderSize && WithoutNuls(Pe.Name(s)) == BindName
  }

  /** The first section at or after `from` named `.bind`. */
  function FirstBindFrom(sections: seq<Pe.SectionHeader>, from: nat): (r: Option<nat>)
    requires from <= |sections|
    ensures r.Some? ==> from <= r.value < |sections| && IsBind(sections[r.value])
    ensures r.Some? ==> forall j :: from <= j < r.value ==> !IsBind(sections[j])
    ensures r.None? <==> forall j :: from <= j < |sections| ==> !IsBind(sections[j])
    decreases |sections| - from
  {
    if from == |sections| then None
    else if IsBind(sections[from]) then Some(from)
    else FirstBindFrom(sections, from + 1)
  }

  /** Section `i` is the first one named `.bind`. */
  predicate FirstBindAt(sections: seq<Pe.SectionHeader>, i: nat) {
    i < |sections| && IsBind(sections[i]) && forall j :: 0 <= j < i ==> !IsBind(sections[j])
  }

  /**
   * `bind_section`: the bytes of the first section named `.bind`, as the PE
   * library returns them (its error included), or `Null` if there is none.
   */
  function BindSection(img: Pe.Image): (r: Result<seq<byte>, Pe.Error>)
    requires Pe.WellSized(img)
    ensures (forall j :: 0 <= j < |img.sections| ==> !IsBind(img.sections[j])) ==> r == Err(Pe.Null)
    ensures forall i: nat :: FirstBindAt(img.sections, i) ==> r == img.sectionBytes(img.sections[i])
  {
    match FirstBindFrom(img.sections, 0)
    case None => Err(Pe.Null)
    case Some(i) => img.sectionBytes(img.sections[i])
  }

  // ---------------------------------------------------------------------------
  // get_owner_section
  // ---------------------------------------------------------------------------

  /** The size a section spans in memory: `VirtualSize`, or `SizeOfRawData` when that is 0. */
  function EffectiveSize(s: Pe.SectionHeader): bv32
    requires |s| == Pe.SectionHeaderSize
  {
    if Pe.VirtualSize(s) == 0 then Pe.SizeOfRawData(s) else Pe.VirtualSize(s)
  }

  /** `rva` lies in `[VirtualAddress, VirtualAddress + size)`, in unbounded arithmetic. */
  predicate Owns(s: Pe.SectionHeader, rva: bv32) {
    && |s| == Pe.SectionHeaderSize
    && Pe.VirtualAddress(s) <= rva
    && (rva as int) < Pe.VirtualAddress(s) as int + EffectiveSize(s) as int
  }

  /**
   * The `u32` sum `VirtualAddress + size` is evaluated only once
   * `rva >= VirtualAddress` holds, and then must not overflow.
   */
  predicate SumFits(s: Pe.SectionHeader, rva: bv32)
    requires |s| == Pe.SectionHeaderSize
  {
    Pe.VirtualAddress(s) <= rva ==> Pe.VirtualAddress(s) as int + EffectiveSize(s) as int < 0x1_0000_0000
  }

  /** The search for the owner of `rva` does not overflow at any section it reaches. */
  predicate OwnerDefined(sections: seq<Pe.SectionHeader>, rva: bv32)
    requires forall k :: 0 <= k < |sections| ==> |sections[k]| == Pe.SectionHeaderSize
  {
    forall i :: 0 <= i < |sections| && (forall j :: 0 <= j < i ==> !Owns(sections[j], rva)) ==> SumFits(sections[i], rva)
  }

  /** The first section at or after `from` that contains `rva`. */
  function OwnerFrom(sections: seq<Pe.SectionHeader>, rva: bv32, from: nat): (r: Option<nat>)
    requires from <= |sections|
    ensures r.Some? ==> from <= r.value < |sections| && Owns(sections[r.value], rva)
    ensures r.Some? ==> forall j :: from <= j < r.value ==> !Owns(sections[j], rva)
    ensures r.None? <==> forall j :: from <= j < |sections| ==> !Owns(sections[j], rva)
    decreases |sections| - from
  {
    if from == |sections| then None
    else if Owns(sections[from], rva) then Some(from)
    else OwnerFrom(sections, rva, from + 1)
  }

  /**
   * `get_owner_section`: the index and header of the first section whose
   * range contains `rva`, or `None`.
   */
  function GetOwnerSection(img: Pe.Image, rva: bv32): (r: Option<(nat, Pe.SectionHeader)>)
    requires Pe.WellSized(img) && OwnerDefined(img.sections, rva)
    ensures r.Some? ==> r.value.0 < |img.sections| && r.value.1 == img.sections[r.value.0]
    ensures r.Some? ==> Owns(r.value.1, rva) && forall j :: 0 <= j < r.value.0 ==> !Owns(img.sections[j], rva)
    ensures r.None? <==> forall j :: 0 <= j < |img.sections| ==> !Owns(img.sections[j], rva)
  {
    match OwnerFrom(img.sections, rva, 0)
    case None => None
    case Some(i) => Some((i, img.sections[i]))
  }

  // ---------------------------------------------------------------------------
  // check_is_variant31_x64
  // ---------------------------------------------------------------------------

  /**
   * `a.or(b).or(c.map(|x| x + 5))`: the first of the three searches that
   * found something, the third shifted by five.
   */
  function Priority(a: Option<nat>, b: Option<nat>, c: Option<nat>): (r: Option<nat>)
    ensures r.None? <==> a.None? && b.None? && c.None?
    ensures a.Some? ==> r == a
    ensures a.None? && b.Some? ==> r == b
    ensures a.None? && b.None? && c.Some? ==> r == Some(c.value + 5)
  {
    if a.Some? then a
    else if b.Some? then b
    else if c.Some? then Some(c.value + 5)
    else None
  }

  /**
   * Where the 32-bit header size is read from: the first `lea` match, else
   * the first `lea` match with the REX.B prefix, else five past the first
   * `mov` match. `Option::or` evaluates all three searches; they are pure.
   */
  function HeaderSizeOffset(bind: seq<byte>): Option<nat>
  {
    Needles.NeedlesWellFormed();
    Priority(Bytes.FindInfixWindows(bind, Needles.LeaNeedle),
             Bytes.FindInfixWindows(bind, Needles.LeaRexBNeedle),
             Bytes.FindInfixWindows(bind, Needles.MovNeedle))
  }

  /** What the detector decides once it has the bytes of `.bind`. */
  function Verdict(bind: seq<byte>): (r: Result<(), Pe.Error>)
    ensures r.Ok? ==>
      && HeaderSizeOffset(bind).Some?
      && HeaderSizeOffset(bind).value + 7 <= |bind|
      && U32At(bind, HeaderSizeOffset(bind).value + 3) == 0xF0
    ensures r.Err? ==> r.error == Pe.Encoding || r.error == Pe.Bounds
  {
    Needles.NeedlesWellFormed();
    OffsetInWindow(bind);
    Judge(bind, Bytes.FindInfixWindows(bind, Needles.SignatureNeedle).Some?, HeaderSizeOffset(bind))
  }

  /**
   * The detector's decision, given whether the prologue was found and where
   * the header size is read.
   */
  function Judge(bind: seq<byte>, signature: bool, offset: Option<nat>): (r: Result<(), Pe.Error>)
    requires offset.Some? ==> offset.value + 7 <= |bind|
    ensures r.Ok? ==> signature && offset.Some? && U32At(bind, offset.value + 3) == 0xF0
    ensures r.Err? ==> r.error == Pe.Encoding || r.error == Pe.Bounds
  {
    if !signature then Err(Pe.Encoding)
    else if offset.None? then Err(Pe.Encoding)
    else if U32At(bind, offset.value + 3) == 0xF0 then Ok(()) else Err(Pe.Bounds)
  }

  /** `check_is_variant31_x64`. */
  function CheckIsVariant31(img: Pe.Image): (r: Result<(), Pe.Error>)
    requires Pe.WellSized(img)
    ensures r.Ok? ==> FirstBindFrom(img.sections, 0).Some? && BindSection(img).Ok?
  {
    match BindSection(img)
    case Err(e) => Err(e)
    case Ok(bind) => Verdict(bind)
  }

  /** The header-size read `bind[offset + 3..offset + 7]` never leaves `bind`. */
  lemma {:induction false} OffsetInWindow(bind: seq<byte>)
    ensures HeaderSizeOffset(bind).Some? ==> HeaderSizeOffset(bind).value + 7 <= |bind|
  {
    Needles.NeedlesWellFormed();
    var lea := Bytes.FindInfixWindows(bind, Needles.LeaNeedle);
    var leaRexB := Bytes.FindInfixWindows(bind, Needles.LeaRexBNeedle);
    var mov := Bytes.FindInfixWindows(bind, Needles.MovNeedle);
    if lea.Some? {
      Needles.LeaParses();
      FoundFits(bind, Needles.LeaNeedle, Needles.LeaPattern, lea.value);
    } else if leaRexB.Some? {
      Needles.LeaRexBParses();
      FoundFits(bind, Needles.LeaRexBNeedle, Needles.LeaRexBPattern, leaRexB.value);
    } else if mov.Some? {
      Needles.MovParses();
      FoundFits(bind, Needles.MovNeedle, Needles.MovPattern, mov.value);
    }
  }

  /** A window the scanner finds lies inside the haystack. */
  lemma {:induction false} FoundFits(bind: seq<byte>, needle: string, p: Bytes.Pattern, at: nat)
    requires Bytes.ParsePattern(needle) == Some(p) && Bytes.FindInfixWindows(bind, needle) == Some(at)
    ensures at + |p| <= |bind|
  {
  }

  /** The scanner's result is the first match of the pattern its needle denotes. */
  lemma {:induction false} FindIsFirstMatch(bind: seq<byte>, needle: string, p: Bytes.Pattern)
    requires Bytes.ParsePattern(needle) == Some(p)
    ensures Bytes.FindInfixWindows(bind, needle) == Bytes.FirstMatch(bind, p)
  {
    var r := Bytes.FindInfixWindows(bind, needle);
    var f := Bytes.FirstMatch(bind, p);
    if r.Some? && f.Some? {
      assert Bytes.MatchesAt(bind, p, r.value) && Bytes.MatchesAt(bind, p, f.value);
    }
  }

  /**
   * The header size is read at the first `lea` match; failing that, at the
   * first REX.B `lea` match; failing that, five bytes past the first `mov`
   * match.
   */
  lemma {:induction false} OffsetPriority(bind: seq<byte>)
    ensures HeaderSizeOffset(bind) == Priority(Bytes.FirstMatch(bind, Needles.LeaPattern),
      Bytes.FirstMatch(bind, Needles.LeaRexBPattern), Bytes.FirstMatch(bind, Needles.MovPattern))
  {
    Needles.LeaParses();
    Needles.LeaRexBParses();
    Needles.MovParses();
    FindIsFirstMatch(bind, Needles.LeaNeedle, Needles.LeaPattern);
    FindIsFirstMatch(bind, Needles.LeaRexBNeedle, Needles.LeaRexBPattern);
    FindIsFirstMatch(bind, Needles.MovNeedle, Needles.MovPattern);
  }

  /**
   * The four bytes read lie on wildcards of the matched window: bytes 3..7
   * of either `lea` pattern, and bytes 8..12 of the `mov` pattern, which is
   * where the read lands five bytes past a `mov` match.
   */
  lemma {:induction false} ReadOnWildcards()
    ensures |Needles.LeaPattern| == 8 && |Needles.LeaRexBPattern| == 8 && |Needles.MovPattern| == 13
    ensures forall j :: 3 <= j < 7 ==> Needles.LeaPattern[j].Any? && Needles.LeaRexBPattern[j].Any?
    ensures forall j :: 5 + 3 <= j < 5 + 7 ==> Needles.MovPattern[j].Any?
  {
  }

  /** The prologue is found exactly when some window matches it. */
  lemma {:induction false} SignatureFound(bind: seq<byte>)
    ensures Bytes.ParsePattern(Needles.SignatureNeedle) == Some(Needles.SignaturePattern)
    ensures Bytes.FindInfixWindows(bind, Needles.SignatureNeedle).Some? <==>
      exists i :: Bytes.MatchesAt(bind, Needles.SignaturePattern, i)
  {
    Needles.SignatureParses();
  }

  /**
   * The outcomes of the detector once `.bind` is found: `Encoding` without
   * the prologue; `Encoding` without any of the three instruction patterns;
   * `Bounds` when the 32-bit value read is not 0xF0; otherwise `Ok`.
   */
  lemma {:induction false} VerdictOutcomes(bind: seq<byte>)
    ensures (forall i :: !Bytes.MatchesAt(bind, Needles.SignaturePattern, i)) ==> Verdict(bind) == Err(Pe.Encoding)
    ensures (exists i :: Bytes.MatchesAt(bind, Needles.SignaturePattern, i)) && HeaderSizeOffset(bind).None? ==>
      Verdict(bind) == Err(Pe.Encoding)
    ensures (exists i :: Bytes.MatchesAt(bind, Needles.SignaturePattern, i)) && HeaderSizeOffset(bind).Some? ==>
      && HeaderSizeOffset(bind).value + 7 <= |bind|
      && Verdict(bind) == if U32At(bind, HeaderSizeOffset(bind).value + 3) == 0xF0 then Ok(()) else Err(Pe.Bounds)
  {
    SignatureFound(bind);
    OffsetInWindow(bind);
  }

  /** A missing or unreadable `.bind` section is the detector's error. */
  lemma {:induction false} CheckOutcomes(img: Pe.Image)
    requires Pe.WellSized(img)
    ensures BindSection(img).Err? ==> CheckIsVariant31(img) == Err(BindSection(img).error)
    ensures (forall j :: 0 <= j < |img.sections| ==> !IsBind(img.sections[j])) ==> CheckIsVariant31(img) == Err(Pe.Null)
    ensures BindSection(img).Ok? ==> CheckIsVariant31(img) == Verdict(BindSection(img).value)
  {
  }
}
