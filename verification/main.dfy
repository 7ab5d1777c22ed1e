/**
 * The debugging binary `src/main.rs`, a first draft of `strip_drm` that
 * stops after the code section has been located: it decodes the stub
 * header, decodes the payload to advance the XOR key, and prints (as
 * base64) the buffer that would be decrypted, the stolen block followed by
 * the code section's raw bytes. Its `bind_section` and
 * `check_is_variant31_x64` are the same text as those of `src/drm.rs` and
 * are modelled once, in `Drm`.
 *
 * As in `Unpack`, every panic of the source is a precondition and every
 * `?` is an `Err` result.
 */
module MainRs {
  import opened Wrappers
  import opened LittleEndian
  import RollingXor
  import Pe
  import Aes
  import StubHeaders
  import Drm
  import Unpack

  // ---------------------------------------------------------------------------
  // get_owner_section, returning only the header
  // ---------------------------------------------------------------------------

  /** The header of the first section whose range contains `rva`, or `None`. */
  function OwnerHeader(img: Pe.Image, rva: bv32): (r: Option<Pe.SectionHeader>)
    requires Pe.WellSized(img) && Drm.OwnerDefined(img.sections, rva)
    ensures r.None? <==> forall j :: 0 <= j < |img.sections| ==> !Drm.Owns(img.sections[j], rva)
    ensures r.Some? ==> Drm.Owns(r.value, rva)
  {
    match Drm.GetOwnerSection(img, rva)
    case None => None
    case Some((_, s)) => Some(s)
  }

  /**
   * `get_owner_section` as the loop of `src/main.rs` runs it: the first
   * section with `VirtualAddress <= rva < VirtualAddress + size`.
   */
  method GetOwnerSection(img: Pe.Image, rva: bv32) returns (r: Option<Pe.SectionHeader>)
    requires Pe.WellSized(img) && Drm.OwnerDefined(img.sections, rva)
    ensures r == OwnerHeader(img, rva)
  {
    var i := 0;
    while i < |img.sections|
      invariant 0 <= i <= |img.sections|
      invariant forall j :: 0 <= j < i ==> !Drm.Owns(img.sections[j], rva)
    {
      var s := img.sections[i];
      SumFitsAt(img.sections, rva, i);
      if InRange(s, rva) {
        FirstOwner(img, rva, i);
        return Some(s);
      }
      i := i + 1;
    }
    return None;
  }

  /**
   * The test of one section: a zero `VirtualSize` falls back to
   * `SizeOfRawData`, and the `u32` sum is only formed once
   * `rva >= VirtualAddress` holds.
   */
  function InRange(s: Pe.SectionHeader, rva: bv32): (r: bool)
    requires |s| == Pe.SectionHeaderSize && Drm.SumFits(s, rva)
    ensures r <==> Drm.Owns(s, rva)
  {
    var size := if Pe.VirtualSize(s) == 0 then Pe.SizeOfRawData(s) else Pe.VirtualSize(s);
    rva >= Pe.VirtualAddress(s) && (rva as int) < Pe.VirtualAddress(s) as int + size as int
  }

  /** The search reaches section `i` only when no earlier section owns `rva`, so its sum fits there. */
  lemma {:induction false} SumFitsAt(sections: seq<Pe.SectionHeader>, rva: bv32, i: nat)
    requires forall k :: 0 <= k < |sections| ==> |sections[k]| == Pe.SectionHeaderSize
    requires Drm.OwnerDefined(sections, rva)
    requires i < |sections| && forall j :: 0 <= j < i ==> !Drm.Owns(sections[j], rva)
    ensures Drm.SumFits(sections[i], rva)
  {
  }

  /** A section that owns `rva` after sections that do not is the one the library-side search finds. */
  lemma {:induction false} FirstOwner(img: Pe.Image, rva: bv32, i: nat)
    requires Pe.WellSized(img) && Drm.OwnerDefined(img.sections, rva)
    requires i < |img.sections| && Drm.Owns(img.sections[i], rva)
    requires forall j :: 0 <= j < i ==> !Drm.Owns(img.sections[j], rva)
    ensures OwnerHeader(img, rva) == Some(img.sections[i])
  {
    var found := Drm.GetOwnerSection(img, rva);
    assert found.Some?;
    var k := found.value.0;
    assert !(k < i) && !(i < k);
  }

  // ---------------------------------------------------------------------------
  // strip_drm of src/main.rs
  // ---------------------------------------------------------------------------

  /**
   * What the draft leaves behind: the XOR key after the payload, and the
   * buffer it prints, `None` when it prints nothing.
   */
  datatype Probe = Probe(xorKey: bv32, code: Option<seq<byte>>)

  /**
   * The key after the payload: `steam_xor(payload, payload_size, xor_key)`
   * when the rounded size is not zero, the header's key otherwise.
   */
  function PayloadKey(data: seq<byte>, at: nat, h: StubHeaders.StubHeader, key: bv32): (k: bv32)
    requires h.payloadSize <= 0xFFFF_FFF0 && Unpack.PayloadInFile(data, at, Unpack.PayloadSize(h))
  {
    PayloadWords(h);
    KeyAfter(data, at, Unpack.PayloadSize(h), key)
  }

  /** The key after `steam_xor` over `size` bytes from `at`, when `size` is not zero. */
  function KeyAfter(data: seq<byte>, at: nat, size: nat, key: bv32): bv32
    requires size != 0 ==> 16 <= size < 0x1_0000_0000 && size % 4 == 0 && at + size <= |data|
  {
    if size == 0 then key
    else
      LastKey(data[at..at + size], size, key);
      RollingXor.SteamXor(data[at..at + size], size, key).1
  }

  /** A non-empty rounded payload is a whole number of words, at least four of them. */
  lemma {:induction false} PayloadWords(h: StubHeaders.StubHeader)
    requires h.payloadSize <= 0xFFFF_FFF0
    ensures Unpack.PayloadSize(h) != 0 ==>
      16 <= Unpack.PayloadSize(h) < 0x1_0000_0000 && Unpack.PayloadSize(h) % 4 == 0
  {
    Unpack.RoundUp16Bounds(h.payloadSize);
    if Unpack.PayloadSize(h) != 0 {
      Unpack.MultipleOf16(Unpack.RoundUp16(h.payloadSize));
    }
  }

  /**
   * The key handed on is the payload's last encoded word, whatever the key
   * it started from; an empty payload leaves the key alone.
   */
  lemma {:induction false} PayloadKeyIsLastWord(data: seq<byte>, at: nat, h: StubHeaders.StubHeader, key: bv32)
    requires h.payloadSize <= 0xFFFF_FFF0 && Unpack.PayloadInFile(data, at, Unpack.PayloadSize(h))
    ensures Unpack.PayloadSize(h) == 0 ==> PayloadKey(data, at, h, key) == key
    ensures Unpack.PayloadSize(h) != 0 ==>
      && 4 <= Unpack.PayloadSize(h) <= at + Unpack.PayloadSize(h) <= |data|
      && PayloadKey(data, at, h, key) == U32At(data, at + Unpack.PayloadSize(h) - 4)
  {
    var size := Unpack.PayloadSize(h);
    PayloadWords(h);
    assert PayloadKey(data, at, h, key) == KeyAfter(data, at, size, key);
    KeyAfterIsLastWord(data, at, size, key);
  }

  /** `KeyAfter` is the word that ends the decoded bytes, or the key when there are none. */
  lemma {:induction false} KeyAfterIsLastWord(data: seq<byte>, at: nat, size: nat, key: bv32)
    requires size != 0 ==> 16 <= size < 0x1_0000_0000 && size % 4 == 0 && at + size <= |data|
    ensures size == 0 ==> KeyAfter(data, at, size, key) == key
    ensures size != 0 ==> KeyAfter(data, at, size, key) == U32At(data, at + size - 4)
  {
    if size != 0 {
      var payload := data[at..at + size];
      LastKey(payload, size, key);
      U32AtInSlice(data, at, payload, size - 4);
    }
  }

  /** `steam_xor` over a whole number of words returns the last of them, as it was encoded. */
  lemma {:induction false} LastKey(payload: seq<byte>, n: nat, key: bv32)
    requires |payload| == n && 16 <= n < 0x1_0000_0000 && n % 4 == 0
    ensures RollingXor.SteamXorDefined(payload, n, key)
    ensures RollingXor.SteamXor(payload, n, key).1 == U32At(payload, n - 4)
  {
    Unpack.WholeWords(n);
    RollingXor.SteamXorWords(payload, n, key);
  }

  /**
   * The code stage of the draft reaches the owner lookup without overflow,
   * and the copy of the owner's raw bytes stays inside the file.
   */
  predicate CodeReadable(img: Pe.Image, h: StubHeaders.StubHeader)
    requires Pe.WellSized(img)
  {
    Unpack.CodeEncrypted(h) ==>
      && Drm.OwnerDefined(img.sections, Unpack.CodeRva(h))
      && match OwnerHeader(img, Unpack.CodeRva(h))
        case None => true
        case Some(cs) => SectionReadable(img, cs)
  }

  /** A section with raw data that maps into the file lies inside it. */
  predicate SectionReadable(img: Pe.Image, cs: Pe.SectionHeader)
    requires |cs| == Pe.SectionHeaderSize
  {
    Pe.SizeOfRawData(cs) != 0 ==>
      match img.rvaToFileOffset(Pe.VirtualAddress(cs))
      case Err(_) => true
      case Ok(at) => at + Pe.SizeOfRawData(cs) as nat <= |img.data|
  }

  /**
   * The buffer the draft prints: the 16 stolen bytes followed by the raw
   * bytes of the section owning the code RVA, when the code is encrypted
   * and that section has raw data.
   */
  function CodeSectionData(img: Pe.Image, h: StubHeaders.StubHeader): (r: Result<Option<seq<byte>>, Pe.Error>)
    requires Pe.WellSized(img) && StubHeaders.WellSized(h) && CodeReadable(img, h)
    ensures r.Ok? && r.value.Some? ==> Unpack.CodeEncrypted(h)
  {
    if !Unpack.CodeEncrypted(h) then Ok(None)
    else match OwnerHeader(img, Unpack.CodeRva(h))
      case None => Ok(None)
      case Some(cs) => SectionData(img, h.codeSectionStolenData, cs)
  }

  /**
   * The buffer is read from the first section owning the code RVA; with no
   * owner, or with the code not encrypted, nothing is read.
   */
  lemma {:induction false} CodeSectionOwner(img: Pe.Image, h: StubHeaders.StubHeader, i: nat)
    requires Pe.WellSized(img) && StubHeaders.WellSized(h) && CodeReadable(img, h)
    requires Unpack.CodeEncrypted(h) && i < |img.sections| && Drm.Owns(img.sections[i], Unpack.CodeRva(h))
    requires forall j :: 0 <= j < i ==> !Drm.Owns(img.sections[j], Unpack.CodeRva(h))
    ensures SectionReadable(img, img.sections[i])
    ensures CodeSectionData(img, h) == SectionData(img, h.codeSectionStolenData, img.sections[i])
  {
    FirstOwner(img, Unpack.CodeRva(h), i);
  }

  /** Without an encrypted code section that some section owns, the draft reads nothing. */
  lemma {:induction false} CodeSectionAbsent(img: Pe.Image, h: StubHeaders.StubHeader)
    requires Pe.WellSized(img) && StubHeaders.WellSized(h) && CodeReadable(img, h)
    requires !Unpack.CodeEncrypted(h) || forall j :: 0 <= j < |img.sections| ==> !Drm.Owns(img.sections[j], Unpack.CodeRva(h))
    ensures CodeSectionData(img, h) == Ok(None)
  {
  }

  /** The stolen bytes followed by the section's raw bytes; `None` when it has none. */
  function SectionData(img: Pe.Image, stolen: seq<byte>, cs: Pe.SectionHeader): (r: Result<Option<seq<byte>>, Pe.Error>)
    requires |cs| == Pe.SectionHeaderSize && SectionReadable(img, cs)
    ensures r == Ok(None) <==> Pe.SizeOfRawData(cs) == 0
    ensures r.Err? <==> Pe.SizeOfRawData(cs) != 0 && img.rvaToFileOffset(Pe.VirtualAddress(cs)).Err?
    ensures r.Err? ==> r.error == img.rvaToFileOffset(Pe.VirtualAddress(cs)).error
    ensures r.Ok? && r.value.Some? ==>
      && Pe.SizeOfRawData(cs) != 0
      && img.rvaToFileOffset(Pe.VirtualAddress(cs)).Ok?
      && var at := img.rvaToFileOffset(Pe.VirtualAddress(cs)).value;
      && at + Pe.SizeOfRawData(cs) as nat <= |img.data|
      && r.value.value == Unpack.CodeBuffer(stolen, img.data, at, Pe.SizeOfRawData(cs) as nat)
  {
    var raw := Pe.SizeOfRawData(cs) as nat;
    var lookup := img.rvaToFileOffset(Pe.VirtualAddress(cs));
    if raw == 0 then Ok(None)
    else if lookup.Err? then Err(lookup.error)
    else Ok(Some(Unpack.CodeBuffer(stolen, img.data, lookup.value, raw)))
  }

  /** The stages after the signature check do not panic, given the payload's file offset. */
  predicate ProbeStageDefined(img: Pe.Image, h: StubHeaders.StubHeader, payloadAt: Result<nat, Pe.Error>)
    requires Pe.WellSized(img)
  {
    match payloadAt
    case Err(_) => true
    case Ok(at) =>
      && h.payloadSize <= 0xFFFF_FFF0
      && Unpack.PayloadInFile(img.data, at, Unpack.PayloadSize(h))
      && CodeReadable(img, h)
  }

  /** The draft's `strip_drm` does not panic on the image. */
  predicate ProbeDefined(img: Pe.Image)
    requires Pe.WellSized(img)
  {
    match img.rvaToFileOffset(Pe.AddressOfEntryPoint(img))
    case Err(_) => true
    case Ok(fileOffset) =>
      && Unpack.HeaderInFile(img.data, fileOffset)
      && Unpack.HeaderAligned(fileOffset)
      && var h := Unpack.HeaderAt(img, fileOffset);
        h.signature == StubHeaders.StubSignature ==>
          && h.bindSectionOffset <= Pe.AddressOfEntryPoint(img)
          && ProbeStageDefined(img, h, Unpack.PayloadOffset(img, h))
  }

  /**
   * `strip_drm` of `src/main.rs`: the key and the printed buffer, or the
   * first error of a library call; `Encoding` when the decoded header lacks
   * the signature.
   */
  function StripDrm(img: Pe.Image): (r: Result<Probe, Pe.Error>)
    requires Pe.WellSized(img) && ProbeDefined(img)
    ensures r.Ok? ==>
      && img.rvaToFileOffset(Pe.AddressOfEntryPoint(img)).Ok?
      && Unpack.HeaderAt(img, img.rvaToFileOffset(Pe.AddressOfEntryPoint(img)).value).signature == StubHeaders.StubSignature
    ensures r.Ok? && r.value.code.Some? ==>
      img.rvaToFileOffset(Pe.AddressOfEntryPoint(img)).Ok? && Unpack.CodeEncrypted(Unpack.HeaderAt(img, img.rvaToFileOffset(Pe.AddressOfEntryPoint(img)).value))
  {
    match img.rvaToFileOffset(Pe.AddressOfEntryPoint(img))
    case Err(e) => Err(e)
    case Ok(fileOffset) =>
      var h := Unpack.HeaderAt(img, fileOffset);
      if h.signature != StubHeaders.StubSignature then Err(Pe.Encoding)
      else ProbeAfterHeader(img, h, Unpack.ReadStub(Unpack.HeaderBytes(img.data, fileOffset)).xorKey, Unpack.PayloadOffset(img, h))
  }

  /** The payload, then the code section. */
  function ProbeAfterHeader(img: Pe.Image, h: StubHeaders.StubHeader, key: bv32, payloadAt: Result<nat, Pe.Error>): (r: Result<Probe, Pe.Error>)
    requires Pe.WellSized(img) && StubHeaders.WellSized(h) && ProbeStageDefined(img, h, payloadAt)
    ensures r.Ok? ==> payloadAt.Ok?
    ensures r.Ok? && r.value.code.Some? ==> Unpack.CodeEncrypted(h)
  {
    match payloadAt
    case Err(e) => Err(e)
    case Ok(at) =>
      var k := PayloadKey(img.data, at, h, key);
      match CodeSectionData(img, h)
      case Err(e) => Err(e)
      case Ok(code) => Ok(Probe(k, code))
  }

  // ---------------------------------------------------------------------------
  // The draft against strip_drm of src/drm.rs
  // ---------------------------------------------------------------------------

  /**
   * The buffer printed, and what `src/drm.rs` makes of the same section:
   * the same error, nothing in both, or the printed buffer decrypted.
   */
  ghost predicate Matches(cipher: Aes.Cipher, h: StubHeaders.StubHeader, printed: Result<Option<seq<byte>>, Pe.Error>, decrypted: Result<Option<seq<byte>>, Pe.Error>) {
    match printed
    case Err(e) => decrypted == Err(e)
    case Ok(None) => decrypted == Ok(None)
    case Ok(Some(buffer)) =>
      && Aes.Valid(cipher) && |h.aesKey| == Aes.KeySize && |h.aesIv| == Aes.BlockSize
      && |buffer| % Aes.BlockSize == 0
      && decrypted == Ok(Some(Unpack.DecryptBuffer(cipher, h.aesKey, h.aesIv, buffer)))
  }

  /** The decrypted code section without its index. */
  function Plain(r: Result<Option<(nat, seq<byte>)>, Pe.Error>): Result<Option<seq<byte>>, Pe.Error> {
    match r
    case Err(e) => Err(e)
    case Ok(None) => Ok(None)
    case Ok(Some((_, plain))) => Ok(Some(plain))
  }

  /**
   * Both versions look the code section up the same way and fail on the
   * same images with the same error, and the draft prints exactly the
   * buffer that `src/drm.rs` decrypts.
   */
  lemma {:induction false} CodeAgrees(img: Pe.Image, h: StubHeaders.StubHeader, cipher: Aes.Cipher)
    requires Pe.WellSized(img) && StubHeaders.WellSized(h) && Aes.Valid(cipher)
    requires CodeReadable(img, h) && Unpack.CodeDefined(img, h)
    ensures Matches(cipher, h, CodeSectionData(img, h), Plain(Unpack.DecryptCode(img, h, cipher)))
  {
    if Unpack.CodeEncrypted(h) {
      match Drm.GetOwnerSection(img, Unpack.CodeRva(h))
      case None =>
      case Some((i, cs)) =>
        assert OwnerHeader(img, Unpack.CodeRva(h)) == Some(cs);
        SectionAgrees(img, h, cipher, cs);
    }
  }

  /** The draft's code stage fails exactly where that of `src/drm.rs` does. */
  lemma {:induction false} CodeFailsAlike(img: Pe.Image, h: StubHeaders.StubHeader, cipher: Aes.Cipher)
    requires Pe.WellSized(img) && StubHeaders.WellSized(h) && Aes.Valid(cipher)
    requires CodeReadable(img, h) && Unpack.CodeDefined(img, h)
    ensures CodeSectionData(img, h).Err? <==> Unpack.CodeFails(img, h)
  {
    CodeAgrees(img, h, cipher);
    Unpack.DecryptCodeFails(img, h, cipher);
  }

  /** The buffer printed for one section is the buffer `src/drm.rs` decrypts for it, with the same failures. */
  lemma {:induction false} SectionAgrees(img: Pe.Image, h: StubHeaders.StubHeader, cipher: Aes.Cipher, cs: Pe.SectionHeader)
    requires |cs| == Pe.SectionHeaderSize && SectionReadable(img, cs) && Unpack.SectionDecryptable(img, cs)
    requires StubHeaders.WellSized(h) && Aes.Valid(cipher)
    ensures Matches(cipher, h, SectionData(img, h.codeSectionStolenData, cs), Unpack.DecryptSection(img, h, cipher, cs))
  {
    var raw := Pe.SizeOfRawData(cs) as nat;
    var lookup := img.rvaToFileOffset(Pe.VirtualAddress(cs));
    if raw != 0 && lookup.Ok? {
      Unpack.StolenBlock(|h.codeSectionStolenData|, raw);
      var buffer := Unpack.CodeBuffer(h.codeSectionStolenData, img.data, lookup.value, raw);
      assert SectionData(img, h.codeSectionStolenData, cs) == Ok(Some(buffer));
      assert Unpack.DecryptSection(img, h, cipher, cs) == Ok(Some(Unpack.DecryptBuffer(cipher, h.aesKey, h.aesIv, buffer)));
    }
  }

  /** The draft succeeds: the entry point maps, the signature matches, the payload and code section are found. */
  predicate ProbeSucceeds(img: Pe.Image)
    requires Pe.WellSized(img) && ProbeDefined(img)
  {
    match img.rvaToFileOffset(Pe.AddressOfEntryPoint(img))
    case Err(_) => false
    case Ok(fileOffset) =>
      var h := Unpack.HeaderAt(img, fileOffset);
      && h.signature == StubHeaders.StubSignature
      && Unpack.PayloadOffset(img, h).Ok?
      && CodeSectionData(img, h).Ok?
  }

  /**
   * The draft fails with the library's error when the entry point has no
   * file offset, with `Encoding` when the signature is wrong, and succeeds
   * exactly when every stage does.
   */
  lemma {:induction false} ProbeOutcomes(img: Pe.Image)
    requires Pe.WellSized(img) && ProbeDefined(img)
    ensures img.rvaToFileOffset(Pe.AddressOfEntryPoint(img)).Err? ==>
      StripDrm(img) == Err(img.rvaToFileOffset(Pe.AddressOfEntryPoint(img)).error)
    ensures match img.rvaToFileOffset(Pe.AddressOfEntryPoint(img))
      case Err(_) => true
      case Ok(fileOffset) => Unpack.HeaderAt(img, fileOffset).signature != StubHeaders.StubSignature ==> StripDrm(img) == Err(Pe.Encoding)
    ensures StripDrm(img).Ok? <==> ProbeSucceeds(img)
  {
    match img.rvaToFileOffset(Pe.AddressOfEntryPoint(img))
    case Err(_) =>
    case Ok(fileOffset) =>
      var stub := Unpack.ReadStub(Unpack.HeaderBytes(img.data, fileOffset));
      if stub.header.signature == StubHeaders.StubSignature {
        StageOutcomes(img, stub.header, stub.xorKey, Unpack.PayloadOffset(img, stub.header));
      }
  }

  /** After the signature check the draft fails only where a lookup fails, with its error. */
  lemma {:induction false} StageOutcomes(img: Pe.Image, h: StubHeaders.StubHeader, key: bv32, payloadAt: Result<nat, Pe.Error>)
    requires Pe.WellSized(img) && StubHeaders.WellSized(h) && ProbeStageDefined(img, h, payloadAt)
    ensures payloadAt.Err? ==> ProbeAfterHeader(img, h, key, payloadAt) == Err(payloadAt.error)
    ensures payloadAt.Ok? ==>
      && (CodeSectionData(img, h).Err? ==> ProbeAfterHeader(img, h, key, payloadAt) == Err(CodeSectionData(img, h).error))
      && (CodeSectionData(img, h).Ok? ==> ProbeAfterHeader(img, h, key, payloadAt).Ok?)
  {
  }

  /**
   * Every failure of the draft is a failure of `strip_drm` of `src/drm.rs`
   * with the same error, and whenever `src/drm.rs` succeeds the draft does
   * too. The converse fails: `src/drm.rs` also reads every section.
   */
  lemma {:induction false} SameFailures(img: Pe.Image, cipher: Aes.Cipher)
    requires Pe.WellSized(img) && Aes.Valid(cipher) && ProbeDefined(img) && Unpack.StripDefined(img)
    ensures StripDrm(img).Err? ==> Unpack.StripDrm(img, cipher) == Err(StripDrm(img).error)
    ensures Unpack.StripDrm(img, cipher).Ok? ==> StripDrm(img).Ok?
  {
    match img.rvaToFileOffset(Pe.AddressOfEntryPoint(img))
    case Err(_) =>
    case Ok(fileOffset) =>
      var stub := Unpack.ReadStub(Unpack.HeaderBytes(img.data, fileOffset));
      var h := stub.header;
      if h.signature == StubHeaders.StubSignature {
        AfterHeaderAgrees(img, h, cipher, stub.xorKey, Unpack.PayloadOffset(img, h));
      }
  }

  /** The stages after the signature check fail alike; `src/drm.rs` succeeding means the draft does. */
  lemma {:induction false} AfterHeaderAgrees(img: Pe.Image, h: StubHeaders.StubHeader, cipher: Aes.Cipher, key: bv32, payloadAt: Result<nat, Pe.Error>)
    requires Pe.WellSized(img) && StubHeaders.WellSized(h) && Aes.Valid(cipher)
    requires ProbeStageDefined(img, h, payloadAt) && Unpack.PayloadStageDefined(img, h, payloadAt)
    ensures ProbeAfterHeader(img, h, key, payloadAt).Err? ==>
      Unpack.StripAfterHeader(img, h, cipher, payloadAt) == Err(ProbeAfterHeader(img, h, key, payloadAt).error)
    ensures Unpack.StripAfterHeader(img, h, cipher, payloadAt).Ok? ==> ProbeAfterHeader(img, h, key, payloadAt).Ok?
  {
    if payloadAt.Ok? {
      CodeAgrees(img, h, cipher);
      Unpack.AfterPayloadOutcomes(img, h, cipher);
    }
  }
}
