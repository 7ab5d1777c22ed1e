/**
 * `strip_drm` of `src/drm.rs`: read the stub header that ends at the entry
 * point, decode the payload (and drop the result), decrypt the code section
 * when the stub encrypted it, and write a new image: DOS header, zeroed DOS
 * stub, patched NT headers, data directories, section headers, section
 * bodies and overlay.
 *
 * Every panic of the source (an integer overflow or underflow, a slice out
 * of range, an `unwrap` of `None` or of an AES length error) is a
 * precondition, stated only for the stages the control flow reaches; every
 * `?` of the source is an `Err` result.
 */
module Unpack {
  import opened Wrappers
  import opened LittleEndian
  import RollingXor
  import Pe
  import Cursors
  import Aes
  import StubHeaders
  import Drm

  // ---------------------------------------------------------------------------
  // The stub header
  // ---------------------------------------------------------------------------

  /** The header and the key `steam_xor` returns after decoding it. */
  datatype Stub = Stub(header: StubHeaders.StubHeader, xorKey: bv32)

  /** The 240 header bytes end at `fileOffset`; the subtraction and the slice must not panic. */
  predicate HeaderInFile(data: seq<byte>, fileOffset: nat) {
    StubHeaders.HeaderSize <= fileOffset <= |data|
  }

  /**
   * `bytemuck::from_bytes` panics unless the header slice is aligned for the
   * header struct, whose `u64` fields give it an alignment of 8. The file
   * copy is taken to start on an 8-byte boundary, as the system allocators
   * place blocks of this size, so the slice is aligned exactly when its
   * offset `fileOffset - 240` is a multiple of 8.
   */
  predicate HeaderAligned(fileOffset: nat)
    requires StubHeaders.HeaderSize <= fileOffset
  {
    (fileOffset - StubHeaders.HeaderSize) % 8 == 0
  }

  /** `steam_xor(header_data, 0xF0, 0)` never panics on 240 bytes. */
  lemma {:induction false} HeaderXorDefined(raw: seq<byte>)
    requires |raw| == StubHeaders.HeaderSize
    ensures RollingXor.SteamXorDefined(raw, StubHeaders.HeaderSize, 0)
  {
  }

  /** The header decoded from its 240 encoded bytes, with the returned key. */
  function ReadStub(raw: seq<byte>): (s: Stub)
    requires |raw| == StubHeaders.HeaderSize
    ensures StubHeaders.WellSized(s.header)
  {
    HeaderXorDefined(raw);
    var (plain, key) := RollingXor.SteamXor(raw, StubHeaders.HeaderSize, 0);
    Stub(StubHeaders.Decode(plain), key)
  }

  /** The encoded header bytes just before the entry point. */
  function HeaderBytes(data: seq<byte>, fileOffset: nat): (raw: seq<byte>)
    requires HeaderInFile(data, fileOffset)
    ensures |raw| == StubHeaders.HeaderSize
  {
    data[fileOffset - StubHeaders.HeaderSize..fileOffset]
  }

  // ---------------------------------------------------------------------------
  // The payload
  // ---------------------------------------------------------------------------

  /** `(p + 0x0F) & 0xFFFFFFF0`, where the addition must not overflow. */
  function RoundUp16(p: bv32): bv32
    requires p <= 0xFFFF_FFF0
  {
    (p + 0x0F) & 0xFFFF_FFF0
  }

  /** The rounded size is the least multiple of 16 that is at least the size. */
  lemma {:induction false} RoundUp16Bounds(p: bv32)
    requires p <= 0xFFFF_FFF0
    ensures RoundUp16(p) & 0xF == 0
    ensures p <= RoundUp16(p) <= p + 15
  {
  }

  /** Only an empty payload rounds to zero. */
  lemma {:induction false} RoundUp16Zero(p: bv32)
    requires p <= 0xFFFF_FFF0
    ensures RoundUp16(p) == 0 <==> p == 0
  {
  }

  /** `payload_size` rounded up, which must not overflow. */
  function PayloadSize(h: StubHeaders.StubHeader): nat
    requires h.payloadSize <= 0xFFFF_FFF0
  {
    RoundUp16(h.payloadSize) as nat
  }

  /** A non-empty payload window must lie inside the file. */
  predicate PayloadInFile(data: seq<byte>, payloadAt: nat, size: nat) {
    size != 0 ==> payloadAt + size <= |data|
  }

  /**
   * `steam_xor(payload, payload_size, xor_key)` on a non-empty payload whose
   * size is a multiple of 16; `src/drm.rs` decodes it in a copy and drops
   * the result.
   */
  function DecodePayload(payload: seq<byte>, size: bv32, key: bv32): (r: (seq<byte>, bv32))
    requires size != 0 && size & 0xF == 0 && |payload| == size as nat
    ensures |r.0| == |payload|
  {
    PayloadXorDefined(payload, size, key);
    RollingXor.SteamXor(payload, size as nat, key)
  }

  /** A non-zero multiple of 16 is a whole number of words, at least the seed word. */
  lemma {:induction false} PayloadXorDefined(payload: seq<byte>, size: bv32, key: bv32)
    requires size != 0 && size & 0xF == 0 && |payload| == size as nat
    ensures RollingXor.SteamXorDefined(payload, size as nat, key)
  {
    MultipleOf16(size);
    WholeWords(size as nat);
  }

  /** A size that is a whole number of words is covered by exactly its words. */
  lemma {:induction false} WholeWords(n: nat)
    requires n % 4 == 0
    ensures 4 * RollingXor.WordCount(n) == n
  {
    var q := n / 4;
    assert n == 4 * q;
    assert (4 * q + 3) / 4 == q;
  }

  lemma {:induction false} MultipleOf16(size: bv32)
    requires size != 0 && size & 0xF == 0
    ensures size as nat % 4 == 0 && 16 <= size as nat
  {
    assert size == (size >> 2) * 4;
    assert 16 <= size;
  }

  // ---------------------------------------------------------------------------
  // The code section
  // ---------------------------------------------------------------------------

  /** `flags & 4 != 4`: the stub encrypted the code section. */
  predicate CodeEncrypted(h: StubHeaders.StubHeader) {
    h.flags & 4 != 4
  }

  /** The RVA the code section is looked up by: `code_section_virtual_address as u32`. */
  function CodeRva(h: StubHeaders.StubHeader): bv32 {
    Low32(h.codeSectionVirtualAddress)
  }

  /** The code stage looks the section up without overflow and, if it decrypts, does not panic. */
  predicate CodeDefined(img: Pe.Image, h: StubHeaders.StubHeader)
    requires Pe.WellSized(img)
  {
    CodeEncrypted(h) ==>
      && Drm.OwnerDefined(img.sections, CodeRva(h))
      && match Drm.GetOwnerSection(img, CodeRva(h))
        case None => true
        case Some((_, cs)) => SectionDecryptable(img, cs)
  }

  /** A code section with raw data holds whole blocks, and they lie inside the file. */
  predicate SectionDecryptable(img: Pe.Image, cs: Pe.SectionHeader)
    requires |cs| == Pe.SectionHeaderSize
  {
    var raw := Pe.SizeOfRawData(cs) as nat;
    raw > 0 ==>
      && raw % Aes.BlockSize == 0
      && match img.rvaToFileOffset(Pe.VirtualAddress(cs))
        case Err(_) => true
        case Ok(at) => at + raw <= |img.data|
  }

  /** The working buffer: the 16 stolen bytes, then the section's raw bytes from the file. */
  function CodeBuffer(stolen: seq<byte>, data: seq<byte>, at: nat, raw: nat): (b: seq<byte>)
    requires at + raw <= |data|
    ensures |b| == |stolen| + raw
    ensures b[..|stolen|] == stolen && b[|stolen|..] == data[at..at + raw]
  {
    stolen + data[at..at + raw]
  }

  /**
   * The decrypted code section and its index, `None` when the code is not
   * encrypted, no section holds its RVA, or that section has no raw data.
   * The IV is first decrypted with the key in ECB mode; the buffer is then
   * decrypted in CBC mode with that IV.
   */
  function DecryptCode(img: Pe.Image, h: StubHeaders.StubHeader, cipher: Aes.Cipher): (r: Result<Option<(nat, seq<byte>)>, Pe.Error>)
    requires Pe.WellSized(img) && StubHeaders.WellSized(h) && Aes.Valid(cipher) && CodeDefined(img, h)
    ensures r.Ok? && r.value.Some? ==>
      && CodeEncrypted(h)
      && r.value.value.0 < |img.sections|
      && Drm.Owns(img.sections[r.value.value.0], CodeRva(h))
  {
    if !CodeEncrypted(h) then Ok(None)
    else match Drm.GetOwnerSection(img, CodeRva(h))
      case None => Ok(None)
      case Some((i, cs)) =>
        match DecryptSection(img, h, cipher, cs)
        case Err(e) => Err(e)
        case Ok(None) => Ok(None)
        case Ok(Some(plain)) => Ok(Some((i, plain)))
  }

  /** The decryption of one code section: `None` when it has no raw data. */
  function DecryptSection(img: Pe.Image, h: StubHeaders.StubHeader, cipher: Aes.Cipher, cs: Pe.SectionHeader): (r: Result<Option<seq<byte>>, Pe.Error>)
    requires |cs| == Pe.SectionHeaderSize && SectionDecryptable(img, cs)
    requires StubHeaders.WellSized(h) && Aes.Valid(cipher)
  {
    var raw := Pe.SizeOfRawData(cs) as nat;
    if raw == 0 then Ok(None)
    else match img.rvaToFileOffset(Pe.VirtualAddress(cs))
      case Err(e) => Err(e)
      case Ok(at) =>
        StolenBlock(|h.codeSectionStolenData|, raw);
        var buffer := CodeBuffer(h.codeSectionStolenData, img.data, at, raw);
        Ok(Some(DecryptBuffer(cipher, h.aesKey, h.aesIv, buffer)))
  }

  /** The IV decrypted in ECB mode, then the buffer decrypted in CBC mode with it, in place. */
  function DecryptBuffer(cipher: Aes.Cipher, key: seq<byte>, encryptedIv: seq<byte>, buffer: seq<byte>): (r: seq<byte>)
    requires Aes.Valid(cipher) && |key| == Aes.KeySize && |encryptedIv| == Aes.BlockSize
    requires |buffer| % Aes.BlockSize == 0
    ensures |r| == |buffer|
  {
    var iv := Aes.EcbDecrypt(cipher, key, encryptedIv);
    Aes.CbcDecrypt(cipher, key, iv, buffer)
  }

  /** One stolen block in front of whole blocks is whole blocks. */
  lemma {:induction false} StolenBlock(stolen: nat, raw: nat)
    requires stolen == Aes.BlockSize && raw % Aes.BlockSize == 0
    ensures (stolen + raw) % Aes.BlockSize == 0
  {
    var q := raw / 16;
    assert raw == 16 * q;
    assert 16 + raw == 16 * (q + 1);
  }

  /** The code stage fails exactly when the file offset of the code section cannot be found. */
  predicate CodeFails(img: Pe.Image, h: StubHeaders.StubHeader)
    requires Pe.WellSized(img) && CodeDefined(img, h)
  {
    && CodeEncrypted(h)
    && match Drm.GetOwnerSection(img, CodeRva(h))
      case None => false
      case Some((_, cs)) => Pe.SizeOfRawData(cs) != 0 && img.rvaToFileOffset(Pe.VirtualAddress(cs)).Err?
  }

  // ---------------------------------------------------------------------------
  // The output, as the list of writes the cursor makes
  // ---------------------------------------------------------------------------

  /** The NT headers with `AddressOfEntryPoint` set to the original entry point and `CheckSum` cleared. */
  function NtPatched(nt: seq<byte>, originalEntryPoint: bv64): (r: seq<byte>)
    requires |nt| == Pe.NtHeadersSize
    ensures |r| == Pe.NtHeadersSize
  {
    WriteU32At(WriteU32At(nt, Pe.EntryPointOffset, Low32(originalEntryPoint)), Pe.CheckSumOffset, 0)
  }

  /** Where the NT headers go: after the DOS stub when `e_lfanew` points past the DOS header. */
  function NtStart(img: Pe.Image): (r: nat)
    requires Pe.WellSized(img)
    ensures Pe.DosHeaderSize <= r
  {
    if Pe.ELfanew(img) > Pe.DosHeaderSize as bv32 then Pe.ELfanew(img) as nat else Pe.DosHeaderSize
  }

  /** Where the section headers go: after the NT headers and the data directories. */
  function SectionHeadersStart(img: Pe.Image): nat
    requires Pe.WellSized(img)
  {
    NtStart(img) + Pe.NtHeadersSize + Pe.DirectorySize * |img.directories|
  }

  /** Where the headers end. */
  function HeadersEnd(img: Pe.Image): nat
    requires Pe.WellSized(img)
  {
    SectionHeadersStart(img) + Pe.SectionHeaderSize * |img.sections|
  }

  /** The zeroed DOS stub, written only when `e_lfanew` points past the DOS header. */
  function StubChunk(img: Pe.Image): (r: seq<Cursors.Chunk>)
    requires Pe.WellSized(img)
    ensures |r| <= 1
    ensures r != [] ==> r[0].at == Pe.DosHeaderSize && r[0].at + |r[0].bytes| == NtStart(img)
  {
    if Pe.ELfanew(img) > Pe.DosHeaderSize as bv32
    then [Cursors.Chunk(Pe.DosHeaderSize, Zeros(Pe.ELfanew(img) as nat - Pe.DosHeaderSize))]
    else []
  }

  /** The data directories, one after the other from `at`. */
  function DirChunks(dirs: seq<seq<byte>>, at: nat): (r: seq<Cursors.Chunk>)
    ensures |r| == |dirs|
    decreases |dirs|
  {
    if dirs == [] then []
    else DirChunks(dirs[..|dirs| - 1], at) + [Cursors.Chunk(at + Pe.DirectorySize * (|dirs| - 1), dirs[|dirs| - 1])]
  }

  /** The writes before the section loop: DOS header, DOS stub, NT headers, data directories. */
  function PrefixChunks(img: Pe.Image, originalEntryPoint: bv64): (r: seq<Cursors.Chunk>)
    requires Pe.WellSized(img)
  {
    [Cursors.Chunk(0, img.dos)] + StubChunk(img)
      + [Cursors.Chunk(NtStart(img), NtPatched(img.nt, originalEntryPoint))]
      + DirChunks(img.directories, NtStart(img) + Pe.NtHeadersSize)
  }

  /** Section `i`'s body, placed at its `PointerToRawData`. */
  function BodyChunks(sections: seq<Pe.SectionHeader>, bodies: seq<seq<byte>>): (r: seq<Cursors.Chunk>)
    requires |sections| == |bodies|
    requires forall i :: 0 <= i < |sections| ==> |sections[i]| == Pe.SectionHeaderSize
    ensures |r| == |sections|
    decreases |sections|
  {
    if sections == [] then []
    else
      var n := |sections| - 1;
      BodyChunks(sections[..n], bodies[..n]) + [Cursors.Chunk(Pe.PointerToRawData(sections[n]) as nat, bodies[n])]
  }

  /**
   * The writes of the section loop: section `i`'s header at `at + 40 i`,
   * then its placed body.
   */
  function SectionChunks(headers: seq<seq<byte>>, placed: seq<Cursors.Chunk>, at: nat): (r: seq<Cursors.Chunk>)
    requires |headers| == |placed|
    ensures |r| == 2 * |headers|
    decreases |headers|
  {
    if headers == [] then []
    else
      var n := |headers| - 1;
      SectionChunks(headers[..n], placed[..n], at) + [Cursors.Chunk(at + Pe.SectionHeaderSize * n, headers[n]), placed[n]]
  }

  /** Every write of the reconstruction, in order. */
  function Chunks(img: Pe.Image, originalEntryPoint: bv64, bodies: seq<seq<byte>>): seq<Cursors.Chunk>
    requires Pe.WellSized(img) && |bodies| == |img.sections|
  {
    PrefixChunks(img, originalEntryPoint) + SectionChunks(img.sections, BodyChunks(img.sections, bodies), SectionHeadersStart(img))
  }

  // ---------------------------------------------------------------------------
  // Section bodies
  // ---------------------------------------------------------------------------

  /** The body written for section `i`: the decrypted code if `i` is the code section, else its bytes. */
  function Body(i: nat, bytes: seq<byte>, decrypted: Option<(nat, seq<byte>)>): seq<byte> {
    match decrypted
    case Some((k, plain)) => if k == i then plain else bytes
    case None => bytes
  }

  /**
   * The bodies of the first `n` sections: `get_section_bytes` of each in
   * order, stopping at the first error.
   */
  function BodiesUpTo(img: Pe.Image, decrypted: Option<(nat, seq<byte>)>, n: nat): (r: Result<seq<seq<byte>>, Pe.Error>)
    requires n <= |img.sections|
    ensures r.Ok? ==> |r.value| == n
  {
    if n == 0 then Ok([])
    else match BodiesUpTo(img, decrypted, n - 1)
      case Err(e) => Err(e)
      case Ok(bodies) =>
        match img.sectionBytes(img.sections[n - 1])
        case Err(e) => Err(e)
        case Ok(bytes) => Ok(bodies + [Body(n - 1, bytes, decrypted)])
  }

  /**
   * Reading succeeds exactly when every section is readable, and then gives
   * each section's body in order; otherwise it gives the error of the first
   * section that is not.
   */
  lemma {:induction false} BodiesOutcomes(img: Pe.Image, decrypted: Option<(nat, seq<byte>)>, n: nat)
    requires n <= |img.sections|
    ensures BodiesUpTo(img, decrypted, n).Ok? <==> ReadableBefore(img, n)
    ensures BodiesUpTo(img, decrypted, n).Ok? ==> forall i :: 0 <= i < n ==>
      BodiesUpTo(img, decrypted, n).value[i] == Body(i, img.sectionBytes(img.sections[i]).value, decrypted)
    ensures BodiesUpTo(img, decrypted, n).Err? ==>
      exists i :: 0 <= i < n && FirstError(img, i, BodiesUpTo(img, decrypted, n).error)
  {
    if n > 0 {
      BodiesOutcomes(img, decrypted, n - 1);
      if BodiesUpTo(img, decrypted, n - 1).Ok? && img.sectionBytes(img.sections[n - 1]).Err? {
        assert FirstError(img, n - 1, BodiesUpTo(img, decrypted, n).error);
      }
    }
  }

  /** Section `i` is the first that cannot be read, and reading it gives `e`. */
  predicate FirstError(img: Pe.Image, i: nat, e: Pe.Error)
    requires i < |img.sections|
  {
    img.sectionBytes(img.sections[i]) == Err(e) && ReadableBefore(img, i)
  }

  /** Every section before `i` is readable. */
  predicate ReadableBefore(img: Pe.Image, i: nat)
    requires i <= |img.sections|
  {
    forall j :: 0 <= j < i ==> img.sectionBytes(img.sections[j]).Ok?
  }

  function Bodies(img: Pe.Image, decrypted: Option<(nat, seq<byte>)>): Result<seq<seq<byte>>, Pe.Error> {
    BodiesUpTo(img, decrypted, |img.sections|)
  }

  // ---------------------------------------------------------------------------
  // The overlay
  // ---------------------------------------------------------------------------

  /**
   * `last_section.SizeOfRawData + last_section.PointerToRawData`, a `u32`
   * sum that must not overflow; the last section must exist.
   */
  predicate OverlayDefined(img: Pe.Image)
    requires Pe.WellSized(img)
  {
    && |img.sections| > 0
    && var last := img.sections[|img.sections| - 1];
      Pe.SizeOfRawData(last) as nat + Pe.PointerToRawData(last) as nat < 0x1_0000_0000
  }

  /** Where the last section's raw data ends, which is where the overlay starts. */
  function FileSize(img: Pe.Image): nat
    requires Pe.WellSized(img) && OverlayDefined(img)
  {
    var last := img.sections[|img.sections| - 1];
    Pe.SizeOfRawData(last) as nat + Pe.PointerToRawData(last) as nat
  }

  /** The bytes of the file past its last section, appended at the end of the output. */
  function Overlay(img: Pe.Image): (r: seq<byte>)
    requires Pe.WellSized(img) && OverlayDefined(img)
    ensures |r| == if FileSize(img) < |img.data| then |img.data| - FileSize(img) else 0
  {
    if FileSize(img) < |img.data| then img.data[FileSize(img)..] else []
  }

  /** The output: the writes replayed into an empty buffer, then the overlay written at its end. */
  function Output(img: Pe.Image, originalEntryPoint: bv64, bodies: seq<seq<byte>>): (r: seq<byte>)
    requires Pe.WellSized(img) && |bodies| == |img.sections| && OverlayDefined(img)
    ensures |r| == |Cursors.Replay([], Chunks(img, originalEntryPoint, bodies))| + |Overlay(img)|
  {
    var buf := Cursors.Replay([], Chunks(img, originalEntryPoint, bodies));
    Cursors.WriteAt(buf, |buf|, Overlay(img))
  }

  /** `get_section_bytes` succeeds for every section. */
  predicate SectionsReadable(img: Pe.Image) {
    forall i :: 0 <= i < |img.sections| ==> img.sectionBytes(img.sections[i]).Ok?
  }

  // ---------------------------------------------------------------------------
  // strip_drm
  // ---------------------------------------------------------------------------

  /** The header of the image, read from the 240 bytes before the entry point. */
  function HeaderAt(img: Pe.Image, fileOffset: nat): (h: StubHeaders.StubHeader)
    requires Pe.WellSized(img) && HeaderInFile(img.data, fileOffset)
    ensures StubHeaders.WellSized(h)
  {
    ReadStub(HeaderBytes(img.data, fileOffset)).header
  }

  /** The file offset of the payload, which lies `bind_section_offset` bytes before the entry point. */
  function PayloadOffset(img: Pe.Image, h: StubHeaders.StubHeader): Result<nat, Pe.Error>
    requires Pe.WellSized(img) && h.bindSectionOffset <= Pe.AddressOfEntryPoint(img)
  {
    img.rvaToFileOffset(Pe.AddressOfEntryPoint(img) - h.bindSectionOffset)
  }

  /** No stage after a valid signature panics: see the module comment. */
  predicate AfterHeaderDefined(img: Pe.Image, h: StubHeaders.StubHeader)
    requires Pe.WellSized(img)
  {
    && h.bindSectionOffset <= Pe.AddressOfEntryPoint(img)
    && PayloadStageDefined(img, h, PayloadOffset(img, h))
  }

  /** No stage after the payload lookup, which gave `payloadAt`, panics. */
  predicate PayloadStageDefined(img: Pe.Image, h: StubHeaders.StubHeader, payloadAt: Result<nat, Pe.Error>)
    requires Pe.WellSized(img)
  {
    match payloadAt
    case Err(_) => true
    case Ok(at) =>
      && h.payloadSize <= 0xFFFF_FFF0
      && PayloadInFile(img.data, at, PayloadSize(h))
      && CodeDefined(img, h)
      && (!CodeFails(img, h) && SectionsReadable(img) ==> OverlayDefined(img))
  }

  /** `strip_drm` does not panic on the image. */
  predicate StripDefined(img: Pe.Image)
    requires Pe.WellSized(img)
  {
    match img.rvaToFileOffset(Pe.AddressOfEntryPoint(img))
    case Err(_) => true
    case Ok(fileOffset) =>
      && HeaderInFile(img.data, fileOffset)
      && HeaderAligned(fileOffset)
      && var h := HeaderAt(img, fileOffset);
        h.signature == StubHeaders.StubSignature ==> AfterHeaderDefined(img, h)
  }

  /**
   * `strip_drm`: the unpacked image, or the first error of a library call;
   * `Encoding` when the decoded header lacks the signature.
   */
  function StripDrm(img: Pe.Image, cipher: Aes.Cipher): (r: Result<seq<byte>, Pe.Error>)
    requires Pe.WellSized(img) && Aes.Valid(cipher) && StripDefined(img)
    ensures r.Ok? ==>
      && img.rvaToFileOffset(Pe.AddressOfEntryPoint(img)).Ok?
      && HeaderAt(img, img.rvaToFileOffset(Pe.AddressOfEntryPoint(img)).value).signature == StubHeaders.StubSignature
  {
    match img.rvaToFileOffset(Pe.AddressOfEntryPoint(img))
    case Err(e) => Err(e)
    case Ok(fileOffset) =>
      var h := HeaderAt(img, fileOffset);
      if h.signature != StubHeaders.StubSignature then Err(Pe.Encoding)
      else StripAfterHeader(img, h, cipher, PayloadOffset(img, h))
  }

  /**
   * The stages after the signature check, given the file offset found for
   * the payload at `AddressOfEntryPoint - bind_section_offset`: payload,
   * code section, output.
   */
  function StripAfterHeader(img: Pe.Image, h: StubHeaders.StubHeader, cipher: Aes.Cipher, payloadAt: Result<nat, Pe.Error>): Result<seq<byte>, Pe.Error>
    requires Pe.WellSized(img) && StubHeaders.WellSized(h) && Aes.Valid(cipher) && PayloadStageDefined(img, h, payloadAt)
  {
    match payloadAt
    case Err(e) => Err(e)
    case Ok(_) => AfterPayload(img, h, cipher)
  }

  /** The code section is decrypted; then the output is written. */
  function AfterPayload(img: Pe.Image, h: StubHeaders.StubHeader, cipher: Aes.Cipher): Result<seq<byte>, Pe.Error>
    requires Pe.WellSized(img) && StubHeaders.WellSized(h) && Aes.Valid(cipher) && CodeDefined(img, h)
    requires !CodeFails(img, h) && SectionsReadable(img) ==> OverlayDefined(img)
  {
    DecryptCodeFails(img, h, cipher);
    match DecryptCode(img, h, cipher)
    case Err(e) => Err(e)
    case Ok(decrypted) => Rebuild(img, h.originalEntryPoint, decrypted)
  }

  /** Read every section's bytes, then write the output. */
  function Rebuild(img: Pe.Image, originalEntryPoint: bv64, decrypted: Option<(nat, seq<byte>)>): Result<seq<byte>, Pe.Error>
    requires Pe.WellSized(img) && (SectionsReadable(img) ==> OverlayDefined(img))
  {
    BodiesOutcomes(img, decrypted, |img.sections|);
    match Bodies(img, decrypted)
    case Err(e) => Err(e)
    case Ok(bodies) => Ok(Output(img, originalEntryPoint, bodies))
  }

  /** `strip_drm_from_exe`: parse the file with the PE library, then strip it. */
  function StripDrmFromExe(file: seq<byte>, parse: seq<byte> -> Result<Pe.Image, Pe.Error>, cipher: Aes.Cipher): (r: Result<seq<byte>, Pe.Error>)
    requires Aes.Valid(cipher)
    requires parse(file).Ok? ==> parse(file).value.data == file
    requires parse(file).Ok? ==> Pe.WellSized(parse(file).value) && StripDefined(parse(file).value)
    ensures r.Ok? ==> parse(file).Ok?
  {
    match parse(file)
    case Err(e) => Err(e)
    case Ok(img) => StripDrm(img, cipher)
  }

  /** A section without raw data is skipped; otherwise only the file offset lookup can fail. */
  lemma {:induction false} DecryptSectionOutcomes(img: Pe.Image, h: StubHeaders.StubHeader, cipher: Aes.Cipher, cs: Pe.SectionHeader)
    requires |cs| == Pe.SectionHeaderSize && SectionDecryptable(img, cs)
    requires StubHeaders.WellSized(h) && Aes.Valid(cipher)
    ensures DecryptSection(img, h, cipher, cs).Err? <==>
      Pe.SizeOfRawData(cs) != 0 && img.rvaToFileOffset(Pe.VirtualAddress(cs)).Err?
    ensures DecryptSection(img, h, cipher, cs) == Ok(None) <==> Pe.SizeOfRawData(cs) == 0
    ensures DecryptSection(img, h, cipher, cs).Ok? && DecryptSection(img, h, cipher, cs).value.Some? ==>
      |DecryptSection(img, h, cipher, cs).value.value| == Aes.BlockSize + Pe.SizeOfRawData(cs) as nat
    ensures DecryptSection(img, h, cipher, cs).Ok? && DecryptSection(img, h, cipher, cs).value.Some? ==>
      && img.rvaToFileOffset(Pe.VirtualAddress(cs)).Ok?
      && var at := img.rvaToFileOffset(Pe.VirtualAddress(cs)).value;
      && at + Pe.SizeOfRawData(cs) as nat <= |img.data|
      && var buffer := CodeBuffer(h.codeSectionStolenData, img.data, at, Pe.SizeOfRawData(cs) as nat);
      && |buffer| % Aes.BlockSize == 0
      && DecryptSection(img, h, cipher, cs).value.value == DecryptBuffer(cipher, h.aesKey, h.aesIv, buffer)
  {
    var raw := Pe.SizeOfRawData(cs) as nat;
    var lookup := img.rvaToFileOffset(Pe.VirtualAddress(cs));
    if raw != 0 && lookup.Ok? {
      StolenBlock(|h.codeSectionStolenData|, raw);
      var buffer := CodeBuffer(h.codeSectionStolenData, img.data, lookup.value, raw);
      assert DecryptSection(img, h, cipher, cs) == Ok(Some(DecryptBuffer(cipher, h.aesKey, h.aesIv, buffer)));
    }
  }

  /** The code stage fails exactly as `CodeFails` says. */
  lemma {:induction false} DecryptCodeFails(img: Pe.Image, h: StubHeaders.StubHeader, cipher: Aes.Cipher)
    requires Pe.WellSized(img) && StubHeaders.WellSized(h) && Aes.Valid(cipher) && CodeDefined(img, h)
    ensures DecryptCode(img, h, cipher).Err? <==> CodeFails(img, h)
  {
    if CodeEncrypted(h) {
      match Drm.GetOwnerSection(img, CodeRva(h))
      case None =>
      case Some((i, cs)) =>
        DecryptSectionOutcomes(img, h, cipher, cs);
    }
  }

  /**
   * An unencrypted code section is left alone; when the code stage decrypts,
   * it names an existing section that owns the code RVA and returns the
   * stolen block followed by that section's raw data, decrypted.
   */
  lemma {:induction false} DecryptCodeOutcomes(img: Pe.Image, h: StubHeaders.StubHeader, cipher: Aes.Cipher)
    requires Pe.WellSized(img) && StubHeaders.WellSized(h) && Aes.Valid(cipher) && CodeDefined(img, h)
    ensures !CodeEncrypted(h) ==> DecryptCode(img, h, cipher) == Ok(None)
    ensures DecryptCode(img, h, cipher).Ok? && DecryptCode(img, h, cipher).value.Some? ==>
      var (i, plain) := DecryptCode(img, h, cipher).value.value;
      && CodeEncrypted(h)
      && i < |img.sections|
      && Drm.Owns(img.sections[i], CodeRva(h))
      && Drm.GetOwnerSection(img, CodeRva(h)) == Some((i, img.sections[i]))
      && |plain| == Aes.BlockSize + Pe.SizeOfRawData(img.sections[i]) as nat
      && Pe.SizeOfRawData(img.sections[i]) != 0
      && img.rvaToFileOffset(Pe.VirtualAddress(img.sections[i])).Ok?
      && var at := img.rvaToFileOffset(Pe.VirtualAddress(img.sections[i])).value;
      && at + Pe.SizeOfRawData(img.sections[i]) as nat <= |img.data|
      && var buffer := CodeBuffer(h.codeSectionStolenData, img.data, at, Pe.SizeOfRawData(img.sections[i]) as nat);
      && |buffer| % Aes.BlockSize == 0
      && plain == DecryptBuffer(cipher, h.aesKey, h.aesIv, buffer)
  {
    if CodeEncrypted(h) {
      match Drm.GetOwnerSection(img, CodeRva(h))
      case None =>
      case Some((i, cs)) =>
        DecryptSectionOutcomes(img, h, cipher, cs);
    }
  }

  /** Every stage after the signature check succeeds. */
  predicate AfterHeaderSucceeds(img: Pe.Image, h: StubHeaders.StubHeader, payloadAt: Result<nat, Pe.Error>)
    requires Pe.WellSized(img) && PayloadStageDefined(img, h, payloadAt)
  {
    && payloadAt.Ok?
    && !CodeFails(img, h)
    && SectionsReadable(img)
  }

  /**
   * The stages after the signature check succeed exactly when the payload
   * offset is found, the code section (if encrypted) is found in the file
   * and every section can be read; a missing payload offset is reported as
   * the library's error.
   */
  lemma {:induction false} AfterHeaderOutcomes(img: Pe.Image, h: StubHeaders.StubHeader, cipher: Aes.Cipher, payloadAt: Result<nat, Pe.Error>)
    requires Pe.WellSized(img) && StubHeaders.WellSized(h) && Aes.Valid(cipher) && PayloadStageDefined(img, h, payloadAt)
    ensures StripAfterHeader(img, h, cipher, payloadAt).Ok? <==> AfterHeaderSucceeds(img, h, payloadAt)
    ensures payloadAt.Err? ==> StripAfterHeader(img, h, cipher, payloadAt) == Err(payloadAt.error)
  {
    if payloadAt.Ok? {
      AfterPayloadOutcomes(img, h, cipher);
    }
  }

  /** After the payload, the stages succeed exactly when the code stage does not fail and every section can be read. */
  lemma {:induction false} AfterPayloadOutcomes(img: Pe.Image, h: StubHeaders.StubHeader, cipher: Aes.Cipher)
    requires Pe.WellSized(img) && StubHeaders.WellSized(h) && Aes.Valid(cipher) && CodeDefined(img, h)
    requires !CodeFails(img, h) && SectionsReadable(img) ==> OverlayDefined(img)
    ensures AfterPayload(img, h, cipher).Ok? <==> !CodeFails(img, h) && SectionsReadable(img)
  {
    DecryptCodeFails(img, h, cipher);
    if DecryptCode(img, h, cipher).Ok? {
      RebuildOutcomes(img, h.originalEntryPoint, DecryptCode(img, h, cipher).value);
    }
  }

  /** Writing the output succeeds exactly when every section can be read. */
  lemma {:induction false} RebuildOutcomes(img: Pe.Image, originalEntryPoint: bv64, decrypted: Option<(nat, seq<byte>)>)
    requires Pe.WellSized(img) && (SectionsReadable(img) ==> OverlayDefined(img))
    ensures Rebuild(img, originalEntryPoint, decrypted).Ok? <==> SectionsReadable(img)
  {
    BodiesOutcomes(img, decrypted, |img.sections|);
  }

  /**
   * A successful rebuild is the output over one body per section: the
   * decrypted code for the code section, every other section's own bytes.
   */
  lemma {:induction false} RebuildOutput(img: Pe.Image, originalEntryPoint: bv64, decrypted: Option<(nat, seq<byte>)>)
    requires Pe.WellSized(img) && (SectionsReadable(img) ==> OverlayDefined(img))
    requires Rebuild(img, originalEntryPoint, decrypted).Ok?
    ensures SectionsReadable(img) && OverlayDefined(img) && Bodies(img, decrypted).Ok?
    ensures |Bodies(img, decrypted).value| == |img.sections|
    ensures forall i :: 0 <= i < |img.sections| ==>
      Bodies(img, decrypted).value[i] == Body(i, img.sectionBytes(img.sections[i]).value, decrypted)
    ensures Rebuild(img, originalEntryPoint, decrypted) == Ok(Output(img, originalEntryPoint, Bodies(img, decrypted).value))
  {
    BodiesOutcomes(img, decrypted, |img.sections|);
  }

  /** `strip_drm` succeeds:the entry point maps into the file, the signature matches, and every later stage succeeds. */
  predicate StripSucceeds(img: Pe.Image)
    requires Pe.WellSized(img) && StripDefined(img)
  {
    match img.rvaToFileOffset(Pe.AddressOfEntryPoint(img))
    case Err(_) => false
    case Ok(fileOffset) =>
      var h := HeaderAt(img, fileOffset);
      && h.signature == StubHeaders.StubSignature
      && AfterHeaderSucceeds(img, h, PayloadOffset(img, h))
  }

  /**
   * `strip_drm` fails with the library's error when the entry point has no
   * file offset, with `Encoding` when the decoded header lacks the
   * signature, and succeeds exactly when every stage does.
   */
  lemma {:induction false} StripOutcomes(img: Pe.Image, cipher: Aes.Cipher)
    requires Pe.WellSized(img) && Aes.Valid(cipher) && StripDefined(img)
    ensures img.rvaToFileOffset(Pe.AddressOfEntryPoint(img)).Err? ==>
      StripDrm(img, cipher) == Err(img.rvaToFileOffset(Pe.AddressOfEntryPoint(img)).error)
    ensures match img.rvaToFileOffset(Pe.AddressOfEntryPoint(img))
      case Err(_) => true
      case Ok(fileOffset) => HeaderAt(img, fileOffset).signature != StubHeaders.StubSignature ==> StripDrm(img, cipher) == Err(Pe.Encoding)
    ensures StripDrm(img, cipher).Ok? <==> StripSucceeds(img)
  {
    match img.rvaToFileOffset(Pe.AddressOfEntryPoint(img))
    case Err(_) =>
    case Ok(fileOffset) =>
      var h := HeaderAt(img, fileOffset);
      if h.signature == StubHeaders.StubSignature {
        AfterHeaderOutcomes(img, h, cipher, PayloadOffset(img, h));
      }
  }

  /**
   * `strip_drm_from_exe` passes a parse error on unchanged and otherwise
   * succeeds exactly when `strip_drm` does on the parsed image.
   */
  lemma {:induction false} FromExeOutcomes(file: seq<byte>, parse: seq<byte> -> Result<Pe.Image, Pe.Error>, cipher: Aes.Cipher)
    requires Aes.Valid(cipher)
    requires parse(file).Ok? ==> parse(file).value.data == file
    requires parse(file).Ok? ==> Pe.WellSized(parse(file).value) && StripDefined(parse(file).value)
    ensures parse(file).Err? ==> StripDrmFromExe(file, parse, cipher) == Err(parse(file).error)
    ensures StripDrmFromExe(file, parse, cipher).Ok? <==> parse(file).Ok? && StripSucceeds(parse(file).value)
  {
    if parse(file).Ok? {
      StripOutcomes(parse(file).value, cipher);
    }
  }

  // ---------------------------------------------------------------------------
  // The cursor, step by step
  // ---------------------------------------------------------------------------

  /**
   * The output written the way `strip_drm` writes it, through a cursor whose
   * position decides where each write lands. `strip_drm` reads each
   * section's bytes inside the section loop, but an error there discards the
   * cursor, so reading every section first (`Bodies`) and then writing
   * gives the same result.
   */
  method Reconstruct(img: Pe.Image, originalEntryPoint: bv64, bodies: seq<seq<byte>>) returns (out: seq<byte>)
    requires Pe.WellSized(img) && |bodies| == |img.sections| && OverlayDefined(img)
    ensures out == Output(img, originalEntryPoint, bodies)
  {
    var c := WriteHeaders(img, originalEntryPoint);
    c := WriteSections(c, PrefixChunks(img, originalEntryPoint), img.sections, BodyChunks(img.sections, bodies));
    ghost var buf := Cursors.Replay([], Chunks(img, originalEntryPoint, bodies));
    assert c.buf == buf;
    c := Cursors.SeekEnd(c);
    var fileSize := FileSize(img);
    if fileSize < |img.data| {
      c := Cursors.WriteAll(c, img.data[fileSize..]);
    } else {
      Cursors.WriteAtNothing(buf, |buf|);
    }
    out := c.buf;
  }

  /** DOS header, DOS stub, patched NT headers and data directories, written from position 0. */
  method WriteHeaders(img: Pe.Image, originalEntryPoint: bv64) returns (c: Cursors.Cursor)
    requires Pe.WellSized(img)
    ensures c.buf == Cursors.Replay([], PrefixChunks(img, originalEntryPoint))
    ensures c.pos == SectionHeadersStart(img)
  {
    var head := [Cursors.Chunk(0, img.dos)] + StubChunk(img);
    c := WriteDos(img);
    var nt := Cursors.Chunk(c.pos, NtPatched(img.nt, originalEntryPoint));
    Cursors.ReplaySnoc([], head, nt);
    c := Cursors.WriteAll(c, nt.bytes);
    c := WriteDirectories(c, head + [nt], img.directories);
  }

  /** The DOS header, then the zeroed DOS stub when `e_lfanew` points past the DOS header. */
  method WriteDos(img: Pe.Image) returns (c: Cursors.Cursor)
    requires Pe.WellSized(img)
    ensures c.buf == Cursors.Replay([], [Cursors.Chunk(0, img.dos)] + StubChunk(img))
    ensures c.pos == NtStart(img)
  {
    var stub := StubChunk(img);
    DosReplay(img.dos, stub);
    c := Cursors.WriteAll(Cursors.Cursor([], 0), img.dos);
    if stub != [] {
      c := Cursors.WriteAll(c, stub[0].bytes);
    }
  }

  /** The DOS part of the headers, write by write. */
  lemma {:induction false} DosReplay(dos: seq<byte>, stub: seq<Cursors.Chunk>)
    requires |stub| <= 1
    ensures Cursors.Replay([], [Cursors.Chunk(0, dos)] + stub)
      == if stub == [] then Cursors.WriteAt([], 0, dos)
         else Cursors.WriteAt(Cursors.WriteAt([], 0, dos), stub[0].at, stub[0].bytes)
  {
    if stub == [] {
      assert [Cursors.Chunk(0, dos)] + stub == [Cursors.Chunk(0, dos)];
      Cursors.ReplayOne(Cursors.Chunk(0, dos));
    } else {
      assert [Cursors.Chunk(0, dos)] + stub == [Cursors.Chunk(0, dos), stub[0]];
      Cursors.ReplayPair(Cursors.Chunk(0, dos), stub[0]);
    }
  }

  /** The data directories, one after the other from the cursor. */
  method WriteDirectories(c0: Cursors.Cursor, head: seq<Cursors.Chunk>, dirs: seq<seq<byte>>) returns (c: Cursors.Cursor)
    requires c0.buf == Cursors.Replay([], head)
    requires forall k :: 0 <= k < |dirs| ==> |dirs[k]| == Pe.DirectorySize
    ensures c.buf == Cursors.Replay([], head + DirChunks(dirs, c0.pos))
    ensures c.pos == c0.pos + Pe.DirectorySize * |dirs|
  {
    c := c0;
    ghost var ws := head;
    assert head + DirChunks(dirs[..0], c0.pos) == head;
    for k := 0 to |dirs|
      invariant ws == head + DirChunks(dirs[..k], c0.pos)
      invariant c.buf == Cursors.Replay([], ws)
      invariant c.pos == c0.pos + Pe.DirectorySize * k
    {
      var dir := Cursors.Chunk(c.pos, dirs[k]);
      Cursors.ReplaySnoc([], ws, dir);
      DirChunksGrow(head, dirs, c0.pos, k);
      c := Cursors.WriteAll(c, dirs[k]);
      ws := ws + [dir];
    }
    assert dirs[..|dirs|] == dirs;
  }

  /**
   * The section loop: each section's header at the cursor, its body at its
   * place, then back after the header.
   */
  method WriteSections(c0: Cursors.Cursor, prefix: seq<Cursors.Chunk>, headers: seq<seq<byte>>, placed: seq<Cursors.Chunk>)
    returns (c: Cursors.Cursor)
    requires c0.buf == Cursors.Replay([], prefix) && |headers| == |placed|
    requires forall i :: 0 <= i < |headers| ==> |headers[i]| == Pe.SectionHeaderSize
    ensures c.buf == Cursors.Replay([], prefix + SectionChunks(headers, placed, c0.pos))
  {
    c := c0;
    ghost var ws := prefix;
    assert prefix + SectionChunks(headers[..0], placed[..0], c0.pos) == prefix;
    for i := 0 to |headers|
      invariant ws == prefix + SectionChunks(headers[..i], placed[..i], c0.pos)
      invariant c.buf == Cursors.Replay([], ws)
      invariant c.pos == c0.pos + Pe.SectionHeaderSize * i
    {
      var next := WriteSection(c, headers[i], placed[i]);
      SectionRound(prefix, headers, placed, c0.pos, i, ws, c, next.buf);
      c := next;
      ws := prefix + SectionChunks(headers[..i + 1], placed[..i + 1], c0.pos);
    }
    assert headers[..|headers|] == headers && placed[..|placed|] == placed;
  }

  /** A turn of the section loop replays the turn's two writes after the earlier ones. */
  lemma {:induction false} SectionRound(prefix: seq<Cursors.Chunk>, headers: seq<seq<byte>>, placed: seq<Cursors.Chunk>, at: nat, i: nat,
                                        ws: seq<Cursors.Chunk>, c: Cursors.Cursor, after: seq<byte>)
    requires i < |headers| == |placed|
    requires ws == prefix + SectionChunks(headers[..i], placed[..i], at)
    requires c.buf == Cursors.Replay([], ws) && c.pos == at + Pe.SectionHeaderSize * i
    requires after == Cursors.WriteAt(Cursors.WriteAt(c.buf, c.pos, headers[i]), placed[i].at, placed[i].bytes)
    ensures after == Cursors.Replay([], prefix + SectionChunks(headers[..i + 1], placed[..i + 1], at))
  {
    var header := Cursors.Chunk(at + Pe.SectionHeaderSize * i, headers[i]);
    SectionChunksGrow(prefix, headers, placed, at, i);
    Cursors.ReplayTwoOf(prefix + SectionChunks(headers[..i + 1], placed[..i + 1], at), ws, header, placed[i], c.buf, after);
  }

  /** One turn of the section loop: the header at the cursor, the body at its place, then back after the header. */
  method WriteSection(c: Cursors.Cursor, header: seq<byte>, p: Cursors.Chunk) returns (r: Cursors.Cursor)
    ensures r.buf == Cursors.WriteAt(Cursors.WriteAt(c.buf, c.pos, header), p.at, p.bytes)
    ensures r.pos == c.pos + |header|
  {
    r := Cursors.WriteAll(c, header);
    var back := r.pos;
    r := Cursors.SetPosition(r, p.at);
    r := Cursors.WriteAll(r, p.bytes);
    r := Cursors.SetPosition(r, back);
  }

  /** The directory writes grow by one write at a time. */
  lemma {:induction false} DirChunksSnoc(dirs: seq<seq<byte>>, at: nat, k: nat)
    requires k < |dirs|
    ensures DirChunks(dirs[..k + 1], at) == DirChunks(dirs[..k], at) + [Cursors.Chunk(at + Pe.DirectorySize * k, dirs[k])]
  {
    assert dirs[..k + 1][..k] == dirs[..k];
  }

  /** The section writes grow by a header write and a body write at a time. */
  lemma {:induction false} SectionChunksSnoc(headers: seq<seq<byte>>, placed: seq<Cursors.Chunk>, p: Cursors.Chunk, at: nat, i: nat)
    requires i < |headers| && |placed| == i
    ensures SectionChunks(headers[..i + 1], placed + [p], at)
      == SectionChunks(headers[..i], placed, at) + [Cursors.Chunk(at + Pe.SectionHeaderSize * i, headers[i]), p]
  {
    assert headers[..i + 1][..i] == headers[..i];
    assert (placed + [p])[..i] == placed;
  }

  /** Directory `k` is written at `at + 8 k`. */
  lemma {:induction false} DirChunkAt(dirs: seq<seq<byte>>, at: nat, k: nat)
    requires k < |dirs|
    ensures DirChunks(dirs, at)[k] == Cursors.Chunk(at + Pe.DirectorySize * k, dirs[k])
    decreases |dirs|
  {
    if k < |dirs| - 1 {
      DirChunkAt(dirs[..|dirs| - 1], at, k);
    }
  }

  /** Write `2 i` is header `i` at `at + 40 i`; write `2 i + 1` is placed body `i`. */
  lemma {:induction false} SectionChunkAt(headers: seq<seq<byte>>, placed: seq<Cursors.Chunk>, at: nat, i: nat)
    requires |headers| == |placed| && i < |headers|
    ensures SectionChunks(headers, placed, at)[2 * i] == Cursors.Chunk(at + Pe.SectionHeaderSize * i, headers[i])
    ensures SectionChunks(headers, placed, at)[2 * i + 1] == placed[i]
    decreases |headers|
  {
    var n := |headers| - 1;
    if i < n {
      SectionChunkAt(headers[..n], placed[..n], at, i);
    }
  }

  /** One more directory is one more write, at `at + 8 k`. */
  lemma {:induction false} DirChunksGrow(head: seq<Cursors.Chunk>, dirs: seq<seq<byte>>, at: nat, k: nat)
    requires k < |dirs|
    ensures head + DirChunks(dirs[..k + 1], at) == head + DirChunks(dirs[..k], at) + [Cursors.Chunk(at + Pe.DirectorySize * k, dirs[k])]
  {
    DirChunksSnoc(dirs, at, k);
    Cursors.AppendOne(head, DirChunks(dirs[..k], at), Cursors.Chunk(at + Pe.DirectorySize * k, dirs[k]));
  }

  /** One more section is two more writes: its header at `at + 40 i`, then its placed body. */
  lemma {:induction false} SectionChunksGrow(prefix: seq<Cursors.Chunk>, headers: seq<seq<byte>>, placed: seq<Cursors.Chunk>, at: nat, i: nat)
    requires i < |headers| == |placed|
    ensures prefix + SectionChunks(headers[..i + 1], placed[..i + 1], at)
      == prefix + SectionChunks(headers[..i], placed[..i], at) + [Cursors.Chunk(at + Pe.SectionHeaderSize * i, headers[i])] + [placed[i]]
  {
    assert placed[..i + 1] == placed[..i] + [placed[i]];
    SectionChunksSnoc(headers, placed[..i], placed[i], at, i);
    Cursors.AppendTwo(prefix, SectionChunks(headers[..i], placed[..i], at), Cursors.Chunk(at + Pe.SectionHeaderSize * i, headers[i]), placed[i]);
  }
}
