/**
 * `SteamStub64Var31Header`: the 240-byte control header of the SteamStub
 * v3.1 x64 stub, a `repr(C)` record read in place from decoded bytes. Here
 * it is a record whose fields follow the `repr(C)` layout (no padding: every
 * field is aligned), decoded and encoded through the generic record codec.
 */
module StubHeaders {
  import opened LittleEndian
  import Records

  const HeaderSize: nat := 240

  /** The value of `signature` in a v3.1 header. */
  const StubSignature: bv32 := 0xC0DE_C0DF

  datatype StubHeader = StubHeader(
    xorKey: bv32,
    signature: bv32,
    imageBase: bv64,
    addressOfEntryPoint: bv64,
    bindSectionOffset: bv32,
    unknown0000: bv32,
    originalEntryPoint: bv64,
    unknown0001: bv32,
    payloadSize: bv32,
    drmpDllOffset: bv32,
    drmpDllSize: bv32,
    steamAppId: bv32,
    flags: bv32,
    bindSectionVirtualSize: bv32,
    unknown0002: bv32,
    codeSectionVirtualAddress: bv64,
    codeSectionRawSize: bv64,
    aesKey: seq<byte>,
    aesIv: seq<byte>,
    codeSectionStolenData: seq<byte>,
    encryptionKeys: seq<bv32>,
    unknown0003: seq<bv32>,
    getModuleHandleARva: bv64,
    getModuleHandleWRva: bv64,
    loadLibraryARva: bv64,
    loadLibraryWRva: bv64,
    getProcAddressRva: bv64)

  /** The arrays have their declared lengths: `[u8; 0x20]`, `[u8; 0x10]` twice, `[u32; 4]`, `[u32; 8]`. */
  predicate WellSized(h: StubHeader) {
    && |h.aesKey| == 32
    && |h.aesIv| == 16
    && |h.codeSectionStolenData| == 16
    && |h.encryptionKeys| == 4
    && |h.unknown0003| == 8
  }

  // The declaration, in five runs of consecutive fields.

  /** `xor_key` to `unknown_0000`, bytes 0..32. */
  const Run0: seq<Records.Kind> := [Records.U32, Records.U32, Records.U64, Records.U64, Records.U32, Records.U32]
  /** `original_entry_point` to `steam_app_id`, bytes 32..60. */
  const Run1: seq<Records.Kind> := [Records.U64, Records.U32, Records.U32, Records.U32, Records.U32, Records.U32]
  /** `flags` to `code_section_raw_size`, bytes 60..88. */
  const Run2: seq<Records.Kind> := [Records.U32, Records.U32, Records.U32, Records.U64, Records.U64]
  /** `aes_key` to `unknown_0003`, bytes 88..200. */
  const Run3: seq<Records.Kind> := [Records.Bytes(0x20), Records.Bytes(0x10), Records.Bytes(0x10), Records.Words(4), Records.Words(8)]
  /** `get_module_handle_a_rva` to `get_proc_address_rva`, bytes 200..240. */
  const Run4: seq<Records.Kind> := [Records.U64, Records.U64, Records.U64, Records.U64, Records.U64]

  lemma {:induction false} RunSizes()
    ensures Records.Size(Run0) == 32 && Records.Size(Run1) == 28 && Records.Size(Run2) == 28
    ensures Records.Size(Run3) == 112 && Records.Size(Run4) == 40
  {
    Run0Layout();
    Run1Layout();
    Run2Layout();
    Run3Layout();
    Run4Layout();
  }

  /** The size of `Run0` and the offsets of the fields read from it. */
  lemma {:induction false} Run0Layout()
    ensures Records.Size(Run0) == 32 && Records.Offset(Run0, 1) == 4 && Records.Offset(Run0, 4) == 24
  {
  }

  /** The size of `Run1` and the offsets of the fields read from it. */
  lemma {:induction false} Run1Layout()
    ensures Records.Size(Run1) == 28 && Records.Offset(Run1, 0) == 0 && Records.Offset(Run1, 2) == 12
  {
  }

  /** The size of `Run2` and the offsets of the fields read from it. */
  lemma {:induction false} Run2Layout()
    ensures Records.Size(Run2) == 28 && Records.Offset(Run2, 0) == 0 && Records.Offset(Run2, 3) == 12
  {
  }

  /** The size of `Run3` and the offsets of the fields read from it. */
  lemma {:induction false} Run3Layout()
    ensures Records.Size(Run3) == 112 && Records.Offset(Run3, 0) == 0 && Records.Offset(Run3, 1) == 32 && Records.Offset(Run3, 2) == 48
  {
  }

  lemma {:induction false} Run4Layout()
    ensures Records.Size(Run4) == 40
  {
  }

  /** Where each run starts. */
  const RunStart: seq<nat> := [0, 32, 60, 88, 200, 240]

  /** The header's fields as record values, run by run. */
  function Values(h: StubHeader): (vs: seq<seq<Records.Value>>)
    requires WellSized(h)
    ensures |vs| == 5
    ensures Records.Fits(vs[0], Run0) && Records.Fits(vs[1], Run1) && Records.Fits(vs[2], Run2)
    ensures Records.Fits(vs[3], Run3) && Records.Fits(vs[4], Run4)
  {
    [Run0Of(h), Run1Of(h), Run2Of(h), Run3Of(h), Run4Of(h)]
  }

  function Run0Of(h: StubHeader): (v: seq<Records.Value>)
    ensures Records.Fits(v, Run0)
  {
    [Records.V32(h.xorKey), Records.V32(h.signature), Records.V64(h.imageBase),
     Records.V64(h.addressOfEntryPoint), Records.V32(h.bindSectionOffset), Records.V32(h.unknown0000)]
  }

  function Run1Of(h: StubHeader): (v: seq<Records.Value>)
    ensures Records.Fits(v, Run1)
  {
    [Records.V64(h.originalEntryPoint), Records.V32(h.unknown0001), Records.V32(h.payloadSize),
     Records.V32(h.drmpDllOffset), Records.V32(h.drmpDllSize), Records.V32(h.steamAppId)]
  }

  function Run2Of(h: StubHeader): (v: seq<Records.Value>)
    ensures Records.Fits(v, Run2)
  {
    [Records.V32(h.flags), Records.V32(h.bindSectionVirtualSize), Records.V32(h.unknown0002),
     Records.V64(h.codeSectionVirtualAddress), Records.V64(h.codeSectionRawSize)]
  }

  function Run3Of(h: StubHeader): (v: seq<Records.Value>)
    requires WellSized(h)
    ensures Records.Fits(v, Run3)
  {
    [Records.VBytes(h.aesKey), Records.VBytes(h.aesIv), Records.VBytes(h.codeSectionStolenData),
     Records.VWords(h.encryptionKeys), Records.VWords(h.unknown0003)]
  }

  function Run4Of(h: StubHeader): (v: seq<Records.Value>)
    ensures Records.Fits(v, Run4)
  {
    [Records.V64(h.getModuleHandleARva), Records.V64(h.getModuleHandleWRva),
     Records.V64(h.loadLibraryARva), Records.V64(h.loadLibraryWRva), Records.V64(h.getProcAddressRva)]
  }

  /** The header whose runs of fields are `v0` to `v4`. */
  function FromValues(v0: seq<Records.Value>, v1: seq<Records.Value>, v2: seq<Records.Value>,
                      v3: seq<Records.Value>, v4: seq<Records.Value>): (h: StubHeader)
    requires Records.Fits(v0, Run0) && Records.Fits(v1, Run1) && Records.Fits(v2, Run2)
    requires Records.Fits(v3, Run3) && Records.Fits(v4, Run4)
    ensures WellSized(h)
  {
    StubHeader(
      v0[0].w, v0[1].w, v0[2].d, v0[3].d, v0[4].w, v0[5].w,
      v1[0].d, v1[1].w, v1[2].w, v1[3].w, v1[4].w, v1[5].w,
      v2[0].w, v2[1].w, v2[2].w, v2[3].d, v2[4].d,
      v3[0].b, v3[1].b, v3[2].b, v3[3].ws, v3[4].ws,
      v4[0].d, v4[1].d, v4[2].d, v4[3].d, v4[4].d)
  }

  /** The bytes of run `k` of a header's 240 bytes. */
  function RunBytes(b: seq<byte>, k: nat): seq<byte>
    requires |b| == HeaderSize && k < 5
  {
    b[RunStart[k]..RunStart[k + 1]]
  }

  /** `bytemuck::from_bytes::<SteamStub64Var31Header>` on 240 bytes. */
  function Decode(b: seq<byte>): (h: StubHeader)
    requires |b| == HeaderSize
    ensures WellSized(h)
  {
    RunSizes();
    FromValues(Records.Decode(RunBytes(b, 0), Run0), Records.Decode(RunBytes(b, 1), Run1),
               Records.Decode(RunBytes(b, 2), Run2), Records.Decode(RunBytes(b, 3), Run3),
               Records.Decode(RunBytes(b, 4), Run4))
  }

  /** `bytemuck::bytes_of` on a header: its runs of fields, one after the other. */
  function Encode(h: StubHeader): seq<byte>
    requires WellSized(h)
  {
    var vs := Values(h);
    Records.Encode(vs[0]) + Records.Encode(vs[1]) + Records.Encode(vs[2]) + Records.Encode(vs[3]) + Records.Encode(vs[4])
  }

  // ---------------------------------------------------------------------------
  // Round trips
  // ---------------------------------------------------------------------------

  lemma {:induction false} FromValuesOfValues(h: StubHeader)
    requires WellSized(h)
    ensures var vs := Values(h); FromValues(vs[0], vs[1], vs[2], vs[3], vs[4]) == h
  {
  }

  lemma {:induction false} ValuesOfFromValues(v0: seq<Records.Value>, v1: seq<Records.Value>, v2: seq<Records.Value>,
                           v3: seq<Records.Value>, v4: seq<Records.Value>)
    requires Records.Fits(v0, Run0) && Records.Fits(v1, Run1) && Records.Fits(v2, Run2)
    requires Records.Fits(v3, Run3) && Records.Fits(v4, Run4)
    ensures Values(FromValues(v0, v1, v2, v3, v4)) == [v0, v1, v2, v3, v4]
  {
    Run0Values(v0);
    Run1Values(v1);
    Run2Values(v2);
    Run3Values(v3);
    Run4Values(v4);
  }

  lemma {:induction false} Run0Values(v: seq<Records.Value>)
    requires Records.Fits(v, Run0)
    ensures v == [Records.V32(v[0].w), Records.V32(v[1].w), Records.V64(v[2].d),
                  Records.V64(v[3].d), Records.V32(v[4].w), Records.V32(v[5].w)]
  {
    assert Records.HasKind(v[0], Run0[0]) && Records.HasKind(v[2], Run0[2]);
  }

  lemma {:induction false} Run1Values(v: seq<Records.Value>)
    requires Records.Fits(v, Run1)
    ensures v == [Records.V64(v[0].d), Records.V32(v[1].w), Records.V32(v[2].w),
                  Records.V32(v[3].w), Records.V32(v[4].w), Records.V32(v[5].w)]
  {
    assert Records.HasKind(v[0], Run1[0]) && Records.HasKind(v[2], Run1[2]);
  }

  lemma {:induction false} Run2Values(v: seq<Records.Value>)
    requires Records.Fits(v, Run2)
    ensures v == [Records.V32(v[0].w), Records.V32(v[1].w), Records.V32(v[2].w),
                  Records.V64(v[3].d), Records.V64(v[4].d)]
  {
    assert Records.HasKind(v[0], Run2[0]) && Records.HasKind(v[3], Run2[3]);
  }

  lemma {:induction false} Run3Values(v: seq<Records.Value>)
    requires Records.Fits(v, Run3)
    ensures v == [Records.VBytes(v[0].b), Records.VBytes(v[1].b), Records.VBytes(v[2].b),
                  Records.VWords(v[3].ws), Records.VWords(v[4].ws)]
  {
    assert Records.HasKind(v[0], Run3[0]) && Records.HasKind(v[3], Run3[3]);
  }

  lemma {:induction false} Run4Values(v: seq<Records.Value>)
    requires Records.Fits(v, Run4)
    ensures v == [Records.V64(v[0].d), Records.V64(v[1].d), Records.V64(v[2].d),
                  Records.V64(v[3].d), Records.V64(v[4].d)]
  {
    assert Records.HasKind(v[0], Run4[0]);
  }

  /** The runs of five byte strings of the run sizes, laid end to end. */
  lemma {:induction false} RunsOfConcat(e0: seq<byte>, e1: seq<byte>, e2: seq<byte>, e3: seq<byte>, e4: seq<byte>, b: seq<byte>)
    requires |e0| == 32 && |e1| == 28 && |e2| == 28 && |e3| == 112 && |e4| == 40
    requires b == e0 + e1 + e2 + e3 + e4
    ensures |b| == HeaderSize
    ensures RunBytes(b, 0) == e0 && RunBytes(b, 1) == e1 && RunBytes(b, 2) == e2
    ensures RunBytes(b, 3) == e3 && RunBytes(b, 4) == e4
  {
  }

  /** A header's bytes are its runs' bytes laid end to end. */
  lemma {:induction false} ConcatOfRuns(b: seq<byte>)
    requires |b| == HeaderSize
    ensures b == RunBytes(b, 0) + RunBytes(b, 1) + RunBytes(b, 2) + RunBytes(b, 3) + RunBytes(b, 4)
  {
  }

  /** A header reads back from its bytes, which are 240 long. */
  lemma {:induction false} DecodeEncode(h: StubHeader)
    requires WellSized(h)
    ensures |Encode(h)| == HeaderSize
    ensures Decode(Encode(h)) == h
  {
    var vs := Values(h);
    RunSizes();
    Records.DecodeEncode(vs[0], Run0);
    Records.DecodeEncode(vs[1], Run1);
    Records.DecodeEncode(vs[2], Run2);
    Records.DecodeEncode(vs[3], Run3);
    Records.DecodeEncode(vs[4], Run4);
    RunsOfConcat(Records.Encode(vs[0]), Records.Encode(vs[1]), Records.Encode(vs[2]),
                 Records.Encode(vs[3]), Records.Encode(vs[4]), Encode(h));
    FromValuesOfValues(h);
  }

  /** The bytes of a decoded header are the bytes it was read from. */
  lemma {:induction false} EncodeDecode(b: seq<byte>)
    requires |b| == HeaderSize
    ensures Encode(Decode(b)) == b
  {
    DecodedValues(b);
    FirstRunsEncode(b);
    LastRunsEncode(b);
    ConcatOfRuns(b);
  }

  /** The runs of values of a decoded header are those decoded from its runs of bytes. */
  lemma {:induction false} DecodedValues(b: seq<byte>)
    requires |b| == HeaderSize
    ensures Records.Size(Run0) == 32 && Records.Size(Run1) == 28 && Records.Size(Run2) == 28
    ensures Records.Size(Run3) == 112 && Records.Size(Run4) == 40
    ensures Values(Decode(b)) == [Records.Decode(RunBytes(b, 0), Run0), Records.Decode(RunBytes(b, 1), Run1),
      Records.Decode(RunBytes(b, 2), Run2), Records.Decode(RunBytes(b, 3), Run3), Records.Decode(RunBytes(b, 4), Run4)]
  {
    RunSizes();
    ValuesOfFromValues(Records.Decode(RunBytes(b, 0), Run0), Records.Decode(RunBytes(b, 1), Run1),
      Records.Decode(RunBytes(b, 2), Run2), Records.Decode(RunBytes(b, 3), Run3), Records.Decode(RunBytes(b, 4), Run4));
  }

  /** Runs 0 to 2 of a header's bytes encode back from their values. */
  lemma {:induction false} FirstRunsEncode(b: seq<byte>)
    requires |b| == HeaderSize
    ensures Records.Size(Run0) == 32 && Records.Size(Run1) == 28 && Records.Size(Run2) == 28
    ensures Records.Encode(Records.Decode(RunBytes(b, 0), Run0)) == RunBytes(b, 0)
    ensures Records.Encode(Records.Decode(RunBytes(b, 1), Run1)) == RunBytes(b, 1)
    ensures Records.Encode(Records.Decode(RunBytes(b, 2), Run2)) == RunBytes(b, 2)
  {
    RunSizes();
    EncodeRun(RunBytes(b, 0), Run0, Records.Decode(RunBytes(b, 0), Run0));
    EncodeRun(RunBytes(b, 1), Run1, Records.Decode(RunBytes(b, 1), Run1));
    EncodeRun(RunBytes(b, 2), Run2, Records.Decode(RunBytes(b, 2), Run2));
  }

  /** Runs 3 and 4 of a header's bytes encode back from their values. */
  lemma {:induction false} LastRunsEncode(b: seq<byte>)
    requires |b| == HeaderSize
    ensures Records.Size(Run3) == 112 && Records.Size(Run4) == 40
    ensures Records.Encode(Records.Decode(RunBytes(b, 3), Run3)) == RunBytes(b, 3)
    ensures Records.Encode(Records.Decode(RunBytes(b, 4), Run4)) == RunBytes(b, 4)
  {
    RunSizes();
    EncodeRun(RunBytes(b, 3), Run3, Records.Decode(RunBytes(b, 3), Run3));
    EncodeRun(RunBytes(b, 4), Run4, Records.Decode(RunBytes(b, 4), Run4));
  }

  lemma {:induction false} EncodeRun(r: seq<byte>, layout: seq<Records.Kind>, v: seq<Records.Value>)
    requires Records.Size(layout) == |r| && v == Records.Decode(r, layout)
    ensures Records.Encode(v) == r
  {
    Records.EncodeDecode(r, layout);
  }

  // ---------------------------------------------------------------------------
  // Field offsets
  // ---------------------------------------------------------------------------

  /** A `u32` field of a run that starts at `start`, read from the header's bytes at its offset. */
  lemma {:induction false} RunU32(b: seq<byte>, r: seq<byte>, start: nat, layout: seq<Records.Kind>, i: nat, off: nat)
    requires start + |r| <= |b| && r == b[start..start + |r|] && Records.Size(layout) == |r|
    requires i < |layout| && layout[i] == Records.U32 && Records.Offset(layout, i) == off
    ensures start + off + 4 <= |b|
    ensures Records.Decode(r, layout)[i] == Records.V32(U32At(b, start + off))
  {
    Records.DecodeField(r, layout, i);
    U32AtInSlice(r, off, r[off..], 0);
    U32AtInSlice(b, start, r, off);
  }

  /** A `u64` field of a run that starts at `start`, read from the header's bytes at its offset. */
  lemma {:induction false} RunU64(b: seq<byte>, r: seq<byte>, start: nat, layout: seq<Records.Kind>, i: nat, off: nat)
    requires start + |r| <= |b| && r == b[start..start + |r|] && Records.Size(layout) == |r|
    requires i < |layout| && layout[i] == Records.U64 && Records.Offset(layout, i) == off
    ensures start + off + 8 <= |b|
    ensures Records.Decode(r, layout)[i] == Records.V64(U64At(b, start + off))
  {
    Records.DecodeField(r, layout, i);
    U64AtInSlice(r, off, r[off..], 0);
    U64AtInSlice(b, start, r, off);
  }

  /** A byte-array field of a run that starts at `start`: the header's bytes at its offset. */
  lemma {:induction false} RunBytesField(b: seq<byte>, r: seq<byte>, start: nat, layout: seq<Records.Kind>, i: nat, off: nat, n: nat)
    requires start + |r| <= |b| && r == b[start..start + |r|] && Records.Size(layout) == |r|
    requires i < |layout| && layout[i] == Records.Bytes(n) && Records.Offset(layout, i) == off
    ensures start + off + n <= |b|
    ensures Records.Decode(r, layout)[i] == Records.VBytes(b[start + off..start + off + n])
  {
    Records.DecodeField(r, layout, i);
  }

  lemma {:induction false} SignatureAt(b: seq<byte>)
    requires |b| == HeaderSize
    ensures Decode(b).signature == U32At(b, 4)
  {
    Run0Layout();
    RunU32(b, RunBytes(b, 0), 0, Run0, 1, 4);
  }

  lemma {:induction false} BindSectionOffsetAt(b: seq<byte>)
    requires |b| == HeaderSize
    ensures Decode(b).bindSectionOffset == U32At(b, 24)
  {
    Run0Layout();
    RunU32(b, RunBytes(b, 0), 0, Run0, 4, 24);
  }

  lemma {:induction false} OriginalEntryPointAt(b: seq<byte>)
    requires |b| == HeaderSize
    ensures Decode(b).originalEntryPoint == U64At(b, 32)
  {
    Run1Layout();
    RunU64(b, RunBytes(b, 1), 32, Run1, 0, 0);
  }

  lemma {:induction false} PayloadSizeAt(b: seq<byte>)
    requires |b| == HeaderSize
    ensures Decode(b).payloadSize == U32At(b, 44)
  {
    Run1Layout();
    RunU32(b, RunBytes(b, 1), 32, Run1, 2, 12);
  }

  lemma {:induction false} FlagsAt(b: seq<byte>)
    requires |b| == HeaderSize
    ensures Decode(b).flags == U32At(b, 60)
  {
    Run2Layout();
    RunU32(b, RunBytes(b, 2), 60, Run2, 0, 0);
  }

  lemma {:induction false} CodeSectionVirtualAddressAt(b: seq<byte>)
    requires |b| == HeaderSize
    ensures Decode(b).codeSectionVirtualAddress == U64At(b, 72)
  {
    Run2Layout();
    RunU64(b, RunBytes(b, 2), 60, Run2, 3, 12);
  }

  lemma {:induction false} AesKeyAt(b: seq<byte>)
    requires |b| == HeaderSize
    ensures Decode(b).aesKey == b[88..120]
  {
    Run3Layout();
    RunBytesField(b, RunBytes(b, 3), 88, Run3, 0, 0, 32);
  }

  lemma {:induction false} AesIvAt(b: seq<byte>)
    requires |b| == HeaderSize
    ensures Decode(b).aesIv == b[120..136]
  {
    Run3Layout();
    RunBytesField(b, RunBytes(b, 3), 88, Run3, 1, 32, 16);
  }

  lemma {:induction false} StolenDataAt(b: seq<byte>)
    requires |b| == HeaderSize
    ensures Decode(b).codeSectionStolenData == b[136..152]
  {
    Run3Layout();
    RunBytesField(b, RunBytes(b, 3), 88, Run3, 2, 48, 16);
  }

  /**
   * The fields the unpacker reads sit at their `repr(C)` offsets:
   * `signature` at 4, `bind_section_offset` at 24, `original_entry_point`
   * at 32, `payload_size` at 44, `flags` at 60,
   * `code_section_virtual_address` at 72, `aes_key` at 88..120, `aes_iv` at
   * 120..136 and `code_section_stolen_data` at 136..152.
   */
  lemma {:induction false} FieldOffsets(b: seq<byte>)
    requires |b| == HeaderSize
    ensures var h := Decode(b);
      && h.signature == U32At(b, 4)
      && h.bindSectionOffset == U32At(b, 24)
      && h.originalEntryPoint == U64At(b, 32)
      && h.payloadSize == U32At(b, 44)
      && h.flags == U32At(b, 60)
      && h.codeSectionVirtualAddress == U64At(b, 72)
      && h.aesKey == b[88..120]
      && h.aesIv == b[120..136]
      && h.codeSectionStolenData == b[136..152]
  {
    SignatureAt(b);
    BindSectionOffsetAt(b);
    OriginalEntryPointAt(b);
    PayloadSizeAt(b);
    FlagsAt(b);
    CodeSectionVirtualAddressAt(b);
    AesKeyAt(b);
    AesIvAt(b);
    StolenDataAt(b);
  }
}
