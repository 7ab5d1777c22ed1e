/**
 * What the reconstructed file looks like. The header region is exactly the
 * DOS header, the zeroed DOS stub, the patched NT headers, the data
 * directories and the section headers, one after the other, as long as no
 * section body is placed inside it; each section body lands at its
 * `PointerToRawData` unless a later body overlaps it; the overlay follows
 * the last byte written.
 */
module OutputLayout {
  import opened LittleEndian
  import Pe
  import Cursors
  import Unpack

  /** Fixed-size records laid end to end. */
  function Flatten(rs: seq<seq<byte>>): seq<byte>
    decreases |rs|
  {
    if rs == [] then [] else Flatten(rs[..|rs| - 1]) + rs[|rs| - 1]
  }

  lemma {:induction false} FlattenLength(rs: seq<seq<byte>>, w: nat)
    requires forall k :: 0 <= k < |rs| ==> |rs[k]| == w
    ensures |Flatten(rs)| == w * |rs|
    decreases |rs|
  {
    if rs != [] {
      FlattenLength(rs[..|rs| - 1], w);
    }
  }

  /** One more record, appended. */
  lemma {:induction false} FlattenSnoc(buf: seq<byte>, rs: seq<seq<byte>>)
    requires rs != []
    ensures buf + Flatten(rs[..|rs| - 1]) + rs[|rs| - 1] == buf + Flatten(rs)
  {
  }

  /** Every non-empty placed body starts at or after `end`. */
  predicate BodiesPast(placed: seq<Cursors.Chunk>, end: nat) {
    forall i :: 0 <= i < |placed| ==> placed[i].bytes == [] || end <= placed[i].at
  }

  // ---------------------------------------------------------------------------
  // The NT headers
  // ---------------------------------------------------------------------------

  /** Byte `i` of the NT headers belongs neither to `AddressOfEntryPoint` nor to `CheckSum`. */
  predicate Unpatched(i: nat) {
    !(Pe.EntryPointOffset <= i < Pe.EntryPointOffset + 4) && !(Pe.CheckSumOffset <= i < Pe.CheckSumOffset + 4)
  }

  /**
   * The patched NT headers read back the original entry point as
   * `AddressOfEntryPoint` and zero as `CheckSum`; every other byte is the
   * input's.
   */
  lemma {:induction false} NtPatchedFields(nt: seq<byte>, originalEntryPoint: bv64)
    requires |nt| == Pe.NtHeadersSize
    ensures U32At(Unpack.NtPatched(nt, originalEntryPoint), Pe.EntryPointOffset) == Low32(originalEntryPoint)
    ensures U32At(Unpack.NtPatched(nt, originalEntryPoint), Pe.CheckSumOffset) == 0
    ensures forall i :: 0 <= i < Pe.NtHeadersSize && Unpatched(i) ==> Unpack.NtPatched(nt, originalEntryPoint)[i] == nt[i]
  {
    var entry := WriteU32At(nt, Pe.EntryPointOffset, Low32(originalEntryPoint));
    WriteThenRead(nt, Pe.EntryPointOffset, Low32(originalEntryPoint));
    WriteThenRead(entry, Pe.CheckSumOffset, 0);
    WriteU32AtOther(entry, Pe.CheckSumOffset, 0, Pe.EntryPointOffset);
    WriteU32AtFrame(nt, Pe.EntryPointOffset, Low32(originalEntryPoint));
    WriteU32AtFrame(entry, Pe.CheckSumOffset, 0);
  }

  // ---------------------------------------------------------------------------
  // The writes before the section loop
  // ---------------------------------------------------------------------------

  /** The DOS stub is zeros from the end of the DOS header up to the NT headers. */
  lemma {:induction false} StubIsZeros(img: Pe.Image)
    requires Pe.WellSized(img)
    ensures Unpack.StubChunk(img) == if Unpack.NtStart(img) == Pe.DosHeaderSize then []
      else [Cursors.Chunk(Pe.DosHeaderSize, Zeros(Unpack.NtStart(img) - Pe.DosHeaderSize))]
  {
  }

  /** The DOS header and the stub, written into an empty buffer, lie end to end. */
  lemma {:induction false} DosPart(img: Pe.Image)
    requires Pe.WellSized(img)
    ensures Cursors.Replay([], [Cursors.Chunk(0, img.dos)] + Unpack.StubChunk(img))
      == img.dos + Zeros(Unpack.NtStart(img) - Pe.DosHeaderSize)
  {
    var stub := Unpack.StubChunk(img);
    var z := Zeros(Unpack.NtStart(img) - Pe.DosHeaderSize);
    StubIsZeros(img);
    Unpack.DosReplay(img.dos, stub);
    Cursors.WriteAtEnd([], img.dos);
    assert [] + img.dos == img.dos;
    if stub == [] {
      assert z == [];
      assert img.dos + z == img.dos;
    } else {
      Cursors.WriteAtEnd(img.dos, z);
    }
  }

  /** Directories written from the end of a buffer are appended to it. */
  lemma {:induction false} DirsAppended(base: seq<Cursors.Chunk>, buf: seq<byte>, dirs: seq<seq<byte>>)
    requires Cursors.Replay([], base) == buf
    requires forall k :: 0 <= k < |dirs| ==> |dirs[k]| == Pe.DirectorySize
    ensures Cursors.Replay([], base + Unpack.DirChunks(dirs, |buf|)) == buf + Flatten(dirs)
    decreases |dirs|
  {
    if dirs == [] {
      assert base + [] == base;
      assert buf + [] == buf;
    } else {
      var n := |dirs| - 1;
      var init := Unpack.DirChunks(dirs[..n], |buf|);
      var last := Cursors.Chunk(|buf| + Pe.DirectorySize * n, dirs[n]);
      DirsAppended(base, buf, dirs[..n]);
      FlattenLength(dirs[..n], Pe.DirectorySize);
      Cursors.AppendOne(base, init, last);
      FlattenSnoc(buf, dirs);
      AppendLast(base + Unpack.DirChunks(dirs, |buf|), base + init, last, buf + Flatten(dirs[..n]), buf + Flatten(dirs));
    }
  }

  /** `ReplayAppends` for a write list and a result given by name. */
  lemma {:induction false} AppendLast(ws: seq<Cursors.Chunk>, init: seq<Cursors.Chunk>, c: Cursors.Chunk, known: seq<byte>, full: seq<byte>)
    requires ws == init + [c] && Cursors.Replay([], init) == known
    requires c.at == |known| && full == known + c.bytes
    ensures Cursors.Replay([], ws) == full
  {
    Cursors.ReplayAppends(init, c);
  }

  /**
   * The writes before the section loop produce exactly the DOS header, the
   * zeroed stub, the patched NT headers and the data directories, end to end.
   */
  lemma {:induction false} PrefixBytes(img: Pe.Image, originalEntryPoint: bv64)
    requires Pe.WellSized(img)
    ensures Cursors.Replay([], Unpack.PrefixChunks(img, originalEntryPoint))
      == img.dos + Zeros(Unpack.NtStart(img) - Pe.DosHeaderSize)
        + Unpack.NtPatched(img.nt, originalEntryPoint) + Flatten(img.directories)
    ensures |Cursors.Replay([], Unpack.PrefixChunks(img, originalEntryPoint))| == Unpack.SectionHeadersStart(img)
  {
    var head := [Cursors.Chunk(0, img.dos)] + Unpack.StubChunk(img);
    var stubbed := img.dos + Zeros(Unpack.NtStart(img) - Pe.DosHeaderSize);
    var nt := Cursors.Chunk(Unpack.NtStart(img), Unpack.NtPatched(img.nt, originalEntryPoint));
    DosPart(img);
    Cursors.ReplaySnoc([], head, nt);
    Cursors.WriteAtEnd(stubbed, nt.bytes);
    DirsAppended(head + [nt], stubbed + nt.bytes, img.directories);
    FlattenLength(img.directories, Pe.DirectorySize);
  }

  // ---------------------------------------------------------------------------
  // The section loop
  // ---------------------------------------------------------------------------

  /**
   * Section headers written from the end of a buffer land end to end after
   * it, whatever bodies the loop writes in between, provided every body lies
   * past `end`, the end of the headers.
   */
  lemma {:induction false} HeadersAppended(base: seq<Cursors.Chunk>, buf: seq<byte>, headers: seq<seq<byte>>, placed: seq<Cursors.Chunk>, end: nat)
    requires Cursors.Replay([], base) == buf
    requires |headers| == |placed|
    requires forall k :: 0 <= k < |headers| ==> |headers[k]| == Pe.SectionHeaderSize
    requires |buf| + Pe.SectionHeaderSize * |headers| <= end && BodiesPast(placed, end)
    ensures |Cursors.Replay([], base + Unpack.SectionChunks(headers, placed, |buf|))| >= |buf| + Pe.SectionHeaderSize * |headers|
    ensures Cursors.Replay([], base + Unpack.SectionChunks(headers, placed, |buf|))[..|buf| + Pe.SectionHeaderSize * |headers|]
      == buf + Flatten(headers)
    decreases |headers|
  {
    if headers == [] {
      assert base + [] == base;
      assert buf + [] == buf;
    } else {
      var n := |headers| - 1;
      HeadersAppended(base, buf, headers[..n], placed[..n], end);
      HeadersStep(base, buf, headers, placed, end);
    }
  }

  /** The last section of `HeadersAppended`, given the others. */
  lemma {:induction false} HeadersStep(base: seq<Cursors.Chunk>, buf: seq<byte>, headers: seq<seq<byte>>, placed: seq<Cursors.Chunk>, end: nat)
    requires |headers| == |placed| && headers != []
    requires forall k :: 0 <= k < |headers| ==> |headers[k]| == Pe.SectionHeaderSize
    requires |buf| + Pe.SectionHeaderSize * |headers| <= end && BodiesPast(placed, end)
    requires var n := |headers| - 1; var r := Cursors.Replay([], base + Unpack.SectionChunks(headers[..n], placed[..n], |buf|));
      |r| >= |buf| + Pe.SectionHeaderSize * n && r[..|buf| + Pe.SectionHeaderSize * n] == buf + Flatten(headers[..n])
    ensures |Cursors.Replay([], base + Unpack.SectionChunks(headers, placed, |buf|))| >= |buf| + Pe.SectionHeaderSize * |headers|
    ensures Cursors.Replay([], base + Unpack.SectionChunks(headers, placed, |buf|))[..|buf| + Pe.SectionHeaderSize * |headers|]
      == buf + Flatten(headers)
  {
    var n := |headers| - 1;
    var at := |buf| + Pe.SectionHeaderSize * n;
    var init := base + Unpack.SectionChunks(headers[..n], placed[..n], |buf|);
    var known := buf + Flatten(headers[..n]);
    FlattenLength(headers[..n], Pe.SectionHeaderSize);
    LastChunks(base, headers, placed, |buf|);
    FlattenSnoc(buf, headers);
    assert at + |headers[n]| == |buf| + Pe.SectionHeaderSize * |headers|;
    assert placed[n].bytes == [] || end <= placed[n].at;
    PutLast(base + Unpack.SectionChunks(headers, placed, |buf|), init, known, Cursors.Chunk(at, headers[n]), placed[n], end,
      buf + Flatten(headers));
  }

  /** `PutBefore` for a write list and a result given by name. */
  lemma {:induction false} PutLast(ws: seq<Cursors.Chunk>, init: seq<Cursors.Chunk>, known: seq<byte>, c: Cursors.Chunk, d: Cursors.Chunk, end: nat, full: seq<byte>)
    requires ws == init + [c] + [d] && full == known + c.bytes
    requires c.at == |known| <= |Cursors.Replay([], init)| && Cursors.Replay([], init)[..c.at] == known
    requires c.at + |c.bytes| <= end && (d.bytes == [] || end <= d.at)
    ensures |Cursors.Replay([], ws)| >= |full| && Cursors.Replay([], ws)[..|full|] == full
  {
    PutBefore(init, known, c, d, end);
  }

  /** The writes of the whole section loop are those of all but its last round, then the last round's two. */
  lemma {:induction false} LastChunks(base: seq<Cursors.Chunk>, headers: seq<seq<byte>>, placed: seq<Cursors.Chunk>, at: nat)
    requires |headers| == |placed| && headers != []
    ensures var n := |headers| - 1;
      base + Unpack.SectionChunks(headers, placed, at)
      == base + Unpack.SectionChunks(headers[..n], placed[..n], at) + [Cursors.Chunk(at + Pe.SectionHeaderSize * n, headers[n])] + [placed[n]]
  {
    var n := |headers| - 1;
    assert headers[..n + 1] == headers && placed[..n + 1] == placed;
    Unpack.SectionChunksGrow(base, headers, placed, at, n);
  }

  /**
   * After writes that leave `known` at the front, a write `c` right after
   * it and then a write `d` that is empty or lies past `end` leave `known`
   * followed by `c`'s bytes.
   */
  lemma {:induction false} PutBefore(ws: seq<Cursors.Chunk>, known: seq<byte>, c: Cursors.Chunk, d: Cursors.Chunk, end: nat)
    requires c.at == |known| <= |Cursors.Replay([], ws)| && Cursors.Replay([], ws)[..c.at] == known
    requires c.at + |c.bytes| <= end && (d.bytes == [] || end <= d.at)
    ensures |Cursors.Replay([], ws + [c] + [d])| >= c.at + |c.bytes|
    ensures Cursors.Replay([], ws + [c] + [d])[..c.at + |c.bytes|] == known + c.bytes
  {
    var before := Cursors.Replay([], ws);
    var mid := Cursors.WriteAt(before, c.at, c.bytes);
    Cursors.ReplayTwo(ws, c, d);
    Cursors.WriteAtFrom(before, c.at, c.bytes);
    if d.bytes == [] {
      Cursors.WriteAtNothing(mid, d.at);
    } else {
      Cursors.WriteAtKeeps(mid, d.at, d.bytes, c.at + |c.bytes|);
    }
  }

  // ---------------------------------------------------------------------------
  // The whole output
  // ---------------------------------------------------------------------------

  /** The overlay is appended after the last byte the writes reach. */
  lemma {:induction false} OverlayAppended(img: Pe.Image, originalEntryPoint: bv64, bodies: seq<seq<byte>>)
    requires Pe.WellSized(img) && |bodies| == |img.sections| && Unpack.OverlayDefined(img)
    ensures Unpack.Output(img, originalEntryPoint, bodies)
      == Cursors.Replay([], Unpack.Chunks(img, originalEntryPoint, bodies))
        + (if Unpack.FileSize(img) < |img.data| then img.data[Unpack.FileSize(img)..] else [])
  {
    Cursors.WriteAtEnd(Cursors.Replay([], Unpack.Chunks(img, originalEntryPoint, bodies)), Unpack.Overlay(img));
  }

  /**
   * The header region of the output, up to the end of the section headers,
   * is the DOS header, zeros up to `e_lfanew`, the patched NT headers, the
   * data directories and the section headers, provided no section body is
   * placed inside it.
   */
  lemma {:induction false} OutputHeaders(img: Pe.Image, originalEntryPoint: bv64, bodies: seq<seq<byte>>)
    requires Pe.WellSized(img) && |bodies| == |img.sections| && Unpack.OverlayDefined(img)
    requires BodiesPast(Unpack.BodyChunks(img.sections, bodies), Unpack.HeadersEnd(img))
    ensures |Unpack.Output(img, originalEntryPoint, bodies)| >= Unpack.HeadersEnd(img)
    ensures Unpack.Output(img, originalEntryPoint, bodies)[..Unpack.HeadersEnd(img)]
      == img.dos + Zeros(Unpack.NtStart(img) - Pe.DosHeaderSize)
        + Unpack.NtPatched(img.nt, originalEntryPoint) + Flatten(img.directories) + Flatten(img.sections)
  {
    var prefix := Unpack.PrefixChunks(img, originalEntryPoint);
    var placed := Unpack.BodyChunks(img.sections, bodies);
    var buf := Cursors.Replay([], prefix);
    PrefixBytes(img, originalEntryPoint);
    HeadersAppended(prefix, buf, img.sections, placed, Unpack.HeadersEnd(img));
    var written := Cursors.Replay([], Unpack.Chunks(img, originalEntryPoint, bodies));
    Cursors.WriteAtEnd(written, Unpack.Overlay(img));
    SliceBefore(written, Unpack.Overlay(img), 0, Unpack.HeadersEnd(img));
  }

  /** A slice that lies within the first of two appended sequences. */
  lemma {:induction false} SliceBefore(r: seq<byte>, o: seq<byte>, a: nat, b: nat)
    requires a <= b <= |r|
    ensures (r + o)[a..b] == r[a..b]
  {
  }

  /** Section `i`'s body is placed at its `PointerToRawData`. */
  lemma {:induction false} BodyChunkAt(sections: seq<Pe.SectionHeader>, bodies: seq<seq<byte>>, i: nat)
    requires |sections| == |bodies| && i < |sections|
    requires forall k :: 0 <= k < |sections| ==> |sections[k]| == Pe.SectionHeaderSize
    ensures Unpack.BodyChunks(sections, bodies)[i] == Cursors.Chunk(Pe.PointerToRawData(sections[i]) as nat, bodies[i])
    decreases |sections|
  {
    var n := |sections| - 1;
    if i < n {
      BodyChunkAt(sections[..n], bodies[..n], i);
    }
  }

  /**
   * A non-empty section body appears in the output at its
   * `PointerToRawData`, provided no body is placed inside the headers and no
   * later body overlaps it.
   */
  lemma {:induction false} OutputBody(img: Pe.Image, originalEntryPoint: bv64, bodies: seq<seq<byte>>, i: nat)
    requires Pe.WellSized(img) && |bodies| == |img.sections| && Unpack.OverlayDefined(img)
    requires i < |bodies| && bodies[i] != []
    requires BodiesPast(Unpack.BodyChunks(img.sections, bodies), Unpack.HeadersEnd(img))
    requires forall j :: i < j < |bodies| ==>
      Cursors.Apart(Unpack.BodyChunks(img.sections, bodies)[i], Unpack.BodyChunks(img.sections, bodies)[j])
    ensures var at := Pe.PointerToRawData(img.sections[i]) as nat;
      |Unpack.Output(img, originalEntryPoint, bodies)| >= at + |bodies[i]|
      && Unpack.Output(img, originalEntryPoint, bodies)[at..at + |bodies[i]|] == bodies[i]
  {
    var placed := Unpack.BodyChunks(img.sections, bodies);
    BodyChunkAt(img.sections, bodies, i);
    BodyBeforeOverlay(Unpack.PrefixChunks(img, originalEntryPoint), img.sections, placed,
      Unpack.SectionHeadersStart(img), Unpack.HeadersEnd(img), i, Unpack.Overlay(img));
  }

  /** `BodySurvives`, with the overlay written after the last write. */
  lemma {:induction false} BodyBeforeOverlay(prefix: seq<Cursors.Chunk>, headers: seq<seq<byte>>, placed: seq<Cursors.Chunk>, at: nat, end: nat, i: nat, overlay: seq<byte>)
    requires |headers| == |placed| && i < |headers| && placed[i].bytes != []
    requires forall k :: 0 <= k < |headers| ==> |headers[k]| == Pe.SectionHeaderSize
    requires at + Pe.SectionHeaderSize * |headers| <= end && BodiesPast(placed, end)
    requires forall j :: i < j < |placed| ==> Cursors.Apart(placed[i], placed[j])
    ensures var r := Cursors.Replay([], prefix + Unpack.SectionChunks(headers, placed, at));
      var out := Cursors.WriteAt(r, |r|, overlay);
      |out| >= placed[i].at + |placed[i].bytes| && out[placed[i].at..placed[i].at + |placed[i].bytes|] == placed[i].bytes
  {
    var r := Cursors.Replay([], prefix + Unpack.SectionChunks(headers, placed, at));
    BodySurvives(prefix, headers, placed, at, end, i);
    SliceOfWritten(r, overlay, placed[i].at, placed[i].at + |placed[i].bytes|);
  }

  /** A slice of what was written before the overlay is unchanged by it. */
  lemma {:induction false} SliceOfWritten(r: seq<byte>, overlay: seq<byte>, a: nat, b: nat)
    requires a <= b <= |r|
    ensures |Cursors.WriteAt(r, |r|, overlay)| >= b
    ensures Cursors.WriteAt(r, |r|, overlay)[a..b] == r[a..b]
  {
    Cursors.WriteAtEnd(r, overlay);
    SliceBefore(r, overlay, a, b);
  }

  /** A body apart from every later body, placed past the headers, survives the section loop. */
  lemma {:induction false} BodySurvives(prefix: seq<Cursors.Chunk>, headers: seq<seq<byte>>, placed: seq<Cursors.Chunk>, at: nat, end: nat, i: nat)
    requires |headers| == |placed| && i < |headers| && placed[i].bytes != []
    requires forall k :: 0 <= k < |headers| ==> |headers[k]| == Pe.SectionHeaderSize
    requires at + Pe.SectionHeaderSize * |headers| <= end && BodiesPast(placed, end)
    requires forall j :: i < j < |placed| ==> Cursors.Apart(placed[i], placed[j])
    ensures var r := Cursors.Replay([], prefix + Unpack.SectionChunks(headers, placed, at));
      |r| >= placed[i].at + |placed[i].bytes| && r[placed[i].at..placed[i].at + |placed[i].bytes|] == placed[i].bytes
  {
    LaterApart(prefix, headers, placed, at, end, i);
    Cursors.Untouched([], prefix + Unpack.SectionChunks(headers, placed, at), |prefix| + 2 * i + 1);
  }

  /** Every write of the section loop after body `i` is apart from it. */
  lemma {:induction false} LaterApart(prefix: seq<Cursors.Chunk>, headers: seq<seq<byte>>, placed: seq<Cursors.Chunk>, at: nat, end: nat, i: nat)
    requires |headers| == |placed| && i < |headers|
    requires forall k :: 0 <= k < |headers| ==> |headers[k]| == Pe.SectionHeaderSize
    requires at + Pe.SectionHeaderSize * |headers| <= end && BodiesPast(placed, end)
    requires forall j :: i < j < |placed| ==> Cursors.Apart(placed[i], placed[j])
    ensures var ws := prefix + Unpack.SectionChunks(headers, placed, at);
      && ws[|prefix| + 2 * i + 1] == placed[i]
      && forall j :: |prefix| + 2 * i + 1 < j < |ws| ==> Cursors.Apart(ws[|prefix| + 2 * i + 1], ws[j])
  {
    var loop := Unpack.SectionChunks(headers, placed, at);
    var ws := prefix + loop;
    Unpack.SectionChunkAt(headers, placed, at, i);
    forall j | |prefix| + 2 * i + 1 < j < |ws|
      ensures Cursors.Apart(placed[i], ws[j])
    {
      var m := (j - |prefix|) / 2;
      assert ws[j] == loop[j - |prefix|];
      Unpack.SectionChunkAt(headers, placed, at, m);
      if j - |prefix| == 2 * m {
        assert Pe.SectionHeaderSize * (m + 1) <= Pe.SectionHeaderSize * |headers|;
      }
    }
  }
}
