/**
 * `std::io::Cursor<Vec<u8>>` as the output is assembled with it: a buffer
 * and a position. `write_all` of a non-empty slice first zero-fills the
 * buffer up to the position if it is shorter, then overwrites or extends it
 * with the slice and advances the position. `write_all` is the default
 * loop of `std::io::Write`, which never calls `write` with an empty slice,
 * so writing nothing changes nothing. Recent standard libraries replace that
 * loop for `Cursor<Vec<u8>>` by one that zero-fills up to the position even
 * for an empty slice; this module does not follow them.
 */
module Cursors {
  import opened Wrappers
  import opened LittleEndian

  datatype Cursor = Cursor(buf: seq<byte>, pos: nat)

  function Max(a: nat, b: nat): nat {
    if a < b then b else a
  }

  /**
   * Reference definition of one write: the byte at `i` after writing
   * `bytes` at `at` into `buf` — the written byte, else the old byte, else
   * the zero of the fill.
   */
  function ByteAfterWrite(buf: seq<byte>, at: nat, bytes: seq<byte>, i: nat): byte {
    if at <= i < at + |bytes| then bytes[i - at] else if i < |buf| then buf[i] else 0
  }

  /** The buffer after writing `bytes` at `at`. */
  function WriteAt(buf: seq<byte>, at: nat, bytes: seq<byte>): (r: seq<byte>)
    ensures |r| == if bytes == [] then |buf| else Max(|buf|, at + |bytes|)
  {
    var n := if bytes == [] then |buf| else Max(|buf|, at + |bytes|);
    seq(n, (i: int) requires 0 <= i => ByteAfterWrite(buf, at, bytes, i))
  }

  /** Every byte of a write is as the reference definition says. */
  lemma {:induction false} WriteAtByte(buf: seq<byte>, at: nat, bytes: seq<byte>, i: nat)
    requires i < |WriteAt(buf, at, bytes)|
    ensures WriteAt(buf, at, bytes)[i] == ByteAfterWrite(buf, at, bytes, i)
  {
  }

  /**
   * A non-empty write is the `Vec` operation the cursor performs: zero-fill
   * up to `at`, keep what lies before `at`, put `bytes`, keep what lies past
   * their end.
   */
  lemma {:induction false} WriteAtSplice(buf: seq<byte>, at: nat, bytes: seq<byte>)
    requires bytes != []
    ensures var padded := if at <= |buf| then buf else buf + Zeros(at - |buf|);
      WriteAt(buf, at, bytes) == padded[..at] + bytes + (if at + |bytes| <= |padded| then padded[at + |bytes|..] else [])
  {
    var padded := if at <= |buf| then buf else buf + Zeros(at - |buf|);
    var spliced := padded[..at] + bytes + (if at + |bytes| <= |padded| then padded[at + |bytes|..] else []);
    forall i | 0 <= i < |spliced|
      ensures spliced[i] == WriteAt(buf, at, bytes)[i]
    {
      assert i < |padded| ==> padded[i] == if i < |buf| then buf[i] else 0;
    }
  }

  /** `c.write_all(bytes)`. */
  function WriteAll(c: Cursor, bytes: seq<byte>): (r: Cursor)
    ensures r.pos == c.pos + |bytes|
    ensures |r.buf| == if bytes == [] then |c.buf| else Max(|c.buf|, c.pos + |bytes|)
  {
    Cursor(WriteAt(c.buf, c.pos, bytes), c.pos + |bytes|)
  }

  /** `c.set_position(at)`. */
  function SetPosition(c: Cursor, at: nat): (r: Cursor)
    ensures r.buf == c.buf && r.pos == at
  {
    Cursor(c.buf, at)
  }

  /** `c.seek(SeekFrom::End(0))`. */
  function SeekEnd(c: Cursor): (r: Cursor)
    ensures r.buf == c.buf && r.pos == |c.buf|
  {
    Cursor(c.buf, |c.buf|)
  }

  // ---------------------------------------------------------------------------
  // A list of writes, replayed in order
  /** Writing at the end of the buffer appends. */
  lemma {:induction false} WriteAtEnd(buf: seq<byte>, bytes: seq<byte>)
    ensures WriteAt(buf, |buf|, bytes) == buf + bytes
  {
    var r := WriteAt(buf, |buf|, bytes);
    forall i | 0 <= i < |r|
      ensures r[i] == (buf + bytes)[i]
    {
    }
  }

  /** An empty write changes nothing. */
  lemma {:induction false} WriteAtNothing(buf: seq<byte>, at: nat)
    ensures WriteAt(buf, at, []) == buf
  {
  }

  /** A write never shortens the buffer and keeps every byte before its position. */
  lemma {:induction false} WriteAtKeeps(buf: seq<byte>, at: nat, bytes: seq<byte>, n: nat)
    requires n <= at && n <= |buf|
    ensures |WriteAt(buf, at, bytes)| >= |buf|
    ensures WriteAt(buf, at, bytes)[..n] == buf[..n]
  {
    var r := WriteAt(buf, at, bytes);
    forall i | 0 <= i < n
      ensures r[i] == buf[i]
    {
    }
  }

  /** A write that starts inside the buffer: what lies before it, then the written bytes. */
  lemma {:induction false} WriteAtFrom(buf: seq<byte>, at: nat, bytes: seq<byte>)
    requires at <= |buf|
    ensures |WriteAt(buf, at, bytes)| >= at + |bytes|
    ensures WriteAt(buf, at, bytes)[..at + |bytes|] == buf[..at] + bytes
  {
    var r := WriteAt(buf, at, bytes);
    forall i | 0 <= i < at + |bytes|
      ensures r[i] == (buf[..at] + bytes)[i]
    {
    }
  }

  // ---------------------------------------------------------------------------

  /** One write: `bytes` at position `at`. */
  datatype Chunk = Chunk(at: nat, bytes: seq<byte>)

  predicate Covers(c: Chunk, i: nat) {
    c.at <= i < c.at + |c.bytes|
  }

  /** The buffer after the writes `ws`, first to last, into `buf`. */
  function Replay(buf: seq<byte>, ws: seq<Chunk>): seq<byte>
    decreases |ws|
  {
    if ws == [] then buf
    else
      var last := ws[|ws| - 1];
      WriteAt(Replay(buf, ws[..|ws| - 1]), last.at, last.bytes)
  }

  /** How far the writes reach: the longest of `buf` and the end of every non-empty write. */
  function Extent(buf: seq<byte>, ws: seq<Chunk>): nat
    decreases |ws|
  {
    if ws == [] then |buf|
    else
      var last := ws[|ws| - 1];
      if last.bytes == [] then Extent(buf, ws[..|ws| - 1]) else Max(Extent(buf, ws[..|ws| - 1]), last.at + |last.bytes|)
  }

  /** The last write that covers byte `i`, if any. */
  function LastCover(ws: seq<Chunk>, i: nat): (r: Option<nat>)
    ensures r.Some? ==> r.value < |ws| && Covers(ws[r.value], i)
    ensures r.Some? ==> forall j :: r.value < j < |ws| ==> !Covers(ws[j], i)
    ensures r.None? <==> forall j :: 0 <= j < |ws| ==> !Covers(ws[j], i)
    decreases |ws|
  {
    if ws == [] then None
    else if Covers(ws[|ws| - 1], i) then Some(|ws| - 1)
    else LastCover(ws[..|ws| - 1], i)
  }

  /** The replayed buffer is exactly as long as the writes reach. */
  lemma {:induction false} ReplayLength(buf: seq<byte>, ws: seq<Chunk>)
    ensures |Replay(buf, ws)| == Extent(buf, ws)
    decreases |ws|
  {
    if ws != [] {
      ReplayLength(buf, ws[..|ws| - 1]);
    }
  }

  /**
   * Last writer wins: each byte of the replayed buffer comes from the last
   * write that covers it; a byte no write covers keeps its old value, or is
   * zero if it lies past the old end.
   */
  lemma {:induction false} LastWriterWins(buf: seq<byte>, ws: seq<Chunk>, i: nat)
    requires i < |Replay(buf, ws)|
    ensures Replay(buf, ws)[i] ==
      match LastCover(ws, i)
      case Some(k) => ws[k].bytes[i - ws[k].at]
      case None => if i < |buf| then buf[i] else 0
    decreases |ws|
  {
    if ws != [] {
      var init := ws[..|ws| - 1];
      var last := ws[|ws| - 1];
      var before := Replay(buf, init);
      WriteAtByte(before, last.at, last.bytes, i);
      if !Covers(last, i) {
        if i < |before| {
          LastWriterWins(buf, init, i);
          assert forall j :: 0 <= j < |init| ==> init[j] == ws[j];
        } else {
          ReplayLength(buf, init);
          NothingPastExtent(buf, init, i);
          assert forall j :: 0 <= j < |init| ==> init[j] == ws[j];
        }
      }
    }
  }

  /** No write covers a byte at or past the extent. */
  lemma {:induction false} NothingPastExtent(buf: seq<byte>, ws: seq<Chunk>, i: nat)
    requires Extent(buf, ws) <= i
    ensures LastCover(ws, i).None? && |buf| <= i
    decreases |ws|
  {
    if ws != [] {
      NothingPastExtent(buf, ws[..|ws| - 1], i);
    }
  }

  /** Two writes that share no byte; an empty write shares none. */
  predicate Apart(c: Chunk, d: Chunk) {
    c.bytes == [] || d.bytes == [] || c.at + |c.bytes| <= d.at || d.at + |d.bytes| <= c.at
  }

  /** A write apart from every later write survives intact. */
  lemma {:induction false} Untouched(buf: seq<byte>, ws: seq<Chunk>, k: nat)
    requires k < |ws| && ws[k].bytes != []
    requires forall j :: k < j < |ws| ==> Apart(ws[k], ws[j])
    ensures |Replay(buf, ws)| >= ws[k].at + |ws[k].bytes|
    ensures Replay(buf, ws)[ws[k].at..ws[k].at + |ws[k].bytes|] == ws[k].bytes
  {
    forall j, i | k < j < |ws| && Covers(ws[k], i)
      ensures !Covers(ws[j], i)
    {
      assert Apart(ws[k], ws[j]);
    }
    Survives(buf, ws, k);
  }

  /** A write that no later write overlaps survives intact. */
  lemma {:induction false} Survives(buf: seq<byte>, ws: seq<Chunk>, k: nat)
    requires k < |ws| && ws[k].bytes != []
    requires forall j, i :: k < j < |ws| && Covers(ws[k], i) ==> !Covers(ws[j], i)
    ensures |Replay(buf, ws)| >= ws[k].at + |ws[k].bytes|
    ensures Replay(buf, ws)[ws[k].at..ws[k].at + |ws[k].bytes|] == ws[k].bytes
  {
    var c := ws[k];
    var r := Replay(buf, ws);
    ReplayLength(buf, ws);
    ExtentCovers(buf, ws, k);
    forall i | c.at <= i < c.at + |c.bytes|
      ensures r[i] == c.bytes[i - c.at]
    {
      LastWriterWins(buf, ws, i);
      assert Covers(ws[k], i);
    }
  }

  /** The extent reaches past every non-empty write. */
  lemma {:induction false} ExtentCovers(buf: seq<byte>, ws: seq<Chunk>, k: nat)
    requires k < |ws|
    ensures |ws[k].bytes| == 0 || ws[k].at + |ws[k].bytes| <= Extent(buf, ws)
    decreases |ws|
  {
    if k < |ws| - 1 {
      ExtentCovers(buf, ws[..|ws| - 1], k);
    }
  }

  /** Replaying a list of writes one write at a time. */
  lemma {:induction false} ReplaySnoc(buf: seq<byte>, ws: seq<Chunk>, c: Chunk)
    ensures Replay(buf, ws + [c]) == WriteAt(Replay(buf, ws), c.at, c.bytes)
  {
    assert (ws + [c])[..|ws|] == ws;
  }

  /** A write at the end of the replayed buffer appends to it. */
  lemma {:induction false} ReplayAppends(ws: seq<Chunk>, c: Chunk)
    requires c.at == |Replay([], ws)|
    ensures Replay([], ws + [c]) == Replay([], ws) + c.bytes
  {
    ReplaySnoc([], ws, c);
    WriteAtEnd(Replay([], ws), c.bytes);
  }

  /** One write on an empty buffer. */
  lemma {:induction false} ReplayOne(c: Chunk)
    ensures Replay([], [c]) == WriteAt([], c.at, c.bytes)
  {
    ReplaySnoc([], [], c);
    assert [] + [c] == [c];
  }

  /** Two writes on an empty buffer, in order. */
  lemma {:induction false} ReplayPair(c: Chunk, d: Chunk)
    ensures Replay([], [c, d]) == WriteAt(WriteAt([], c.at, c.bytes), d.at, d.bytes)
  {
    ReplayOne(c);
    ReplaySnoc([], [c], d);
    assert [c] + [d] == [c, d];
  }

  /** Appending one write after a list that extends a prefix. */
  lemma {:induction false} AppendOne(p: seq<Chunk>, x: seq<Chunk>, c: Chunk)
    ensures p + (x + [c]) == p + x + [c]
  {
  }

  /** Appending two writes after a list that extends a prefix. */
  lemma {:induction false} AppendTwo(p: seq<Chunk>, x: seq<Chunk>, c: Chunk, d: Chunk)
    ensures p + (x + [c, d]) == p + x + [c] + [d]
  {
  }

  /** `ReplayTwo` for a write list and buffers given by name. */
  lemma {:induction false} ReplayTwoOf(all: seq<Chunk>, ws: seq<Chunk>, c: Chunk, d: Chunk, before: seq<byte>, after: seq<byte>)
    requires all == ws + [c] + [d] && before == Replay([], ws)
    requires after == WriteAt(WriteAt(before, c.at, c.bytes), d.at, d.bytes)
    ensures after == Replay([], all)
  {
    ReplayTwo(ws, c, d);
  }

  /** Replaying two more writes. */
  lemma {:induction false} ReplayTwo(ws: seq<Chunk>, c: Chunk, d: Chunk)
    ensures Replay([], ws + [c] + [d]) == WriteAt(WriteAt(Replay([], ws), c.at, c.bytes), d.at, d.bytes)
  {
    ReplaySnoc([], ws, c);
    ReplaySnoc([], ws + [c], d);
  }
}
