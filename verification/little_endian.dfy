/**
 * Explicit little-endian field access over byte sequences. This replaces the
 * `bytemuck`/`dataview` memory reinterpretation of the original: every field
 * of a fixed-layout record is read or written at its byte offset.
 */
module LittleEndian {

  type byte = bv8

  /** A run of `n` zero bytes. */
  function Zeros(n: nat): (z: seq<byte>)
    ensures |z| == n
    ensures forall i :: 0 <= i < n ==> z[i] == 0
  {
    seq(n, _ => 0)
  }

  /** The `u32` whose little-endian bytes are `b0 b1 b2 b3`. */
  function Le32(b0: byte, b1: byte, b2: byte, b3: byte): bv32 {
    (b0 as bv32) | ((b1 as bv32) << 8) | ((b2 as bv32) << 16) | ((b3 as bv32) << 24)
  }

  /** The `u32` stored little-endian at `s[at..at+4]`. */
  function U32At(s: seq<byte>, at: nat): bv32
    requires at + 4 <= |s|
  {
    Le32(s[at], s[at + 1], s[at + 2], s[at + 3])
  }

  /** The `u64` stored little-endian at `s[at..at+8]`. */
  function U64At(s: seq<byte>, at: nat): bv64
    requires at + 8 <= |s|
  {
    (U32At(s, at) as bv64) | ((U32At(s, at + 4) as bv64) << 32)
  }

  /** The four bytes of `w`, least significant first. */
  function U32Bytes(w: bv32): (b: seq<byte>)
    ensures |b| == 4
  {
    [(w & 0xFF) as bv8, ((w >> 8) & 0xFF) as bv8, ((w >> 16) & 0xFF) as bv8, ((w >> 24) & 0xFF) as bv8]
  }

  /** The eight bytes of `w`, least significant first. */
  function U64Bytes(w: bv64): (b: seq<byte>)
    ensures |b| == 8
  {
    U32Bytes((w & 0xFFFF_FFFF) as bv32) + U32Bytes((w >> 32) as bv32)
  }

  /** The low 32 bits of a `u64`: Rust's `x as u32`. */
  function Low32(w: bv64): (r: bv32)
    ensures r as bv64 == w & 0xFFFF_FFFF
  {
    (w & 0xFFFF_FFFF) as bv32
  }

  /** `s` with the `u32` at `at` replaced by `w`. */
  function WriteU32At(s: seq<byte>, at: nat, w: bv32): (r: seq<byte>)
    requires at + 4 <= |s|
    ensures |r| == |s|
    ensures r[at..at + 4] == U32Bytes(w)
  {
    s[..at] + U32Bytes(w) + s[at + 4..]
  }

  /**
   * Writing a word changes only its four bytes. Kept out of the contract of
   * `WriteU32At` so that proofs which do not need it do not pay for it.
   */
  lemma {:induction false} WriteU32AtFrame(s: seq<byte>, at: nat, w: bv32)
    requires at + 4 <= |s|
    ensures forall i :: 0 <= i < |s| && !(at <= i < at + 4) ==> WriteU32At(s, at, w)[i] == s[i]
  {
  }

  /** Encoding then decoding a word gives it back. */
  lemma {:induction false} U32RoundTrip(w: bv32)
    ensures U32At(U32Bytes(w), 0) == w
  {
  }

  /** Decoding then encoding four bytes gives them back. */
  lemma {:induction false} U32BytesOfRead(s: seq<byte>, at: nat)
    requires at + 4 <= |s|
    ensures U32Bytes(U32At(s, at)) == s[at..at + 4]
  {
    var w := U32At(s, at);
    assert U32Bytes(w)[0] == s[at];
    assert U32Bytes(w)[1] == s[at + 1];
    assert U32Bytes(w)[2] == s[at + 2];
    assert U32Bytes(w)[3] == s[at + 3];
  }

  /** A written word reads back. */
  lemma {:induction false} WriteThenRead(s: seq<byte>, at: nat, w: bv32)
    requires at + 4 <= |s|
    ensures U32At(WriteU32At(s, at, w), at) == w
  {
    var t := WriteU32At(s, at, w);
    var b := U32Bytes(w);
    assert t[at] == b[0] && t[at + 1] == b[1] && t[at + 2] == b[2] && t[at + 3] == b[3];
    U32RoundTrip(w);
  }

  /** Writing a word leaves every word that does not overlap it readable as before. */
  lemma {:induction false} WriteU32AtOther(s: seq<byte>, at: nat, w: bv32, y: nat)
    requires at + 4 <= |s| && y + 4 <= |s|
    requires y + 4 <= at || at + 4 <= y
    ensures U32At(WriteU32At(s, at, w), y) == U32At(s, y)
  {
    var t := WriteU32At(s, at, w);
    assert t[y] == s[y] && t[y + 1] == s[y + 1] && t[y + 2] == s[y + 2] && t[y + 3] == s[y + 3];
  }

  /** The two halves of a `u64` put back together. */
  lemma {:induction false} Split64(lo: bv32, hi: bv32)
    ensures ((lo as bv64 | ((hi as bv64) << 32)) & 0xFFFF_FFFF) as bv32 == lo
    ensures ((lo as bv64 | ((hi as bv64) << 32)) >> 32) as bv32 == hi
  {
  }

  /** A `u64` is its low half joined with its high half. */
  lemma {:induction false} Join64(w: bv64)
    ensures ((w & 0xFFFF_FFFF) as bv32) as bv64 | ((((w >> 32) as bv32) as bv64) << 32) == w
  {
  }

  /** Encoding then decoding a `u64` gives it back. */
  lemma {:induction false} U64RoundTrip(w: bv64)
    ensures U64At(U64Bytes(w), 0) == w
  {
    var b := U64Bytes(w);
    var lo := (w & 0xFFFF_FFFF) as bv32;
    var hi := (w >> 32) as bv32;
    U32RoundTrip(lo);
    U32RoundTrip(hi);
    U32AtSameByteOffset(b, 0, U32Bytes(lo));
    U32AtSameByteOffset(b, 4, U32Bytes(hi));
    Join64(w);
  }

  /** The word at `at` of `s` is the word at 0 of the four bytes there. */
  lemma {:induction false} U32AtSameByteOffset(s: seq<byte>, at: nat, t: seq<byte>)
    requires at + 4 <= |s| && t == s[at..at + 4]
    ensures U32At(s, at) == U32At(t, 0)
  {
  }

  /** Decoding then encoding eight bytes gives them back. */
  lemma {:induction false} U64BytesOfRead(s: seq<byte>, at: nat)
    requires at + 8 <= |s|
    ensures U64Bytes(U64At(s, at)) == s[at..at + 8]
  {
    var lo := U32At(s, at);
    var hi := U32At(s, at + 4);
    Split64(lo, hi);
    U32BytesOfRead(s, at);
    U32BytesOfRead(s, at + 4);
    assert s[at..at + 8] == s[at..at + 4] + s[at + 4..at + 8];
  }

  /** Two buffers that agree on four bytes read the same word there. */
  lemma {:induction false} U32AtSameBytes(s: seq<byte>, t: seq<byte>, at: nat)
    requires at + 4 <= |s| && at + 4 <= |t|
    requires s[at] == t[at] && s[at + 1] == t[at + 1] && s[at + 2] == t[at + 2] && s[at + 3] == t[at + 3]
    ensures U32At(s, at) == U32At(t, at)
  {
  }

  /** A word read inside a slice is the word at the same place in the whole. */
  lemma {:induction false} U32AtInSlice(s: seq<byte>, start: nat, r: seq<byte>, at: nat)
    requires start + |r| <= |s| && r == s[start..start + |r|] && at + 4 <= |r|
    ensures U32At(r, at) == U32At(s, start + at)
  {
    assert r[at] == s[start + at] && r[at + 1] == s[start + at + 1];
    assert r[at + 2] == s[start + at + 2] && r[at + 3] == s[start + at + 3];
  }

  /** An eight-byte word read inside a slice is the word at the same place in the whole. */
  lemma {:induction false} U64AtInSlice(s: seq<byte>, start: nat, r: seq<byte>, at: nat)
    requires start + |r| <= |s| && r == s[start..start + |r|] && at + 8 <= |r|
    ensures U64At(r, at) == U64At(s, start + at)
  {
    U32AtInSlice(s, start, r, at);
    U32AtInSlice(s, start, r, at + 4);
  }
}
