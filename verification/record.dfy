/**
 * Fixed-layout records as `repr(C)` lays them out when no field needs
 * padding: the fields one after the other, each little-endian. A layout is
 * the list of field kinds; a record is the list of field values. Decoding
 * and encoding are inverse on every layout.
 */
module Records {
  import opened LittleEndian
  import RollingXor

  /** A field type: `u32`, `u64`, `[u8; n]` or `[u32; n]`. */
  datatype Kind = U32 | U64 | Bytes(n: nat) | Words(n: nat)

  datatype Value = V32(w: bv32) | V64(d: bv64) | VBytes(b: seq<byte>) | VWords(ws: seq<bv32>)

  function Width(k: Kind): nat {
    match k
    case U32 => 4
    case U64 => 8
    case Bytes(n) => n
    case Words(n) => 4 * n
  }

  /** The size of a record of the layout. */
  function Size(layout: seq<Kind>): nat {
    if layout == [] then 0 else Width(layout[0]) + Size(layout[1..])
  }

  /** The offset of field `k`: the widths of the fields before it. */
  function Offset(layout: seq<Kind>, k: nat): nat
    requires k <= |layout|
  {
    Size(layout[..k])
  }

  predicate HasKind(v: Value, k: Kind) {
    match k
    case U32 => v.V32?
    case U64 => v.V64?
    case Bytes(n) => v.VBytes? && |v.b| == n
    case Words(n) => v.VWords? && |v.ws| == n
  }

  /** Values that fit the layout field by field. */
  predicate Fits(vs: seq<Value>, layout: seq<Kind>) {
    |vs| == |layout| && forall i :: 0 <= i < |vs| ==> HasKind(vs[i], layout[i])
  }

  /** The field of kind `k` at the start of `b`. */
  function ReadField(b: seq<byte>, k: Kind): (v: Value)
    requires Width(k) <= |b|
    ensures HasKind(v, k)
  {
    match k
    case U32 => V32(U32At(b, 0))
    case U64 => V64(U64At(b, 0))
    case Bytes(n) => VBytes(b[..n])
    case Words(n) => VWords(RollingXor.WordsBetween(b, 0, n))
  }

  /** The bytes of one field value. */
  function FieldBytes(v: Value): seq<byte> {
    match v
    case V32(w) => U32Bytes(w)
    case V64(d) => U64Bytes(d)
    case VBytes(b) => b
    case VWords(ws) => RollingXor.WordBytes(ws)
  }

  /** `bytemuck::from_bytes` for a record of the layout. */
  function Decode(b: seq<byte>, layout: seq<Kind>): (vs: seq<Value>)
    requires Size(layout) <= |b|
    ensures Fits(vs, layout)
  {
    if layout == [] then []
    else [ReadField(b, layout[0])] + Decode(b[Width(layout[0])..], layout[1..])
  }

  /** `bytemuck::bytes_of` for a record. */
  function Encode(vs: seq<Value>): seq<byte> {
    if vs == [] then [] else FieldBytes(vs[0]) + Encode(vs[1..])
  }

  // ---------------------------------------------------------------------------
  // One field
  // ---------------------------------------------------------------------------

  lemma {:induction false} FieldBytesWidth(v: Value, k: Kind)
    requires HasKind(v, k)
    ensures |FieldBytes(v)| == Width(k)
  {
  }

  /** A field value reads back from its bytes, whatever follows them. */
  lemma {:induction false} ReadFieldBytes(v: Value, k: Kind, rest: seq<byte>)
    requires HasKind(v, k)
    ensures |FieldBytes(v)| == Width(k)
    ensures ReadField(FieldBytes(v) + rest, k) == v
  {
    var b := FieldBytes(v) + rest;
    match k
    case U32 =>
      U32RoundTrip(v.w);
      U32AtSameByteOffset(b, 0, U32Bytes(v.w));
    case U64 =>
      U64RoundTrip(v.d);
      assert b[..8] == U64Bytes(v.d);
      U32AtSameByteOffset(b, 0, U64Bytes(v.d)[0..4]);
      U32AtSameByteOffset(b, 4, U64Bytes(v.d)[4..8]);
      U32AtSameByteOffset(U64Bytes(v.d), 0, U64Bytes(v.d)[0..4]);
      U32AtSameByteOffset(U64Bytes(v.d), 4, U64Bytes(v.d)[4..8]);
    case Bytes(n) =>
      assert b[..n] == v.b;
    case Words(n) =>
      RollingXor.WordsOfWordBytes(v.ws);
      WordsOfPrefix(RollingXor.WordBytes(v.ws), rest, n);
  }

  /** The first `n` words of `a + rest` are those of `a` when `a` holds them. */
  lemma {:induction false} WordsOfPrefix(a: seq<byte>, rest: seq<byte>, n: nat)
    requires 4 * n <= |a|
    ensures RollingXor.WordsBetween(a + rest, 0, n) == RollingXor.WordsBetween(a, 0, n)
  {
    forall i | 0 <= i < n
      ensures RollingXor.Word(a + rest, i) == RollingXor.Word(a, i)
    {
      U32AtSameBytes(a + rest, a, 4 * i);
    }
  }

  /** The bytes of a field read from `b` are the bytes it was read from. */
  lemma {:induction false} FieldBytesOfRead(b: seq<byte>, k: Kind)
    requires Width(k) <= |b|
    ensures FieldBytes(ReadField(b, k)) == b[..Width(k)]
  {
    match k
    case U32 =>
      U32BytesOfRead(b, 0);
    case U64 =>
      U64BytesOfRead(b, 0);
    case Bytes(n) =>
    case Words(n) =>
      RollingXor.WordBytesOfWords(b, 0, n);
  }

  // ---------------------------------------------------------------------------
  // Whole records
  // ---------------------------------------------------------------------------

  /** The bytes of a record that fits a layout are as long as the layout. */
  lemma {:induction false} EncodeSize(vs: seq<Value>, layout: seq<Kind>)
    requires Fits(vs, layout)
    ensures |Encode(vs)| == Size(layout)
    decreases |vs|
  {
    if vs != [] {
      FieldBytesWidth(vs[0], layout[0]);
      EncodeSize(vs[1..], layout[1..]);
    }
  }

  /** Decoding the bytes of a record gives the record back. */
  lemma {:induction false} DecodeEncode(vs: seq<Value>, layout: seq<Kind>)
    requires Fits(vs, layout)
    ensures |Encode(vs)| == Size(layout)
    ensures Decode(Encode(vs), layout) == vs
    decreases |vs|
  {
    EncodeSize(vs, layout);
    if vs != [] {
      var head := FieldBytes(vs[0]);
      var rest := Encode(vs[1..]);
      ReadFieldBytes(vs[0], layout[0], rest);
      assert (head + rest)[Width(layout[0])..] == rest;
      DecodeEncode(vs[1..], layout[1..]);
      assert [vs[0]] + vs[1..] == vs;
    }
  }

  /** Encoding a decoded record gives back the bytes it was read from. */
  lemma {:induction false} EncodeDecode(b: seq<byte>, layout: seq<Kind>)
    requires Size(layout) <= |b|
    ensures Encode(Decode(b, layout)) == b[..Size(layout)]
    decreases |layout|
  {
    if layout != [] {
      var w := Width(layout[0]);
      FieldBytesOfRead(b, layout[0]);
      EncodeDecode(b[w..], layout[1..]);
      var vs := Decode(b, layout);
      assert vs[0] == ReadField(b, layout[0]) && vs[1..] == Decode(b[w..], layout[1..]);
      assert b[..Size(layout)] == b[..w] + b[w..][..Size(layout[1..])];
    }
  }

  /** Field `k` of a decoded record is the field of its kind at its offset. */
  lemma {:induction false} DecodeField(b: seq<byte>, layout: seq<Kind>, k: nat)
    requires Size(layout) <= |b| && k < |layout|
    ensures Offset(layout, k) + Width(layout[k]) <= Size(layout)
    ensures Decode(b, layout)[k] == ReadField(b[Offset(layout, k)..], layout[k])
    decreases k
  {
    SizeSplit(layout, k);
    if k > 0 {
      var w := Width(layout[0]);
      DecodeField(b[w..], layout[1..], k - 1);
      assert layout[1..][..k - 1] == layout[..k][1..];
      assert b[w..][Offset(layout[1..], k - 1)..] == b[Offset(layout, k)..];
    }
  }

  /** A layout's size splits at any field. */
  lemma {:induction false} SizeSplit(layout: seq<Kind>, k: nat)
    requires k < |layout|
    ensures Size(layout) == Size(layout[..k]) + Width(layout[k]) + Size(layout[k + 1..])
    decreases k
  {
    if k > 0 {
      SizeSplit(layout[1..], k - 1);
      assert layout[1..][..k - 1] == layout[..k][1..];
      assert layout[1..][k - 1 + 1..] == layout[k + 1..];
    } else {
      assert layout[..0] == [];
    }
  }
}
