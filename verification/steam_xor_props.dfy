/**
 * Properties of `steam_xor` (`src/bytes.rs`): the decoded buffer as a splice
 * of decoded words, chaining two calls through the returned key, the zero-key
 * seeding case, and the unit-test vector of the original.
 */
module RollingXorProperties {
  import opened LittleEndian
  import opened RollingXor

  /** Joining the bytes of two runs of words is joining the runs. */
  lemma {:induction false} WordBytesAppend(u: seq<bv32>, v: seq<bv32>)
    ensures WordBytes(u + v) == WordBytes(u) + WordBytes(v)
  {
    if u == [] {
      assert u + v == v;
    } else {
      assert (u + v)[0] == u[0];
      assert (u + v)[1..] == u[1..] + v;
      WordBytesAppend(u[1..], v);
    }
  }

  /** The words of a prefix or a suffix of `data` are the words of `data`. */
  lemma {:induction false} WordsOfSlices(data: seq<byte>, x: nat, b: nat, m: nat)
    requires x <= b <= m && 4 * m <= |data|
    ensures WordsBetween(data, x, m) == WordsBetween(data[..4 * b], x, b) + WordsBetween(data[4 * b..], 0, m - b)
  {
    var left := data[..4 * b];
    var right := data[4 * b..];
    forall k | x <= k < b
      ensures Word(left, k) == Word(data, k)
    {
      U32AtSameBytes(left, data, 4 * k);
    }
    forall k | 0 <= k < m - b
      ensures Word(right, k) == Word(data, b + k)
    {
      assert right[4 * k] == data[4 * (b + k)];
      assert right[4 * k + 1] == data[4 * (b + k) + 1];
      assert right[4 * k + 2] == data[4 * (b + k) + 2];
      assert right[4 * k + 3] == data[4 * (b + k) + 3];
      U32AtSameByteAt(right, 4 * k, data, 4 * (b + k));
    }
  }

  /** Two buffers with the same four bytes at two offsets read the same word there. */
  lemma {:induction false} U32AtSameByteAt(s: seq<byte>, i: nat, t: seq<byte>, j: nat)
    requires i + 4 <= |s| && j + 4 <= |t|
    requires s[i] == t[j] && s[i + 1] == t[j + 1] && s[i + 2] == t[j + 2] && s[i + 3] == t[j + 3]
    ensures U32At(s, i) == U32At(t, j)
  {
  }

  /** A splice over words `x..m` is a splice over `x..b` followed by one over `b..m` from the key it returned. */
  lemma {:induction false} SpliceSplit(data: seq<byte>, x: nat, b: nat, m: nat, seed: bv32)
    requires x <= b <= m && 4 * m <= |data|
    ensures var first := Splice(data[..4 * b], x, b, seed);
      var second := Splice(data[4 * b..], 0, m - b, first.1);
      Splice(data, x, m, seed) == (first.0 + second.0, second.1)
  {
    var left := data[..4 * b];
    var right := data[4 * b..];
    var d1 := DecodeWords(WordsBetween(left, x, b), seed);
    var d2 := DecodeWords(WordsBetween(right, 0, m - b), d1.1);
    DecodeHalves(data, x, b, m, seed, d1, d2);
    SpliceLeft(data, x, b, seed, d1);
    SpliceRight(data, b, m, d1.1, d2);
    SpliceWhole(data, x, m, seed, d1.0, d2);
  }

  /** The words decoded over `x..m` are those decoded over `x..b` followed by those over `b..m`. */
  lemma {:induction false} DecodeHalves(data: seq<byte>, x: nat, b: nat, m: nat, seed: bv32, d1: (seq<bv32>, bv32), d2: (seq<bv32>, bv32))
    requires x <= b <= m && 4 * m <= |data|
    requires d1 == DecodeWords(WordsBetween(data[..4 * b], x, b), seed)
    requires d2 == DecodeWords(WordsBetween(data[4 * b..], 0, m - b), d1.1)
    ensures DecodeWords(WordsBetween(data, x, m), seed) == (d1.0 + d2.0, d2.1)
  {
    WordsOfSlices(data, x, b, m);
    DecodeWordsSplit(WordsBetween(data[..4 * b], x, b), WordsBetween(data[4 * b..], 0, m - b), seed);
  }

  /** The splice of the prefix up to word `b`. */
  lemma {:induction false} SpliceLeft(data: seq<byte>, x: nat, b: nat, seed: bv32, d1: (seq<bv32>, bv32))
    requires x <= b && 4 * b <= |data|
    requires d1 == DecodeWords(WordsBetween(data[..4 * b], x, b), seed)
    ensures Splice(data[..4 * b], x, b, seed) == (data[..4 * x] + WordBytes(d1.0), d1.1)
  {
    var left := data[..4 * b];
    assert left[..4 * x] == data[..4 * x];
    assert left[4 * b..] == [];
    var p := data[..4 * x] + WordBytes(d1.0);
    assert p + [] == p;
  }

  /** The splice of the suffix from word `b`. */
  lemma {:induction false} SpliceRight(data: seq<byte>, b: nat, m: nat, seed: bv32, d2: (seq<bv32>, bv32))
    requires b <= m && 4 * m <= |data|
    requires d2 == DecodeWords(WordsBetween(data[4 * b..], 0, m - b), seed)
    ensures Splice(data[4 * b..], 0, m - b, seed) == (WordBytes(d2.0) + data[4 * m..], d2.1)
  {
    var right := data[4 * b..];
    assert right[..0] == [];
    assert right[4 * (m - b)..] == data[4 * m..];
    var p := WordBytes(d2.0);
    assert [] + p == p;
  }

  /** The whole splice, once its decoded words are known to be two runs. */
  lemma {:induction false} SpliceWhole(data: seq<byte>, x: nat, m: nat, seed: bv32, u: seq<bv32>, d2: (seq<bv32>, bv32))
    requires x <= m && 4 * m <= |data|
    requires DecodeWords(WordsBetween(data, x, m), seed) == (u + d2.0, d2.1)
    ensures Splice(data, x, m, seed) == ((data[..4 * x] + WordBytes(u)) + (WordBytes(d2.0) + data[4 * m..]), d2.1)
  {
    WordBytesAppend(u, d2.0);
    Regroup(data[..4 * x], WordBytes(u), WordBytes(d2.0), data[4 * m..]);
  }

  lemma {:induction false} Regroup<T>(a: seq<T>, b: seq<T>, c: seq<T>, d: seq<T>)
    ensures a + (b + c) + d == (a + b) + (c + d)
  {
  }

  /** The two halves of a chained decode, split after word `b`, are themselves defined. */
  lemma {:induction false} ChainDefined(data: seq<byte>, b: nat, size: nat, key: bv32, k1: bv32)
    requires SteamXorDefined(data, size, key)
    requires FirstWord(key) <= b && 4 * b <= size
    ensures SteamXorDefined(data[..4 * b], 4 * b, key)
    ensures k1 != 0 ==> SteamXorDefined(data[4 * b..], size - 4 * b, k1)
  {
    assert WordCount(4 * b) == b;
    assert WordCount(size - 4 * b) == WordCount(size) - b;
  }

  /** Where the first half of a chained decode ends, and the seed it starts from. */
  lemma {:induction false} FirstBounds(data: seq<byte>, b: nat, size: nat, key: bv32)
    requires SteamXorDefined(data, size, key)
    requires FirstWord(key) <= b && 4 * b <= size
    ensures EndWord(4 * b, key) == b && Seed(data[..4 * b], key) == Seed(data, key)
  {
    if key == 0 {
      U32AtSameBytes(data[..4 * b], data, 0);
    }
  }

  /** Where the second half of a chained decode ends, and the seed it starts from. */
  lemma {:induction false} ChainBounds(data: seq<byte>, b: nat, size: nat, key: bv32, k1: bv32)
    requires SteamXorDefined(data, size, key)
    requires FirstWord(key) <= b && 4 * b <= size && k1 != 0
    ensures b <= EndWord(size, key) && EndWord(size - 4 * b, k1) == EndWord(size, key) - b
    ensures Seed(data[4 * b..], k1) == k1
  {
  }

  /**
   * Chaining: decoding the first `b` words and then the rest with the key
   * the first call returned is one decode of the whole range, provided that
   * key is not 0 (a zero key would take the next word as a fresh seed).
   * `ChainDefined` shows that both halves are defined whenever the whole is.
   */
  lemma {:induction false} SteamXorChain(data: seq<byte>, b: nat, size: nat, key: bv32, first: (seq<byte>, bv32), second: (seq<byte>, bv32))
    requires SteamXorDefined(data, size, key)
    requires FirstWord(key) <= b && 4 * b <= size
    requires SteamXorDefined(data[..4 * b], 4 * b, key) && first == SteamXor(data[..4 * b], 4 * b, key)
    requires first.1 != 0
    requires SteamXorDefined(data[4 * b..], size - 4 * b, first.1)
    requires second == SteamXor(data[4 * b..], size - 4 * b, first.1)
    ensures SteamXor(data, size, key) == (first.0 + second.0, second.1)
  {
    FirstHalf(data, b, size, key);
    RestHalf(data, b, size, key, first.1);
    WholeChain(data, b, size, key, first, second);
  }

  /** The whole decode, once its two halves are known as splices. */
  lemma {:induction false} WholeChain(data: seq<byte>, b: nat, size: nat, key: bv32, first: (seq<byte>, bv32), second: (seq<byte>, bv32))
    requires SteamXorDefined(data, size, key)
    requires FirstWord(key) <= b <= EndWord(size, key) && 4 * b <= size
    requires first == Splice(data[..4 * b], FirstWord(key), b, Seed(data, key))
    requires second == Splice(data[4 * b..], 0, EndWord(size, key) - b, first.1)
    ensures SteamXor(data, size, key) == (first.0 + second.0, second.1)
  {
    SteamXorIsSplice(data, size, key);
    SpliceChain(data, FirstWord(key), b, EndWord(size, key), Seed(data, key), first, second);
  }

  /** The first half of a chained decode, as a splice of the whole buffer's words. */
  lemma {:induction false} FirstHalf(data: seq<byte>, b: nat, size: nat, key: bv32)
    requires SteamXorDefined(data, size, key)
    requires FirstWord(key) <= b && 4 * b <= size
    requires SteamXorDefined(data[..4 * b], 4 * b, key)
    ensures SteamXor(data[..4 * b], 4 * b, key) == Splice(data[..4 * b], FirstWord(key), b, Seed(data, key))
  {
    FirstBounds(data, b, size, key);
    SteamXorIsSplice(data[..4 * b], 4 * b, key);
  }

  /** The second half of a chained decode, as a splice from word 0 seeded with `k1`. */
  lemma {:induction false} RestHalf(data: seq<byte>, b: nat, size: nat, key: bv32, k1: bv32)
    requires SteamXorDefined(data, size, key)
    requires FirstWord(key) <= b && 4 * b <= size && k1 != 0
    requires SteamXorDefined(data[4 * b..], size - 4 * b, k1)
    ensures b <= EndWord(size, key)
    ensures SteamXor(data[4 * b..], size - 4 * b, k1) == Splice(data[4 * b..], 0, EndWord(size, key) - b, k1)
  {
    ChainBounds(data, b, size, key, k1);
    SecondHalf(data[4 * b..], size - 4 * b, k1);
  }

  /** `SteamXorSplice` at its own bounds. */
  lemma {:induction false} SteamXorIsSplice(data: seq<byte>, size: nat, key: bv32)
    requires SteamXorDefined(data, size, key)
    ensures FirstWord(key) <= EndWord(size, key) && 4 * EndWord(size, key) <= |data|
    ensures SteamXor(data, size, key) == Splice(data, FirstWord(key), EndWord(size, key), Seed(data, key))
  {
    SteamXorSplice(data, size, key, FirstWord(key), EndWord(size, key), Seed(data, key));
  }

  /** With a non-zero key, `steam_xor` splices from word 0, seeded with the key. */
  lemma {:induction false} SecondHalf(rest: seq<byte>, n: nat, k1: bv32)
    requires k1 != 0 && SteamXorDefined(rest, n, k1)
    ensures EndWord(n, k1) <= |rest| / 4
    ensures SteamXor(rest, n, k1) == Splice(rest, 0, EndWord(n, k1), k1)
  {
    SteamXorSplice(rest, n, k1, 0, EndWord(n, k1), k1);
  }

  /** `steam_xor` is the splice of its words from `FirstWord(key)` to `EndWord(size, key)`. */
  lemma {:induction false} SteamXorSplice(data: seq<byte>, size: nat, key: bv32, x: nat, m: nat, seed: bv32)
    requires SteamXorDefined(data, size, key)
    requires x == FirstWord(key) && m == EndWord(size, key) && seed == Seed(data, key)
    ensures x <= m && 4 * m <= |data|
    ensures SteamXor(data, size, key) == Splice(data, x, m, seed)
  {
  }

  /** `SpliceSplit` for halves that are given. */
  lemma {:induction false} SpliceChain(data: seq<byte>, x: nat, b: nat, m: nat, seed: bv32, first: (seq<byte>, bv32), second: (seq<byte>, bv32))
    requires x <= b <= m && 4 * m <= |data|
    requires first == Splice(data[..4 * b], x, b, seed) && second == Splice(data[4 * b..], 0, m - b, first.1)
    ensures Splice(data, x, m, seed) == (first.0 + second.0, second.1)
  {
    SpliceSplit(data, x, b, m, seed);
  }

  /** With key 0 and size 4 only the seed is read: the buffer is unchanged and its first word returned. */
  lemma {:induction false} SeedOnly(data: seq<byte>)
    requires 4 <= |data|
    ensures SteamXor(data, 4, 0) == (data, Word(data, 0))
  {
    var r := SteamXor(data, 4, 0).0;
    SteamXorWords(data, 4, 0);
    assert r == r[..4] + r[4..];
    assert data == data[..4] + data[4..];
  }

  /** Key 0 and size 4 on `AA BB CC DD` returns `0xDDCCBBAA`. */
  lemma {:induction false} SeedOnlyExample()
    ensures SteamXor([0xAA, 0xBB, 0xCC, 0xDD], 4, 0) == ([0xAA, 0xBB, 0xCC, 0xDD], 0xDDCCBBAA)
  {
    SeedOnly([0xAA, 0xBB, 0xCC, 0xDD]);
  }

  /** The bytes of the ASCII text `Be myslf no matter what.` from the unit test. */
  function TestText(): seq<byte> {
    [0x42, 0x65, 0x20, 0x6d, 0x79, 0x73, 0x6c, 0x66, 0x20, 0x6e, 0x6f, 0x20,
     0x6d, 0x61, 0x74, 0x74, 0x65, 0x72, 0x20, 0x77, 0x68, 0x61, 0x74, 0x2e]
  }

  /** The expected output of the unit test, hex `addb8db33b164c0b591d03464d0f1b54657220776861742e`. */
  function TestDecoded(): seq<byte> {
    [0xad, 0xdb, 0x8d, 0xb3, 0x3b, 0x16, 0x4c, 0x0b, 0x59, 0x1d, 0x03, 0x46,
     0x4d, 0x0f, 0x1b, 0x54, 0x65, 0x72, 0x20, 0x77, 0x68, 0x61, 0x74, 0x2e]
  }

  /** A word whose four bytes are known. */
  lemma {:induction false} WordIs(s: seq<byte>, k: nat, b0: byte, b1: byte, b2: byte, b3: byte, w: bv32)
    requires 4 * k + 4 <= |s| && s[4 * k] == b0 && s[4 * k + 1] == b1 && s[4 * k + 2] == b2 && s[4 * k + 3] == b3
    requires Le32(b0, b1, b2, b3) == w
    ensures Word(s, k) == w
  {
  }

  /** The little-endian values of the four words of the test text that are decoded. */
  lemma {:induction false} TestTextValues()
    ensures Le32(0x42, 0x65, 0x20, 0x6d) == 0x6d206542
    ensures Le32(0x79, 0x73, 0x6c, 0x66) == 0x666c7379
    ensures Le32(0x20, 0x6e, 0x6f, 0x20) == 0x206f6e20
    ensures Le32(0x6d, 0x61, 0x74, 0x74) == 0x7474616d
  {
  }

  /** Word 0 of the test text. */
  lemma {:induction false} TestTextWord0()
    ensures Word(TestText(), 0) == 0x6d206542
  {
    TestTextValues();
    WordIs(TestText(), 0, 0x42, 0x65, 0x20, 0x6d, 0x6d206542);
  }

  /** Word 1 of the test text. */
  lemma {:induction false} TestTextWord1()
    ensures Word(TestText(), 1) == 0x666c7379
  {
    TestTextValues();
    WordIs(TestText(), 1, 0x79, 0x73, 0x6c, 0x66, 0x666c7379);
  }

  /** Word 2 of the test text. */
  lemma {:induction false} TestTextWord2()
    ensures Word(TestText(), 2) == 0x206f6e20
  {
    TestTextValues();
    WordIs(TestText(), 2, 0x20, 0x6e, 0x6f, 0x20, 0x206f6e20);
  }

  /** Word 3 of the test text. */
  lemma {:induction false} TestTextWord3()
    ensures Word(TestText(), 3) == 0x7474616d
  {
    TestTextValues();
    WordIs(TestText(), 3, 0x6d, 0x61, 0x74, 0x74, 0x7474616d);
  }

  /** The bytes of four words. */
  function FourWords(w0: bv32, w1: bv32, w2: bv32, w3: bv32): (b: seq<byte>)
    ensures |b| == 16
  {
    U32Bytes(w0) + U32Bytes(w1) + U32Bytes(w2) + U32Bytes(w3)
  }

  /** A buffer whose first four words read `w0..w3` starts with their bytes. */
  lemma {:induction false} FourWordsOfRead(out: seq<byte>, w0: bv32, w1: bv32, w2: bv32, w3: bv32)
    requires 16 <= |out|
    requires Word(out, 0) == w0 && Word(out, 1) == w1 && Word(out, 2) == w2 && Word(out, 3) == w3
    ensures out[..16] == FourWords(w0, w1, w2, w3)
  {
    U32BytesOfRead(out, 0);
    U32BytesOfRead(out, 4);
    U32BytesOfRead(out, 8);
    U32BytesOfRead(out, 12);
    assert out[..16] == out[0..4] + out[4..8] + out[8..12] + out[12..16];
  }

  /** Decoding four words with a non-zero key, spelled out word by word. */
  lemma {:induction false} SteamXorFourWords(data: seq<byte>, key: bv32)
    requires 16 <= |data| && key != 0
    ensures SteamXorDefined(data, 16, key)
    ensures var w0, w1, w2, w3 := Word(data, 0), Word(data, 1), Word(data, 2), Word(data, 3);
      SteamXor(data, 16, key)
      == (FourWords(Xor(w0, key), Xor(w1, w0), Xor(w2, w1), Xor(w3, w2)) + data[16..], w3)
  {
    var r := SteamXor(data, 16, key);
    SteamXorWords(data, 16, key);
    assert WordCount(16) == 4;
    FourWordsOfRead(r.0, Xor(Word(data, 0), key), Xor(Word(data, 1), Word(data, 0)),
                    Xor(Word(data, 2), Word(data, 1)), Xor(Word(data, 3), Word(data, 2)));
    assert r.0 == r.0[..16] + r.0[16..];
  }

  /** The expected output, spelled as four words and the untouched tail. */
  lemma {:induction false} TestDecodedSpelling()
    ensures TestDecoded() == FourWords(0xb38ddbad, 0x0b4c163b, 0x46031d59, 0x541b0f4d) + TestText()[16..]
  {
  }

  /** The words of the expected output. */
  lemma {:induction false} TestXors()
    ensures Xor(0x6d206542, 0xDEADBEEF) == 0xb38ddbad
    ensures Xor(0x666c7379, 0x6d206542) == 0x0b4c163b
    ensures Xor(0x206f6e20, 0x666c7379) == 0x46031d59
    ensures Xor(0x7474616d, 0x206f6e20) == 0x541b0f4d
  {
  }

  /** `steam_xor` on the 24-byte test text with size 16 and key `0xDEADBEEF`. */
  lemma {:induction false} SteamXorTestVector()
    ensures SteamXorDefined(TestText(), 16, 0xDEADBEEF)
    ensures SteamXor(TestText(), 16, 0xDEADBEEF) == (TestDecoded(), 1953784173)
  {
    SteamXorFourWords(TestText(), 0xDEADBEEF);
    TestTextWord0();
    TestTextWord1();
    TestTextWord2();
    TestTextWord3();
    TestXors();
    TestDecodedSpelling();
  }
}
