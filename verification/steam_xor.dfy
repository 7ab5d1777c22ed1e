/**
 * Models `steam_xor` of `src/bytes.rs`, the rolling XOR decoder of SteamStub.
 *
 * The buffer is a run of 4-byte little-endian words. Each ciphertext word is
 * XORed with the key, and the key then becomes that ciphertext word, so every
 * plaintext word is its ciphertext XOR the previous ciphertext word. The
 * decoding itself is stated over a sequence of words (`DecodeWords`); the
 * byte-level `SteamXor` cuts the buffer into words, decodes them and puts the
 * bytes back in place, which is what the in-place loop of the original does
 * because it reads each word before it overwrites it.
 */
module RollingXor {
  import opened LittleEndian

  // ---------------------------------------------------------------------------
  // Words and bytes
  // ---------------------------------------------------------------------------

  /** The `k`-th 4-byte little-endian word of `data`. */
  function Word(data: seq<byte>, k: nat): bv32
    requires 4 * k + 4 <= |data|
  {
    U32At(data, 4 * k)
  }

  /** Words `x..n` of `data`. */
  function WordsBetween(data: seq<byte>, x: nat, n: nat): (ws: seq<bv32>)
    requires x <= n && 4 * n <= |data|
    ensures |ws| == n - x
    ensures forall i :: 0 <= i < n - x ==> ws[i] == Word(data, x + i)
  {
    seq(n - x, i requires 0 <= i < n - x => Word(data, x + i))
  }

  /** The little-endian bytes of a sequence of words. */
  function WordBytes(ws: seq<bv32>): (b: seq<byte>)
    ensures |b| == 4 * |ws|
  {
    if ws == [] then [] else U32Bytes(ws[0]) + WordBytes(ws[1..])
  }

  /** A word read from a concatenation inside its second part. */
  lemma {:induction false} U32AtRight(a: seq<byte>, b: seq<byte>, j: nat)
    requires j + 4 <= |b|
    ensures U32At(a + b, |a| + j) == U32At(b, j)
  {
    var s := a + b;
    assert s[|a| + j] == b[j] && s[|a| + j + 1] == b[j + 1] && s[|a| + j + 2] == b[j + 2] && s[|a| + j + 3] == b[j + 3];
  }

  /** A word read from a concatenation inside its first part. */
  lemma {:induction false} U32AtLeft(a: seq<byte>, b: seq<byte>, j: nat)
    requires j + 4 <= |a|
    ensures U32At(a + b, j) == U32At(a, j)
  {
    U32AtSameBytes(a + b, a, j);
  }

  /** Word `k` of `WordBytes(ws)` is `ws[k]`. */
  lemma {:induction false} WordOfWordBytes(ws: seq<bv32>, k: nat)
    requires k < |ws|
    ensures Word(WordBytes(ws), k) == ws[k]
  {
    var head := U32Bytes(ws[0]);
    if k == 0 {
      U32AtLeft(head, WordBytes(ws[1..]), 0);
      U32RoundTrip(ws[0]);
    } else {
      U32AtRight(head, WordBytes(ws[1..]), 4 * (k - 1));
      WordOfWordBytes(ws[1..], k - 1);
    }
  }

  /** Cutting bytes into words and joining them again gives the bytes back. */
  lemma {:induction false} WordBytesOfWords(data: seq<byte>, x: nat, n: nat)
    requires x <= n && 4 * n <= |data|
    ensures WordBytes(WordsBetween(data, x, n)) == data[4 * x..4 * n]
    decreases n - x
  {
    if x < n {
      var ws := WordsBetween(data, x, n);
      assert ws[1..] == WordsBetween(data, x + 1, n);
      WordBytesOfWords(data, x + 1, n);
      U32BytesOfRead(data, 4 * x);
      assert data[4 * x..4 * n] == data[4 * x..4 * x + 4] + data[4 * (x + 1)..4 * n];
    }
  }

  /** Joining words into bytes and cutting them again gives the words back. */
  lemma {:induction false} WordsOfWordBytes(ws: seq<bv32>)
    ensures WordsBetween(WordBytes(ws), 0, |ws|) == ws
  {
    forall k | 0 <= k < |ws|
      ensures WordsBetween(WordBytes(ws), 0, |ws|)[k] == ws[k]
    {
      WordOfWordBytes(ws, k);
    }
  }

  // ---------------------------------------------------------------------------
  // Decoding
  // ---------------------------------------------------------------------------

  /** `u32` XOR. Naming it keeps the solver from bit-blasting every quantified fact that mentions it. */
  function Xor(a: bv32, b: bv32): bv32 {
    a ^ b
  }

  /** XORing twice with the same key gives the word back. */
  lemma {:induction false} XorTwice(a: bv32, b: bv32)
    ensures Xor(Xor(a, b), b) == a
  {
  }

  /**
   * The decoding loop over a run of ciphertext words with current key `key`:
   * returns the plaintext words and the final key.
   */
  function DecodeWords(ws: seq<bv32>, key: bv32): (r: (seq<bv32>, bv32))
    ensures |r.0| == |ws|
    ensures forall k {:trigger r.0[k]} :: 0 <= k < |ws| ==> r.0[k] == Xor(ws[k], if k == 0 then key else ws[k - 1])
    ensures r.1 == if ws == [] then key else ws[|ws| - 1]
  {
    if ws == [] then
      ([], key)
    else
      var rest := DecodeWords(ws[1..], ws[0]);
      ([Xor(ws[0], key)] + rest.0, rest.1)
  }

  /**
   * The inverse of the decoding loop: the encoder SteamStub's packer runs.
   * Each plaintext word is XORed with the previous ciphertext word.
   */
  function EncodeWords(ps: seq<bv32>, key: bv32): (cs: seq<bv32>)
    ensures |cs| == |ps|
    ensures forall k {:trigger ps[k]} :: 0 <= k < |ps| ==> cs[k] == Xor(ps[k], if k == 0 then key else cs[k - 1])
  {
    if ps == [] then
      []
    else
      var c := Xor(ps[0], key);
      [c] + EncodeWords(ps[1..], c)
  }

  /** Decoding what was encoded under the same key gives the plaintext. */
  lemma {:induction false} DecodeEncode(ps: seq<bv32>, key: bv32)
    ensures DecodeWords(EncodeWords(ps, key), key).0 == ps
  {
    var cs := EncodeWords(ps, key);
    var out := DecodeWords(cs, key).0;
    forall k | 0 <= k < |ps|
      ensures out[k] == ps[k]
    {
      var prev := if k == 0 then key else cs[k - 1];
      assert out[k] == Xor(cs[k], prev);
      assert cs[k] == Xor(ps[k], prev);
      XorTwice(ps[k], prev);
    }
  }

  /** Encoding what was decoded under the same key gives the ciphertext. */
  lemma {:induction false} EncodeDecode(cs: seq<bv32>, key: bv32)
    ensures EncodeWords(DecodeWords(cs, key).0, key) == cs
  {
    var ps := DecodeWords(cs, key).0;
    var back := EncodeWords(ps, key);
    forall k | 0 <= k < |cs|
      ensures back[k] == cs[k]
    {
      EncodeDecodeAt(cs, key, ps, back, k);
    }
  }

  lemma {:induction false} EncodeDecodeAt(cs: seq<bv32>, key: bv32, ps: seq<bv32>, back: seq<bv32>, k: nat)
    requires ps == DecodeWords(cs, key).0 && back == EncodeWords(ps, key) && k < |cs|
    ensures back[k] == cs[k]
  {
    var prev := if k == 0 then key else cs[k - 1];
    if k > 0 {
      EncodeDecodeAt(cs, key, ps, back, k - 1);
    }
    assert back[k] == Xor(ps[k], prev);
    assert ps[k] == Xor(cs[k], prev);
    XorTwice(cs[k], prev);
  }

  /** Decoding a run split in two: the second part continues with the first part's final key. */
  lemma {:induction false} DecodeWordsSplit(a: seq<bv32>, b: seq<bv32>, key: bv32)
    ensures var first := DecodeWords(a, key);
      var second := DecodeWords(b, first.1);
      DecodeWords(a + b, key) == (first.0 + second.0, second.1)
  {
    if a == [] {
      assert a + b == b;
      assert [] + DecodeWords(b, key).0 == DecodeWords(b, key).0;
    } else {
      assert (a + b)[0] == a[0];
      assert (a + b)[1..] == a[1..] + b;
      DecodeWordsSplit(a[1..], b, a[0]);
      var head := [Xor(a[0], key)];
      var rest := DecodeWords(a[1..], a[0]);
      assert head + (rest.0 + DecodeWords(b, rest.1).0) == (head + rest.0) + DecodeWords(b, rest.1).0;
    }
  }

  // ---------------------------------------------------------------------------
  // steam_xor on bytes
  // ---------------------------------------------------------------------------

  /** Index of the first ciphertext word: a zero key means word 0 is the seed. */
  function FirstWord(key: bv32): nat {
    if key == 0 then 1 else 0
  }

  /** The loop runs while the byte offset is below `size`: words `0..WordCount(size)`. */
  function WordCount(size: nat): nat {
    (size + 3) / 4
  }

  /**
   * What `steam_xor` demands of its arguments: `size` is a `u32`; with a
   * zero key the seed word must be there; every word the loop touches must
   * lie inside `data`; and the `u32` offset must not overflow when it steps
   * past the last word.
   */
  predicate SteamXorDefined(data: seq<byte>, size: nat, key: bv32) {
    && size < 0x1_0000_0000
    && (key == 0 ==> 4 <= |data|)
    && 4 * WordCount(size) <= |data|
    && 4 * WordCount(size) < 0x1_0000_0000
  }

  /** The key in force before the first decoded word. */
  function Seed(data: seq<byte>, key: bv32): bv32
    requires key == 0 ==> 4 <= |data|
  {
    if key == 0 then Word(data, 0) else key
  }

  /** The key in force when word `k` is decoded: the previous ciphertext word, or `key` for word 0. */
  function ChainKey(data: seq<byte>, k: nat, key: bv32): bv32
    requires 4 * k + 4 <= |data|
  {
    if k == 0 then key else Word(data, k - 1)
  }

  function Max(a: nat, b: nat): nat {
    if a < b then b else a
  }

  /** One past the last word the loop decodes (no word at all when it is `FirstWord(key)`). */
  function EndWord(size: nat, key: bv32): nat {
    Max(FirstWord(key), WordCount(size))
  }

  /**
   * Words `x..m` of `data` decoded from key `seed` and put back in place,
   * with the final key.
   */
  function Splice(data: seq<byte>, x: nat, m: nat, seed: bv32): (r: (seq<byte>, bv32))
    requires x <= m && 4 * m <= |data|
    ensures |r.0| == |data|
  {
    var dec := DecodeWords(WordsBetween(data, x, m), seed);
    (data[..4 * x] + WordBytes(dec.0) + data[4 * m..], dec.1)
  }

  /**
   * `steam_xor(data, size, key)`: decodes in place the words of `data` that
   * start below byte `size` and returns the buffer with the final key. What
   * it does to each byte is stated by `SteamXorWords`.
   */
  function SteamXor(data: seq<byte>, size: nat, key: bv32): (r: (seq<byte>, bv32))
    requires SteamXorDefined(data, size, key)
    ensures |r.0| == |data|
  {
    Splice(data, FirstWord(key), EndWord(size, key), Seed(data, key))
  }

  /**
   * The words below `FirstWord(key)` and from `WordCount(size)` on are left
   * alone; every word in between becomes its ciphertext XOR the previous
   * ciphertext word (or the key, for word 0); the returned key is the last
   * ciphertext word decoded, or the seed when no word was decoded.
   */
  lemma {:induction false} SteamXorWords(data: seq<byte>, size: nat, key: bv32)
    requires SteamXorDefined(data, size, key)
    ensures var r := SteamXor(data, size, key);
      && r.0[..4 * FirstWord(key)] == data[..4 * FirstWord(key)]
      && r.0[4 * WordCount(size)..] == data[4 * WordCount(size)..]
      && (forall k {:trigger Word(r.0, k)} :: FirstWord(key) <= k < WordCount(size) ==>
            Word(r.0, k) == Xor(Word(data, k), ChainKey(data, k, key)))
      && r.1 == if FirstWord(key) < WordCount(size) then Word(data, WordCount(size) - 1) else Seed(data, key)
  {
    SpliceFacts(data, FirstWord(key), EndWord(size, key), key, SteamXor(data, size, key));
  }

  /** A splice leaves the bytes before word `x` and from word `m` on as they were. */
  lemma {:induction false} SpliceFrame(data: seq<byte>, x: nat, m: nat, seed: bv32)
    requires x <= m && 4 * m <= |data|
    ensures var r := Splice(data, x, m, seed).0;
      r[..4 * x] == data[..4 * x] && r[4 * m..] == data[4 * m..]
  {
    var dec := DecodeWords(WordsBetween(data, x, m), seed);
    var mid := WordBytes(dec.0);
    var r := data[..4 * x] + mid + data[4 * m..];
    assert r[..4 * x] == data[..4 * x];
    assert r[4 * m..] == data[4 * m..];
  }

  /** Word `k` of a splice is that word decoded: its ciphertext XOR the previous ciphertext (or `seed`). */
  lemma {:induction false} SpliceWord(data: seq<byte>, x: nat, m: nat, seed: bv32, k: nat)
    requires x <= k < m && 4 * m <= |data|
    ensures Word(Splice(data, x, m, seed).0, k) == Xor(Word(data, k), if k == x then seed else Word(data, k - 1))
  {
    var dec := DecodeWords(WordsBetween(data, x, m), seed).0;
    var mid := WordBytes(dec);
    WordOfWordBytes(dec, k - x);
    U32AtLeft(data[..4 * x] + mid, data[4 * m..], 4 * k);
    U32AtRight(data[..4 * x], mid, 4 * (k - x));
  }

  /** A splice returns the last ciphertext word it decoded, or `seed` if there was none. */
  lemma {:induction false} SpliceKey(data: seq<byte>, x: nat, m: nat, seed: bv32)
    requires x <= m && 4 * m <= |data|
    ensures Splice(data, x, m, seed).1 == if x < m then Word(data, m - 1) else seed
  {
  }

  /** What a splice from `FirstWord(key)` with the seed of `key` does to each word and to the rest. */
  lemma {:induction false} SpliceFacts(data: seq<byte>, x: nat, m: nat, key: bv32, r: (seq<byte>, bv32))
    requires x == FirstWord(key) && x <= m && 4 * m <= |data| && (key == 0 ==> 4 <= |data|)
    requires r == Splice(data, x, m, Seed(data, key))
    ensures r.0[..4 * x] == data[..4 * x] && r.0[4 * m..] == data[4 * m..]
    ensures forall k {:trigger Word(r.0, k)} :: x <= k < m ==> Word(r.0, k) == Xor(Word(data, k), ChainKey(data, k, key))
    ensures r.1 == if x < m then Word(data, m - 1) else Seed(data, key)
  {
    SpliceFrame(data, x, m, Seed(data, key));
    SpliceKey(data, x, m, Seed(data, key));
    forall k | x <= k < m
      ensures Word(r.0, k) == Xor(Word(data, k), ChainKey(data, k, key))
    {
      SpliceWord(data, x, m, Seed(data, key), k);
    }
  }
}
