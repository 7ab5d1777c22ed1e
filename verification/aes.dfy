/**
 * AES-256 decryption without padding, as the unpacker uses it: one block in
 * ECB mode (FIPS 197) to recover the IV, then CBC mode (section 6.2 of NIST
 * SP 800-38A) over the code buffer. The block cipher itself is not modelled:
 * a `Cipher` supplies the two decryptions as functions, and `Valid` states
 * the only property the unpacker relies on, that decrypting whole blocks
 * gives as many bytes back.
 */
module Aes {
  import opened LittleEndian

  const BlockSize: nat := 16
  const KeySize: nat := 32

  datatype Cipher = Cipher(
    ecbDecrypt: (seq<byte>, seq<byte>) -> seq<byte>,
    cbcDecrypt: (seq<byte>, seq<byte>, seq<byte>) -> seq<byte>)

  /** Decrypting whole blocks without padding returns as many bytes as it was given. */
  ghost predicate Valid(c: Cipher) {
    && (forall key, data :: |data| % BlockSize == 0 ==> |c.ecbDecrypt(key, data)| == |data|)
    && (forall key, iv, data :: |data| % BlockSize == 0 ==> |c.cbcDecrypt(key, iv, data)| == |data|)
  }

  /**
   * `decrypt_padded_mut::<NoPadding>` in ECB mode. With no padding a length
   * that is not a whole number of blocks is an error that the caller unwraps,
   * so it is a precondition here.
   */
  function EcbDecrypt(c: Cipher, key: seq<byte>, data: seq<byte>): (r: seq<byte>)
    requires Valid(c) && |key| == KeySize && |data| % BlockSize == 0
    ensures |r| == |data|
  {
    c.ecbDecrypt(key, data)
  }

  /** `decrypt_padded_mut::<NoPadding>` in CBC mode; the length is a precondition as for `EcbDecrypt`. */
  function CbcDecrypt(c: Cipher, key: seq<byte>, iv: seq<byte>, data: seq<byte>): (r: seq<byte>)
    requires Valid(c) && |key| == KeySize && |iv| == BlockSize && |data| % BlockSize == 0
    ensures |r| == |data|
  {
    c.cbcDecrypt(key, iv, data)
  }
}
