/**
 * The block cipher the encrypter calls through `openssl_encrypt` and
 * `openssl_decrypt` with the OPENSSL_RAW_DATA option. AES itself belongs to
 * the OpenSSL library and is not part of this model: a library is a pair of
 * functions, and `Lawful` states what every caller relies on.
 */
module Cipher {
  import opened Wrappers
  import opened Php

  /** The two cipher names the encrypter declares. */
  datatype Method = Aes128Cbc | Aes256Cbc

  /** AES works on 16-byte blocks; CBC takes an IV of one block. */
  const BLOCK_SIZE: nat := 16

  /** The key size the cipher uses; OpenSSL pads a shorter key with NUL bytes. */
  function KeyLength(m: Method): nat {
    match m
    case Aes128Cbc => 16
    case Aes256Cbc => 32
  }

  function IvLength(m: Method): nat {
    BLOCK_SIZE
  }

  /** `openssl_encrypt` and `openssl_decrypt` in raw mode: (method, key, iv, data). */
  datatype Library = Library(
    encrypt: (Method, Bytes, Bytes, Bytes) -> Bytes,
    decrypt: (Method, Bytes, Bytes, Bytes) -> Option<Bytes>)

  /** Length of a CBC ciphertext with PKCS#7 padding, which always adds one to sixteen bytes. */
  function PaddedLength(n: nat): nat {
    BLOCK_SIZE * (n / BLOCK_SIZE + 1)
  }

  /**
   * What AES-CBC with PKCS#7 padding guarantees: decrypting with the method,
   * key and IV used to encrypt gives the plaintext back; the ciphertext fills
   * whole blocks; an empty ciphertext or one that does not fill whole blocks
   * is refused.
   */
  ghost predicate Lawful(lib: Library) {
    (forall m, key, iv, plain :: |iv| == IvLength(m) ==>
       lib.decrypt(m, key, iv, lib.encrypt(m, key, iv, plain)) == Some(plain))
    && (forall m, key, iv, plain :: |lib.encrypt(m, key, iv, plain)| == PaddedLength(|plain|))
    && (forall m, key, iv, data :: (data == [] || |data| % BLOCK_SIZE != 0) ==>
          lib.decrypt(m, key, iv, data) == None)
  }

  /** The PKCS#7 padding OpenSSL appends to `n` bytes of plaintext. */
  function Padding(n: nat): (r: Bytes)
    ensures 1 <= |r| <= BLOCK_SIZE && (n + |r|) % BLOCK_SIZE == 0
    ensures forall k :: 0 <= k < |r| ==> r[k] == |r|
  {
    var k := BLOCK_SIZE - n % BLOCK_SIZE;
    seq(k, _ => k)
  }

  /** Removes and checks PKCS#7 padding, as OpenSSL does after the last block. */
  function Unpad(data: Bytes): Option<Bytes> {
    if data == [] || |data| % BLOCK_SIZE != 0 then None
    else
      var k := data[|data| - 1];
      if 1 <= k <= BLOCK_SIZE && forall j :: |data| - k <= j < |data| ==> data[j] == k
      then Some(data[..|data| - k])
      else None
  }

  /** Padding alone, with no encryption: a library that meets the law. */
  function PaddingOnly(): Library {
    Library((m, key, iv, plain) => plain + Padding(|plain|), (m, key, iv, data) => Unpad(data))
  }

  /** Unpadding undoes padding. */
  lemma UnpadPad(plain: Bytes)
    ensures Unpad(plain + Padding(|plain|)) == Some(plain)
  {
    var data := plain + Padding(|plain|);
    assert data[..|data| - |Padding(|plain|)|] == plain;
  }

  /** `Lawful` can be met, so the lemmas that assume it are not vacuous. */
  lemma PaddingOnlyIsLawful()
    ensures Lawful(PaddingOnly())
  {
    var lib := PaddingOnly();
    forall m, key, iv, plain
      ensures lib.decrypt(m, key, iv, lib.encrypt(m, key, iv, plain)) == Some(plain)
    {
      UnpadPad(plain);
    }
    forall m, key, iv, plain
      ensures |lib.encrypt(m, key, iv, plain)| == PaddedLength(|plain|)
    {
      var n := |plain|;
      assert (n + |Padding(n)|) % BLOCK_SIZE == 0;
    }
  }
}
