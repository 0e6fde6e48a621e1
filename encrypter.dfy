/**
 * The cipher engine: a validated key held in a private field, and string
 * encryption as base64(IV ++ AES-256-CBC ciphertext) with a fresh 16-byte IV
 * per call.
 */
module Encryption {
  import opened Wrappers
  import opened Php
  import Base64
  import Cipher

  /** Bytes of IV put in front of every ciphertext. */
  const IV_LENGTH: nat := 16
  /** Longest key `setKey` accepts, in bytes. */
  const KEY_LENGTH: nat := 32

  /** The reasons for an InvalidConfigException from the engine. */
  datatype ConfigError = EmptyKey | KeyTooLong | KeyNotSet

  /** The cipher both directions use; its key and IV sizes are the two constants above. */
  function GetCypherMethod(): (m: Cipher.Method)
    ensures Cipher.KeyLength(m) == KEY_LENGTH && Cipher.IvLength(m) == IV_LENGTH
  {
    Cipher.Aes256Cbc
  }

  /** What `setKey` decides about a candidate key: the trimmed key, or why it is refused. */
  function CheckKey(candidate: Bytes): (r: Result<Bytes, ConfigError>)
    ensures r.Success? ==> IsTrimmed(r.value) && 0 < |r.value| <= KEY_LENGTH
    ensures r.Failure? ==> r.error != KeyNotSet
  {
    var trimmed := Trim(candidate);
    if IsEmpty(trimmed) then Failure(EmptyKey)
    else if |trimmed| > KEY_LENGTH then Failure(KeyTooLong)
    else Success(trimmed)
  }

  /**
   * An accepted key is the trimmed candidate: one to 32 bytes, not "0", with
   * no trim character at either end, and accepted again unchanged.
   */
  lemma AcceptedKey(candidate: Bytes)
    requires CheckKey(candidate).Success?
    ensures var key := CheckKey(candidate).value;
      key == Trim(candidate) && IsTrimmed(key) && 0 < |key| <= KEY_LENGTH &&
      key != [ZERO_DIGIT] && CheckKey(key) == Success(key)
  {
    var key := Trim(candidate);
    assert CheckKey(candidate) == Success(key) && !IsEmpty(key) && |key| <= KEY_LENGTH;
    TrimIdempotent(candidate);
    assert Trim(key) == key;
  }

  /** A candidate of only whitespace (or nothing) is refused as empty. */
  lemma BlankKeyRejected(candidate: Bytes)
    requires IsBlank(candidate)
    ensures CheckKey(candidate) == Failure(EmptyKey)
  {
    TrimAllBlank(candidate);
  }

  /** Whitespace around a key is ignored: the padded and the bare key get the same verdict. */
  lemma KeyPaddingIgnored(p: Bytes, key: Bytes, q: Bytes)
    requires IsBlank(p) && IsBlank(q) && IsTrimmed(key)
    ensures CheckKey(p + key + q) == CheckKey(key)
  {
    TrimPadded(p, key, q);
    TrimOfTrimmed(key);
  }

  /** Because PHP's `empty("0")` holds, "0" is refused, whatever whitespace surrounds it. */
  lemma ZeroKeyRejected(p: Bytes, q: Bytes)
    requires IsBlank(p) && IsBlank(q)
    ensures CheckKey(p + [ZERO_DIGIT] + q) == Failure(EmptyKey)
  {
    TrimPadded(p, [ZERO_DIGIT], q);
  }

  /** A trimmed, non-empty key other than "0" is accepted exactly when it has at most 32 bytes. */
  lemma KeyLengthLimit(key: Bytes)
    requires IsTrimmed(key) && !IsEmpty(key)
    ensures CheckKey(key).Success? <==> |key| <= KEY_LENGTH
  {
    TrimOfTrimmed(key);
  }

  /** `encrypt` once its IV is drawn: base64 of the IV followed by the raw ciphertext. */
  function Seal(lib: Cipher.Library, key: Bytes, iv: Bytes, plain: Bytes): Bytes {
    Base64.Encode(iv + lib.encrypt(GetCypherMethod(), key, iv, plain))
  }

  /**
   * `decrypt`: decode, take the first 16 bytes (or fewer) as the IV and the
   * rest as ciphertext; `None` is PHP's `false`.
   */
  function Open(lib: Cipher.Library, key: Bytes, encoded: Bytes): Option<Bytes> {
    var decoded := Base64.Decode(encoded);
    lib.decrypt(GetCypherMethod(), key, Substr(decoded, 0, IV_LENGTH), SubstrFrom(decoded, IV_LENGTH))
  }

  /** Decoding what `encrypt` returns gives the IV used, then the raw ciphertext. */
  lemma SealLayout(lib: Cipher.Library, key: Bytes, iv: Bytes, plain: Bytes)
    requires |iv| == IV_LENGTH
    ensures var decoded := Base64.Decode(Seal(lib, key, iv, plain));
      |decoded| >= IV_LENGTH && decoded[..IV_LENGTH] == iv &&
      decoded[IV_LENGTH..] == lib.encrypt(GetCypherMethod(), key, iv, plain)
  {
    Base64.DecodeEncode(iv + lib.encrypt(GetCypherMethod(), key, iv, plain));
  }

  /**
   * `decrypt` cuts the decoded bytes in two: an IV of min(16, n) bytes and the
   * remainder, which together are the decoded bytes.
   */
  lemma OpenSplit(encoded: Bytes)
    ensures var decoded := Base64.Decode(encoded);
      |Substr(decoded, 0, IV_LENGTH)| == Min(IV_LENGTH, |decoded|) &&
      Substr(decoded, 0, IV_LENGTH) + SubstrFrom(decoded, IV_LENGTH) == decoded
  {
    SubstrSplit(Base64.Decode(encoded), IV_LENGTH);
  }

  /** Round trip: `decrypt(encrypt(s)) == s` under the same key, since both use AES-256-CBC and the IV travels along. */
  lemma RoundTrip(lib: Cipher.Library, key: Bytes, iv: Bytes, plain: Bytes)
    requires Cipher.Lawful(lib) && |iv| == IV_LENGTH
    ensures Open(lib, key, Seal(lib, key, iv, plain)) == Some(plain)
  {
    var decoded := Base64.Decode(Seal(lib, key, iv, plain));
    SealLayout(lib, key, iv, plain);
    assert Substr(decoded, 0, IV_LENGTH) == iv;
    assert SubstrFrom(decoded, IV_LENGTH) == lib.encrypt(GetCypherMethod(), key, iv, plain);
  }

  /**
   * Input that decodes to at most 16 bytes leaves no ciphertext, and input
   * whose ciphertext does not fill whole blocks cannot be decrypted either:
   * both give `false`.
   */
  lemma OpenRejectsMalformed(lib: Cipher.Library, key: Bytes, encoded: Bytes)
    requires Cipher.Lawful(lib)
    requires var n := |Base64.Decode(encoded)|;
      n <= IV_LENGTH || (n - IV_LENGTH) % Cipher.BLOCK_SIZE != 0
    ensures Open(lib, key, encoded) == None
  {
  }

  /** The output of `encrypt` is never empty: 44 characters or more, growing with the plaintext. */
  lemma SealLength(lib: Cipher.Library, key: Bytes, iv: Bytes, plain: Bytes)
    requires Cipher.Lawful(lib) && |iv| == IV_LENGTH
    ensures |Seal(lib, key, iv, plain)| == 4 * ((IV_LENGTH + Cipher.PaddedLength(|plain|) + 2) / 3)
    ensures |Seal(lib, key, iv, plain)| >= 44
  {
    Base64.EncodeLength(iv + lib.encrypt(GetCypherMethod(), key, iv, plain));
  }

  /** Two encryptions of the same plaintext with different IVs give different strings. */
  lemma SealDistinguishesIvs(lib: Cipher.Library, key: Bytes, iv1: Bytes, iv2: Bytes, plain: Bytes)
    requires |iv1| == IV_LENGTH && |iv2| == IV_LENGTH && iv1 != iv2
    ensures Seal(lib, key, iv1, plain) != Seal(lib, key, iv2, plain)
  {
    if Seal(lib, key, iv1, plain) == Seal(lib, key, iv2, plain) {
      SealLayout(lib, key, iv1, plain);
      SealLayout(lib, key, iv2, plain);
    }
  }

  /**
   * The engine as its clients see it: `encrypt` once the IV is drawn, and
   * `decrypt`.
   */
  datatype Engine = Engine(seal: (Bytes, Bytes) -> Bytes, open: Bytes -> Option<Bytes>)

  /** The engine with cipher library `lib` and key `key`. */
  function EngineFor(lib: Cipher.Library, key: Bytes): Engine {
    Engine((iv, plain) => Seal(lib, key, iv, plain), encoded => Open(lib, key, encoded))
  }

  /** Decrypting undoes encrypting with any 16-byte IV. */
  ghost predicate Reversible(e: Engine) {
    forall iv, plain :: |iv| == IV_LENGTH ==> e.open(e.seal(iv, plain)) == Some(plain)
  }

  /** Under the cipher law, every engine is reversible, whatever its key. */
  lemma LawfulEngineReversible(lib: Cipher.Library, key: Bytes)
    requires Cipher.Lawful(lib)
    ensures Reversible(EngineFor(lib, key))
  {
    forall iv, plain | |iv| == IV_LENGTH
      ensures EngineFor(lib, key).open(EngineFor(lib, key).seal(iv, plain)) == Some(plain)
    {
      RoundTrip(lib, key, iv, plain);
    }
  }

  /** The engine component, `Encrypter`: its key field and the operations on it. */
  class Encrypter {
    /** The OpenSSL functions the engine calls. */
    const lib: Cipher.Library
    /** `_key`; the empty string stands for the unset key (PHP's null), which `setKey` never stores. */
    var key: Bytes

    /** The key is unset or is one `setKey` accepted. */
    ghost predicate Valid()
      reads this
    {
      key == [] || CheckKey(key) == Success(key)
    }

    /** The engine this object is now. */
    function Snapshot(): Engine
      reads this
    {
      EngineFor(lib, key)
    }

    constructor(lib: Cipher.Library)
      ensures Valid() && this.lib == lib && key == []
    {
      this.lib := lib;
      key := [];
    }

    /** `init`: refuses to proceed when no key is set; once a key is set it passes, and the key is usable. */
    method Init() returns (r: Outcome<ConfigError>)
      requires Valid()
      ensures r == Fail(KeyNotSet) || r == Pass
      ensures r.Pass? <==> key != []
      ensures r.Pass? ==> IsTrimmed(key) && 0 < |key| <= KEY_LENGTH
    {
      if IsEmpty(key) {
        r := Fail(KeyNotSet);
      } else {
        r := Pass;
      }
      if r.Pass? {
        AcceptedKey(key);
      }
    }

    /**
     * `setKey`: stores the trimmed candidate in place of any earlier key, or
     * throws before the assignment and leaves the key as it was.
     */
    method SetKey(candidate: Bytes) returns (r: Outcome<ConfigError>)
      requires Valid()
      modifies this
      ensures Valid()
      ensures CheckKey(candidate).Success? ==> r == Pass && key == CheckKey(candidate).value
      ensures CheckKey(candidate).Failure? ==> r == Fail(CheckKey(candidate).error) && key == old(key)
    {
      var trimmed := Trim(candidate);
      if IsEmpty(trimmed) {
        return Fail(EmptyKey);
      }
      if |trimmed| > KEY_LENGTH {
        return Fail(KeyTooLong);
      }
      key := trimmed;
      r := Pass;
      AcceptedKey(candidate);
    }

    /** `getIv`: sixteen bytes from the random source, which is not modelled beyond their number. */
    method GetIv() returns (iv: Bytes)
      ensures |iv| == IV_LENGTH
    {
      var zeros: Bytes := seq(IV_LENGTH, _ => 0);
      assert |zeros| == IV_LENGTH;
      iv :| |iv| == IV_LENGTH;
    }

    /** `encrypt`: draws a fresh IV and returns base64(IV ++ ciphertext); `iv` names the IV drawn. */
    method Encrypt(plain: Bytes) returns (r: Bytes, ghost iv: Bytes)
      ensures |iv| == IV_LENGTH && r == Seal(lib, key, iv, plain) && r == Snapshot().seal(iv, plain)
      ensures Cipher.Lawful(lib) ==> Open(lib, key, r) == Some(plain)
    {
      var drawn := GetIv();
      iv := drawn;
      r := Seal(lib, key, drawn, plain);
      if Cipher.Lawful(lib) {
        RoundTrip(lib, key, drawn, plain);
      }
    }

    /**
     * `decrypt`: the plaintext, or `None` (PHP's `false`) when decryption
     * fails, as it does whenever the decoded input is too short to hold a
     * ciphertext or its ciphertext does not fill whole blocks.
     */
    method Decrypt(encoded: Bytes) returns (r: Option<Bytes>)
      ensures r == Open(lib, key, encoded) && r == Snapshot().open(encoded)
      ensures Cipher.Lawful(lib) ==>
        var n := |Base64.Decode(encoded)|;
        (n <= IV_LENGTH || (n - IV_LENGTH) % Cipher.BLOCK_SIZE != 0) ==> r == None
    {
      r := Open(lib, key, encoded);
      if Cipher.Lawful(lib) {
        var n := |Base64.Decode(encoded)|;
        if n <= IV_LENGTH || (n - IV_LENGTH) % Cipher.BLOCK_SIZE != 0 {
          OpenRejectsMalformed(lib, key, encoded);
        }
      }
    }
  }
}
