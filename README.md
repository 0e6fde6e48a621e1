# yii2-encrypter in Dafny

A model of the two core classes of the Yii 2 extension `bereznii/yii2-encrypter`:

- **`Encrypter`** (`components/Encrypter.php`) is the engine component. It holds a
  secret key that `setKey` trims and validates, and `init` refuses a missing key.
  `encrypt` draws a fresh 16-byte IV, runs AES-256-CBC through OpenSSL and returns
  `base64(IV ++ ciphertext)`. `decrypt` reverses this and yields PHP's `false` on failure.
- **`EncryptionBehavior`** (`behaviors/EncryptionBehavior.php`) is attached to an
  ActiveRecord. It encrypts the configured attributes in place before the record is
  inserted or updated, and decrypts them in place after it is found, inserted or updated.

The Dafny modules follow the program:

| file | module | what it holds |
|---|---|---|
| `wrappers.dfy` | `Wrappers` | `Option`, `Result`, `Outcome` |
| `php.dfy` | `Php` | byte strings; PHP's `trim` (default character list), `empty` on strings, `substr` |
| `base64.dfy` | `Base64` | `base64_encode` (RFC 4648, section 4, padded) and PHP's non-strict `base64_decode`, with the round trip proved |
| `cipher.dfy` | `Cipher` | the OpenSSL calls as an injected `Library` of two functions, and the law (`Lawful`) that AES-CBC with PKCS#7 padding obeys |
| `encrypter.dfy` | `Encryption` | key checking, `Seal`/`Open` (encrypt once the IV is drawn / decrypt), and the class `Encrypter` |
| `behavior.dfy` | `Behaviors` | the record, the event table, the handlers as folds over the attribute list, and the class `EncryptionBehavior` |

Notes on how the model reads the code:

- **Decoding never fails.** PHP's `base64_decode` is called without its strict flag. It
  skips every byte outside the alphabet, `=` included, and never fails. So a malformed
  input has no failure path of its own: `decrypt` yields `false` only because
  `openssl_decrypt` refuses what is left. The model follows the code here.
- **An unset key.** `_key` unset (PHP `null`) is modelled as the empty string. `setKey`
  never stores "", so the empty string means "unset" and nothing else.
- **Engine lookup.** `getEncrypter` reads `Yii::$app->encrypter`. It throws
  InvalidConfigException when no component is configured. It also throws when Yii's
  creation of the component runs `init`, and `init` finds no key. The behaviour therefore
  holds an optional reference to an `Encrypter`, and the lookup fails when that reference is
  null or its key is empty.
- **Evaluation order per entry.** `$this->owner->$attribute = $this->getEncrypter()->encrypt($this->owner->$attribute)`
  looks the engine up first, then reads the attribute, then writes it. An unknown
  attribute name throws, as Yii's `__get` does. A handler stops at the first exception,
  and the writes already made stay.
- **Attribute values.** An attribute value is a string or `false`. `false` is what a
  failed decryption stores, and it reaches a `string` parameter as "". Saving a record
  that still holds such a `false` therefore stores the encryption of "" without an error,
  and the attribute reads back as "".
- **IVs drawn.** The IVs that `encrypt` draws are named by ghost out-parameters, so the
  contracts can say which IV each entry used.

## Model

| member | source | states |
|---|---|---|
| Encryption.GetCypherMethod | components/Encrypter.php:116-119 | the cipher is AES-256-CBC (the `AES256` constant, line 25): its key size is KEY_LENGTH (32) and its IV size is IV_LENGTH (16), the constants of lines 26-27 |
| Encryption.Encrypter.SetKey | components/Encrypter.php:53-66 | on acceptance stores exactly the trimmed candidate; on refusal reports EmptyKey or KeyTooLong and leaves the old key; the stored key is always one that is accepted again unchanged |
| Encryption.CheckKey | components/Encrypter.php:55-63 | the verdict of `setKey`: an accepted key is trimmed and 1 to 32 bytes long, and a refusal is EmptyKey or KeyTooLong, never KeyNotSet |
| Php.IsEmpty | components/Encrypter.php:57 | PHP's `empty()` on a string: true of "" and "0" only (no contract; `ZeroKeyRejected` and `BlankKeyRejected` state its effect) |
| Encryption.AcceptedKey | components/Encrypter.php:53-66 | an accepted key is the trimmed candidate: 1 to 32 bytes, not "0", no trim character at either end, and idempotent under `setKey` |
| Encryption.BlankKeyRejected | components/Encrypter.php:55-59 | a key made only of whitespace (or nothing) is refused as empty |
| Encryption.KeyPaddingIgnored | components/Encrypter.php:55 | whitespace around a key does not change the verdict or the stored key |
| Encryption.ZeroKeyRejected | components/Encrypter.php:57-59 | because `empty("0")` holds, "0" is refused, with any whitespace around it |
| Encryption.KeyLengthLimit | components/Encrypter.php:61-63 | a trimmed non-empty key is accepted if and only if it has at most 32 bytes |
| Encryption.Encrypter.Init | components/Encrypter.php:38-45 | fails with KeyNotSet exactly when no key is set; when it passes the key is trimmed and 1 to 32 bytes long |
| Encryption.Encrypter.GetIv | components/Encrypter.php:73-76 | yields IV_LENGTH (16) bytes |
| Encryption.Encrypter.Encrypt | components/Encrypter.php:82-88 | returns base64 of the drawn 16-byte IV followed by the ciphertext, and under the cipher law `decrypt` of the result is the plaintext |
| Encryption.Encrypter.Decrypt | components/Encrypter.php:96-109 | splits the decoded input into an IV of its first min(16, n) bytes and the rest, and decrypts; yields `false` whenever the decoded input is at most 16 bytes or its ciphertext does not fill whole blocks |
| Encryption.Seal | components/Encrypter.php:84-87 | `encrypt` once the IV is drawn: base64 of the IV followed by the raw ciphertext (no contract; `SealLayout`, `SealLength`, `SealDistinguishesIvs` and `RoundTrip` state its properties) |
| Encryption.Open | components/Encrypter.php:99-104 | `decrypt`: decode, split at offset 16 and decrypt, `None` for `false` (no contract; `OpenSplit`, `RoundTrip` and `OpenRejectsMalformed` state its properties) |
| Encryption.SealLayout | components/Encrypter.php:84-87 | decoding the output of `encrypt` gives the IV used, then the raw ciphertext |
| Encryption.OpenSplit | components/Encrypter.php:99-102 | the IV part has min(16, n) bytes, and IV part and ciphertext part together are the decoded bytes |
| Encryption.RoundTrip | components/Encrypter.php:82-109 | `decrypt(encrypt(s)) == s` under the same key, for every plaintext and IV |
| Encryption.OpenRejectsMalformed | components/Encrypter.php:99-104 | input decoding to at most 16 bytes, or to a ciphertext that is not whole blocks, decrypts to `false` |
| Encryption.SealLength | components/Encrypter.php:84-87 | the output has 4 * ceil((16 + padded length) / 3) characters, never fewer than 44 |
| Encryption.SealDistinguishesIvs | components/Encrypter.php:84-87 | the same plaintext encrypted with two different IVs gives two different strings |
| Encryption.LawfulEngineReversible | components/Encrypter.php:82-109 | under the cipher law the engine's decrypt undoes its encrypt, for every key and every 16-byte IV |
| Php.Trim | components/Encrypter.php:55 | `trim` leaves no trim character at either end and never lengthens |
| Php.TrimSlice | components/Encrypter.php:55 | `trim` keeps one contiguous slice, and every byte it cuts off at either end is a trim character |
| Php.TrimIdempotent | components/Encrypter.php:55 | trimming twice is trimming once |
| Php.TrimOfTrimmed | components/Encrypter.php:55 | a string with no trim character at either end is left as it is |
| Php.TrimAllBlank | components/Encrypter.php:55-57 | a string of trim characters trims to "" |
| Php.TrimPadded | components/Encrypter.php:55 | blank padding around a trimmed string is removed and nothing else |
| Php.Substr | components/Encrypter.php:101 | `substr($s, 0, 16)`: min(16, n) bytes, each equal to the byte at the same offset |
| Php.SubstrFrom | components/Encrypter.php:102 | `substr($s, 16)`: the bytes from offset 16 on, or "" |
| Php.SubstrSplit | components/Encrypter.php:101-102 | the two `substr` calls split the string with nothing lost or added |
| Base64.Encode | components/Encrypter.php:87 | `base64_encode`, RFC 4648 section 4 with padding: a non-empty input gives at least one four-character group (`EncodeLength`, `EncodeAlphabet` and `DecodeEncode` state the rest) |
| Base64.EncodeLength | components/Encrypter.php:87 | `base64_encode` writes four characters per started group of three bytes |
| Base64.EncodeAlphabet | components/Encrypter.php:87 | every character written is in the alphabet or is the padding `=` |
| Base64.PackLength | components/Encrypter.php:99 | `base64_decode` yields six bits per kept character, whole bytes only |
| Base64.Decode | components/Encrypter.php:99 | decoding never yields more bytes than it reads |
| Base64.DecodeEncode | components/Encrypter.php:87-99 | `base64_decode(base64_encode(b)) == b` |
| Base64.EncodeInjective | components/Encrypter.php:87 | different byte strings have different encodings |
| Cipher.UnpadPad | components/Encrypter.php:104 | removing PKCS#7 padding undoes adding it |
| Cipher.PaddingOnlyIsLawful | components/Encrypter.php:85-104 | the cipher law is satisfiable, so results that assume it are not vacuous |
| Behaviors.Events | behaviors/EncryptionBehavior.php:59-68 | exactly BEFORE_INSERT, BEFORE_UPDATE, AFTER_FIND, AFTER_INSERT and AFTER_UPDATE are handled; the handler is encryption exactly for the two events before a write |
| Behaviors.EncryptionBehavior.Trigger | behaviors/EncryptionBehavior.php:59-68 | firing an event runs the handler the table names, and an unhandled event changes nothing; the IVs drawn are all 16 bytes long, so two calls feed `WriteCycleCoerces` and `WriteCycleRestores` |
| Behaviors.Dispatch | behaviors/EncryptionBehavior.php:59-67 | an event before a write runs the encrypting handler, an event after a read or write runs the decrypting handler, and any other event changes nothing; no attribute is added or removed |
| Behaviors.Step | behaviors/EncryptionBehavior.php:104-120 | one `encryptValue` or `decryptValue`: look the engine up, then read the attribute, then write its transformed value (no contract; `StepEffect` states its effect) |
| Behaviors.StepEffect | behaviors/EncryptionBehavior.php:104-120 | one entry throws exactly when the engine or the attribute is missing, and then writes nothing; otherwise it changes the named attribute and no other |
| Behaviors.AsString | components/Encrypter.php:82-96 | the argument PHP passes to the `string` parameter of `encrypt` or `decrypt`: a string as it is, and `false` as "" (no contract; used by `Step`) |
| Behaviors.EncryptionBehavior.EncryptValue | behaviors/EncryptionBehavior.php:117-120 | looks the engine up, then reads the attribute, then stores its encryption with the drawn IV; throws with no write when either lookup fails |
| Behaviors.EncryptionBehavior.DecryptValue | behaviors/EncryptionBehavior.php:104-109 | looks the engine up, then reads the attribute, then stores its decryption or `false`; throws with no write when either lookup fails |
| Behaviors.EngineOf | behaviors/EncryptionBehavior.php:128-135 | no engine without a configured component; for a component whose key `setKey` accepted or that has none, an engine exactly when `init` would pass; the engine is the component's current one |
| Behaviors.EncryptionBehavior.EncryptAllAttributes | behaviors/EncryptionBehavior.php:91-96 | the owner's new values and outcome are those of encrypting the listed attributes in order, each with the IV it drew, stopping at the first exception |
| Behaviors.EncryptionBehavior.DecryptAllAttributes | behaviors/EncryptionBehavior.php:77-82 | the owner's new values and outcome are those of decrypting the listed attributes in order, stopping at the first exception |
| Behaviors.EncryptedAll | behaviors/EncryptionBehavior.php:91-96 | encrypting all listed attributes never adds or removes an attribute |
| Behaviors.DecryptedAll | behaviors/EncryptionBehavior.php:77-82 | decrypting all listed attributes never adds or removes an attribute |
| Behaviors.EncryptedAllOutcome | behaviors/EncryptionBehavior.php:91-96 | the handler goes through if and only if (the list is empty or the engine exists) and every listed attribute exists; with no engine it throws before writing anything |
| Behaviors.DecryptedAllOutcome | behaviors/EncryptionBehavior.php:77-82 | the same if-and-only-if for the decrypting handler |
| Behaviors.EncryptedAllFrame | behaviors/EncryptionBehavior.php:91-96 | attributes not in the list keep their values |
| Behaviors.DecryptedAllFrame | behaviors/EncryptionBehavior.php:77-82 | attributes not in the list keep their values |
| Behaviors.EncryptedAllStops | behaviors/EncryptionBehavior.php:93-95 | after an exception the remaining entries change nothing |
| Behaviors.DecryptedAllStops | behaviors/EncryptionBehavior.php:79-81 | after an exception the remaining entries change nothing |
| Behaviors.EncryptedAllNext | behaviors/EncryptionBehavior.php:93-95 | one more entry of a handler that has not thrown is one more encrypting step |
| Behaviors.EncryptedAllHalts | behaviors/EncryptionBehavior.php:93-95 | once the handler has thrown, the IVs later entries would have drawn make no difference |
| Behaviors.DecryptedAllNext | behaviors/EncryptionBehavior.php:79-81 | one more entry of a handler that has not thrown is one more decrypting step |
| Behaviors.EncryptedChain | behaviors/EncryptionBehavior.php:91-96 | an attribute listed k times is encrypted k times, with the IVs of its entries in list order |
| Behaviors.DecryptedChain | behaviors/EncryptionBehavior.php:77-82 | an attribute listed k times is decrypted k times |
| Behaviors.OpenSealChain | behaviors/EncryptionBehavior.php:77-96 | decrypting as many times as a string was encrypted gives it back |
| Behaviors.EncryptedOnce | behaviors/EncryptionBehavior.php:117-120 | an attribute listed once ends up as `encrypt` of its old value with its entry's IV |
| Behaviors.DecryptedOnce | behaviors/EncryptionBehavior.php:104-109 | an attribute listed once ends up as `decrypt` of its old value, or `false` |
| Behaviors.SealChainCoerces | behaviors/EncryptionBehavior.php:119 | only the first encryption of an attribute sees its value, and sees it as a string: encrypting `false` is encrypting "" |
| Behaviors.RestoredAt | behaviors/EncryptionBehavior.php:77-96 | each listed attribute comes back after encrypting and then decrypting the whole list as the string it was passed as: a string as it was, `false` as "" |
| Behaviors.DecryptAfterEncrypt | behaviors/EncryptionBehavior.php:77-96 | when every listed attribute exists, both handlers go through; each listed attribute ends as the string it was passed as, and every other attribute keeps its value |
| Behaviors.DecryptUndoesEncrypt | behaviors/EncryptionBehavior.php:77-96 | when every listed attribute holds a string, the decrypting handler undoes the encrypting handler on the whole record, whatever the order and repetitions of the list |
| Behaviors.WriteCycleCoerces | behaviors/EncryptionBehavior.php:62-66 | saving a record (BEFORE_INSERT then AFTER_INSERT, or BEFORE_UPDATE then AFTER_UPDATE) whose listed attributes exist leaves each listed attribute as the string it was passed as, so a `false` comes back as "", and every other attribute as it was |
| Behaviors.WriteCycleRestores | behaviors/EncryptionBehavior.php:62-66 | when every listed attribute holds a string, saving the record leaves the whole record as it was |

## Left out

- AES itself is left out. OpenSSL's cipher is an injected `Cipher.Library`. The results that need real behaviour from it assume `Cipher.Lawful`: the round trip, PKCS#7 lengths, and refusal of ciphertext that is not whole blocks. `Cipher.PaddingOnly` shows the law can be met.
- Secrecy and authenticity are not stated. The scheme has no MAC, so nothing says a wrong key or a tampered ciphertext is detected.
- Randomness of `openssl_random_pseudo_bytes` is not modelled. `GetIv` promises only sixteen bytes. IV freshness is only the separation stated by `SealDistinguishesIvs`, and `getIv` returning `false` is not modelled.
- The `catch` branch of `decrypt` is left out. It calls `Yii::error` without a `use Yii;` in the `bereznii\encrypter\components` namespace (components/Encrypter.php:11-14, 106). That class name does not resolve, so the branch throws an `Error` and never reaches `return false`. The branch runs only when something in the `try` block throws. Without an error handler that turns warnings into exceptions, nothing there throws.
- Encryption.Encrypter.Decrypt: models `decrypt` without Yii's error handler. There, input that decodes to 1 to 15 bytes makes `openssl_decrypt` warn that the IV is short. Yii's default handler turns that warning into an `ErrorException`, and the broken `catch` branch then throws an `Error` out of `decrypt`, `decryptValue` and the handler. The model yields `false` for that input and lets the handler go on.
- Encryption.OpenRejectsMalformed: its `false` for input decoding to 1 to 15 bytes is the same simplification as for `Decrypt`. Under Yii's error handler that input throws instead.
- `Yii::$app` is a global service locator, and the `try`/`catch` around it in `getEncrypter` is not modelled. Both are replaced by the optional `Encrypter` reference and the key check in `Behaviors.EngineOf`.
- The `$event` argument of the handlers is not used by the code and is not modelled.
- The unused `AES128` constant is kept only as `Cipher.Aes128Cbc`. Nothing selects it.
- Attribute values other than strings and `false` are not modelled. A `null` value, such as a nullable column, is not coerced: PHP throws a `TypeError` when it is passed to the `string` parameter of `encrypt` or `decrypt` (components/Encrypter.php:82, 96), so a listed null attribute makes the handler throw. Integers and floats would be coerced to their decimal strings.
- `substr` is modelled with PHP 8 semantics. PHP 7 returns `false` for a start past the end.
- Concurrency between requests and the database are left out. The record is a map from attribute names to values.
- `controllers/DecryptController.php` and `Module.php` are not part of this model.
