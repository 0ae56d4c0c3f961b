# File encryptor: envelope codecs, decrypt control flow and page logic

This project models the browser file encryptor. It has three generations of
the encryptor and the page script that drives them.

- `FileEncryptor` (`EncryptorV1`, `encryptor.dfy`) is the original format.
  - The key comes from the password through PBKDF2.
  - The file is encrypted with AES-256-CBC.
  - The envelope is `salt(16) ‖ IV(16) ‖ ciphertext`.
  - This is the class the page instantiates.
- `FileEncryptorV2` (`EncryptorV2`, `encryptor_v2.dfy`) is a hybrid scheme.
  - A random data key (DEK) encrypts the file with AES-CBC.
  - A password-derived key (KEK) wraps the DEK, also with AES-CBC.
  - The envelope is `salt(16) ‖ IV_KEK(16) ‖ wrappedDEK(48) ‖ IV_data(16) ‖ ciphertext`.
- `FileEncryptorV3` (`EncryptorV3`, `encryptor_v3.dfy`) is the current format.
  - It uses the same hybrid scheme with AES-GCM, 600 000 PBKDF2 iterations and a 12-character password floor.
  - The envelope is `salt(16) ‖ IV_KEK(12) ‖ wrappedDEK(48) ‖ IV_data(12) ‖ ciphertext‖tag`.
- The page script (`App`, `app.dfy`) holds four things:
  - the output file-name rule;
  - the two form predicates that enable the buttons;
  - the guard order of the two click handlers;
  - the page's mutable state, as a class `Page` whose handlers are methods.

Each generation's `encryptFile` and `decryptFile` appears twice.
- A specification function (`EncryptSpec`, `DecryptSpec`) is built from the envelope codec (`Serialize`, `Parse`) and the steps of the `try` block (`SealEnvelope`, `OpenEnvelope`).
- An imperative method (`EncryptFile`, `DecryptFile`) follows the source's own steps. Encryption fills a preallocated byte array through `Buffers.SetAt` (the model of `Uint8Array.set`).
  - In V2 and V3, encryption writes at a running offset and decryption slices the input at a running offset.
  - In V1, both write and slice at the constant offsets 0, 16 and 32.
- Each method is proved equal to its specification function.

The envelope carries no version marker, so each generation has its own parser.

The WebCrypto calls are not modelled as ciphers.
- `WebCrypto.Primitives` is a record of total functions that either return bytes or throw.
- What the standards promise of these functions is stated as two hypotheses:
  - `HonoursLengths` gives the output lengths of PBKDF2 (section 5.2 of RFC 8018), AES-GCM (NIST SP 800-38D) and AES-CBC with PKCS#7 padding (NIST SP 800-38A, section 6.3 of RFC 5652);
  - `Inverts` says that decryption undoes encryption under the same key and IV.
- Lemmas take these hypotheses only where they need them.

The random salt, IVs and DEK are method parameters.

Thrown errors are `Common.JsError(name, message)`. Error messages are the source's own strings.

## Model

| member | source | states |
|---|---|---|
| Common.PrefixIncluded | js/encryptor_v3.js:286 | a message that starts with the wrong-password marker includes it |
| Common.MissingCharNotIncluded | js/encryptor_v3.js:286 | a message lacking any one character of the marker does not include the marker |
| WebCrypto.CbcRejectsEmpty | js/encryptor_v2.js:238-245 | under the standard length contracts, AES-CBC decryption of zero bytes always throws |
| WebCrypto.WrappedKeyIs48 | js/encryptor_v3.js:16 | a wrapped 32-byte key is 48 bytes under both GCM and CBC, the width both hybrid formats reserve |
| Buffers.SetAt | js/encryptor_v3.js:189-193 | `set` copies `src` to `offset` and leaves every other byte of the buffer unchanged |
| EncryptorV3.ComplexityScore | js/encryptor_v3.js:30-35 | the score counts at most four classes and is 0 exactly when none of upper, lower, digit or special occurs |
| EncryptorV3.ValidatePassword | js/encryptor_v3.js:24-42 | succeeds with `true` if and only if the password has at least 12 characters; otherwise throws the length message |
| EncryptorV3.WeakLongPasswordAccepted | js/encryptor_v3.js:29-41 | every password of 12 characters or more that draws the weak-password warning is accepted, and such passwords exist (one of score 1) |
| EncryptorV3.GenerateKek | js/encryptor_v3.js:47-73 | validation runs first: a password under 12 characters throws the length error, so a derived KEK implies the policy passed; under the length contracts the KEK is 32 bytes |
| EncryptorV3.DecryptDek | js/encryptor_v3.js:111-139 | a returned DEK is exactly 32 bytes and is the GCM opening; an opening of any other length throws; for a 48-byte input under the length contracts it succeeds if and only if the opening does |
| EncryptorV3.Serialize | js/encryptor_v3.js:185-193 | the envelope of well-sized fields is 88 bytes longer than the ciphertext |
| EncryptorV3.Parse | js/encryptor_v3.js:220-240 | succeeds if and only if the input has at least 104 bytes, else throws the format error; the fields have widths 16/12/48/12 and the ciphertext is the input minus 88 bytes |
| EncryptorV3.FieldOffsets | js/encryptor_v3.js:188-193 | salt, IV_KEK, wrapped DEK, IV_data and ciphertext are written at offsets 0, 16, 28, 76 and 88 |
| EncryptorV3.ParseSerialize | js/encryptor_v3.js:227-240 | slicing an assembled envelope at the same offsets gives every field back, given a 48-byte wrapped DEK and a ciphertext of at least one tag |
| EncryptorV3.SerializeParse | js/encryptor_v3.js:227-240 | the parsed fields concatenate back to the input: slicing loses no byte |
| EncryptorV3.SealEnvelope | js/encryptor_v3.js:149-182 | a sealed envelope carries the given salt and IVs and needed a policy-passing password; under the length contracts the wrapped DEK is 48 bytes and the ciphertext is the file plus a 16-byte tag |
| EncryptorV3.EncryptSpec | js/encryptor_v3.js:145-212 | a success reports `originalSize` = file length, `totalSize` = data length and `headerSize` 88, and the data starts with the salt; a failure carries only a message |
| EncryptorV3.GenericMessageNamesMarker | js/encryptor_v3.js:286-289 | the generic message itself contains `Невірний пароль` |
| EncryptorV3.Classify | js/encryptor_v3.js:282-296 | the generic message is reported if and only if the error is an `OperationError` or its message includes `Невірний пароль`; otherwise the error's own message is reported |
| EncryptorV3.OpenEnvelope | js/encryptor_v3.js:219-273 | an input under 104 bytes throws the format error; a long enough input with a short password throws the length error; under the length contracts a plaintext is exactly 104 bytes shorter than the input |
| EncryptorV3.DecryptSpec | js/encryptor_v3.js:218-297 | a success reports `size` = the plaintext length, which under the length contracts is the input length minus 104 |
| EncryptorV3.EncryptFile | js/encryptor_v3.js:145-212 | the buffer filled field by field at a running offset is the serialized envelope; on any thrown error the result carries only the message |
| EncryptorV3.DecryptFile | js/encryptor_v3.js:218-297 | the size check, running-offset slicing, KEK derivation, DEK unwrap and payload opening give what the decryption specification gives |
| EncryptorV3.BadFormatLacksMarkerLetter | js/encryptor_v3.js:223 | the format message lacks a letter of the marker `Невірний пароль` |
| EncryptorV3.BadFormatPassesThrough | js/encryptor_v3.js:286-295 | the `catch` reports the format error with its own message, not the generic one |
| EncryptorV3.PasswordTooShortLacksMarkerLetter | js/encryptor_v3.js:26 | the length message lacks a letter of the marker |
| EncryptorV3.PasswordTooShortPassesThrough | js/encryptor_v3.js:286-295 | the `catch` reports the length error with its own message, not the generic one |
| EncryptorV3.DekUnwrapBecomesGeneric | js/encryptor_v3.js:249-253 | the rethrown unwrap error contains the marker, so it is reported with the generic message |
| EncryptorV3.EncryptRejectsShortPassword | js/encryptor_v3.js:158-159 | a password under 12 characters makes encryption fail with the length message, whatever the primitives do |
| EncryptorV3.EncryptSucceedsIff | js/encryptor_v3.js:145-211 | encryption succeeds if and only if the policy passes and PBKDF2, the DEK wrap and the payload sealing all succeed |
| EncryptorV3.EncryptedLayout | js/encryptor_v3.js:185-204 | a success reports `headerSize` 88, `originalSize` the file length, `encryptedSize` the file plus a 16-byte tag, and `totalSize` the envelope length (file + 104); salt and IVs sit at their offsets and parse back |
| EncryptorV3.DecryptRejectsShortInput | js/encryptor_v3.js:220-224 | any input under 104 bytes fails with the format message, before the password is validated |
| EncryptorV3.DecryptRejectsShortPassword | js/encryptor_v3.js:244-245 | on an input of 104 bytes or more, a short password fails with the length message, not the generic one |
| EncryptorV3.DekUnwrapFailureIsGeneric | js/encryptor_v3.js:248-253 | once the KEK is derived, every unwrap failure, a wrong DEK size included, is reported with the generic message |
| EncryptorV3.PayloadTagFailureIsGeneric | js/encryptor_v3.js:264-291 | an `OperationError` from opening the payload is reported with the same generic message |
| EncryptorV3.RoundTrip | js/encryptor_v3.js:145-297 | decrypting the envelope encryption produced, with the same password, gives back the file and its size |
| EncryptorV2.DecryptDek | js/encryptor_v2.js:83-113 | succeeds if and only if CBC decryption succeeds with 32 bytes or more, and returns exactly its first 32 bytes |
| EncryptorV2.DecryptDekInvertsWrap | js/encryptor_v2.js:103-112 | unwrapping a wrapped 32-byte DEK under the same KEK and IV gives the DEK back |
| EncryptorV2.DekSizeCheckNeverFires | js/encryptor_v2.js:106-109 | on a 48-byte wrapped key under the length contracts, the unwrap succeeds if and only if CBC decryption does |
| EncryptorV2.Serialize | js/encryptor_v2.js:157-166 | the envelope of well-sized fields is 96 bytes longer than the ciphertext |
| EncryptorV2.Parse | js/encryptor_v2.js:193-213 | succeeds if and only if the input has at least 96 bytes, else throws the format error; the fields have widths 16/16/48/16 |
| EncryptorV2.FieldOffsets | js/encryptor_v2.js:161-166 | the fields are written at offsets 0, 16, 32, 80 and 96 |
| EncryptorV2.ParseSerialize | js/encryptor_v2.js:199-213 | slicing an assembled envelope gives every field back, the empty ciphertext included |
| EncryptorV2.SerializeParse | js/encryptor_v2.js:199-213 | the parsed fields concatenate back to the input |
| EncryptorV2.GenerateKek | js/encryptor_v2.js:21-45 | under the length contracts the KEK is 32 bytes; no password check runs |
| EncryptorV2.SealEnvelope | js/encryptor_v2.js:123-155 | a sealed envelope carries the given salt and IVs; under the length contracts the wrapped DEK is 48 bytes and the ciphertext is the file padded to the next whole block |
| EncryptorV2.EncryptSpec | js/encryptor_v2.js:119-185 | a success reports `originalSize` = file length, `totalSize` = data length and `headerSize` 96, and the data starts with the salt; a failure carries only a message |
| EncryptorV2.GenericMessageNamesMarker | js/encryptor_v2.js:258-261 | the generic message itself contains `Невірний пароль` |
| EncryptorV2.Classify | js/encryptor_v2.js:254-268 | the generic message is reported if and only if the error is an `OperationError` or its message includes `Невірний пароль`; otherwise the error's own message is reported |
| EncryptorV2.OpenEnvelope | js/encryptor_v2.js:192-246 | an input under 96 bytes throws the format error; under the length contracts a plaintext means the ciphertext is whole blocks and the plaintext is 1 to 16 bytes shorter |
| EncryptorV2.DecryptSpec | js/encryptor_v2.js:191-269 | a success reports `size` = the plaintext length, which under the length contracts is below the input length minus 96 |
| EncryptorV2.EncryptFile | js/encryptor_v2.js:119-185 | the buffer filled at a running offset is the serialized envelope; on any thrown error the result carries only the message |
| EncryptorV2.DecryptFile | js/encryptor_v2.js:191-269 | the size check, running-offset slicing, unwrap and payload decryption give what the decryption specification gives |
| EncryptorV2.BadFormatLacksMarkerLetter | js/encryptor_v2.js:196 | the format message lacks a letter of the marker |
| EncryptorV2.BadFormatPassesThrough | js/encryptor_v2.js:257-267 | the `catch` reports the format error with its own message |
| EncryptorV2.DekUnwrapBecomesGeneric | js/encryptor_v2.js:221-226 | the rethrown unwrap error contains the marker, so it becomes the generic message |
| EncryptorV2.EncryptSucceedsIff | js/encryptor_v2.js:119-184 | with no password policy, encryption succeeds if and only if PBKDF2, the DEK wrap and the payload encryption succeed |
| EncryptorV2.EncryptedLayout | js/encryptor_v2.js:157-177 | a success reports `headerSize` 96, the padded ciphertext length (⌊n/16⌋+1)·16 and `totalSize` = 96 + that; salt and IVs sit at 0, 16 and 80 |
| EncryptorV2.DecryptRejectsShortInput | js/encryptor_v2.js:193-197 | any input under 96 bytes fails with the format message |
| EncryptorV2.AnyPasswordReachesKeyDerivation | js/encryptor_v2.js:21-45 | a 96-byte input passes the size check with an empty ciphertext, and every password, the empty one included, reaches PBKDF2 |
| EncryptorV2.EmptyCiphertextNeverDecrypts | js/encryptor_v2.js:193-245 | a 96-byte input passes the size check but can never decrypt |
| EncryptorV2.DekUnwrapFailureIsGeneric | js/encryptor_v2.js:220-226 | once the KEK is derived, every unwrap failure is reported with the generic message |
| EncryptorV2.RoundTrip | js/encryptor_v2.js:119-269 | decrypting the envelope encryption produced, with the same password, gives back the file |
| EncryptorV1.Serialize | js/encryptor.js:80-86 | the envelope is 32 bytes longer than the ciphertext |
| EncryptorV1.Parse | js/encryptor.js:109-117 | succeeds if and only if the input has at least 32 bytes, else throws the format error; the salt and IV are 16 bytes each and the ciphertext is the input minus 32 bytes (the contents of the slices are pinned by `SerializeParse`) |
| EncryptorV1.FieldOffsets | js/encryptor.js:84-86 | salt, IV and ciphertext are written at offsets 0, 16 and 32 |
| EncryptorV1.ParseSerialize | js/encryptor.js:115-117 | slicing at the same offsets gives every field back |
| EncryptorV1.SerializeParse | js/encryptor.js:115-117 | the parsed fields concatenate back to the input |
| EncryptorV1.GenerateKey | js/encryptor.js:19-45 | under the length contracts the key is 32 bytes; no password check runs |
| EncryptorV1.SealEnvelope | js/encryptor.js:55-78 | a sealed envelope carries the given salt and IV; under the length contracts the ciphertext is the file padded to the next whole block |
| EncryptorV1.EncryptSpec | js/encryptor.js:52-101 | a success reports `originalSize` = file length and `totalSize` = data length, and the data starts with the salt; a failure carries only a message |
| EncryptorV1.Classify | js/encryptor.js:146-158 | the generic message is reported if and only if the error is an `OperationError` or already carries that message; otherwise the error's own message is reported |
| EncryptorV1.OpenEnvelope | js/encryptor.js:108-139 | an input under 32 bytes throws the format error; under the length contracts a plaintext means the ciphertext is whole blocks and the plaintext is 1 to 16 bytes shorter |
| EncryptorV1.DecryptSpec | js/encryptor.js:107-159 | a success reports `size` = the plaintext length, which under the length contracts is below the input length minus 32 |
| EncryptorV1.EncryptFile | js/encryptor.js:52-101 | the buffer filled at offsets 0, 16 and 32 is the serialized envelope; on any thrown error the result carries only the message |
| EncryptorV1.DecryptFile | js/encryptor.js:107-159 | the size check, constant-offset slicing and decryption give what the decryption specification gives |
| EncryptorV1.EncryptedLayout | js/encryptor.js:88-94 | a success reports `originalSize` the file length, `encryptedSize` the padded ciphertext length and `totalSize` = 32 + that; the IV sits at offset 16 |
| EncryptorV1.DecryptRejectsShortInput | js/encryptor.js:109-112 | any input under 32 bytes fails with the format message |
| EncryptorV1.FailureMessages | js/encryptor.js:146-158 | an `OperationError` becomes the generic message; any other error keeps its own message |
| EncryptorV1.RoundTrip | js/encryptor.js:52-159 | decrypting the envelope encryption produced, with the same password, gives back the file |
| App.EncryptedFileName | js/app.js:135 | the output name is exactly the original name followed by `.encrypted` (prefix, suffix and length) |
| App.DecryptedFileName | js/app.js:217-222 | a name ending in `.encrypted` yields the name that `.encrypted` was appended to; any other name yields exactly itself followed by `.decrypted` (prefix, suffix and length) |
| App.DecryptedNameUndoesEncryptedName | js/app.js:217-222 | the decrypted-name rule applied to `name + ".encrypted"` gives `name` back |
| App.EncryptedNameUndoesDecryptedName | js/app.js:217-222 | appending `.encrypted` to the decrypted name restores the name if and only if the name ended with `.encrypted` |
| App.EncryptFormEnabled | js/app.js:91-99 | enabled if and only if a file is chosen and the password equals its confirmation and has at least 8 characters (the non-empty test is implied); an enabled encrypt form would also enable the decrypt form with the same password |
| App.DecryptFormEnabled | js/app.js:182-187 | enabled if and only if a file is chosen and the password is not the empty string, the same test as the handler's `!password` |
| App.EncryptClickGuard | js/app.js:103-119 | the guards run in order: no file, then mismatch, then length < 8; the handler goes on if and only if the form predicate enables the button |
| App.DecryptClickGuard | js/app.js:191-201 | the guards run in order: no file, then empty password; the handler goes on if and only if the form predicate enables the button |
| App.FormFloorBelowV3Policy | js/app.js:116-119 | every password of 8 to 11 characters passes the encrypt guards and is refused by the 12-character policy of the current format |
| App.Page.constructor | js/app.js:9-10 | the page starts with no file chosen, empty inputs, hidden results, no downloads and both buttons disabled |
| App.Page.ValidateEncryptForm | js/app.js:91-99 | the encrypt button is disabled exactly when the encrypt form predicate is false |
| App.Page.ValidateDecryptForm | js/app.js:182-187 | the decrypt button is disabled exactly when the decrypt form predicate is false |
| App.Page.OnEncryptFileChange | js/app.js:73-85 | a chosen file replaces the selection; a cancelled choice keeps it; the buttons still match the forms |
| App.Page.OnEncryptPasswordInput | js/app.js:88 | the password is updated and the buttons still match the forms |
| App.Page.OnEncryptPasswordConfirmInput | js/app.js:89 | the confirmation is updated and the buttons still match the forms |
| App.Page.OnDecryptFileChange | js/app.js:165-177 | a chosen file replaces the selection; a cancelled choice keeps it; the buttons still match the forms |
| App.Page.OnDecryptPasswordInput | js/app.js:180 | the password is updated and the buttons still match the forms |
| App.Page.OnEncryptClick | js/app.js:102-161 | a refused guard only shows its message. Otherwise both results are cleared, then one of three things happens: a read error is shown and the form is kept; a success downloads the envelope as `name.encrypted`, reports its sizes and resets the form; a failure shows the error and keeps the form. Afterwards the button is disabled exactly when the form was reset |
| App.Page.OnDecryptClick | js/app.js:190-246 | a refused guard only shows its message. Otherwise both results are cleared; a read error is shown and the form is kept; a success downloads the plaintext under the decrypted-name rule, reports its size and resets the form, and a failure shows `✗` and the message and keeps the form |

## Left out

- The ciphers are not modelled. PBKDF2, AES-GCM and AES-CBC, with the `importKey` calls that precede them, are abstract primitives. The standards' promises are hypotheses (`HonoursLengths`, `Inverts`) that lemmas take where they need them.
- Probabilistic claims are not stated. These include "a wrong password or a tampered file makes decryption fail" and the strength of the keys, which depend on the ciphers.
- `crypto.getRandomValues` and `generateDEK` are not modelled. The salt, the IVs and the DEK are parameters of `EncryptFile`/`EncryptSpec`, with their widths required.
- `async`/`await` is not modelled: each handler and each encryptor method runs as one sequential method.
- `readFileAsArrayBuffer` is not modelled. Its result is the `read` parameter of the click handlers: the bytes, or the error it rejects with.
- `downloadFile` is not modelled; the file it would save is appended to `Page.downloads`.
- `formatFileSize` (floating point) and the HTML of the success notices are not modelled; a notice records the name and the sizes it shows.
- `console` output is not modelled, including the weak-password warning. The warning's condition is `EncryptorV3.WarnsWeak`.
- The DOM glue is not modelled: tab switching (which only hides both results), the password-visibility toggle, the file-info panel and the `loading` class.
- The service worker and the PWA install events are not modelled; they are cache and network I/O.
- `encryptDEK` is not a separate member. It is a single `gcmEncrypt`/`cbcEncrypt` call inside `SealEnvelope`.
- EncryptorV3.ValidatePassword: lengths count characters, while JavaScript's `length` counts UTF-16 code units. A password with characters outside the Basic Multilingual Plane is therefore counted shorter here than in the source.
- EncryptorV3.ValidatePassword: an absent (`null`/`undefined`) password, which the source also rejects, has no counterpart; the password is always a string.
- App.EncryptClickGuard: lengths count characters, not UTF-16 code units, as above.
- EncryptorV3.EncryptFile: requires `HonoursLengths`. The running offset advances by the constant 48 whatever the wrapped key's real length, and `set` throws a `RangeError` when data would overrun the buffer. Both are excluded rather than modelled.
- EncryptorV2.EncryptFile: requires `HonoursLengths` for the same reason.
- App.Page.constructor: the buttons' initial `disabled` state comes from the page markup, which is not part of this model.
