/** `FileEncryptorV3`: hybrid AES-256-GCM encryption with a password policy.

    A random data-encryption key (DEK) encrypts the file; a key-encryption key
    (KEK) derived from the password by PBKDF2 wraps the DEK. The envelope is
      salt(16) ‖ IV_KEK(12) ‖ wrappedDEK(48) ‖ IV_data(12) ‖ ciphertext ‖ tag(16)
    with no version marker and no length prefixes. */
module EncryptorV3 {
  import opened Common
  import opened WebCrypto
  import opened Buffers

  const SaltSize: nat := 16
  const IvSize: nat := 12
  const DekSize: nat := 32
  const KekSize: nat := 32
  const AuthTagSize: nat := 16
  const EncryptedDekSize: nat := 48
  const Pbkdf2Iterations: nat := 600000
  const MinPasswordLength: nat := 12

  /** `headerSize` of `encryptFile`: every field before the ciphertext. */
  const HeaderSize: nat := SaltSize + IvSize + EncryptedDekSize + IvSize

  /** `minSize` of `decryptFile`: the header and one tag's worth of ciphertext. */
  const MinSize: nat := HeaderSize + AuthTagSize

  /** Thrown by `validatePassword` (the template prints `MIN_PASSWORD_LENGTH`, 12). */
  const PasswordTooShortMessage: string := "Пароль повинен містити мінімум 12 символів"

  /** Thrown by `decryptFile` for an input below `minSize`. */
  const BadFormatMessage: string := "Неправильний формат файлу (файл занадто малий)"

  /** What `decryptFile` rethrows when unwrapping the DEK fails in any way. */
  const DekUnwrapMessage: string := "Невірний пароль або пошкоджений файл"

  /** The text whose presence in a message marks a wrong-password error. */
  const WrongPasswordMarker: string := "Невірний пароль"

  /** The single generic message `decryptFile` reports for a wrong password or a modified file. */
  const WrongPasswordMessage: string := "Невірний пароль або файл був змінений"

  const PasswordTooShort: JsError := JsError(PlainError, PasswordTooShortMessage)
  const BadFormat: JsError := JsError(PlainError, BadFormatMessage)
  const DekUnwrapFailed: JsError := JsError(PlainError, DekUnwrapMessage)

  /** Thrown by `decryptDEK` for an unwrapped key of the wrong length. */
  function DekSizeError(length: nat): JsError {
    JsError(PlainError, "DEK має неправильний розмір: " + DecimalString(length) + " (очікувалось 32)")
  }

  // ---------------------------------------------------------------- password policy

  predicate HasUpper(p: string) {
    exists i :: 0 <= i < |p| && 'A' <= p[i] <= 'Z'
  }

  predicate HasLower(p: string) {
    exists i :: 0 <= i < |p| && 'a' <= p[i] <= 'z'
  }

  predicate HasDigit(p: string) {
    exists i :: 0 <= i < |p| && '0' <= p[i] <= '9'
  }

  /** The character class `[!@#$%^&*(),.?":{}|<>]`. */
  const SpecialChars: string := "!@#$%^&*(),.?\":{}|<>"

  predicate HasSpecial(p: string) {
    exists i :: 0 <= i < |p| && p[i] in SpecialChars
  }

  /** How many of the four character classes occur in the password. */
  function ComplexityScore(p: string): (n: nat)
    ensures n <= 4
    ensures n == 0 <==> !HasUpper(p) && !HasLower(p) && !HasDigit(p) && !HasSpecial(p)
  {
    (if HasUpper(p) then 1 else 0) + (if HasLower(p) then 1 else 0)
    + (if HasDigit(p) then 1 else 0) + (if HasSpecial(p) then 1 else 0)
  }

  /** A score below 3 makes `validatePassword` log a warning, and nothing else. */
  predicate WarnsWeak(p: string) {
    ComplexityScore(p) < 3
  }

  /** `validatePassword`: throws for an empty or short password and returns
      true otherwise; the complexity score plays no part in the outcome. */
  function ValidatePassword(password: string): (r: Outcome<bool>)
    ensures r.Ok? <==> |password| >= MinPasswordLength
    ensures r.Ok? ==> r.value
    ensures r.Throw? ==> r.error == PasswordTooShort
  {
    if |password| == 0 || |password| < MinPasswordLength then Throw(PasswordTooShort)
    else Ok(true)
  }

  /** The policy is length only: every long password that draws the
      weak-password warning is accepted, and such passwords exist. */
  lemma WeakLongPasswordAccepted()
    ensures forall p | |p| >= MinPasswordLength && WarnsWeak(p) :: ValidatePassword(p) == Ok(true)
    ensures exists p :: WarnsWeak(p) && ComplexityScore(p) == 1 && ValidatePassword(p) == Ok(true)
  {
    var p := "aaaaaaaaaaaa";
    assert HasLower(p) by { assert 'a' <= p[0] <= 'z'; }
    assert ComplexityScore(p) == 1;
  }

  // ---------------------------------------------------------------- key handling

  /** `generateKEKFromPassword`: the policy check, then PBKDF2 with 600 000 iterations
      and 256 output bits. */
  function GenerateKek(c: Primitives, password: string, salt: Bytes): (r: Outcome<Bytes>)
    ensures r.Ok? ==> |password| >= MinPasswordLength
    ensures |password| < MinPasswordLength ==> r == Throw(PasswordTooShort)
    ensures HonoursLengths(c) && r.Ok? ==> |r.value| == KekSize
  {
    var _ :- ValidatePassword(password);
    c.pbkdf2(password, salt, Pbkdf2Iterations, KekSize * 8)
  }

  /** `decryptDEK`: AES-GCM opening of the wrapped key, which must then be
      exactly 32 bytes long. */
  function DecryptDek(c: Primitives, encryptedDek: Bytes, kek: Bytes, iv: Bytes): (r: Outcome<Bytes>)
    ensures r.Ok? ==> |r.value| == DekSize && c.gcmDecrypt(kek, iv, encryptedDek) == r
    ensures c.gcmDecrypt(kek, iv, encryptedDek).Ok? && |c.gcmDecrypt(kek, iv, encryptedDek).value| != DekSize
            ==> r.Throw?
    ensures HonoursLengths(c) && |encryptedDek| == EncryptedDekSize
            ==> (r.Ok? <==> c.gcmDecrypt(kek, iv, encryptedDek).Ok?)
  {
    var dek :- c.gcmDecrypt(kek, iv, encryptedDek);
    if |dek| != DekSize then Throw(DekSizeError(|dek|)) else Ok(dek)
  }

  // ---------------------------------------------------------------- envelope codec

  datatype Envelope = Envelope(salt: Bytes, ivKek: Bytes, encryptedDek: Bytes, ivData: Bytes, ciphertext: Bytes)

  /** The fixed widths of the four header fields. */
  predicate HasFieldWidths(e: Envelope) {
    |e.salt| == SaltSize && |e.ivKek| == IvSize && |e.encryptedDek| == EncryptedDekSize && |e.ivData| == IvSize
  }

  /** The envelope's bytes: the fields back to back, without delimiters. */
  function Serialize(e: Envelope): (b: Bytes)
    ensures HasFieldWidths(e) ==> |b| == HeaderSize + |e.ciphertext|
  {
    e.salt + e.ivKek + e.encryptedDek + e.ivData + e.ciphertext
  }

  /** The size check and the slicing of `decryptFile`: below `minSize` the input
      is rejected; otherwise the fields are cut at fixed offsets, their contents
      unchecked. */
  function Parse(b: Bytes): (r: Outcome<Envelope>)
    ensures r.Ok? <==> |b| >= MinSize
    ensures r.Throw? ==> r.error == BadFormat
    ensures r.Ok? ==> HasFieldWidths(r.value) && |r.value.ciphertext| == |b| - HeaderSize
  {
    if |b| < MinSize then Throw(BadFormat)
    else
      Ok(Envelope(b[..16], b[16..28], b[28..76], b[76..88], b[88..]))
  }

  /** Salt, IV_KEK, wrapped DEK, IV_data and ciphertext sit at offsets 0, 16, 28, 76 and 88. */
  lemma FieldOffsets(e: Envelope)
    requires HasFieldWidths(e)
    ensures var b := Serialize(e);
      && b[0..16] == e.salt && b[16..28] == e.ivKek && b[28..76] == e.encryptedDek
      && b[76..88] == e.ivData && b[88..] == e.ciphertext
  {
    var b := Serialize(e);
    assert b == e.salt + (e.ivKek + (e.encryptedDek + (e.ivData + e.ciphertext)));
  }

  /** Parsing a serialized envelope gives every field back. */
  lemma ParseSerialize(e: Envelope)
    requires HasFieldWidths(e) && |e.ciphertext| >= AuthTagSize
    ensures Parse(Serialize(e)) == Ok(e)
  {
    FieldOffsets(e);
  }

  /** Serializing the fields of a parsed input gives the input back. */
  lemma SerializeParse(b: Bytes)
    requires Parse(b).Ok?
    ensures Serialize(Parse(b).value) == b
  {
    assert b == b[..16] + b[16..28] + b[28..76] + b[76..88] + b[88..];
  }

  // ---------------------------------------------------------------- encryptFile

  /** What `encryptFile` returns. A failure carries no data, so no partial
      envelope ever reaches the caller. */
  datatype EncryptResult =
    | Encrypted(data: Bytes, originalSize: nat, encryptedSize: nat, totalSize: nat, headerSize: nat)
    | EncryptFailed(error: string)

  /** Steps 3 to 6 of `encryptFile`: derive the KEK, wrap the DEK, encrypt the file. */
  function SealEnvelope(c: Primitives, fileData: Bytes, password: string,
                        salt: Bytes, ivKek: Bytes, ivData: Bytes, dek: Bytes): (r: Outcome<Envelope>)
    ensures r.Ok? ==> r.value.salt == salt && r.value.ivKek == ivKek && r.value.ivData == ivData
    ensures r.Ok? ==> |password| >= MinPasswordLength
    ensures HonoursLengths(c) && |dek| == DekSize && r.Ok? ==>
      |r.value.encryptedDek| == EncryptedDekSize && |r.value.ciphertext| == |fileData| + AuthTagSize
  {
    var kek :- GenerateKek(c, password, salt);
    var encryptedDek :- c.gcmEncrypt(kek, ivKek, dek);
    var ciphertext :- c.gcmEncrypt(dek, ivData, fileData);
    Ok(Envelope(salt, ivKek, encryptedDek, ivData, ciphertext))
  }

  /** `encryptFile` as a function of its inputs and of the random salt, IVs and DEK. */
  function EncryptSpec(c: Primitives, fileData: Bytes, password: string,
                       salt: Bytes, ivKek: Bytes, ivData: Bytes, dek: Bytes): (r: EncryptResult)
    ensures r.Encrypted? ==> r.originalSize == |fileData| && r.totalSize == |r.data| && r.headerSize == HeaderSize
    ensures r.Encrypted? ==> salt <= r.data
  {
    match SealEnvelope(c, fileData, password, salt, ivKek, ivData, dek)
    case Throw(e) => EncryptFailed(e.message)
    case Ok(env) =>
      var data := Serialize(env);
      Encrypted(data, |fileData|, |env.ciphertext|, |data|, HeaderSize)
  }

  /** `encryptFile`: the result buffer is allocated at its final size and
      filled field by field at a running offset. */
  method EncryptFile(c: Primitives, fileData: Bytes, password: string,
                     salt: Bytes, ivKek: Bytes, ivData: Bytes, dek: Bytes) returns (r: EncryptResult)
    requires HonoursLengths(c)
    requires |salt| == SaltSize && |ivKek| == IvSize && |ivData| == IvSize && |dek| == DekSize
    ensures r == EncryptSpec(c, fileData, password, salt, ivKek, ivData, dek)
  {
    var kek := GenerateKek(c, password, salt);
    if kek.Throw? {
      return EncryptFailed(kek.error.message);
    }
    var encryptedDek := c.gcmEncrypt(kek.value, ivKek, dek);
    if encryptedDek.Throw? {
      return EncryptFailed(encryptedDek.error.message);
    }
    var ciphertext := c.gcmEncrypt(dek, ivData, fileData);
    if ciphertext.Throw? {
      return EncryptFailed(ciphertext.error.message);
    }
    var headerSize := SaltSize + IvSize + EncryptedDekSize + IvSize;
    var result := new byte[headerSize + |ciphertext.value|];
    var offset := 0;
    SetAt(result, salt, offset);
    offset := offset + SaltSize;
    assert result[..offset] == salt;
    SetAt(result, ivKek, offset);
    offset := offset + IvSize;
    assert result[..offset] == salt + ivKek;
    SetAt(result, encryptedDek.value, offset);
    offset := offset + EncryptedDekSize;
    assert result[..offset] == salt + ivKek + encryptedDek.value;
    SetAt(result, ivData, offset);
    offset := offset + IvSize;
    assert result[..offset] == salt + ivKek + encryptedDek.value + ivData;
    SetAt(result, ciphertext.value, offset);
    r := Encrypted(result[..], |fileData|, |ciphertext.value|, result.Length, headerSize);
  }

  // ---------------------------------------------------------------- decryptFile

  /** The generic message itself names a wrong password. */
  lemma GenericMessageNamesMarker()
    ensures Includes(WrongPasswordMessage, WrongPasswordMarker)
  {
    PrefixIncluded(WrongPasswordMessage, WrongPasswordMarker);
  }

  /** The `catch` of `decryptFile`: an `OperationError` or a message naming a
      wrong password becomes the one generic message; any other error keeps its own. */
  function Classify(e: JsError): (r: string)
    ensures r == WrongPasswordMessage <==> e.name == OperationError || Includes(e.message, WrongPasswordMarker)
    ensures r != WrongPasswordMessage ==> r == e.message
  {
    GenericMessageNamesMarker();
    if e.name == OperationError || Includes(e.message, WrongPasswordMarker) then WrongPasswordMessage
    else e.message
  }

  /** The `try` block of `decryptFile`: size check and slicing, KEK derivation,
      DEK unwrap (any failure rethrown as the wrong-password error), payload opening. */
  function OpenEnvelope(c: Primitives, encryptedData: Bytes, password: string): (r: Outcome<Bytes>)
    ensures |encryptedData| < MinSize ==> r == Throw(BadFormat)
    ensures |encryptedData| >= MinSize && |password| < MinPasswordLength ==> r == Throw(PasswordTooShort)
    ensures HonoursLengths(c) && r.Ok? ==> |r.value| + MinSize == |encryptedData|
  {
    var env :- Parse(encryptedData);
    var kek :- GenerateKek(c, password, env.salt);
    var dek :- match DecryptDek(c, env.encryptedDek, kek, env.ivKek)
               case Ok(d) => Ok(d)
               case Throw(_) => Throw(DekUnwrapFailed);
    c.gcmDecrypt(dek, env.ivData, env.ciphertext)
  }

  /** `decryptFile` as a function of its inputs. */
  function DecryptSpec(c: Primitives, encryptedData: Bytes, password: string): (r: DecryptResult)
    ensures r.Decrypted? ==> r.size == |r.data|
    ensures HonoursLengths(c) && r.Decrypted? ==> r.size + MinSize == |encryptedData|
  {
    match OpenEnvelope(c, encryptedData, password)
    case Ok(plaintext) => Decrypted(plaintext, |plaintext|)
    case Throw(e) => DecryptFailed(Classify(e))
  }

  /** `decryptFile`: checks the size, then slices the input at a running offset. */
  method DecryptFile(c: Primitives, encryptedData: Bytes, password: string) returns (r: DecryptResult)
    ensures r == DecryptSpec(c, encryptedData, password)
  {
    var minSize := SaltSize + IvSize + EncryptedDekSize + IvSize + AuthTagSize;
    if |encryptedData| < minSize {
      return DecryptFailed(Classify(BadFormat));
    }
    var offset := 0;
    var salt := encryptedData[offset..offset + SaltSize];
    offset := offset + SaltSize;
    var ivKek := encryptedData[offset..offset + IvSize];
    offset := offset + IvSize;
    var encryptedDek := encryptedData[offset..offset + EncryptedDekSize];
    offset := offset + EncryptedDekSize;
    var ivData := encryptedData[offset..offset + IvSize];
    offset := offset + IvSize;
    var ciphertext := encryptedData[offset..];

    var kek := GenerateKek(c, password, salt);
    if kek.Throw? {
      return DecryptFailed(Classify(kek.error));
    }
    var dek := DecryptDek(c, encryptedDek, kek.value, ivKek);
    if dek.Throw? {
      return DecryptFailed(Classify(DekUnwrapFailed));
    }
    var plaintext := c.gcmDecrypt(dek.value, ivData, ciphertext);
    if plaintext.Throw? {
      return DecryptFailed(Classify(plaintext.error));
    }
    return Decrypted(plaintext.value, |plaintext.value|);
  }

  // ---------------------------------------------------------------- properties

  /** The format message has no "і", the fourth letter of the marker. */
  lemma BadFormatLacksMarkerLetter()
    ensures WrongPasswordMarker[3] !in BadFormatMessage
  {
    assert BadFormatMessage == "Неправильний формат файлу" + " (файл занадто малий)";
  }

  /** The format message is passed through by the `catch`, not replaced. */
  lemma BadFormatPassesThrough()
    ensures Classify(BadFormat) == BadFormatMessage
  {
    BadFormatLacksMarkerLetter();
    MissingCharNotIncluded(BadFormatMessage, WrongPasswordMarker, 3);
  }

  /** The policy message has no capital "Н", the first letter of the marker. */
  lemma PasswordTooShortLacksMarkerLetter()
    ensures WrongPasswordMarker[0] !in PasswordTooShortMessage
  {
    assert PasswordTooShortMessage == "Пароль повинен містити" + " мінімум 12 символів";
  }

  /** The policy message is passed through by the `catch`, not replaced. */
  lemma PasswordTooShortPassesThrough()
    ensures Classify(PasswordTooShort) == PasswordTooShortMessage
  {
    PasswordTooShortLacksMarkerLetter();
    MissingCharNotIncluded(PasswordTooShortMessage, WrongPasswordMarker, 0);
  }

  /** The rethrown unwrap error names a wrong password, so it becomes the generic message. */
  lemma DekUnwrapBecomesGeneric()
    ensures Classify(DekUnwrapFailed) == WrongPasswordMessage
  {
    PrefixIncluded(DekUnwrapMessage, WrongPasswordMarker);
  }

  /** A short password makes encryption fail with the policy message, whatever
      the primitives would have done. */
  lemma EncryptRejectsShortPassword(c: Primitives, fileData: Bytes, password: string,
                                    salt: Bytes, ivKek: Bytes, ivData: Bytes, dek: Bytes)
    requires |password| < MinPasswordLength
    ensures EncryptSpec(c, fileData, password, salt, ivKek, ivData, dek) == EncryptFailed(PasswordTooShortMessage)
  {
  }

  /** Encryption succeeds exactly when the password passes the policy and the
      three primitive calls succeed; otherwise nothing but a message comes back. */
  lemma EncryptSucceedsIff(c: Primitives, fileData: Bytes, password: string,
                           salt: Bytes, ivKek: Bytes, ivData: Bytes, dek: Bytes)
    ensures EncryptSpec(c, fileData, password, salt, ivKek, ivData, dek).Encrypted? <==>
      && |password| >= MinPasswordLength
      && c.pbkdf2(password, salt, Pbkdf2Iterations, 256).Ok?
      && c.gcmEncrypt(c.pbkdf2(password, salt, Pbkdf2Iterations, 256).value, ivKek, dek).Ok?
      && c.gcmEncrypt(dek, ivData, fileData).Ok?
  {
  }

  /** A successful encryption reports its sizes truthfully: the envelope is
      `headerSize` = 88 bytes longer than the ciphertext, which is the file
      plus a 16-byte tag, so 104 bytes longer than the file; salt and IVs sit
      at their offsets and parse back. */
  lemma EncryptedLayout(c: Primitives, fileData: Bytes, password: string,
                        salt: Bytes, ivKek: Bytes, ivData: Bytes, dek: Bytes)
    requires HonoursLengths(c)
    requires |salt| == SaltSize && |ivKek| == IvSize && |ivData| == IvSize && |dek| == DekSize
    requires EncryptSpec(c, fileData, password, salt, ivKek, ivData, dek).Encrypted?
    ensures var r := EncryptSpec(c, fileData, password, salt, ivKek, ivData, dek);
      && r.headerSize == 88
      && r.originalSize == |fileData|
      && r.encryptedSize == |fileData| + AuthTagSize
      && r.totalSize == |r.data| == r.headerSize + r.encryptedSize == |fileData| + MinSize
      && r.data[0..16] == salt && r.data[16..28] == ivKek && r.data[76..88] == ivData
      && Parse(r.data).Ok? && Parse(r.data).value.salt == salt
      && Parse(r.data).value.ivKek == ivKek && Parse(r.data).value.ivData == ivData
  {
    var env := SealEnvelope(c, fileData, password, salt, ivKek, ivData, dek).value;
    FieldOffsets(env);
    ParseSerialize(env);
  }

  /** Any input shorter than 104 bytes fails with the format message, before
      the password or any primitive is consulted. */
  lemma DecryptRejectsShortInput(c: Primitives, encryptedData: Bytes, password: string)
    requires |encryptedData| < MinSize
    ensures DecryptSpec(c, encryptedData, password) == DecryptFailed(BadFormatMessage)
  {
    BadFormatPassesThrough();
  }

  /** On an input of the minimum size or more, a short password fails with the
      policy message, not the generic one. */
  lemma DecryptRejectsShortPassword(c: Primitives, encryptedData: Bytes, password: string)
    requires |encryptedData| >= MinSize && |password| < MinPasswordLength
    ensures DecryptSpec(c, encryptedData, password) == DecryptFailed(PasswordTooShortMessage)
  {
    PasswordTooShortPassesThrough();
  }

  /** Once the KEK is derived, every failure to unwrap the DEK, including a key
      of the wrong size, is reported with the one generic message. */
  lemma DekUnwrapFailureIsGeneric(c: Primitives, encryptedData: Bytes, password: string)
    requires Parse(encryptedData).Ok?
    requires var env := Parse(encryptedData).value;
      && GenerateKek(c, password, env.salt).Ok?
      && DecryptDek(c, env.encryptedDek, GenerateKek(c, password, env.salt).value, env.ivKek).Throw?
    ensures DecryptSpec(c, encryptedData, password) == DecryptFailed(WrongPasswordMessage)
  {
    DekUnwrapBecomesGeneric();
  }

  /** An `OperationError` from opening the payload (a wrong tag) is reported with
      the same generic message as a failed unwrap. */
  lemma PayloadTagFailureIsGeneric(c: Primitives, encryptedData: Bytes, password: string)
    requires Parse(encryptedData).Ok?
    requires var env := Parse(encryptedData).value;
      var kek := GenerateKek(c, password, env.salt);
      && kek.Ok?
      && DecryptDek(c, env.encryptedDek, kek.value, env.ivKek).Ok?
      && var dek := DecryptDek(c, env.encryptedDek, kek.value, env.ivKek).value;
         c.gcmDecrypt(dek, env.ivData, env.ciphertext).Throw?
         && c.gcmDecrypt(dek, env.ivData, env.ciphertext).error.name == OperationError
    ensures DecryptSpec(c, encryptedData, password) == DecryptFailed(WrongPasswordMessage)
  {
  }

  /** Decrypting what encryption produced, with the same password, gives the file back. */
  lemma RoundTrip(c: Primitives, fileData: Bytes, password: string,
                  salt: Bytes, ivKek: Bytes, ivData: Bytes, dek: Bytes)
    requires HonoursLengths(c) && Inverts(c)
    requires |salt| == SaltSize && |ivKek| == IvSize && |ivData| == IvSize && |dek| == DekSize
    requires EncryptSpec(c, fileData, password, salt, ivKek, ivData, dek).Encrypted?
    ensures var data := EncryptSpec(c, fileData, password, salt, ivKek, ivData, dek).data;
      DecryptSpec(c, data, password) == Decrypted(fileData, |fileData|)
  {
    var env := SealEnvelope(c, fileData, password, salt, ivKek, ivData, dek).value;
    ParseSerialize(env);
  }
}
