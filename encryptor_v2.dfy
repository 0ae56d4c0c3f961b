/** `FileEncryptorV2`: the earlier hybrid layout, AES-256-CBC throughout and
    no password policy. The envelope is
      salt(16) ‖ IV_KEK(16) ‖ wrappedDEK(48) ‖ IV_data(16) ‖ ciphertext
    where the wrapped DEK is the 32-byte key plus one block of PKCS#7 padding. */
module EncryptorV2 {
  import opened Common
  import opened WebCrypto
  import opened Buffers

  const SaltSize: nat := 16
  const IvSize: nat := 16
  const DekSize: nat := 32
  const KekSize: nat := 32
  const EncryptedDekSize: nat := 48
  const Pbkdf2Iterations: nat := 100000

  /** `headerSize` of `encryptFile`, which is also `minSize` of `decryptFile`. */
  const HeaderSize: nat := SaltSize + IvSize + EncryptedDekSize + IvSize

  /** Thrown by `decryptFile` for an input below `minSize`. */
  const BadFormatMessage: string := "Неправильний формат файлу (файл занадто малий)"

  /** What `decryptFile` rethrows when unwrapping the DEK fails in any way. */
  const DekUnwrapMessage: string := "Невірний пароль або пошкоджений ключ"

  /** The text whose presence in a message marks a wrong-password error. */
  const WrongPasswordMarker: string := "Невірний пароль"

  /** The generic message `decryptFile` reports for a wrong password or damaged data. */
  const WrongPasswordMessage: string := "Невірний пароль або пошкоджений файл"

  const BadFormat: JsError := JsError(PlainError, BadFormatMessage)
  const DekUnwrapFailed: JsError := JsError(PlainError, DekUnwrapMessage)

  /** Thrown by `decryptDEK` for an unwrapped key shorter than 32 bytes. */
  function DekSizeError(length: nat): JsError {
    JsError(PlainError, "DEK має неправильний розмір: " + DecimalString(length) + " (очікувалось 32)")
  }

  // ---------------------------------------------------------------- key handling

  /** `generateKEKFromPassword`: PBKDF2 with 100 000 iterations and 256 output
      bits, with no check of the password at all. */
  function GenerateKek(c: Primitives, password: string, salt: Bytes): (r: Outcome<Bytes>)
    ensures HonoursLengths(c) && r.Ok? ==> |r.value| == KekSize
  {
    c.pbkdf2(password, salt, Pbkdf2Iterations, KekSize * 8)
  }

  /** `decryptDEK`: AES-CBC decryption of the wrapped key; a result of 32 bytes
      or more is accepted and cut to its first 32 bytes. */
  function DecryptDek(c: Primitives, encryptedDek: Bytes, kek: Bytes, iv: Bytes): (r: Outcome<Bytes>)
    ensures r.Ok? <==> c.cbcDecrypt(kek, iv, encryptedDek).Ok? && |c.cbcDecrypt(kek, iv, encryptedDek).value| >= DekSize
    ensures r.Ok? ==> r.value == c.cbcDecrypt(kek, iv, encryptedDek).value[..DekSize]
  {
    var dek :- c.cbcDecrypt(kek, iv, encryptedDek);
    if |dek| < DekSize then Throw(DekSizeError(|dek|)) else Ok(dek[..DekSize])
  }

  /** Unwrapping a key wrapped under the same KEK and IV gives the key back. */
  lemma DecryptDekInvertsWrap(c: Primitives, dek: Bytes, kek: Bytes, iv: Bytes)
    requires Inverts(c) && |dek| == DekSize && c.cbcEncrypt(kek, iv, dek).Ok?
    ensures DecryptDek(c, c.cbcEncrypt(kek, iv, dek).value, kek, iv) == Ok(dek)
  {
    assert dek[..DekSize] == dek;
  }

  /** On a 48-byte wrapped key the size check can never fire: CBC removes
      between 1 and 16 bytes of padding, which leaves at least 32. */
  lemma DekSizeCheckNeverFires(c: Primitives, encryptedDek: Bytes, kek: Bytes, iv: Bytes)
    requires HonoursLengths(c) && |encryptedDek| == EncryptedDekSize
    ensures DecryptDek(c, encryptedDek, kek, iv).Ok? <==> c.cbcDecrypt(kek, iv, encryptedDek).Ok?
  {
  }

  // ---------------------------------------------------------------- envelope codec

  datatype Envelope = Envelope(salt: Bytes, ivKek: Bytes, encryptedDek: Bytes, ivData: Bytes, ciphertext: Bytes)

  /** The fixed widths of the four header fields. */
  predicate HasFieldWidths(e: Envelope) {
    |e.salt| == SaltSize && |e.ivKek| == IvSize && |e.encryptedDek| == EncryptedDekSize && |e.ivData| == IvSize
  }

  /** The envelope's bytes: the fields back to back, without delimiters. */
  function Serialize(e: Envelope): (b: Bytes)
    ensures HasFieldWidths(e) ==> |b| == HeaderSize + |e.ciphertext|
  {
    e.salt + e.ivKek + e.encryptedDek + e.ivData + e.ciphertext
  }

  /** The size check and the slicing of `decryptFile`: below 96 bytes the input
      is rejected; otherwise the fields are cut at fixed offsets. */
  function Parse(b: Bytes): (r: Outcome<Envelope>)
    ensures r.Ok? <==> |b| >= HeaderSize
    ensures r.Throw? ==> r.error == BadFormat
    ensures r.Ok? ==> HasFieldWidths(r.value) && |r.value.ciphertext| == |b| - HeaderSize
  {
    if |b| < HeaderSize then Throw(BadFormat)
    else
      Ok(Envelope(b[..16], b[16..32], b[32..80], b[80..96], b[96..]))
  }

  /** Salt, IV_KEK, wrapped DEK, IV_data and ciphertext sit at offsets 0, 16, 32, 80 and 96. */
  lemma FieldOffsets(e: Envelope)
    requires HasFieldWidths(e)
    ensures var b := Serialize(e);
      && b[0..16] == e.salt && b[16..32] == e.ivKek && b[32..80] == e.encryptedDek
      && b[80..96] == e.ivData && b[96..] == e.ciphertext
  {
    var b := Serialize(e);
    assert b == e.salt + (e.ivKek + (e.encryptedDek + (e.ivData + e.ciphertext)));
  }

  /** Parsing a serialized envelope gives every field back, the empty
      ciphertext included. */
  lemma ParseSerialize(e: Envelope)
    requires HasFieldWidths(e)
    ensures Parse(Serialize(e)) == Ok(e)
  {
    FieldOffsets(e);
  }

  /** Serializing the fields of a parsed input gives the input back. */
  lemma SerializeParse(b: Bytes)
    requires Parse(b).Ok?
    ensures Serialize(Parse(b).value) == b
  {
    assert b == b[..16] + b[16..32] + b[32..80] + b[80..96] + b[96..];
  }

  // ---------------------------------------------------------------- encryptFile

  /** What `encryptFile` returns. A failure carries no data. */
  datatype EncryptResult =
    | Encrypted(data: Bytes, originalSize: nat, encryptedSize: nat, totalSize: nat, headerSize: nat)
    | EncryptFailed(error: string)

  /** Steps 3 to 6 of `encryptFile`: derive the KEK, wrap the DEK, encrypt the file. */
  function SealEnvelope(c: Primitives, fileData: Bytes, password: string,
                        salt: Bytes, ivKek: Bytes, ivData: Bytes, dek: Bytes): (r: Outcome<Envelope>)
    ensures r.Ok? ==> r.value.salt == salt && r.value.ivKek == ivKek && r.value.ivData == ivData
    ensures HonoursLengths(c) && |dek| == DekSize && r.Ok? ==>
      && |r.value.encryptedDek| == EncryptedDekSize
      && |r.value.ciphertext| == (|fileData| / AesBlockSize + 1) * AesBlockSize
  {
    var kek :- GenerateKek(c, password, salt);
    var encryptedDek :- c.cbcEncrypt(kek, ivKek, dek);
    var ciphertext :- c.cbcEncrypt(dek, ivData, fileData);
    Ok(Envelope(salt, ivKek, encryptedDek, ivData, ciphertext))
  }

  /** `encryptFile` as a function of its inputs and of the random salt, IVs and DEK. */
  function EncryptSpec(c: Primitives, fileData: Bytes, password: string,
                       salt: Bytes, ivKek: Bytes, ivData: Bytes, dek: Bytes): (r: EncryptResult)
    ensures r.Encrypted? ==> r.originalSize == |fileData| && r.totalSize == |r.data| && r.headerSize == HeaderSize
    ensures r.Encrypted? ==> salt <= r.data
  {
    match SealEnvelope(c, fileData, password, salt, ivKek, ivData, dek)
    case Throw(e) => EncryptFailed(e.message)
    case Ok(env) =>
      var data := Serialize(env);
      Encrypted(data, |fileData|, |env.ciphertext|, |data|, HeaderSize)
  }

  /** `encryptFile`: the result buffer is allocated at its final size and
      filled field by field at a running offset. */
  method EncryptFile(c: Primitives, fileData: Bytes, password: string,
                     salt: Bytes, ivKek: Bytes, ivData: Bytes, dek: Bytes) returns (r: EncryptResult)
    requires HonoursLengths(c)
    requires |salt| == SaltSize && |ivKek| == IvSize && |ivData| == IvSize && |dek| == DekSize
    ensures r == EncryptSpec(c, fileData, password, salt, ivKek, ivData, dek)
  {
    var kek := GenerateKek(c, password, salt);
    if kek.Throw? {
      return EncryptFailed(kek.error.message);
    }
    var encryptedDek := c.cbcEncrypt(kek.value, ivKek, dek);
    if encryptedDek.Throw? {
      return EncryptFailed(encryptedDek.error.message);
    }
    var ciphertext := c.cbcEncrypt(dek, ivData, fileData);
    if ciphertext.Throw? {
      return EncryptFailed(ciphertext.error.message);
    }
    var headerSize := SaltSize + IvSize + EncryptedDekSize + IvSize;
    var result := new byte[headerSize + |ciphertext.value|];
    var offset := 0;
    SetAt(result, salt, offset);
    offset := offset + SaltSize;
    assert result[..offset] == salt;
    SetAt(result, ivKek, offset);
    offset := offset + IvSize;
    assert result[..offset] == salt + ivKek;
    SetAt(result, encryptedDek.value, offset);
    offset := offset + EncryptedDekSize;
    assert result[..offset] == salt + ivKek + encryptedDek.value;
    SetAt(result, ivData, offset);
    offset := offset + IvSize;
    assert result[..offset] == salt + ivKek + encryptedDek.value + ivData;
    SetAt(result, ciphertext.value, offset);
    r := Encrypted(result[..], |fileData|, |ciphertext.value|, result.Length, headerSize);
  }

  // ---------------------------------------------------------------- decryptFile

  /** The generic message itself names a wrong password. */
  lemma GenericMessageNamesMarker()
    ensures Includes(WrongPasswordMessage, WrongPasswordMarker)
  {
    PrefixIncluded(WrongPasswordMessage, WrongPasswordMarker);
  }

  /** The `catch` of `decryptFile`: an `OperationError` or a message naming a
      wrong password becomes the generic message; any other error keeps its own. */
  function Classify(e: JsError): (r: string)
    ensures r == WrongPasswordMessage <==> e.name == OperationError || Includes(e.message, WrongPasswordMarker)
    ensures r != WrongPasswordMessage ==> r == e.message
  {
    GenericMessageNamesMarker();
    if e.name == OperationError || Includes(e.message, WrongPasswordMarker) then WrongPasswordMessage
    else e.message
  }

  /** The `try` block of `decryptFile`: size check and slicing, KEK derivation,
      DEK unwrap (any failure rethrown as the wrong-password error), payload decryption. */
  function OpenEnvelope(c: Primitives, encryptedData: Bytes, password: string): (r: Outcome<Bytes>)
    ensures |encryptedData| < HeaderSize ==> r == Throw(BadFormat)
    ensures HonoursLengths(c) && r.Ok? ==>
      && (|encryptedData| - HeaderSize) % AesBlockSize == 0
      && |encryptedData| - HeaderSize - AesBlockSize <= |r.value| < |encryptedData| - HeaderSize
  {
    var env :- Parse(encryptedData);
    var kek :- GenerateKek(c, password, env.salt);
    var dek :- match DecryptDek(c, env.encryptedDek, kek, env.ivKek)
               case Ok(d) => Ok(d)
               case Throw(_) => Throw(DekUnwrapFailed);
    c.cbcDecrypt(dek, env.ivData, env.ciphertext)
  }

  /** `decryptFile` as a function of its inputs. */
  function DecryptSpec(c: Primitives, encryptedData: Bytes, password: string): (r: DecryptResult)
    ensures r.Decrypted? ==> r.size == |r.data|
    ensures HonoursLengths(c) && r.Decrypted? ==> HeaderSize + r.size < |encryptedData|
  {
    match OpenEnvelope(c, encryptedData, password)
    case Ok(plaintext) => Decrypted(plaintext, |plaintext|)
    case Throw(e) => DecryptFailed(Classify(e))
  }

  /** `decryptFile`: checks the size, then slices the input at a running offset. */
  method DecryptFile(c: Primitives, encryptedData: Bytes, password: string) returns (r: DecryptResult)
    ensures r == DecryptSpec(c, encryptedData, password)
  {
    var minSize := SaltSize + IvSize + EncryptedDekSize + IvSize;
    if |encryptedData| < minSize {
      return DecryptFailed(Classify(BadFormat));
    }
    var offset := 0;
    var salt := encryptedData[offset..offset + SaltSize];
    offset := offset + SaltSize;
    var ivKek := encryptedData[offset..offset + IvSize];
    offset := offset + IvSize;
    var encryptedDek := encryptedData[offset..offset + EncryptedDekSize];
    offset := offset + EncryptedDekSize;
    var ivData := encryptedData[offset..offset + IvSize];
    offset := offset + IvSize;
    var ciphertext := encryptedData[offset..];

    var kek := GenerateKek(c, password, salt);
    if kek.Throw? {
      return DecryptFailed(Classify(kek.error));
    }
    var dek := DecryptDek(c, encryptedDek, kek.value, ivKek);
    if dek.Throw? {
      return DecryptFailed(Classify(DekUnwrapFailed));
    }
    var plaintext := c.cbcDecrypt(dek.value, ivData, ciphertext);
    if plaintext.Throw? {
      return DecryptFailed(Classify(plaintext.error));
    }
    return Decrypted(plaintext.value, |plaintext.value|);
  }

  // ---------------------------------------------------------------- properties

  /** The format message has no "і", the fourth letter of the marker. */
  lemma BadFormatLacksMarkerLetter()
    ensures WrongPasswordMarker[3] !in BadFormatMessage
  {
    assert BadFormatMessage == "Неправильний формат файлу" + " (файл занадто малий)";
  }

  /** The format message is passed through by the `catch`, not replaced. */
  lemma BadFormatPassesThrough()
    ensures Classify(BadFormat) == BadFormatMessage
  {
    BadFormatLacksMarkerLetter();
    MissingCharNotIncluded(BadFormatMessage, WrongPasswordMarker, 3);
  }

  /** The rethrown unwrap error names a wrong password, so it becomes the generic message. */
  lemma DekUnwrapBecomesGeneric()
    ensures Classify(DekUnwrapFailed) == WrongPasswordMessage
  {
    PrefixIncluded(DekUnwrapMessage, WrongPasswordMarker);
  }

  /** With no password policy, encryption succeeds for every password, the
      empty one included, as soon as the three primitive calls succeed. */
  lemma EncryptSucceedsIff(c: Primitives, fileData: Bytes, password: string,
                           salt: Bytes, ivKek: Bytes, ivData: Bytes, dek: Bytes)
    ensures EncryptSpec(c, fileData, password, salt, ivKek, ivData, dek).Encrypted? <==>
      && c.pbkdf2(password, salt, Pbkdf2Iterations, 256).Ok?
      && c.cbcEncrypt(c.pbkdf2(password, salt, Pbkdf2Iterations, 256).value, ivKek, dek).Ok?
      && c.cbcEncrypt(dek, ivData, fileData).Ok?
  {
  }

  /** A successful encryption reports its sizes truthfully: the envelope is
      `headerSize` = 96 bytes longer than the ciphertext, and the fields sit at
      0, 16, 32, 80 and 96. */
  lemma EncryptedLayout(c: Primitives, fileData: Bytes, password: string,
                        salt: Bytes, ivKek: Bytes, ivData: Bytes, dek: Bytes)
    requires HonoursLengths(c)
    requires |salt| == SaltSize && |ivKek| == IvSize && |ivData| == IvSize && |dek| == DekSize
    requires EncryptSpec(c, fileData, password, salt, ivKek, ivData, dek).Encrypted?
    ensures var r := EncryptSpec(c, fileData, password, salt, ivKek, ivData, dek);
      && r.headerSize == 96
      && r.originalSize == |fileData|
      && r.encryptedSize == (|fileData| / AesBlockSize + 1) * AesBlockSize
      && r.totalSize == |r.data| == r.headerSize + r.encryptedSize
      && r.data[0..16] == salt && r.data[16..32] == ivKek && r.data[80..96] == ivData
      && Parse(r.data).Ok? && Parse(r.data).value.salt == salt
  {
    var env := SealEnvelope(c, fileData, password, salt, ivKek, ivData, dek).value;
    FieldOffsets(env);
    ParseSerialize(env);
  }

  /** Any input shorter than 96 bytes fails with the format message, before
      any primitive is consulted. */
  lemma DecryptRejectsShortInput(c: Primitives, encryptedData: Bytes, password: string)
    requires |encryptedData| < HeaderSize
    ensures DecryptSpec(c, encryptedData, password) == DecryptFailed(BadFormatMessage)
  {
    BadFormatPassesThrough();
  }

  /** A 96-byte input passes the size check with an empty ciphertext, and every
      password, the empty one included, goes on to key derivation: what PBKDF2
      throws is what decryption reports. */
  lemma AnyPasswordReachesKeyDerivation(c: Primitives, encryptedData: Bytes, password: string)
    requires |encryptedData| >= HeaderSize
    requires c.pbkdf2(password, encryptedData[..16], Pbkdf2Iterations, 256).Throw?
    ensures Parse(encryptedData).Ok?
    ensures |encryptedData| == HeaderSize ==> Parse(encryptedData).value.ciphertext == []
    ensures DecryptSpec(c, encryptedData, password)
         == DecryptFailed(Classify(c.pbkdf2(password, encryptedData[..16], Pbkdf2Iterations, 256).error))
  {
  }

  /** A 96-byte input, whose ciphertext is empty, can never decrypt. */
  lemma EmptyCiphertextNeverDecrypts(c: Primitives, encryptedData: Bytes, password: string)
    requires HonoursLengths(c) && |encryptedData| == HeaderSize
    ensures DecryptSpec(c, encryptedData, password).DecryptFailed?
  {
    var env := Parse(encryptedData).value;
    var kek := GenerateKek(c, password, env.salt);
    if kek.Ok? {
      var dek := DecryptDek(c, env.encryptedDek, kek.value, env.ivKek);
      if dek.Ok? {
        CbcRejectsEmpty(c, dek.value, env.ivData);
      }
    }
  }

  /** Once the KEK is derived, every failure to unwrap the DEK is reported with
      the generic message. */
  lemma DekUnwrapFailureIsGeneric(c: Primitives, encryptedData: Bytes, password: string)
    requires Parse(encryptedData).Ok?
    requires var env := Parse(encryptedData).value;
      && GenerateKek(c, password, env.salt).Ok?
      && DecryptDek(c, env.encryptedDek, GenerateKek(c, password, env.salt).value, env.ivKek).Throw?
    ensures DecryptSpec(c, encryptedData, password) == DecryptFailed(WrongPasswordMessage)
  {
    DekUnwrapBecomesGeneric();
  }

  /** Decrypting what encryption produced, with the same password, gives the file back. */
  lemma RoundTrip(c: Primitives, fileData: Bytes, password: string,
                  salt: Bytes, ivKek: Bytes, ivData: Bytes, dek: Bytes)
    requires HonoursLengths(c) && Inverts(c)
    requires |salt| == SaltSize && |ivKek| == IvSize && |ivData| == IvSize && |dek| == DekSize
    requires EncryptSpec(c, fileData, password, salt, ivKek, ivData, dek).Encrypted?
    ensures var data := EncryptSpec(c, fileData, password, salt, ivKek, ivData, dek).data;
      DecryptSpec(c, data, password) == Decrypted(fileData, |fileData|)
  {
    var env := SealEnvelope(c, fileData, password, salt, ivKek, ivData, dek).value;
    ParseSerialize(env);
    DecryptDekInvertsWrap(c, dek, GenerateKek(c, password, salt).value, ivKek);
  }
}
