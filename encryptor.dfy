/** `FileEncryptor`: the original layout, the one the app instantiates. The
    password-derived key encrypts the file directly with AES-256-CBC; the
    envelope is
      salt(16) ‖ IV(16) ‖ ciphertext */
module EncryptorV1 {
  import opened Common
  import opened WebCrypto
  import opened Buffers

  const SaltSize: nat := 16
  const IvSize: nat := 16
  const KeySize: nat := 32
  const Pbkdf2Iterations: nat := 100000

  /** The smallest input `decryptFile` accepts: salt and IV. */
  const MinSize: nat := SaltSize + IvSize

  /** Thrown by `decryptFile` for an input below 32 bytes. */
  const BadFormatMessage: string := "Неправильний формат файлу (файл занадто малий)"

  /** What `decryptFile` reports for an `OperationError`. */
  const WrongPasswordMessage: string := "Невірний пароль або пошкоджений файл"

  const BadFormat: JsError := JsError(PlainError, BadFormatMessage)

  /** `generateKeyFromPassword`: PBKDF2 with 100 000 iterations and 256 output bits. */
  function GenerateKey(c: Primitives, password: string, salt: Bytes): (r: Outcome<Bytes>)
    ensures HonoursLengths(c) && r.Ok? ==> |r.value| == KeySize
  {
    c.pbkdf2(password, salt, Pbkdf2Iterations, KeySize * 8)
  }

  // ---------------------------------------------------------------- envelope codec

  datatype Envelope = Envelope(salt: Bytes, iv: Bytes, ciphertext: Bytes)

  predicate HasFieldWidths(e: Envelope) {
    |e.salt| == SaltSize && |e.iv| == IvSize
  }

  /** The envelope's bytes: salt, IV and ciphertext back to back. */
  function Serialize(e: Envelope): (b: Bytes)
    ensures HasFieldWidths(e) ==> |b| == MinSize + |e.ciphertext|
  {
    e.salt + e.iv + e.ciphertext
  }

  /** The size check and the slicing of `decryptFile`: salt = bytes [0, 16),
      IV = bytes [16, 32), ciphertext = the rest. */
  function Parse(b: Bytes): (r: Outcome<Envelope>)
    ensures r.Ok? <==> |b| >= MinSize
    ensures r.Throw? ==> r.error == BadFormat
    ensures r.Ok? ==> HasFieldWidths(r.value) && |r.value.ciphertext| == |b| - MinSize
  {
    if |b| < SaltSize + IvSize then Throw(BadFormat)
    else Ok(Envelope(b[..SaltSize], b[SaltSize..SaltSize + IvSize], b[SaltSize + IvSize..]))
  }

  /** Salt, IV and ciphertext sit at offsets 0, 16 and 32. */
  lemma FieldOffsets(e: Envelope)
    requires HasFieldWidths(e)
    ensures var b := Serialize(e);
      b[0..16] == e.salt && b[16..32] == e.iv && b[32..] == e.ciphertext
  {
    var b := Serialize(e);
    assert b == e.salt + (e.iv + e.ciphertext);
  }

  /** Parsing a serialized envelope gives every field back. */
  lemma ParseSerialize(e: Envelope)
    requires HasFieldWidths(e)
    ensures Parse(Serialize(e)) == Ok(e)
  {
    FieldOffsets(e);
  }

  /** Serializing the fields of a parsed input gives the input back. */
  lemma SerializeParse(b: Bytes)
    requires Parse(b).Ok?
    ensures Serialize(Parse(b).value) == b
  {
    assert b == b[..16] + b[16..32] + b[32..];
  }

  // ---------------------------------------------------------------- encryptFile

  /** What `encryptFile` returns. A failure carries no data. */
  datatype EncryptResult =
    | Encrypted(data: Bytes, originalSize: nat, encryptedSize: nat, totalSize: nat)
    | EncryptFailed(error: string)

  /** The key derivation and encryption of `encryptFile`. */
  function SealEnvelope(c: Primitives, fileData: Bytes, password: string, salt: Bytes, iv: Bytes): (r: Outcome<Envelope>)
    ensures r.Ok? ==> r.value.salt == salt && r.value.iv == iv
    ensures HonoursLengths(c) && r.Ok? ==> |r.value.ciphertext| == (|fileData| / AesBlockSize + 1) * AesBlockSize
  {
    var key :- GenerateKey(c, password, salt);
    var ciphertext :- c.cbcEncrypt(key, iv, fileData);
    Ok(Envelope(salt, iv, ciphertext))
  }

  /** `encryptFile` as a function of its inputs and of the random salt and IV. */
  function EncryptSpec(c: Primitives, fileData: Bytes, password: string, salt: Bytes, iv: Bytes): (r: EncryptResult)
    ensures r.Encrypted? ==> r.originalSize == |fileData| && r.totalSize == |r.data|
    ensures r.Encrypted? ==> salt <= r.data
  {
    match SealEnvelope(c, fileData, password, salt, iv)
    case Throw(e) => EncryptFailed(e.message)
    case Ok(env) =>
      var data := Serialize(env);
      Encrypted(data, |fileData|, |env.ciphertext|, |data|)
  }

  /** `encryptFile`: salt, IV and ciphertext are written into a buffer of the
      final size at offsets 0, 16 and 32. */
  method EncryptFile(c: Primitives, fileData: Bytes, password: string, salt: Bytes, iv: Bytes)
    returns (r: EncryptResult)
    requires |salt| == SaltSize && |iv| == IvSize
    ensures r == EncryptSpec(c, fileData, password, salt, iv)
  {
    var key := GenerateKey(c, password, salt);
    if key.Throw? {
      return EncryptFailed(key.error.message);
    }
    var ciphertext := c.cbcEncrypt(key.value, iv, fileData);
    if ciphertext.Throw? {
      return EncryptFailed(ciphertext.error.message);
    }
    var result := new byte[SaltSize + IvSize + |ciphertext.value|];
    SetAt(result, salt, 0);
    SetAt(result, iv, SaltSize);
    assert result[..SaltSize + IvSize] == salt + iv;
    SetAt(result, ciphertext.value, SaltSize + IvSize);
    r := Encrypted(result[..], |fileData|, |ciphertext.value|, result.Length);
  }

  // ---------------------------------------------------------------- decryptFile

  /** The `catch` of `decryptFile`: only an `OperationError` becomes the generic
      message; every other error, whatever its text, keeps its own message. */
  function Classify(e: JsError): (r: string)
    ensures r == WrongPasswordMessage <==> e.name == OperationError || e.message == WrongPasswordMessage
    ensures r != WrongPasswordMessage ==> r == e.message
  {
    if e.name == OperationError then WrongPasswordMessage else e.message
  }

  /** The `try` block of `decryptFile`. */
  function OpenEnvelope(c: Primitives, encryptedData: Bytes, password: string): (r: Outcome<Bytes>)
    ensures |encryptedData| < MinSize ==> r == Throw(BadFormat)
    ensures HonoursLengths(c) && r.Ok? ==>
      && (|encryptedData| - MinSize) % AesBlockSize == 0
      && |encryptedData| - MinSize - AesBlockSize <= |r.value| < |encryptedData| - MinSize
  {
    var env :- Parse(encryptedData);
    var key :- GenerateKey(c, password, env.salt);
    c.cbcDecrypt(key, env.iv, env.ciphertext)
  }

  /** `decryptFile` as a function of its inputs. */
  function DecryptSpec(c: Primitives, encryptedData: Bytes, password: string): (r: DecryptResult)
    ensures r.Decrypted? ==> r.size == |r.data|
    ensures HonoursLengths(c) && r.Decrypted? ==> MinSize + r.size < |encryptedData|
  {
    match OpenEnvelope(c, encryptedData, password)
    case Ok(plaintext) => Decrypted(plaintext, |plaintext|)
    case Throw(e) => DecryptFailed(Classify(e))
  }

  /** `decryptFile`: checks the size, then slices at the constant offsets. */
  method DecryptFile(c: Primitives, encryptedData: Bytes, password: string) returns (r: DecryptResult)
    ensures r == DecryptSpec(c, encryptedData, password)
  {
    if |encryptedData| < SaltSize + IvSize {
      return DecryptFailed(Classify(BadFormat));
    }
    var salt := encryptedData[..SaltSize];
    var iv := encryptedData[SaltSize..SaltSize + IvSize];
    var ciphertext := encryptedData[SaltSize + IvSize..];
    var key := GenerateKey(c, password, salt);
    if key.Throw? {
      return DecryptFailed(Classify(key.error));
    }
    var plaintext := c.cbcDecrypt(key.value, iv, ciphertext);
    if plaintext.Throw? {
      return DecryptFailed(Classify(plaintext.error));
    }
    return Decrypted(plaintext.value, |plaintext.value|);
  }

  // ---------------------------------------------------------------- properties

  /** A successful encryption reports its sizes truthfully: `originalSize` is
      the file's length, `encryptedSize` the padded ciphertext's and `totalSize`
      the envelope's, 32 bytes more; the IV sits at offset 16. */
  lemma EncryptedLayout(c: Primitives, fileData: Bytes, password: string, salt: Bytes, iv: Bytes)
    requires HonoursLengths(c)
    requires |salt| == SaltSize && |iv| == IvSize
    requires EncryptSpec(c, fileData, password, salt, iv).Encrypted?
    ensures var r := EncryptSpec(c, fileData, password, salt, iv);
      && r.originalSize == |fileData|
      && r.encryptedSize == (|fileData| / AesBlockSize + 1) * AesBlockSize
      && r.totalSize == |r.data| == MinSize + r.encryptedSize
      && r.data[0..16] == salt && r.data[16..32] == iv
  {
    FieldOffsets(SealEnvelope(c, fileData, password, salt, iv).value);
  }

  /** Any input shorter than 32 bytes fails with the format message, before
      any primitive is consulted. */
  lemma DecryptRejectsShortInput(c: Primitives, encryptedData: Bytes, password: string)
    requires |encryptedData| < MinSize
    ensures DecryptSpec(c, encryptedData, password) == DecryptFailed(BadFormatMessage)
  {
  }

  /** Only the error's name decides: an `OperationError` becomes the generic
      message, any other error is reported with its own message. */
  lemma FailureMessages(c: Primitives, encryptedData: Bytes, password: string)
    requires OpenEnvelope(c, encryptedData, password).Throw?
    ensures var e := OpenEnvelope(c, encryptedData, password).error;
      && (e.name == OperationError ==> DecryptSpec(c, encryptedData, password) == DecryptFailed(WrongPasswordMessage))
      && (e.name != OperationError ==> DecryptSpec(c, encryptedData, password) == DecryptFailed(e.message))
  {
  }

  /** Decrypting what encryption produced, with the same password, gives the file back. */
  lemma RoundTrip(c: Primitives, fileData: Bytes, password: string, salt: Bytes, iv: Bytes)
    requires Inverts(c)
    requires |salt| == SaltSize && |iv| == IvSize
    requires EncryptSpec(c, fileData, password, salt, iv).Encrypted?
    ensures var data := EncryptSpec(c, fileData, password, salt, iv).data;
      DecryptSpec(c, data, password) == Decrypted(fileData, |fileData|)
  {
    ParseSerialize(SealEnvelope(c, fileData, password, salt, iv).value);
  }
}
