/** The WebCrypto calls the encryptors make, as foreign primitives.

    Each primitive folds `crypto.subtle.importKey` of the raw key together with
    the operation that uses the key, and either yields bytes or throws. The
    ciphers themselves are not modelled: a caller passes any record of total
    functions, and the properties the standards promise of them are stated as
    the hypotheses `HonoursLengths` and `Inverts`. */
module WebCrypto {
  import opened Common

  /** AES block size in bytes. */
  const AesBlockSize: nat := 16

  /** AES-GCM authentication tag, `tagLength: 128`, in bytes. */
  const GcmTagSize: nat := 16

  datatype Primitives = Primitives(
    /** PBKDF2-HMAC-SHA256 (section 5.2 of RFC 8018) of the UTF-8 encoded
        password: `(password, salt, iterations, outputBits)`. */
    pbkdf2: (string, Bytes, nat, nat) -> Outcome<Bytes>,
    /** AES-GCM sealing (NIST SP 800-38D): `(key, iv, plaintext)`. */
    gcmEncrypt: (Bytes, Bytes, Bytes) -> Outcome<Bytes>,
    /** AES-GCM opening: `(key, iv, ciphertext ‖ tag)`. */
    gcmDecrypt: (Bytes, Bytes, Bytes) -> Outcome<Bytes>,
    /** AES-CBC with PKCS#7 padding (NIST SP 800-38A section 6.2,
        section 6.3 of RFC 5652): `(key, iv, plaintext)`. */
    cbcEncrypt: (Bytes, Bytes, Bytes) -> Outcome<Bytes>,
    /** AES-CBC decryption with the padding removed: `(key, iv, ciphertext)`. */
    cbcDecrypt: (Bytes, Bytes, Bytes) -> Outcome<Bytes>
  )

  /** The output lengths the standards fix for successful calls. */
  ghost predicate HonoursLengths(c: Primitives) {
    && (forall pw: string, salt: Bytes, n: nat, bits: nat ::
          c.pbkdf2(pw, salt, n, bits).Ok? ==> |c.pbkdf2(pw, salt, n, bits).value| == bits / 8)
    && (forall k, iv, x ::
          c.gcmEncrypt(k, iv, x).Ok? ==> |c.gcmEncrypt(k, iv, x).value| == |x| + GcmTagSize)
    && (forall k, iv, x ::
          c.gcmDecrypt(k, iv, x).Ok? ==> |c.gcmDecrypt(k, iv, x).value| + GcmTagSize == |x|)
    && (forall k, iv, x ::
          c.cbcEncrypt(k, iv, x).Ok? ==>
            |c.cbcEncrypt(k, iv, x).value| == (|x| / AesBlockSize + 1) * AesBlockSize)
    && (forall k, iv, x ::
          c.cbcDecrypt(k, iv, x).Ok? ==>
            && |x| % AesBlockSize == 0
            && |x| - AesBlockSize <= |c.cbcDecrypt(k, iv, x).value| < |x|)
  }

  /** Decryption under the key and IV used to encrypt gives the plaintext back. */
  ghost predicate Inverts(c: Primitives) {
    && (forall k, iv, x :: c.gcmEncrypt(k, iv, x).Ok? ==>
          c.gcmDecrypt(k, iv, c.gcmEncrypt(k, iv, x).value) == Ok(x))
    && (forall k, iv, x :: c.cbcEncrypt(k, iv, x).Ok? ==>
          c.cbcDecrypt(k, iv, c.cbcEncrypt(k, iv, x).value) == Ok(x))
  }

  /** AES-CBC never decrypts an empty ciphertext: under the length contracts
      a successful decryption needs at least one block. */
  lemma CbcRejectsEmpty(c: Primitives, k: Bytes, iv: Bytes)
    requires HonoursLengths(c)
    ensures c.cbcDecrypt(k, iv, []).Throw?
  {
  }

  /** A GCM sealing of a 32-byte key is 48 bytes, and a CBC encryption of a
      32-byte key is 48 bytes too: the `ENCRYPTED_DEK_SIZE` both hybrid
      generations reserve. */
  lemma WrappedKeyIs48(c: Primitives, k: Bytes, iv: Bytes, dek: Bytes)
    requires HonoursLengths(c) && |dek| == 32
    ensures c.gcmEncrypt(k, iv, dek).Ok? ==> |c.gcmEncrypt(k, iv, dek).value| == 48
    ensures c.cbcEncrypt(k, iv, dek).Ok? ==> |c.cbcEncrypt(k, iv, dek).value| == 48
  {
  }
}
