/** Values shared by the three encryptor generations: bytes, thrown JavaScript
    errors, and the string predicates (`startsWith`, `endsWith`, `includes`)
    the source uses to classify errors and derive file names. */
module Common {

  type byte = bv8
  type Bytes = seq<byte>

  /** A thrown JavaScript error: its `name` and its `message`. */
  datatype JsError = JsError(name: string, message: string)

  /** The value of a call that may throw: a value, or the error it threw.
      `var x :- call;` propagates the error as an uncaught `throw` would. */
  datatype Outcome<+T> = Ok(value: T) | Throw(error: JsError) {
    predicate IsFailure() {
      Throw?
    }

    function PropagateFailure<U>(): Outcome<U>
      requires Throw?
    {
      Throw(error)
    }

    function Extract(): T
      requires Ok?
    {
      value
    }
  }

  /** A value that may be absent (`null` in the source). */
  datatype Option<+T> = None | Some(value: T)

  /** What `decryptFile` returns in all three generations:
      `{success: true, data, size}` or `{success: false, error}`. */
  datatype DecryptResult =
    | Decrypted(data: Bytes, size: nat)
    | DecryptFailed(error: string)

  /** The `name` of every error made with `new Error(...)`. */
  const PlainError: string := "Error"

  /** The `name` WebCrypto gives to a failed decryption (tag or padding mismatch). */
  const OperationError: string := "OperationError"

  /** A natural number written in decimal, as a template literal prints it. */
  function DecimalString(n: nat): string
    decreases n
  {
    if n < 10 then ["0123456789"[n]] else DecimalString(n / 10) + ["0123456789"[n % 10]]
  }

  /** `s.startsWith(prefix)` */
  predicate StartsWith(s: string, prefix: string) {
    |prefix| <= |s| && s[..|prefix|] == prefix
  }

  /** `s.endsWith(suffix)` */
  predicate EndsWith(s: string, suffix: string) {
    |suffix| <= |s| && s[|s| - |suffix|..] == suffix
  }

  /** `t` occurs in `s` at position `k`. */
  predicate OccursAt(s: string, t: string, k: int) {
    0 <= k <= |s| - |t| && s[k..k + |t|] == t
  }

  /** `s.includes(t)`: `t` occurs in `s` at some position. */
  predicate Includes(s: string, t: string) {
    exists k :: 0 <= k <= |s| - |t| && OccursAt(s, t, k)
  }

  /** A string that starts with `t` includes `t`. */
  lemma PrefixIncluded(s: string, t: string)
    requires StartsWith(s, t)
    ensures Includes(s, t)
  {
    assert OccursAt(s, t, 0);
  }

  /** A string that lacks one of the characters of `t` cannot include `t`. */
  lemma MissingCharNotIncluded(s: string, t: string, i: nat)
    requires i < |t| && t[i] !in s
    ensures !Includes(s, t)
  {
    forall k | 0 <= k <= |s| - |t|
      ensures !OccursAt(s, t, k)
    {
      assert s[k..k + |t|][i] == s[k + i] && s[k + i] in s;
    }
  }
}
