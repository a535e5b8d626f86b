/**
 * The foreign primitives the bot calls, abstracted: the SHA-256 hex digest and the
 * fixed-key AES-128-CBC timestamp cipher followed by `parseInt`. They are passed around
 * as a `Crypto` value; `Sound` states the only facts the model relies on.
 */
module Primitives {

  /** A JavaScript number as `parseInt` can produce it: an integer or NaN. */
  datatype JsNumber = Int(value: int) | NaN

  /** What `decodeUnixTimestamp` does with a string: it throws, or returns `parseInt` of the plaintext. */
  datatype Decrypted = DecryptError | Plain(number: JsNumber)

  datatype Crypto = Crypto(
    sha256Hex: string -> string,   // createHash("sha256").update(text).digest("hex")
    encrypt: nat -> string,        // encodeUnixTimestamp
    decrypt: string -> Decrypted)  // decodeUnixTimestamp

  predicate IsHexDigit(ch: char)
  {
    '0' <= ch <= '9' || 'a' <= ch <= 'f'
  }

  /** Lower-case hexadecimal text, as `digest("hex")` and `cipher.final("hex")` produce. */
  predicate IsLowerHex(s: string)
  {
    forall i :: 0 <= i < |s| ==> IsHexDigit(s[i])
  }

  /**
   * The facts about the primitives that the model relies on: the digest is 64 lower-case
   * hex characters, the ciphertext is lower-case hex, and decrypting an encrypted
   * non-negative timestamp gives it back.
   */
  ghost predicate Sound(c: Crypto)
  {
    && (forall s :: |c.sha256Hex(s)| == 64 && IsLowerHex(c.sha256Hex(s)))
    && (forall t: nat :: IsLowerHex(c.encrypt(t)) && c.decrypt(c.encrypt(t)) == Plain(Int(t)))
  }

  /** JavaScript's `%` on integers: the remainder takes the sign of the dividend. */
  function JsRem(a: int, b: int): (r: int)
    requires b > 0
    ensures a >= 0 ==> 0 <= r < b
    ensures a < 0 ==> -b < r <= 0
    ensures -b < a < b ==> r == a
  {
    if a >= 0 then
      SmallRemainder(a, b);
      a % b
    else
      SmallRemainder(-a, b);
      -((-a) % b)
  }

  /** The Euclidean remainder of a natural number below b is the number itself. */
  lemma SmallRemainder(a: int, b: int)
    requires 0 <= a && b > 0
    ensures 0 <= a % b < b
    ensures a < b ==> a % b == a
  {
  }
}
