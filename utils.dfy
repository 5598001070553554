/**
 * At-rest protection of a single field (`lib/utils.ts`): the envelope
 * `hex(iv) + ":" + hex(ciphertext)`, its decryption, and the masked display
 * string. AES-256-CBC is a foreign call: it is the `Cipher` value passed in,
 * and the 16 random IV bytes are a parameter.
 */
module Utils {
  import opened Wrappers
  import opened Hex
  import opened Text
  import opened KeyConfig

  /** `IV_LENGTH`: the initialisation vector has 16 bytes. */
  const IvLength: nat := 16

  type Iv = s: seq<byte> | |s| == IvLength witness [0, 0, 0, 0, 0, 0, 0, 0, 0, 0, 0, 0, 0, 0, 0, 0]

  /**
   * The block cipher under a key and an IV: `cipher.update(text)` and
   * `cipher.final()` on the way in, the whole decipher on the way out.
   * Padding errors are not modelled: `decrypt` is total.
   */
  datatype Cipher = Cipher(
    update: (Key, Iv, string) -> seq<byte>,
    final: (Key, Iv, string) -> seq<byte>,
    decrypt: (Key, Iv, seq<byte>) -> string)
  {
    /** `Buffer.concat([cipher.update(text), cipher.final()])`. */
    function Ciphertext(key: Key, iv: Iv, text: string): seq<byte> {
      update(key, iv, text) + final(key, iv, text)
    }
  }

  /** The one thing the model assumes of the cipher: deciphering undoes enciphering. */
  ghost predicate Inverts(c: Cipher) {
    forall key: Key, iv: Iv, text: string :: c.decrypt(key, iv, c.Ciphertext(key, iv, text)) == text
  }

  /** Why a stored field cannot be deciphered. */
  datatype CipherError = MalformedEnvelope

  /** `encryptCard` in `lib/utils.ts`. */
  function EncryptCard(c: Cipher, key: Key, iv: Iv, text: string): string {
    Encode(iv) + ":" + Encode(c.Ciphertext(key, iv, text))
  }

  /**
   * Decode the two hex segments and decipher. A segment that is not hex, or
   * an IV that is not 16 bytes (`createDecipheriv` throws), is malformed.
   */
  function OpenSegments(c: Cipher, key: Key, ivHex: string, cipherHex: string): Result<string, CipherError> {
    match (Decode(ivHex), Decode(cipherHex))
    case (Some(iv), Some(bytes)) =>
      if |iv| == IvLength then Success(c.decrypt(key, iv, bytes)) else Failure(MalformedEnvelope)
    case _ => Failure(MalformedEnvelope)
  }

  /**
   * `decryptCard`: `const [ivHex, encryptedHex] = text.split(":")`. Without
   * a colon `encryptedHex` is undefined and `Buffer.from` throws; pieces after
   * the second are never looked at.
   */
  function DecryptCard(c: Cipher, key: Key, text: string): (r: Result<string, CipherError>)
    ensures r.Success? ==> |SplitOnColon(text)| >= 2
  {
    var parts := SplitOnColon(text);
    if |parts| < 2 then Failure(MalformedEnvelope) else OpenSegments(c, key, parts[0], parts[1])
  }

  /** `decryptPassword` in `lib/utils.ts`, written out separately as the source does. */
  function DecryptPassword(c: Cipher, key: Key, text: string): (r: Result<string, CipherError>)
    ensures r.Success? ==> |SplitOnColon(text)| >= 2
  {
    var parts := SplitOnColon(text);
    if |parts| < 2 then Failure(MalformedEnvelope) else OpenSegments(c, key, parts[0], parts[1])
  }

  /** What every masked number starts with. */
  const MaskPrefix: string := "**** **** **** "

  /** JavaScript's `s.slice(-4)`: the last four characters, or all of a shorter `s`. */
  function LastFour(s: string): string {
    if |s| > 4 then s[|s| - 4..] else s
  }

  /** `maskCardNumber`: the prefix followed by the last four characters of `cardNo`. */
  function MaskCardNumber(cardNo: string): (masked: string)
    ensures |masked| == |MaskPrefix| + (if |cardNo| < 4 then |cardNo| else 4)
    ensures masked[..|MaskPrefix|] == MaskPrefix
    ensures masked[|MaskPrefix|..] == cardNo[|cardNo| - (|masked| - |MaskPrefix|)..]
  {
    MaskPrefix + LastFour(cardNo)
  }

  /** `maskPasswordNumber`, written out separately as the source does. */
  function MaskPasswordNumber(cardNo: string): (masked: string)
    ensures |masked| == |MaskPrefix| + (if |cardNo| < 4 then |cardNo| else 4)
    ensures masked[..|MaskPrefix|] == MaskPrefix
    ensures masked[|MaskPrefix|..] == cardNo[|cardNo| - (|masked| - |MaskPrefix|)..]
  {
    MaskPrefix + LastFour(cardNo)
  }

  /**
   * The envelope is a 32-character lower-case hex IV, a single colon, and
   * the hex of the ciphertext; it splits into exactly those two pieces.
   */
  lemma EncryptCardShape(c: Cipher, key: Key, iv: Iv, text: string)
    ensures var envelope := EncryptCard(c, key, iv, text);
            var bytes := c.Ciphertext(key, iv, text);
            && |envelope| == 2 * IvLength + 1 + 2 * |bytes|
            && envelope[..2 * IvLength] == Encode(iv)
            && envelope[2 * IvLength] == ':'
            && envelope[2 * IvLength + 1..] == Encode(bytes)
            && IsLowerHex(Encode(iv)) && IsLowerHex(Encode(bytes))
            && SplitOnColon(envelope) == [Encode(iv), Encode(bytes)]
  {
    var bytes := c.Ciphertext(key, iv, text);
    LowerHexHasNoColon(Encode(iv));
    LowerHexHasNoColon(Encode(bytes));
    SplitAtFirstColon(Encode(iv), Encode(bytes));
    SplitColonFree(Encode(bytes));
  }

  /** Round trip: `decryptCard(encryptCard(p)) == p` for a cipher that inverts. */
  lemma DecryptCardRoundTrip(c: Cipher, key: Key, iv: Iv, text: string)
    requires Inverts(c)
    ensures DecryptCard(c, key, EncryptCard(c, key, iv, text)) == Success(text)
  {
    EncryptCardShape(c, key, iv, text);
    DecodeEncode(iv);
    DecodeEncode(c.Ciphertext(key, iv, text));
  }

  /** Without a colon there is no ciphertext segment: decryption fails. */
  lemma DecryptCardNeedsColon(c: Cipher, key: Key, text: string)
    requires ':' !in text
    ensures DecryptCard(c, key, text) == Failure(MalformedEnvelope)
  {
    SplitColonFree(text);
  }

  /** Only the first two colon-separated pieces matter; anything after a second colon is ignored. */
  lemma DecryptCardIgnoresExtraSegments(c: Cipher, key: Key, ivHex: string, cipherHex: string, extra: string)
    requires ':' !in ivHex && ':' !in cipherHex
    ensures DecryptCard(c, key, ivHex + ":" + cipherHex + ":" + extra)
         == DecryptCard(c, key, ivHex + ":" + cipherHex)
         == OpenSegments(c, key, ivHex, cipherHex)
  {
    assert ivHex + ":" + cipherHex + ":" + extra == ivHex + ":" + (cipherHex + ":" + extra);
    SplitAtFirstColon(ivHex, cipherHex + ":" + extra);
    SplitAtFirstColon(cipherHex, extra);
    SplitAtFirstColon(ivHex, cipherHex);
    SplitColonFree(cipherHex);
  }

  /** `decryptPassword` computes the same function as `decryptCard`, so the round trip holds for it too. */
  lemma DecryptPasswordIsDecryptCard(c: Cipher, key: Key, text: string)
    ensures DecryptPassword(c, key, text) == DecryptCard(c, key, text)
  {
  }

  /** Two encryptions of the same text under different IVs give different envelopes. */
  lemma DistinctIvsGiveDistinctEnvelopes(c: Cipher, key: Key, iv1: Iv, iv2: Iv, text: string)
    requires iv1 != iv2
    ensures EncryptCard(c, key, iv1, text) != EncryptCard(c, key, iv2, text)
  {
    EncryptCardShape(c, key, iv1, text);
    EncryptCardShape(c, key, iv2, text);
    if EncryptCard(c, key, iv1, text) == EncryptCard(c, key, iv2, text) {
      EncodeInjective(iv1, iv2);
    }
  }

  /**
   * Masking an already masked value changes nothing exactly when the
   * original had at least four characters.
   */
  lemma MaskIdempotent(cardNo: string)
    ensures MaskCardNumber(MaskCardNumber(cardNo)) == MaskCardNumber(cardNo) <==> |cardNo| >= 4
  {
    var once := MaskCardNumber(cardNo);
    if |cardNo| >= 4 {
      assert once[|once| - 4..] == cardNo[|cardNo| - 4..];
    } else {
      assert |MaskCardNumber(once)| == 19 != |once|;
    }
  }

  /** `maskPasswordNumber` and `maskCardNumber` are the same function. */
  lemma MaskPasswordIsMaskCard(cardNo: string)
    ensures MaskPasswordNumber(cardNo) == MaskCardNumber(cardNo)
  {
  }
}
