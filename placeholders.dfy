/**
 * `SM4CBC`, `SM4ECB` and `ZUC` are placeholders that share one behaviour:
 * encryption is the upper-case hex of the text, and decryption is
 * `hex.DecodeString` with its error discarded. Their keys and IVs are
 * stored and never read, so the functions here do not take them.
 */
module Placeholders {
  import opened Bytes
  import Hex

  /** `Encrypt`: upper-case hex of the text's bytes, which decodes back to the text. */
  function Encrypted(text: GoString): (r: GoString)
    ensures |r| == 2 * |text|
    ensures forall i :: 0 <= i < |r| ==> Hex.IsUpperHexDigit(r[i])
    ensures Hex.Decode(r) == text
  {
    Hex.UpperHexDigits(text);
    Hex.DecodeUpperHex(text);
    Hex.UpperHex(text)
  }

  /**
   * `Decrypt`: the bytes of the complete digit pairs before the first
   * invalid digit. It never fails; on well-formed hex, encrypting the result
   * gives the input back in upper case.
   */
  function Decrypted(s: GoString): (r: GoString)
    ensures |r| <= |s| / 2
    ensures Hex.DecodedPrefix(s, r)
    ensures Hex.WellFormed(s) ==> |r| == |s| / 2 && Encrypted(r) == Hex.ToUpper(s)
  {
    Hex.DecodeMeaning(s);
    var r := Hex.Decode(s);
    if Hex.WellFormed(s) then
      Hex.ReencodeHex(s);
      r
    else r
  }

  /** Decryption undoes encryption exactly: no padding, no trimming. */
  lemma RoundTrip(text: GoString)
    ensures Decrypted(Encrypted(text)) == text
  {
  }
}
