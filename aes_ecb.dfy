/**
 * `AESECB`: two AES ECB stages, key 1 then key 2, over the text zero-padded
 * to 16 bytes, and upper-case hex; decryption runs key 2 then key 1 and
 * strips trailing zero bytes.
 */
module AesEcb {
  import opened Bytes
  import opened Wrappers
  import Hex
  import opened Primitives
  import EcbStages

  /** The ciphertext has two hex digits per byte of the text rounded up to 16 bytes. */
  lemma CiphertextLength(aes: Primitive, key1: seq<byte>, key2: seq<byte>, text: GoString)
    requires Sound(aes) && aes.family == Aes && ValidKey(Aes, key1) && ValidKey(Aes, key2)
    ensures EcbStages.Encrypted(aes, key1, key2, text).Some?
    ensures |EcbStages.Encrypted(aes, key1, key2, text).value| == 2 * ((|text| + 15) / 16 * 16)
  {
    EcbStages.EncryptedShape(aes, key1, key2, text);
    PaddedLength(text, 16);
  }

  /** Decrypting a ciphertext gives the text back without its trailing zero bytes. */
  lemma RoundTrip(aes: Primitive, key1: seq<byte>, key2: seq<byte>, text: GoString)
    requires Sound(aes) && aes.family == Aes && ValidKey(Aes, key1) && ValidKey(Aes, key2)
    ensures EcbStages.Encrypted(aes, key1, key2, text).Some?
    ensures EcbStages.Decrypted(aes, key1, key2, EcbStages.Encrypted(aes, key1, key2, text).value) == Some(TrimZeros(text))
  {
    EcbStages.RoundTrip(aes, key1, key2, text);
  }

  /** `Encrypt`: stage with key 1, stage with key 2, upper-case hex. */
  method Encrypt(aes: Primitive, key1: seq<byte>, key2: seq<byte>, text: GoString) returns (r: Option<GoString>)
    requires Sound(aes) && aes.family == Aes
    ensures r == EcbStages.Encrypted(aes, key1, key2, text)
  {
    var r1 := EcbStages.EncryptStage(aes, key1, text);
    if r1.None? {
      return None;
    }
    var r2 := EcbStages.EncryptStage(aes, key2, r1.value);
    if r2.None? {
      return None;
    }
    r := Some(Hex.UpperHex(r2.value));
  }

  /** `Decrypt`: hex-decode ignoring errors, stage with key 2, stage with key 1, strip trailing zeros. */
  method Decrypt(aes: Primitive, key1: seq<byte>, key2: seq<byte>, s: GoString) returns (r: Option<GoString>)
    requires Sound(aes) && aes.family == Aes
    ensures r == EcbStages.Decrypted(aes, key1, key2, s)
  {
    var data := Hex.Decode(s);
    var r1 := EcbStages.DecryptStage(aes, key2, data);
    if r1.None? {
      return None;
    }
    var r2 := EcbStages.DecryptStage(aes, key1, r1.value);
    if r2.None? {
      return None;
    }
    r := Some(TrimZeros(r2.value));
  }
}
