/**
 * `DESedeECB`: two Triple-DES ECB stages, key 1 then key 2, over the text zero-padded
 * to 8 bytes, and upper-case hex; decryption runs key 2 then key 1 and
 * strips trailing zero bytes.
 */
module DesEcb {
  import opened Bytes
  import opened Wrappers
  import Hex
  import opened Primitives
  import EcbStages

  /** The ciphertext has two hex digits per byte of the text rounded up to 8 bytes. */
  lemma CiphertextLength(des: Primitive, key1: seq<byte>, key2: seq<byte>, text: GoString)
    requires Sound(des) && des.family == TripleDes && ValidKey(TripleDes, key1) && ValidKey(TripleDes, key2)
    ensures EcbStages.Encrypted(des, key1, key2, text).Some?
    ensures |EcbStages.Encrypted(des, key1, key2, text).value| == 2 * ((|text| + 7) / 8 * 8)
  {
    EcbStages.EncryptedShape(des, key1, key2, text);
    PaddedLength(text, 8);
  }

  /** Decrypting a ciphertext gives the text back without its trailing zero bytes. */
  lemma RoundTrip(des: Primitive, key1: seq<byte>, key2: seq<byte>, text: GoString)
    requires Sound(des) && des.family == TripleDes && ValidKey(TripleDes, key1) && ValidKey(TripleDes, key2)
    ensures EcbStages.Encrypted(des, key1, key2, text).Some?
    ensures EcbStages.Decrypted(des, key1, key2, EcbStages.Encrypted(des, key1, key2, text).value) == Some(TrimZeros(text))
  {
    EcbStages.RoundTrip(des, key1, key2, text);
  }

  /** `Encrypt`: stage with key 1, stage with key 2, upper-case hex. */
  method Encrypt(des: Primitive, key1: seq<byte>, key2: seq<byte>, text: GoString) returns (r: Option<GoString>)
    requires Sound(des) && des.family == TripleDes
    ensures r == EcbStages.Encrypted(des, key1, key2, text)
  {
    var r1 := EcbStages.EncryptStage(des, key1, text);
    if r1.None? {
      return None;
    }
    var r2 := EcbStages.EncryptStage(des, key2, r1.value);
    if r2.None? {
      return None;
    }
    r := Some(Hex.UpperHex(r2.value));
  }

  /** `Decrypt`: hex-decode ignoring errors, stage with key 2, stage with key 1, strip trailing zeros. */
  method Decrypt(des: Primitive, key1: seq<byte>, key2: seq<byte>, s: GoString) returns (r: Option<GoString>)
    requires Sound(des) && des.family == TripleDes
    ensures r == EcbStages.Decrypted(des, key1, key2, s)
  {
    var data := Hex.Decode(s);
    var r1 := EcbStages.DecryptStage(des, key2, data);
    if r1.None? {
      return None;
    }
    var r2 := EcbStages.DecryptStage(des, key1, r1.value);
    if r2.None? {
      return None;
    }
    r := Some(TrimZeros(r2.value));
  }
}
