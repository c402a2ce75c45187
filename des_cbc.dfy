/**
 * `DESedeCBC`: two Triple-DES CBC stages, key 1 then key 2, with the same
 * IV and no prefix, over the text zero-padded to 8 bytes, and upper-case
 * hex; decryption runs key 2 then key 1 over the whole data and strips
 * trailing zero bytes.
 */
module DesCbc {
  import opened Bytes
  import opened Wrappers
  import Hex
  import opened BlockModes
  import opened Primitives
  import CbcStages

  /** The bytes of the two stages, key 1 then key 2. */
  function Ciphertext(des: Primitive, key1: seq<byte>, key2: seq<byte>, iv: seq<byte>, text: GoString): Option<seq<byte>>
    requires Sound(des)
  {
    match CbcStages.EncryptedStage(des, key1, iv, text)
    case None => None
    case Some(r1) => CbcStages.EncryptedStage(des, key2, iv, r1)
  }

  /** What `Encrypt` returns: the two stages' bytes as upper-case hex. */
  function Encrypted(des: Primitive, key1: seq<byte>, key2: seq<byte>, iv: seq<byte>, text: GoString): (r: Option<GoString>)
    requires Sound(des)
    ensures r.Some? ==> Hex.UpperHexText(r.value)
  {
    match Ciphertext(des, key1, key2, iv, text)
    case None => None
    case Some(r2) => Hex.UpperHexIsText(r2); Some(Hex.UpperHex(r2))
  }

  /** What `Decrypt` returns. */
  function Decrypted(des: Primitive, key1: seq<byte>, key2: seq<byte>, iv: seq<byte>, s: GoString): (r: Option<GoString>)
    requires Sound(des)
    ensures r.Some? ==> 2 * |r.value| <= |s| && NoTrailingZero(r.value)
  {
    match CbcStages.DecryptedStage(des, key2, iv, Hex.Decode(s))
    case None => None
    case Some(r1) =>
      match CbcStages.DecryptedStage(des, key1, iv, r1)
      case None => None
      case Some(r2) => Some(TrimZeros(r2))
  }

  /** The second stage adds no padding: the ciphertext has the length of the text rounded up to 8 bytes. */
  lemma CiphertextShape(des: Primitive, key1: seq<byte>, key2: seq<byte>, iv: seq<byte>, text: GoString)
    requires Sound(des) && des.family == TripleDes && CbcStages.Usable(des, key1, iv) && CbcStages.Usable(des, key2, iv)
    ensures Ciphertext(des, key1, key2, iv, text).Some?
    ensures |Ciphertext(des, key1, key2, iv, text).value| == (|text| + 7) / 8 * 8
  {
    CbcStages.EncryptedStageLength(des, key1, iv, text);
    var r1 := CbcStages.EncryptedStage(des, key1, iv, text).value;
    assert Padded(r1, 8) == r1;
    CbcStages.EncryptedStageLength(des, key2, iv, r1);
    var r2 := CbcStages.EncryptedStage(des, key2, iv, r1).value;
    assert Ciphertext(des, key1, key2, iv, text) == Some(r2);
    PaddedLength(text, 8);
  }

  /** The output is upper-case hex, two digits per ciphertext byte, that decodes to the ciphertext. */
  lemma EncryptedDecodes(des: Primitive, key1: seq<byte>, key2: seq<byte>, iv: seq<byte>, text: GoString)
    requires Sound(des) && Ciphertext(des, key1, key2, iv, text).Some?
    ensures Encrypted(des, key1, key2, iv, text).Some?
    ensures |Encrypted(des, key1, key2, iv, text).value| == 2 * |Ciphertext(des, key1, key2, iv, text).value|
    ensures forall i :: 0 <= i < |Encrypted(des, key1, key2, iv, text).value| ==>
              Hex.IsUpperHexDigit(Encrypted(des, key1, key2, iv, text).value[i])
    ensures Hex.Decode(Encrypted(des, key1, key2, iv, text).value) == Ciphertext(des, key1, key2, iv, text).value
  {
    var r2 := Ciphertext(des, key1, key2, iv, text).value;
    Hex.UpperHexDigits(r2);
    Hex.DecodeUpperHex(r2);
  }

  /** Decrypting a ciphertext gives the text back without its trailing zero bytes. */
  lemma RoundTrip(des: Primitive, key1: seq<byte>, key2: seq<byte>, iv: seq<byte>, text: GoString)
    requires Sound(des) && des.family == TripleDes && CbcStages.Usable(des, key1, iv) && CbcStages.Usable(des, key2, iv)
    ensures Encrypted(des, key1, key2, iv, text).Some?
    ensures Decrypted(des, key1, key2, iv, Encrypted(des, key1, key2, iv, text).value) == Some(TrimZeros(text))
  {
    CbcStages.StageRoundTrip(des, key1, iv, text);
    var r1 := CbcStages.EncryptedStage(des, key1, iv, text).value;
    assert Padded(r1, 8) == r1;
    CbcStages.StageRoundTrip(des, key2, iv, r1);
    var r2 := CbcStages.EncryptedStage(des, key2, iv, r1).value;
    assert Ciphertext(des, key1, key2, iv, text) == Some(r2);
    EncryptedDecodes(des, key1, key2, iv, text);
    var data := Hex.Decode(Encrypted(des, key1, key2, iv, text).value);
    assert data == r2;
    assert CbcStages.DecryptedStage(des, key2, iv, data) == Some(r1);
    TrimZerosPadded(text, 8);
  }

  /** With usable keys and IV, decryption panics exactly when the decoded data is not a whole number of blocks. */
  lemma DecryptedDefined(des: Primitive, key1: seq<byte>, key2: seq<byte>, iv: seq<byte>, s: GoString)
    requires Sound(des) && des.family == TripleDes && CbcStages.Usable(des, key1, iv) && CbcStages.Usable(des, key2, iv)
    ensures Decrypted(des, key1, key2, iv, s).Some? <==> |Hex.Decode(s)| % 8 == 0
  {
    var data := Hex.Decode(s);
    if |data| % 8 == 0 {
      var r1 := CbcDecrypt(Backward(des, key2), 8, iv, data);
      assert CbcStages.DecryptedStage(des, key2, iv, data) == Some(r1);
    }
  }

  /** `Encrypt`: stage with key 1, stage with key 2, upper-case hex. */
  method Encrypt(des: Primitive, key1: seq<byte>, key2: seq<byte>, iv: seq<byte>, text: GoString) returns (r: Option<GoString>)
    requires Sound(des) && des.family == TripleDes
    ensures r == Encrypted(des, key1, key2, iv, text)
  {
    var r1 := CbcStages.EncryptStage(des, key1, iv, text);
    if r1.None? {
      return None;
    }
    var r2 := CbcStages.EncryptStage(des, key2, iv, r1.value);
    if r2.None? {
      return None;
    }
    r := Some(Hex.UpperHex(r2.value));
  }

  /** `Decrypt`: hex-decode ignoring errors, stage with key 2, stage with key 1, strip trailing zeros. */
  method Decrypt(des: Primitive, key1: seq<byte>, key2: seq<byte>, iv: seq<byte>, s: GoString) returns (r: Option<GoString>)
    requires Sound(des) && des.family == TripleDes
    ensures r == Decrypted(des, key1, key2, iv, s)
  {
    var data := Hex.Decode(s);
    var r1 := CbcStages.DecryptStage(des, key2, iv, data);
    if r1.None? {
      return None;
    }
    var r2 := CbcStages.DecryptStage(des, key1, iv, r1.value);
    if r2.None? {
      return None;
    }
    r := Some(TrimZeros(r2.value));
  }
}
