/**
 * `AESCBC`: two AES-CBC stages, key 1 then key 2, with the same IV. Each
 * stage zero-pads to 16 bytes, encrypts, and puts the IV in front of its
 * ciphertext, so the second stage sees the IV as its first block.
 * Decryption drops 16 bytes before each stage (the prefix is not read
 * back: the stored IV is used), decrypts with key 2 then key 1 and strips
 * trailing zero bytes.
 */
module AesCbc {
  import opened Bytes
  import opened Wrappers
  import Hex
  import opened BlockModes
  import opened Primitives
  import CbcStages

  /** What `aesEncrypt` returns: the IV followed by the CBC ciphertext of the padded data. */
  function PrefixedStage(aes: Primitive, key: seq<byte>, iv: seq<byte>, data: seq<byte>): (r: Option<seq<byte>>)
    requires Sound(aes)
    ensures r.Some? <==> CbcStages.Usable(aes, key, iv)
    ensures r.Some? ==> |r.value| == |iv| + |Padded(data, BlockSizeOf(aes.family))| && r.value[..|iv|] == iv
  {
    match CbcStages.EncryptedStage(aes, key, iv, data)
    case None => None
    case Some(c) => Some(iv + c)
  }

  /** The bytes of the two stages, key 1 then key 2. */
  function Ciphertext(aes: Primitive, key1: seq<byte>, key2: seq<byte>, iv: seq<byte>, text: GoString): Option<seq<byte>>
    requires Sound(aes)
  {
    match PrefixedStage(aes, key1, iv, text)
    case None => None
    case Some(r1) => PrefixedStage(aes, key2, iv, r1)
  }

  /** What `Encrypt` returns: the two stages' bytes as upper-case hex. */
  function Encrypted(aes: Primitive, key1: seq<byte>, key2: seq<byte>, iv: seq<byte>, text: GoString): (r: Option<GoString>)
    requires Sound(aes)
    ensures r.Some? ==> Hex.UpperHexText(r.value)
  {
    match Ciphertext(aes, key1, key2, iv, text)
    case None => None
    case Some(r2) => Hex.UpperHexIsText(r2); Some(Hex.UpperHex(r2))
  }

  /** What `Decrypt` returns: `data[16:]` and `r1[16:]` panic on fewer than 16 bytes. */
  function Decrypted(aes: Primitive, key1: seq<byte>, key2: seq<byte>, iv: seq<byte>, s: GoString): (r: Option<GoString>)
    requires Sound(aes)
    ensures r.Some? ==> 2 * (|r.value| + 32) <= |s| && NoTrailingZero(r.value)
  {
    var data := Hex.Decode(s);
    if |data| < 16 then None
    else
      match CbcStages.DecryptedStage(aes, key2, iv, data[16..])
      case None => None
      case Some(r1) =>
        if |r1| < 16 then None
        else
          match CbcStages.DecryptedStage(aes, key1, iv, r1[16..])
          case None => None
          case Some(r2) => Some(TrimZeros(r2))
  }

  /** A stage's output is the IV and then one ciphertext block per padded block. */
  lemma PrefixedStageShape(aes: Primitive, key: seq<byte>, iv: seq<byte>, data: seq<byte>)
    requires Sound(aes) && aes.family == Aes && CbcStages.Usable(aes, key, iv)
    ensures PrefixedStage(aes, key, iv, data).Some?
    ensures |PrefixedStage(aes, key, iv, data).value| == 16 + |Padded(data, 16)|
    ensures PrefixedStage(aes, key, iv, data).value[..16] == iv
    ensures PrefixedStage(aes, key, iv, data).value[16..] == CbcEncrypt(Forward(aes, key), 16, iv, Padded(data, 16))
  {
    CbcStages.EncryptedStageLength(aes, key, iv, data);
  }

  /** Dropping a stage's first 16 bytes and decrypting with the same key gives the padded data back. */
  lemma PrefixedStageInverse(aes: Primitive, key: seq<byte>, iv: seq<byte>, data: seq<byte>)
    requires Sound(aes) && aes.family == Aes && CbcStages.Usable(aes, key, iv)
    ensures PrefixedStage(aes, key, iv, data).Some?
    ensures |PrefixedStage(aes, key, iv, data).value| == 16 + |Padded(data, 16)|
    ensures CbcStages.DecryptedStage(aes, key, iv, PrefixedStage(aes, key, iv, data).value[16..]) == Some(Padded(data, 16))
  {
    PrefixedStageShape(aes, key, iv, data);
    CbcStages.StageRoundTrip(aes, key, iv, data);
  }

  /**
   * The second stage adds no padding: the ciphertext has 32 bytes plus the
   * text rounded up to 16 bytes, and its first 16 bytes are the IV.
   */
  lemma CiphertextShape(aes: Primitive, key1: seq<byte>, key2: seq<byte>, iv: seq<byte>, text: GoString)
    requires Sound(aes) && aes.family == Aes && CbcStages.Usable(aes, key1, iv) && CbcStages.Usable(aes, key2, iv)
    ensures Ciphertext(aes, key1, key2, iv, text).Some?
    ensures |Ciphertext(aes, key1, key2, iv, text).value| == 32 + (|text| + 15) / 16 * 16
    ensures Ciphertext(aes, key1, key2, iv, text).value[..16] == iv
  {
    PrefixedStageShape(aes, key1, iv, text);
    var r1 := PrefixedStage(aes, key1, iv, text).value;
    var p := |Padded(text, 16)|;
    AddBlockLength(p, 16);
    assert Padded(r1, 16) == r1;
    PrefixedStageShape(aes, key2, iv, r1);
    var r2 := PrefixedStage(aes, key2, iv, r1).value;
    assert Ciphertext(aes, key1, key2, iv, text) == Some(r2);
    PaddedLength(text, 16);
    assert |r2| == 32 + p;
  }

  /** The output is upper-case hex that decodes to the two stages' bytes. */
  lemma EncryptedDecodes(aes: Primitive, key1: seq<byte>, key2: seq<byte>, iv: seq<byte>, text: GoString)
    requires Sound(aes) && Ciphertext(aes, key1, key2, iv, text).Some?
    ensures Encrypted(aes, key1, key2, iv, text).Some?
    ensures |Encrypted(aes, key1, key2, iv, text).value| == 2 * |Ciphertext(aes, key1, key2, iv, text).value|
    ensures forall i :: 0 <= i < |Encrypted(aes, key1, key2, iv, text).value| ==>
              Hex.IsUpperHexDigit(Encrypted(aes, key1, key2, iv, text).value[i])
    ensures Hex.Decode(Encrypted(aes, key1, key2, iv, text).value) == Ciphertext(aes, key1, key2, iv, text).value
  {
    var r2 := Ciphertext(aes, key1, key2, iv, text).value;
    Hex.UpperHexDigits(r2);
    Hex.DecodeUpperHex(r2);
  }

  /** Decrypting a ciphertext gives the text back without its trailing zero bytes. */
  lemma RoundTrip(aes: Primitive, key1: seq<byte>, key2: seq<byte>, iv: seq<byte>, text: GoString)
    requires Sound(aes) && aes.family == Aes && CbcStages.Usable(aes, key1, iv) && CbcStages.Usable(aes, key2, iv)
    ensures Encrypted(aes, key1, key2, iv, text).Some?
    ensures Decrypted(aes, key1, key2, iv, Encrypted(aes, key1, key2, iv, text).value) == Some(TrimZeros(text))
  {
    PrefixedStageInverse(aes, key1, iv, text);
    var r1 := PrefixedStage(aes, key1, iv, text).value;
    var p := Padded(text, 16);
    AddBlockLength(|p|, 16);
    assert Padded(r1, 16) == r1;
    PrefixedStageInverse(aes, key2, iv, r1);
    var r2 := PrefixedStage(aes, key2, iv, r1).value;
    assert Ciphertext(aes, key1, key2, iv, text) == Some(r2);
    EncryptedDecodes(aes, key1, key2, iv, text);
    var data := Hex.Decode(Encrypted(aes, key1, key2, iv, text).value);
    assert data == r2;
    assert CbcStages.DecryptedStage(aes, key2, iv, data[16..]) == Some(r1);
    assert CbcStages.DecryptedStage(aes, key1, iv, r1[16..]) == Some(p);
    TrimZerosPadded(text, 16);
  }

  /** Decryption of whole blocks, at least two of them, does not panic. */
  lemma DecryptedWhole(aes: Primitive, key1: seq<byte>, key2: seq<byte>, iv: seq<byte>, s: GoString)
    requires Sound(aes) && aes.family == Aes && CbcStages.Usable(aes, key1, iv) && CbcStages.Usable(aes, key2, iv)
    requires |Hex.Decode(s)| >= 32 && |Hex.Decode(s)| % 16 == 0
    ensures Decrypted(aes, key1, key2, iv, s).Some?
  {
    var data := Hex.Decode(s);
    var n := |data|;
    DropBlockLength(n, 16);
    DropBlockLength(n - 16, 16);
    var d1 := data[16..];
    var r1 := CbcDecrypt(Backward(aes, key2), 16, iv, d1);
    assert CbcStages.DecryptedStage(aes, key2, iv, d1) == Some(r1);
    assert |r1[16..]| % 16 == 0;
  }

  /** Decryption of fewer than two blocks, or of a partial block, panics. */
  lemma DecryptedPanics(aes: Primitive, key1: seq<byte>, key2: seq<byte>, iv: seq<byte>, s: GoString)
    requires Sound(aes) && aes.family == Aes && CbcStages.Usable(aes, key1, iv) && CbcStages.Usable(aes, key2, iv)
    requires |Hex.Decode(s)| < 32 || |Hex.Decode(s)| % 16 != 0
    ensures Decrypted(aes, key1, key2, iv, s).None?
  {
    var data := Hex.Decode(s);
    var n := |data|;
    if n >= 16 {
      var d1 := data[16..];
      if n % 16 == 0 {
        DropBlockLength(n, 16);
        var r1 := CbcDecrypt(Backward(aes, key2), 16, iv, d1);
        assert CbcStages.DecryptedStage(aes, key2, iv, d1) == Some(r1);
        assert |r1| < 16;
      } else {
        assert |d1| % 16 != 0;
      }
    }
  }

  /** With usable keys and IV, decryption panics exactly when the decoded data is shorter than 32 bytes or not whole blocks. */
  lemma DecryptedDefined(aes: Primitive, key1: seq<byte>, key2: seq<byte>, iv: seq<byte>, s: GoString)
    requires Sound(aes) && aes.family == Aes && CbcStages.Usable(aes, key1, iv) && CbcStages.Usable(aes, key2, iv)
    ensures Decrypted(aes, key1, key2, iv, s).Some? <==> |Hex.Decode(s)| >= 32 && |Hex.Decode(s)| % 16 == 0
  {
    if |Hex.Decode(s)| >= 32 && |Hex.Decode(s)| % 16 == 0 {
      DecryptedWhole(aes, key1, key2, iv, s);
    } else {
      DecryptedPanics(aes, key1, key2, iv, s);
    }
  }

  /** `aesEncrypt`: the CBC stage, then a buffer receiving the IV and the ciphertext after it. */
  method EncryptStage(aes: Primitive, key: seq<byte>, iv: seq<byte>, data: seq<byte>) returns (r: Option<seq<byte>>)
    requires Sound(aes) && aes.family == Aes
    ensures r == PrefixedStage(aes, key, iv, data)
  {
    var c := CbcStages.EncryptStage(aes, key, iv, data);
    if c.None? {
      return None;
    }
    var ciphertext := c.value;
    var result := new byte[|iv| + |ciphertext|](_ => 0);
    WriteBlock(result, 0, iv);
    WriteBlock(result, |iv|, ciphertext);
    assert result[..] == result[..|iv| + |ciphertext|] == iv + ciphertext;
    r := Some(result[..]);
  }

  /** `Encrypt`: stage with key 1, stage with key 2 over the first stage's output, upper-case hex. */
  method Encrypt(aes: Primitive, key1: seq<byte>, key2: seq<byte>, iv: seq<byte>, text: GoString) returns (r: Option<GoString>)
    requires Sound(aes) && aes.family == Aes
    ensures r == Encrypted(aes, key1, key2, iv, text)
  {
    var r1 := EncryptStage(aes, key1, iv, text);
    if r1.None? {
      return None;
    }
    var r2 := EncryptStage(aes, key2, iv, r1.value);
    if r2.None? {
      return None;
    }
    r := Some(Hex.UpperHex(r2.value));
  }

  /** `Decrypt`: hex-decode ignoring errors, drop 16 bytes and decrypt with key 2, drop 16 bytes and decrypt with key 1, strip zeros. */
  method Decrypt(aes: Primitive, key1: seq<byte>, key2: seq<byte>, iv: seq<byte>, s: GoString) returns (r: Option<GoString>)
    requires Sound(aes) && aes.family == Aes
    ensures r == Decrypted(aes, key1, key2, iv, s)
  {
    var data := Hex.Decode(s);
    if |data| < 16 {
      return None;
    }
    var r1 := CbcStages.DecryptStage(aes, key2, iv, data[16..]);
    if r1.None? || |r1.value| < 16 {
      return None;
    }
    var r2 := CbcStages.DecryptStage(aes, key1, iv, r1.value[16..]);
    if r2.None? {
      return None;
    }
    r := Some(TrimZeros(r2.value));
  }
}
