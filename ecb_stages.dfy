/**
 * The stage both ECB units run twice: zero-pad to the primitive's block
 * size, then encrypt every block on its own into a fresh buffer; and the
 * inverse stage, which decrypts every block without padding. With a key the
 * library refuses, the block is nil and the first block operation panics;
 * with no block to process there is none. A panic is `None`.
 */
module EcbStages {
  import opened Bytes
  import opened Wrappers
  import Hex
  import opened BlockModes
  import opened Primitives

  /** What an encryption stage returns for `data`. */
  function EncryptedStage(p: Primitive, key: seq<byte>, data: seq<byte>): (r: Option<seq<byte>>)
    requires Sound(p)
    ensures r.None? <==> data != [] && !ValidKey(p.family, key)
    ensures r.Some? ==> |r.value| == |Padded(data, BlockSizeOf(p.family))|
  {
    var padded := Padded(data, BlockSizeOf(p.family));
    if padded == [] then Some([])
    else if !ValidKey(p.family, key) then None
    else Some(Ecb(Forward(p, key), BlockSizeOf(p.family), padded))
  }

  /** What a decryption stage returns for `data`: a partial last block panics. */
  function DecryptedStage(p: Primitive, key: seq<byte>, data: seq<byte>): (r: Option<seq<byte>>)
    requires Sound(p)
    ensures r.None? <==> data != [] && (!ValidKey(p.family, key) || |data| % BlockSizeOf(p.family) != 0)
    ensures r.Some? ==> |r.value| == |data|
  {
    if data == [] then Some([])
    else if !ValidKey(p.family, key) || |data| % BlockSizeOf(p.family) != 0 then None
    else Some(Ecb(Backward(p, key), BlockSizeOf(p.family), data))
  }

  /** Two encryption stages, key 1 then key 2, and upper-case hex. */
  function Encrypted(p: Primitive, key1: seq<byte>, key2: seq<byte>, text: GoString): (r: Option<GoString>)
    requires Sound(p)
    ensures r.Some? ==> Hex.UpperHexText(r.value)
  {
    match EncryptedStage(p, key1, text)
    case None => None
    case Some(r1) =>
      match EncryptedStage(p, key2, r1)
      case None => None
      case Some(r2) => Hex.UpperHexIsText(r2); Some(Hex.UpperHex(r2))
  }

  /** Hex-decode ignoring errors, two decryption stages, key 2 then key 1, and trailing zeros stripped. */
  function Decrypted(p: Primitive, key1: seq<byte>, key2: seq<byte>, s: GoString): (r: Option<GoString>)
    requires Sound(p)
    ensures r.Some? ==> 2 * |r.value| <= |s| && NoTrailingZero(r.value)
  {
    match DecryptedStage(p, key2, Hex.Decode(s))
    case None => None
    case Some(r1) =>
      match DecryptedStage(p, key1, r1)
      case None => None
      case Some(r2) => Some(TrimZeros(r2))
  }

  /** With an accepted key, a stage yields one output block per padded input block. */
  lemma EncryptedStageLength(p: Primitive, key: seq<byte>, data: seq<byte>)
    requires Sound(p) && ValidKey(p.family, key)
    ensures EncryptedStage(p, key, data).Some?
    ensures |EncryptedStage(p, key, data).value| == |Padded(data, BlockSizeOf(p.family))|
  {
  }

  /** Output block `k` of a stage is the primitive applied to padded input block `k` alone. */
  lemma EncryptedStageBlock(p: Primitive, key: seq<byte>, data: seq<byte>, k: nat)
    requires Sound(p) && ValidKey(p.family, key)
    requires (k + 1) * BlockSizeOf(p.family) <= |Padded(data, BlockSizeOf(p.family))|
    ensures EncryptedStage(p, key, data).Some?
    ensures |EncryptedStage(p, key, data).value| == |Padded(data, BlockSizeOf(p.family))|
    ensures Block(EncryptedStage(p, key, data).value, BlockSizeOf(p.family), k)
         == p.encrypt(key, Block(Padded(data, BlockSizeOf(p.family)), BlockSizeOf(p.family), k))
  {
    var bs := BlockSizeOf(p.family);
    EcbBlock(Forward(p, key), bs, Padded(data, bs), k);
  }

  /** The decryption stage undoes the encryption stage, up to the padding. */
  lemma StageRoundTrip(p: Primitive, key: seq<byte>, data: seq<byte>)
    requires Sound(p) && ValidKey(p.family, key)
    ensures EncryptedStage(p, key, data).Some?
    ensures DecryptedStage(p, key, EncryptedStage(p, key, data).value) == Some(Padded(data, BlockSizeOf(p.family)))
  {
    var bs := BlockSizeOf(p.family);
    BackwardInverts(p, key);
    EcbInverse(Backward(p, key), Forward(p, key), bs, Padded(data, bs));
  }

  /** The empty text encrypts to the empty string whatever the keys: no block is ever processed. */
  lemma EmptyText(p: Primitive, key1: seq<byte>, key2: seq<byte>)
    requires Sound(p)
    ensures Encrypted(p, key1, key2, []) == Some([])
  {
  }

  /** A refused first key panics on any non-empty text. */
  lemma RefusedKey(p: Primitive, key1: seq<byte>, key2: seq<byte>, text: GoString)
    requires Sound(p) && !ValidKey(p.family, key1) && text != []
    ensures Encrypted(p, key1, key2, text) == None
  {
  }

  /**
   * With accepted keys: the output is upper-case hex of two stages whose
   * second adds no padding, so it has two digits per padded text byte.
   */
  lemma EncryptedShape(p: Primitive, key1: seq<byte>, key2: seq<byte>, text: GoString)
    requires Sound(p) && ValidKey(p.family, key1) && ValidKey(p.family, key2)
    ensures Encrypted(p, key1, key2, text).Some?
    ensures |Encrypted(p, key1, key2, text).value| == 2 * |Padded(text, BlockSizeOf(p.family))|
    ensures forall i :: 0 <= i < |Encrypted(p, key1, key2, text).value| ==>
              Hex.IsUpperHexDigit(Encrypted(p, key1, key2, text).value[i])
  {
    var bs := BlockSizeOf(p.family);
    EncryptedStageLength(p, key1, text);
    var r1 := EncryptedStage(p, key1, text).value;
    EncryptedStageLength(p, key2, r1);
    Hex.UpperHexDigits(EncryptedStage(p, key2, r1).value);
  }

  /** With accepted keys, decryption of an encryption gives the text without its trailing zeros. */
  lemma RoundTrip(p: Primitive, key1: seq<byte>, key2: seq<byte>, text: GoString)
    requires Sound(p) && ValidKey(p.family, key1) && ValidKey(p.family, key2)
    ensures Encrypted(p, key1, key2, text).Some?
    ensures Decrypted(p, key1, key2, Encrypted(p, key1, key2, text).value) == Some(TrimZeros(text))
  {
    var bs := BlockSizeOf(p.family);
    StageRoundTrip(p, key1, text);
    var r1 := EncryptedStage(p, key1, text).value;
    StageRoundTrip(p, key2, r1);
    var r2 := EncryptedStage(p, key2, r1).value;
    Hex.DecodeUpperHex(r2);
    assert Padded(r1, bs) == r1;
    TrimZerosPadded(text, bs);
  }

  /** With accepted keys, decryption fails exactly when the decoded length is not a whole number of blocks. */
  lemma DecryptedDefined(p: Primitive, key1: seq<byte>, key2: seq<byte>, s: GoString)
    requires Sound(p) && ValidKey(p.family, key1) && ValidKey(p.family, key2)
    ensures Decrypted(p, key1, key2, s).Some? <==> |Hex.Decode(s)| % BlockSizeOf(p.family) == 0
  {
  }

  /** An encryption stage: pad, then the block loop into a fresh buffer. */
  method EncryptStage(p: Primitive, key: seq<byte>, data: seq<byte>) returns (r: Option<seq<byte>>)
    requires Sound(p)
    ensures r == EncryptedStage(p, key, data)
  {
    var bs := BlockSizeOf(p.family);
    var padded := Pad(data, bs);
    if !ValidKey(p.family, key) {
      // the block is nil: the first `block.Encrypt` panics, if the loop runs at all
      return if |padded| == 0 then Some([]) else None;
    }
    var ok, ciphertext := EcbBuffer(Forward(p, key), bs, padded);
    r := Some(ciphertext[..]);
  }

  /** A decryption stage: the block loop into a fresh buffer, no padding. */
  method DecryptStage(p: Primitive, key: seq<byte>, data: seq<byte>) returns (r: Option<seq<byte>>)
    requires Sound(p)
    ensures r == DecryptedStage(p, key, data)
  {
    var bs := BlockSizeOf(p.family);
    if !ValidKey(p.family, key) {
      return if |data| == 0 then Some([]) else None;
    }
    var ok, plaintext := EcbBuffer(Backward(p, key), bs, data);
    if !ok {
      return None;
    }
    r := Some(plaintext[..]);
  }
}
