/**
 * The CBC stages of the two CBC units: zero-pad to the primitive's block
 * size and run the library's CBC encrypter (`cipher.NewCBCEncrypter`,
 * `CryptBlocks`), or run its CBC decrypter over the data as it is. The
 * library panics when the block is nil (a refused key), when the IV is not
 * one block long, and when the decrypter's input is not a whole number of
 * blocks; a panic is `None`.
 */
module CbcStages {
  import opened Bytes
  import opened Wrappers
  import opened BlockModes
  import opened Primitives

  /** The library accepts this key and IV. */
  predicate Usable(p: Primitive, key: seq<byte>, iv: seq<byte>) {
    ValidKey(p.family, key) && |iv| == BlockSizeOf(p.family)
  }

  /** The CBC ciphertext of the padded data (section 6.2 of NIST SP 800-38A). */
  function EncryptedStage(p: Primitive, key: seq<byte>, iv: seq<byte>, data: seq<byte>): (r: Option<seq<byte>>)
    requires Sound(p)
    ensures r.Some? <==> Usable(p, key, iv)
    ensures r.Some? ==> |r.value| == |Padded(data, BlockSizeOf(p.family))|
  {
    if !Usable(p, key, iv) then None
    else Some(CbcEncrypt(Forward(p, key), BlockSizeOf(p.family), iv, Padded(data, BlockSizeOf(p.family))))
  }

  /** The CBC decryption of the data; a partial last block panics. */
  function DecryptedStage(p: Primitive, key: seq<byte>, iv: seq<byte>, data: seq<byte>): (r: Option<seq<byte>>)
    requires Sound(p)
    ensures r.Some? <==> Usable(p, key, iv) && |data| % BlockSizeOf(p.family) == 0
    ensures r.Some? ==> |r.value| == |data|
  {
    if !Usable(p, key, iv) || |data| % BlockSizeOf(p.family) != 0 then None
    else Some(CbcDecrypt(Backward(p, key), BlockSizeOf(p.family), iv, data))
  }

  /** A stage yields one ciphertext block per padded block. */
  lemma EncryptedStageLength(p: Primitive, key: seq<byte>, iv: seq<byte>, data: seq<byte>)
    requires Sound(p) && Usable(p, key, iv)
    ensures EncryptedStage(p, key, iv, data).Some?
    ensures |EncryptedStage(p, key, iv, data).value| == |Padded(data, BlockSizeOf(p.family))|
  {
  }

  /** Decryption with the same key and IV undoes the stage, up to the padding. */
  lemma StageRoundTrip(p: Primitive, key: seq<byte>, iv: seq<byte>, data: seq<byte>)
    requires Sound(p) && Usable(p, key, iv)
    ensures EncryptedStage(p, key, iv, data).Some?
    ensures DecryptedStage(p, key, iv, EncryptedStage(p, key, iv, data).value) == Some(Padded(data, BlockSizeOf(p.family)))
  {
    var bs := BlockSizeOf(p.family);
    BackwardInverts(p, key);
    CbcRoundTrip(Backward(p, key), Forward(p, key), bs, iv, Padded(data, bs));
  }

  /**
   * Ciphertext block `k` is the primitive applied to padded block `k` XORed
   * with ciphertext block `k - 1`, or with the IV for the first block.
   */
  lemma EncryptedStageBlock(p: Primitive, key: seq<byte>, iv: seq<byte>, data: seq<byte>, k: nat)
    requires Sound(p) && Usable(p, key, iv)
    requires (k + 1) * BlockSizeOf(p.family) <= |Padded(data, BlockSizeOf(p.family))|
    ensures EncryptedStage(p, key, iv, data).Some?
    ensures |EncryptedStage(p, key, iv, data).value| == |Padded(data, BlockSizeOf(p.family))|
    ensures Block(EncryptedStage(p, key, iv, data).value, BlockSizeOf(p.family), k)
         == p.encrypt(key, XorBytes(Block(Padded(data, BlockSizeOf(p.family)), BlockSizeOf(p.family), k),
                                    PrevBlock(iv, EncryptedStage(p, key, iv, data).value, BlockSizeOf(p.family), k)))
  {
    var bs := BlockSizeOf(p.family);
    CbcEncryptBlock(Forward(p, key), bs, iv, Padded(data, bs), k);
  }

  /** An encryption stage: pad, then `CryptBlocks` into a buffer of the padded length. */
  method EncryptStage(p: Primitive, key: seq<byte>, iv: seq<byte>, data: seq<byte>) returns (r: Option<seq<byte>>)
    requires Sound(p)
    ensures r == EncryptedStage(p, key, iv, data)
  {
    var bs := BlockSizeOf(p.family);
    var padded := Pad(data, bs);
    if !Usable(p, key, iv) {
      return None;
    }
    r := Some(CbcEncrypt(Forward(p, key), bs, iv, padded));
  }

  /** A decryption stage: `CryptBlocks` into a buffer of the data's length. */
  method DecryptStage(p: Primitive, key: seq<byte>, iv: seq<byte>, data: seq<byte>) returns (r: Option<seq<byte>>)
    requires Sound(p)
    ensures r == DecryptedStage(p, key, iv, data)
  {
    var bs := BlockSizeOf(p.family);
    if !Usable(p, key, iv) || |data| % bs != 0 {
      return None;
    }
    r := Some(CbcDecrypt(Backward(p, key), bs, iv, data));
  }
}
