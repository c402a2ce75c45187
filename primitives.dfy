/**
 * The library block ciphers behind the layered units: AES (`crypto/aes`,
 * FIPS 197) and Triple-DES (`crypto/des`, NIST SP 800-67). Their internals
 * are not modelled: a primitive is a pair of keyed block functions, and
 * `Sound` states what the library guarantees for a key it accepts, namely
 * that both directions map blocks to blocks and decryption undoes
 * encryption. A key of any other length makes `NewCipher` /
 * `NewTripleDESCipher` return an error and a nil block, which the units
 * ignore.
 */
module Primitives {
  import opened Bytes
  import opened BlockModes

  /** `cipher.Block.Encrypt` or `Decrypt` for a key: key, input block, output block. */
  type KeyedFn = (seq<byte>, seq<byte>) -> seq<byte>

  datatype Family = Aes | TripleDes

  /** `aes.BlockSize` and `des.BlockSize`. */
  function BlockSizeOf(family: Family): BlockSize {
    match family
    case Aes => 16
    case TripleDes => 8
  }

  /** The key lengths `aes.NewCipher` and `des.NewTripleDESCipher` accept. */
  predicate ValidKey(family: Family, key: seq<byte>) {
    match family
    case Aes => |key| == 16 || |key| == 24 || |key| == 32
    case TripleDes => |key| == 24
  }

  datatype Primitive = Primitive(family: Family, encrypt: KeyedFn, decrypt: KeyedFn)

  /** What the library promises for every key it accepts: a block permutation and its inverse. */
  ghost predicate Sound(p: Primitive) {
    forall key: seq<byte>, b: seq<byte> | ValidKey(p.family, key) && |b| == BlockSizeOf(p.family) ::
      |p.encrypt(key, b)| == |b| && |p.decrypt(key, b)| == |b| && p.decrypt(key, p.encrypt(key, b)) == b
  }

  /** `block.Encrypt` for an accepted key, as a block function. */
  function Forward(p: Primitive, key: seq<byte>): (f: BlockFn)
    requires Sound(p) && ValidKey(p.family, key)
    ensures SizePreserving(f, BlockSizeOf(p.family))
  {
    b requires |b| == BlockSizeOf(p.family) => p.encrypt(key, b)
  }

  /** `block.Decrypt` for an accepted key, as a block function. */
  function Backward(p: Primitive, key: seq<byte>): (g: BlockFn)
    requires Sound(p) && ValidKey(p.family, key)
    ensures SizePreserving(g, BlockSizeOf(p.family))
  {
    b requires |b| == BlockSizeOf(p.family) => p.decrypt(key, b)
  }

  /** Decryption under a key undoes encryption under the same key, block by block. */
  lemma BackwardInverts(p: Primitive, key: seq<byte>)
    requires Sound(p) && ValidKey(p.family, key)
    ensures Inverts(Backward(p, key), Forward(p, key), BlockSizeOf(p.family))
  {
    var bs := BlockSizeOf(p.family);
    forall b: seq<byte> | |b| == bs
      ensures Backward(p, key)(Forward(p, key)(b)) == b
    {
      assert p.decrypt(key, p.encrypt(key, b)) == b;
    }
  }
}
