/**
 * The byte side of the 8-byte block loop of `ModXTEA`: each block is read
 * as two big-endian words, transformed, and written back with `PutUint32`.
 */
module PairBlocks {
  import opened Bytes
  import opened BlockModes
  import opened Xtea

  /** One 8-byte block through a word-pair transform: `Uint32` reads, transform, `PutUint32` writes. */
  function PairBlock(t: PairFn, b: seq<byte>): (r: seq<byte>)
    requires |b| == 8
    ensures |r| == 8
  {
    PairBytes(t(ReadPair(b, 0)))
  }

  /** A word-pair transform as a block function on 8-byte blocks. */
  function OnBytes(t: PairFn): (f: BlockFn)
    ensures SizePreserving(f, 8)
  {
    b requires |b| == 8 => PairBlock(t, b)
  }

  lemma PairBlockInverse(u: PairFn, t: PairFn, b: seq<byte>)
    requires |b| == 8 && forall p :: u(t(p)) == p
    ensures PairBlock(u, PairBlock(t, b)) == b
  {
    PairBytesInverse(t(ReadPair(b, 0)));
    ReadPairInverse(b, 0);
    assert b[0..8] == b;
  }
}
