/**
 * The word-level chaining loops of `ModXTEAIV`, for any pair transform `t`
 * and its inverse `u`. Each plaintext pair is XORed with the previous
 * ciphertext pair (the IV pair for the first block) before `t`; each
 * decrypted pair is XORed with the previous ciphertext pair after `u`.
 * Because `PutUint32` of an XOR is the byte-wise XOR of the `PutUint32`
 * bytes, these loops compute CBC over 8-byte blocks, with the IV bytes
 * written by `PutUint32` from the two IV words.
 */
module PairChain {
  import opened Bits
  import opened Bytes
  import opened BlockModes
  import opened Xtea
  import opened PairBlocks

  /** `v0 ^ prevV0`, `v1 ^ prevV1`. */
  function XorPair(a: Pair, b: Pair): Pair {
    Pair(Xor32(a.v0, b.v0), Xor32(a.v1, b.v1))
  }

  /** The bytes of an XOR of pairs are the XOR of their bytes. */
  lemma PairBytesXor(a: Pair, b: Pair)
    ensures PairBytes(XorPair(a, b)) == XorBytes(PairBytes(a), PairBytes(b))
  {
    WordBytesXor(a.v0, b.v0);
    WordBytesXor(a.v1, b.v1);
    XorBytesAppend(WordBytes(a.v0), WordBytes(a.v1), WordBytes(b.v0), WordBytes(b.v1));
  }

  /** Encrypting the XOR of the words of block `b` with `p` is the pair block function on the XOR of the bytes. */
  lemma EncryptWords(t: PairFn, b: seq<byte>, p: Pair)
    requires |b| == 8
    ensures PairBytes(t(XorPair(ReadPair(b, 0), p))) == OnBytes(t)(XorBytes(b, PairBytes(p)))
  {
    var r := ReadPair(b, 0);
    var q := XorPair(r, p);
    var x := XorBytes(b, PairBytes(p));
    ReadPairInverse(b, 0);
    assert b[0..8] == b;
    PairBytesXor(r, p);
    assert PairBytes(q) == x;
    PairBytesInverse(q);
    assert ReadPair(x, 0) == q;
    assert OnBytes(t)(x) == PairBlock(t, x);
  }

  /** XORing the decrypted words of block `b` with `p` is the XOR of the pair block function's bytes with those of `p`. */
  lemma DecryptWords(u: PairFn, b: seq<byte>, p: Pair)
    requires |b| == 8
    ensures PairBytes(XorPair(u(ReadPair(b, 0)), p)) == XorBytes(OnBytes(u)(b), PairBytes(p))
  {
    PairBytesXor(u(ReadPair(b, 0)), p);
  }

  /** The words at offset `i` of `d` are the first words of `d[i..]`. */
  lemma ReadPairSuffix(d: seq<byte>, i: nat)
    requires i + 8 <= |d|
    ensures ReadPair(d, i) == ReadPair(d[i..], 0)
  {
    var s := d[i..];
    assert s[0..4] == d[i..i + 4] && s[4..8] == d[i + 4..i + 8];
  }

  /**
   * What the encryption loop writes from offset `i` on, given the previous
   * words `prev`: each pair of words read is XORed with `prev`, transformed,
   * and becomes the next `prev`. A tail shorter than a block is where Go
   * panics; nothing is written for it here.
   */
  function ChainEncrypt(t: PairFn, prev: Pair, d: seq<byte>): (r: seq<byte>)
    decreases |d|
  {
    if |d| < 8 then []
    else
      var e := t(XorPair(ReadPair(d, 0), prev));
      PairBytes(e) + ChainEncrypt(t, e, d[8..])
  }

  /** What the decryption loop writes: each pair read is transformed, XORed with `prev`, and becomes the next `prev`. */
  function ChainDecrypt(u: PairFn, prev: Pair, d: seq<byte>): (r: seq<byte>)
    decreases |d|
  {
    if |d| < 8 then []
    else
      var c := ReadPair(d, 0);
      PairBytes(XorPair(u(c), prev)) + ChainDecrypt(u, c, d[8..])
  }

  /** The chain over one block and a rest: the block's output, then the chain over the rest. */
  lemma ChainEncryptCons(t: PairFn, prev: Pair, d0: seq<byte>, rest: seq<byte>)
    requires |d0| == 8
    ensures ChainEncrypt(t, prev, d0 + rest)
         == PairBytes(t(XorPair(ReadPair(d0, 0), prev))) + ChainEncrypt(t, t(XorPair(ReadPair(d0, 0), prev)), rest)
  {
    var d := d0 + rest;
    assert d[0..4] == d0[0..4] && d[4..8] == d0[4..8] && d[8..] == rest;
  }

  lemma ChainDecryptCons(u: PairFn, prev: Pair, c0: seq<byte>, rest: seq<byte>)
    requires |c0| == 8
    ensures ChainDecrypt(u, prev, c0 + rest)
         == PairBytes(XorPair(u(ReadPair(c0, 0)), prev)) + ChainDecrypt(u, ReadPair(c0, 0), rest)
  {
    var d := c0 + rest;
    assert d[0..4] == c0[0..4] && d[4..8] == c0[4..8] && d[8..] == rest;
  }

  /** The word-level encryption chain is CBC over 8-byte blocks with the IV bytes of `prev`. */
  lemma {:induction false} ChainEncryptIsCbc(t: PairFn, prev: Pair, d: seq<byte>)
    requires |d| % 8 == 0
    ensures ChainEncrypt(t, prev, d) == CbcEncrypt(OnBytes(t), 8, PairBytes(prev), d)
    decreases |d|
  {
    if d != [] {
      var d0, rest := d[..8], d[8..];
      assert d == d0 + rest;
      var e := t(XorPair(ReadPair(d0, 0), prev));
      ChainEncryptIsCbc(t, e, rest);
      ChainEncryptIsCbcStep(t, prev, d0, rest, e);
    }
  }

  lemma ChainEncryptIsCbcStep(t: PairFn, prev: Pair, d0: seq<byte>, rest: seq<byte>, e: Pair)
    requires |d0| == 8 && |rest| % 8 == 0 && e == t(XorPair(ReadPair(d0, 0), prev))
    requires ChainEncrypt(t, e, rest) == CbcEncrypt(OnBytes(t), 8, PairBytes(e), rest)
    ensures |d0 + rest| % 8 == 0
    ensures ChainEncrypt(t, prev, d0 + rest) == CbcEncrypt(OnBytes(t), 8, PairBytes(prev), d0 + rest)
  {
    CbcEncryptCons(OnBytes(t), 8, PairBytes(prev), d0, rest);
    EncryptWords(t, d0, prev);
    ChainEncryptCons(t, prev, d0, rest);
  }

  /** The word-level decryption chain is CBC decryption over 8-byte blocks with the IV bytes of `prev`. */
  lemma {:induction false} ChainDecryptIsCbc(u: PairFn, prev: Pair, d: seq<byte>)
    requires |d| % 8 == 0
    ensures ChainDecrypt(u, prev, d) == CbcDecrypt(OnBytes(u), 8, PairBytes(prev), d)
    decreases |d|
  {
    if d != [] {
      var c0, rest := d[..8], d[8..];
      assert d == c0 + rest;
      ChainDecryptIsCbc(u, ReadPair(c0, 0), rest);
      ChainDecryptIsCbcStep(u, prev, c0, rest);
    }
  }

  lemma ChainDecryptIsCbcStep(u: PairFn, prev: Pair, c0: seq<byte>, rest: seq<byte>)
    requires |c0| == 8 && |rest| % 8 == 0
    requires ChainDecrypt(u, ReadPair(c0, 0), rest) == CbcDecrypt(OnBytes(u), 8, PairBytes(ReadPair(c0, 0)), rest)
    ensures |c0 + rest| % 8 == 0
    ensures ChainDecrypt(u, prev, c0 + rest) == CbcDecrypt(OnBytes(u), 8, PairBytes(prev), c0 + rest)
  {
    var g, c := OnBytes(u), ReadPair(c0, 0);
    ReadPairInverse(c0, 0);
    assert c0[0..8] == c0;
    assert PairBytes(c) == c0;
    DecryptWords(u, c0, prev);
    var head := PairBytes(XorPair(u(c), prev));
    assert head == XorBytes(g(c0), PairBytes(prev));
    CbcDecryptCons(g, 8, PairBytes(prev), c0, rest);
    ChainDecryptCons(u, prev, c0, rest);
  }

  /** One turn of the encryption loop: the chain from offset `i` is the block written now and the chain after it. */
  lemma EncryptTurn(t: PairFn, prev: Pair, d: seq<byte>, i: nat)
    requires i + 8 <= |d|
    ensures ChainEncrypt(t, prev, d[i..])
         == PairBytes(t(XorPair(ReadPair(d, i), prev))) + ChainEncrypt(t, t(XorPair(ReadPair(d, i), prev)), d[i + 8..])
  {
    ReadPairSuffix(d, i);
    assert d[i..][8..] == d[i + 8..];
  }

  /** One turn of the decryption loop. */
  lemma DecryptTurn(u: PairFn, prev: Pair, d: seq<byte>, i: nat)
    requires i + 8 <= |d|
    ensures ChainDecrypt(u, prev, d[i..])
         == PairBytes(XorPair(u(ReadPair(d, i)), prev)) + ChainDecrypt(u, ReadPair(d, i), d[i + 8..])
  {
    ReadPairSuffix(d, i);
    assert d[i..][8..] == d[i + 8..];
  }

  /** Appending a block to the written prefix keeps the prefix-plus-rest sum. */
  lemma Regroup(r: seq<byte>, b: seq<byte>, rest: seq<byte>, total: seq<byte>)
    requires total == r + (b + rest)
    ensures total == (r + b) + rest
  {
  }

  /**
   * `ModXTEAIV.Encrypt`'s loop: XOR the words read at offset `i` with the
   * previous ciphertext words, transform, write the result and keep it as
   * the new previous words. On a partial last block Go panics (`ok` false)
   * at the `PutUint32` that writes past the end of the result buffer.
   */
  method ChainEncryptBuffer(t: PairFn, iv: Pair, data: seq<byte>) returns (ok: bool, result: array<byte>)
    ensures ok <==> |data| % 8 == 0
    ensures ok ==> result[..] == ChainEncrypt(t, iv, data)
  {
    result := new byte[|data|](_ => 0);
    var prev := iv;
    var i := 0;
    while i < |data|
      invariant 0 <= i <= |data| && i % 8 == 0 && result.Length == |data|
      invariant result[..i] + ChainEncrypt(t, prev, data[i..]) == ChainEncrypt(t, iv, data)
    {
      if i + 8 > |data| {
        BlockOverruns(i, |data|, 8);
        ok := false;
        return;
      }
      var e := t(XorPair(ReadPair(data, i), prev));
      EncryptTurn(t, prev, data, i);
      Regroup(result[..i], PairBytes(e), ChainEncrypt(t, e, data[i + 8..]), ChainEncrypt(t, iv, data));
      WriteBlock(result, i, PairBytes(e));
      AddBlockLength(i, 8);
      prev := e;
      i := i + 8;
    }
    assert data[i..] == [] && result[..i] == result[..];
    ok := i % 8 == 0;
  }

  /**
   * `ModXTEAIV.Decrypt`'s loop: transform the words read at offset `i`, XOR
   * them with the previous ciphertext words, write the result and keep the
   * words read as the new previous words. On a partial last block Go panics
   * at the `PutUint32` that writes past the end of the result buffer.
   */
  method ChainDecryptBuffer(u: PairFn, iv: Pair, data: seq<byte>) returns (ok: bool, result: array<byte>)
    ensures ok <==> |data| % 8 == 0
    ensures ok ==> result[..] == ChainDecrypt(u, iv, data)
  {
    result := new byte[|data|](_ => 0);
    var prev := iv;
    var i := 0;
    while i < |data|
      invariant 0 <= i <= |data| && i % 8 == 0 && result.Length == |data|
      invariant result[..i] + ChainDecrypt(u, prev, data[i..]) == ChainDecrypt(u, iv, data)
    {
      if i + 8 > |data| {
        BlockOverruns(i, |data|, 8);
        ok := false;
        return;
      }
      var enc := ReadPair(data, i);
      var x := u(enc);
      DecryptTurn(u, prev, data, i);
      Regroup(result[..i], PairBytes(XorPair(x, prev)), ChainDecrypt(u, enc, data[i + 8..]), ChainDecrypt(u, iv, data));
      WriteBlock(result, i, PairBytes(XorPair(x, prev)));
      AddBlockLength(i, 8);
      prev := enc;
      i := i + 8;
    }
    assert data[i..] == [] && result[..i] == result[..];
    ok := i % 8 == 0;
  }
}
