/**
 * Block-cipher modes as the cipher units use them: ECB (each block on its
 * own) and CBC as in section 6.2 of NIST SP 800-38A (Go's
 * `cipher.NewCBCEncrypter` / `NewCBCDecrypter`). A block function is a
 * partial function defined on blocks of `bs` bytes.
 */
module BlockModes {
  import opened Bytes

  type BlockFn = seq<byte> --> seq<byte>

  ghost predicate SizePreserving(f: BlockFn, bs: nat) {
    forall b: seq<byte> | |b| == bs :: f.requires(b) && |f(b)| == bs
  }

  /** `g` undoes `f` on every block. */
  ghost predicate Inverts(g: BlockFn, f: BlockFn, bs: nat) {
    SizePreserving(f, bs) && SizePreserving(g, bs) &&
    forall b: seq<byte> | |b| == bs :: g(f(b)) == b
  }

  /** A whole number of blocks, minus one block, is still a whole number of blocks. */
  lemma DropBlockLength(n: nat, bs: BlockSize)
    requires n % bs == 0 && n > 0
    ensures n >= bs && (n - bs) % bs == 0
  {
  }

  lemma AddBlockLength(n: nat, bs: BlockSize)
    requires n % bs == 0
    ensures (n + bs) % bs == 0
  {
  }

  /** The `k`-th block of `d`. */
  function Block(d: seq<byte>, bs: BlockSize, k: nat): (r: seq<byte>)
    requires (k + 1) * bs <= |d|
    ensures |r| == bs
  {
    d[k * bs..(k + 1) * bs]
  }

  /** ECB: every block through `f`, in order. */
  function Ecb(f: BlockFn, bs: BlockSize, d: seq<byte>): (r: seq<byte>)
    requires |d| % bs == 0 && SizePreserving(f, bs)
    ensures |r| == |d|
    decreases |d|
  {
    if d == [] then [] else f(d[..bs]) + Ecb(f, bs, d[bs..])
  }

  /** CBC encryption: each plaintext block is XORed with the previous ciphertext block (the IV first). */
  function CbcEncrypt(f: BlockFn, bs: BlockSize, iv: seq<byte>, d: seq<byte>): (r: seq<byte>)
    requires |iv| == bs && |d| % bs == 0 && SizePreserving(f, bs)
    ensures |r| == |d|
    decreases |d|
  {
    if d == [] then []
    else
      var c := f(XorBytes(d[..bs], iv));
      c + CbcEncrypt(f, bs, c, d[bs..])
  }

  /** CBC decryption: each decrypted block is XORed with the previous ciphertext block (the IV first). */
  function CbcDecrypt(g: BlockFn, bs: BlockSize, iv: seq<byte>, c: seq<byte>): (r: seq<byte>)
    requires |iv| == bs && |c| % bs == 0 && SizePreserving(g, bs)
    ensures |r| == |c|
    decreases |c|
  {
    if c == [] then []
    else XorBytes(g(c[..bs]), iv) + CbcDecrypt(g, bs, c[..bs], c[bs..])
  }

  /** ECB output block `k` depends on input block `k` alone. */
  lemma {:induction false} EcbBlock(f: BlockFn, bs: BlockSize, d: seq<byte>, k: nat)
    requires |d| % bs == 0 && SizePreserving(f, bs) && (k + 1) * bs <= |d|
    ensures |Ecb(f, bs, d)| == |d|
    ensures Block(Ecb(f, bs, d), bs, k) == f(Block(d, bs, k))
    decreases k
  {
    DropBlockLength(|d|, bs);
    var d0, d1 := d[..bs], d[bs..];
    assert d == d0 + d1;
    if k == 0 {
      EcbBlockFirst(f, bs, d0, d1);
    } else {
      BlockIndexDown(k, bs, |d|);
      EcbBlock(f, bs, d1, k - 1);
      EcbBlockStep(f, bs, d0, d1, k);
    }
  }

  lemma BlockIndexDown(k: nat, bs: BlockSize, n: nat)
    requires 0 < k && (k + 1) * bs <= n
    ensures k * bs <= n - bs
  {
    if bs == 8 {} else {}
  }

  lemma EcbBlockFirst(f: BlockFn, bs: BlockSize, d0: seq<byte>, d1: seq<byte>)
    requires |d0| == bs && |d1| % bs == 0 && SizePreserving(f, bs)
    ensures |d0 + d1| % bs == 0
    ensures |Ecb(f, bs, d0 + d1)| >= bs
    ensures Block(Ecb(f, bs, d0 + d1), bs, 0) == f(Block(d0 + d1, bs, 0))
  {
    AddBlockLength(|d1|, bs);
    EcbCons(f, bs, d0, d1);
    BlockHead(f(d0), Ecb(f, bs, d1), bs);
    BlockHead(d0, d1, bs);
  }

  /** The inductive step of EcbBlock. */
  lemma EcbBlockStep(f: BlockFn, bs: BlockSize, d0: seq<byte>, d1: seq<byte>, k: nat)
    requires |d0| == bs && |d1| % bs == 0 && SizePreserving(f, bs)
    requires 0 < k && (k + 1) * bs <= |d0 + d1|
    requires |Ecb(f, bs, d1)| == |d1|
    requires Block(Ecb(f, bs, d1), bs, k - 1) == f(Block(d1, bs, k - 1))
    ensures |d0 + d1| % bs == 0
    ensures |Ecb(f, bs, d0 + d1)| == |d0 + d1|
    ensures Block(Ecb(f, bs, d0 + d1), bs, k) == f(Block(d0 + d1, bs, k))
  {
    AddBlockLength(|d1|, bs);
    EcbCons(f, bs, d0, d1);
    BlockShift(f(d0), Ecb(f, bs, d1), bs, k);
    BlockShift(d0, d1, bs, k);
  }

  /** ECB of the data followed by one more block. */
  lemma {:induction false} EcbAppend(f: BlockFn, bs: BlockSize, d: seq<byte>, blk: seq<byte>)
    requires |d| % bs == 0 && |blk| == bs && SizePreserving(f, bs)
    ensures Ecb(f, bs, d + blk) == Ecb(f, bs, d) + f(blk)
    decreases |d|
  {
    if d == [] {
      assert d + blk == blk + [];
      EcbCons(f, bs, blk, []);
    } else {
      var d0, d1 := d[..bs], d[bs..];
      DropBlockLength(|d|, bs);
      AddBlockLength(|d1|, bs);
      AddBlockLength(|d1| + bs, bs);
      EcbAppend(f, bs, d1, blk);
      EcbAppendStep(f, bs, d0, d1, blk);
      assert d == d0 + d1;
    }
  }

  /** The inductive step of EcbAppend, for `d == d0 + d1`. */
  lemma EcbAppendStep(f: BlockFn, bs: BlockSize, d0: seq<byte>, d1: seq<byte>, blk: seq<byte>)
    requires |d0| == bs && |blk| == bs && SizePreserving(f, bs)
    requires |d1| % bs == 0 && (|d1| + bs) % bs == 0 && (|d1| + bs + bs) % bs == 0
    requires Ecb(f, bs, d1 + blk) == Ecb(f, bs, d1) + f(blk)
    ensures Ecb(f, bs, d0 + d1 + blk) == Ecb(f, bs, d0 + d1) + f(blk)
  {
    calc {
      Ecb(f, bs, d0 + d1 + blk);
      { SeqAssoc(d0, d1, blk); }
      Ecb(f, bs, d0 + (d1 + blk));
      { EcbCons(f, bs, d0, d1 + blk); }
      f(d0) + Ecb(f, bs, d1 + blk);
      f(d0) + (Ecb(f, bs, d1) + f(blk));
      { SeqAssoc(f(d0), Ecb(f, bs, d1), f(blk)); }
      (f(d0) + Ecb(f, bs, d1)) + f(blk);
      { EcbCons(f, bs, d0, d1); }
      Ecb(f, bs, d0 + d1) + f(blk);
    }
  }

  lemma SeqAssoc(a: seq<byte>, b: seq<byte>, c: seq<byte>)
    ensures a + (b + c) == (a + b) + c
  {
  }

  /** ECB decryption with an inverse block function recovers the input. */
  lemma {:induction false} EcbInverse(g: BlockFn, f: BlockFn, bs: BlockSize, d: seq<byte>)
    requires |d| % bs == 0 && Inverts(g, f, bs)
    ensures |Ecb(f, bs, d)| == |d|
    ensures Ecb(g, bs, Ecb(f, bs, d)) == d
    decreases |d|
  {
    if d != [] {
      DropBlockLength(|d|, bs);
      var d0, d1 := d[..bs], d[bs..];
      EcbInverse(g, f, bs, d1);
      EcbInverseStep(g, f, bs, d0, d1);
      assert d == d0 + d1;
    }
  }

  /** The inductive step of EcbInverse: the first block comes back, and the rest by hypothesis. */
  lemma EcbInverseStep(g: BlockFn, f: BlockFn, bs: BlockSize, d0: seq<byte>, d1: seq<byte>)
    requires |d0| == bs && |d1| % bs == 0 && Inverts(g, f, bs)
    requires |Ecb(f, bs, d1)| == |d1| && Ecb(g, bs, Ecb(f, bs, d1)) == d1
    ensures |d0 + d1| % bs == 0
    ensures Ecb(g, bs, Ecb(f, bs, d0 + d1)) == d0 + d1
  {
    EcbCons(f, bs, d0, d1);
    var e0, e1 := f(d0), Ecb(f, bs, d1);
    EcbCons(g, bs, e0, e1);
    assert g(e0) == d0;
  }

  /** ECB of one block followed by more. */
  lemma EcbCons(f: BlockFn, bs: BlockSize, d0: seq<byte>, rest: seq<byte>)
    requires |d0| == bs && |rest| % bs == 0 && SizePreserving(f, bs)
    ensures (|d0 + rest|) % bs == 0
    ensures Ecb(f, bs, d0 + rest) == f(d0) + Ecb(f, bs, rest)
  {
    AddBlockLength(|rest|, bs);
    assert (d0 + rest)[..bs] == d0 && (d0 + rest)[bs..] == rest;
  }

  /** CBC decryption with an inverse block function and the same IV recovers the plaintext. */
  lemma {:induction false} CbcRoundTrip(g: BlockFn, f: BlockFn, bs: BlockSize, iv: seq<byte>, d: seq<byte>)
    requires |iv| == bs && |d| % bs == 0 && Inverts(g, f, bs)
    ensures |CbcEncrypt(f, bs, iv, d)| == |d|
    ensures CbcDecrypt(g, bs, iv, CbcEncrypt(f, bs, iv, d)) == d
    decreases |d|
  {
    if d != [] {
      DropBlockLength(|d|, bs);
      var d0, d1 := d[..bs], d[bs..];
      var c := f(XorBytes(d0, iv));
      CbcRoundTrip(g, f, bs, c, d1);
      CbcRoundTripStep(g, f, bs, iv, d0, d1, c);
      assert d == d0 + d1;
    }
  }

  /** The inductive step of CbcRoundTrip: the first block comes back, and the rest by hypothesis. */
  lemma CbcRoundTripStep(g: BlockFn, f: BlockFn, bs: BlockSize, iv: seq<byte>, d0: seq<byte>, d1: seq<byte>, c: seq<byte>)
    requires |iv| == bs && |d0| == bs && |d1| % bs == 0 && Inverts(g, f, bs)
    requires c == f(XorBytes(d0, iv)) && |c| == bs
    requires |CbcEncrypt(f, bs, c, d1)| == |d1| && CbcDecrypt(g, bs, c, CbcEncrypt(f, bs, c, d1)) == d1
    ensures |d0 + d1| % bs == 0
    ensures CbcDecrypt(g, bs, iv, CbcEncrypt(f, bs, iv, d0 + d1)) == d0 + d1
  {
    var x := XorBytes(d0, iv);
    var rest := CbcEncrypt(f, bs, c, d1);
    CbcEncryptCons(f, bs, iv, d0, d1);
    CbcDecryptCons(g, bs, iv, c, rest);
    assert g(c) == x;
    XorInvolution(d0, iv);
  }

  /** CBC encryption of one block followed by more. */
  lemma CbcEncryptCons(f: BlockFn, bs: BlockSize, iv: seq<byte>, d0: seq<byte>, rest: seq<byte>)
    requires |iv| == bs && |d0| == bs && |rest| % bs == 0 && SizePreserving(f, bs)
    ensures (|d0 + rest|) % bs == 0
    ensures CbcEncrypt(f, bs, iv, d0 + rest) == f(XorBytes(d0, iv)) + CbcEncrypt(f, bs, f(XorBytes(d0, iv)), rest)
  {
    AddBlockLength(|rest|, bs);
    assert (d0 + rest)[..bs] == d0 && (d0 + rest)[bs..] == rest;
  }

  /** CBC decryption of one block followed by more. */
  lemma CbcDecryptCons(g: BlockFn, bs: BlockSize, iv: seq<byte>, c0: seq<byte>, rest: seq<byte>)
    requires |iv| == bs && |c0| == bs && |rest| % bs == 0 && SizePreserving(g, bs)
    ensures (|c0 + rest|) % bs == 0
    ensures CbcDecrypt(g, bs, iv, c0 + rest) == XorBytes(g(c0), iv) + CbcDecrypt(g, bs, c0, rest)
  {
    AddBlockLength(|rest|, bs);
    assert (c0 + rest)[..bs] == c0 && (c0 + rest)[bs..] == rest;
  }

  /**
   * Decrypted block `k` is the block function of ciphertext block `k`
   * XORed with ciphertext block `k - 1` (the IV for block 0): nothing else
   * of the ciphertext reaches it.
   */
  lemma {:induction false} CbcDecryptBlock(g: BlockFn, bs: BlockSize, iv: seq<byte>, c: seq<byte>, k: nat)
    requires |iv| == bs && |c| % bs == 0 && SizePreserving(g, bs) && (k + 1) * bs <= |c|
    ensures |CbcDecrypt(g, bs, iv, c)| == |c|
    ensures Block(CbcDecrypt(g, bs, iv, c), bs, k)
         == XorBytes(g(Block(c, bs, k)), PrevBlock(iv, c, bs, k))
    decreases k
  {
    DropBlockLength(|c|, bs);
    var c0, c1 := c[..bs], c[bs..];
    assert c == c0 + c1;
    if k == 0 {
      CbcDecryptFirstBlock(g, bs, iv, c0, c1);
    } else {
      BlockIndexDown(k, bs, |c|);
      CbcDecryptBlock(g, bs, c0, c1, k - 1);
      CbcDecryptBlockStep(g, bs, iv, c0, c1, k);
    }
  }

  lemma CbcDecryptFirstBlock(g: BlockFn, bs: BlockSize, iv: seq<byte>, c0: seq<byte>, c1: seq<byte>)
    requires |iv| == bs && |c0| == bs && |c1| % bs == 0 && SizePreserving(g, bs)
    ensures |c0 + c1| % bs == 0
    ensures |CbcDecrypt(g, bs, iv, c0 + c1)| >= bs
    ensures Block(CbcDecrypt(g, bs, iv, c0 + c1), bs, 0) == XorBytes(g(Block(c0 + c1, bs, 0)), PrevBlock(iv, c0 + c1, bs, 0))
  {
    CbcDecryptCons(g, bs, iv, c0, c1);
    BlockHead(XorBytes(g(c0), iv), CbcDecrypt(g, bs, c0, c1), bs);
    BlockHead(c0, c1, bs);
  }

  /** The inductive step of CbcDecryptBlock. */
  lemma CbcDecryptBlockStep(g: BlockFn, bs: BlockSize, iv: seq<byte>, c0: seq<byte>, c1: seq<byte>, k: nat)
    requires |iv| == bs && |c0| == bs && |c1| % bs == 0 && SizePreserving(g, bs)
    requires 0 < k && (k + 1) * bs <= |c0 + c1|
    requires |CbcDecrypt(g, bs, c0, c1)| == |c1|
    requires Block(CbcDecrypt(g, bs, c0, c1), bs, k - 1)
          == XorBytes(g(Block(c1, bs, k - 1)), PrevBlock(c0, c1, bs, k - 1))
    ensures |c0 + c1| % bs == 0
    ensures |CbcDecrypt(g, bs, iv, c0 + c1)| == |c0 + c1|
    ensures Block(CbcDecrypt(g, bs, iv, c0 + c1), bs, k)
         == XorBytes(g(Block(c0 + c1, bs, k)), PrevBlock(iv, c0 + c1, bs, k))
  {
    CbcDecryptCons(g, bs, iv, c0, c1);
    var x0, r' := XorBytes(g(c0), iv), CbcDecrypt(g, bs, c0, c1);
    BlockShift(x0, r', bs, k);
    BlockShift(c0, c1, bs, k);
    if k > 1 {
      BlockShift(c0, c1, bs, k - 1);
    } else {
      BlockHead(c0, c1, bs);
    }
  }

  /**
   * Ciphertext block `k` is the block function of plaintext block `k` XORed
   * with ciphertext block `k - 1` (the IV for block 0).
   */
  lemma {:induction false} CbcEncryptBlock(f: BlockFn, bs: BlockSize, iv: seq<byte>, d: seq<byte>, k: nat)
    requires |iv| == bs && |d| % bs == 0 && SizePreserving(f, bs) && (k + 1) * bs <= |d|
    ensures |CbcEncrypt(f, bs, iv, d)| == |d|
    ensures Block(CbcEncrypt(f, bs, iv, d), bs, k)
         == f(XorBytes(Block(d, bs, k), PrevBlock(iv, CbcEncrypt(f, bs, iv, d), bs, k)))
    decreases k
  {
    DropBlockLength(|d|, bs);
    var d0, d1 := d[..bs], d[bs..];
    assert d == d0 + d1;
    if k == 0 {
      CbcEncryptFirstBlock(f, bs, iv, d0, d1);
    } else {
      BlockIndexDown(k, bs, |d|);
      CbcEncryptBlock(f, bs, f(XorBytes(d0, iv)), d1, k - 1);
      CbcEncryptBlockStep(f, bs, iv, d0, d1, k);
    }
  }

  lemma CbcEncryptFirstBlock(f: BlockFn, bs: BlockSize, iv: seq<byte>, d0: seq<byte>, d1: seq<byte>)
    requires |iv| == bs && |d0| == bs && |d1| % bs == 0 && SizePreserving(f, bs)
    ensures |d0 + d1| % bs == 0
    ensures |CbcEncrypt(f, bs, iv, d0 + d1)| >= bs
    ensures Block(CbcEncrypt(f, bs, iv, d0 + d1), bs, 0)
         == f(XorBytes(Block(d0 + d1, bs, 0), PrevBlock(iv, CbcEncrypt(f, bs, iv, d0 + d1), bs, 0)))
  {
    CbcEncryptCons(f, bs, iv, d0, d1);
    var c0 := f(XorBytes(d0, iv));
    BlockHead(c0, CbcEncrypt(f, bs, c0, d1), bs);
    BlockHead(d0, d1, bs);
  }

  /** The inductive step of CbcEncryptBlock. */
  lemma CbcEncryptBlockStep(f: BlockFn, bs: BlockSize, iv: seq<byte>, d0: seq<byte>, d1: seq<byte>, k: nat)
    requires |iv| == bs && |d0| == bs && |d1| % bs == 0 && SizePreserving(f, bs)
    requires 0 < k && (k + 1) * bs <= |d0 + d1|
    requires |CbcEncrypt(f, bs, f(XorBytes(d0, iv)), d1)| == |d1|
    requires Block(CbcEncrypt(f, bs, f(XorBytes(d0, iv)), d1), bs, k - 1)
          == f(XorBytes(Block(d1, bs, k - 1), PrevBlock(f(XorBytes(d0, iv)), CbcEncrypt(f, bs, f(XorBytes(d0, iv)), d1), bs, k - 1)))
    ensures |d0 + d1| % bs == 0
    ensures |CbcEncrypt(f, bs, iv, d0 + d1)| == |d0 + d1|
    ensures Block(CbcEncrypt(f, bs, iv, d0 + d1), bs, k)
         == f(XorBytes(Block(d0 + d1, bs, k), PrevBlock(iv, CbcEncrypt(f, bs, iv, d0 + d1), bs, k)))
  {
    CbcEncryptCons(f, bs, iv, d0, d1);
    var c0 := f(XorBytes(d0, iv));
    var r' := CbcEncrypt(f, bs, c0, d1);
    BlockShift(c0, r', bs, k);
    BlockShift(d0, d1, bs, k);
    if k > 1 {
      BlockShift(c0, r', bs, k - 1);
    } else {
      BlockHead(c0, r', bs);
    }
  }

  /** The first `k` blocks followed by block `k` are the first `k + 1` blocks. */
  lemma PrefixBlock(c: seq<byte>, bs: BlockSize, k: nat)
    requires (k + 1) * bs <= |c|
    ensures c[..k * bs] + Block(c, bs, k) == c[..(k + 1) * bs]
  {
  }

  /** The block chained into block `k` of `c`: the IV for the first block, else block `k - 1`. */
  function PrevBlock(iv: seq<byte>, c: seq<byte>, bs: BlockSize, k: nat): seq<byte>
    requires k * bs <= |c|
  {
    if k == 0 then iv else Block(c, bs, k - 1)
  }

  /** A block inside `x` is the same block of `x + y`. */
  lemma BlockAppendLeft(x: seq<byte>, y: seq<byte>, bs: BlockSize, k: nat)
    requires (k + 1) * bs <= |x|
    ensures Block(x + y, bs, k) == Block(x, bs, k)
  {
  }

  /** The block right after `k` whole blocks is the appended one. */
  lemma BlockAppendRight(x: seq<byte>, y: seq<byte>, bs: BlockSize, k: nat)
    requires |x| == k * bs && |y| == bs
    ensures Block(x + y, bs, k) == y
  {
  }

  /** Block `k` of one block followed by `rest` is block `k - 1` of `rest`. */
  lemma BlockShift(c0: seq<byte>, rest: seq<byte>, bs: BlockSize, k: nat)
    requires |c0| == bs && 0 < k && (k + 1) * bs <= |c0 + rest|
    ensures Block(c0 + rest, bs, k) == Block(rest, bs, k - 1)
  {
  }

  lemma BlockHead(c0: seq<byte>, rest: seq<byte>, bs: BlockSize)
    requires |c0| == bs
    ensures Block(c0 + rest, bs, 0) == c0
  {
  }

  /**
   * Corrupting ciphertext block `k` affects decrypted blocks `k` and
   * `k + 1` only.
   */
  lemma CbcCorruptionIsLocal(g: BlockFn, bs: BlockSize, iv: seq<byte>, c: seq<byte>, c': seq<byte>, k: nat, j: nat)
    requires |iv| == bs && |c| % bs == 0 && |c'| == |c| && SizePreserving(g, bs)
    requires (j + 1) * bs <= |c|
    requires forall i :: 0 <= i < |c| && !(k * bs <= i < (k + 1) * bs) ==> c[i] == c'[i]
    requires j != k && j != k + 1
    ensures |CbcDecrypt(g, bs, iv, c)| == |CbcDecrypt(g, bs, iv, c')| == |c|
    ensures Block(CbcDecrypt(g, bs, iv, c), bs, j) == Block(CbcDecrypt(g, bs, iv, c'), bs, j)
  {
    CbcDecryptBlock(g, bs, iv, c, j);
    CbcDecryptBlock(g, bs, iv, c', j);
    SameBlock(c, c', bs, k, j);
    if j > 0 {
      SameBlock(c, c', bs, k, j - 1);
    }
  }

  /** ECB has no chaining: corrupting ciphertext block `k` affects decrypted block `k` only. */
  lemma EcbCorruptionIsLocal(g: BlockFn, bs: BlockSize, c: seq<byte>, c': seq<byte>, k: nat, j: nat)
    requires |c| % bs == 0 && |c'| == |c| && SizePreserving(g, bs)
    requires (j + 1) * bs <= |c|
    requires forall i :: 0 <= i < |c| && !(k * bs <= i < (k + 1) * bs) ==> c[i] == c'[i]
    requires j != k
    ensures |Ecb(g, bs, c)| == |Ecb(g, bs, c')| == |c|
    ensures Block(Ecb(g, bs, c), bs, j) == Block(Ecb(g, bs, c'), bs, j)
  {
    EcbBlock(g, bs, c, j);
    EcbBlock(g, bs, c', j);
    SameBlock(c, c', bs, k, j);
  }

  lemma SameBlock(c: seq<byte>, c': seq<byte>, bs: BlockSize, k: nat, j: nat)
    requires |c'| == |c| && (j + 1) * bs <= |c| && j != k
    requires forall i :: 0 <= i < |c| && !(k * bs <= i < (k + 1) * bs) ==> c[i] == c'[i]
    ensures Block(c, bs, j) == Block(c', bs, j)
  {
    forall i | j * bs <= i < (j + 1) * bs ensures c[i] == c'[i] {
      if j < k { assert (j + 1) * bs <= k * bs; } else { assert (k + 1) * bs <= j * bs; }
    }
  }

  /** A block that starts inside a whole number of blocks ends inside it too. */
  lemma BlockFits(i: nat, n: nat, bs: BlockSize)
    requires i % bs == 0 && n % bs == 0 && i < n
    ensures i + bs <= n
  {
    if bs == 8 { } else { }
  }

  /** A block that starts inside the data but does not fit means the length is not a whole number of blocks. */
  lemma BlockOverruns(i: nat, n: nat, bs: BlockSize)
    requires i % bs == 0 && i < n < i + bs
    ensures n % bs != 0
  {
    if bs == 8 { } else { }
  }

  /** One block written into the result buffer extends the ECB output by that block's image. */
  lemma EcbStep(f: BlockFn, bs: BlockSize, data: seq<byte>, i: nat, prev: seq<byte>, out: seq<byte>)
    requires SizePreserving(f, bs) && i % bs == 0 && i + bs <= |data|
    requires prev == Ecb(f, bs, data[..i]) && out == f(data[i..i + bs])
    ensures (i + bs) % bs == 0
    ensures prev + out == Ecb(f, bs, data[..i + bs])
  {
    assert data[..i + bs] == data[..i] + data[i..i + bs];
    AddBlockLength(i, bs);
    EcbAppend(f, bs, data[..i], data[i..i + bs]);
  }

  /**
   * The block loop every ECB-style unit runs over a buffer: block `k` of the
   * result is `f` of block `k` of the input. The loop slices `bs` bytes at a
   * time, so where the length is not a whole number of blocks the last slice
   * runs past the end and Go panics; `ok` is false exactly then.
   */
  method EcbBuffer(f: BlockFn, bs: BlockSize, data: seq<byte>) returns (ok: bool, result: array<byte>)
    requires SizePreserving(f, bs)
    ensures ok <==> |data| % bs == 0
    ensures ok ==> result[..] == Ecb(f, bs, data)
  {
    result := new byte[|data|](_ => 0);
    var i := 0;
    while i < |data|
      invariant 0 <= i <= |data| && i % bs == 0
      invariant result.Length == |data|
      invariant result[..i] == Ecb(f, bs, data[..i])
      modifies result
    {
      if i + bs > |data| {
        BlockOverruns(i, |data|, bs);
        ok := false;
        return;
      }
      var out := f(data[i..i + bs]);
      ghost var prev := result[..i];
      WriteBlock(result, i, out);
      EcbStep(f, bs, data, i, prev, out);
      i := i + bs;
    }
    assert data[..i] == data && result[..i] == result[..];
    ok := true;
  }
}
