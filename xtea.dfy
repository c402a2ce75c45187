/**
 * The modified XTEA block function shared by `ModXTEA` and `ModXTEAIV`:
 * 32 rounds on a pair of 32-bit words, with the round key chosen from a
 * four-word key by `sum & 3` and `(sum >> 11) & 3`. All arithmetic is Go
 * `uint32` arithmetic, written out with the wrapping operators of `Bits`.
 */
module Xtea {
  import opened Bits
  import opened Bytes

  const Delta: Word := 0x9E3779B9
  const Rounds: nat := 32

  /** The starting `sum` of `decryptBlock`: `delta * 32` in `uint32`. */
  const DecryptSum: Word := 0xC6EF3720

  /** `delta * 32` wraps to `DecryptSum`, and taking 32 deltas from it comes back to zero. */
  lemma DecryptSumValue()
    ensures (Delta * Rounds) % Modulus32 == DecryptSum
    ensures (DecryptSum + Rounds * -(Delta as int)) % Modulus32 == 0
  {
    assert Delta * Rounds == DecryptSum + 19 * Modulus32;
    ModMultiple(DecryptSum, 19);
    ModMultiple(0, -19);
  }

  /** A round key: indexed by `sum & 3`, so it needs at least four words. */
  type Key = k: seq<Word> | |k| >= 4 witness [0, 0, 0, 0]

  /** The three keys of the triple encryption. */
  datatype Keys = Keys(k1: Key, k2: Key, k3: Key)

  /** The three `[]uint32` key slices a unit is constructed with, of any length. */
  datatype KeySlices = KeySlices(key1: seq<Word>, key2: seq<Word>, key3: seq<Word>)

  /** Every slice has the four words the key schedule indexes (see `FourthWordRead`). */
  predicate FullKeys(k: KeySlices) {
    |k.key1| >= 4 && |k.key2| >= 4 && |k.key3| >= 4
  }

  function AsKeys(k: KeySlices): Keys
    requires FullKeys(k)
  {
    Keys(k.key1, k.key2, k.key3)
  }

  /** A 64-bit block as the two big-endian words the cipher works on. */
  datatype Pair = Pair(v0: Word, v1: Word)

  /** The variables of one `encryptBlock` or `decryptBlock` loop. */
  datatype RoundState = RoundState(v0: Word, v1: Word, sum: Word)

  /** `key[sel & 3]`: `sel & 3` is the remainder of `sel` by 4. */
  function KeyWord(key: Key, sel: Word): Word {
    key[sel % 4]
  }

  /** `(v << 4 ^ v >> 5) + v`. */
  function Mix(v: Word): Word {
    Add32(Xor32(Shl32(v, 4), Shr32(v, 5)), v)
  }

  /** The first half-round's term `mix(v1) ^ (sum + key[sum & 3])`. */
  function F0(key: Key, v: Word, sum: Word): Word {
    Xor32(Mix(v), Add32(sum, KeyWord(key, sum)))
  }

  /** The second half-round's term `mix(v0) ^ (sum + key[(sum >> 11) & 3])`. */
  function F1(key: Key, v: Word, sum: Word): Word {
    Xor32(Mix(v), Add32(sum, KeyWord(key, Shr32(sum, 11))))
  }

  /** One iteration of the `encryptBlock` loop. */
  function Round(key: Key, s: RoundState): RoundState {
    var v0 := Add32(s.v0, F0(key, s.v1, s.sum));
    var sum := Add32(s.sum, Delta);
    RoundState(v0, Add32(s.v1, F1(key, v0, sum)), sum)
  }

  /** One iteration of the `decryptBlock` loop. */
  function Unround(key: Key, s: RoundState): RoundState {
    var v1 := Sub32(s.v1, F1(key, s.v0, s.sum));
    var sum := Sub32(s.sum, Delta);
    RoundState(Sub32(s.v0, F0(key, v1, sum)), v1, sum)
  }

  /** A decryption round undoes an encryption round ... */
  lemma UnroundRound(key: Key, s: RoundState)
    ensures Unround(key, Round(key, s)) == s
  {
    var r := Round(key, s);
    Sub32Add32(s.sum, Delta);
    Sub32Add32(s.v1, F1(key, r.v0, r.sum));
    Sub32Add32(s.v0, F0(key, s.v1, s.sum));
  }

  /** ... and an encryption round undoes a decryption round. */
  lemma RoundUnround(key: Key, s: RoundState)
    ensures Round(key, Unround(key, s)) == s
  {
    var u := Unround(key, s);
    Add32Sub32(s.sum, Delta);
    Add32Sub32(s.v1, F1(key, s.v0, s.sum));
    Add32Sub32(s.v0, F0(key, u.v1, u.sum));
  }

  /** A round of either loop, as a value. */
  type RoundFn = RoundState -> RoundState

  /** `n` iterations of a loop whose body is `f`. */
  function Iterate(f: RoundFn, s: RoundState, n: nat): RoundState {
    if n == 0 then s else f(Iterate(f, s, n - 1))
  }

  /** The first iteration can be peeled off the front as well. */
  lemma {:induction false} IterateFirst(f: RoundFn, s: RoundState, n: nat)
    ensures Iterate(f, s, n + 1) == Iterate(f, f(s), n)
  {
    if n > 0 {
      IterateFirst(f, s, n - 1);
    }
  }

  /** `n` iterations of a left inverse of `f` undo `n` iterations of `f`. */
  lemma {:induction false} IterateInverse(g: RoundFn, f: RoundFn, s: RoundState, n: nat)
    requires forall x :: g(f(x)) == x
    ensures Iterate(g, Iterate(f, s, n), n) == s
  {
    if n > 0 {
      var e := Iterate(f, s, n - 1);
      IterateFirst(g, f(e), n - 1);
      IterateInverse(g, f, s, n - 1);
    }
  }

  /** A loop whose body moves `sum` by `d` moves it by `n * d` in `n` iterations, wrapping. */
  lemma {:induction false} IterateSum(f: RoundFn, d: int, s: RoundState, n: nat)
    requires forall x :: f(x).sum == (x.sum + d) % Modulus32
    ensures Iterate(f, s, n).sum == (s.sum + n * d) % Modulus32
  {
    if n > 0 {
      IterateSum(f, d, s, n - 1);
      ModAdd(s.sum + (n - 1) * d, d);
    }
  }

  /** `(a % 2^32 + b) % 2^32 == (a + b) % 2^32`. */
  lemma ModAdd(a: int, b: int)
    ensures (a % Modulus32 + b) % Modulus32 == (a + b) % Modulus32
  {
    var q := a / Modulus32;
    assert a == q * Modulus32 + a % Modulus32;
    ModMultiple(a % Modulus32 + b, q);
  }

  lemma ModMultiple(x: int, q: int)
    ensures (x + q * Modulus32) % Modulus32 == x % Modulus32
  {
  }

  /** The `encryptBlock` loop body under `key`. */
  function EncryptRound(key: Key): RoundFn {
    s => Round(key, s)
  }

  /** The `decryptBlock` loop body under `key`. */
  function DecryptRound(key: Key): RoundFn {
    s => Unround(key, s)
  }

  /** The decryption round is a left inverse of the encryption round, and the other way round. */
  lemma RoundsInvert(key: Key)
    ensures forall x :: DecryptRound(key)(EncryptRound(key)(x)) == x
    ensures forall x :: EncryptRound(key)(DecryptRound(key)(x)) == x
  {
    forall x ensures DecryptRound(key)(EncryptRound(key)(x)) == x {
      UnroundRound(key, x);
    }
    forall x ensures EncryptRound(key)(DecryptRound(key)(x)) == x {
      RoundUnround(key, x);
    }
  }

  /** Each encryption round adds `delta` to `sum`; each decryption round subtracts it. */
  lemma RoundSums(key: Key)
    ensures forall x :: EncryptRound(key)(x).sum == (x.sum + Delta) % Modulus32
    ensures forall x :: DecryptRound(key)(x).sum == (x.sum + -(Delta as int)) % Modulus32
  {
    forall x ensures EncryptRound(key)(x).sum == (x.sum + Delta) % Modulus32 {
      RoundSum(key, x);
    }
    forall x ensures DecryptRound(key)(x).sum == (x.sum + -(Delta as int)) % Modulus32 {
      UnroundSum(key, x);
    }
  }

  lemma RoundSum(key: Key, x: RoundState)
    ensures Round(key, x).sum == (x.sum + Delta) % Modulus32
  {
  }

  lemma UnroundSum(key: Key, x: RoundState)
    ensures Unround(key, x).sum == (x.sum + -(Delta as int)) % Modulus32
  {
  }

  /**
   * Both loops index word 3 of the key, whatever the block: the fourth
   * encryption iteration starts from `sum == 3 * delta`, and the 29th
   * decryption iteration computes that `sum` before its `key[sum & 3]`; its
   * `sum & 3` is 3. A key slice of fewer than four words therefore panics
   * on the first block.
   */
  lemma FourthWordRead(key: Key, p: Pair)
    ensures Iterate(EncryptRound(key), RoundState(p.v0, p.v1, 0), 3).sum % 4 == 3
    ensures Iterate(DecryptRound(key), RoundState(p.v0, p.v1, DecryptSum), 29).sum % 4 == 3
  {
    RoundSums(key);
    IterateSum(EncryptRound(key), Delta, RoundState(p.v0, p.v1, 0), 3);
    IterateSum(DecryptRound(key), -(Delta as int), RoundState(p.v0, p.v1, DecryptSum), 29);
    ThreeDeltas();
  }

  /** `3 * delta` in `uint32`, reached from either end. */
  lemma ThreeDeltas()
    ensures (0 + 3 * Delta) % Modulus32 == 0xDAA66D2B
    ensures (DecryptSum + 29 * -(Delta as int)) % Modulus32 == 0xDAA66D2B
  {
    assert 0 + 3 * Delta == 0xDAA66D2B + Modulus32;
    assert DecryptSum + 29 * -(Delta as int) == 0xDAA66D2B - 18 * Modulus32;
    ModMultiple(0xDAA66D2B, 1);
    ModMultiple(0xDAA66D2B, -18);
  }

  /** `encryptBlock`: 32 rounds starting from `sum = 0`. */
  function EncryptPair(key: Key, p: Pair): Pair {
    var s := Iterate(EncryptRound(key), RoundState(p.v0, p.v1, 0), Rounds);
    Pair(s.v0, s.v1)
  }

  /** `decryptBlock`: 32 rounds starting from `sum = delta * 32`. */
  function DecryptPair(key: Key, p: Pair): Pair {
    var s := Iterate(DecryptRound(key), RoundState(p.v0, p.v1, DecryptSum), Rounds);
    Pair(s.v0, s.v1)
  }

  /** `decryptBlock` inverts `encryptBlock` under the same key: 32 rounds up from 0 end where decryption starts. */
  lemma DecryptEncryptPair(key: Key, p: Pair)
    ensures DecryptPair(key, EncryptPair(key, p)) == p
  {
    var s := RoundState(p.v0, p.v1, 0);
    var e := Iterate(EncryptRound(key), s, Rounds);
    RoundSums(key);
    IterateSum(EncryptRound(key), Delta, s, Rounds);
    DecryptSumValue();
    assert RoundState(e.v0, e.v1, DecryptSum) == e;
    RoundsInvert(key);
    IterateInverse(DecryptRound(key), EncryptRound(key), s, Rounds);
  }

  /** ... and the other way round: `encryptBlock` is a bijection on 64-bit blocks. */
  lemma EncryptDecryptPair(key: Key, p: Pair)
    ensures EncryptPair(key, DecryptPair(key, p)) == p
  {
    var s := RoundState(p.v0, p.v1, DecryptSum);
    var d := Iterate(DecryptRound(key), s, Rounds);
    RoundSums(key);
    IterateSum(DecryptRound(key), -(Delta as int), s, Rounds);
    DecryptSumValue();
    assert RoundState(d.v0, d.v1, 0) == d;
    RoundsInvert(key);
    IterateInverse(EncryptRound(key), DecryptRound(key), s, Rounds);
  }

  /** Encryption under `key1`, then `key2`, then `key3`. */
  function TripleEncrypt(keys: Keys, p: Pair): Pair {
    EncryptPair(keys.k3, EncryptPair(keys.k2, EncryptPair(keys.k1, p)))
  }

  /** Decryption in the reverse order: `key3`, then `key2`, then `key1`. */
  function TripleDecrypt(keys: Keys, p: Pair): Pair {
    DecryptPair(keys.k1, DecryptPair(keys.k2, DecryptPair(keys.k3, p)))
  }

  lemma TripleDecryptEncrypt(keys: Keys, p: Pair)
    ensures TripleDecrypt(keys, TripleEncrypt(keys, p)) == p
  {
    var e1 := EncryptPair(keys.k1, p);
    var e2 := EncryptPair(keys.k2, e1);
    DecryptEncryptPair(keys.k3, e2);
    DecryptEncryptPair(keys.k2, e1);
    DecryptEncryptPair(keys.k1, p);
  }

  lemma TripleEncryptDecrypt(keys: Keys, p: Pair)
    ensures TripleEncrypt(keys, TripleDecrypt(keys, p)) == p
  {
    var a := DecryptPair(keys.k3, p);
    var b := DecryptPair(keys.k2, a);
    EncryptDecryptPair(keys.k1, b);
    EncryptDecryptPair(keys.k2, a);
    EncryptDecryptPair(keys.k3, p);
  }

  /** A transform of one word pair. */
  type PairFn = Pair -> Pair

  /** The triple XTEA encryption with keys 1, 2, 3 as a function value. */
  function Encipher(keys: Keys): PairFn {
    p => TripleEncrypt(keys, p)
  }

  /** The triple XTEA decryption with keys 3, 2, 1 as a function value. */
  function Decipher(keys: Keys): PairFn {
    p => TripleDecrypt(keys, p)
  }

  lemma DecipherEncipher(keys: Keys)
    ensures forall p :: Decipher(keys)(Encipher(keys)(p)) == p
  {
    forall p {
      TripleDecryptEncrypt(keys, p);
    }
  }

  /** The two big-endian words of an 8-byte block at offset `i`. */
  function ReadPair(b: seq<byte>, i: nat): Pair
    requires i + 8 <= |b|
  {
    Pair(BigEndianWord(b, i), BigEndianWord(b, i + 4))
  }

  /** The 8 bytes the two `PutUint32` calls write. */
  function PairBytes(p: Pair): (r: seq<byte>)
    ensures |r| == 8
  {
    WordBytes(p.v0) + WordBytes(p.v1)
  }

  lemma PairBytesInverse(p: Pair)
    ensures ReadPair(PairBytes(p), 0) == p
  {
    var b := PairBytes(p);
    WordBytesInverse(p.v0);
    WordBytesInverse(p.v1);
    assert b[0..4] == WordBytes(p.v0) && b[4..8] == WordBytes(p.v1);
  }

  lemma ReadPairInverse(b: seq<byte>, i: nat)
    requires i + 8 <= |b|
    ensures PairBytes(ReadPair(b, i)) == b[i..i + 8]
  {
    BigEndianWordInverse(b, i);
    BigEndianWordInverse(b, i + 4);
    assert b[i..i + 8] == b[i..i + 4] + b[i + 4..i + 8];
  }

  /**
   * The encryption loop of `encryptBlock`. The unit methods run the same
   * transform through its functional form `Encipher`, one block at a time.
   */
  method EncryptBlock(v0: Word, v1: Word, key: Key) returns (r0: Word, r1: Word)
    ensures Pair(r0, r1) == EncryptPair(key, Pair(v0, v1))
  {
    r0, r1 := v0, v1;
    var sum: Word := 0;
    var i := 0;
    while i < 32
      invariant 0 <= i <= 32
      invariant RoundState(r0, r1, sum) == Iterate(EncryptRound(key), RoundState(v0, v1, 0), i)
    {
      r0 := Add32(r0, Xor32(Mix(r1), Add32(sum, KeyWord(key, sum))));
      sum := Add32(sum, Delta);
      r1 := Add32(r1, Xor32(Mix(r0), Add32(sum, KeyWord(key, Shr32(sum, 11)))));
      i := i + 1;
    }
  }

  /** The decryption loop of `decryptBlock` (the unit methods use `Decipher`). */
  method DecryptBlock(v0: Word, v1: Word, key: Key) returns (r0: Word, r1: Word)
    ensures Pair(r0, r1) == DecryptPair(key, Pair(v0, v1))
  {
    r0, r1 := v0, v1;
    DecryptSumValue();
    var sum: Word := (Delta * 32) % Modulus32;
    var i := 0;
    while i < 32
      invariant 0 <= i <= 32
      invariant RoundState(r0, r1, sum) == Iterate(DecryptRound(key), RoundState(v0, v1, DecryptSum), i)
    {
      r1 := Sub32(r1, Xor32(Mix(r0), Add32(sum, KeyWord(key, Shr32(sum, 11)))));
      sum := Sub32(sum, Delta);
      r0 := Sub32(r0, Xor32(Mix(r1), Add32(sum, KeyWord(key, sum))));
      i := i + 1;
    }
  }

  /** The three `encryptBlock` calls of one block, key1 then key2 then key3. */
  method TripleEncryptBlock(keys: Keys, p: Pair) returns (r: Pair)
    ensures r == TripleEncrypt(keys, p)
  {
    var v0, v1 := EncryptBlock(p.v0, p.v1, keys.k1);
    v0, v1 := EncryptBlock(v0, v1, keys.k2);
    v0, v1 := EncryptBlock(v0, v1, keys.k3);
    r := Pair(v0, v1);
  }

  /** The three `decryptBlock` calls of one block, key3 then key2 then key1. */
  method TripleDecryptBlock(keys: Keys, p: Pair) returns (r: Pair)
    ensures r == TripleDecrypt(keys, p)
  {
    var v0, v1 := DecryptBlock(p.v0, p.v1, keys.k3);
    v0, v1 := DecryptBlock(v0, v1, keys.k2);
    v0, v1 := DecryptBlock(v0, v1, keys.k1);
    r := Pair(v0, v1);
  }
}
