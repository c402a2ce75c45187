/**
 * Go strings and byte slices. A Go `string` is an immutable sequence of
 * bytes, so both are modelled as `seq<byte>`; string literals of the source
 * are written with `Ascii`.
 */
module Bytes {
  import opened Bits

  /** A Go `byte`. */
  type byte = x: int | 0 <= x < 256

  /** A Go `string` or `[]byte` value. */
  type GoString = seq<byte>

  /** The bytes of an ASCII literal. */
  function Ascii(s: string): (r: GoString)
    ensures |r| == |s|
    ensures forall i :: 0 <= i < |s| ==> r[i] == (s[i] as int) % 256
  {
    seq(|s|, i requires 0 <= i < |s| => (s[i] as int) % 256)
  }

  function Zeros(n: nat): (r: seq<byte>)
    ensures |r| == n
    ensures forall i :: 0 <= i < n ==> r[i] == 0
  {
    seq(n, _ => 0)
  }

  /** The block sizes in use: 8 bytes (Triple-DES, modified XTEA) and 16 bytes (AES). */
  type BlockSize = bs: nat | bs == 8 || bs == 16 witness 8

  /**
   * The zero padding every cipher unit applies: when the length is not a
   * multiple of `bs`, a buffer of `(len / bs + 1) * bs` zero bytes receives
   * a copy of the data; otherwise the data is used as it is.
   */
  function Padded(data: seq<byte>, bs: BlockSize): (r: seq<byte>)
    ensures |r| % bs == 0
    ensures |data| <= |r| < |data| + bs
    ensures r[..|data|] == data
    ensures forall i :: |data| <= i < |r| ==> r[i] == 0
    ensures |data| % bs == 0 ==> r == data
  {
    if |data| % bs == 0 then data
    else data + Zeros((|data| / bs + 1) * bs - |data|)
  }

  /** `b` does not end in a zero byte. */
  predicate NoTrailingZero(b: seq<byte>) {
    b == [] || b[|b| - 1] != 0
  }

  /** `bytes.TrimRight(b, "\x00")`: drop every trailing zero byte. */
  function TrimZeros(b: seq<byte>): (r: seq<byte>)
    ensures |r| <= |b| && r == b[..|r|]
    ensures r == [] || r[|r| - 1] != 0
    ensures forall i :: |r| <= i < |b| ==> b[i] == 0
  {
    if b != [] && b[|b| - 1] == 0 then TrimZeros(b[..|b| - 1]) else b
  }

  /** Trailing zero bytes are exactly what TrimZeros forgets. */
  lemma {:induction false} TrimZerosAppendZeros(b: seq<byte>, z: seq<byte>)
    requires forall i :: 0 <= i < |z| ==> z[i] == 0
    ensures TrimZeros(b + z) == TrimZeros(b)
  {
    if z != [] {
      var last := |z| - 1;
      assert (b + z)[..|b + z| - 1] == b + z[..last];
      TrimZerosAppendZeros(b, z[..last]);
    } else {
      assert b + z == b;
    }
  }

  /** Stripping the zero padding gives the data with its own trailing zeros removed. */
  lemma TrimZerosPadded(data: seq<byte>, bs: BlockSize)
    ensures TrimZeros(Padded(data, bs)) == TrimZeros(data)
  {
    var p := Padded(data, bs);
    assert p == data + p[|data|..];
    TrimZerosAppendZeros(data, p[|data|..]);
  }

  /** The padded length is the length rounded up to a whole number of blocks. */
  lemma PaddedLength(data: seq<byte>, bs: BlockSize)
    ensures |Padded(data, bs)| == (|data| + bs - 1) / bs * bs
  {
    var n := |data|;
    if bs == 8 {
      assert n % 8 == 0 ==> (n + 7) / 8 * 8 == n;
      assert n % 8 != 0 ==> (n + 7) / 8 == n / 8 + 1;
    } else {
      assert n % 16 == 0 ==> (n + 15) / 16 * 16 == n;
      assert n % 16 != 0 ==> (n + 15) / 16 == n / 16 + 1;
    }
  }

  /** The padding step of every `Encrypt`: a zeroed buffer of the padded length receives a copy of the data. */
  method Pad(data: seq<byte>, bs: BlockSize) returns (r: seq<byte>)
    ensures r == Padded(data, bs)
  {
    r := data;
    if |data| % bs != 0 {
      var padded := new byte[(|data| / bs + 1) * bs](_ => 0);
      forall i | 0 <= i < |data| {
        padded[i] := data[i];
      }
      r := padded[..];
      assert r == data + Zeros(padded.Length - |data|);
    }
  }

  /** The loop that drops trailing zero bytes from a decrypted buffer: the result is the length kept. */
  method TrimTrailingZeros(a: array<byte>) returns (n: nat)
    ensures n <= a.Length && a[..n] == TrimZeros(a[..])
  {
    n := a.Length;
    while n > 0 && a[n - 1] == 0
      invariant n <= a.Length
      invariant TrimZeros(a[..n]) == TrimZeros(a[..])
    {
      assert a[..n - 1] == a[..n][..n - 1];
      n := n - 1;
    }
  }

  /** The `PutUint32`/`copy` writes of one block into a result buffer at offset `i`. */
  method WriteBlock(a: array<byte>, i: nat, out: seq<byte>)
    requires i + |out| <= a.Length
    modifies a
    ensures a[..i + |out|] == old(a[..i]) + out
  {
    forall j | 0 <= j < |out| {
      a[i + j] := out[j];
    }
    assert a[..i + |out|] == old(a[..i]) + out;
  }

  /** Byte-wise `a[i] ^ b[i]`. */
  function XorBytes(a: seq<byte>, b: seq<byte>): (r: seq<byte>)
    requires |a| == |b|
    ensures |r| == |a|
  {
    seq(|a|, i requires 0 <= i < |a| => Xor(a[i], b[i], 8) % 256)
  }

  lemma XorInvolution(a: seq<byte>, b: seq<byte>)
    requires |a| == |b|
    ensures XorBytes(XorBytes(a, b), b) == a
  {
    Pow2Values();
    var r := XorBytes(XorBytes(a, b), b);
    forall i | 0 <= i < |a| ensures r[i] == a[i] {
      XorBound(a[i], b[i], 8);
      ModSmall(Xor(a[i], b[i], 8), 256);
      XorBound(Xor(a[i], b[i], 8), b[i], 8);
      ModSmall(Xor(Xor(a[i], b[i], 8), b[i], 8), 256);
      XorXor(a[i], b[i], 8);
    }
  }

  function Pow256(n: nat): (r: nat)
    ensures r >= 1
  {
    if n == 0 then 1 else 256 * Pow256(n - 1)
  }

  /** The unsigned number whose big-endian bytes are `b`. */
  function BigEndian(b: seq<byte>): nat
    decreases |b|
  {
    if b == [] then 0 else BigEndian(b[..|b| - 1]) * 256 + b[|b| - 1]
  }

  /** `n` bytes hold a number below `256^n`. */
  lemma {:induction false} BigEndianBound(b: seq<byte>)
    ensures BigEndian(b) < Pow256(|b|)
    decreases |b|
  {
    if b != [] {
      BigEndianBound(b[..|b| - 1]);
    }
  }

  /** The `n` low-order bytes of `w`, most significant first. */
  function BigEndianBytes(w: nat, n: nat): (r: seq<byte>)
    ensures |r| == n
    decreases n
  {
    if n == 0 then [] else BigEndianBytes(w / 256, n - 1) + [w % 256]
  }

  /** Writing the `n` bytes of a number below `256^n` and reading them back gives the number. */
  lemma {:induction false} BigEndianBytesInverse(w: nat, n: nat)
    requires w < Pow256(n)
    ensures BigEndian(BigEndianBytes(w, n)) == w
    decreases n
  {
    if n > 0 {
      var r := BigEndianBytes(w, n);
      BigEndianBytesInverse(w / 256, n - 1);
      assert r[..n - 1] == BigEndianBytes(w / 256, n - 1);
    }
  }

  /** Reading bytes as a number and writing the number back gives the bytes. */
  lemma {:induction false} BigEndianInverse(b: seq<byte>)
    ensures BigEndianBytes(BigEndian(b), |b|) == b
    decreases |b|
  {
    if b != [] {
      var n := |b| - 1;
      var q := BigEndian(b[..n]);
      BigEndianInverse(b[..n]);
      ShiftByte(q, b[n]);
      assert b == b[..n] + [b[n]];
    }
  }

  /** Shifting in one more low-order byte can be undone with `/ 256` and `% 256`. */
  lemma ShiftByte(q: nat, x: byte)
    ensures (q * 256 + x) / 256 == q && (q * 256 + x) % 256 == x
  {
  }

  /** `binary.BigEndian.Uint32(b[i:i+4])`. */
  function BigEndianWord(b: seq<byte>, i: nat): Word
    requires i + 4 <= |b|
  {
    BigEndian(b[i..i + 4]) % Modulus32
  }

  /** The four bytes `binary.BigEndian.PutUint32` writes. */
  function WordBytes(w: Word): (r: seq<byte>)
    ensures |r| == 4
  {
    BigEndianBytes(w, 4)
  }

  lemma WordBytesInverse(w: Word)
    ensures BigEndian(WordBytes(w)) == w
  {
    assert Pow256(4) == Modulus32;
    BigEndianBytesInverse(w, 4);
  }

  /** The reduction in BigEndianWord changes nothing: four bytes hold a word. */
  lemma BigEndianWordExact(b: seq<byte>, i: nat)
    requires i + 4 <= |b|
    ensures BigEndianWord(b, i) == BigEndian(b[i..i + 4])
  {
    BigEndianBound(b[i..i + 4]);
    assert Pow256(4) == Modulus32;
    ModSmall(BigEndian(b[i..i + 4]), Modulus32);
  }

  lemma BigEndianWordInverse(b: seq<byte>, i: nat)
    requires i + 4 <= |b|
    ensures WordBytes(BigEndianWord(b, i)) == b[i..i + 4]
  {
    BigEndianWordExact(b, i);
    BigEndianInverse(b[i..i + 4]);
  }

  /** The number read from the XOR of two byte strings is the XOR of the numbers read from them. */
  lemma {:induction false} BigEndianXor(a: seq<byte>, b: seq<byte>)
    requires |a| == |b|
    ensures BigEndian(XorBytes(a, b)) == Xor(BigEndian(a), BigEndian(b), 8 * |a|)
    decreases |a|
  {
    if a != [] {
      var n := |a| - 1;
      BigEndianXor(a[..n], b[..n]);
      BigEndianXorStep(a, b, 8 * n);
      assert 8 * n + 8 == 8 * |a|;
    }
  }

  /** The inductive step of BigEndianXor: the last byte is the low 8 bits. */
  lemma BigEndianXorStep(a: seq<byte>, b: seq<byte>, k: nat)
    requires |a| == |b| > 0 && k == 8 * (|a| - 1)
    requires BigEndian(XorBytes(a[..|a| - 1], b[..|a| - 1]))
          == Xor(BigEndian(a[..|a| - 1]), BigEndian(b[..|a| - 1]), k)
    ensures BigEndian(XorBytes(a, b)) == Xor(BigEndian(a), BigEndian(b), k + 8)
  {
    var n := |a| - 1;
    var z := XorBytes(a, b);
    assert z[..n] == XorBytes(a[..n], b[..n]);
    XorByte(BigEndian(a), BigEndian(b), BigEndian(a[..n]), BigEndian(b[..n]), a[n], b[n], k);
    ModSmall(Xor(a[n], b[n], 8), 256);
    assert BigEndian(z) == BigEndian(z[..n]) * 256 + z[n];
  }

  /** `PutUint32(a ^ b)` writes the byte-wise XOR of what `PutUint32(a)` and `PutUint32(b)` write. */
  lemma WordBytesXor(a: Word, b: Word)
    ensures WordBytes(Xor32(a, b)) == XorBytes(WordBytes(a), WordBytes(b))
  {
    var z := XorBytes(WordBytes(a), WordBytes(b));
    BigEndianXor(WordBytes(a), WordBytes(b));
    Xor32Exact(a, b);
    WordBytesInverse(a);
    WordBytesInverse(b);
    BigEndianInverse(z);
  }

  /** XOR of concatenations is the concatenation of the XORs. */
  lemma XorBytesAppend(a: seq<byte>, b: seq<byte>, c: seq<byte>, d: seq<byte>)
    requires |a| == |c| && |b| == |d|
    ensures XorBytes(a + b, c + d) == XorBytes(a, c) + XorBytes(b, d)
  {
  }
}
