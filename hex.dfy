/**
 * The hex codec every cipher unit shares: `strings.ToUpper(hex.EncodeToString(b))`
 * on the way out and `hex.DecodeString` (error discarded) on the way in.
 */
module Hex {
  import opened Bytes

  /** `"0123456789abcdef"`. */
  const LowerDigits: seq<byte> :=
    [0x30, 0x31, 0x32, 0x33, 0x34, 0x35, 0x36, 0x37, 0x38, 0x39, 0x61, 0x62, 0x63, 0x64, 0x65, 0x66]

  /** `hex.EncodeToString`: two lower-case digits per byte, high nibble first. */
  function Encode(b: seq<byte>): (r: GoString)
    ensures |r| == 2 * |b|
  {
    if b == [] then []
    else [LowerDigits[b[0] / 16], LowerDigits[b[0] % 16]] + Encode(b[1..])
  }

  function UpperByte(c: byte): byte {
    if 0x61 <= c <= 0x7A then c - 0x20 else c
  }

  /** `strings.ToUpper` on ASCII text. */
  function ToUpper(s: GoString): (r: GoString)
    ensures |r| == |s|
    ensures forall i :: 0 <= i < |s| ==> r[i] == UpperByte(s[i])
  {
    seq(|s|, i requires 0 <= i < |s| => UpperByte(s[i]))
  }

  /** The encoding every cipher unit emits. */
  function UpperHex(b: seq<byte>): GoString {
    ToUpper(Encode(b))
  }

  predicate IsUpperHexDigit(c: byte) {
    0x30 <= c <= 0x39 || 0x41 <= c <= 0x46
  }

  /** Text made of upper-case hex digits, two per byte. */
  predicate UpperHexText(s: GoString) {
    |s| % 2 == 0 && forall i :: 0 <= i < |s| ==> IsUpperHexDigit(s[i])
  }

  /** The encoding every unit emits is upper-case hex text, two digits per byte. */
  lemma UpperHexIsText(b: seq<byte>)
    ensures |UpperHex(b)| == 2 * |b| && UpperHexText(UpperHex(b))
  {
    UpperHexDigits(b);
  }

  predicate IsHexDigit(c: byte) {
    0x30 <= c <= 0x39 || 0x41 <= c <= 0x46 || 0x61 <= c <= 0x66
  }

  /** The value of one hex digit, either case (Go's `reverseHexTable`). */
  function DigitValue(c: byte): (v: nat)
    requires IsHexDigit(c)
    ensures v < 16
  {
    if c <= 0x39 then c - 0x30
    else if c <= 0x46 then c - 0x41 + 10
    else c - 0x61 + 10
  }

  /**
   * `hex.DecodeString` with its error discarded: complete pairs of hex
   * digits are decoded until the first invalid digit; a trailing odd digit
   * is dropped. The bytes decoded before the error are what Go returns.
   */
  function Decode(s: GoString): (r: seq<byte>)
    ensures 2 * |r| <= |s|
  {
    if |s| < 2 || !IsHexDigit(s[0]) || !IsHexDigit(s[1]) then []
    else [DigitValue(s[0]) * 16 + DigitValue(s[1])] + Decode(s[2..])
  }

  /** Characters `2 * i` and `2 * i + 1` of `s` are both hex digits. */
  predicate ValidPair(s: GoString, i: nat) {
    2 * i + 1 < |s| && IsHexDigit(s[2 * i]) && IsHexDigit(s[2 * i + 1])
  }

  /** The byte the digit pair at `2 * i` stands for. */
  function PairValue(s: GoString, i: nat): int
    requires ValidPair(s, i)
  {
    DigitValue(s[2 * i]) * 16 + DigitValue(s[2 * i + 1])
  }

  /**
   * `r` is what `hex.DecodeString(s)` returns beside its error: byte `i` is
   * the value of the digit pair at `2 * i`, and the bytes stop at the first
   * pair that holds a non-digit or at a lone trailing character.
   */
  predicate DecodedPrefix(s: GoString, r: seq<byte>) {
    && 2 * |r| <= |s|
    && (forall i :: 0 <= i < |r| ==> ValidPair(s, i) && r[i] == PairValue(s, i))
    && !ValidPair(s, |r|)
  }

  /** Pair `i` of `s` is pair `i - 1` of `s` without its first two characters. */
  lemma PairShift(s: GoString, i: nat)
    requires |s| >= 2 && i >= 1
    ensures ValidPair(s, i) == ValidPair(s[2..], i - 1)
    ensures ValidPair(s, i) ==> PairValue(s, i) == PairValue(s[2..], i - 1)
  {
    if 2 * i + 1 < |s| {
      assert s[2 * i] == s[2..][2 * (i - 1)] && s[2 * i + 1] == s[2..][2 * (i - 1) + 1];
    }
  }

  /** `Decode` returns the decoded prefix, on malformed input as well. */
  lemma {:induction false} DecodeMeaning(s: GoString)
    ensures DecodedPrefix(s, Decode(s))
  {
    if ValidPair(s, 0) {
      var r := Decode(s);
      DecodeMeaning(s[2..]);
      assert r[1..] == Decode(s[2..]);
      DecodedPrefixCons(s, r);
    }
  }

  /** A valid pair in front of a decoded prefix adds its byte in front. */
  lemma DecodedPrefixCons(s: GoString, r: seq<byte>)
    requires ValidPair(s, 0) && r != [] && r[0] == PairValue(s, 0)
    requires DecodedPrefix(s[2..], r[1..])
    ensures DecodedPrefix(s, r)
  {
    var t := r[1..];
    forall i | 0 < i < |r| ensures ValidPair(s, i) && r[i] == PairValue(s, i) {
      PairShift(s, i);
      assert r[i] == t[i - 1];
    }
    PairShift(s, |r|);
  }

  /** The decoded prefix is unique, so `DecodedPrefix` defines `Decode` on its own. */
  lemma DecodedPrefixUnique(s: GoString, r: seq<byte>)
    requires DecodedPrefix(s, r)
    ensures r == Decode(s)
  {
    var d := Decode(s);
    DecodeMeaning(s);
    assert |r| == |d|;
    assert forall i :: 0 <= i < |r| ==> r[i] == d[i];
  }

  lemma {:induction false} UpperHexDigits(b: seq<byte>)
    ensures |UpperHex(b)| == 2 * |b|
    ensures forall i :: 0 <= i < |UpperHex(b)| ==> IsUpperHexDigit(UpperHex(b)[i])
  {
    if b != [] {
      UpperHexDigits(b[1..]);
      UpperHexCons(b);
      var hi, lo := b[0] / 16, b[0] % 16;
      assert IsUpperHexDigit(UpperByte(LowerDigits[hi])) by { NibbleDigit(hi); }
      assert IsUpperHexDigit(UpperByte(LowerDigits[lo])) by { NibbleDigit(lo); }
    }
  }

  lemma NibbleDigit(n: int)
    requires 0 <= n < 16
    ensures IsUpperHexDigit(UpperByte(LowerDigits[n]))
    ensures IsHexDigit(LowerDigits[n]) && DigitValue(LowerDigits[n]) == n
  {
    if n < 10 {
      assert LowerDigits[n] == 0x30 + n;
    } else {
      assert LowerDigits[n] == 0x61 + n - 10;
    }
  }

  lemma UpperHexCons(b: seq<byte>)
    requires b != []
    ensures UpperHex(b) == [UpperByte(LowerDigits[b[0] / 16]), UpperByte(LowerDigits[b[0] % 16])]
                           + UpperHex(b[1..])
  {
  }

  lemma UpperDigit(n: int)
    requires 0 <= n < 16
    ensures IsHexDigit(UpperByte(LowerDigits[n])) && DigitValue(UpperByte(LowerDigits[n])) == n
  {
    if n < 10 {
      assert LowerDigits[n] == 0x30 + n;
    } else {
      assert LowerDigits[n] == 0x61 + n - 10;
    }
  }

  lemma DecodeCons(x: byte, y: byte, rest: GoString)
    requires IsHexDigit(x) && IsHexDigit(y)
    ensures Decode([x, y] + rest) == [DigitValue(x) * 16 + DigitValue(y)] + Decode(rest)
  {
    assert ([x, y] + rest)[2..] == rest;
  }

  /** Decoding the upper-case encoding gives back every byte. */
  lemma {:induction false} DecodeUpperHex(b: seq<byte>)
    ensures Decode(UpperHex(b)) == b
  {
    if b != [] {
      DecodeUpperHexHead(b);
      DecodeUpperHex(b[1..]);
      assert b == [b[0]] + b[1..];
    }
  }

  /** The first two digits of the encoding decode to the first byte. */
  lemma DecodeUpperHexHead(b: seq<byte>)
    requires b != []
    ensures Decode(UpperHex(b)) == [b[0]] + Decode(UpperHex(b[1..]))
  {
    var hi, lo := b[0] / 16, b[0] % 16;
    UpperHexCons(b);
    UpperDigit(hi);
    UpperDigit(lo);
    DecodeCons(UpperByte(LowerDigits[hi]), UpperByte(LowerDigits[lo]), UpperHex(b[1..]));
  }

  /** Text made only of complete pairs of hex digits, in either case. */
  predicate WellFormed(s: GoString) {
    |s| % 2 == 0 && forall i :: 0 <= i < |s| ==> IsHexDigit(s[i])
  }

  /** The upper-case digit for a digit's value is the digit itself, upper-cased. */
  lemma DigitRoundTrip(c: byte)
    requires IsHexDigit(c)
    ensures UpperByte(LowerDigits[DigitValue(c)]) == UpperByte(c)
  {
    var v := DigitValue(c);
    if v < 10 {
      assert LowerDigits[v] == 0x30 + v;
    } else {
      assert LowerDigits[v] == 0x61 + v - 10;
    }
  }

  /** Well-formed hex decodes and re-encodes to its upper-case form. */
  lemma {:induction false} ReencodeHex(s: GoString)
    requires WellFormed(s)
    ensures UpperHex(Decode(s)) == ToUpper(s)
  {
    if s != [] {
      var rest := s[2..];
      WellFormedTail(s);
      ReencodeHex(rest);
      assert s == [s[0], s[1]] + rest;
      ReencodeHead(s[0], s[1], rest);
      ToUpperPair(s[0], s[1], rest);
    }
  }

  lemma WellFormedTail(s: GoString)
    requires WellFormed(s) && s != []
    ensures WellFormed(s[2..])
  {
    forall i | 0 <= i < |s[2..]| ensures IsHexDigit(s[2..][i]) {
      assert s[2..][i] == s[i + 2];
    }
  }

  lemma ToUpperPair(x: byte, y: byte, rest: GoString)
    ensures ToUpper([x, y] + rest) == [UpperByte(x), UpperByte(y)] + ToUpper(rest)
  {
  }

  /** A leading pair of hex digits decodes to a byte whose digits are that pair, upper-cased. */
  lemma ReencodeHead(x: byte, y: byte, rest: GoString)
    requires IsHexDigit(x) && IsHexDigit(y)
    ensures UpperHex(Decode([x, y] + rest)) == [UpperByte(x), UpperByte(y)] + UpperHex(Decode(rest))
  {
    var hi, lo := DigitValue(x), DigitValue(y);
    NibbleSplit(hi, lo);
    var v: byte := hi * 16 + lo;
    var b := [v] + Decode(rest);
    DecodeCons(x, y, rest);
    assert b[0] == v && b[1..] == Decode(rest);
    assert Decode([x, y] + rest) == b;
    UpperHexCons(b);
    var dx, dy := UpperByte(LowerDigits[hi]), UpperByte(LowerDigits[lo]);
    assert UpperHex(b) == [dx, dy] + UpperHex(Decode(rest));
    assert dx == UpperByte(x) by { DigitRoundTrip(x); }
    assert dy == UpperByte(y) by { DigitRoundTrip(y); }
  }

  lemma NibbleSplit(hi: nat, lo: nat)
    requires hi < 16 && lo < 16
    ensures hi * 16 + lo < 256
    ensures (hi * 16 + lo) / 16 == hi && (hi * 16 + lo) % 16 == lo
  {
  }
}
