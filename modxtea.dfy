/**
 * `ModXTEA`: zero padding to 8 bytes, the triple XTEA transform applied to
 * every 8-byte block on its own (no chaining), and upper-case hex output;
 * decryption reverses the key order and strips trailing zero bytes.
 */
module ModXtea {
  import opened Bits
  import opened Bytes
  import opened Wrappers
  import Hex
  import opened BlockModes
  import opened Xtea
  import opened PairBlocks

  lemma PairBlocksInverse(u: PairFn, t: PairFn)
    requires forall p :: u(t(p)) == p
    ensures forall b: seq<byte> | |b| == 8 :: PairBlock(u, PairBlock(t, b)) == b
  {
    forall b: seq<byte> | |b| == 8 {
      PairBlockInverse(u, t, b);
    }
  }

  /** A pair transform undone by `u` gives a block function undone by `OnBytes(u)`. */
  lemma OnBytesInverts(u: PairFn, t: PairFn)
    requires forall p :: u(t(p)) == p
    ensures Inverts(OnBytes(u), OnBytes(t), 8)
  {
    PairBlocksInverse(u, t);
    OnBytesInvertsBlocks(u, t);
  }

  lemma OnBytesInvertsBlocks(u: PairFn, t: PairFn)
    requires forall b: seq<byte> | |b| == 8 :: PairBlock(u, PairBlock(t, b)) == b
    ensures Inverts(OnBytes(u), OnBytes(t), 8)
  {
  }

  /** The block function of `Encrypt`. */
  function Encryptor(keys: Keys): (f: BlockFn)
    ensures SizePreserving(f, 8)
  {
    OnBytes(Encipher(keys))
  }

  /** The block function of `Decrypt`. */
  function Decryptor(keys: Keys): (g: BlockFn)
    ensures SizePreserving(g, 8)
  {
    OnBytes(Decipher(keys))
  }

  lemma DecryptorInverts(keys: Keys)
    ensures Inverts(Decryptor(keys), Encryptor(keys), 8)
  {
    DecipherEncipher(keys);
    OnBytesInverts(Decipher(keys), Encipher(keys));
  }

  /** What `Encrypt` returns for `text`. */
  function Encrypted(keys: Keys, text: GoString): (r: GoString)
    ensures |r| == 2 * |Padded(text, 8)| && Hex.UpperHexText(r)
  {
    var c := Ecb(Encryptor(keys), 8, Padded(text, 8));
    Hex.UpperHexIsText(c);
    Hex.UpperHex(c)
  }

  /**
   * What `Decrypt` returns for `s`: `None` where Go panics, which is when the
   * decoded length is not a multiple of 8 and the last block's `PutUint32`
   * writes past the end of the result buffer.
   */
  function Decrypted(keys: Keys, s: GoString): (r: Option<GoString>)
    ensures r.Some? <==> |Hex.Decode(s)| % 8 == 0
    ensures r.Some? ==> 2 * |r.value| <= |s| && NoTrailingZero(r.value)
  {
    var data := Hex.Decode(s);
    if |data| % 8 != 0 then None
    else Some(TrimZeros(Ecb(Decryptor(keys), 8, data)))
  }

  /** The ciphertext is upper-case hex, two digits per padded byte; empty text gives empty ciphertext. */
  lemma EncryptedShape(keys: Keys, text: GoString)
    ensures |Encrypted(keys, text)| == 2 * |Padded(text, 8)|
    ensures forall i :: 0 <= i < |Encrypted(keys, text)| ==> Hex.IsUpperHexDigit(Encrypted(keys, text)[i])
    ensures text == [] ==> Encrypted(keys, text) == []
  {
    var d := Padded(text, 8);
    Hex.UpperHexDigits(Ecb(Encryptor(keys), 8, d));
  }

  /** The ciphertext decodes to the ECB encryption of the padded text. */
  lemma EncryptedDecodes(keys: Keys, text: GoString)
    ensures Hex.Decode(Encrypted(keys, text)) == Ecb(Encryptor(keys), 8, Padded(text, 8))
  {
    Hex.DecodeUpperHex(Ecb(Encryptor(keys), 8, Padded(text, 8)));
  }

  /** Ciphertext block `k` is the triple encryption of padded block `k` alone. */
  lemma EncryptedBlock(keys: Keys, text: GoString, k: nat)
    requires (k + 1) * 8 <= |Padded(text, 8)|
    ensures Block(Ecb(Encryptor(keys), 8, Padded(text, 8)), 8, k) == PairBlock(Encipher(keys), Block(Padded(text, 8), 8, k))
  {
    EcbBlock(Encryptor(keys), 8, Padded(text, 8), k);
  }

  /** Decrypting a ciphertext gives the text back without its trailing zero bytes. */
  lemma RoundTrip(keys: Keys, text: GoString)
    ensures Decrypted(keys, Encrypted(keys, text)) == Some(TrimZeros(text))
  {
    var d := Padded(text, 8);
    var c := Ecb(Encryptor(keys), 8, d);
    Hex.DecodeUpperHex(c);
    DecryptorInverts(keys);
    EcbInverse(Decryptor(keys), Encryptor(keys), 8, d);
    TrimZerosPadded(text, 8);
  }

  /**
   * `Encrypt` of the unit with the key slices it holds. Every block reads
   * word 3 of each key (`Xtea.FourthWordRead`), so a short key panics as
   * soon as there is a block, and only the empty text escapes.
   */
  function UnitEncrypted(k: KeySlices, text: GoString): Option<GoString> {
    if FullKeys(k) then Some(Encrypted(AsKeys(k), text))
    else if text == [] then Some([])
    else None
  }

  /** `Decrypt` of the unit: with a short key, only input that decodes to no bytes escapes a panic. */
  function UnitDecrypted(k: KeySlices, s: GoString): Option<GoString> {
    if FullKeys(k) then Decrypted(AsKeys(k), s)
    else if Hex.Decode(s) == [] then Some([])
    else None
  }

  /** Encryption panics exactly when there is a block to transform and a key slice is short. */
  lemma UnitEncryptPanics(k: KeySlices, text: GoString)
    ensures UnitEncrypted(k, text).None? <==> text != [] && !FullKeys(k)
  {
  }

  /** Decryption panics exactly when the decoded bytes are not empty and a key slice is short or a block is partial. */
  lemma UnitDecryptPanics(k: KeySlices, s: GoString)
    ensures UnitDecrypted(k, s).None? <==> Hex.Decode(s) != [] && (!FullKeys(k) || |Hex.Decode(s)| % 8 != 0)
  {
  }

  /** Whatever the key slices, a ciphertext the unit produced decrypts to the text without its trailing zeros. */
  lemma UnitRoundTrip(k: KeySlices, text: GoString)
    ensures UnitEncrypted(k, text).Some? ==> UnitDecrypted(k, UnitEncrypted(k, text).value) == Some(TrimZeros(text))
  {
    if FullKeys(k) {
      RoundTrip(AsKeys(k), text);
    } else if text == [] {
      assert Hex.Decode([]) == [];
    }
  }

  /**
   * `ModXTEA.Encrypt`: pad, then fill the result buffer block by block. The
   * panic of a short key, which Go meets inside the first block, is taken
   * before the loop.
   */
  method Encrypt(k: KeySlices, text: GoString) returns (r: Option<GoString>)
    ensures r == UnitEncrypted(k, text)
  {
    var data := Pad(text, 8);
    if !FullKeys(k) {
      if data == [] {
        return Some([]);
      }
      return None;
    }
    var ok, result := EcbBuffer(Encryptor(AsKeys(k)), 8, data);
    r := Some(Hex.UpperHex(result[..]));
  }

  /** `ModXTEA.Decrypt`: hex-decode ignoring errors, decrypt block by block, strip trailing zeros. */
  method Decrypt(k: KeySlices, s: GoString) returns (r: Option<GoString>)
    ensures r == UnitDecrypted(k, s)
  {
    var data := Hex.Decode(s);
    if !FullKeys(k) {
      if data == [] {
        return Some([]);
      }
      return None;
    }
    var ok, result := EcbBuffer(Decryptor(AsKeys(k)), 8, data);
    if !ok {
      return None;
    }
    var n := TrimTrailingZeros(result);
    r := Some(result[..n]);
  }
}
