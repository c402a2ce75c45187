/**
 * `ModXTEAIV`: the triple XTEA transform of `ModXTEA` in a chained mode.
 * Each plaintext pair of words is XORed with the previous ciphertext pair
 * (the two IV words for the first block) before it is encrypted; decryption
 * XORs the decrypted pair with the previous ciphertext pair. On bytes this
 * is CBC with 8-byte blocks whose IV is the big-endian bytes of the two IV
 * words.
 */
module ModXteaIv {
  import opened Bits
  import opened Bytes
  import opened Wrappers
  import Hex
  import opened BlockModes
  import opened Xtea
  import opened PairBlocks
  import opened PairChain
  import ModXtea

  /** The IV slice: `iv[0]` and `iv[1]` are read, so it needs two words. */
  type IvWords = s: seq<Word> | |s| >= 2 witness [0, 0]

  function IvPair(iv: IvWords): Pair {
    Pair(iv[0], iv[1])
  }

  /** The CBC IV the chaining amounts to. */
  function IvBytes(iv: IvWords): (r: seq<byte>)
    ensures |r| == 8
  {
    PairBytes(IvPair(iv))
  }

  /** What `Encrypt` returns for `text`: CBC of the zero-padded text, as upper-case hex. */
  function Encrypted(keys: Keys, iv: IvWords, text: GoString): (r: GoString)
    ensures |r| == 2 * |Padded(text, 8)| && Hex.UpperHexText(r)
  {
    var c := CbcEncrypt(ModXtea.Encryptor(keys), 8, IvBytes(iv), Padded(text, 8));
    Hex.UpperHexIsText(c);
    Hex.UpperHex(c)
  }

  /**
   * What `Decrypt` returns for `s`: `None` where Go panics, which is when the
   * decoded length is not a multiple of 8 and the last block's `PutUint32`
   * writes past the end of the result buffer.
   */
  function Decrypted(keys: Keys, iv: IvWords, s: GoString): (r: Option<GoString>)
    ensures r.Some? <==> |Hex.Decode(s)| % 8 == 0
    ensures r.Some? ==> 2 * |r.value| <= |s| && NoTrailingZero(r.value)
  {
    var data := Hex.Decode(s);
    if |data| % 8 != 0 then None
    else Some(TrimZeros(CbcDecrypt(ModXtea.Decryptor(keys), 8, IvBytes(iv), data)))
  }

  /** The ciphertext is upper-case hex, two digits per padded byte; empty text gives empty ciphertext. */
  lemma EncryptedShape(keys: Keys, iv: IvWords, text: GoString)
    ensures |Encrypted(keys, iv, text)| == 2 * |Padded(text, 8)|
    ensures forall i :: 0 <= i < |Encrypted(keys, iv, text)| ==> Hex.IsUpperHexDigit(Encrypted(keys, iv, text)[i])
    ensures text == [] ==> Encrypted(keys, iv, text) == []
  {
    Hex.UpperHexDigits(CbcEncrypt(ModXtea.Encryptor(keys), 8, IvBytes(iv), Padded(text, 8)));
  }

  /** Decrypting a ciphertext gives the text back without its trailing zero bytes. */
  lemma RoundTrip(keys: Keys, iv: IvWords, text: GoString)
    ensures Decrypted(keys, iv, Encrypted(keys, iv, text)) == Some(TrimZeros(text))
  {
    var d := Padded(text, 8);
    Hex.DecodeUpperHex(CbcEncrypt(ModXtea.Encryptor(keys), 8, IvBytes(iv), d));
    ModXtea.DecryptorInverts(keys);
    CbcRoundTrip(ModXtea.Decryptor(keys), ModXtea.Encryptor(keys), 8, IvBytes(iv), d);
    TrimZerosPadded(text, 8);
  }

  /**
   * Ciphertext block `k` is triple XTEA of plaintext block `k` XORed with
   * ciphertext block `k - 1`, or with the IV bytes for the first block.
   */
  lemma EncryptedBlock(keys: Keys, iv: IvWords, text: GoString, k: nat)
    requires (k + 1) * 8 <= |Padded(text, 8)|
    ensures var d := Padded(text, 8);
            var c := CbcEncrypt(ModXtea.Encryptor(keys), 8, IvBytes(iv), d);
            |c| == |d| && Block(c, 8, k) == PairBlock(Encipher(keys), XorBytes(Block(d, 8, k), PrevBlock(IvBytes(iv), c, 8, k)))
  {
    CbcEncryptBlock(ModXtea.Encryptor(keys), 8, IvBytes(iv), Padded(text, 8), k);
  }

  /**
   * Flipping bytes inside ciphertext block `k` leaves every decrypted block
   * other than `k` and `k + 1` as it was.
   */
  lemma CorruptionIsLocal(keys: Keys, iv: IvWords, c: seq<byte>, c': seq<byte>, k: nat, j: nat)
    requires |c'| == |c| && |c| % 8 == 0 && (j + 1) * 8 <= |c|
    requires forall i :: 0 <= i < |c| && !(k * 8 <= i < (k + 1) * 8) ==> c[i] == c'[i]
    requires j != k && j != k + 1
    ensures |CbcDecrypt(ModXtea.Decryptor(keys), 8, IvBytes(iv), c)| == |c'|
    ensures Block(CbcDecrypt(ModXtea.Decryptor(keys), 8, IvBytes(iv), c), 8, j)
         == Block(CbcDecrypt(ModXtea.Decryptor(keys), 8, IvBytes(iv), c'), 8, j)
  {
    CbcCorruptionIsLocal(ModXtea.Decryptor(keys), 8, IvBytes(iv), c, c', k, j);
  }

  /**
   * `Encrypt` of the unit with the slices it holds: `m.iv[0], m.iv[1]` is
   * read before the loop, so an IV of fewer than two words always panics;
   * a short key panics as soon as there is a block (`Xtea.FourthWordRead`).
   */
  function UnitEncrypted(k: KeySlices, iv: seq<Word>, text: GoString): Option<GoString> {
    if |iv| < 2 then None
    else if FullKeys(k) then Some(Encrypted(AsKeys(k), iv, text))
    else if text == [] then Some([])
    else None
  }

  /** `Decrypt` of the unit, with the same two panics as `UnitEncrypted` and the partial-block one. */
  function UnitDecrypted(k: KeySlices, iv: seq<Word>, s: GoString): Option<GoString> {
    if |iv| < 2 then None
    else if FullKeys(k) then Decrypted(AsKeys(k), iv, s)
    else if Hex.Decode(s) == [] then Some([])
    else None
  }

  /** Encryption panics exactly when the IV is short, or there is a block to transform and a key slice is short. */
  lemma UnitEncryptPanics(k: KeySlices, iv: seq<Word>, text: GoString)
    ensures UnitEncrypted(k, iv, text).None? <==> |iv| < 2 || (text != [] && !FullKeys(k))
  {
  }

  /**
   * Decryption panics exactly when the IV is short, or the decoded bytes are
   * not empty and a key slice is short or a block is partial.
   */
  lemma UnitDecryptPanics(k: KeySlices, iv: seq<Word>, s: GoString)
    ensures UnitDecrypted(k, iv, s).None? <==>
              |iv| < 2 || (Hex.Decode(s) != [] && (!FullKeys(k) || |Hex.Decode(s)| % 8 != 0))
  {
  }

  /** Whatever the slices, a ciphertext the unit produced decrypts to the text without its trailing zeros. */
  lemma UnitRoundTrip(k: KeySlices, iv: seq<Word>, text: GoString)
    ensures UnitEncrypted(k, iv, text).Some? ==>
              UnitDecrypted(k, iv, UnitEncrypted(k, iv, text).value) == Some(TrimZeros(text))
  {
    if |iv| >= 2 && FullKeys(k) {
      RoundTrip(AsKeys(k), iv, text);
    } else if text == [] {
      assert Hex.Decode([]) == [];
    }
  }

  /**
   * `ModXTEAIV.Encrypt`: pad, then encrypt block by block, carrying the
   * previous ciphertext words. The panic of a short key, which Go meets
   * inside the first block, is taken before the loop.
   */
  method Encrypt(k: KeySlices, iv: seq<Word>, text: GoString) returns (r: Option<GoString>)
    ensures r == UnitEncrypted(k, iv, text)
  {
    var data := Pad(text, 8);
    if |iv| < 2 {
      return None;
    }
    if !FullKeys(k) {
      if data == [] {
        return Some([]);
      }
      return None;
    }
    var keys := AsKeys(k);
    var ok, result := ChainEncryptBuffer(Encipher(keys), IvPair(iv), data);
    ChainEncryptIsCbc(Encipher(keys), IvPair(iv), data);
    r := Some(Hex.UpperHex(result[..]));
  }

  /** `ModXTEAIV.Decrypt`: hex-decode ignoring errors, decrypt block by block, strip trailing zeros. */
  method Decrypt(k: KeySlices, iv: seq<Word>, s: GoString) returns (r: Option<GoString>)
    ensures r == UnitDecrypted(k, iv, s)
  {
    var data := Hex.Decode(s);
    if |iv| < 2 {
      return None;
    }
    if !FullKeys(k) {
      if data == [] {
        return Some([]);
      }
      return None;
    }
    var keys := AsKeys(k);
    var ok, result := ChainDecryptBuffer(Decipher(keys), IvPair(iv), data);
    if !ok {
      return None;
    }
    ChainDecryptIsCbc(Decipher(keys), IvPair(iv), data);
    var n := TrimTrailingZeros(result);
    r := Some(result[..n]);
  }
}
