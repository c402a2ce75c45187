/**
 * The `CipherInterface` contract: every unit offers `Encrypt(text)` and
 * `Decrypt(hex)`. The closed set of units is a datatype whose variants hold
 * what each constructor stores; `Encrypted` and `Decrypted` dispatch to the
 * unit's own model, and `None` is a run-time panic of the unit.
 */
module Cipher {
  import opened Bits
  import opened Bytes
  import opened Wrappers
  import Hex
  import opened Primitives
  import opened Xtea
  import CbcStages
  import EcbStages
  import AesCbc
  import AesEcb
  import DesCbc
  import DesEcb
  import ModXtea
  import ModXteaIv
  import Placeholders

  datatype Suite =
    | AesCbcUnit(aes: Primitive, key1: seq<byte>, key2: seq<byte>, iv: seq<byte>)
    | AesEcbUnit(aes: Primitive, key1: seq<byte>, key2: seq<byte>)
    | DesCbcUnit(des: Primitive, key1: seq<byte>, key2: seq<byte>, iv: seq<byte>)
    | DesEcbUnit(des: Primitive, key1: seq<byte>, key2: seq<byte>)
    | ZucUnit(key: seq<byte>, iv: seq<byte>)
    | Sm4CbcUnit(key: seq<byte>, iv: seq<byte>)
    | Sm4EcbUnit(key: seq<byte>)
    | ModXteaUnit(keys: KeySlices)
    | ModXteaIvUnit(keys: KeySlices, ivWords: seq<Word>)

  /** The AES units hold an AES primitive and the Triple-DES units a Triple-DES one. */
  ghost predicate Valid(c: Suite) {
    match c
    case AesCbcUnit(aes, _, _, _) => Sound(aes) && aes.family == Aes
    case AesEcbUnit(aes, _, _) => Sound(aes) && aes.family == Aes
    case DesCbcUnit(des, _, _, _) => Sound(des) && des.family == TripleDes
    case DesEcbUnit(des, _, _) => Sound(des) && des.family == TripleDes
    case _ => true
  }

  /**
   * The library accepts every key (and IV) the unit holds, and the XTEA
   * units' slices have the words their code indexes; the placeholders read
   * no key.
   */
  predicate Usable(c: Suite) {
    match c
    case AesCbcUnit(aes, key1, key2, iv) => CbcStages.Usable(aes, key1, iv) && CbcStages.Usable(aes, key2, iv)
    case AesEcbUnit(aes, key1, key2) => ValidKey(aes.family, key1) && ValidKey(aes.family, key2)
    case DesCbcUnit(des, key1, key2, iv) => CbcStages.Usable(des, key1, iv) && CbcStages.Usable(des, key2, iv)
    case DesEcbUnit(des, key1, key2) => ValidKey(des.family, key1) && ValidKey(des.family, key2)
    case ModXteaUnit(keys) => FullKeys(keys)
    case ModXteaIvUnit(keys, ivWords) => FullKeys(keys) && |ivWords| >= 2
    case _ => true
  }

  /** The placeholders pass text through hex unchanged; the other units pad with zeros. */
  predicate Placeholder(c: Suite) {
    c.ZucUnit? || c.Sm4CbcUnit? || c.Sm4EcbUnit?
  }

  /** `Encrypt` of the unit: every unit that does not panic emits upper-case hex. */
  function Encrypted(c: Suite, text: GoString): (r: Option<GoString>)
    requires Valid(c)
    ensures r.Some? ==> Hex.UpperHexText(r.value)
  {
    match c
    case AesCbcUnit(aes, key1, key2, iv) => AesCbc.Encrypted(aes, key1, key2, iv, text)
    case AesEcbUnit(aes, key1, key2) => EcbStages.Encrypted(aes, key1, key2, text)
    case DesCbcUnit(des, key1, key2, iv) => DesCbc.Encrypted(des, key1, key2, iv, text)
    case DesEcbUnit(des, key1, key2) => EcbStages.Encrypted(des, key1, key2, text)
    case ZucUnit(_, _) => Some(Placeholders.Encrypted(text))
    case Sm4CbcUnit(_, _) => Some(Placeholders.Encrypted(text))
    case Sm4EcbUnit(_) => Some(Placeholders.Encrypted(text))
    case ModXteaUnit(keys) => ModXtea.UnitEncrypted(keys, text)
    case ModXteaIvUnit(keys, ivWords) => ModXteaIv.UnitEncrypted(keys, ivWords, text)
  }

  /** `Decrypt` of the unit: no unit returns more than one byte per two characters of its input. */
  function Decrypted(c: Suite, s: GoString): (r: Option<GoString>)
    requires Valid(c)
    ensures r.Some? ==> 2 * |r.value| <= |s|
  {
    match c
    case AesCbcUnit(aes, key1, key2, iv) => AesCbc.Decrypted(aes, key1, key2, iv, s)
    case AesEcbUnit(aes, key1, key2) => EcbStages.Decrypted(aes, key1, key2, s)
    case DesCbcUnit(des, key1, key2, iv) => DesCbc.Decrypted(des, key1, key2, iv, s)
    case DesEcbUnit(des, key1, key2) => EcbStages.Decrypted(des, key1, key2, s)
    case ZucUnit(_, _) => Some(Placeholders.Decrypted(s))
    case Sm4CbcUnit(_, _) => Some(Placeholders.Decrypted(s))
    case Sm4EcbUnit(_) => Some(Placeholders.Decrypted(s))
    case ModXteaUnit(keys) => ModXtea.UnitDecrypted(keys, s)
    case ModXteaIvUnit(keys, ivWords) => ModXteaIv.UnitDecrypted(keys, ivWords, s)
  }

  /** What decryption of a unit's own output gives back: the placeholders keep every byte, the padding units lose trailing zeros. */
  function Recovered(c: Suite, text: GoString): GoString {
    if Placeholder(c) then text else TrimZeros(text)
  }

  /**
   * Every unit with usable keys decrypts its own output: the placeholders
   * give the text back exactly, the padding units without its trailing
   * zero bytes.
   */
  lemma RoundTrip(c: Suite, text: GoString)
    requires Valid(c) && Usable(c)
    ensures Encrypted(c, text).Some?
    ensures Decrypted(c, Encrypted(c, text).value) == Some(Recovered(c, text))
  {
    if c.AesCbcUnit? || c.DesCbcUnit? {
      CbcRoundTrip(c, text);
    } else if c.AesEcbUnit? || c.DesEcbUnit? {
      EcbRoundTrip(c, text);
    } else if c.ModXteaUnit? || c.ModXteaIvUnit? {
      XteaRoundTrip(c, text);
    } else {
      PlaceholderRoundTrip(c, text);
    }
  }

  lemma CbcRoundTrip(c: Suite, text: GoString)
    requires Valid(c) && Usable(c) && (c.AesCbcUnit? || c.DesCbcUnit?)
    ensures Encrypted(c, text).Some?
    ensures Decrypted(c, Encrypted(c, text).value) == Some(Recovered(c, text))
  {
    match c
    case AesCbcUnit(aes, key1, key2, iv) => AesCbc.RoundTrip(aes, key1, key2, iv, text);
    case DesCbcUnit(des, key1, key2, iv) => DesCbc.RoundTrip(des, key1, key2, iv, text);
  }

  lemma EcbRoundTrip(c: Suite, text: GoString)
    requires Valid(c) && Usable(c) && (c.AesEcbUnit? || c.DesEcbUnit?)
    ensures Encrypted(c, text).Some?
    ensures Decrypted(c, Encrypted(c, text).value) == Some(Recovered(c, text))
  {
    match c
    case AesEcbUnit(aes, key1, key2) => EcbStages.RoundTrip(aes, key1, key2, text);
    case DesEcbUnit(des, key1, key2) => EcbStages.RoundTrip(des, key1, key2, text);
  }

  lemma XteaRoundTrip(c: Suite, text: GoString)
    requires Usable(c) && (c.ModXteaUnit? || c.ModXteaIvUnit?)
    ensures Encrypted(c, text).Some?
    ensures Decrypted(c, Encrypted(c, text).value) == Some(Recovered(c, text))
  {
    if c.ModXteaUnit? {
      ModXtea.UnitRoundTrip(c.keys, text);
    } else {
      ModXteaIv.UnitRoundTrip(c.keys, c.ivWords, text);
    }
  }

  lemma PlaceholderRoundTrip(c: Suite, text: GoString)
    requires Placeholder(c)
    ensures Encrypted(c, text).Some?
    ensures Decrypted(c, Encrypted(c, text).value) == Some(Recovered(c, text))
  {
    Placeholders.RoundTrip(text);
  }

  /** Every unit with usable keys emits upper-case hex. */
  lemma UpperHexOutput(c: Suite, text: GoString)
    requires Valid(c) && Usable(c)
    ensures Encrypted(c, text).Some?
    ensures forall i :: 0 <= i < |Encrypted(c, text).value| ==> Hex.IsUpperHexDigit(Encrypted(c, text).value[i])
  {
    match c
    case AesCbcUnit(aes, key1, key2, iv) =>
      AesCbc.CiphertextShape(aes, key1, key2, iv, text);
      AesCbc.EncryptedDecodes(aes, key1, key2, iv, text);
    case AesEcbUnit(aes, key1, key2) => EcbStages.EncryptedShape(aes, key1, key2, text);
    case DesCbcUnit(des, key1, key2, iv) =>
      DesCbc.CiphertextShape(des, key1, key2, iv, text);
      DesCbc.EncryptedDecodes(des, key1, key2, iv, text);
    case DesEcbUnit(des, key1, key2) => EcbStages.EncryptedShape(des, key1, key2, text);
    case ZucUnit(_, _) =>
    case Sm4CbcUnit(_, _) =>
    case Sm4EcbUnit(_) =>
    case ModXteaUnit(keys) => ModXtea.EncryptedShape(AsKeys(keys), text);
    case ModXteaIvUnit(keys, ivWords) => ModXteaIv.EncryptedShape(AsKeys(keys), ivWords, text);
  }

  /** `Encrypt` through the interface: the unit's own method. */
  method Encrypt(c: Suite, text: GoString) returns (r: Option<GoString>)
    requires Valid(c)
    ensures r == Encrypted(c, text)
  {
    match c
    case AesCbcUnit(aes, key1, key2, iv) => r := AesCbc.Encrypt(aes, key1, key2, iv, text);
    case AesEcbUnit(aes, key1, key2) => r := AesEcb.Encrypt(aes, key1, key2, text);
    case DesCbcUnit(des, key1, key2, iv) => r := DesCbc.Encrypt(des, key1, key2, iv, text);
    case DesEcbUnit(des, key1, key2) => r := DesEcb.Encrypt(des, key1, key2, text);
    case ZucUnit(_, _) => r := Some(Placeholders.Encrypted(text));
    case Sm4CbcUnit(_, _) => r := Some(Placeholders.Encrypted(text));
    case Sm4EcbUnit(_) => r := Some(Placeholders.Encrypted(text));
    case ModXteaUnit(keys) => r := ModXtea.Encrypt(keys, text);
    case ModXteaIvUnit(keys, ivWords) => r := ModXteaIv.Encrypt(keys, ivWords, text);
  }

  /** `Decrypt` through the interface: the unit's own method. */
  method Decrypt(c: Suite, s: GoString) returns (r: Option<GoString>)
    requires Valid(c)
    ensures r == Decrypted(c, s)
  {
    match c
    case AesCbcUnit(aes, key1, key2, iv) => r := AesCbc.Decrypt(aes, key1, key2, iv, s);
    case AesEcbUnit(aes, key1, key2) => r := AesEcb.Decrypt(aes, key1, key2, s);
    case DesCbcUnit(des, key1, key2, iv) => r := DesCbc.Decrypt(des, key1, key2, iv, s);
    case DesEcbUnit(des, key1, key2) => r := DesEcb.Decrypt(des, key1, key2, s);
    case ZucUnit(_, _) => r := Some(Placeholders.Decrypted(s));
    case Sm4CbcUnit(_, _) => r := Some(Placeholders.Decrypted(s));
    case Sm4EcbUnit(_) => r := Some(Placeholders.Decrypted(s));
    case ModXteaUnit(keys) => r := ModXtea.Decrypt(keys, s);
    case ModXteaIvUnit(keys, ivWords) => r := ModXteaIv.Decrypt(keys, ivWords, s);
  }
}
