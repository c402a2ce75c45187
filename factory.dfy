/**
 * `GetInstance`: a closed table from nine algorithm ids to cipher units.
 * The key and IV constants the constructors receive are defined outside the
 * modelled files, so they arrive here as a `KeyTable`, together with the
 * library's AES and Triple-DES primitives.
 */
module Factory {
  import opened Bits
  import opened Bytes
  import opened Wrappers
  import opened Primitives
  import opened Xtea
  import ModXteaIv
  import opened Cipher

  /** The key material each constructor is called with. */
  datatype KeyTable = KeyTable(
    aes: Primitive,
    des: Primitive,
    aesCbcKey1: seq<byte>, aesCbcKey2: seq<byte>, aesCbcIv: seq<byte>,
    aesEcbKey1: seq<byte>, aesEcbKey2: seq<byte>,
    desCbcKey1: seq<byte>, desCbcKey2: seq<byte>, desCbcIv: seq<byte>,
    desEcbKey1: seq<byte>, desEcbKey2: seq<byte>,
    zucKey: seq<byte>, zucIv: seq<byte>,
    sm4CbcKey: seq<byte>, sm4CbcIv: seq<byte>,
    sm4EcbKey: seq<byte>,
    xteaKeys: KeySlices,
    xteaIvKeys: KeySlices, xteaIv: seq<Word>)

  /** The primitives are the library's AES and Triple-DES. */
  ghost predicate ValidTable(t: KeyTable) {
    Sound(t.aes) && t.aes.family == Aes && Sound(t.des) && t.des.family == TripleDes
  }

  const AesCbcId: GoString := Ascii("CAFBCBAD-B6E7-4CAB-8A67-14D39F00CE1E")
  const AesEcbId: GoString := Ascii("A474B1C2-3DE0-4EA2-8C5F-7093409CE6C4")
  const DesCbcId: GoString := Ascii("5BFBA864-BBA9-42DB-8EAD-49B5F412BD81")
  const DesEcbId: GoString := Ascii("6E0B65FF-0B5B-459C-8FCE-EC7F2BEA9FF5")
  const ZucId: GoString := Ascii("B809531F-0007-4B5B-923B-4BD560398113")
  const Sm4CbcId: GoString := Ascii("F3974434-C0DD-4C20-9E87-DDB6814A1C48")
  const Sm4EcbId: GoString := Ascii("ED382482-F72C-4C41-A76D-28EEA0F1F2AF")
  const ModXteaId: GoString := Ascii("B3047D4E-67DF-4864-A6A5-DF9B9E525C79")
  const ModXteaIvId: GoString := Ascii("C32C68F9-CA81-4260-A329-BBAFD1A9CCD1")

  /** The ids of the table, in the order of the `switch`. */
  const KnownIds: seq<GoString> :=
    [AesCbcId, AesEcbId, DesCbcId, DesEcbId, ZucId, Sm4CbcId, Sm4EcbId, ModXteaId, ModXteaIvId]

  /** The id under which the table lists a unit's variant. */
  function IdOf(c: Suite): (id: GoString)
    ensures id in KnownIds
  {
    match c
    case AesCbcUnit(_, _, _, _) => AesCbcId
    case AesEcbUnit(_, _, _) => AesEcbId
    case DesCbcUnit(_, _, _, _) => DesCbcId
    case DesEcbUnit(_, _, _) => DesEcbId
    case ZucUnit(_, _) => ZucId
    case Sm4CbcUnit(_, _) => Sm4CbcId
    case Sm4EcbUnit(_) => Sm4EcbId
    case ModXteaUnit(_) => ModXteaId
    case ModXteaIvUnit(_, _) => ModXteaIvId
  }

  /**
   * The `switch` on the id: exact byte equality with one of the nine ids
   * constructs that unit from its keys; any other id is the error
   * `unknown algorithm: <id>`, with no fallback.
   */
  function GetInstance(t: KeyTable, id: GoString): (r: Result<Suite, GoString>)
    ensures r.Ok? <==> id in KnownIds
    ensures r.Ok? ==> IdOf(r.value) == id
    ensures r.Err? ==> r.error == Ascii("unknown algorithm: ") + id
    ensures r.Ok? && ValidTable(t) ==> Cipher.Valid(r.value)
  {
    if id == AesCbcId then Ok(AesCbcUnit(t.aes, t.aesCbcKey1, t.aesCbcKey2, t.aesCbcIv))
    else if id == AesEcbId then Ok(AesEcbUnit(t.aes, t.aesEcbKey1, t.aesEcbKey2))
    else if id == DesCbcId then Ok(DesCbcUnit(t.des, t.desCbcKey1, t.desCbcKey2, t.desCbcIv))
    else if id == DesEcbId then Ok(DesEcbUnit(t.des, t.desEcbKey1, t.desEcbKey2))
    else if id == ZucId then Ok(ZucUnit(t.zucKey, t.zucIv))
    else if id == Sm4CbcId then Ok(Sm4CbcUnit(t.sm4CbcKey, t.sm4CbcIv))
    else if id == Sm4EcbId then Ok(Sm4EcbUnit(t.sm4EcbKey))
    else if id == ModXteaId then Ok(ModXteaUnit(t.xteaKeys))
    else if id == ModXteaIvId then Ok(ModXteaIvUnit(t.xteaIvKeys, t.xteaIv))
    else Err(Ascii("unknown algorithm: ") + id)
  }

  /** The first two bytes of each id, which already tell the ids apart. */
  lemma IdHeads()
    ensures AesCbcId[0] == 0x43 && AesCbcId[1] == 0x41
    ensures AesEcbId[0] == 0x41 && AesEcbId[1] == 0x34
    ensures DesCbcId[0] == 0x35 && DesCbcId[1] == 0x42
    ensures DesEcbId[0] == 0x36 && DesEcbId[1] == 0x45
    ensures ZucId[0] == 0x42 && ZucId[1] == 0x38
    ensures Sm4CbcId[0] == 0x46 && Sm4CbcId[1] == 0x33
    ensures Sm4EcbId[0] == 0x45 && Sm4EcbId[1] == 0x44
    ensures ModXteaId[0] == 0x42 && ModXteaId[1] == 0x33
    ensures ModXteaIvId[0] == 0x43 && ModXteaIvId[1] == 0x33
  {
    assert "CAFBCBAD-B6E7-4CAB-8A67-14D39F00CE1E"[0] == 'C' && "CAFBCBAD-B6E7-4CAB-8A67-14D39F00CE1E"[1] == 'A';
    assert "A474B1C2-3DE0-4EA2-8C5F-7093409CE6C4"[0] == 'A' && "A474B1C2-3DE0-4EA2-8C5F-7093409CE6C4"[1] == '4';
    assert "5BFBA864-BBA9-42DB-8EAD-49B5F412BD81"[0] == '5' && "5BFBA864-BBA9-42DB-8EAD-49B5F412BD81"[1] == 'B';
    assert "6E0B65FF-0B5B-459C-8FCE-EC7F2BEA9FF5"[0] == '6' && "6E0B65FF-0B5B-459C-8FCE-EC7F2BEA9FF5"[1] == 'E';
    assert "B809531F-0007-4B5B-923B-4BD560398113"[0] == 'B' && "B809531F-0007-4B5B-923B-4BD560398113"[1] == '8';
    assert "F3974434-C0DD-4C20-9E87-DDB6814A1C48"[0] == 'F' && "F3974434-C0DD-4C20-9E87-DDB6814A1C48"[1] == '3';
    assert "ED382482-F72C-4C41-A76D-28EEA0F1F2AF"[0] == 'E' && "ED382482-F72C-4C41-A76D-28EEA0F1F2AF"[1] == 'D';
    assert "B3047D4E-67DF-4864-A6A5-DF9B9E525C79"[0] == 'B' && "B3047D4E-67DF-4864-A6A5-DF9B9E525C79"[1] == '3';
    assert "C32C68F9-CA81-4260-A329-BBAFD1A9CCD1"[0] == 'C' && "C32C68F9-CA81-4260-A329-BBAFD1A9CCD1"[1] == '3';
  }

  /** The nine ids are distinct, so exactly nine strings yield a unit. */
  lemma NineIds()
    ensures |KnownIds| == 9
    ensures forall i, j :: 0 <= i < j < |KnownIds| ==> KnownIds[i] != KnownIds[j]
  {
    IdHeads();
    forall i, j | 0 <= i < j < |KnownIds| ensures KnownIds[i] != KnownIds[j] {
      assert KnownIds[i][0] != KnownIds[j][0] || KnownIds[i][1] != KnownIds[j][1];
    }
  }

  /** The four library-cipher ids construct their units from their own keys and the library primitives. */
  lemma LibraryEntries(t: KeyTable)
    ensures GetInstance(t, AesCbcId) == Ok(AesCbcUnit(t.aes, t.aesCbcKey1, t.aesCbcKey2, t.aesCbcIv))
    ensures GetInstance(t, AesEcbId) == Ok(AesEcbUnit(t.aes, t.aesEcbKey1, t.aesEcbKey2))
    ensures GetInstance(t, DesCbcId) == Ok(DesCbcUnit(t.des, t.desCbcKey1, t.desCbcKey2, t.desCbcIv))
    ensures GetInstance(t, DesEcbId) == Ok(DesEcbUnit(t.des, t.desEcbKey1, t.desEcbKey2))
  {
    IdHeads();
  }

  /** The three placeholder ids construct their units from their own keys. */
  lemma PlaceholderEntries(t: KeyTable)
    ensures GetInstance(t, ZucId) == Ok(ZucUnit(t.zucKey, t.zucIv))
    ensures GetInstance(t, Sm4CbcId) == Ok(Sm4CbcUnit(t.sm4CbcKey, t.sm4CbcIv))
    ensures GetInstance(t, Sm4EcbId) == Ok(Sm4EcbUnit(t.sm4EcbKey))
  {
    IdHeads();
  }

  /** The two XTEA ids construct `ModXTEA` with three keys and `ModXTEAIV` with three keys and the IV. */
  lemma XteaEntries(t: KeyTable)
    ensures GetInstance(t, ModXteaId) == Ok(ModXteaUnit(t.xteaKeys))
    ensures GetInstance(t, ModXteaIvId) == Ok(ModXteaIvUnit(t.xteaIvKeys, t.xteaIv))
  {
    IdHeads();
  }

  /** Matching is case-sensitive: the lower-case spelling of a known id is unknown. */
  lemma CaseSensitive(t: KeyTable)
    ensures GetInstance(t, Ascii("cafbcbad-b6e7-4cab-8a67-14d39f00ce1e")).Err?
  {
    IdHeads();
    var id := "cafbcbad-b6e7-4cab-8a67-14d39f00ce1e";
    assert id[0] == 'c';
    assert Ascii(id)[0] == 0x63;
  }
}
