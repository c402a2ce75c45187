/**
 * The session package: a parser for the algorithm descriptor the portal
 * returns (`[3-byte type][1-byte key length][key][1-byte id length][id]`),
 * and the package state it fills: the `initialized` flag and the selected
 * cipher unit, which is a nil interface (`None`) until a load succeeds or
 * after a load names an unknown algorithm.
 */
module Session {
  import opened Bytes
  import opened Wrappers
  import Cipher
  import Factory
  import opened States

  /** The four bounds checks of `load`, in the order they are made. */
  datatype ParseError = InvalidHeader | InvalidKeyLength | InvalidAlgoIdLength | InvalidAlgoId

  /** The error text `load` returns for each check. */
  function Message(e: ParseError): GoString {
    match e
    case InvalidHeader => Ascii("invalid zsm header")
    case InvalidKeyLength => Ascii("invalid key length")
    case InvalidAlgoIdLength => Ascii("invalid algo id length")
    case InvalidAlgoId => Ascii("invalid algo id")
  }

  datatype Descriptor = Descriptor(header: GoString, key: GoString, algoId: GoString)

  /** A descriptor whose lengths fit the one-byte length fields. */
  predicate WellSized(d: Descriptor) {
    |d.header| == 3 && |d.key| < 256 && |d.algoId| < 256
  }

  /** The bytes of a descriptor. */
  function Encode(d: Descriptor): (r: GoString)
    requires WellSized(d)
    ensures |r| == 5 + |d.key| + |d.algoId|
  {
    d.header + [|d.key|] + d.key + [|d.algoId|] + d.algoId
  }

  /** What `load` reads from a descriptor before it looks the id up. */
  function Parse(zsm: GoString): (r: Result<Descriptor, ParseError>)
    ensures r == Err(InvalidHeader) <==> |zsm| < 4
    ensures r.Ok? ==> WellSized(r.value)
  {
    if |zsm| < 4 then Err(InvalidHeader)
    else
      var keyLen := zsm[3];
      if 4 + keyLen > |zsm| then Err(InvalidKeyLength)
      else if 4 + keyLen >= |zsm| then Err(InvalidAlgoIdLength)
      else
        var idLen := zsm[4 + keyLen];
        if 5 + keyLen + idLen > |zsm| then Err(InvalidAlgoId)
        else Ok(Descriptor(zsm[..3], zsm[4..4 + keyLen], zsm[5 + keyLen..5 + keyLen + idLen]))
  }

  /** Any well-sized descriptor parses back from its bytes, whatever follows them. */
  lemma ParseEncode(d: Descriptor, rest: GoString)
    requires WellSized(d)
    ensures Parse(Encode(d) + rest) == Ok(d)
  {
    var zsm := Encode(d) + rest;
    var k, n := |d.key|, |d.algoId|;
    assert zsm[..3] == d.header;
    assert zsm[3] == k;
    assert zsm[4..4 + k] == d.key;
    assert zsm[4 + k] == n;
    assert zsm[5 + k..5 + k + n] == d.algoId;
  }

  /** A descriptor that parses starts with the encoding of what it parses to; any further bytes are ignored. */
  lemma ParsedPrefix(zsm: GoString)
    requires Parse(zsm).Ok?
    ensures zsm == Encode(Parse(zsm).value) + zsm[|Encode(Parse(zsm).value)|..]
  {
    var d := Parse(zsm).value;
    var k: int := zsm[3];
    var n: int := zsm[4 + k];
    assert Encode(d) == zsm[..5 + k + n];
  }

  /** Bytes after a complete descriptor change nothing. */
  lemma TrailingBytesIgnored(zsm: GoString, extra: GoString)
    requires Parse(zsm).Ok?
    ensures Parse(zsm + extra) == Parse(zsm)
  {
    var d := Parse(zsm).value;
    ParsedPrefix(zsm);
    var rest := zsm[|Encode(d)|..];
    ParseEncode(d, rest + extra);
    assert zsm + extra == Encode(d) + (rest + extra);
  }

  /**
   * What `load` returns for a descriptor: its error, the lookup's error, or
   * the unit and the id. A loaded unit is the one the factory builds for
   * the returned id, and a descriptor shorter than its four-byte header
   * never loads.
   */
  function Loaded(table: Factory.KeyTable, zsm: GoString): (r: Result<(Cipher.Suite, GoString), GoString>)
    ensures r.Ok? ==> Factory.GetInstance(table, r.value.1) == Ok(r.value.0)
    ensures |zsm| < 4 ==> r.Err?
  {
    match Parse(zsm)
    case Err(e) => Err(Message(e))
    case Ok(d) =>
      match Factory.GetInstance(table, d.algoId)
      case Err(msg) => Err(msg)
      case Ok(c) => Ok((c, d.algoId))
  }

  /** A load succeeds exactly when the descriptor parses and names one of the nine algorithms. */
  lemma LoadedOk(table: Factory.KeyTable, zsm: GoString)
    ensures Loaded(table, zsm).Ok? <==> Parse(zsm).Ok? && Parse(zsm).value.algoId in Factory.KnownIds
    ensures Parse(zsm).Ok? && Loaded(table, zsm).Err? ==>
              Loaded(table, zsm).error == Ascii("unknown algorithm: ") + Parse(zsm).value.algoId
  {
  }

  /** The package state: the `initialized` flag and `cipherImpl`. */
  class SessionState {
    var initialized: bool
    var cipher: Option<Cipher.Suite>
    /** The descriptors written to a dump file, oldest first. */
    ghost var dumps: seq<GoString>
    /** The key material the factory builds units from. */
    const table: Factory.KeyTable

    ghost predicate Valid()
      reads this
    {
      Factory.ValidTable(table) && (cipher.Some? ==> Cipher.Valid(cipher.value))
    }

    constructor(table: Factory.KeyTable)
      requires Factory.ValidTable(table)
      ensures Valid() && this.table == table
      ensures !initialized && cipher == None && dumps == []
    {
      this.table := table;
      initialized := false;
      cipher := None;
      dumps := [];
    }

    /**
     * `load`: the cursor walks the header, the key and the id with a bounds
     * check before each read. A parse error leaves the unit as it was; an
     * unknown id makes it nil and dumps the descriptor; a known id selects
     * the unit and records the id in the state.
     */
    method Load(zsm: GoString, st: States)
      returns (ok: bool, err: Option<GoString>)
      requires Valid()
      modifies this, st
      ensures Valid() && initialized == old(initialized)
      ensures ok <==> Loaded(table, zsm).Ok?
      ensures ok ==> err == None && cipher == Some(Loaded(table, zsm).value.0)
      ensures ok ==> st.Snapshot() == old(st.Snapshot()).(algoId := Loaded(table, zsm).value.1)
      ensures !ok ==> err == Some(Loaded(table, zsm).error) && st.Snapshot() == old(st.Snapshot())
      ensures Parse(zsm).Err? ==> cipher == old(cipher) && dumps == old(dumps)
      ensures Parse(zsm).Ok? && !ok ==> cipher == None && dumps == old(dumps) + [zsm]
      ensures Parse(zsm).Ok? && ok ==> dumps == old(dumps)
    {
      if |zsm| < 4 {
        return false, Some(Message(InvalidHeader));
      }
      var keyLen := zsm[3];
      var pos := 4;
      if pos + keyLen > |zsm| {
        return false, Some(Message(InvalidKeyLength));
      }
      pos := pos + keyLen;
      if pos >= |zsm| {
        return false, Some(Message(InvalidAlgoIdLength));
      }
      var algoIdLen := zsm[pos];
      pos := pos + 1;
      if pos + algoIdLen > |zsm| {
        return false, Some(Message(InvalidAlgoId));
      }
      var algoId := zsm[pos..pos + algoIdLen];
      assert Parse(zsm).Ok? && Parse(zsm).value.algoId == algoId;
      var r := Factory.GetInstance(table, algoId);
      if r.Err? {
        cipher := None;
        dumps := dumps + [zsm];
        return false, Some(r.error);
      }
      cipher := Some(r.value);
      st.algoId := algoId;
      return true, None;
    }

    /** `Initialize`: the flag becomes exactly `load`'s success flag. */
    method Initialize(zsm: GoString, st: States) returns (err: Option<GoString>)
      requires Valid()
      modifies this, st
      ensures Valid()
      ensures initialized <==> Loaded(table, zsm).Ok?
      ensures err.None? <==> initialized
      ensures initialized ==> cipher == Some(Loaded(table, zsm).value.0)
      ensures initialized ==> st.Snapshot() == old(st.Snapshot()).(algoId := Loaded(table, zsm).value.1)
      ensures !initialized ==> err == Some(Loaded(table, zsm).error) && st.Snapshot() == old(st.Snapshot())
      ensures Parse(zsm).Err? ==> cipher == old(cipher) && dumps == old(dumps)
      ensures Parse(zsm).Ok? && !initialized ==> cipher == None && dumps == old(dumps) + [zsm]
    {
      var ok;
      ok, err := Load(zsm, st);
      initialized := ok;
    }

    predicate IsInitialized()
      reads this
    {
      initialized
    }

    /** `Encrypt`: delegates to the held unit without looking at the flag; a nil unit panics. */
    method Encrypt(text: GoString) returns (r: Option<GoString>)
      requires Valid()
      ensures cipher.None? ==> r.None?
      ensures cipher.Some? ==> r == Cipher.Encrypted(cipher.value, text)
    {
      if cipher.None? {
        return None;
      }
      r := Cipher.Encrypt(cipher.value, text);
    }

    /** `Decrypt`: delegates to the held unit without looking at the flag; a nil unit panics. */
    method Decrypt(s: GoString) returns (r: Option<GoString>)
      requires Valid()
      ensures cipher.None? ==> r.None?
      ensures cipher.Some? ==> r == Cipher.Decrypted(cipher.value, s)
    {
      if cipher.None? {
        return None;
      }
      r := Cipher.Decrypt(cipher.value, s);
    }

    /** `Free`: clears the flag and nothing else; the unit stays selected. */
    method Free()
      modifies this
      ensures !initialized && cipher == old(cipher) && dumps == old(dumps)
    {
      initialized := false;
    }
  }
}
