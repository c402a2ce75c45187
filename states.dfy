/**
 * The package-level client state: identifiers, addresses, portal URLs and
 * the running/logged-in flags, shared by the session and the client loop.
 * The package's variables are the fields of one `States` object.
 */
module States {
  import opened Bytes

  /** The algorithm id every refresh starts from. */
  const ZeroAlgoId: GoString := Ascii("00000000-0000-0000-0000-000000000000")

  function LowerByte(c: byte): byte {
    if 0x41 <= c <= 0x5A then c + 0x20 else c
  }

  /** `strings.ToLower` on ASCII text. */
  function ToLower(s: GoString): (r: GoString)
    ensures |r| == |s|
    ensures forall i :: 0 <= i < |s| ==> r[i] == LowerByte(s[i])
  {
    seq(|s|, i requires 0 <= i < |s| => LowerByte(s[i]))
  }

  /** The values of all state variables at one moment. */
  datatype StateRecord = StateRecord(
    clientId: GoString,
    algoId: GoString,
    macAddress: GoString,
    ticket: GoString,
    userIp: GoString,
    acIp: GoString,
    isRunning: bool,
    schoolId: GoString,
    domain: GoString,
    area: GoString,
    ticketUrl: GoString,
    authUrl: GoString,
    extraCfgUrl: map<GoString, GoString>,
    isLogged: bool,
    iface: GoString)

  /** The values at start-up: running, not logged in, every string empty and no extra configuration URL. */
  function Initial(): (r: StateRecord)
    ensures r.isRunning && !r.isLogged && r.extraCfgUrl == map[]
    ensures r.clientId == r.algoId == r.macAddress == r.ticket == []
  {
    StateRecord([], [], [], [], [], [], true, [], [], [], [], [], map[], false, [])
  }

  /**
   * The effect of `RefreshStates`: a fresh lower-cased client id, the zero
   * algorithm id, and a MAC address only where there was none.
   */
  function Refreshed(s: StateRecord, uuid: GoString, randomMac: GoString): (r: StateRecord)
    ensures r.clientId == ToLower(uuid) && r.algoId == ZeroAlgoId
    ensures s.macAddress != [] ==> r.macAddress == s.macAddress
    ensures s.macAddress == [] ==> r.macAddress == randomMac
    ensures r.(clientId := s.clientId, algoId := s.algoId, macAddress := s.macAddress) == s
  {
    var mac := if s.macAddress == [] then randomMac else s.macAddress;
    s.(clientId := ToLower(uuid), algoId := ZeroAlgoId, macAddress := mac)
  }

  /** Once a MAC address is set, later refreshes never change it. */
  lemma {:induction false} MacAddressKept(s: StateRecord, refreshes: seq<(GoString, GoString)>)
    requires s.macAddress != []
    ensures RefreshAll(s, refreshes).macAddress == s.macAddress
    decreases |refreshes|
  {
    if refreshes != [] {
      MacAddressKept(Refreshed(s, refreshes[0].0, refreshes[0].1), refreshes[1..]);
    }
  }

  /** A run of refreshes with the given (uuid, random MAC) inputs. */
  function RefreshAll(s: StateRecord, refreshes: seq<(GoString, GoString)>): StateRecord
    decreases |refreshes|
  {
    if refreshes == [] then s
    else RefreshAll(Refreshed(s, refreshes[0].0, refreshes[0].1), refreshes[1..])
  }

  /** Refreshing twice with the same inputs is refreshing once. */
  lemma RefreshIdempotent(s: StateRecord, uuid: GoString, randomMac: GoString)
    ensures Refreshed(Refreshed(s, uuid, randomMac), uuid, randomMac) == Refreshed(s, uuid, randomMac)
  {
  }

  class States {
    var clientId: GoString
    var algoId: GoString
    var macAddress: GoString
    var ticket: GoString
    var userIp: GoString
    var acIp: GoString
    var isRunning: bool
    var schoolId: GoString
    var domain: GoString
    var area: GoString
    var ticketUrl: GoString
    var authUrl: GoString
    var extraCfgUrl: map<GoString, GoString>
    var isLogged: bool
    var iface: GoString

    function Snapshot(): StateRecord
      reads this
    {
      StateRecord(clientId, algoId, macAddress, ticket, userIp, acIp, isRunning, schoolId, domain, area,
                  ticketUrl, authUrl, extraCfgUrl, isLogged, iface)
    }

    /** The package variables with their initial values. */
    constructor()
      ensures Snapshot() == Initial()
    {
      clientId, algoId, macAddress, ticket, userIp, acIp := [], [], [], [], [], [];
      isRunning := true;
      schoolId, domain, area, ticketUrl, authUrl := [], [], [], [], [];
      extraCfgUrl := map[];
      isLogged := false;
      iface := [];
    }

    /** `RefreshStates`, with `uuid.New()` and `RandomMACAddress()` as inputs. */
    method RefreshStates(uuid: GoString, randomMac: GoString)
      modifies this
      ensures Snapshot() == Refreshed(old(Snapshot()), uuid, randomMac)
    {
      clientId := ToLower(uuid);
      algoId := ZeroAlgoId;
      if macAddress == [] {
        macAddress := randomMac;
      }
    }
  }
}
