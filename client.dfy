/**
 * The dialer's control loop. Each round it takes the result of a
 * connectivity probe: when connected and logged in it sends a keep-alive
 * packet once the server's retry interval has passed; when the portal asks
 * for authorization it negotiates an algorithm, fetches a ticket and logs
 * in. Replies from the network, the XML decoder, the clock, the random
 * identifiers and the prompted SMS code are inputs of the model.
 */
module Client {
  import opened Bytes
  import opened Wrappers
  import opened States
  import Session
  import Cipher
  import Utils
  import Factory

  // ---------------------------------------------------------------------
  // 64-bit integers

  const Two63: int := 0x8000_0000_0000_0000

  predicate IsInt64(x: int) {
    -Two63 <= x < Two63
  }

  /** A value of Go's `int64`, such as `time.Now().UnixMilli()`. */
  type Int64 = x: int | IsInt64(x)

  /** Go's `int64` arithmetic: the result is reduced into range modulo 2^64. */
  function Wrap64(x: int): (r: int)
    ensures IsInt64(r)
    ensures IsInt64(x) ==> r == x
  {
    (x + Two63) % (2 * Two63) - Two63
  }

  /** A value between 2^63 and 3 * 2^63 wraps by one turn of 2^64. */
  lemma WrapOnce(x: int)
    requires Two63 <= x < 3 * Two63
    ensures Wrap64(x) == x - 2 * Two63
  {
    var m := 2 * Two63;
    var y := x + Two63;
    assert y == m + (y - m) && 0 <= y - m < m;
    assert y % m == y - m;
  }

  // ---------------------------------------------------------------------
  // `parseRetry`: `fmt.Sscanf(retry, "%d", &result)` into an `int64`

  const Plus: byte := 0x2B
  const Minus: byte := 0x2D

  predicate IsDigit(c: byte) {
    0x30 <= c <= 0x39
  }

  /** The bytes the scanner skips before a number; a newline is not one of them and ends the scan. */
  predicate IsScanSpace(c: byte) {
    c == 0x20 || c == 0x09 || c == 0x0B || c == 0x0C || c == 0x0D
  }

  /** The length of the run of scanner spaces that starts `s`. */
  function SpacesBefore(s: GoString): (n: nat)
    ensures n <= |s|
  {
    if s != [] && IsScanSpace(s[0]) then 1 + SpacesBefore(s[1..]) else 0
  }

  /** The length of the run of decimal digits that starts `s`. */
  function DigitsBefore(s: GoString): (n: nat)
    ensures n <= |s|
  {
    if s != [] && IsDigit(s[0]) then 1 + DigitsBefore(s[1..]) else 0
  }

  /** The value of a string of decimal digits. */
  function DecimalValue(d: GoString): int {
    if d == [] then 0 else DecimalValue(d[..|d| - 1]) * 10 + (d[|d| - 1] as int - 0x30)
  }

  /**
   * `parseRetry`: skip spaces, accept one optional sign, then at least one
   * digit; whatever follows the digits is ignored. A missing number, a
   * newline before it and a value outside `int64` make `Sscanf` fail and
   * leave the result at 0.
   */
  function ParseRetry(retry: GoString): (r: int)
    ensures IsInt64(r)
  {
    var rest := retry[SpacesBefore(retry)..];
    var signed := rest != [] && (rest[0] == Plus || rest[0] == Minus);
    var digits := if signed then rest[1..] else rest;
    var n := DigitsBefore(digits);
    var v := if signed && rest[0] == Minus then -DecimalValue(digits[..n]) else DecimalValue(digits[..n]);
    if n == 0 || !IsInt64(v) then 0 else v
  }

  /** The decimal digits of `n`, without sign or leading zeros: a reference encoder for `ParseRetry`. */
  function Decimal(n: nat): (r: GoString)
    ensures |r| >= 1 && forall k :: 0 <= k < |r| ==> IsDigit(r[k])
  {
    if n < 10 then [0x30 + n] else Decimal(n / 10) + [0x30 + n % 10]
  }

  lemma {:induction false} DecimalRoundTrip(n: nat)
    ensures DecimalValue(Decimal(n)) == n
  {
    if n >= 10 {
      DecimalRoundTrip(n / 10);
      var d := Decimal(n);
      assert d[..|d| - 1] == Decimal(n / 10);
    }
  }

  lemma {:induction false} DigitsBeforeRun(d: GoString, rest: GoString)
    requires forall k :: 0 <= k < |d| ==> IsDigit(d[k])
    requires rest == [] || !IsDigit(rest[0])
    ensures DigitsBefore(d + rest) == |d|
  {
    if d != [] {
      assert (d + rest)[1..] == d[1..] + rest;
      DigitsBeforeRun(d[1..], rest);
    }
  }

  /** A number in range followed by anything that is not a digit reads back as itself. */
  lemma RetryRoundTrip(n: nat, rest: GoString)
    requires n < Two63
    requires rest == [] || !IsDigit(rest[0])
    ensures ParseRetry(Decimal(n) + rest) == n
  {
    var s := Decimal(n) + rest;
    assert SpacesBefore(s) == 0;
    assert s[0..] == s;
    DigitsBeforeRun(Decimal(n), rest);
    assert s[..|Decimal(n)|] == Decimal(n);
    DecimalRoundTrip(n);
  }

  /** A minus sign negates; the most negative `int64` is still read. */
  lemma RetryNegative(n: nat, rest: GoString)
    requires n <= Two63
    requires rest == [] || !IsDigit(rest[0])
    ensures ParseRetry([Minus] + Decimal(n) + rest) == -(n as int)
  {
    var s := [Minus] + Decimal(n) + rest;
    assert SpacesBefore(s) == 0;
    assert s[0..] == s;
    assert s[1..] == Decimal(n) + rest;
    DigitsBeforeRun(Decimal(n), rest);
    assert (Decimal(n) + rest)[..|Decimal(n)|] == Decimal(n);
    DecimalRoundTrip(n);
  }

  /** A number beyond the largest `int64` overflows, and the result stays 0. */
  lemma RetryOverflow(n: nat, rest: GoString)
    requires n >= Two63
    requires rest == [] || !IsDigit(rest[0])
    ensures ParseRetry(Decimal(n) + rest) == 0
  {
    var s := Decimal(n) + rest;
    assert SpacesBefore(s) == 0;
    assert s[0..] == s;
    DigitsBeforeRun(Decimal(n), rest);
    assert s[..|Decimal(n)|] == Decimal(n);
    DecimalRoundTrip(n);
  }

  /** After the spaces, a digit, or a sign followed by a digit. */
  predicate StartsWithInteger(s: GoString) {
    var rest := s[SpacesBefore(s)..];
    (|rest| >= 1 && IsDigit(rest[0])) || (|rest| >= 2 && (rest[0] == Plus || rest[0] == Minus) && IsDigit(rest[1]))
  }

  /** A keep-retry that does not start with an integer (an empty one included) reads as 0. */
  lemma RetryNeedsInteger(s: GoString)
    ensures !StartsWithInteger(s) ==> ParseRetry(s) == 0
    ensures ParseRetry([]) == 0
  {
  }

  // ---------------------------------------------------------------------
  // The keep-alive rule

  /**
   * The test of the main loop: the milliseconds since the last keep-alive,
   * `now - tick`, against `parseRetry(keepRetry) * 1000`, both computed in
   * `int64`. Without overflow, a keep-alive is due exactly when the
   * interval in seconds has passed.
   */
  function KeepAliveDue(now: int, tick: int, keepRetry: GoString): (due: bool)
    ensures IsInt64(now - tick) && IsInt64(ParseRetry(keepRetry) * 1000) ==>
              (due <==> now - tick >= ParseRetry(keepRetry) * 1000)
  {
    Wrap64(now - tick) >= Wrap64(ParseRetry(keepRetry) * 1000)
  }

  /** A keep-retry of `n` seconds, for `n` small enough, asks for a keep-alive every `n * 1000` milliseconds. */
  lemma KeepAliveEvery(now: int, tick: int, n: nat)
    requires n * 1000 < Two63 && IsInt64(now - tick)
    ensures KeepAliveDue(now, tick, Decimal(n)) <==> now - tick >= n * 1000
  {
    assert Decimal(n) + [] == Decimal(n);
    RetryRoundTrip(n, []);
  }

  /** With no interval from the server the test is `now - tick >= 0`: a keep-alive every round. */
  lemma KeepAliveWithoutRetry(now: int, tick: int)
    requires IsInt64(now - tick)
    ensures KeepAliveDue(now, tick, []) <==> now >= tick
  {
    RetryNeedsInteger([]);
  }

  /**
   * The general rule for a keep-retry of `n` seconds that `Sscanf` accepts:
   * both sides of the test are reduced modulo 2^64, so once `n * 1000`
   * overflows the interval is whatever the wrap leaves, negative or positive.
   */
  lemma KeepAliveRetryRule(now: int, tick: int, n: nat)
    requires n < Two63
    ensures KeepAliveDue(now, tick, Decimal(n)) <==> Wrap64(now - tick) >= Wrap64(n * 1000)
  {
    assert Decimal(n) + [] == Decimal(n);
    RetryRoundTrip(n, []);
  }

  /**
   * A keep-retry from 9223372036854776 up to 18446744073709551 seconds has
   * a value in milliseconds between 2^63 and 2^64, which wraps to a negative
   * number: a keep-alive is then due at once, on every round.
   */
  lemma KeepAliveHugeRetry(tick: int, n: nat)
    requires IsInt64(tick)
    requires n < Two63 && Two63 <= n * 1000 < 2 * Two63
    ensures KeepAliveDue(tick, tick, Decimal(n))
  {
    KeepAliveRetryRule(tick, tick, n);
    assert Wrap64(n * 1000) == n * 1000 - 2 * Two63;
  }

  /**
   * Beyond 2^64 milliseconds the wrap can be positive again: a keep-retry of
   * 27670116110564327 seconds wraps to 9223372036854775384 milliseconds, so
   * a keep-alive is not due until that many milliseconds have passed.
   */
  lemma KeepAliveWrappedRetry(now: int, tick: int)
    requires IsInt64(now - tick)
    ensures 27670116110564327 * 1000 >= 2 * Two63
    ensures KeepAliveDue(now, tick, Decimal(27670116110564327)) <==> now - tick >= 9223372036854775384
  {
    KeepAliveRetryRule(now, tick, 27670116110564327);
    WrapOnce(27670116110564327 * 1000);
  }

  // ---------------------------------------------------------------------
  // `strings.TrimSpace`

  /** The ASCII white space `strings.TrimSpace` removes. */
  predicate IsAsciiSpace(c: byte) {
    c == 0x09 || c == 0x0A || c == 0x0B || c == 0x0C || c == 0x0D || c == 0x20
  }

  predicate AllSpace(s: GoString) {
    forall k :: 0 <= k < |s| ==> IsAsciiSpace(s[k])
  }

  function TrimLeft(s: GoString): GoString {
    if s != [] && IsAsciiSpace(s[0]) then TrimLeft(s[1..]) else s
  }

  function TrimRight(s: GoString): GoString {
    if s != [] && IsAsciiSpace(s[|s| - 1]) then TrimRight(s[..|s| - 1]) else s
  }

  /** `strings.TrimSpace` on ASCII text: leading and trailing white space removed. */
  function TrimSpace(s: GoString): (r: GoString)
    ensures |r| <= |s|
    ensures r != [] ==> !IsAsciiSpace(r[0]) && !IsAsciiSpace(r[|r| - 1])
  {
    TrimmedEnds(s);
    TrimRight(TrimLeft(s))
  }

  lemma TrimmedEnds(s: GoString)
    ensures |TrimRight(TrimLeft(s))| <= |s|
    ensures TrimRight(TrimLeft(s)) != [] ==>
              !IsAsciiSpace(TrimRight(TrimLeft(s))[0]) && !IsAsciiSpace(TrimRight(TrimLeft(s))[|TrimRight(TrimLeft(s))| - 1])
  {
    var a := TrimLeftSplit(s);
    TrimRightOfTrimmed(TrimLeft(s));
    var b := TrimRightSplit(TrimLeft(s));
  }

  lemma {:induction false} TrimLeftSplit(s: GoString) returns (a: nat)
    ensures a <= |s| && TrimLeft(s) == s[a..] && AllSpace(s[..a])
    ensures TrimLeft(s) == [] || !IsAsciiSpace(TrimLeft(s)[0])
  {
    if s != [] && IsAsciiSpace(s[0]) {
      var a' := TrimLeftSplit(s[1..]);
      a := a' + 1;
      assert s[1..][a'..] == s[a..];
      assert s[..a] == [s[0]] + s[1..][..a'];
    } else {
      a := 0;
    }
  }

  lemma {:induction false} TrimRightSplit(s: GoString) returns (b: nat)
    ensures b <= |s| && TrimRight(s) == s[..b] && AllSpace(s[b..])
    ensures TrimRight(s) == [] || !IsAsciiSpace(TrimRight(s)[|TrimRight(s)| - 1])
  {
    if s != [] && IsAsciiSpace(s[|s| - 1]) {
      var t := s[..|s| - 1];
      b := TrimRightSplit(t);
      assert t[..b] == s[..b];
      assert s[b..] == t[b..] + [s[|s| - 1]];
    } else {
      b := |s|;
    }
  }

  /**
   * The result is a stretch of `s` that neither starts nor ends with white
   * space, and everything cut off on either side is white space.
   */
  lemma TrimSpaceSplit(s: GoString) returns (a: nat, b: nat)
    ensures a <= b <= |s| && TrimSpace(s) == s[a..b]
    ensures AllSpace(s[..a]) && AllSpace(s[b..])
    ensures TrimSpace(s) != [] ==> !IsAsciiSpace(TrimSpace(s)[0]) && !IsAsciiSpace(TrimSpace(s)[|TrimSpace(s)| - 1])
  {
    a := TrimLeftSplit(s);
    var t := s[a..];
    var c := TrimRightSplit(t);
    b := a + c;
    assert t[..c] == s[a..b];
    assert t[c..] == s[b..];
  }

  lemma {:induction false} TrimLeftKeeps(s: GoString)
    requires s == [] || !IsAsciiSpace(s[0])
    ensures TrimLeft(s) == s
  {
  }

  lemma {:induction false} TrimRightOfTrimmed(s: GoString)
    requires s == [] || !IsAsciiSpace(s[0])
    ensures TrimRight(s) == [] || !IsAsciiSpace(TrimRight(s)[0])
    decreases |s|
  {
    if s != [] && IsAsciiSpace(s[|s| - 1]) {
      var t := s[..|s| - 1];
      assert t == [] || t[0] == s[0];
      TrimRightOfTrimmed(t);
    }
  }

  /** Trimming twice is trimming once. */
  lemma TrimSpaceIdempotent(s: GoString)
    ensures TrimSpace(TrimSpace(s)) == TrimSpace(s)
  {
    var a, b := TrimSpaceSplit(s);
    var r := TrimSpace(s);
    TrimLeftKeeps(r);
    if r != [] {
      assert !IsAsciiSpace(r[|r| - 1]);
    }
  }

  // ---------------------------------------------------------------------
  // Request payloads

  /** `constants.UserAgent`. */
  const UserAgent: GoString := Ascii("CCTP/android64_vpn/2093")

  /** The XML declaration and the opening `<request>` line every request starts with. */
  const Prologue: GoString := Ascii("<?xml version=\"1.0\" encoding=\"utf-8\"?>\n<request>\n")

  /** One indented element line, `    <tag>value</tag>`. */
  function Line(tag: GoString, value: GoString): GoString {
    Ascii("    <") + tag + Ascii(">") + value + Ascii("</") + tag + Ascii(">\n")
  }

  /** The element lines of a request, in order. */
  function Lines(entries: seq<(GoString, GoString)>): GoString {
    if entries == [] then [] else Line(entries[0].0, entries[0].1) + Lines(entries[1..])
  }

  /** The request holds the element `<tag>value</tag>` on a line of its own. */
  predicate HasElement(r: GoString, tag: string, value: GoString) {
    Utils.Contains(r, Line(Ascii(tag), value))
  }

  /** Text that occurs in `x` occurs in any text around `x`. */
  lemma ContainsWithin(a: GoString, x: GoString, b: GoString, t: GoString)
    requires Utils.Contains(x, t)
    ensures Utils.Contains(a + x + b, t)
  {
    var k :| 0 <= k <= |x| && Utils.OccursAt(x, t, k);
    assert (a + x + b)[|a| + k..|a| + k + |t|] == x[k..k + |t|];
    assert Utils.OccursAt(a + x + b, t, |a| + k);
  }

  /** A text occurs at the start of any extension of it. */
  lemma ContainsHead(x: GoString, b: GoString)
    ensures Utils.Contains(x + b, x)
  {
    assert (x + b)[0..|x|] == x;
    assert Utils.OccursAt(x + b, x, 0);
  }

  /** Every entry's line occurs in the element lines. */
  lemma {:induction false} LinesHold(entries: seq<(GoString, GoString)>)
    ensures forall i :: 0 <= i < |entries| ==> Utils.Contains(Lines(entries), Line(entries[i].0, entries[i].1))
  {
    if entries != [] {
      var head := Line(entries[0].0, entries[0].1);
      var rest := entries[1..];
      LinesHold(rest);
      assert Lines(entries) == head + Lines(rest);
      ContainsHead(head, Lines(rest));
      forall i | 1 <= i < |entries|
        ensures Utils.Contains(Lines(entries), Line(entries[i].0, entries[i].1))
      {
        assert entries[i] == rest[i - 1];
        ContainsWithin(head, Lines(rest), [], Line(entries[i].0, entries[i].1));
        assert head + Lines(rest) + [] == Lines(entries);
      }
    }
  }

  /** A request of the prologue, the lines of `entries` and a closing text holds every entry's line. */
  lemma RequestHolds(entries: seq<(GoString, GoString)>, close: GoString)
    ensures forall i :: 0 <= i < |entries| ==>
              Utils.Contains(Prologue + Lines(entries) + close, Line(entries[i].0, entries[i].1))
  {
    LinesHold(entries);
    forall i | 0 <= i < |entries|
      ensures Utils.Contains(Prologue + Lines(entries) + close, Line(entries[i].0, entries[i].1))
    {
      ContainsWithin(Prologue, Lines(entries), close, Line(entries[i].0, entries[i].1));
    }
  }

  /** The elements of the ticket request, in order. */
  function TicketEntries(clientId: GoString, localTime: GoString, hostName: GoString, userIp: GoString,
                         mac: GoString, acIp: GoString): seq<(GoString, GoString)>
  {
    [(Ascii("user-agent"), UserAgent), (Ascii("client-id"), clientId), (Ascii("local-time"), localTime),
     (Ascii("host-name"), hostName), (Ascii("ipv4"), userIp), (Ascii("ipv6"), []), (Ascii("mac"), mac),
     (Ascii("ostag"), hostName), (Ascii("gwip"), acIp)]
  }

  /** The ticket request of `getTicket`. */
  function TicketPayload(clientId: GoString, localTime: GoString, hostName: GoString, userIp: GoString,
                         mac: GoString, acIp: GoString): GoString
  {
    Prologue + Lines(TicketEntries(clientId, localTime, hostName, userIp, mac, acIp)) + Ascii("</request>")
  }

  /** The ticket request starts with the prologue and carries every value it is given in its own element. */
  lemma TicketPayloadHolds(clientId: GoString, localTime: GoString, hostName: GoString, userIp: GoString,
                           mac: GoString, acIp: GoString)
    ensures var r := TicketPayload(clientId, localTime, hostName, userIp, mac, acIp);
            Prologue <= r &&
            HasElement(r, "client-id", clientId) && HasElement(r, "local-time", localTime) &&
            HasElement(r, "host-name", hostName) && HasElement(r, "ostag", hostName) &&
            HasElement(r, "ipv4", userIp) && HasElement(r, "mac", mac) && HasElement(r, "gwip", acIp)
  {
    var entries := TicketEntries(clientId, localTime, hostName, userIp, mac, acIp);
    RequestHolds(entries, Ascii("</request>"));
    assert entries[1] == (Ascii("client-id"), clientId) && entries[2] == (Ascii("local-time"), localTime);
    assert entries[3] == (Ascii("host-name"), hostName) && entries[7] == (Ascii("ostag"), hostName);
    assert entries[4] == (Ascii("ipv4"), userIp) && entries[6] == (Ascii("mac"), mac) && entries[8] == (Ascii("gwip"), acIp);
  }

  /** The elements of the keep-alive request, in order. */
  function KeepEntries(clientId: GoString, localTime: GoString, hostName: GoString, userIp: GoString,
                       ticket: GoString, mac: GoString): seq<(GoString, GoString)>
  {
    [(Ascii("user-agent"), UserAgent), (Ascii("client-id"), clientId), (Ascii("local-time"), localTime),
     (Ascii("host-name"), hostName), (Ascii("ipv4"), userIp), (Ascii("ticket"), ticket), (Ascii("ipv6"), []),
     (Ascii("mac"), mac), (Ascii("ostag"), hostName)]
  }

  /** The keep-alive request of `heartbeat`, which `Term` sends as well. */
  function KeepPayload(clientId: GoString, localTime: GoString, hostName: GoString, userIp: GoString,
                       ticket: GoString, mac: GoString): GoString
  {
    Prologue + Lines(KeepEntries(clientId, localTime, hostName, userIp, ticket, mac)) + Ascii("</request>")
  }

  /** The keep-alive request starts with the prologue and carries every value it is given in its own element. */
  lemma KeepPayloadHolds(clientId: GoString, localTime: GoString, hostName: GoString, userIp: GoString,
                         ticket: GoString, mac: GoString)
    ensures var r := KeepPayload(clientId, localTime, hostName, userIp, ticket, mac);
            Prologue <= r &&
            HasElement(r, "client-id", clientId) && HasElement(r, "local-time", localTime) &&
            HasElement(r, "host-name", hostName) && HasElement(r, "ostag", hostName) &&
            HasElement(r, "ipv4", userIp) && HasElement(r, "ticket", ticket) && HasElement(r, "mac", mac)
  {
    var entries := KeepEntries(clientId, localTime, hostName, userIp, ticket, mac);
    RequestHolds(entries, Ascii("</request>"));
    assert entries[1] == (Ascii("client-id"), clientId) && entries[2] == (Ascii("local-time"), localTime);
    assert entries[3] == (Ascii("host-name"), hostName) && entries[8] == (Ascii("ostag"), hostName);
    assert entries[4] == (Ascii("ipv4"), userIp) && entries[5] == (Ascii("ticket"), ticket) && entries[7] == (Ascii("mac"), mac);
  }

  /** The elements of the login request before its verification slot, in order. */
  function LoginEntries(clientId: GoString, ticket: GoString, localTime: GoString, user: GoString,
                        password: GoString): seq<(GoString, GoString)>
  {
    [(Ascii("user-agent"), UserAgent), (Ascii("client-id"), clientId), (Ascii("ticket"), ticket),
     (Ascii("local-time"), localTime), (Ascii("userid"), user), (Ascii("passwd"), password)]
  }

  /** The login request up to the slot for the verification element. */
  function LoginHead(clientId: GoString, ticket: GoString, localTime: GoString, user: GoString,
                     password: GoString): GoString
  {
    Prologue + Lines(LoginEntries(clientId, ticket, localTime, user, password)) + Ascii("    ")
  }

  const LoginTail: GoString := Ascii("\n</request>")

  /** The login request of `login`, with its verification element. */
  function LoginPayload(clientId: GoString, ticket: GoString, localTime: GoString, user: GoString,
                        password: GoString, verify: GoString): GoString
  {
    LoginHead(clientId, ticket, localTime, user, password) + verify + LoginTail
  }

  /** The login request starts with the prologue and carries the credentials in their own elements. */
  lemma LoginPayloadHolds(clientId: GoString, ticket: GoString, localTime: GoString, user: GoString,
                          password: GoString, verify: GoString)
    ensures var r := LoginPayload(clientId, ticket, localTime, user, password, verify);
            Prologue <= r &&
            HasElement(r, "client-id", clientId) && HasElement(r, "ticket", ticket) &&
            HasElement(r, "local-time", localTime) && HasElement(r, "userid", user) && HasElement(r, "passwd", password)
  {
    var entries := LoginEntries(clientId, ticket, localTime, user, password);
    var head := LoginHead(clientId, ticket, localTime, user, password);
    RequestHolds(entries, Ascii("    "));
    forall i | 1 <= i < |entries|
      ensures Utils.Contains(head + verify + LoginTail, Line(entries[i].0, entries[i].1))
    {
      ContainsWithin([], head, verify + LoginTail, Line(entries[i].0, entries[i].1));
      assert [] + head + (verify + LoginTail) == head + verify + LoginTail;
    }
    assert entries[1] == (Ascii("client-id"), clientId) && entries[2] == (Ascii("ticket"), ticket);
    assert entries[3] == (Ascii("local-time"), localTime) && entries[4] == (Ascii("userid"), user);
    assert entries[5] == (Ascii("passwd"), password);
  }

  /** The verification element: empty without an SMS code. */
  function VerifyElement(code: GoString): GoString {
    if code == [] then [] else Ascii("<verify>") + code + Ascii("</verify>")
  }

  /**
   * The login request carries `<verify>code</verify>` in its slot exactly
   * when there is an SMS code; without one the slot is empty and the line
   * ends at once.
   */
  lemma LoginVerifies(clientId: GoString, ticket: GoString, localTime: GoString, user: GoString,
                      password: GoString, code: GoString)
    ensures code != [] <==>
              Utils.OccursAt(LoginPayload(clientId, ticket, localTime, user, password, VerifyElement(code)),
                             Ascii("<verify>") + code + Ascii("</verify>"),
                             |LoginHead(clientId, ticket, localTime, user, password)|)
  {
    var head := LoginHead(clientId, ticket, localTime, user, password);
    var element := Ascii("<verify>") + code + Ascii("</verify>");
    var payload := LoginPayload(clientId, ticket, localTime, user, password, VerifyElement(code));
    if code != [] {
      assert payload[|head|..|head| + |element|] == element;
    } else {
      assert "\n</request>"[0] == '\n' && "<verify>"[0] == '<';
      assert payload[|head|] == LoginTail[0] == 0x0A;
      assert element[0] == 0x3C;
    }
  }

  // ---------------------------------------------------------------------
  // The client

  /** What `network.DetectConfig` reports. */
  datatype ConnectivityStatus = Success | RequireAuthorization | RequestError

  /** What `network.Post` returns: an error, or the response body. */
  datatype Reply = Failed | Answered(body: GoString)

  /** A POST the client made: the URL and the body. */
  datatype Request = Request(url: GoString, body: GoString)

  /**
   * `encoding/xml` decoding a `<response>` document: the text of each child
   * element by name, or `None` for a parse error.
   */
  type XmlDecoder = GoString -> Option<map<GoString, GoString>>

  /** The command-line options the client reads. */
  datatype Options = Options(loginUser: GoString, loginPassword: GoString, smsCode: GoString)

  /** The text of a child element; a missing element leaves the Go field "". */
  function Field(fields: map<GoString, GoString>, name: GoString): GoString {
    if name in fields then fields[name] else []
  }

  /** How an exchange with the server ends: a panic, a printed error, or the decoded reply. */
  datatype Outcome = Panicked | Unusable | Fields(fields: map<GoString, GoString>)

  /** `session.Encrypt`: a nil unit, or a unit that panics, gives `None`. */
  function Sealed(unit: Option<Cipher.Suite>, text: GoString): Option<GoString>
    requires unit.Some? ==> Cipher.Valid(unit.value)
  {
    if unit.None? then None else Cipher.Encrypted(unit.value, text)
  }

  /**
   * A reply after `session.Decrypt` and `utils.UnmarshalXML`: a POST error
   * or an XML error is printed and ends the request; a decryption panic
   * ends the process.
   */
  function Received(unit: Option<Cipher.Suite>, decode: XmlDecoder, reply: Reply): (r: Outcome)
    requires unit.Some? ==> Cipher.Valid(unit.value)
    ensures r == Panicked <==> reply.Answered? && (unit.None? || Cipher.Decrypted(unit.value, reply.body).None?)
    ensures reply.Failed? ==> r == Unusable
    ensures r.Fields? ==>
              reply.Answered? && unit.Some? && Cipher.Decrypted(unit.value, reply.body).Some? &&
              decode(Utils.Fixed(Cipher.Decrypted(unit.value, reply.body).value)) == Some(r.fields)
  {
    match reply
    case Failed => Unusable
    case Answered(body) =>
      if unit.None? then Panicked
      else
        match Cipher.Decrypted(unit.value, body)
        case None => Panicked
        case Some(data) =>
          match decode(Utils.Fixed(data))
          case None => Unusable
          case Some(fields) => Fields(fields)
  }

  /** Whether the session is negotiated after `initSession`: a failed POST leaves the flag as it was. */
  ghost function Negotiated(wasInitialized: bool, table: Factory.KeyTable, reply: Reply): bool {
    match reply
    case Failed => wasInitialized
    case Answered(zsm) => Session.Loaded(table, zsm).Ok?
  }

  /** The inputs of one authorization: the prompted code, the random ids, the replies and the clock. */
  datatype Attempt = Attempt(
    promptedCode: GoString,
    uuid: GoString,
    randomMac: GoString,
    sessionReply: Reply,
    ticketReply: Reply,
    loginReply: Reply,
    localTime: GoString,
    now: Int64)

  /** The inputs of one round of the main loop. */
  datatype Round = Round(
    status: ConnectivityStatus,
    now: Int64,
    keepReply: Reply,
    localTime: GoString,
    after: Int64,
    attempt: Attempt)

  /** The SMS code `authorization` uses: the option, or else what the prompt returned. */
  function SmsCode(options: Options, prompted: GoString): GoString {
    if options.smsCode == [] then prompted else options.smsCode
  }

  class Client {
    var keepUrl: GoString
    var termUrl: GoString
    var keepRetry: GoString
    var tick: Int64
    /** Every POST made, oldest first. */
    ghost var posts: seq<Request>
    const options: Options
    /** `constants.HostName`, drawn at random at start-up. */
    const hostName: GoString
    const decode: XmlDecoder
    /** The package variables of `states`. */
    const st: States
    /** The package variables of `session`. */
    const sess: Session.SessionState

    /** The session's invariant, and a negotiated session holds a unit. */
    ghost predicate Valid()
      reads sess
    {
      sess.Valid() && (sess.initialized ==> sess.cipher.Some?)
    }

    /**
     * What the main loop relies on: a logged-in client has a negotiated
     * session and a keep-alive URL.
     */
    predicate Consistent()
      reads this, st, sess
    {
      st.isLogged ==> sess.initialized && keepUrl != []
    }

    /** `New`: no URLs, no retry interval, tick 0. */
    constructor(options: Options, hostName: GoString, decode: XmlDecoder, st: States, sess: Session.SessionState)
      requires sess.Valid() && (sess.initialized ==> sess.cipher.Some?)
      ensures Valid()
      ensures this.options == options && this.hostName == hostName && this.decode == decode
      ensures this.st == st && this.sess == sess
      ensures keepUrl == [] && termUrl == [] && keepRetry == [] && tick == 0 && posts == []
    {
      this.options := options;
      this.hostName := hostName;
      this.decode := decode;
      this.st := st;
      this.sess := sess;
      keepUrl, termUrl, keepRetry, tick := [], [], [], 0;
      posts := [];
    }

    /** What a request with this payload and reply comes to. */
    function Answer(payload: GoString, reply: Reply): Outcome
      reads sess
      requires Valid()
    {
      if Sealed(sess.cipher, payload).None? then Panicked else Received(sess.cipher, decode, reply)
    }

    /** Encrypt a payload, POST it to `url`, then decrypt and decode the reply. */
    method Exchange(url: GoString, payload: GoString, reply: Reply) returns (out: Outcome)
      requires Valid()
      modifies this`posts
      ensures out == Answer(payload, reply)
      ensures Sealed(sess.cipher, payload).None? ==> posts == old(posts)
      ensures Sealed(sess.cipher, payload).Some? ==>
                posts == old(posts) + [Request(url, Sealed(sess.cipher, payload).value)]
    {
      var body := sess.Encrypt(payload);
      if body.None? {
        return Panicked;
      }
      posts := posts + [Request(url, body.value)];
      if reply.Failed? {
        return Unusable;
      }
      var data := sess.Decrypt(reply.body);
      if data.None? {
        return Panicked;
      }
      var fields := Utils.UnmarshalXml(decode, data.value);
      if fields.None? {
        return Unusable;
      }
      return Fields(fields.value);
    }

    function TicketRequest(localTime: GoString): GoString
      reads st`clientId, st`userIp, st`macAddress, st`acIp
    {
      TicketPayload(st.clientId, localTime, hostName, st.userIp, st.macAddress, st.acIp)
    }

    function LoginRequest(code: GoString, localTime: GoString): GoString
      reads st`clientId, st`ticket
    {
      LoginPayload(st.clientId, st.ticket, localTime, options.loginUser, options.loginPassword, VerifyElement(code))
    }

    function KeepRequest(ticket: GoString, localTime: GoString): GoString
      reads st`clientId, st`userIp, st`macAddress
    {
      KeepPayload(st.clientId, localTime, hostName, st.userIp, ticket, st.macAddress)
    }

    /** `initSession`: POST the algorithm id to the ticket URL and load the reply; a POST error changes nothing. */
    method InitSession(reply: Reply)
      requires Valid()
      modifies this`posts, st, sess
      ensures Valid()
      ensures posts == old(posts) + [Request(old(st.ticketUrl), old(st.algoId))]
      ensures sess.initialized == Negotiated(old(sess.initialized), sess.table, reply)
      ensures reply.Failed? ==> sess.cipher == old(sess.cipher) && st.Snapshot() == old(st.Snapshot())
      ensures reply.Answered? && sess.initialized ==> sess.cipher == Some(Session.Loaded(sess.table, reply.body).value.0)
      ensures st.Snapshot() == old(st.Snapshot()).(algoId := st.algoId)
    {
      posts := posts + [Request(st.ticketUrl, st.algoId)];
      if reply.Failed? {
        return;
      }
      var err := sess.Initialize(reply.body, st);
    }

    /** `getTicket`: the trimmed `ticket` element, or "" after a POST or XML error. */
    method GetTicket(reply: Reply, localTime: GoString) returns (ticket: GoString, ok: bool)
      requires Valid()
      modifies this`posts
      ensures ok <==> Answer(TicketRequest(localTime), reply) != Panicked
      ensures Sealed(sess.cipher, TicketRequest(localTime)).Some? ==>
                posts == old(posts) + [Request(st.ticketUrl, Sealed(sess.cipher, TicketRequest(localTime)).value)]
      ensures ok && Answer(TicketRequest(localTime), reply).Fields? ==>
                ticket == TrimSpace(Field(Answer(TicketRequest(localTime), reply).fields, Ascii("ticket")))
      ensures ok && Answer(TicketRequest(localTime), reply) == Unusable ==> ticket == []
    {
      ghost var request := TicketRequest(localTime);
      var out := Exchange(st.ticketUrl, TicketRequest(localTime), reply);
      assert TicketRequest(localTime) == request;
      ok := out != Panicked;
      ticket := if out.Fields? then TrimSpace(Field(out.fields, Ascii("ticket"))) else [];
    }

    /**
     * `login`: after a successful POST and decode the three URLs and the
     * interval are replaced by the trimmed elements; otherwise they keep
     * their previous values.
     */
    method Login(code: GoString, reply: Reply, localTime: GoString) returns (ok: bool)
      requires Valid()
      modifies this`posts, this`keepUrl, this`termUrl, this`keepRetry
      ensures ok <==> Answer(LoginRequest(code, localTime), reply) != Panicked
      ensures Sealed(sess.cipher, LoginRequest(code, localTime)).Some? ==>
                posts == old(posts) + [Request(st.authUrl, Sealed(sess.cipher, LoginRequest(code, localTime)).value)]
      ensures Answer(LoginRequest(code, localTime), reply).Fields? ==>
                var fields := Answer(LoginRequest(code, localTime), reply).fields;
                keepUrl == TrimSpace(Field(fields, Ascii("keep-url"))) &&
                termUrl == TrimSpace(Field(fields, Ascii("term-url"))) &&
                keepRetry == TrimSpace(Field(fields, Ascii("keep-retry")))
      ensures !Answer(LoginRequest(code, localTime), reply).Fields? ==>
                keepUrl == old(keepUrl) && termUrl == old(termUrl) && keepRetry == old(keepRetry)
    {
      ghost var request := LoginRequest(code, localTime);
      var out := Exchange(st.authUrl, LoginRequest(code, localTime), reply);
      assert LoginRequest(code, localTime) == request;
      ok := out != Panicked;
      if out.Fields? {
        keepUrl := TrimSpace(Field(out.fields, Ascii("keep-url")));
        termUrl := TrimSpace(Field(out.fields, Ascii("term-url")));
        keepRetry := TrimSpace(Field(out.fields, Ascii("keep-retry")));
      }
    }

    /** `heartbeat`: the interval replaces `keepRetry` only when the element is present and non-empty. */
    method Heartbeat(ticket: GoString, reply: Reply, localTime: GoString) returns (ok: bool)
      requires Valid()
      modifies this`posts, this`keepRetry
      ensures ok <==> Answer(KeepRequest(ticket, localTime), reply) != Panicked
      ensures Sealed(sess.cipher, KeepRequest(ticket, localTime)).Some? ==>
                posts == old(posts) + [Request(keepUrl, Sealed(sess.cipher, KeepRequest(ticket, localTime)).value)]
      ensures var out := Answer(KeepRequest(ticket, localTime), reply);
              keepRetry == if out.Fields? && Field(out.fields, Ascii("interval")) != []
                           then TrimSpace(Field(out.fields, Ascii("interval")))
                           else old(keepRetry)
    {
      ghost var request := KeepRequest(ticket, localTime);
      var out := Exchange(keepUrl, KeepRequest(ticket, localTime), reply);
      assert KeepRequest(ticket, localTime) == request;
      ok := out != Panicked;
      if out.Fields? && Field(out.fields, Ascii("interval")) != [] {
        keepRetry := TrimSpace(Field(out.fields, Ascii("interval")));
      }
    }

    /** `Term`: POST the keep-alive payload with the stored ticket to the term URL; the reply is ignored. */
    method Term(localTime: GoString) returns (ok: bool)
      requires Valid()
      modifies this`posts
      ensures ok <==> Sealed(sess.cipher, KeepRequest(st.ticket, localTime)).Some?
      ensures ok ==> posts == old(posts) + [Request(termUrl, Sealed(sess.cipher, KeepRequest(st.ticket, localTime)).value)]
      ensures !ok ==> posts == old(posts)
    {
      var body := sess.Encrypt(KeepRequest(st.ticket, localTime));
      if body.None? {
        return false;
      }
      posts := posts + [Request(termUrl, body.value)];
      return true;
    }

    /** The keep-alive test of the main loop, made only when the session is negotiated and the client logged in. */
    predicate KeepAliveNow(now: Int64)
      reads this, st, sess
    {
      sess.initialized && st.isLogged && KeepAliveDue(now, tick, keepRetry)
    }

    /** The first half of `authorization`: fresh identifiers, then `initSession`. */
    method Negotiate(a: Attempt)
      requires Valid()
      modifies this`posts, st, sess
      ensures Valid()
      ensures sess.initialized == Negotiated(old(sess.initialized), sess.table, a.sessionReply)
      ensures st.isRunning == old(st.isRunning) && st.isLogged == old(st.isLogged)
    {
      st.RefreshStates(a.uuid, a.randomMac);
      InitSession(a.sessionReply);
    }

    /** `states.Ticket = getTicket()`: the ticket step of `authorization`. */
    method FetchTicket(a: Attempt) returns (ok: bool)
      requires Valid()
      modifies this`posts, st
      ensures Valid()
      ensures ok <==> Answer(TicketRequest(a.localTime), a.ticketReply) != Panicked
      ensures var out := Answer(TicketRequest(a.localTime), a.ticketReply);
              ok ==> st.ticket == if out.Fields? then TrimSpace(Field(out.fields, Ascii("ticket"))) else []
      ensures st.Snapshot() == old(st.Snapshot()).(ticket := st.ticket)
    {
      var ticket;
      ticket, ok := GetTicket(a.ticketReply, a.localTime);
      st.ticket := ticket;
    }

    /**
     * The second half of `authorization`, on a negotiated session: the
     * ticket (an empty one included) and the login; without a keep-alive
     * URL the session is freed and the process stops, otherwise the client
     * is logged in from `now` on.
     */
    method SignIn(code: GoString, a: Attempt) returns (ok: bool)
      requires Valid() && sess.initialized
      modifies this`posts, this`keepUrl, this`termUrl, this`keepRetry, this`tick, st, sess
      ensures Valid()
      ensures !ok ==> st.isLogged == old(st.isLogged) && sess.initialized
      ensures ok && keepUrl == [] ==>
                !st.isRunning && !sess.initialized && st.isLogged == old(st.isLogged) && tick == old(tick)
      ensures ok && keepUrl != [] ==> st.isRunning == old(st.isRunning) && st.isLogged && sess.initialized && tick == a.now
    {
      ok := FetchTicket(a);
      if !ok {
        return;
      }
      ok := Login(code, a.loginReply, a.localTime);
      if !ok {
        return;
      }
      if keepUrl == [] {
        sess.Free();
        st.isRunning := false;
        return;
      }
      tick := a.now;
      st.isLogged := true;
    }

    /**
     * `authorization`: refresh the identifiers, negotiate the algorithm,
     * fetch the ticket and log in. Without a negotiated session the process
     * stops; so it does when the login leaves no keep-alive URL, after the
     * session is freed; otherwise the client is logged in from `now` on.
     */
    method Authorization(a: Attempt) returns (ok: bool)
      requires Valid()
      modifies this, st, sess
      ensures Valid()
      ensures !ok ==> st.isLogged == old(st.isLogged)
      ensures ok && !Negotiated(old(sess.initialized), sess.table, a.sessionReply) ==>
                !st.isRunning && st.isLogged == old(st.isLogged) && keepUrl == old(keepUrl) && tick == old(tick)
      ensures ok && Negotiated(old(sess.initialized), sess.table, a.sessionReply) && keepUrl == [] ==>
                !st.isRunning && !sess.initialized && st.isLogged == old(st.isLogged) && tick == old(tick)
      ensures ok && Negotiated(old(sess.initialized), sess.table, a.sessionReply) && keepUrl != [] ==>
                st.isRunning == old(st.isRunning) && st.isLogged && sess.initialized && tick == a.now
    {
      var code := SmsCode(options, a.promptedCode);
      Negotiate(a);
      if !sess.initialized {
        st.isRunning := false;
        return true;
      }
      ok := SignIn(code, a);
    }

    /** The `Success` branch of `Run`: a keep-alive when one is due, and then a new `tick`. */
    method KeepAlive(r: Round) returns (ok: bool)
      requires Valid()
      modifies this`posts, this`keepRetry, this`tick
      ensures Valid()
      ensures !old(KeepAliveNow(r.now)) ==> ok && unchanged(this)
      ensures old(KeepAliveNow(r.now)) && ok ==>
                tick == r.after && |posts| == |old(posts)| + 1 && posts[|old(posts)|].url == keepUrl
    {
      ok := true;
      if KeepAliveNow(r.now) {
        ok := Heartbeat(st.ticket, r.keepReply, r.localTime);
        if ok {
          tick := r.after;
        }
      }
    }

    /**
     * One round of `Run`. Connected: a keep-alive is sent when it is due,
     * and only then is `tick` reset, to the clock read after it. Asked for
     * authorization: logged out first, then `authorization`. A request
     * error: nothing changes.
     */
    method Step(r: Round) returns (ok: bool)
      requires Valid() && Consistent()
      modifies this, st, sess
      ensures Valid() && (ok ==> Consistent())
      ensures r.status == RequestError ==> ok && unchanged(this, st, sess)
      ensures r.status == Success ==> unchanged(st, sess) && keepUrl == old(keepUrl) && termUrl == old(termUrl)
      ensures r.status == Success && !old(KeepAliveNow(r.now)) ==> ok && unchanged(this)
      ensures r.status == Success && old(KeepAliveNow(r.now)) && ok ==>
                tick == r.after && |posts| == |old(posts)| + 1 && posts[|old(posts)|].url == keepUrl
      ensures r.status == RequireAuthorization ==>
                (st.isLogged ==> ok && sess.initialized && keepUrl != [] && tick == r.attempt.now)
      ensures r.status == RequireAuthorization && ok && !Negotiated(old(sess.initialized), sess.table, r.attempt.sessionReply) ==>
                !st.isRunning && !st.isLogged
      ensures r.status == RequireAuthorization && ok && Negotiated(old(sess.initialized), sess.table, r.attempt.sessionReply) ==>
                (st.isLogged <==> keepUrl != [])
    {
      match r.status {
        case Success =>
          ok := KeepAlive(r);
        case RequireAuthorization =>
          st.isLogged := false;
          ok := Authorization(r.attempt);
        case RequestError =>
          ok := true;
      }
    }

    /**
     * `Run` over a finite sequence of rounds: rounds are taken while the
     * state says the client is running, and a panic ends the process. The
     * consistency of the login state holds after every round.
     */
    method Run(rounds: seq<Round>) returns (ok: bool, n: nat)
      requires Valid() && Consistent()
      modifies this, st, sess
      ensures Valid() && n <= |rounds|
      ensures ok ==> Consistent() && (n == |rounds| || !st.isRunning)
      ensures !old(st.isRunning) ==> ok && n == 0
    {
      ok, n := true, 0;
      while n < |rounds| && st.isRunning
        invariant Valid() && n <= |rounds|
        invariant Consistent()
        invariant n == 0 ==> st.isRunning == old(st.isRunning)
        invariant !old(st.isRunning) ==> n == 0
      {
        ok := Step(rounds[n]);
        n := n + 1;
        if !ok {
          return;
        }
      }
    }
  }
}
