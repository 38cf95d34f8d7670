/** Connecting through a chain of proxies: each hop is asked, over the same
    socket, to tunnel to the next one, and the last to the destination. */
module Chain {
  import opened Bytes
  import opened Sockets
  import opened Socks
  import opened CNumbers
  import opened ConnectRequest

  const MAX_HOPS := 8
  const RESPONSE_SIZE := 4096

  datatype Kind = Socks4 | Socks5 | Http | Ssh | Other

  /** A configured proxy; the fields have the sizes of the configuration record. */
  datatype ProxyRecord = Proxy(id: nat, kind: Kind, host: CString, port: nat, user: CString, pass: CString)
  type Proxy = p: ProxyRecord | |p.host| <= 253 && p.port < 65536 && |p.user| <= 127 && |p.pass| <= 127
    witness Proxy(0, Socks5, [], 0, [], [])

  // ----- One hop

  /** The method a version 5 proxy selected, the second byte it sends. */
  function Chosen(s: seq<byte>): byte {
    if |s| > 1 then s[1] else 0
  }

  predicate IsSocks(p: Proxy) {
    p.kind.Socks4? || p.kind.Socks5?
  }

  predicate Negotiable(p: Proxy, t: Target) {
    match p.kind
    case Socks5 => Negotiable5(t, p.user, p.pass)
    case Socks4 => Negotiable4(t, p.user)
    case Http => Askable(t, p.user, p.pass)
    case _ => false
  }

  /** Bytes written to a hop; a version 5 proxy has selected the method `choice`. */
  function HopRequest(p: Proxy, t: Target, choice: byte): seq<byte>
    requires Negotiable(p, t)
  {
    match p.kind
    case Socks5 => Request5(t, p.user, p.pass, choice)
    case Socks4 => Request4(t, p.user)
    case _ => HttpConnect(t, p.user, p.pass)
  }

  /** Bytes of a granting answer of a SOCKS hop. */
  function HopConsumed(p: Proxy, s: seq<byte>): (r: Option<nat>)
    ensures r.Some? ==> r.value <= |s|
  {
    if p.kind.Socks5? then Consumed5(s, p.user != []) else Consumed4(s)
  }

  /** The first `got` bytes of what follows are taken as a granting answer. */
  predicate HopGrants(p: Proxy, s: seq<byte>, got: nat) {
    match p.kind
    case Http => ReadFor(s, got) && Grants(s, got)
    case Socks5 => HopConsumed(p, s) == Some(got)
    case Socks4 => HopConsumed(p, s) == Some(got)
    case _ => false
  }

  /** What a proxy makes of the bytes it receives, and what it passes on. */
  function HopParse(p: Proxy, bytes: seq<byte>, choice: byte): Option<(Order, seq<byte>)> {
    match p.kind
    case Socks5 =>
      var r := Parse5(bytes, choice);
      if r.None? then None else Some((r.value.1, r.value.2))
    case Socks4 => Parse4(bytes)
    case _ =>
      var r := ReadConnect(bytes);
      if r.None? then None else Some((Order(r.value.target, r.value.credentials), r.value.rest))
  }

  /** A version 5 proxy selects a method it was offered; an HTTP proxy is asked
      for a host, and by a user, that its request can express. */
  predicate Understands(p: Proxy, host: seq<byte>, choice: byte) {
    && (p.kind.Socks5? ==> choice == 0 || (choice == 2 && p.user != []))
    && (p.kind.Http? ==> PlainHost(host) && |host| <= HOST_MAX && COLON !in p.user)
  }

  /** The credentials a proxy gets to see: a login if it asked for one, the
      user id, or the credentials in the request. */
  function Shown(p: Proxy, choice: byte): Option<(seq<byte>, seq<byte>)> {
    match p.kind
    case Socks5 => if choice == 2 then Some((p.user, p.pass)) else None
    case Socks4 => Some((p.user, []))
    case _ => if p.user == [] then None else Some((p.user, p.pass))
  }

  lemma HopParsed(p: Proxy, t: Target, choice: byte, rest: seq<byte>)
    requires Negotiable(p, t) && 0 !in t.host && Understands(p, t.host, choice)
    ensures HopParse(p, HopRequest(p, t, choice) + rest, choice) == Some((Order(t, Shown(p, choice)), rest))
  {
    hide Parse5, Parse4, Request5, Request4, ReadConnect, HttpConnect, PlainHost;
    match p.kind
    case Socks5 => Request5Parsed(t, p.user, p.pass, choice, rest);
    case Socks4 => Request4Parsed(t, p.user, rest);
    case _ => ConnectReadIff(t, p.user, p.pass, rest);
  }

  // ----- The whole chain

  /** Where hop i is asked to tunnel to: the next hop, or the destination. */
  function Next(hops: seq<Proxy>, dst: Target, i: nat): Target
    requires i < |hops|
  {
    if i + 1 < |hops| then Target(hops[i + 1].host, hops[i + 1].port) else dst
  }

  function Orders(hops: seq<Proxy>, dst: Target, choices: seq<byte>): seq<Order>
    requires |hops| == |choices|
  {
    seq(|hops|, i requires 0 <= i < |hops| => Order(Next(hops, dst, i), Shown(hops[i], choices[i])))
  }

  /** The answers of the first n hops start at the given offsets and end where
      the next one's start. */
  ghost predicate Granted(hops: seq<Proxy>, s: seq<byte>, starts: seq<nat>, n: nat) {
    && n <= |hops| && |starts| == n + 1 && starts[0] == 0
    && (forall i :: 0 <= i <= n ==> starts[i] <= |s|)
    && (forall i :: 0 <= i < n ==> starts[i] <= starts[i + 1]
                                   && HopGrants(hops[i], s[starts[i]..], starts[i + 1] - starts[i]))
  }

  /** The methods selected in the first n answers. */
  function Choices(s: seq<byte>, starts: seq<nat>, n: nat): (r: seq<byte>)
    requires n <= |starts| && forall i :: 0 <= i < n ==> starts[i] <= |s|
    ensures |r| == n
  {
    seq(n, i requires 0 <= i < n => Chosen(s[starts[i]..]))
  }

  /** Offset of the stream behind the answers of the first n SOCKS hops. */
  function Offset(hops: seq<Proxy>, s: seq<byte>, n: nat): (r: Option<nat>)
    requires n <= |hops|
    ensures r.Some? ==> r.value <= |s|
  {
    if n == 0 then Some(0)
    else
      var o := Offset(hops, s, n - 1);
      if o.None? then None
      else
        var c := HopConsumed(hops[n - 1], s[o.value..]);
        if c.None? then None else Some(o.value + c.value)
  }

  predicate AllNegotiable(hops: seq<Proxy>, dst: Target, n: nat)
    requires n <= |hops|
  {
    forall i :: 0 <= i < n ==> Negotiable(hops[i], Next(hops, dst, i))
  }

  /** Everything written while negotiating with the first n hops. */
  function Requests(hops: seq<Proxy>, dst: Target, choices: seq<byte>, n: nat): seq<byte>
    requires n <= |hops| && n <= |choices| && AllNegotiable(hops, dst, n)
  {
    if n == 0 then []
    else Requests(hops, dst, choices, n - 1) + HopRequest(hops[n - 1], Next(hops, dst, n - 1), choices[n - 1])
  }

  lemma {:induction false} SameRequests(hops: seq<Proxy>, dst: Target, a: seq<byte>, b: seq<byte>, n: nat)
    requires n <= |hops| && n <= |a| && n <= |b| && a[..n] == b[..n] && AllNegotiable(hops, dst, n)
    ensures Requests(hops, dst, a, n) == Requests(hops, dst, b, n)
  {
    hide HopRequest, Negotiable;
    if n > 0 {
      assert a[..n - 1] == a[..n][..n - 1] == b[..n][..n - 1] == b[..n - 1];
      assert a[n - 1] == a[..n][n - 1] == b[n - 1];
      SameRequests(hops, dst, a, b, n - 1);
    }
  }

  /** The orders n proxies in a row read from a byte stream, each passing on
      what follows its own part, and the bytes the last one passes on. */
  function Tunnel(hops: seq<Proxy>, bytes: seq<byte>, choices: seq<byte>, n: nat): Option<(seq<Order>, seq<byte>)>
    requires n <= |hops| && n <= |choices|
  {
    if n == 0 then Some(([], bytes))
    else
      var before := Tunnel(hops, bytes, choices, n - 1);
      if before.None? then None
      else
        var r := HopParse(hops[n - 1], before.value.1, choices[n - 1]);
        if r.None? then None else Some((before.value.0 + [r.value.0], r.value.1))
  }

  /** Every hop understands what it is asked: hop i for hop i + 1, the last for the destination. */
  ghost predicate AllUnderstand(hops: seq<Proxy>, dst: Target, choices: seq<byte>)
    requires |hops| == |choices|
  {
    && (forall i :: 0 <= i < |hops| - 1 ==> Understands(hops[i], hops[i + 1].host, choices[i]))
    && (hops != [] ==> Understands(hops[|hops| - 1], dst.host, choices[|hops| - 1]))
  }

  lemma {:induction false} TunnelSteps(hops: seq<Proxy>, dst: Target, choices: seq<byte>, n: nat, rest: seq<byte>)
    requires |choices| == |hops| && n <= |hops| && AllNegotiable(hops, dst, n) && 0 !in dst.host
    requires AllUnderstand(hops, dst, choices)
    ensures Tunnel(hops, Requests(hops, dst, choices, n) + rest, choices, n) ==
            Some((Orders(hops, dst, choices)[..n], rest))
  {
    hide HopParse, HopRequest, Understands, Negotiable;
    if n == 0 {
      assert Requests(hops, dst, choices, n) + rest == rest;
    } else {
      var t := Next(hops, dst, n - 1);
      var mine := HopRequest(hops[n - 1], t, choices[n - 1]);
      Assoc(Requests(hops, dst, choices, n - 1), mine, rest);
      TunnelSteps(hops, dst, choices, n - 1, mine + rest);
      HopParsed(hops[n - 1], t, choices[n - 1], rest);
      assert Orders(hops, dst, choices)[..n] ==
             Orders(hops, dst, choices)[..n - 1] + [Order(t, Shown(hops[n - 1], choices[n - 1]))];
    }
  }

  /** The orders tell hop i to go on to hop i + 1 and the last hop to go on to
      the destination, with each hop's own credentials. */
  ghost predicate InOrder(hops: seq<Proxy>, dst: Target, choices: seq<byte>, orders: seq<Order>)
    requires |hops| == |choices|
  {
    && |orders| == |hops|
    && (forall i :: 0 <= i < |hops| - 1 ==> orders[i].target == Target(hops[i + 1].host, hops[i + 1].port))
    && (hops != [] ==> orders[|hops| - 1].target == dst)
    && (forall i :: 0 <= i < |hops| ==> orders[i].credentials == Shown(hops[i], choices[i]))
  }

  /** Behind the written bytes the hops read these orders, and whatever is
      written later comes out at the far end. */
  ghost predicate Reads(hops: seq<Proxy>, choices: seq<byte>, written: seq<byte>, orders: seq<Order>)
    requires |hops| == |choices|
  {
    forall later :: Tunnel(hops, written + later, choices, |hops|) == Some((orders, later))
  }

  /** The written bytes are read back as requests for hop 2, ..., hop n and the
      destination, in that order and with the right credentials, and whatever
      the client writes next comes out at the far end. */
  lemma TunnelReachesTargets(hops: seq<Proxy>, dst: Target, choices: seq<byte>) returns (orders: seq<Order>)
    requires |choices| == |hops| && AllNegotiable(hops, dst, |hops|) && 0 !in dst.host
    requires AllUnderstand(hops, dst, choices)
    ensures Reads(hops, choices, Requests(hops, dst, choices, |hops|), orders)
    ensures InOrder(hops, dst, choices, orders)
  {
    hide Requests, Tunnel, AllNegotiable, AllUnderstand;
    orders := Orders(hops, dst, choices);
    assert orders[..|hops|] == orders;
    forall later
      ensures Tunnel(hops, Requests(hops, dst, choices, |hops|) + later, choices, |hops|) == Some((orders, later))
    {
      TunnelSteps(hops, dst, choices, |hops|, later);
    }
  }

  // ----- HTTP hops

  /** Request and limits of an HTTP hop. */
  predicate Askable(t: Target, user: seq<byte>, pass: seq<byte>) {
    1 <= t.port <= 65535 && |HttpConnect(t, user, pass)| < BUF_SIZE
  }

  /** The number `strtol` reads behind the first blank. */
  function Status(seen: seq<byte>): Option<int> {
    var sp := IndexFrom(seen, SPACE, 0);
    if sp == |seen| then None else Some(Atoi(seen[sp + 1..]))
  }

  /** Offset behind the blank line, if it comes within what is read at most and before any NUL. */
  function HeaderEnd(s: seq<byte>): (r: Option<nat>)
    ensures r.Some? ==> 4 <= r.value <= |CText(s)| && r.value < RESPONSE_SIZE && BlankLine(s, r.value - 4)
  {
    var t := FirstBlankLine(CText(s), 0);
    if t == |CText(s)| || t + 4 >= RESPONSE_SIZE then None else Some(t + 4)
  }

  /** Amounts that can have been read when the blank line is seen. */
  predicate ReadFor(s: seq<byte>, got: nat) {
    HeaderEnd(s).Some? && HeaderEnd(s).value <= got <= |s| && got < RESPONSE_SIZE
  }

  /** The decision when the first `got` bytes of the response have been read. */
  predicate Grants(s: seq<byte>, got: nat)
    requires got <= |s|
  {
    Status(CText(s[..got])) == Some(200)
  }

  /** The header itself says 200. */
  predicate HeaderGrants(s: seq<byte>) {
    HeaderEnd(s).Some? && Status(s[..HeaderEnd(s).value]) == Some(200)
  }

  /** Within the header something other than white space follows the first blank. */
  predicate StatusSettled(s: seq<byte>) {
    HeaderEnd(s).Some? ==>
      var h := s[..HeaderEnd(s).value];
      var sp := IndexFrom(h, SPACE, 0);
      sp < |h| && SkipWhite(h[sp + 1..], 0) < |h| - sp - 1
  }

  /** What C sees of a response that shows the blank line starts with the header. */
  lemma SeenHeader(s: seq<byte>, got: nat)
    requires ReadFor(s, got)
    ensures var o := HeaderEnd(s).value;
            s[..o] <= CText(s[..got]) && BlankLine(CText(s[..got]), o - 4) && White(s[..o][o - 1])
  {
    var o := HeaderEnd(s).value;
    var k := IndexFrom(s[..got], 0, 0);
    assert forall i :: 0 <= i < o ==> s[..got][i] != 0;
    assert o <= k;
  }

  lemma StatusAt(s: seq<byte>, sp: nat)
    requires sp < |s| && IndexFrom(s, SPACE, 0) == sp
    ensures Status(s) == Some(Atoi(s[sp + 1..]))
  {
    hide Atoi, IndexFrom;
  }

  /** Bytes behind a settled header do not change the status. */
  lemma StatusLocal(h: seq<byte>, x: seq<byte>, sp: nat)
    requires IndexFrom(h, SPACE, 0) == sp < |h| && White(h[|h| - 1])
    requires SkipWhite(h[sp + 1..], 0) < |h| - sp - 1
    ensures Status(h + x) == Status(h)
  {
    hide Status, SkipWhite, Atoi, IndexFrom, White;
    var value := h[sp + 1..];
    assert value[|value| - 1] == h[|h| - 1];
    FirstBlankStays(h, x);
    StatusAt(h, sp);
    StatusAt(h + x, sp);
    AtoiLocal(value, x);
  }

  lemma FirstBlankStays(h: seq<byte>, x: seq<byte>)
    requires IndexFrom(h, SPACE, 0) < |h|
    ensures var sp := IndexFrom(h, SPACE, 0);
            IndexFrom(h + x, SPACE, 0) == sp && (h + x)[sp + 1..] == h[sp + 1..] + x
  {
    var sp := IndexFrom(h, SPACE, 0);
    IndexFromIs(h + x, SPACE, 0, sp);
    assert (h + x)[sp + 1..] == h[sp + 1..] + x;
  }

  lemma SettledGrants(s: seq<byte>, got: nat)
    requires StatusSettled(s) && ReadFor(s, got)
    ensures Grants(s, got) == HeaderGrants(s)
  {
    hide Status, HeaderEnd, CText, SkipWhite;
    SeenHeader(s, got);
    var o, seen := HeaderEnd(s).value, CText(s[..got]);
    assert seen == s[..o] + seen[o..];
    StatusLocal(s[..o], seen[o..], IndexFrom(s[..o], SPACE, 0));
  }

  /** A header that says 200 is settled: white space alone reads as zero. */
  lemma GrantIsSettled(s: seq<byte>)
    requires HeaderGrants(s)
    ensures StatusSettled(s)
  {
    var h := s[..HeaderEnd(s).value];
    var sp := IndexFrom(h, SPACE, 0);
    var value := h[sp + 1..];
    assert SkipWhite(value, 0) == |value| ==> Number(value) == 0;
  }

  /** A response opens the tunnel under every fragmentation if and only if its header says 200. */
  lemma GrantedAlwaysIff(s: seq<byte>)
    ensures HeaderEnd(s).Some? && (forall got :: ReadFor(s, got) ==> Grants(s, got)) <==> HeaderGrants(s)
  {
    hide Grants, StatusSettled, HeaderEnd, Status;
    if HeaderGrants(s) {
      GrantIsSettled(s);
      forall got | ReadFor(s, got)
        ensures Grants(s, got)
      {
        SettledGrants(s, got);
      }
    }
    if HeaderEnd(s).Some? {
      HeaderAlone(s);
    }
  }

  lemma HeaderAlone(s: seq<byte>)
    requires HeaderEnd(s).Some?
    ensures ReadFor(s, HeaderEnd(s).value) && Grants(s, HeaderEnd(s).value) == HeaderGrants(s)
  {
    var o := HeaderEnd(s).value;
    SeenHeader(s, o);
    assert CText(s[..o]) == s[..o];
  }

  lemma FirstBlankOf(version: seq<byte>, rest: seq<byte>)
    requires SPACE !in version
    ensures var h := version + [SPACE] + rest;
            IndexFrom(h, SPACE, 0) == |version| && h[|version| + 1..] == rest
  {
    FieldEnds([], version, SPACE, rest);
    assert [] + version == version;
  }

  lemma NumberBehindBlank(h: seq<byte>, sp: nat, n: nat, x: seq<byte>)
    requires IndexFrom(h, SPACE, 0) == sp < |h| && h[sp + 1..] == Decimal(n) + x
    requires n <= INT_MAX && (x == [] || !Digit(x[0]))
    ensures Status(h) == Some(n) && SkipWhite(h[sp + 1..], 0) < |h| - sp - 1
  {
    hide Number, SkipWhite, Decimal, IndexFrom, Status;
    NumberOfPrinted(n, x);
    StatusAt(h, sp);
    assert |h[sp + 1..]| == |h| - sp - 1;
  }

  lemma HeaderReadAs(h: seq<byte>, sp: nat)
    requires HeaderEnd(h) == Some(|h|) && IndexFrom(h, SPACE, 0) == sp < |h|
    ensures HeaderGrants(h) <==> Status(h) == Some(200)
    ensures StatusSettled(h) <==> SkipWhite(h[sp + 1..], 0) < |h| - sp - 1
  {
    hide HeaderEnd, Status, SkipWhite, IndexFrom;
    assert h[..|h|] == h;
  }

  /** A printed status line, whatever follows it, opens the tunnel if and only
      if its status is 200. */
  lemma PrintedStatus(version: seq<byte>, n: nat, x: seq<byte>, later: seq<byte>)
    requires SPACE !in version && n <= INT_MAX && (x == [] || !Digit(x[0]))
    requires var h := version + [SPACE] + (Decimal(n) + x); HeaderEnd(h) == Some(|h|)
    ensures var s := version + [SPACE] + (Decimal(n) + x) + later;
            StatusSettled(s) && (HeaderGrants(s) <==> n == 200)
  {
    hide HeaderEnd, Decimal, StatusSettled, HeaderGrants, Status, SkipWhite, IndexFrom;
    var h := version + [SPACE] + (Decimal(n) + x);
    FirstBlankOf(version, Decimal(n) + x);
    NumberBehindBlank(h, |version|, n, x);
    HeaderReadAs(h, |version|);
    HeaderExtends(h, later);
  }

  // ----- When the decision does not depend on the reads

  /** The decision is the header's own, whatever follows the header and
      however much of it has been read. */
  ghost predicate FixedDecision(h: seq<byte>) {
    forall x, got :: ReadFor(h + x, got) ==> Grants(h + x, got) == HeaderGrants(h)
  }

  /** `200` fits between the header and the end of the buffer, with a blank if the header has none. */
  predicate RoomForStatus(h: seq<byte>) {
    |h| + (if SPACE in h then 3 else 4) < RESPONSE_SIZE
  }

  lemma HeaderExtends(h: seq<byte>, x: seq<byte>)
    requires HeaderEnd(h) == Some(|h|)
    ensures 0 !in h && HeaderEnd(h + x) == Some(|h|) && (h + x)[..|h|] == h
    ensures HeaderGrants(h + x) == HeaderGrants(h) && StatusSettled(h + x) == StatusSettled(h)
  {
    assert CText(h) == h;
    SeenPrefix(h + x, |h|);
    assert (h + x)[..|h|] == h && h[..|h|] == h;
    FirstOfPrefix(h, CText(h + x), |h| - 4);
  }

  /** Every response with a header is such a header and what follows it. */
  lemma HeaderPart(s: seq<byte>)
    requires HeaderEnd(s).Some?
    ensures var o := HeaderEnd(s).value;
            HeaderEnd(s[..o]) == Some(o) && s == s[..o] + s[o..]
  {
    var o := HeaderEnd(s).value;
    var h := s[..o];
    assert CText(h) == h && h <= CText(s);
    assert forall j :: 0 <= j < o - 4 && BlankLine(h, j) ==> BlankLine(CText(s), j);
    FirstOfPrefix(h, h, o - 4);
  }

  lemma TextBehind(h: seq<byte>, y: seq<byte>)
    requires 0 !in h
    ensures CText(h + y) == h + CText(y)
  {
    var k := IndexFrom(y, 0, 0);
    IndexFromIs(h + y, 0, 0, |h| + k);
  }

  /** What is seen of a header and its continuation. */
  lemma SeenBehind(h: seq<byte>, x: seq<byte>, got: nat)
    requires 0 !in h && |h| <= got <= |h + x|
    ensures var y := CText(x[..got - |h|]);
            |y| <= got - |h| && CText((h + x)[..got]) == h + y
  {
    assert (h + x)[..got] == h + x[..got - |h|];
    TextBehind(h, x[..got - |h|]);
  }

  /** The status of an unsettled header is made by what follows it. */
  lemma UnsettledStatus(h: seq<byte>, y: seq<byte>)
    requires HeaderEnd(h) == Some(|h|) && !StatusSettled(h)
    ensures Status(h + y) == if SPACE in h then Some(Atoi(y)) else Status(y)
  {
    hide Atoi;
    assert h[..|h|] == h;
    var sp := IndexFrom(h, SPACE, 0);
    if SPACE in h {
      FirstBlankStays(h, y);
      WhiteSkipped(h[sp + 1..], y);
    } else {
      IndexBehind(h, y);
    }
  }

  lemma IndexBehind(h: seq<byte>, y: seq<byte>)
    requires SPACE !in h
    ensures IndexFrom(h + y, SPACE, 0) == |h| + IndexFrom(y, SPACE, 0)
    ensures forall k :: 0 <= k <= |y| ==> (h + y)[|h| + k..] == y[k..]
  {
    IndexFromIs(h + y, SPACE, 0, |h| + IndexFrom(y, SPACE, 0));
  }

  /** Too few bytes to make a 200. */
  lemma ShortStatus(h: seq<byte>, y: seq<byte>)
    requires HeaderEnd(h) == Some(|h|) && !StatusSettled(h)
    requires |y| < if SPACE in h then 3 else 4
    ensures Status(h + y) != Some(200)
  {
    hide HeaderEnd, StatusSettled, Atoi;
    UnsettledStatus(h, y);
    if SPACE in h {
      ShortNumber(y);
    } else if IndexFrom(y, SPACE, 0) < |y| {
      ShortNumber(y[IndexFrom(y, SPACE, 0) + 1..]);
    }
  }

  const GRANT: seq<byte> := [50, 48, 48]

  lemma GrantStatus(h: seq<byte>)
    requires HeaderEnd(h) == Some(|h|) && !StatusSettled(h)
    ensures Status(h + (if SPACE in h then GRANT else [SPACE] + GRANT)) == Some(200)
  {
    hide HeaderEnd, StatusSettled, Atoi;
    GrantNumber();
    UnsettledStatus(h, GRANT);
    UnsettledStatus(h, [SPACE] + GRANT);
    StatusAt([SPACE] + GRANT, 0);
    assert ([SPACE] + GRANT)[1..] == GRANT;
  }

  lemma GrantNumber()
    ensures Atoi(GRANT) == 200 && 0 !in GRANT
  {
    SkipWhiteIs(GRANT, 0, 0);
    assert Digits(GRANT, 3, 200) == 200;
    assert Digits(GRANT, 2, 20) == 200;
    assert Digits(GRANT, 1, 2) == 200;
  }

  /** Over all continuations and all amounts read the decision on a header is
      fixed if and only if the header settles the status, or ends so close to
      the end of the buffer that no status fits behind it. */
  lemma DecisionFixedIff(h: seq<byte>)
    requires HeaderEnd(h) == Some(|h|)
    ensures FixedDecision(h) <==> StatusSettled(h) || !RoomForStatus(h)
  {
    if StatusSettled(h) || !RoomForStatus(h) {
      forall x, got | ReadFor(h + x, got)
        ensures Grants(h + x, got) == HeaderGrants(h)
      {
        FixedAt(h, x, got);
      }
    } else {
      VariesAt(h);
    }
  }

  lemma FixedAt(h: seq<byte>, x: seq<byte>, got: nat)
    requires HeaderEnd(h) == Some(|h|) && (StatusSettled(h) || !RoomForStatus(h)) && ReadFor(h + x, got)
    ensures Grants(h + x, got) == HeaderGrants(h)
  {
    HeaderExtends(h, x);
    hide HeaderEnd, StatusSettled, Status, CText;
    if StatusSettled(h) {
      SettledGrants(h + x, got);
    } else {
      SeenBehind(h, x, got);
      ShortStatus(h, CText(x[..got - |h|]));
      NotSettledNotGranted(h);
    }
  }

  lemma NotSettledNotGranted(h: seq<byte>)
    requires !StatusSettled(h)
    ensures !HeaderGrants(h)
  {
    hide StatusSettled, HeaderGrants;
    if HeaderGrants(h) {
      GrantIsSettled(h);
    }
  }

  lemma VariesAt(h: seq<byte>)
    requires HeaderEnd(h) == Some(|h|) && !StatusSettled(h) && RoomForStatus(h)
    ensures exists x, got :: ReadFor(h + x, got) && Grants(h + x, got) != HeaderGrants(h)
  {
    var x := if SPACE in h then GRANT else [SPACE] + GRANT;
    var s := h + x;
    HeaderExtends(h, x);
    hide HeaderEnd, StatusSettled, Status;
    GrantStatus(h);
    GrantNumber();
    NotSettledNotGranted(h);
    assert s[..|s|] == s;
    WholeText(s);
    assert ReadFor(h + x, |s|) && Grants(h + x, |s|);
  }

  /** One letter, a blank, the blank line, and `200` behind it. */
  const BLANK_STATUS: seq<byte> := [72, SPACE, CR, LF, CR, LF, 50, 48, 48]

  /** Refused when the first read stops at the blank line, granted when it goes on. */
  lemma BlankStatusDependsOnReads()
    ensures ReadFor(BLANK_STATUS, 6) && !Grants(BLANK_STATUS, 6)
    ensures ReadFor(BLANK_STATUS, 9) && Grants(BLANK_STATUS, 9)
  {
    var s := BLANK_STATUS;
    BlankStatusEnd();
    hide HeaderEnd, Atoi, CText;
    IndexFromIs(s[..6], SPACE, 0, 1);
    IndexFromIs(s, SPACE, 0, 1);
    assert s[..9] == s && s[..6][2..] == [CR, LF, CR, LF] && s[2..] == [CR, LF, CR, LF, 50, 48, 48];
    BlankStatusNumbers();
  }

  lemma BlankStatusEnd()
    ensures HeaderEnd(BLANK_STATUS) == Some(6)
    ensures CText(BLANK_STATUS[..6]) == BLANK_STATUS[..6] && CText(BLANK_STATUS[..9]) == BLANK_STATUS
  {
    var s := BLANK_STATUS;
    IndexFromIs(s, 0, 0, 9);
    IndexFromIs(s[..6], 0, 0, 6);
    assert s[..9] == s && CText(s) == s && BlankLine(s, 2);
    FirstOfPrefix(s, s, 2);
  }

  lemma BlankStatusNumbers()
    ensures Atoi([CR, LF, CR, LF]) == 0 && Atoi([CR, LF, CR, LF, 50, 48, 48]) == 200
  {
    var all: seq<byte> := [CR, LF, CR, LF, 50, 48, 48];
    SkipWhiteIs([CR, LF, CR, LF], 0, 4);
    SkipWhiteIs(all, 0, 4);
    assert Digits(all, 7, 200) == 200;
    assert Digits(all, 6, 20) == 200;
    assert Digits(all, 5, 2) == 200;
  }

  /** The blank line is seen in a part of the response exactly when that part holds the header. */
  lemma SeenIff(s: seq<byte>, got: nat)
    requires got <= |s| && got < RESPONSE_SIZE
    ensures var seen := CText(s[..got]);
            FirstBlankLine(seen, 0) < |seen| <==> ReadFor(s, got)
  {
    var seen := CText(s[..got]);
    if FirstBlankLine(seen, 0) < |seen| {
      SeenPrefix(s, got);
      FirstOfPrefix(seen, CText(s), FirstBlankLine(seen, 0));
    }
    if ReadFor(s, got) {
      SeenHeader(s, got);
    }
  }

  lemma SeenPrefix(s: seq<byte>, got: nat)
    requires got <= |s|
    ensures CText(s[..got]) <= CText(s)
  {
    var k := IndexFrom(s[..got], 0, 0);
    assert forall i :: 0 <= i < k ==> s[i] == s[..got][i] != 0;
  }

  method AskHttp(sock: Socket, t: Target, user: CString, pass: CString) returns (ok: bool)
    requires |user| <= 127 && |pass| <= 127
    modifies sock`sends, sock`sent
    ensures ok ==> Askable(t, user, pass) && sock.sent == old(sock.sent) + HttpConnect(t, user, pass)
    ensures ok && PlainHost(t.host) && |t.host| <= HOST_MAX && COLON !in user ==>
              Understood(t, user, pass, sock.sent[|old(sock.sent)|..])
    ensures sock.Healthy() ==> ok == Askable(t, user, pass)
  {
    hide HttpConnect, PlainHost, Understood;
    if t.port < 1 || t.port > 65535 {
      return false;
    }
    var request := HttpRequest(t, user, pass);
    if |request| >= BUF_SIZE {
      return false;
    }
    ok := sock.SendAll(request);
    if ok && PlainHost(t.host) && |t.host| <= HOST_MAX && COLON !in user {
      ConnectUnderstood(t, user, pass);
      assert sock.sent[|old(sock.sent)|..] == request;
    }
  }

  method NegotiateHttp(sock: Socket, t: Target, user: CString, pass: CString) returns (ok: bool)
    requires sock.Valid() && |user| <= 127 && |pass| <= 127
    modifies sock`pos, sock`recvs, sock`sends, sock`sent
    ensures sock.Valid() && old(sock.pos) <= sock.pos
    ensures ok ==> Askable(t, user, pass) && sock.sent == old(sock.sent) + HttpConnect(t, user, pass)
    ensures ok && PlainHost(t.host) && |t.host| <= HOST_MAX && COLON !in user ==>
              Understood(t, user, pass, sock.sent[|old(sock.sent)|..])
    ensures ok ==> var s, got := old(sock.Unread()), sock.pos - old(sock.pos);
                   ReadFor(s, got) && Grants(s, got) && (StatusSettled(s) ==> HeaderGrants(s))
    ensures sock.Healthy() && Askable(t, user, pass) && HeaderGrants(old(sock.Unread())) ==> ok
  {
    hide Askable, HttpConnect, Grants, HeaderEnd, StatusSettled, ReadFor, PlainHost, Understood;
    ok := AskHttp(sock, t, user, pass);
    if !ok {
      return;
    }
    var seen := ReadResponse(sock);
    if seen.None? {
      return false;
    }
    ghost var s, got := sock.inbound[old(sock.pos)..], sock.pos - old(sock.pos);
    if HeaderGrants(s) {
      GrantIsSettled(s);
    }
    if StatusSettled(s) {
      SettledGrants(s, got);
    }
    ok := IsGranting(seen.value);
    assert ok == Grants(s, got) by {
      assert s[..got] == sock.inbound[old(sock.pos)..sock.pos];
      GrantsMeaning(s, got);
    }
  }

  lemma GrantsMeaning(s: seq<byte>, got: nat)
    requires got <= |s|
    ensures Grants(s, got) == (Status(CText(s[..got])) == Some(200))
  {
  }

  method IsGranting(seen: seq<byte>) returns (ok: bool)
    ensures ok == (Status(seen) == Some(200))
  {
    var sp := IndexFrom(seen, SPACE, 0);
    if sp == |seen| {
      return false;
    }
    return Atoi(seen[sp + 1..]) == 200;
  }

  /** Reads until the blank line is seen in the terminated buffer or the buffer is full. */
  method ReadResponse(sock: Socket) returns (seen: Option<seq<byte>>)
    requires sock.Valid()
    modifies sock`pos, sock`recvs
    ensures sock.Valid() && old(sock.pos) <= sock.pos
    ensures seen.Some? ==> seen.value == CText(sock.inbound[old(sock.pos)..sock.pos])
    ensures seen.Some? ==> ReadFor(old(sock.Unread()), sock.pos - old(sock.pos))
    ensures sock.Healthy() && HeaderEnd(old(sock.Unread())).Some? ==> seen.Some?
  {
    hide FirstBlankLine, CText;
    ghost var s := sock.Unread();
    var resp: seq<byte> := [];
    while |resp| < RESPONSE_SIZE - 1
      invariant sock.Valid() && sock.pos == old(sock.pos) + |resp| && |resp| < RESPONSE_SIZE
      invariant resp == s[..|resp|] == sock.inbound[old(sock.pos)..sock.pos]
      invariant HeaderEnd(s).Some? ==> |resp| < HeaderEnd(s).value
    {
      var chunk := sock.Recv(RESPONSE_SIZE - 1 - |resp|);
      if chunk == [] {
        return None;
      }
      JoinSlices(sock.inbound, old(sock.pos), old(sock.pos) + |resp|, sock.pos);
      resp := resp + chunk;
      assert resp == s[..|resp|];
      var text := CText(resp);
      SeenIff(s, |resp|);
      if FirstBlankLine(text, 0) < |text| {
        return Some(text);
      }
    }
    return None;
  }

  // ----- The connection

  /** The first proxy with the given id. */
  method FindProxy(proxies: seq<Proxy>, id: nat) returns (r: Option<Proxy>)
    ensures r == Lookup(proxies, id, 0)
  {
    var i := 0;
    while i < |proxies|
      invariant 0 <= i <= |proxies| && Lookup(proxies, id, 0) == Lookup(proxies, id, i)
    {
      if proxies[i].id == id {
        return Some(proxies[i]);
      }
      i := i + 1;
    }
    return None;
  }

  /** p is the first proxy from index `from` on whose id is `id`. */
  ghost predicate FirstWithId(proxies: seq<Proxy>, id: nat, from: nat, p: Proxy) {
    exists k :: from <= k < |proxies| && proxies[k] == p && p.id == id
                && forall j :: from <= j < k ==> proxies[j].id != id
  }

  function Lookup(proxies: seq<Proxy>, id: nat, from: nat): (r: Option<Proxy>)
    requires from <= |proxies|
    ensures r.Some? ==> FirstWithId(proxies, id, from, r.value)
    ensures r.None? ==> forall i :: from <= i < |proxies| ==> proxies[i].id != id
    decreases |proxies| - from
  {
    if from == |proxies| then None
    else if proxies[from].id == id then Some(proxies[from])
    else Lookup(proxies, id, from + 1)
  }

  /** The proxies a chain names, if all its ids are known: hop i is the first
      proxy with the i-th id. */
  function Resolve(ids: seq<nat>, proxies: seq<Proxy>): (r: Option<seq<Proxy>>)
    ensures r.Some? ==> |r.value| == |ids|
    ensures r.Some? ==> forall i :: 0 <= i < |ids| ==> FirstWithId(proxies, ids[i], 0, r.value[i])
    ensures r.None? ==> exists i :: 0 <= i < |ids| && forall k :: 0 <= k < |proxies| ==> proxies[k].id != ids[i]
  {
    if ids == [] then Some([])
    else
      var init := Resolve(ids[..|ids| - 1], proxies);
      var last := Lookup(proxies, ids[|ids| - 1], 0);
      if init.None? || last.None? then None else Some(init.value + [last.value])
  }

  lemma {:induction false} ResolvePrefix(ids: seq<nat>, proxies: seq<Proxy>, n: nat)
    requires n <= |ids| && Resolve(ids[..n], proxies).None?
    ensures Resolve(ids, proxies).None?
    decreases |ids|
  {
    if n < |ids| {
      assert ids[..|ids| - 1][..n] == ids[..n];
      ResolvePrefix(ids[..|ids| - 1], proxies, n);
    } else {
      assert ids[..n] == ids;
    }
  }

  method ResolveHops(ids: seq<nat>, proxies: seq<Proxy>) returns (r: Option<seq<Proxy>>)
    ensures r == Resolve(ids, proxies)
  {
    var hops: seq<Proxy> := [];
    var i := 0;
    while i < |ids|
      invariant 0 <= i <= |ids| && Resolve(ids[..i], proxies) == Some(hops)
    {
      var p := FindProxy(proxies, ids[i]);
      assert ids[..i + 1][..i] == ids[..i];
      if p.None? {
        ResolvePrefix(ids, proxies, i + 1);
        return None;
      }
      hops := hops + [p.value];
      i := i + 1;
    }
    assert ids[..i] == ids;
    return Some(hops);
  }

  method NegotiateHop(sock: Socket, p: Proxy, t: Target) returns (ok: bool)
    requires sock.Valid() && 0 !in t.host
    modifies sock`pos, sock`recvs, sock`sends, sock`sent
    ensures sock.Valid() && old(sock.pos) <= sock.pos
    ensures p.kind.Ssh? || p.kind.Other? ==> !ok
    ensures ok ==> Negotiable(p, t) && HopGrants(p, old(sock.Unread()), sock.pos - old(sock.pos))
    ensures ok ==> sock.sent == old(sock.sent) + HopRequest(p, t, Chosen(old(sock.Unread())))
    ensures sock.Healthy() && IsSocks(p) ==> ok == (Negotiable(p, t) && HopConsumed(p, old(sock.Unread())).Some?)
    ensures sock.Healthy() && p.kind.Http? && Negotiable(p, t) && HeaderGrants(old(sock.Unread())) ==> ok
  {
    hide HttpConnect, Grants, HeaderGrants, HeaderEnd;
    match p.kind
    case Socks5 => ok := Negotiate5(sock, t, p.user, p.pass);
    case Socks4 => ok := Negotiate4(sock, t, p.user);
    case Http => ok := NegotiateHttp(sock, t, p.user, p.pass);
    case Ssh => ok := false;
    case Other => ok := false;
  }

  ghost predicate AllSocks(hops: seq<Proxy>) {
    forall i :: 0 <= i < |hops| ==> IsSocks(hops[i])
  }

  /** Negotiates with every hop in turn; `starts` are the offsets at which the
      hops' answers began, and the end of the last one. */
  method NegotiateChain(sock: Socket, hops: seq<Proxy>, dst: Target) returns (ok: bool, ghost starts: seq<nat>)
    requires sock.Valid() && 0 !in dst.host
    modifies sock`pos, sock`recvs, sock`sends, sock`sent
    ensures sock.Valid() && old(sock.pos) <= sock.pos
    ensures ok ==>
              && Granted(hops, old(sock.Unread()), starts, |hops|) && starts[|hops|] == sock.pos - old(sock.pos)
              && AllNegotiable(hops, dst, |hops|)
              && sock.sent == old(sock.sent) + Requests(hops, dst, Choices(old(sock.Unread()), starts, |hops|), |hops|)
    ensures sock.Healthy() && AllSocks(hops) ==>
              ok == (AllNegotiable(hops, dst, |hops|) && Offset(hops, old(sock.Unread()), |hops|).Some?)
  {
    hide HopConsumed, HopRequest, Negotiable, Offset, Requests, AllNegotiable, HopGrants, Granted, Choices;
    ghost var s := sock.Unread();
    starts := [0];
    NothingYet(hops, dst, s);
    assert old(sock.sent) + [] == old(sock.sent);
    var i := 0;
    while i < |hops|
      invariant 0 <= i <= |hops| && sock.Valid() && old(sock.pos) <= sock.pos
      invariant Granted(hops, s, starts, i) && AtOffset(s, starts, i, sock.pos - old(sock.pos))
      invariant AllNegotiable(hops, dst, i)
      invariant sock.sent == old(sock.sent) + Requests(hops, dst, Choices(s, starts, i), i)
      invariant AllSocks(hops) ==> Offset(hops, s, i) == Some(sock.pos - old(sock.pos))
    {
      ghost var o := sock.pos - old(sock.pos);
      assert sock.Unread() == s[o..];
      ok := NegotiateHop(sock, hops[i], Next(hops, dst, i));
      if AllSocks(hops) {
        OneMoreAnswer(hops, dst, s, i, o, sock.pos - old(sock.pos) - o);
      }
      if !ok {
        return;
      }
      OneMoreHop(hops, dst, s, starts, i, sock.pos - old(sock.pos));
      Assoc(old(sock.sent), Requests(hops, dst, Choices(s, starts, i), i),
            HopRequest(hops[i], Next(hops, dst, i), Chosen(s[o..])));
      starts := starts + [sock.pos - old(sock.pos)];
      i := i + 1;
    }
    ok := true;
  }

  /** The answers of the first n hops end at offset o. */
  ghost predicate AtOffset(s: seq<byte>, starts: seq<nat>, n: nat, o: nat) {
    n < |starts| && starts[n] == o && forall i :: 0 <= i <= n ==> starts[i] <= |s|
  }

  lemma NothingYet(hops: seq<Proxy>, dst: Target, s: seq<byte>)
    ensures AllNegotiable(hops, dst, 0) && Offset(hops, s, 0) == Some(0) && Granted(hops, s, [0], 0)
    ensures Requests(hops, dst, Choices(s, [0], 0), 0) == []
  {
  }

  lemma OneMoreStart(hops: seq<Proxy>, s: seq<byte>, starts: seq<nat>, i: nat, end: nat)
    requires i < |hops| && Granted(hops, s, starts, i)
    requires starts[i] <= end <= |s| && HopGrants(hops[i], s[starts[i]..], end - starts[i])
    ensures Granted(hops, s, starts + [end], i + 1) && AtOffset(s, starts + [end], i + 1, end)
  {
    hide HopGrants;
  }

  lemma OneMoreChoice(s: seq<byte>, starts: seq<nat>, i: nat, end: nat)
    requires |starts| == i + 1 && end <= |s| && forall j :: 0 <= j <= i ==> starts[j] <= |s|
    ensures Choices(s, starts + [end], i + 1) == Choices(s, starts, i) + [Chosen(s[starts[i]..])]
  {
    hide Chosen;
  }

  /** A granted hop extends offsets and requests. */
  lemma OneMoreHop(hops: seq<Proxy>, dst: Target, s: seq<byte>, starts: seq<nat>, i: nat, end: nat)
    requires i < |hops| && Granted(hops, s, starts, i) && AllNegotiable(hops, dst, i)
    requires Negotiable(hops[i], Next(hops, dst, i))
    requires starts[i] <= end <= |s| && HopGrants(hops[i], s[starts[i]..], end - starts[i])
    ensures var more := starts + [end];
            && Granted(hops, s, more, i + 1) && AllNegotiable(hops, dst, i + 1) && AtOffset(s, more, i + 1, end)
            && Requests(hops, dst, Choices(s, more, i + 1), i + 1) ==
               Requests(hops, dst, Choices(s, starts, i), i)
               + HopRequest(hops[i], Next(hops, dst, i), Chosen(s[starts[i]..]))
  {
    OneMoreStart(hops, s, starts, i, end);
    OneMoreChoice(s, starts, i, end);
    hide HopGrants, HopRequest, Negotiable, Chosen, Choices;
    var before, after := Choices(s, starts, i), Choices(s, starts + [end], i + 1);
    assert after[..i] == before[..i];
    SameRequests(hops, dst, after, before, i);
  }

  /** For SOCKS hops the answer decides, and a refused one rules the whole chain out. */
  lemma OneMoreAnswer(hops: seq<Proxy>, dst: Target, s: seq<byte>, i: nat, o: nat, got: nat)
    requires i < |hops| && IsSocks(hops[i]) && Offset(hops, s, i) == Some(o)
    ensures var p, t := hops[i], Next(hops, dst, i);
            && (HopGrants(p, s[o..], got) ==> Offset(hops, s, i + 1) == Some(o + got))
            && (!Negotiable(p, t) || HopConsumed(p, s[o..]).None? ==>
                  !AllNegotiable(hops, dst, |hops|) || Offset(hops, s, |hops|).None?)
  {
    hide HopConsumed, Negotiable;
    OffsetPrefix(hops, s, i + 1, |hops|);
  }

  /** The first hop is dialled only for a well-formed chain that does not start with SSH. */
  predicate Dials(ids: seq<nat>, proxies: seq<Proxy>, dst: Target) {
    && 1 <= |ids| <= MAX_HOPS && 1 <= dst.port <= 65535
    && Resolve(ids, proxies).Some? && !Resolve(ids, proxies).value[0].kind.Ssh?
  }

  /** Connects through the chain; `conn` is what dialling the first hop yields.
      The ghost results are the offsets of the answers, the methods selected
      in them, and the orders the hops read. */
  method Connect(ids: seq<nat>, proxies: seq<Proxy>, dst: Target, conn: Option<Socket>)
      returns (r: Option<Socket>, ghost starts: seq<nat>, ghost choices: seq<byte>, ghost orders: seq<Order>)
    requires conn.Some? ==> conn.value.Valid()
    requires 0 !in dst.host
    modifies if conn.Some? then {conn.value} else {}
    ensures r.Some? ==> r == conn && Dials(ids, proxies, dst) && conn.value.closes == old(conn.value.closes)
    ensures r.None? && conn.Some? ==>
              conn.value.closes == old(conn.value.closes) + (if Dials(ids, proxies, dst) then 1 else 0)
    ensures r.Some? ==>
              forall i :: 0 <= i < |ids| ==>
                var p := Resolve(ids, proxies).value[i];
                FirstWithId(proxies, ids[i], 0, p) && (p.kind == Socks4 || p.kind == Socks5 || p.kind == Http)
    ensures r.Some? ==>
              var hops, s := Resolve(ids, proxies).value, old(conn.value.Unread());
              && Granted(hops, s, starts, |hops|) && starts[|hops|] == conn.value.pos - old(conn.value.pos)
              && choices == Choices(s, starts, |hops|)
              && AllNegotiable(hops, dst, |hops|)
              && conn.value.sent == old(conn.value.sent) + Requests(hops, dst, choices, |hops|)
    ensures r.Some? && AllUnderstand(Resolve(ids, proxies).value, dst, choices) ==>
              var hops := Resolve(ids, proxies).value;
              && Reads(hops, choices, conn.value.sent[|old(conn.value.sent)|..], orders)
              && |orders| == |ids|
              && (forall i :: 0 <= i < |ids| - 1 ==> orders[i].target == Target(hops[i + 1].host, hops[i + 1].port))
              && orders[|ids| - 1].target == dst
              && forall i :: 0 <= i < |ids| ==> orders[i].credentials == Shown(hops[i], choices[i])
    ensures conn.Some? && conn.value.Healthy() && Dials(ids, proxies, dst) && AllSocks(Resolve(ids, proxies).value) ==>
              var hops, s := Resolve(ids, proxies).value, old(conn.value.Unread());
              r.Some? == (AllNegotiable(hops, dst, |hops|) && Offset(hops, s, |hops|).Some?)
  {
    hide Resolve, AllNegotiable, Requests, Offset, Next, AllUnderstand, Reads, Choices, HopGrants, Shown, FirstWithId,
      Granted, AllSocks;
    starts, choices, orders := [], [], [];
    if |ids| < 1 || |ids| > MAX_HOPS || dst.port < 1 || dst.port > 65535 {
      return None, starts, choices, orders;
    }
    var found := ResolveHops(ids, proxies);
    if found.None? || found.value[0].kind.Ssh? || conn.None? {
      return None, starts, choices, orders;
    }
    var ok;
    ok, starts := NegotiateChain(conn.value, found.value, dst);
    if !ok {
      conn.value.Close();
      return None, starts, choices, orders;
    }
    ghost var hops, s := found.value, conn.value.inbound[old(conn.value.pos)..];
    GrantedMeans(hops, s, starts, |hops|);
    choices := Choices(s, starts, |hops|);
    if AllUnderstand(hops, dst, choices) {
      orders := TunnelReachesTargets(hops, dst, choices);
      assert conn.value.sent[|old(conn.value.sent)|..] == Requests(hops, dst, choices, |hops|);
    }
    return conn, starts, choices, orders;
  }

  lemma GrantedMeans(hops: seq<Proxy>, s: seq<byte>, starts: seq<nat>, n: nat)
    requires Granted(hops, s, starts, n)
    ensures n <= |hops| && |starts| == n + 1 && forall i :: 0 <= i <= n ==> starts[i] <= |s|
    ensures forall i :: 0 <= i < n ==> hops[i].kind == Socks4 || hops[i].kind == Socks5 || hops[i].kind == Http
  {
    forall i | 0 <= i < n
      ensures hops[i].kind == Socks4 || hops[i].kind == Socks5 || hops[i].kind == Http
    {
      assert HopGrants(hops[i], s[starts[i]..], starts[i + 1] - starts[i]);
    }
  }

  lemma {:induction false} OffsetPrefix(hops: seq<Proxy>, s: seq<byte>, n: nat, m: nat)
    requires n <= m <= |hops|
    ensures Offset(hops, s, n).None? ==> Offset(hops, s, m).None?
    decreases m
  {
    if n < m {
      OffsetPrefix(hops, s, n, m - 1);
    }
  }
}
