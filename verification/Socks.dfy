/** SOCKS negotiation on a connected socket: version 5 (sections 3 to 6 of
    RFC 1928, section 2 of RFC 1929) and version 4a. */
module Socks {
  import opened Bytes
  import opened Sockets

  const BUF_SIZE := 8192
  const DRAIN_SIZE := 258

  /** Host names and credentials are C strings: they hold no NUL byte. */
  type CString = s: seq<byte> | 0 !in s

  datatype Target = Target(host: seq<byte>, port: int)

  function PortBytes(port: int): seq<byte>
    requires 1 <= port <= 65535
  {
    [port / 256, port % 256]
  }

  // ----- What the client writes

  function Greeting(auth: bool): seq<byte> {
    if auth then [5, 2, 0, 2] else [5, 1, 0]
  }

  function Login(user: seq<byte>, pass: seq<byte>): seq<byte>
    requires |user| <= 255 && |pass| <= 255
  {
    [1, |user|] + user + [|pass|] + pass
  }

  function Connect5(t: Target): seq<byte>
    requires |t.host| <= 255 && 1 <= t.port <= 65535
  {
    [5, 1, 0, 3, |t.host|] + t.host + PortBytes(t.port)
  }

  /** Without a user name the password is ignored. */
  predicate Negotiable5(t: Target, user: seq<byte>, pass: seq<byte>) {
    && 1 <= t.port <= 65535 && |t.host| <= 255
    && (user != [] ==> |user| <= 255 && |pass| <= 255)
  }

  /** All bytes a client writes to a version 5 proxy that selected `method`. */
  function Request5(t: Target, user: seq<byte>, pass: seq<byte>, choice: byte): seq<byte>
    requires Negotiable5(t, user, pass)
  {
    Greeting(user != []) + (if choice == 2 && user != [] then Login(user, pass) else []) + Connect5(t)
  }

  predicate Negotiable4(t: Target, user: seq<byte>) {
    1 <= t.port <= 65535 && 8 + |user| + 1 + |t.host| + 1 <= BUF_SIZE
  }

  function Request4(t: Target, user: seq<byte>): seq<byte>
    requires 1 <= t.port <= 65535
  {
    [4, 1] + PortBytes(t.port) + [0, 0, 0, 1] + user + [0] + t.host + [0]
  }

  // ----- What a proxy reads

  /** What a proxy is asked for: a target, by whom and with which password. */
  datatype Order = Order(target: Target, credentials: Option<(seq<byte>, seq<byte>)>)

  /** Reads a login message: user name, password and what follows. */
  function ReadLogin(s: seq<byte>): Option<(seq<byte>, seq<byte>, seq<byte>)> {
    if |s| < 2 || s[0] != 1 || |s| < 3 + U8(s, 1) then None
    else
      var p := 2 + U8(s, 1);
      var end := p + 1 + U8(s, p);
      if |s| < end then None else Some((s[2..p], s[p + 1..end], s[end..]))
  }

  /** Reads a CONNECT request for a domain name and returns what follows it. */
  function ParseConnect5(s: seq<byte>): Option<(Target, seq<byte>)> {
    if |s| < 5 || s[0] != 5 || s[1] != 1 || s[3] != 3 || |s| < 7 + U8(s, 4) then None
    else
      var n := U8(s, 4);
      Some((Target(s[5..5 + n], U16(s, 5 + n)), s[7 + n..]))
  }

  /** A version 5 proxy that selects `choice`: the methods it is offered, the
      order it reads and what follows. */
  function Parse5(s: seq<byte>, choice: byte): Option<(seq<byte>, Order, seq<byte>)> {
    if |s| < 2 || s[0] != 5 || |s| < 2 + U8(s, 1) then None
    else
      var offered, t := s[2..2 + U8(s, 1)], s[2 + U8(s, 1)..];
      if choice !in offered then None
      else if choice != 2 then
        var c := ParseConnect5(t);
        if c.None? then None else Some((offered, Order(c.value.0, None), c.value.1))
      else
        var l := ReadLogin(t);
        if l.None? then None
        else
          var c := ParseConnect5(l.value.2);
          if c.None? then None else Some((offered, Order(c.value.0, Some((l.value.0, l.value.1))), c.value.1))
  }

  /** A version 4a proxy: the host name follows the user id because the
      address is 0.0.0.1; there is no password. */
  function Parse4(s: seq<byte>): Option<(Order, seq<byte>)> {
    if |s| < 8 || s[0] != 4 || s[1] != 1 || s[4..8] != [0, 0, 0, 1] then None
    else
      var u := IndexFrom(s, 0, 8);
      if u == |s| then None
      else
        var h := IndexFrom(s, 0, u + 1);
        if h == |s| then None
        else Some((Order(Target(s[u + 1..h], U16(s, 2)), Some((s[8..u], []))), s[h + 1..]))
  }

  /** A login is read as the user name and the password it was made of. */
  lemma LoginRead(user: seq<byte>, pass: seq<byte>, rest: seq<byte>)
    requires |user| <= 255 && |pass| <= 255
    ensures ReadLogin(Login(user, pass) + rest) == Some((user, pass, rest))
  {
    var s := Login(user, pass) + rest;
    var p := 2 + |user|;
    var end := p + 1 + |pass|;
    assert s[1] == |user| && s[p] == |pass|;
    assert s[2..p] == user && s[p + 1..end] == pass && s[end..] == rest;
  }

  lemma Connect5Parsed(t: Target, rest: seq<byte>)
    requires |t.host| <= 255 && 1 <= t.port <= 65535
    ensures ParseConnect5(Connect5(t) + rest) == Some((t, rest))
  {
    var s := Connect5(t) + rest;
    var n := |t.host|;
    assert s[4] == n && s[5..5 + n] == t.host && s[5 + n] == t.port / 256 && s[6 + n] == t.port % 256;
    assert s[7 + n..] == rest;
  }

  /** A proxy that selects an offered method reads the target the client
      meant, and with method 2 its user name and password; method 2 is offered
      only with a user name. */
  lemma Request5Parsed(t: Target, user: seq<byte>, pass: seq<byte>, choice: byte, rest: seq<byte>)
    requires Negotiable5(t, user, pass)
    requires choice == 0 || (choice == 2 && user != [])
    ensures Parse5(Request5(t, user, pass, choice) + rest, choice) ==
            Some((if user == [] then [0] else [0, 2],
                  Order(t, if choice == 2 then Some((user, pass)) else None),
                  rest))
  {
    hide Login, Connect5, ReadLogin, ParseConnect5;
    var login := if choice == 2 && user != [] then Login(user, pass) else [];
    var after := login + (Connect5(t) + rest);
    var s := Request5(t, user, pass, choice) + rest;
    assert s == Greeting(user != []) + after;
    assert s[2 + U8(s, 1)..] == after;
    assert s[2..2 + U8(s, 1)] == if user == [] then [0] else [0, 2];
    Connect5Parsed(t, rest);
    if choice == 2 {
      LoginRead(user, pass, Connect5(t) + rest);
    } else {
      assert after == Connect5(t) + rest;
    }
  }

  /** A version 4a proxy reads the target and the user id the client meant. */
  lemma Request4Parsed(t: Target, user: seq<byte>, rest: seq<byte>)
    requires Negotiable4(t, user) && 0 !in user && 0 !in t.host
    ensures Parse4(Request4(t, user) + rest) == Some((Order(t, Some((user, []))), rest))
  {
    var s := Request4(t, user) + rest;
    var u := 8 + |user|;
    var h := u + 1 + |t.host|;
    assert s[8..u] == user && s[u] == 0 && s[u + 1..h] == t.host && s[h] == 0;
    assert forall i :: 8 <= i < u ==> s[i] == user[i - 8];
    assert forall i :: u + 1 <= i < h ==> s[i] == t.host[i - u - 1];
    IndexFromIs(s, 0, 8, u);
    IndexFromIs(s, 0, u + 1, h);
    assert s[4..8] == [0, 0, 0, 1];
    assert s[h + 1..] == rest;
  }

  // ----- What the proxy answers

  /** The bound address of a reply. */
  datatype Address = V4(bytes: seq<byte>) | V6(bytes: seq<byte>) | Name(bytes: seq<byte>) {
    predicate WellFormed() {
      match this
      case V4(b) => |b| == 4
      case V6(b) => |b| == 16
      case Name(b) => |b| <= 255
    }

    function Encode(): seq<byte>
      requires WellFormed()
    {
      match this
      case V4(b) => [1] + b
      case V6(b) => [4] + b
      case Name(b) => [3, |b|] + b
    }
  }

  /** A successful negotiation as the proxy sends it: method selection, login
      verdict when method 2 was selected, reply with bound address and port. */
  datatype Reply = Reply(
    selected: byte,
    loginVersion: byte,
    version: byte,
    reserved: byte,
    address: Address,
    p1: byte,
    p0: byte)
  {
    predicate Acceptable(auth: bool) {
      address.WellFormed() && selected != 255 && (selected == 2 ==> auth)
    }

    function Encode(): seq<byte>
      requires address.WellFormed()
    {
      [5, selected] + (if selected == 2 then [loginVersion, 0] else [])
        + [version, 0, reserved] + address.Encode() + [p1, p0]
    }
  }

  /** Number of bytes of an accepted method selection and login verdict. */
  function Selection(s: seq<byte>, auth: bool): (r: Option<nat>)
    ensures r.Some? ==> 2 <= r.value <= |s|
  {
    if |s| < 2 || s[0] != 5 || s[1] == 255 || (s[1] == 2 && !auth) then None
    else if s[1] != 2 then Some(2)
    else if |s| < 4 || s[3] != 0 then None
    else Some(4)
  }

  /** End of a granting reply that starts at index o. */
  function ReplyEnd(s: seq<byte>, o: nat): (r: Option<nat>)
    ensures r.Some? ==> o + 7 <= r.value <= |s|
  {
    if |s| < o + 4 || s[o + 1] != 0 then None
    else if s[o + 3] == 3 && |s| < o + 5 then None
    else if s[o + 3] !in {1, 3, 4} then None
    else
      var n := o + 4 + (if s[o + 3] == 1 then 4 else if s[o + 3] == 4 then 16 else 1 + U8(s, o + 4)) + 2;
      if n <= |s| then Some(n) else None
  }

  /** Number of bytes of a successful negotiation at the front of a stream. */
  function Consumed5(s: seq<byte>, auth: bool): (r: Option<nat>)
    ensures r.Some? ==> r.value <= |s|
  {
    var o := Selection(s, auth);
    if o.None? then None else ReplyEnd(s, o.value)
  }

  /** For every reply the count is its exact length, whatever follows it. */
  lemma ReplyConsumed(r: Reply, auth: bool, rest: seq<byte>)
    requires r.Acceptable(auth)
    ensures Consumed5(r.Encode() + rest, auth) == Some(|r.Encode()|)
  {
    var s := r.Encode() + rest;
    var o := if r.selected == 2 then 4 else 2;
    assert s[0] == 5 && s[1] == r.selected;
    assert r.selected == 2 ==> s[3] == 0;
    assert s[o + 1] == 0 && s[o + 3] == r.address.Encode()[0];
    assert r.address.Name? ==> s[o + 4] == |r.address.bytes|;
  }

  /** Length of the address at index k, type byte included. */
  function AddressLength(s: seq<byte>, k: nat): nat
    requires k < |s| && s[k] in {1, 3, 4} && (s[k] == 3 ==> k + 1 < |s|)
  {
    if s[k] == 1 then 5 else if s[k] == 4 then 17 else 2 + U8(s, k + 1)
  }

  lemma AddressAt(s: seq<byte>, k: nat) returns (a: Address)
    requires k < |s| && s[k] in {1, 3, 4} && (s[k] == 3 ==> k + 1 < |s|)
    requires k + AddressLength(s, k) <= |s|
    ensures a.WellFormed() && a.Encode() == s[k..k + AddressLength(s, k)]
  {
    a := if s[k] == 1 then V4(s[k + 1..k + 5])
         else if s[k] == 4 then V6(s[k + 1..k + 17])
         else Name(s[k + 2..k + 2 + U8(s, k + 1)]);
  }

  /** And only such replies are accepted. */
  lemma ConsumedIsReply(s: seq<byte>, auth: bool) returns (r: Reply)
    requires Consumed5(s, auth).Some?
    ensures r.Acceptable(auth) && s[..Consumed5(s, auth).value] == r.Encode()
  {
    hide Address.Encode, Address.WellFormed;
    var n := Consumed5(s, auth).value;
    var o := if s[1] == 2 then 4 else 2;
    var a := AddressAt(s, o + 3);
    r := Reply(s[1], if s[1] == 2 then s[2] else 0, s[o], s[o + 2], a, s[n - 2], s[n - 1]);
    assert s[0..o] == [5, r.selected] + (if r.selected == 2 then [r.loginVersion, 0] else []);
    assert s[o..o + 3] == [r.version, 0, r.reserved] && s[n - 2..n] == [r.p1, r.p0];
    JoinSlices(s, 0, o, o + 3);
    JoinSlices(s, 0, o + 3, n - 2);
    JoinSlices(s, 0, n - 2, n);
  }

  /** Version 4a answers with eight bytes, the second of which grants the request. */
  function Consumed4(s: seq<byte>): (r: Option<nat>)
    ensures r.Some? ==> r.value <= |s|
  {
    if |s| >= 8 && s[1] == 0x5A then Some(8) else None
  }

  // ----- The client

  /** Negotiates with a version 5 proxy. On success exactly the reply has
      been read, so the next unread byte is the first byte of the tunnel. */
  method Negotiate5(sock: Socket, t: Target, user: CString, pass: CString) returns (ok: bool)
    requires sock.Valid()
    modifies sock`pos, sock`recvs, sock`sends, sock`sent
    ensures sock.Valid() && old(sock.pos) <= sock.pos
    ensures ok ==>
              && Negotiable5(t, user, pass)
              && Consumed5(old(sock.Unread()), user != []) == Some(sock.pos - old(sock.pos))
    ensures ok ==> sock.sent == old(sock.sent) + Request5(t, user, pass, old(sock.Unread())[1])
    ensures sock.Healthy() ==> ok == (Negotiable5(t, user, pass) && Consumed5(old(sock.Unread()), user != []).Some?)
  {
    hide Greeting, Login, Connect5, Selection, ReplyEnd;
    ghost var s := sock.Unread();
    if t.port < 1 || t.port > 65535 {
      return false;
    }
    var auth := user != [];
    if |t.host| > 255 || (auth && (|user| > 255 || |pass| > 255)) {
      return false;
    }
    ok := SelectMethod(sock, auth, user, pass);
    if !ok {
      return;
    }
    ghost var o := sock.pos - old(sock.pos);
    assert sock.Unread() == s[o..];
    ok := sock.SendAll(Connect5(t));
    if !ok {
      return;
    }
    Assoc(old(sock.sent), Greeting(auth) + (if s[1] == 2 && auth then Login(user, pass) else []), Connect5(t));
    ok := DrainReply(sock, o, s);
  }

  /** Offers the methods and, when asked to, logs in. */
  method SelectMethod(sock: Socket, auth: bool, user: seq<byte>, pass: seq<byte>) returns (ok: bool)
    requires sock.Valid() && (auth ==> |user| <= 255 && |pass| <= 255)
    modifies sock`pos, sock`recvs, sock`sends, sock`sent
    ensures sock.Valid() && old(sock.pos) <= sock.pos
    ensures ok ==> Selection(old(sock.Unread()), auth) == Some(sock.pos - old(sock.pos))
    ensures ok ==> sock.sent == old(sock.sent) +
                   (Greeting(auth) + (if old(sock.Unread())[1] == 2 && auth then Login(user, pass) else []))
    ensures sock.Healthy() ==> ok == Selection(old(sock.Unread()), auth).Some?
  {
    hide Greeting, Login;
    ghost var s := sock.Unread();
    ok := sock.SendAll(Greeting(auth));
    if !ok {
      return;
    }
    var buf;
    ok, buf := sock.RecvAll(2, BUF_SIZE);
    if !ok || buf[0] != 5 || buf[1] == 255 {
      return false;
    }
    assert buf == s[..2];
    if buf[1] != 2 {
      return true;
    }
    if !auth {
      return false;
    }
    ok := sock.SendAll(Login(user, pass));
    if !ok {
      return;
    }
    ok, buf := sock.RecvAll(2, BUF_SIZE);
    if !ok {
      return;
    }
    assert buf == s[2..4];
    ok := buf[1] == 0;
  }

  /** Reads the reply to CONNECT and drains the bound address. */
  method DrainReply(sock: Socket, ghost o: nat, ghost s: seq<byte>) returns (ok: bool)
    requires sock.Valid() && |s| == |sock.Unread()| + o && sock.Unread() == s[o..]
    modifies sock`pos, sock`recvs
    ensures sock.Valid() && old(sock.pos) <= sock.pos
    ensures ok ==> ReplyEnd(s, o) == Some(sock.pos - old(sock.pos) + o)
    ensures sock.Healthy() ==> ok == ReplyEnd(s, o).Some?
  {
    var resp;
    ok, resp := sock.RecvAll(4, 4);
    if !ok {
      return;
    }
    assert resp == s[o..o + 4];
    if resp[1] != 0 {
      return false;
    }
    var addrLen: nat;
    if resp[3] == 1 {
      addrLen := 4;
    } else if resp[3] == 4 {
      addrLen := 16;
    } else if resp[3] == 3 {
      var len;
      ok, len := sock.RecvAll(1, 1);
      if !ok {
        return;
      }
      assert s[o + 4] == s[o..][4] == old(sock.Unread())[4] == sock.inbound[old(sock.pos) + 4] == len[0];
      addrLen := len[0];
    } else {
      return false;
    }
    var drained;
    ok, drained := sock.RecvAll(addrLen + 2, DRAIN_SIZE);
  }

  /** Negotiates with a version 4a proxy. */
  method Negotiate4(sock: Socket, t: Target, user: CString) returns (ok: bool)
    requires sock.Valid()
    modifies sock`pos, sock`recvs, sock`sends, sock`sent
    ensures sock.Valid() && old(sock.pos) <= sock.pos
    ensures ok ==> Negotiable4(t, user) && Consumed4(old(sock.Unread())) == Some(sock.pos - old(sock.pos))
    ensures ok ==> sock.sent == old(sock.sent) + Request4(t, user)
    ensures ok ==> sock.pos == old(sock.pos) + 8 && old(sock.Unread())[1] == 0x5A
    ensures sock.Healthy() ==> ok == (Negotiable4(t, user) && Consumed4(old(sock.Unread())).Some?)
  {
    ghost var s := sock.Unread();
    if t.port < 1 || t.port > 65535 {
      return false;
    }
    if 8 + |user| + 1 + |t.host| + 1 > BUF_SIZE {
      return false;
    }
    ok := sock.SendAll(Request4(t, user));
    if !ok {
      return;
    }
    var resp;
    ok, resp := sock.RecvAll(8, 8);
    if !ok {
      return;
    }
    assert resp == s[..8];
    ok := resp[1] == 0x5A;
  }
}
