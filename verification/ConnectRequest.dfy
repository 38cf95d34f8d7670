/** The request that asks an HTTP proxy for a tunnel (section 9.3.6 of RFC
    9110, section 2 of RFC 7617), and what a proxy reads from it. */
module ConnectRequest {
  import opened Bytes
  import opened CNumbers
  import opened Socks
  import Base64
  import HttpParser

  const FIELD_MAX := 127
  const HOST_MAX := 253
  const SIZE_MODULUS := 0x1_0000_0000_0000_0000
  const COLON: byte := 58
  const SPACE: byte := 32
  const CRLF: seq<byte> := [CR, LF]

  function Ascii(text: string): (r: seq<byte>)
    ensures |r| == |text|
  {
    seq(|text|, i requires 0 <= i < |text| => text[i] as int % 256)
  }

  // ----- What is written

  function Authority(t: Target): seq<byte>
    requires 1 <= t.port
  {
    t.host + [COLON] + Decimal(t.port)
  }

  /** Request line and Host header. */
  function Opening(t: Target): seq<byte>
    requires 1 <= t.port
  {
    Ascii("CONNECT ") + Authority(t) + Ascii(" HTTP/1.1\r\nHost: ") + Authority(t) + Ascii("\r\n")
  }

  /** The credentials, if there is a user name. */
  function Login(user: seq<byte>, pass: seq<byte>): seq<byte> {
    if user == [] then []
    else Ascii("Proxy-Authorization: Basic ") + Base64.Encode(user + [COLON] + pass) + Ascii("\r\n")
  }

  function HttpConnect(t: Target, user: seq<byte>, pass: seq<byte>): seq<byte>
    requires 1 <= t.port
  {
    Opening(t) + Login(user, pass) + Ascii("\r\n")
  }

  method HttpRequest(t: Target, user: CString, pass: CString) returns (request: seq<byte>)
    requires 1 <= t.port
    ensures request == HttpConnect(t, user, pass)
  {
    request := Opening(t);
    if user != [] {
      var b64 := Base64.EncodeCredentials(user + [COLON] + pass);
      request := request + (Ascii("Proxy-Authorization: Basic ") + b64 + Ascii("\r\n"));
    }
    request := request + Ascii("\r\n");
  }

  // ----- The written bytes are a printed request

  const VERB: seq<byte> := Ascii("CONNECT")
  const VERSION: seq<byte> := Ascii("HTTP/1.1")
  const HOST: seq<byte> := Ascii("Host")
  const AUTH: seq<byte> := Ascii("Proxy-Authorization")
  const BASIC: seq<byte> := Ascii("Basic ")

  function LoginHeaders(user: seq<byte>, pass: seq<byte>): seq<HttpParser.Header> {
    if user == [] then [] else [HttpParser.Header(AUTH, BASIC + Base64.Encode(user + [COLON] + pass))]
  }

  /** The request that is meant, followed by the bytes `rest`. */
  function Meant(t: Target, user: seq<byte>, pass: seq<byte>, rest: seq<byte>): HttpParser.Request
    requires 1 <= t.port
  {
    HttpParser.Request(
      VERB, Authority(t), VERSION, [HttpParser.Header(HOST, Authority(t))] + LoginHeaders(user, pass), 0, 0, rest)
  }

  lemma AsciiJoin(a: string, b: string)
    ensures Ascii(a + b) == Ascii(a) + Ascii(b)
  {
  }

  lemma Literals()
    ensures Ascii(" ") == [SPACE] && Ascii("\r\n") == CRLF && Ascii(": ") == [COLON, SPACE]
    ensures Ascii("CONNECT ") == VERB + [SPACE]
    ensures Ascii(" HTTP/1.1\r\nHost: ") == [SPACE] + VERSION + CRLF + HOST + [COLON, SPACE]
    ensures Ascii("Proxy-Authorization: Basic ") == AUTH + [COLON, SPACE] + BASIC
  {
    ShortLiterals();
    hide Ascii;
    AsciiJoin("CONNECT", " ");
    assert "CONNECT" + " " == "CONNECT ";
    LongLiterals();
  }

  lemma ShortLiterals()
    ensures Ascii(" ") == [SPACE] && Ascii("\r\n") == CRLF && Ascii(": ") == [COLON, SPACE]
  {
  }

  lemma LongLiterals()
    ensures Ascii(" HTTP/1.1\r\nHost: ") == [SPACE] + VERSION + CRLF + HOST + [COLON, SPACE]
    ensures Ascii("Proxy-Authorization: Basic ") == AUTH + [COLON, SPACE] + BASIC
  {
    ShortLiterals();
    hide Ascii;
    AsciiJoin(" ", "HTTP/1.1");
    AsciiJoin(" " + "HTTP/1.1", "\r\n");
    AsciiJoin(" " + "HTTP/1.1" + "\r\n", "Host");
    AsciiJoin(" " + "HTTP/1.1" + "\r\n" + "Host", ": ");
    assert " " + "HTTP/1.1" + "\r\n" + "Host" + ": " == " HTTP/1.1\r\nHost: ";
    AsciiJoin("Proxy-Authorization", ": ");
    AsciiJoin("Proxy-Authorization" + ": ", "Basic ");
    assert "Proxy-Authorization" + ": " + "Basic " == "Proxy-Authorization: Basic ";
  }

  lemma OpeningIsPrinted(t: Target)
    requires 1 <= t.port
    ensures Opening(t) == VERB + [SPACE] + Authority(t) + [SPACE] + VERSION + CRLF
                          + (HOST + [COLON, SPACE] + Authority(t) + CRLF)
  {
    Literals();
    hide Ascii, Authority;
  }

  lemma LoginIsPrinted(user: seq<byte>, pass: seq<byte>)
    ensures Login(user, pass) == HttpParser.PrintHeaders(LoginHeaders(user, pass))
  {
    Literals();
    hide Ascii, Base64.Encode;
    if user != [] {
      assert LoginHeaders(user, pass)[1..] == [];
    }
  }

  lemma ConnectIsPrinted(t: Target, user: seq<byte>, pass: seq<byte>, rest: seq<byte>)
    requires 1 <= t.port
    ensures HttpConnect(t, user, pass) + rest == HttpParser.Print(Meant(t, user, pass, rest))
  {
    OpeningIsPrinted(t);
    LoginIsPrinted(user, pass);
    ShortLiterals();
    hide Ascii, Authority, Login, LoginHeaders, Opening;
    var r := Meant(t, user, pass, rest);
    assert r.headers[1..] == LoginHeaders(user, pass);
    var host := HttpParser.HeaderLine(r.headers[0]) + CRLF;
    var line := HttpParser.RequestLine(r) + CRLF;
    assert HttpParser.PrintHeaders(r.headers) == host + HttpParser.PrintHeaders(LoginHeaders(user, pass));
    assert Opening(t) == line + host;
    hide HttpParser.PrintHeaders, HttpParser.HeaderLine, HttpParser.RequestLine;
    Regroup(line, host, Login(user, pass), CRLF, rest);
  }

  lemma Regroup(a: seq<byte>, b: seq<byte>, c: seq<byte>, d: seq<byte>, e: seq<byte>)
    ensures ((a + b) + c + d) + e == a + ((b + c) + d + e)
  {
  }

  // ----- What a proxy reads

  datatype Asked = Asked(target: Target, credentials: Option<(seq<byte>, seq<byte>)>, rest: seq<byte>)

  function LastIndex(s: seq<byte>, b: byte): (r: Option<nat>)
    ensures r.Some? ==> r.value < |s|
  {
    if s == [] then None
    else if s[|s| - 1] == b then Some(|s| - 1)
    else LastIndex(s[..|s| - 1], b)
  }

  /** Host and port around the last colon. */
  function ReadTarget(url: seq<byte>): Option<Target> {
    var k := LastIndex(url, COLON);
    if k.None? then None else Some(Target(url[..k.value], Number(url[k.value + 1..])))
  }

  /** User name and password around the first colon of the decoded text. */
  function ReadCredentials(headers: seq<HttpParser.Header>): Option<(seq<byte>, seq<byte>)> {
    var v := HttpParser.Find(headers, AUTH);
    if v.None? || !(BASIC <= v.value) then None
    else
      var text := Base64.Decode(v.value[|BASIC|..]);
      if text.None? then None else SplitCredentials(text.value)
  }

  function SplitCredentials(text: seq<byte>): Option<(seq<byte>, seq<byte>)> {
    var k := IndexFrom(text, COLON, 0);
    if k == |text| then None else Some((text[..k], text[k + 1..]))
  }

  /** A proxy takes a CONNECT request whose Host repeats the target, and passes on what follows it. */
  function ReadConnect(bytes: seq<byte>): Option<Asked> {
    var m := HttpParser.Meaning(bytes);
    if m.None? || m.value.verb != VERB || HttpParser.Find(m.value.headers, HOST) != Some(m.value.url) then None
    else
      var t := ReadTarget(m.value.url);
      if t.None? then None
      else Some(Asked(t.value, ReadCredentials(m.value.headers), bytes[m.value.headerEnd..]))
  }

  /** Neither CR nor blank in the host, and no tab at its start. */
  predicate PlainHost(host: seq<byte>) {
    CR !in host && SPACE !in host && !HttpParser.StartsBlank(host)
  }

  function Intended(t: Target, user: seq<byte>, pass: seq<byte>, rest: seq<byte>): Asked {
    Asked(t, if user == [] then None else Some((user, pass)), rest)
  }

  // ----- The target comes back

  lemma {:induction false} LastIndexIs(s: seq<byte>, b: byte, k: nat)
    requires k < |s| && s[k] == b && forall i :: k < i < |s| ==> s[i] != b
    ensures LastIndex(s, b) == Some(k)
    decreases |s|
  {
    if k < |s| - 1 {
      LastIndexIs(s[..|s| - 1], b, k);
    }
  }

  lemma TargetReadBack(t: Target)
    requires 1 <= t.port
    ensures ReadTarget(Authority(t)) == Some(t)
  {
    hide Number, Decimal;
    var a := Authority(t);
    var k := |t.host|;
    assert a[..k] == t.host && a[k + 1..] == Decimal(t.port);
    LastIndexIs(a, COLON, k);
    NumberOfDecimal(t.port);
  }

  // ----- The credentials come back

  lemma CredentialsSplit(user: seq<byte>, pass: seq<byte>)
    ensures SplitCredentials(user + [COLON] + pass) == Some((user, pass)) <==> COLON !in user
  {
    var text := user + [COLON] + pass;
    assert text[|user|] == COLON;
    if COLON !in user {
      FieldEnds([], user, COLON, pass);
      assert [] + user == user;
    } else {
      var k := IndexFrom(text, COLON, 0);
      var i :| 0 <= i < |user| && user[i] == COLON;
      assert text[i] == COLON;
      assert k <= i && |text[..k]| < |user|;
    }
  }

  lemma KeysDiffer(a: seq<byte>)
    ensures !HttpParser.Named(HttpParser.Header(HOST, a), AUTH)
  {
    assert |Fold(CText(HOST))| <= 4 && |Fold(AUTH)| == 19;
  }

  lemma KeysThemselves(a: seq<byte>)
    ensures HttpParser.Named(HttpParser.Header(HOST, a), HOST)
    ensures HttpParser.Named(HttpParser.Header(AUTH, a), AUTH)
  {
    NoNul("Host");
    NoNul("Proxy-Authorization");
    WholeText(HOST);
    WholeText(AUTH);
  }

  lemma NoNul(text: string)
    requires forall i :: 0 <= i < |text| ==> ' ' <= text[i] <= '~'
    ensures forall b :: b in Ascii(text) ==> 32 <= b <= 126
  {
    forall b | b in Ascii(text)
      ensures 32 <= b <= 126
    {
      var i :| 0 <= i < |text| && Ascii(text)[i] == b;
    }
  }

  lemma HeadersFound(t: Target, user: seq<byte>, pass: seq<byte>)
    requires 1 <= t.port
    ensures var hs := Meant(t, user, pass, []).headers;
            && HttpParser.Find(hs, HOST) == Some(Authority(t))
            && HttpParser.Find(hs, AUTH) ==
               if user == [] then None else Some(BASIC + Base64.Encode(user + [COLON] + pass))
  {
    hide Authority, HttpParser.Named, Base64.Encode, Ascii;
    var hs := Meant(t, user, pass, []).headers;
    KeysDiffer(Authority(t));
    KeysThemselves(Authority(t));
    assert hs[..1][..0] == [];
    assert hs[..1] == [hs[0]];
    HttpParser.FindInPrefix(hs, HOST, 1);
    if user != [] {
      KeysThemselves(hs[1].value);
      assert hs[..|hs| - 1] == [hs[0]];
    } else {
      assert hs == [hs[0]];
    }
  }

  lemma CredentialsReadBack(t: Target, user: seq<byte>, pass: seq<byte>)
    requires 1 <= t.port
    ensures var hs := Meant(t, user, pass, []).headers;
            ReadCredentials(hs) == (if user == [] then None else SplitCredentials(user + [COLON] + pass))
  {
    hide Base64.Encode, Base64.Decode, SplitCredentials, Meant, Ascii, HttpParser.Find;
    HeadersFound(t, user, pass);
    var text := user + [COLON] + pass;
    assert (BASIC + Base64.Encode(text))[|BASIC|..] == Base64.Encode(text);
    DecodeWhole(text);
  }

  lemma DecodeWhole(s: seq<byte>)
    ensures Base64.Decode(Base64.Encode(s)) == Some(s)
  {
    Base64.DecodeEncode(s, 0);
    assert s[0..] == s;
  }

  // ----- The request can be represented

  lemma {:induction false} EncodedLetters(s: seq<byte>, i: nat)
    ensures forall b :: b in Base64.EncodeFrom(s, i) ==> b >= 43
    decreases |s| - i
  {
    if i < |s| {
      EncodedLetters(s, i + 3);
    }
  }

  lemma MeantIsPrintable(t: Target, user: seq<byte>, pass: seq<byte>, rest: seq<byte>)
    requires 1 <= t.port <= 65535 && PlainHost(t.host) && |t.host| + 6 <= HttpParser.URL_CAP
    requires |user| <= FIELD_MAX && |pass| <= FIELD_MAX
    ensures var r := Meant(t, user, pass, rest);
            HttpParser.Printable(r) && HttpParser.Small(r) && HttpParser.Kept(r) == r
  {
    AuthorityPrintable(t);
    LoginPrintable(user, pass);
    NoNul("CONNECT");
    NoNul("HTTP/1.1");
    VerbHasNoBlank();
    hide HttpParser.PrintableHeader, Authority, Ascii;
    HttpParser.SmallIsKept(Meant(t, user, pass, rest));
  }

  lemma VerbHasNoBlank()
    ensures SPACE !in VERB
  {
  }

  lemma {:induction false} DecimalLength(n: nat)
    requires n <= 65535
    ensures |Decimal(n)| <= 5
  {
    var a := n / 10;
    var b := a / 10;
    var c := b / 10;
    assert c / 10 < 10 && |Decimal(c / 10)| == 1;
    assert |Decimal(c)| <= 2;
    assert |Decimal(b)| <= 3;
    assert |Decimal(a)| <= 4;
  }

  lemma AuthorityPrintable(t: Target)
    requires 1 <= t.port <= 65535 && PlainHost(t.host) && |t.host| + 6 <= HttpParser.URL_CAP
    ensures HttpParser.NoCr(Authority(t)) && SPACE !in Authority(t) && |Authority(t)| <= HttpParser.URL_CAP
    ensures HttpParser.PrintableHeader(HttpParser.Header(HOST, Authority(t)))
  {
    DecimalLength(t.port);
    NoNul("Host");
    hide Decimal;
    assert !HttpParser.StartsBlank(Authority(t));
  }

  lemma LoginPrintable(user: seq<byte>, pass: seq<byte>)
    requires |user| <= FIELD_MAX && |pass| <= FIELD_MAX
    ensures HttpParser.PrintableHeaders(LoginHeaders(user, pass))
    ensures forall i :: 0 <= i < |LoginHeaders(user, pass)| ==>
              var h := LoginHeaders(user, pass)[i]; |h.key| <= HttpParser.KEY_CAP && |h.value| <= HttpParser.VALUE_CAP
  {
    var text := user + [COLON] + pass;
    EncodedLetters(text, 0);
    Base64.EncodedLength(text, 0);
    NoNul("Proxy-Authorization");
    NoNul("Basic ");
    hide Base64.EncodeFrom;
  }

  // ----- Read back

  lemma PlainIsRead(t: Target, user: seq<byte>, pass: seq<byte>, rest: seq<byte>)
    requires 1 <= t.port <= 65535 && PlainHost(t.host) && |t.host| + 6 <= HttpParser.URL_CAP
    requires |user| <= FIELD_MAX && |pass| <= FIELD_MAX
    ensures ReadConnect(HttpConnect(t, user, pass) + rest) ==
            Some(Asked(t, if user == [] then None else SplitCredentials(user + [COLON] + pass), rest))
  {
    var bytes := HttpConnect(t, user, pass) + rest;
    ConnectIsPrinted(t, user, pass, rest);
    MeantIsPrintable(t, user, pass, rest);
    HttpParser.ParsePrinted(Meant(t, user, pass, rest));
    HeadersFound(t, user, pass);
    CredentialsReadBack(t, user, pass);
    TargetReadBack(t);
    hide HttpParser.Meaning, HttpParser.Find, HttpParser.Print, ReadCredentials, ReadTarget, Authority, Ascii;
    assert bytes[|bytes| - |rest|..] == rest;
  }

  /** Whatever is read as the target is free of what would end it early. */
  lemma ReadIsPlain(bytes: seq<byte>)
    requires ReadConnect(bytes).Some?
    ensures PlainHost(ReadConnect(bytes).value.target.host)
  {
    var m := HttpParser.Meaning(bytes).value;
    HttpParser.MeaningFields(bytes);
    hide HttpParser.Meaning, ReadCredentials, LastIndex;
    var k := LastIndex(m.url, COLON).value;
    assert forall b :: b in m.url[..k] ==> b in m.url;
  }

  /** A proxy reads exactly the target and the credentials that were meant,
      and nothing more of what follows, if and only if the host is plain and
      the user name holds no colon. */
  lemma ConnectReadIff(t: Target, user: seq<byte>, pass: seq<byte>, rest: seq<byte>)
    requires 1 <= t.port <= 65535 && |t.host| + 6 <= HttpParser.URL_CAP
    requires |user| <= FIELD_MAX && |pass| <= FIELD_MAX
    ensures ReadConnect(HttpConnect(t, user, pass) + rest) == Some(Intended(t, user, pass, rest)) <==>
            PlainHost(t.host) && COLON !in user
  {
    hide ReadConnect, HttpConnect, SplitCredentials, PlainHost;
    if PlainHost(t.host) {
      PlainIsRead(t, user, pass, rest);
      CredentialsSplit(user, pass);
    } else if ReadConnect(HttpConnect(t, user, pass) + rest) == Some(Intended(t, user, pass, rest)) {
      ReadIsPlain(HttpConnect(t, user, pass) + rest);
    }
  }

  /** Written before anything else, the bytes are read as meant. */
  ghost predicate Understood(t: Target, user: seq<byte>, pass: seq<byte>, written: seq<byte>) {
    forall rest :: ReadConnect(written + rest) == Some(Intended(t, user, pass, rest))
  }

  lemma ConnectUnderstood(t: Target, user: seq<byte>, pass: seq<byte>)
    requires 1 <= t.port <= 65535 && PlainHost(t.host) && |t.host| <= HOST_MAX
    requires |user| <= FIELD_MAX && |pass| <= FIELD_MAX && COLON !in user
    ensures Understood(t, user, pass, HttpConnect(t, user, pass))
  {
    hide ReadConnect, HttpConnect, PlainHost;
    forall rest
      ensures ReadConnect(HttpConnect(t, user, pass) + rest) == Some(Intended(t, user, pass, rest))
    {
      ConnectReadIff(t, user, pass, rest);
    }
  }

  /** The user `a:b` with the password `c` is read as the user `a`. */
  lemma ColonInUserMisread(t: Target, rest: seq<byte>)
    requires 1 <= t.port <= 65535 && PlainHost(t.host) && |t.host| + 6 <= HttpParser.URL_CAP
    ensures ReadConnect(HttpConnect(t, [97, COLON, 98], [99]) + rest) ==
            Some(Asked(t, Some(([97], [98, COLON, 99])), rest))
  {
    hide ReadConnect, HttpConnect, SplitCredentials, PlainHost;
    PlainIsRead(t, [97, COLON, 98], [99], rest);
    ColonSplit();
  }

  lemma ColonSplit()
    ensures SplitCredentials([97, COLON, 98] + [COLON] + [99]) == Some(([97], [98, COLON, 99]))
  {
    var text: seq<byte> := [97, COLON, 98] + [COLON] + [99];
    IndexFromIs(text, COLON, 0, 1);
    assert text[..1] == [97] && text[2..] == [98, COLON, 99];
  }

  // ----- The request buffer

  /** The limit handed to a formatted write: the rest of the buffer as an unsigned difference. */
  function Limit(used: nat): nat {
    (BUF_SIZE - used) % SIZE_MODULUS
  }

  /** A formatted write behind `used` bytes, with its terminator and within its limit, ends inside the buffer. */
  predicate WriteInside(used: nat, length: nat) {
    used + Min(length + 1, Limit(used)) <= BUF_SIZE
  }

  /** All three formatted writes of the request end inside the buffer. */
  predicate RequestInside(t: Target, user: seq<byte>, pass: seq<byte>)
    requires 1 <= t.port
  {
    var first, second := |Opening(t)|, |Login(user, pass)|;
    && WriteInside(0, first)
    && (user != [] ==> WriteInside(first, second))
    && WriteInside(first + second, 2)
  }

  lemma WriteInsideIff(used: nat, length: nat)
    requires used <= SIZE_MODULUS
    ensures WriteInside(used, length) <==> used <= BUF_SIZE
  {
    if used > BUF_SIZE {
      assert Limit(used) == BUF_SIZE - used + SIZE_MODULUS;
    }
  }

  /** The writes stay inside the buffer if and only if the bytes before the last one fit it. */
  lemma RequestInsideIff(t: Target, user: seq<byte>, pass: seq<byte>)
    requires 1 <= t.port && |Opening(t)| + |Login(user, pass)| < SIZE_MODULUS
    ensures RequestInside(t, user, pass) <==> |Opening(t)| + |Login(user, pass)| <= BUF_SIZE
  {
    hide WriteInside, Opening, Login;
    WriteInsideIff(0, |Opening(t)|);
    WriteInsideIff(|Opening(t)|, |Login(user, pass)|);
    WriteInsideIff(|Opening(t)| + |Login(user, pass)|, 2);
  }

  lemma Lengths(t: Target, user: seq<byte>, pass: seq<byte>)
    requires 1 <= t.port <= 65535 && |user| <= FIELD_MAX && |pass| <= FIELD_MAX
    ensures |Opening(t)| == 27 + 2 * |Authority(t)| && |t.host| + 2 <= |Authority(t)| <= |t.host| + 6
    ensures |Login(user, pass)| <= 369
  {
    DecimalLength(t.port);
    OpeningLength(t);
    LoginLength(user, pass);
    hide Decimal, Opening, Login;
  }

  lemma OpeningLength(t: Target)
    requires 1 <= t.port
    ensures |Opening(t)| == 27 + 2 * |Authority(t)|
  {
    hide Authority, Ascii;
  }

  lemma LoginLength(user: seq<byte>, pass: seq<byte>)
    requires |user| <= FIELD_MAX && |pass| <= FIELD_MAX
    ensures |Login(user, pass)| <= 369
  {
    hide Ascii, Base64.Encode;
    Base64.EncodedFits(user + [COLON] + pass);
  }

  /** Hosts of the configured size are always written and never refused for their length. */
  lemma ConfiguredHostFits(t: Target, user: seq<byte>, pass: seq<byte>)
    requires 1 <= t.port <= 65535 && |t.host| <= HOST_MAX && |user| <= FIELD_MAX && |pass| <= FIELD_MAX
    ensures RequestInside(t, user, pass) && |HttpConnect(t, user, pass)| < BUF_SIZE
  {
    Lengths(t, user, pass);
    hide Opening, Login, Authority;
    RequestInsideIff(t, user, pass);
  }

  /** A host of 5000 bytes passes the end of the buffer. */
  lemma LongHostPassesBuffer(t: Target)
    requires 1 <= t.port <= 65535 && |t.host| == 5000
    ensures !RequestInside(t, [], [])
  {
    Lengths(t, [], []);
    hide Opening, Login, Authority;
    RequestInsideIff(t, [], []);
  }
}
