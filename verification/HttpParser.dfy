/** The HTTP/1 request parser of the traffic inspector (sections 3 and 5 of
    RFC 9112): request line, up to 64 headers, and the start of the body. */
module HttpParser {
  import opened Bytes
  import opened CNumbers

  const SPACE: byte := 32
  const TAB: byte := 9
  const COLON: byte := 58
  const MAX_HEADERS := 64
  const METHOD_CAP := 15
  const URL_CAP := 2047
  const VERSION_CAP := 15
  const KEY_CAP := 255
  const VALUE_CAP := 4095
  const BODY_CAP := 262144
  const MIN_LENGTH := 10
  const CRLF: seq<byte> := [CR, LF]
  const SIZE_MODULUS := 0x1_0000_0000_0000_0000
  /** `Content-Length`. */
  const LENGTH_KEY: seq<byte> := [67, 111, 110, 116, 101, 110, 116, 45, 76, 101, 110, 103, 116, 104]

  datatype Header = Header(key: seq<byte>, value: seq<byte>)

  datatype Request = Request(
    verb: seq<byte>,
    url: seq<byte>,
    version: seq<byte>,
    headers: seq<Header>,
    contentLength: nat,
    headerEnd: nat,
    body: seq<byte>)

  // ----- Meaning

  function SkipBlanks(s: seq<byte>): (r: seq<byte>)
    ensures |r| <= |s|
  {
    if s != [] && (s[0] == SPACE || s[0] == TAB) then SkipBlanks(s[1..]) else s
  }

  function HeaderOf(line: seq<byte>, colon: nat): Header
    requires colon < |line|
  {
    Header(Cut(line[..colon], KEY_CAP), Cut(SkipBlanks(line[colon + 1..]), VALUE_CAP))
  }

  /** The headers of a header block, lines without a colon left out, at most `room` of them. */
  function Headers(s: seq<byte>, room: nat): (r: seq<Header>)
    ensures |r| <= room
    decreases |s|
  {
    if s == [] || room == 0 || CRLF <= s then []
    else
      var eol := IndexFrom(s, CR, 0);
      if eol == |s| then []
      else
        var rest := if eol + 2 <= |s| then s[eol + 2..] else [];
        var colon := IndexFrom(s[..eol], COLON, 0);
        if colon == eol then Headers(rest, room)
        else [HeaderOf(s[..eol], colon)] + Headers(rest, room - 1)
  }

  /** The header has the name, ignoring case; names end at a NUL. */
  predicate Named(h: Header, key: seq<byte>) {
    Fold(CText(h.key)) == Fold(key)
  }

  /** The value of the first header with a name. */
  function Find(headers: seq<Header>, key: seq<byte>): (r: Option<seq<byte>>)
    ensures r.None? ==> forall i :: 0 <= i < |headers| ==> !Named(headers[i], key)
    ensures r.Some? ==>
              exists i :: 0 <= i < |headers| && Named(headers[i], key) && r.value == headers[i].value
                          && forall j :: 0 <= j < i ==> !Named(headers[j], key)
  {
    if headers == [] then None
    else
      var r := Find(headers[..|headers| - 1], key);
      if r.Some? then r
      else if Named(headers[|headers| - 1], key) then Some(headers[|headers| - 1].value)
      else None
  }

  /** The length a message declares: `atol` of its first Content-Length value
      converted to 64 unsigned bits, or 0. */
  function DeclaredLength(headers: seq<Header>): nat {
    var v := Find(headers, LENGTH_KEY);
    if v.None? then 0 else Atol(CText(v.value)) % SIZE_MODULUS
  }

  /** What a buffer whose header ends at `end` means, if its first line has three parts. */
  function Parsed(buf: seq<byte>, end: nat): Option<Request>
    requires end <= |buf|
  {
    var eol := IndexFrom(buf, CR, 0);
    var line := buf[..eol];
    var sp1 := IndexFrom(line, SPACE, 0);
    if sp1 == eol || eol + 2 > end then None
    else
      var sp2 := IndexFrom(line, SPACE, sp1 + 1);
      if sp2 == eol then None
      else Some(Assembled(line, sp1, sp2, Headers(buf[eol + 2..end], MAX_HEADERS), end, buf[end..]))
  }

  /** The fields of a request, each cut to its buffer. */
  function Assembled(line: seq<byte>, sp1: nat, sp2: nat, headers: seq<Header>, end: nat, rest: seq<byte>): Request
    requires sp1 < sp2 < |line|
  {
    Request(
      Cut(line[..sp1], METHOD_CAP), Cut(line[sp1 + 1..sp2], URL_CAP), Cut(line[sp2 + 1..], VERSION_CAP),
      headers, DeclaredLength(headers), end, Cut(rest, BODY_CAP))
  }

  /** What a buffer means as a request, if it holds a complete header. */
  function Meaning(buf: seq<byte>): (r: Option<Request>)
    ensures r.Some? ==> r.value.headerEnd <= |buf|
  {
    var blank := FirstBlankLine(buf, 0);
    if |buf| < MIN_LENGTH || blank == |buf| then None else Parsed(buf, blank + 4)
  }

  // ----- The parser

  method SkipBlanksFrom(s: seq<byte>, start: nat, eol: nat) returns (val: nat)
    requires start <= eol <= |s|
    ensures start <= val <= eol && s[val..eol] == SkipBlanks(s[start..eol])
  {
    val := start;
    while val < eol && (s[val] == SPACE || s[val] == TAB)
      invariant start <= val <= eol && SkipBlanks(s[start..eol]) == SkipBlanks(s[val..eol])
    {
      assert s[val..eol][1..] == s[val + 1..eol];
      val := val + 1;
    }
  }

  /** Parses a header block whose last byte is not a CR, as every block cut at
      a blank line is: the cursor then never passes the end. */
  method ParseHeaders(s: seq<byte>) returns (headers: seq<Header>)
    requires s != [] && s[|s| - 1] != CR
    ensures headers == Headers(s, MAX_HEADERS)
  {
    hide Headers, IndexFrom, Cut, SkipBlanks;
    headers := [];
    var p := 0;
    assert s[0..] == s;
    ghost var todo := Headers(s, MAX_HEADERS);
    while p < |s| && |headers| < MAX_HEADERS
      invariant 0 <= p <= |s| && |headers| <= MAX_HEADERS
      invariant todo == Headers(s[p..], MAX_HEADERS - |headers|)
      invariant headers + todo == Headers(s, MAX_HEADERS)
      decreases |s| - p
    {
      if s[p] == CR && p + 1 < |s| && s[p + 1] == LF {
        break;
      }
      var eol := IndexFrom(s, CR, p);
      TailIndex(s, CR, p);
      if eol == |s| {
        break;
      }
      var colon := IndexFrom(s[..eol], COLON, p);
      HeaderStep(s, p, MAX_HEADERS - |headers|);
      if colon < eol {
        var val := SkipBlanksFrom(s, colon + 1, eol);
        var h := Header(Cut(s[p..colon], KEY_CAP), Cut(s[val..eol], VALUE_CAP));
        todo := todo[1..];
        headers := headers + [h];
      }
      p := eol + 2;
    }
    HeadersStop(s[p..], MAX_HEADERS - |headers|);
  }

  lemma {:induction false} TailIndex(s: seq<byte>, b: byte, p: nat)
    requires p <= |s|
    ensures IndexFrom(s[p..], b, 0) == IndexFrom(s, b, p) - p
  {
    var k := IndexFrom(s, b, p);
    assert forall i :: 0 <= i < k - p ==> s[p..][i] == s[p + i];
    IndexFromIs(s[p..], b, 0, k - p);
  }

  lemma {:induction false} HeadersUnfold(s: seq<byte>, room: nat)
    requires room > 0 && !(CRLF <= s) && IndexFrom(s, CR, 0) + 2 <= |s|
    ensures var eol := IndexFrom(s, CR, 0);
            var colon := IndexFrom(s[..eol], COLON, 0);
            Headers(s, room) ==
            if colon == eol then Headers(s[eol + 2..], room)
            else [HeaderOf(s[..eol], colon)] + Headers(s[eol + 2..], room - 1)
  {
    hide IndexFrom, HeaderOf;
  }

  /** One line of a header block, in terms of cursors. */
  lemma {:induction false} HeaderStep(s: seq<byte>, p: nat, room: nat)
    requires p < |s| && room > 0 && s[|s| - 1] != CR && IndexFrom(s, CR, p) < |s| && !(CRLF <= s[p..])
    ensures var eol := IndexFrom(s, CR, p);
            && p <= eol && eol + 2 <= |s|
            && var colon := IndexFrom(s[..eol], COLON, p);
               Headers(s[p..], room) ==
               if colon == eol then Headers(s[eol + 2..], room)
               else [Header(Cut(s[p..colon], KEY_CAP), Cut(SkipBlanks(s[colon + 1..eol]), VALUE_CAP))]
                    + Headers(s[eol + 2..], room - 1)
  {
    hide Headers, IndexFrom, Cut, SkipBlanks;
    var eol := IndexFrom(s, CR, p);
    var t := s[p..];
    TailIndex(s, CR, p);
    HeadersUnfold(t, room);
    assert t[..eol - p] == s[..eol][p..] == s[p..eol];
    TailIndex(s[..eol], COLON, p);
    assert t[eol - p + 2..] == s[eol + 2..];
    var colon := IndexFrom(s[..eol], COLON, p);
    if colon < eol {
      var line := s[p..eol];
      assert line[..colon - p] == s[p..colon];
      assert line[colon - p + 1..] == s[colon + 1..eol];
    }
  }

  lemma {:induction false} HeadersStop(s: seq<byte>, room: nat)
    requires s == [] || room == 0 || CRLF <= s || IndexFrom(s, CR, 0) == |s|
    ensures Headers(s, room) == []
  {
  }

  /** The offset behind the first blank line, or 0. */
  method FindHeaderEnd(buf: seq<byte>) returns (end: nat)
    ensures end == if FirstBlankLine(buf, 0) == |buf| then 0 else FirstBlankLine(buf, 0) + 4
  {
    var i := 0;
    while i + 3 < |buf|
      invariant 0 <= i && FirstBlankLine(buf, 0) == FirstBlankLine(buf, Min(i, |buf|))
    {
      if buf[i] == CR && buf[i + 1] == LF && buf[i + 2] == CR && buf[i + 3] == LF {
        return i + 4;
      }
      i := i + 1;
    }
    return 0;
  }

  /** The first CR comes no later than the blank line, so the header block
      behind it is not empty, and it ends in LF. */
  lemma BlockOf(buf: seq<byte>, end: nat)
    requires end >= 4 && BlankLine(buf, end - 4)
    ensures IndexFrom(buf, CR, 0) + 4 <= end <= |buf|
    ensures var s := buf[IndexFrom(buf, CR, 0) + 2..end]; s != [] && s[|s| - 1] != CR
  {
  }

  method ParseRequest(buf: seq<byte>) returns (r: Option<Request>)
    ensures r == Meaning(buf)
  {
    hide Parsed;
    if |buf| < MIN_LENGTH {
      return None;
    }
    var end := FindHeaderEnd(buf);
    if end == 0 {
      return None;
    }
    r := ParseParts(buf, end);
  }

  method ParseParts(buf: seq<byte>, end: nat) returns (r: Option<Request>)
    requires end >= 4 && BlankLine(buf, end - 4)
    ensures r == Parsed(buf, end)
  {
    var eol := IndexFrom(buf, CR, 0);
    BlockOf(buf, end);
    hide Headers, IndexFrom, BlankLine, Assembled;
    var line := buf[..eol];
    var sp1 := IndexFrom(line, SPACE, 0);
    if sp1 == eol {
      return None;
    }
    var sp2 := IndexFrom(line, SPACE, sp1 + 1);
    if sp2 == eol {
      return None;
    }
    var headers := ParseHeaders(buf[eol + 2..end]);
    var request := Fields(line, sp1, sp2, headers, end, buf[end..]);
    return Some(request);
  }

  method Fields(line: seq<byte>, sp1: nat, sp2: nat, headers: seq<Header>, end: nat, rest: seq<byte>)
      returns (r: Request)
    requires sp1 < sp2 < |line|
    ensures r == Assembled(line, sp1, sp2, headers, end, rest)
  {
    hide Cut, DeclaredLength;
    var contentLength := ReadLength(headers);
    r := Request(
      Cut(line[..sp1], METHOD_CAP), Cut(line[sp1 + 1..sp2], URL_CAP), Cut(line[sp2 + 1..], VERSION_CAP),
      headers, contentLength, end, Cut(rest, BODY_CAP));
  }

  method ReadLength(headers: seq<Header>) returns (n: nat)
    ensures n == DeclaredLength(headers)
  {
    hide Find, Atol, CText;
    n := 0;
    var cl := GetHeader(headers, LENGTH_KEY);
    if cl.Some? {
      n := Atol(CText(cl.value)) % SIZE_MODULUS;
    }
  }

  // ----- Printing

  predicate NoCr(s: seq<byte>) {
    CR !in s
  }

  predicate PrintableHeader(h: Header) {
    && NoCr(h.key) && COLON !in h.key
    && NoCr(h.value) && !StartsBlank(h.value)
  }

  predicate PrintableHeaders(hs: seq<Header>) {
    forall i :: 0 <= i < |hs| ==> PrintableHeader(hs[i])
  }

  /** Requests whose parts are told apart in print. */
  predicate Printable(r: Request) {
    && NoCr(r.verb) && SPACE !in r.verb && NoCr(r.url) && SPACE !in r.url && NoCr(r.version)
    && PrintableHeaders(r.headers)
  }

  /** What the parser has room for: cut fields, and the first `room` headers, cut likewise. */
  function Kept(r: Request): Request {
    r.(
      verb := Cut(r.verb, METHOD_CAP), url := Cut(r.url, URL_CAP), version := Cut(r.version, VERSION_CAP),
      headers := KeptHeaders(r.headers, MAX_HEADERS))
  }

  function KeptHeaders(hs: seq<Header>, room: nat): (r: seq<Header>)
    ensures |r| == Min(|hs|, room)
    ensures forall i :: 0 <= i < |r| ==> r[i] == Header(Cut(hs[i].key, KEY_CAP), Cut(hs[i].value, VALUE_CAP))
  {
    if hs == [] || room == 0 then []
    else [Header(Cut(hs[0].key, KEY_CAP), Cut(hs[0].value, VALUE_CAP))] + KeptHeaders(hs[1..], room - 1)
  }

  /** Everything within the limits is kept as it is. */
  predicate Small(r: Request) {
    && |r.verb| <= METHOD_CAP && |r.url| <= URL_CAP && |r.version| <= VERSION_CAP && |r.headers| <= MAX_HEADERS
    && forall i :: 0 <= i < |r.headers| ==> |r.headers[i].key| <= KEY_CAP && |r.headers[i].value| <= VALUE_CAP
  }

  lemma SmallIsKept(r: Request)
    requires Small(r)
    ensures Kept(r) == r
  {
    hide KeptHeaders;
    var hs, kept := r.headers, KeptHeaders(r.headers, MAX_HEADERS);
    assert forall i :: 0 <= i < |hs| ==> kept[i] == Header(hs[i].key, hs[i].value) == hs[i];
    assert kept == hs;
  }

  function RequestLine(r: Request): seq<byte> {
    r.verb + [SPACE] + r.url + [SPACE] + r.version
  }

  function HeaderLine(h: Header): (r: seq<byte>)
    ensures r != []
  {
    h.key + [COLON, SPACE] + h.value
  }

  function PrintHeaders(hs: seq<Header>): seq<byte> {
    if hs == [] then [] else HeaderLine(hs[0]) + CRLF + PrintHeaders(hs[1..])
  }

  function Print(r: Request): seq<byte> {
    RequestLine(r) + CRLF + (PrintHeaders(r.headers) + CRLF + r.body)
  }

  // ----- Parsing inverts printing

  /** A non-empty line without CR holds no blank line, and hands the search on. */
  lemma BlankAfterLine(line: seq<byte>, rest: seq<byte>, k: nat)
    requires NoCr(line) && rest != [] && rest[0] != CR
    requires BlankLine(rest, k) && forall j :: 0 <= j < k ==> !BlankLine(rest, j)
    ensures var t := line + CRLF + rest;
            BlankLine(t, |line| + 2 + k) && forall j :: 0 <= j < |line| + 2 + k ==> !BlankLine(t, j)
  {
    var t := line + CRLF + rest;
    var n := |line| + 2;
    assert forall i :: 0 <= i < |rest| ==> t[n + i] == rest[i];
    forall j | 0 <= j < n + k
      ensures !BlankLine(t, j)
    {
      if j < |line| {
        assert t[j] == line[j] && line[j] in line;
      } else if j >= n {
        assert !BlankLine(rest, j - n);
        assert forall i :: j <= i < |t| ==> t[i] == rest[i - n];
      }
    }
  }

  lemma BlankAtEnd(line: seq<byte>, body: seq<byte>)
    requires NoCr(line)
    ensures var t := line + CRLF + (CRLF + body);
            BlankLine(t, |line|) && forall j :: 0 <= j < |line| ==> !BlankLine(t, j)
  {
    var t := line + CRLF + (CRLF + body);
    assert forall j :: 0 <= j < |line| ==> t[j] == line[j] && line[j] in line;
  }

  /** The first blank line of printed lines is the one that ends them. */
  lemma {:induction false} BlankOfPrinted(line: seq<byte>, hs: seq<Header>, body: seq<byte>)
    requires NoCr(line) && PrintableHeaders(hs)
    ensures var t := line + CRLF + (PrintHeaders(hs) + CRLF + body);
            var k := |line| + |PrintHeaders(hs)|;
            BlankLine(t, k) && forall j :: 0 <= j < k ==> !BlankLine(t, j)
    decreases |hs|
  {
    if hs == [] {
      BlankAtEnd(line, body);
      assert [] + CRLF + body == CRLF + body;
    } else {
      hide BlankLine, HeaderLine;
      var h := HeaderLine(hs[0]);
      HeaderLineNoCr(hs[0]);
      BlankOfPrinted(h, hs[1..], body);
      var rest := h + CRLF + (PrintHeaders(hs[1..]) + CRLF + body);
      Assoc(h + CRLF, PrintHeaders(hs[1..]), CRLF);
      Assoc(h + CRLF, PrintHeaders(hs[1..]) + CRLF, body);
      assert rest == PrintHeaders(hs) + CRLF + body;
      assert rest[0] == h[0] && h[0] in h;
      BlankAfterLine(line, rest, |h| + |PrintHeaders(hs[1..])|);
    }
  }

  lemma HeaderLineNoCr(h: Header)
    requires PrintableHeader(h)
    ensures NoCr(HeaderLine(h))
  {
  }

  lemma HeaderOfLine(h: Header)
    requires PrintableHeader(h)
    ensures |h.key| < |HeaderLine(h)|
    ensures IndexFrom(HeaderLine(h), COLON, 0) == |h.key|
    ensures HeaderOf(HeaderLine(h), |h.key|) == Header(Cut(h.key, KEY_CAP), Cut(h.value, VALUE_CAP))
  {
    hide Cut;
    var l := HeaderLine(h);
    assert forall i :: 0 <= i < |h.key| ==> l[i] == h.key[i] && h.key[i] in h.key;
    IndexFromIs(l, COLON, 0, |h.key|);
    assert l[..|h.key|] == h.key;
    var v := l[|h.key| + 1..];
    assert v == [SPACE] + h.value && v[1..] == h.value;
    assert SkipBlanks(h.value) == h.value;
  }

  lemma EolOfLine(line: seq<byte>, rest: seq<byte>)
    requires NoCr(line)
    ensures var t := line + CRLF + rest;
            IndexFrom(t, CR, 0) == |line| && t[..|line|] == line && t[|line| + 2..] == rest
  {
    var t := line + CRLF + rest;
    assert forall i :: 0 <= i < |line| ==> t[i] == line[i] && line[i] in line;
    IndexFromIs(t, CR, 0, |line|);
  }

  lemma {:induction false} HeadersOfLine(h: Header, rest: seq<byte>, room: nat)
    requires PrintableHeader(h) && room > 0
    ensures Headers(HeaderLine(h) + CRLF + rest, room) ==
            [Header(Cut(h.key, KEY_CAP), Cut(h.value, VALUE_CAP))] + Headers(rest, room - 1)
  {
    hide Cut, HeaderLine, HeaderOf, Headers, IndexFrom, PrintableHeader;
    var l := HeaderLine(h);
    var t := l + CRLF + rest;
    HeaderLineNoCr(h);
    EolOfLine(l, rest);
    HeaderOfLine(h);
    assert t[0] == l[0] && l[0] in l;
    HeadersUnfold(t, room);
  }

  /** Printed headers are recovered in order, as far as there is room. */
  lemma {:induction false} HeadersOfPrinted(hs: seq<Header>, room: nat)
    requires PrintableHeaders(hs)
    ensures Headers(PrintHeaders(hs) + CRLF, room) == KeptHeaders(hs, room)
    decreases |hs|
  {
    hide HeaderLine, Headers, PrintableHeader, Cut;
    if hs == [] || room == 0 {
      HeadersStop(PrintHeaders(hs) + CRLF, room);
    } else {
      HeadersOfLine(hs[0], PrintHeaders(hs[1..]) + CRLF, room);
      Assoc(HeaderLine(hs[0]) + CRLF, PrintHeaders(hs[1..]), CRLF);
      HeadersOfPrinted(hs[1..], room - 1);
    }
  }

  /** A line without a colon is passed over. */
  lemma {:induction false} LineWithoutColon(line: seq<byte>, rest: seq<byte>, room: nat)
    requires line != [] && NoCr(line) && COLON !in line
    ensures Headers(line + CRLF + rest, room) == Headers(rest, room)
  {
    hide Headers;
    var t := line + CRLF + rest;
    if room == 0 {
      HeadersStop(t, room);
      HeadersStop(rest, room);
    } else {
      EolOfLine(line, rest);
      IndexFromIs(line, COLON, 0, |line|);
      assert t[0] == line[0] && line[0] in line;
      HeadersUnfold(t, room);
    }
  }

  lemma RequestLineSplit(r: Request)
    requires Printable(r)
    ensures var l := RequestLine(r);
            var sp1 := |r.verb|;
            var sp2 := sp1 + 1 + |r.url|;
            && NoCr(l) && sp2 < |l|
            && IndexFrom(l, SPACE, 0) == sp1 && IndexFrom(l, SPACE, sp1 + 1) == sp2
            && l[..sp1] == r.verb && l[sp1 + 1..sp2] == r.url && l[sp2 + 1..] == r.version
  {
    hide IndexFrom;
    var l := RequestLine(r);
    FieldEnds([], r.verb, SPACE, r.url + [SPACE] + r.version);
    assert [] + r.verb == r.verb;
    Assoc(r.verb + [SPACE], r.url, [SPACE]);
    Assoc(r.verb + [SPACE], r.url + [SPACE], r.version);
    FieldEnds(r.verb + [SPACE], r.url, SPACE, r.version);
    assert l[0..|r.verb|] == l[..|r.verb|];
  }

  /** Round trip: every field and header comes back in order, cut to its
      limit, the length is the declared one, the header ends where the body
      begins, of which the first 256 KB are kept; only requests under 10 bytes
      are refused. */
  lemma ParsePrinted(r: Request)
    requires Printable(r)
    ensures Meaning(Print(r)) ==
            if |Print(r)| < MIN_LENGTH then None
            else Some(Kept(r).(
              headerEnd := |Print(r)| - |r.body|,
              contentLength := DeclaredLength(KeptHeaders(r.headers, MAX_HEADERS)),
              body := Cut(r.body, BODY_CAP)))
  {
    hide Cut, KeptHeaders, RequestLine, PrintHeaders, Headers, BlankLine, PrintableHeaders, DeclaredLength;
    var l := RequestLine(r);
    var block := PrintHeaders(r.headers) + CRLF;
    var buf := Print(r);
    RequestLineSplit(r);
    EolOfLine(l, block + r.body);
    BlankOfPrinted(l, r.headers, r.body);
    FirstOfPrefix(buf, buf, |l| + |PrintHeaders(r.headers)|);
    var end := |l| + 2 + |block|;
    assert buf == (l + CRLF + block) + r.body;
    assert buf[|l| + 2..end] == block && buf[end..] == r.body;
    HeadersOfPrinted(r.headers, MAX_HEADERS);
  }

  // ----- What is parsed, and what every parsed request satisfies

  /** Exactly buffers of at least 10 bytes with a blank line and two blanks in
      front of the first CR are parsed. */
  lemma ParsedIff(buf: seq<byte>)
    ensures Meaning(buf).Some? <==>
            && |buf| >= MIN_LENGTH && (exists k :: 0 <= k < |buf| && BlankLine(buf, k))
            && exists i, j :: 0 <= i < j < |buf| && buf[i] == buf[j] == SPACE && CR !in buf[..j]
  {
    hide Headers, DeclaredLength, Assembled;
    var eol := IndexFrom(buf, CR, 0);
    var line := buf[..eol];
    if i, j :| 0 <= i < j < |buf| && buf[i] == buf[j] == SPACE && CR !in buf[..j] {
      assert forall k :: 0 <= k < j ==> buf[..j][k] == buf[k];
      assert j < eol && line[i] == line[j] == SPACE;
    }
    if Meaning(buf).Some? {
      var sp1 := IndexFrom(line, SPACE, 0);
      var sp2 := IndexFrom(line, SPACE, sp1 + 1);
      assert buf[sp1] == buf[sp2] == SPACE && CR !in buf[..sp2];
    }
  }

  predicate StartsBlank(s: seq<byte>) {
    s != [] && (s[0] == SPACE || s[0] == TAB)
  }

  lemma {:induction false} SkipBlanksStarts(s: seq<byte>)
    ensures !StartsBlank(SkipBlanks(s))
    decreases |s|
  {
    if StartsBlank(s) {
      SkipBlanksStarts(s[1..]);
    }
  }

  lemma {:induction false} HeaderValuesStart(s: seq<byte>, room: nat)
    ensures forall i :: 0 <= i < |Headers(s, room)| ==> !StartsBlank(Headers(s, room)[i].value)
    decreases |s|
  {
    hide StartsBlank, SkipBlanks;
    if s != [] && room > 0 && !(CRLF <= s) && IndexFrom(s, CR, 0) < |s| {
      var eol := IndexFrom(s, CR, 0);
      var rest := if eol + 2 <= |s| then s[eol + 2..] else [];
      var colon := IndexFrom(s[..eol], COLON, 0);
      HeaderValuesStart(rest, room);
      if colon < eol {
        HeaderValuesStart(rest, room - 1);
        HeaderValueStarts(s[..eol], colon);
      }
    }
  }

  lemma HeaderValueStarts(line: seq<byte>, colon: nat)
    requires colon < |line|
    ensures !StartsBlank(HeaderOf(line, colon).value)
  {
    hide SkipBlanks;
    SkipBlanksStarts(line[colon + 1..]);
  }

  /** The url holds no blank and no CR, and no header value starts with a blank. */
  lemma MeaningFields(buf: seq<byte>)
    requires Meaning(buf).Some?
    ensures var r := Meaning(buf).value;
            && NoCr(r.url) && SPACE !in r.url
            && forall i :: 0 <= i < |r.headers| ==> !StartsBlank(r.headers[i].value)
  {
    hide Headers, StartsBlank, FirstBlankLine, DeclaredLength;
    var end := FirstBlankLine(buf, 0) + 4;
    var eol := IndexFrom(buf, CR, 0);
    HeaderValuesStart(buf[eol + 2..end], MAX_HEADERS);
  }

  // ----- Header lookup

  /** A header has the name when their C strings agree ignoring case: a lookup
      yields the value of the first such header, and nothing if there is none. */
  lemma FindIff(headers: seq<Header>, key: seq<byte>)
    ensures Find(headers, key).None? <==>
            forall i :: 0 <= i < |headers| ==> Fold(CText(headers[i].key)) != Fold(key)
    ensures forall i :: 0 <= i < |headers| && Fold(CText(headers[i].key)) == Fold(key)
              && (forall j :: 0 <= j < i ==> Fold(CText(headers[j].key)) != Fold(key))
              ==> Find(headers, key) == Some(headers[i].value)
  {
    hide Fold, CText;
  }

  method GetHeader(headers: seq<Header>, key: seq<byte>) returns (r: Option<seq<byte>>)
    ensures r == Find(headers, key)
  {
    hide Named;
    var i := 0;
    while i < |headers|
      invariant 0 <= i <= |headers| && Find(headers[..i], key) == None
    {
      assert headers[..i + 1][..i] == headers[..i];
      if Named(headers[i], key) {
        FindInPrefix(headers, key, i + 1);
        return Some(headers[i].value);
      }
      i := i + 1;
    }
    assert headers[..i] == headers;
    return None;
  }

  lemma {:induction false} FindInPrefix(headers: seq<Header>, key: seq<byte>, n: nat)
    requires n <= |headers| && Find(headers[..n], key).Some?
    ensures Find(headers, key) == Find(headers[..n], key)
    decreases |headers|
  {
    if n < |headers| {
      assert headers[..|headers| - 1][..n] == headers[..n];
      FindInPrefix(headers[..|headers| - 1], key, n);
    } else {
      assert headers[..n] == headers;
    }
  }

  /** Without the header the declared length is 0. */
  lemma NoLength(headers: seq<Header>)
    requires forall i :: 0 <= i < |headers| ==> Fold(CText(headers[i].key)) != Fold(LENGTH_KEY)
    ensures DeclaredLength(headers) == 0
  {
    hide Find, Fold, Number;
    FindIff(headers, LENGTH_KEY);
  }

  /** A length written in decimal behind any headers of other names is read back. */
  lemma LengthReadBack(before: seq<Header>, key: seq<byte>, n: nat, after: seq<Header>)
    requires forall i :: 0 <= i < |before| ==> Fold(CText(before[i].key)) != Fold(LENGTH_KEY)
    requires Fold(key) == Fold(LENGTH_KEY) && 0 !in key && n <= LONG_MAX
    ensures DeclaredLength(before + [Header(key, Decimal(n))] + after) == n
  {
    FindIff(before, LENGTH_KEY);
    hide Find, Fold, Decimal, Number;
    var h := Header(key, Decimal(n));
    var all := before + [h] + after;
    WholeText(key);
    WholeText(Decimal(n));
    FindNext(before, h, LENGTH_KEY);
    assert all[..|before| + 1] == before + [h];
    FindInPrefix(all, LENGTH_KEY, |before| + 1);
    NumberOfDecimal(n);
  }

  lemma FindNext(before: seq<Header>, h: Header, key: seq<byte>)
    requires Find(before, key).None? && Named(h, key)
    ensures Find(before + [h], key) == Some(h.value)
  {
    hide Named;
    assert (before + [h])[..|before|] == before;
  }
}
