/** Extraction of the server name from a TLS ClientHello (section 4.1.2 of
    RFC 8446, section 3 of RFC 6066). */
module Sni {
  import opened Bytes

  const HANDSHAKE: byte := 22
  const TLS_MAJOR: byte := 3
  const CLIENT_HELLO: byte := 1
  const SERVER_NAME := 0
  const HOST_NAME: byte := 0

  // ----- Reading

  /** What follows a vector with a one-byte length. */
  function Skip8(s: seq<byte>): Option<seq<byte>> {
    if |s| < 1 || |s| < 1 + U8(s, 0) then None else Some(s[1 + U8(s, 0)..])
  }

  /** What follows a vector with a two-byte length. */
  function Skip16(s: seq<byte>): Option<seq<byte>> {
    if |s| < 2 || |s| < 2 + U16(s, 0) then None else Some(s[2 + U16(s, 0)..])
  }

  /** The contents of a vector with a two-byte length. */
  function Take16(s: seq<byte>): (r: Option<seq<byte>>)
    ensures r.Some? ==> |r.value| + 2 <= |s|
  {
    if |s| < 2 || |s| < 2 + U16(s, 0) then None else Some(s[2..2 + U16(s, 0)])
  }

  /** A record that starts a ClientHello and is present in full. */
  predicate Opens(d: seq<byte>) {
    && |d| >= 9 && d[0] == HANDSHAKE && d[1] == TLS_MAJOR && |d| >= 5 + U16(d, 3)
    && d[5] == CLIENT_HELLO
  }

  /** The extension block: behind version, random, session id, ciphers and compression. */
  function Extensions(d: seq<byte>): (r: Option<seq<byte>>)
    ensures r.Some? ==> |r.value| <= |d|
  {
    if !Opens(d) || |d| < 43 then None
    else
      var s1 := Skip8(d[43..]);
      if s1.None? then None
      else
        var s2 := Skip16(s1.value);
        if s2.None? then None
        else
          var s3 := Skip8(s2.value);
          if s3.None? then None else Take16(s3.value)
  }

  /** The first host name in the body of a server_name extension. */
  function HostName(body: seq<byte>): Option<seq<byte>> {
    if |body| < 5 || body[2] != HOST_NAME || |body| < 5 + U16(body, 3) || U16(body, 3) == 0 then None
    else Some(body[5..5 + U16(body, 3)])
  }

  /** The host name of the first server_name extension in a block. */
  function FindName(e: seq<byte>): Option<seq<byte>>
    decreases |e|
  {
    if |e| < 4 then None
    else
      var body := Take16(e[2..]);
      if body.None? then None
      else if U16(e, 0) == SERVER_NAME then HostName(body.value)
      else FindName(e[4 + |body.value|..])
  }

  function ServerName(d: seq<byte>): Option<seq<byte>> {
    var e := Extensions(d);
    if e.None? then None else FindName(e.value)
  }

  // ----- Writing

  datatype Extension = Extension(kind: nat, body: seq<byte>)

  datatype Hello = Hello(
    minor: byte,
    version: seq<byte>,
    random: seq<byte>,
    session: seq<byte>,
    ciphers: seq<byte>,
    compression: seq<byte>,
    extensions: seq<Extension>)

  function Two(n: nat): seq<byte>
    requires n < 65536
  {
    [n / 256, n % 256]
  }

  function Vector8(s: seq<byte>): seq<byte>
    requires |s| < 256
  {
    [|s|] + s
  }

  function Vector16(s: seq<byte>): seq<byte>
    requires |s| < 65536
  {
    Two(|s|) + s
  }

  predicate Encodable(x: Extension) {
    x.kind < 65536 && |x.body| < 65536
  }

  predicate AllEncodable(xs: seq<Extension>) {
    forall i :: 0 <= i < |xs| ==> Encodable(xs[i])
  }

  function EncodeExtensions(xs: seq<Extension>): seq<byte>
    requires AllEncodable(xs)
  {
    if xs == [] then [] else Two(xs[0].kind) + (Vector16(xs[0].body) + EncodeExtensions(xs[1..]))
  }

  /** Everything behind the random of a ClientHello. */
  function Tail(h: Hello): seq<byte>
    requires |h.session| < 256 && |h.ciphers| < 65536 && |h.compression| < 256
    requires AllEncodable(h.extensions) && |EncodeExtensions(h.extensions)| < 65536
  {
    Vector8(h.session) + (Vector16(h.ciphers) + (Vector8(h.compression) + Vector16(EncodeExtensions(h.extensions))))
  }

  predicate Writable(h: Hello) {
    && |h.version| == 2 && |h.random| == 32
    && |h.session| < 256 && |h.ciphers| < 65536 && |h.compression| < 256
    && AllEncodable(h.extensions) && |EncodeExtensions(h.extensions)| < 65536
    && 38 + |Tail(h)| < 65536
  }

  /** Record type, version and length; handshake type and length; version and random. */
  function Head(h: Hello, n: nat): (r: seq<byte>)
    requires |h.version| == 2 && |h.random| == 32 && 4 + n < 65536
    ensures |r| == 43
  {
    [HANDSHAKE, TLS_MAJOR, h.minor] + Two(4 + n) + [CLIENT_HELLO, 0] + Two(n) + h.version + h.random
  }

  function EncodeHello(h: Hello): seq<byte>
    requires Writable(h)
  {
    Head(h, 34 + |Tail(h)|) + Tail(h)
  }

  function EncodeServerName(name: seq<byte>, more: seq<byte>): seq<byte>
    requires 3 + |name| + |more| < 65536
  {
    Two(3 + |name| + |more|) + ([HOST_NAME] + (Vector16(name) + more))
  }

  /** The server_name extension a parser should use. */
  function FirstServerName(xs: seq<Extension>): Option<Extension> {
    if xs == [] then None
    else if xs[0].kind == SERVER_NAME then Some(xs[0])
    else FirstServerName(xs[1..])
  }

  // ----- Extraction inverts encoding

  lemma Skip8Vector(s: seq<byte>, rest: seq<byte>)
    requires |s| < 256
    ensures Skip8(Vector8(s) + rest) == Some(rest)
  {
    assert (Vector8(s) + rest)[1 + |s|..] == rest;
  }

  lemma Vector16Read(s: seq<byte>, rest: seq<byte>)
    requires |s| < 65536
    ensures Skip16(Vector16(s) + rest) == Some(rest)
    ensures Take16(Vector16(s) + rest) == Some(s)
  {
    var t := Vector16(s) + rest;
    assert U16(t, 0) == |s|;
    assert t[2 + |s|..] == rest && t[2..2 + |s|] == s;
  }

  lemma {:induction false} FindNameEncoded(xs: seq<Extension>)
    requires AllEncodable(xs)
    ensures FindName(EncodeExtensions(xs)) ==
            var x := FirstServerName(xs); if x.None? then None else HostName(x.value.body)
    decreases |xs|
  {
    hide HostName, Take16, Vector16;
    if xs != [] {
      var e := EncodeExtensions(xs);
      var rest := EncodeExtensions(xs[1..]);
      Vector16Read(xs[0].body, rest);
      Vector16Length(xs[0].body);
      assert e[2..] == Vector16(xs[0].body) + rest;
      assert U16(e, 0) == xs[0].kind;
      assert e[4 + |xs[0].body|..] == rest;
      FindNameEncoded(xs[1..]);
    }
  }

  lemma Vector16Length(s: seq<byte>)
    requires |s| < 65536
    ensures |Vector16(s)| == 2 + |s|
  {
  }

  lemma HeadOpens(h: Hello, n: nat, tail: seq<byte>)
    requires |h.version| == 2 && |h.random| == 32 && 4 + n < 65536 && |tail| + 34 >= n
    ensures var d := Head(h, n) + tail; Opens(d) && d[43..] == tail
  {
    var d := Head(h, n) + tail;
    assert d[3] == (4 + n) / 256 && d[4] == (4 + n) % 256 && d[5] == CLIENT_HELLO;
  }

  /** Behind the random come the four vectors. */
  lemma TailRead(h: Hello, junk: seq<byte>)
    requires Writable(h)
    ensures var e := EncodeExtensions(h.extensions);
            var s3 := Vector16(e) + junk;
            var s2 := Vector8(h.compression) + s3;
            var s1 := Vector16(h.ciphers) + s2;
            && Skip8(Tail(h) + junk) == Some(s1) && Skip16(s1) == Some(s2)
            && Skip8(s2) == Some(s3) && Take16(s3) == Some(e)
  {
    hide Vector8, Vector16, EncodeExtensions, Skip8, Skip16, Take16;
    var e := EncodeExtensions(h.extensions);
    var s3 := Vector16(e) + junk;
    var s2 := Vector8(h.compression) + s3;
    var s1 := Vector16(h.ciphers) + s2;
    Assoc(Vector8(h.session), Vector16(h.ciphers) + (Vector8(h.compression) + Vector16(e)), junk);
    Assoc(Vector16(h.ciphers), Vector8(h.compression) + Vector16(e), junk);
    Assoc(Vector8(h.compression), Vector16(e), junk);
    Skip8Vector(h.session, s1);
    Vector16Read(h.ciphers, s2);
    Skip8Vector(h.compression, s3);
    Vector16Read(e, junk);
  }

  lemma ExtensionsEncoded(h: Hello, junk: seq<byte>)
    requires Writable(h)
    ensures Extensions(EncodeHello(h) + junk) == Some(EncodeExtensions(h.extensions))
  {
    hide Vector8, Vector16, EncodeExtensions, Skip8, Skip16, Take16, Opens, Head, Tail;
    Assoc(Head(h, 34 + |Tail(h)|), Tail(h), junk);
    HeadOpens(h, 34 + |Tail(h)|, Tail(h) + junk);
    TailRead(h, junk);
  }

  /** For any session id, ciphers, extensions and following bytes the result
      is the host name in the first server_name extension. */
  lemma ExtractEncoded(h: Hello, junk: seq<byte>)
    requires Writable(h)
    ensures ServerName(EncodeHello(h) + junk) ==
            var x := FirstServerName(h.extensions); if x.None? then None else HostName(x.value.body)
  {
    hide Extensions, FindName;
    ExtensionsEncoded(h, junk);
    FindNameEncoded(h.extensions);
  }

  lemma HostNameEncoded(name: seq<byte>, more: seq<byte>)
    requires 3 + |name| + |more| < 65536
    ensures HostName(EncodeServerName(name, more)) == if name == [] then None else Some(name)
  {
    var b := EncodeServerName(name, more);
    assert b[2] == HOST_NAME && U16(b, 3) == |name|;
    assert b[5..5 + |name|] == name;
  }

  // ----- Only such messages yield a name

  lemma TwoOf(s: seq<byte>)
    requires |s| >= 2
    ensures Two(U16(s, 0)) == s[..2]
  {
    assert U16(s, 0) / 256 == s[0] && U16(s, 0) % 256 == s[1];
  }

  lemma Skipped8(s: seq<byte>) returns (v: seq<byte>)
    requires Skip8(s).Some?
    ensures |v| < 256 && s == Vector8(v) + Skip8(s).value
  {
    v := s[1..1 + U8(s, 0)];
  }

  lemma Skipped16(s: seq<byte>) returns (v: seq<byte>)
    requires Skip16(s).Some?
    ensures |v| < 65536 && s == Vector16(v) + Skip16(s).value
  {
    v := s[2..2 + U16(s, 0)];
    TwoOf(s);
  }

  lemma Taken16(s: seq<byte>) returns (v: seq<byte>, rest: seq<byte>)
    requires Take16(s).Some?
    ensures |v| < 65536 && s == Vector16(v) + rest && Take16(s) == Some(v)
  {
    v, rest := s[2..2 + U16(s, 0)], s[2 + U16(s, 0)..];
    TwoOf(s);
  }

  /** The body of a server_name extension whose first name is the given one. */
  ghost predicate NamesHost(body: seq<byte>, name: seq<byte>) {
    0 < |name| < 65536 && exists a, b, more :: body == [a, b, HOST_NAME] + (Vector16(name) + more)
  }

  lemma HostNamed(body: seq<byte>)
    requires HostName(body).Some?
    ensures NamesHost(body, HostName(body).value)
  {
    var n := U16(body, 3);
    TwoOf(body[3..]);
    var name, more := body[5..5 + n], body[5 + n..];
    assert body[3..] == Vector16(name) + more;
    assert body == [body[0], body[1], HOST_NAME] + body[3..];
  }

  /** A block with a server_name extension in front of which there is none. */
  ghost predicate NamesFirst(e: seq<byte>, name: seq<byte>) {
    exists xs: seq<Extension>, body: seq<byte>, rest: seq<byte> ::
      && AllEncodable(xs) && (forall i :: 0 <= i < |xs| ==> xs[i].kind != SERVER_NAME) && |body| < 65536
      && NamesHost(body, name) && e == EncodeExtensions(xs) + (Two(SERVER_NAME) + (Vector16(body) + rest))
  }

  lemma {:induction false} FoundFirst(e: seq<byte>)
    requires FindName(e).Some?
    ensures NamesFirst(e, FindName(e).value)
    decreases |e|
  {
    hide HostName, Take16, Vector16, Two, NamesHost;
    var body, rest := Taken16(e[2..]);
    TwoOf(e);
    assert e == e[..2] + e[2..];
    if U16(e, 0) == SERVER_NAME {
      HostNamed(body);
      assert e == EncodeExtensions([]) + (Two(SERVER_NAME) + (Vector16(body) + rest));
    } else {
      Vector16Length(body);
      assert e[4 + |body|..] == rest;
      FoundFirst(rest);
      OneBefore(U16(e, 0), body, rest, FindName(rest).value);
    }
  }

  lemma OneBefore(kind: nat, body: seq<byte>, rest: seq<byte>, name: seq<byte>)
    requires kind != SERVER_NAME && kind < 65536 && |body| < 65536 && NamesFirst(rest, name)
    ensures NamesFirst(Two(kind) + (Vector16(body) + rest), name)
  {
    hide Vector16, Two, NamesHost;
    var xs: seq<Extension>, b: seq<byte>, r: seq<byte> :|
      && AllEncodable(xs) && (forall i :: 0 <= i < |xs| ==> xs[i].kind != SERVER_NAME) && |b| < 65536
      && NamesHost(b, name) && rest == EncodeExtensions(xs) + (Two(SERVER_NAME) + (Vector16(b) + r));
    var ys := [Extension(kind, body)] + xs;
    assert ys[1..] == xs;
    Assoc(Vector16(body), EncodeExtensions(xs), Two(SERVER_NAME) + (Vector16(b) + r));
    Assoc(Two(kind), Vector16(body) + EncodeExtensions(xs), Two(SERVER_NAME) + (Vector16(b) + r));
    assert Two(kind) + (Vector16(body) + rest) == EncodeExtensions(ys) + (Two(SERVER_NAME) + (Vector16(b) + r));
  }

  /** A record of type handshake that is there in full, with a ClientHello: 43
      bytes up to the end of the random, then session, ciphers, compression
      and a block that names the host. */
  ghost predicate IsHello(d: seq<byte>, name: seq<byte>) {
    && |d| >= 43 && d[0] == 22 && d[1] == 3 && |d| >= 5 + (d[3] as int * 256 + d[4] as int) && d[5] == 1
    && exists session: seq<byte>, ciphers: seq<byte>, compression: seq<byte>, block: seq<byte>, junk: seq<byte> ::
         && |session| < 256 && |ciphers| < 65536 && |compression| < 256 && |block| < 65536
         && d[43..] == Vector8(session) + (Vector16(ciphers) + (Vector8(compression) + (Vector16(block) + junk)))
         && NamesFirst(block, name)
  }

  /** Whatever yields a name is such a message. */
  lemma FoundIsHello(d: seq<byte>)
    requires ServerName(d).Some?
    ensures IsHello(d, ServerName(d).value)
  {
    hide Skip8, Skip16, Take16, FindName, NamesFirst, Vector8, Vector16;
    var session := Skipped8(d[43..]);
    var s1 := Skip8(d[43..]).value;
    var ciphers := Skipped16(s1);
    var s2 := Skip16(s1).value;
    var compression := Skipped8(s2);
    var block, junk := Taken16(Skip8(s2).value);
    FoundFirst(block);
    assert d[43..] == Vector8(session) + (Vector16(ciphers) + (Vector8(compression) + (Vector16(block) + junk)));
  }

  // ----- Longer input

  lemma Skip8Longer(s: seq<byte>, x: seq<byte>)
    requires Skip8(s).Some?
    ensures Skip8(s + x) == Some(Skip8(s).value + x)
  {
    assert (s + x)[1 + U8(s, 0)..] == s[1 + U8(s, 0)..] + x;
  }

  lemma Skip16Longer(s: seq<byte>, x: seq<byte>)
    requires Skip16(s).Some?
    ensures Skip16(s + x) == Some(Skip16(s).value + x)
  {
    assert (s + x)[2 + U16(s, 0)..] == s[2 + U16(s, 0)..] + x;
  }

  lemma Take16Longer(s: seq<byte>, x: seq<byte>)
    requires Take16(s).Some?
    ensures Take16(s + x) == Take16(s)
  {
    assert (s + x)[2..2 + U16(s, 0)] == s[2..2 + U16(s, 0)];
  }

  /** Bytes that arrive later never change a name once found. */
  lemma FoundNameStays(d: seq<byte>, x: seq<byte>)
    requires ServerName(d).Some?
    ensures ServerName(d + x) == ServerName(d)
  {
    hide Skip8, Skip16, Take16, FindName;
    var s0 := d[43..];
    var s1 := Skip8(s0).value;
    var s2 := Skip16(s1).value;
    var s3 := Skip8(s2).value;
    assert (d + x)[43..] == s0 + x;
    Skip8Longer(s0, x);
    Skip16Longer(s1, x);
    Skip8Longer(s2, x);
    Take16Longer(s3, x);
  }

  // ----- The parser with its moving offset

  /** Walks the record with one offset; returns the bounds of the extension block. */
  method LocateExtensions(data: seq<byte>) returns (ok: bool, off: nat, end: nat)
    ensures ok == Extensions(data).Some?
    ensures ok ==> off <= end <= |data| && data[off..end] == Extensions(data).value
  {
    ok, off, end := false, 0, 0;
    if |data| < 5 || data[0] != HANDSHAKE || data[1] != TLS_MAJOR {
      return;
    }
    if 5 + U16(data, 3) > |data| || 9 > |data| || data[5] != CLIENT_HELLO {
      return;
    }
    off := 9;
    if off + 2 > |data| {
      return;
    }
    off := off + 2;
    if off + 32 > |data| {
      return;
    }
    off := off + 32;
    ok, off := SkipShort(data, off);
    if !ok {
      return;
    }
    ok, off := SkipLong(data, off);
    if !ok {
      return;
    }
    ok, off := SkipShort(data, off);
    if !ok {
      return;
    }
    if off + 2 > |data| {
      return false, off, off;
    }
    var total := U16(data, off);
    assert data[off..][..2] == data[off..off + 2];
    if off + 2 + total > |data| {
      return false, off, off;
    }
    SliceOfTail(data, off, 2, 2 + total);
    return true, off + 2, off + 2 + total;
  }

  lemma SliceOfTail(d: seq<byte>, off: nat, i: nat, j: nat)
    requires i <= j && off + j <= |d|
    ensures d[off..][i..j] == d[off + i..off + j]
    ensures d[off..][i..] == d[off + i..]
  {
    SliceOfSlice(d, off, |d|, i, j);
    SliceOfSlice(d, off, |d|, i, |d| - off);
    assert d[off..] == d[off..|d|];
    assert d[off..][i..] == d[off..][i..|d| - off];
  }

  method SkipShort(data: seq<byte>, start: nat) returns (ok: bool, off: nat)
    requires start <= |data|
    ensures start <= off <= |data|
    ensures ok == Skip8(data[start..]).Some? && (ok ==> Skip8(data[start..]) == Some(data[off..]))
  {
    if start + 1 > |data| {
      return false, start;
    }
    var n := U8(data, start);
    if start + 1 + n > |data| {
      return false, start;
    }
    SliceOfTail(data, start, 1 + n, 1 + n);
    return true, start + 1 + n;
  }

  method SkipLong(data: seq<byte>, start: nat) returns (ok: bool, off: nat)
    requires start <= |data|
    ensures start <= off <= |data|
    ensures ok == Skip16(data[start..]).Some? && (ok ==> Skip16(data[start..]) == Some(data[off..]))
  {
    if start + 2 > |data| {
      return false, start;
    }
    var n := U16(data, start);
    if start + 2 + n > |data| {
      return false, start;
    }
    SliceOfTail(data, start, 2 + n, 2 + n);
    return true, start + 2 + n;
  }

  /** Bounds of the host name inside a server_name extension, or none. */
  method LocateHost(data: seq<byte>, off: nat, end: nat) returns (at: nat, n: nat)
    requires off <= end <= |data|
    ensures n > 0 <==> HostName(data[off..end]).Some?
    ensures n > 0 ==> at + n <= end && data[at..at + n] == HostName(data[off..end]).value
  {
    at, n := 0, 0;
    if off + 2 > end || off + 3 > end || data[off + 2] != HOST_NAME || off + 5 > end {
      return;
    }
    var len := U16(data, off + 3);
    if off + 5 + len > end || len == 0 {
      return;
    }
    SliceOfSlice(data, off, end, 5, 5 + len);
    return off + 5, len;
  }

  method CopyName(name: seq<byte>, out: array<byte>) returns (n: nat)
    requires out.Length > 0
    modifies out
    ensures n == Min(|name|, out.Length - 1) && out[..n] == name[..n] && out[n] == 0
  {
    n := Min(|name|, out.Length - 1);
    forall i | 0 <= i < n {
      out[i] := name[i];
    }
    out[n] := 0;
  }

  /** Scans the extensions for the first server_name and locates its host name. */
  method LocateName(data: seq<byte>, start: nat, end: nat) returns (at: nat, n: nat)
    requires start <= end <= |data|
    ensures n > 0 <==> FindName(data[start..end]).Some?
    ensures n > 0 ==> at + n <= |data| && data[at..at + n] == FindName(data[start..end]).value
  {
    hide HostName, FindName;
    at, n := 0, 0;
    var off := start;
    while off + 4 <= end
      invariant start <= off <= end && FindName(data[off..end]) == FindName(data[start..end])
    {
      var kind := U16(data, off);
      var len := U16(data, off + 2);
      ExtensionAt(data, off, end);
      off := off + 4;
      if off + len > end {
        return;
      }
      if kind == SERVER_NAME {
        at, n := LocateHost(data, off, off + len);
        return;
      }
      off := off + len;
    }
    ShortBlock(data[off..end]);
  }

  /** The extraction as callers use it: the name is cut to the buffer and
      terminated; nothing is written when there is none. */
  method Extract(data: seq<byte>, out: array<byte>) returns (n: nat)
    modifies out
    ensures out.Length == 0 || ServerName(data).None? ==> n == 0 && out[..] == old(out[..])
    ensures out.Length > 0 && ServerName(data).Some? ==>
              var name := ServerName(data).value;
              n == Min(|name|, out.Length - 1) && out[..n] == name[..n] && out[n] == 0
  {
    hide Extensions, FindName;
    n := 0;
    if out.Length == 0 {
      return;
    }
    var ok, off, end := LocateExtensions(data);
    if !ok {
      return;
    }
    var at, size := LocateName(data, off, end);
    if size > 0 {
      n := CopyName(data[at..at + size], out);
    }
  }

  lemma ShortBlock(e: seq<byte>)
    requires |e| < 4
    ensures FindName(e).None?
  {
  }

  lemma FindNameStep(e: seq<byte>)
    requires |e| >= 4
    ensures var len := U16(e, 2);
            FindName(e) ==
            if 4 + len > |e| then None
            else if U16(e, 0) == SERVER_NAME then HostName(e[4..4 + len])
            else FindName(e[4 + len..])
  {
    hide HostName;
    var len := U16(e, 2);
    assert U16(e[2..], 0) == len;
    if 4 + len <= |e| {
      assert e[2..][2..2 + len] == e[4..4 + len];
    }
  }

  /** One step of the extension scan, in terms of offsets. */
  lemma ExtensionAt(d: seq<byte>, off: nat, end: nat)
    requires off + 4 <= end <= |d|
    ensures var len := U16(d, off + 2);
            FindName(d[off..end]) ==
            if off + 4 + len > end then None
            else if U16(d, off) == SERVER_NAME then HostName(d[off + 4..off + 4 + len])
            else FindName(d[off + 4 + len..end])
  {
    hide FindName, HostName;
    var e := d[off..end];
    var len := U16(d, off + 2);
    FindNameStep(e);
    assert U16(e, 2) == len && U16(e, 0) == U16(d, off);
    if off + 4 + len <= end {
      SliceOfSlice(d, off, end, 4, 4 + len);
      SliceOfSlice(d, off, end, 4 + len, end - off);
      assert e[4 + len..] == e[4 + len..end - off];
    }
  }
}
