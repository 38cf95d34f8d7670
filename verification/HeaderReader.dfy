/** Reading a DNS-over-HTTPS response: an incremental search for the end of
    the header that resumes three bytes before the last scanned position,
    and the assembly of the body from the surplus and further reads. */
module HeaderReader {
  import opened Bytes
  import opened CNumbers
  import opened Sockets
  import HttpParser

  const HEADER_CAP := 8192
  const BODY_MAX := 4096
  const HTTP11_OK: seq<byte> := [72, 84, 84, 80, 47, 49, 46, 49, 32, 50, 48, 48]
  const HTTP10_OK: seq<byte> := [72, 84, 84, 80, 47, 49, 46, 48, 32, 50, 48, 48]
  /** The header name and its colon, lowercased. */
  const LENGTH_NAME: seq<byte> := [99, 111, 110, 116, 101, 110, 116, 45, 108, 101, 110, 103, 116, 104, 58]

  predicate Ok200(s: seq<byte>) {
    HTTP11_OK <= s || HTTP10_OK <= s
  }

  // ----- Content-Length

  /** A Content-Length line starts at index p, in any case. */
  predicate NamedAt(h: seq<byte>, p: nat) {
    p + 15 <= |h| && Fold(h[p..p + 15]) == LENGTH_NAME
  }

  function SkipBlanks(h: seq<byte>, p: nat): (k: nat)
    requires p <= |h|
    ensures p <= k <= |h|
    ensures forall j :: p <= j < k ==> h[j] == 32 || h[j] == 9
    decreases |h| - p
  {
    if p < |h| && (h[p] == 32 || h[p] == 9) then SkipBlanks(h, p + 1) else p
  }

  /** Where the value of the first Content-Length line at or after p starts;
      the search gives up 16 bytes before the end of the header. */
  function ValueAt(h: seq<byte>, p: nat): (r: Option<nat>)
    ensures r.Some? ==> r.value <= |h|
    decreases |h| - p
  {
    if p + 16 >= |h| then None
    else if NamedAt(h, p) then Some(SkipBlanks(h, p + 15))
    else
      var nl := IndexFrom(h, LF, p);
      if nl == |h| then None else ValueAt(h, nl + 1)
  }

  predicate LineStart(h: seq<byte>, p: nat) {
    p == 0 || (p <= |h| && h[p - 1] == LF)
  }

  /** A Content-Length line. */
  predicate NamedLine(h: seq<byte>, p: nat) {
    LineStart(h, p) && NamedAt(h, p)
  }

  /** Position p is the start of the first Content-Length line at or after `from`. */
  ghost predicate FirstNamed(h: seq<byte>, from: nat, p: nat) {
    from <= p && NamedLine(h, p) && forall q: nat :: from <= q < p ==> !NamedLine(h, q)
  }

  /** In a header the name ends before the blank line. */
  lemma NamedEarly(h: seq<byte>, p: nat)
    requires |h| >= 4 && BlankLine(h, |h| - 4) && NamedAt(h, p)
    ensures p + 16 < |h|
  {
    NamedBytes(h, p);
    assert h[|h| - 4] == CR;
  }

  lemma NamedBytes(h: seq<byte>, p: nat)
    requires NamedAt(h, p)
    ensures forall i :: p <= i < p + 15 ==> h[i] != CR
  {
    forall i | p <= i < p + 15
      ensures h[i] != CR
    {
      assert Lower(h[i]) == Fold(h[p..p + 15])[i - p] == LENGTH_NAME[i - p];
    }
  }

  lemma {:induction false} ValueFrom(h: seq<byte>, p: nat)
    requires |h| >= 4 && BlankLine(h, |h| - 4) && LineStart(h, p)
    ensures ValueAt(h, p).None? ==> forall q: nat :: p <= q ==> !NamedLine(h, q)
    ensures ValueAt(h, p).Some? ==> exists q: nat :: FirstNamed(h, p, q) && ValueAt(h, p).value == SkipBlanks(h, q + 15)
    decreases |h| - p
  {
    hide ValueAt, NamedAt, BlankLine;
    ValueStep(h, p);
    if p + 16 >= |h| {
      forall q: nat | p <= q
        ensures !NamedLine(h, q)
      {
        if NamedAt(h, q) {
          NamedEarly(h, q);
        }
      }
    } else if NamedAt(h, p) {
      assert FirstNamed(h, p, p);
    } else {
      var nl := IndexFrom(h, LF, p);
      assert forall q: nat :: p < q <= nl ==> !LineStart(h, q);
      if nl < |h| {
        ValueFrom(h, nl + 1);
        if ValueAt(h, nl + 1).Some? {
          var q: nat :| FirstNamed(h, nl + 1, q) && ValueAt(h, nl + 1).value == SkipBlanks(h, q + 15);
          assert FirstNamed(h, p, q);
        }
      } else {
        NoLaterLine(h, p);
      }
    }
  }

  lemma NoLaterLine(h: seq<byte>, p: nat)
    requires p <= |h| && IndexFrom(h, LF, p) == |h|
    ensures forall q: nat :: p < q ==> !LineStart(h, q)
  {
  }

  /** The search finds the first Content-Length line of a header, at the start
      of a line and in any case of letters, and misses none: giving up 16 bytes
      before the end excludes nothing. */
  lemma ValueAtMeaning(h: seq<byte>)
    requires |h| >= 4 && BlankLine(h, |h| - 4)
    ensures ValueAt(h, 0).None? <==> forall p: nat :: !NamedLine(h, p)
    ensures ValueAt(h, 0).Some? ==> exists p: nat :: FirstNamed(h, 0, p) && ValueAt(h, 0).value == SkipBlanks(h, p + 15)
  {
    hide ValueAt, NamedAt, BlankLine;
    ValueFrom(h, 0);
  }

  /** The length as the code reads it. `atoi` is given no end: it sees the
      header from the value on and then `behind`, whatever memory holds there. */
  function Length(header: seq<byte>, behind: seq<byte>): int {
    var v := ValueAt(header, 0);
    if v.None? then -1 else Atoi(header[v.value..] + behind)
  }

  // ----- What a response means

  /** Offset of the first body byte, if the stream has a header that fits. */
  function BodyStart(stream: seq<byte>): (r: Option<nat>)
    ensures r.Some? ==> 4 <= r.value <= |stream| && r.value <= HEADER_CAP && BlankLine(stream, r.value - 4)
  {
    var t := FirstBlankLine(stream, 0);
    if t == |stream| || t + 4 > HEADER_CAP then None else Some(t + 4)
  }

  /** The n bytes from an offset on, if n is acceptable and the stream has them. */
  function Portion(stream: seq<byte>, o: nat, n: int): Option<seq<byte>> {
    if n <= 0 || n > BODY_MAX || o + n > |stream| then None else Some(stream[o..o + n])
  }

  /** The answer taken from a stream when `got` bytes had been read at the
      moment the blank line was seen and `stale` is what memory held behind
      them: the Content-Length bytes after the header. */
  function BodyGiven(stream: seq<byte>, got: nat, stale: seq<byte>): Option<seq<byte>> {
    var o := BodyStart(stream);
    if o.None? || got < o.value || got > |stream| || !Ok200(stream[..o.value]) then None
    else Portion(stream, o.value, Length(stream[..o.value], stream[o.value..got] + stale))
  }

  /** What the stream itself says: the length read from the header alone. */
  function Body(stream: seq<byte>): Option<seq<byte>> {
    var o := BodyStart(stream);
    if o.None? then None else BodyGiven(stream, o.value, [])
  }

  /** Numbers of bytes that can have been read when the blank line is seen. */
  predicate Plausible(stream: seq<byte>, got: nat) {
    got <= |stream| && got <= HEADER_CAP && (BodyStart(stream).Some? ==> BodyStart(stream).value <= got)
  }

  /** The stream settles its answer: it has no acceptable header or no byte
      behind it, no Content-Length line, or the value of the first such line
      has a byte other than white space before the header ends. */
  predicate Settled(stream: seq<byte>) {
    var o := BodyStart(stream);
    || o.None? || o.value == |stream| || !Ok200(stream[..o.value])
    || var header := stream[..o.value];
       var v := ValueAt(header, 0);
       v.None? || SkipWhite(header[v.value..], 0) < |header| - v.value
  }

  lemma HeaderEndsWhite(header: seq<byte>, v: nat)
    requires |header| >= 4 && BlankLine(header, |header| - 4) && v < |header|
    ensures White(header[v..][|header| - v - 1])
  {
  }

  /** A settled stream has one answer, whatever the fragmentation and the memory. */
  lemma SettledBody(stream: seq<byte>, got: nat, stale: seq<byte>)
    requires Settled(stream) && Plausible(stream, got)
    ensures BodyGiven(stream, got, stale) == Body(stream)
  {
    hide ValueAt, SkipWhite, Number, Ok200;
    var o := BodyStart(stream);
    if o.Some? {
      var header := stream[..o.value];
      assert BlankLine(header, |header| - 4);
      var v := ValueAt(header, 0);
      if v.Some? && SkipWhite(header[v.value..], 0) < |header| - v.value {
        HeaderEndsWhite(header, v.value);
        NumberLocal(header[v.value..], stream[o.value..got] + stale);
        NumberLocal(header[v.value..], stream[o.value..o.value] + []);
      }
    }
  }

  /** An unsettled one has at least two: one byte, or none, depending on memory. */
  lemma UnsettledBody(stream: seq<byte>)
    requires !Settled(stream)
    ensures var o := BodyStart(stream);
            o.Some? && BodyGiven(stream, o.value, [48]) == None && BodyGiven(stream, o.value, [49]).Some?
  {
    hide ValueAt, Number, Ok200;
    var o := BodyStart(stream).value;
    var header := stream[..o];
    var value := header[ValueAt(header, 0).value..];
    SkipWhiteIs(value, 0, |value|);
    NumberBehindWhite(value, 48);
    NumberBehindWhite(value, 49);
    assert stream[o..o] + [48] == [48] && stream[o..o] + [49] == [49];
  }

  /** The answer is determined by the stream if and only if the stream settles it. */
  lemma DeterminedIff(stream: seq<byte>)
    ensures (forall got, stale :: Plausible(stream, got) ==> BodyGiven(stream, got, stale) == Body(stream))
        <==> Settled(stream)
  {
    hide BodyGiven, Settled, Body;
    if Settled(stream) {
      forall got, stale | Plausible(stream, got)
        ensures BodyGiven(stream, got, stale) == Body(stream)
      {
        SettledBody(stream, got, stale);
      }
    } else {
      UnsettledBody(stream);
      var o := BodyStart(stream).value;
      assert Plausible(stream, o);
      assert BodyGiven(stream, o, [48]) != BodyGiven(stream, o, [49]);
    }
  }

  /** The status test never depends on bytes behind the header. */
  lemma StatusInHeader(buf: seq<byte>, k: nat)
    requires BlankLine(buf, k)
    ensures Ok200(buf) <==> Ok200(buf[..k + 4])
  {
    if k < 12 {
      assert HTTP11_OK[k] != CR && HTTP10_OK[k] != CR;
      assert buf[k] == buf[..k + 4][k] == CR;
    }
  }

  /** The line search and the number behind it. */
  method ContentLength(buf: seq<byte>, hlen: nat, stale: seq<byte>) returns (n: int)
    requires hlen <= |buf|
    ensures n == Length(buf[..hlen], buf[hlen..] + stale)
  {
    hide ValueAt, Atoi, NamedAt;
    var header := buf[..hlen];
    var p := 0;
    while p + 16 < hlen
      invariant 0 <= p && ValueAt(header, p) == ValueAt(header, 0)
      decreases hlen - p
    {
      ValueStep(header, p);
      NamedStartsWithC(header, p);
      if (header[p] == 67 || header[p] == 99) && NamedAt(header, p) {
        p := PastBlanks(header, p + 15);
        assert header[p..] + (buf[hlen..] + stale) == (buf + stale)[p..];
        return Atoi((buf + stale)[p..]);
      }
      var nl := IndexFrom(header, LF, p);
      if nl == hlen {
        return -1;
      }
      p := nl + 1;
    }
    ValueStep(header, p);
    return -1;
  }

  method PastBlanks(h: seq<byte>, start: nat) returns (p: nat)
    requires start <= |h|
    ensures p == SkipBlanks(h, start)
  {
    p := start;
    while p < |h| && (h[p] == 32 || h[p] == 9)
      invariant start <= p <= |h| && SkipBlanks(h, p) == SkipBlanks(h, start)
    {
      p := p + 1;
    }
  }

  lemma {:induction false} ValueStep(h: seq<byte>, p: nat)
    ensures ValueAt(h, p) ==
            if p + 16 >= |h| then None
            else if NamedAt(h, p) then Some(SkipBlanks(h, p + 15))
            else if IndexFrom(h, LF, p) == |h| then None
            else ValueAt(h, IndexFrom(h, LF, p) + 1)
  {
  }

  lemma NamedStartsWithC(h: seq<byte>, p: nat)
    ensures NamedAt(h, p) ==> h[p] == 67 || h[p] == 99
  {
    if NamedAt(h, p) {
      assert Fold(h[p..p + 15])[0] == Lower(h[p]);
    }
  }

  /** Reads until the blank line is seen or the buffer is full. */
  method ReadHeaders(peer: Socket) returns (ok: bool, buf: seq<byte>, bodyOff: nat)
    requires peer.Valid()
    modifies peer`pos, peer`recvs
    ensures peer.Valid() && peer.pos == old(peer.pos) + |buf| && buf == peer.inbound[old(peer.pos)..peer.pos]
    ensures |buf| <= HEADER_CAP && ok == (FirstBlankLine(buf, 0) < |buf|)
    ensures ok ==> bodyOff == FirstBlankLine(buf, 0) + 4
    ensures !ok && peer.Healthy() ==> |buf| == HEADER_CAP || peer.pos == |peer.inbound|
    ensures FirstReadTakes(old(peer.Unread()), peer.recvSchedule(old(peer.recvs))) ==>
              ok && |buf| == peer.recvSchedule(old(peer.recvs))
  {
    ghost var first := peer.recvSchedule(peer.recvs);
    ghost var takes := FirstReadTakes(peer.Unread(), first);
    if takes {
      FirstReadShows(peer.inbound, peer.pos, first);
    }
    hide FirstReadTakes, FirstBlankLine, BlankLine;
    buf, bodyOff := [], 0;
    var scanned := 0;
    while |buf| < HEADER_CAP
      invariant peer.Valid() && peer.pos == old(peer.pos) + |buf| && buf == peer.inbound[old(peer.pos)..peer.pos]
      invariant scanned == |buf| <= HEADER_CAP && FirstBlankLine(buf, 0) == |buf|
      invariant takes ==> buf == [] && peer.recvs == old(peer.recvs)
    {
      var chunk := peer.Recv(HEADER_CAP - |buf|);
      if chunk == [] {
        return false, buf, 0;
      }
      var i := Scan(buf, chunk, scanned);
      JoinSlices(peer.inbound, old(peer.pos), old(peer.pos) + |buf|, peer.pos);
      buf := buf + chunk;
      if i < |buf| {
        return true, buf, i + 4;
      }
      scanned := |buf|;
    }
    return false, buf, 0;
  }

  /** Looks for the blank line in old and new bytes, resuming three bytes
      before the end of the old ones. */
  method Scan(before: seq<byte>, chunk: seq<byte>, scanned: nat) returns (i: nat)
    requires scanned == |before| && FirstBlankLine(before, 0) == |before|
    ensures i == FirstBlankLine(before + chunk, 0)
  {
    var buf := before + chunk;
    i := if scanned >= 3 then scanned - 3 else 0;
    assert forall j :: 0 <= j < i && BlankLine(buf, j) ==> BlankLine(before, j);
    while i + 4 <= |buf|
      invariant forall j :: 0 <= j < i ==> !BlankLine(buf, j)
    {
      if buf[i] == CR && buf[i + 1] == LF && buf[i + 2] == CR && buf[i + 3] == LF {
        FirstOfPrefix(buf, buf, i);
        return;
      }
      i := i + 1;
    }
    i := |buf|;
  }

  /** A first read of k bytes takes in the whole header of the stream. */
  predicate FirstReadTakes(stream: seq<byte>, k: nat) {
    BodyStart(stream).Some? && BodyStart(stream).value <= k <= |stream| && k <= HEADER_CAP
  }

  lemma FirstReadShows(inbound: seq<byte>, start: nat, k: nat)
    requires start <= |inbound| && FirstReadTakes(inbound[start..], k)
    ensures 4 <= k <= |inbound| - start && k <= HEADER_CAP
    ensures FirstBlankLine(inbound[start..start + k], 0) < k
  {
    var stream := inbound[start..];
    assert inbound[start..start + k] == stream[..k];
    assert BlankLine(stream[..k], BodyStart(stream).value - 4);
  }

  /** The `n` bytes behind the header: the surplus already read, then further reads. */
  method Assemble(peer: Socket, buf: seq<byte>, bodyOff: nat, n: nat, ghost start: nat) returns (r: Option<seq<byte>>)
    requires peer.Valid() && start <= peer.pos && buf == peer.inbound[start..peer.pos]
    requires bodyOff <= |buf| && n <= BODY_MAX
    modifies peer`pos, peer`recvs
    ensures peer.Valid()
    ensures r.Some? ==>
              && start + bodyOff + n <= |peer.inbound|
              && r.value == peer.inbound[start + bodyOff..start + bodyOff + n]
    ensures peer.Healthy() && start + bodyOff + n <= |peer.inbound| ==> r.Some?
  {
    var have := Min(|buf| - bodyOff, n);
    var body := buf[bodyOff..bodyOff + have];
    SliceOfSlice(peer.inbound, start, peer.pos, bodyOff, bodyOff + have);
    if have < n {
      var full, more := peer.RecvAll(n - have, BODY_MAX - have);
      if !full {
        return None;
      }
      body := body + more;
    }
    assert body == peer.inbound[start + bodyOff..start + bodyOff + n];
    return Some(body);
  }

  /** The answer is always one the stream can give, and every amount a first
      read can take in gives its own; for a settled stream the answer is the
      stream's body whatever the fragmentation, and a healthy connection
      misses none. */
  method FetchBody(peer: Socket, stale: seq<byte>) returns (r: Option<seq<byte>>)
    requires peer.Valid()
    modifies peer`pos, peer`recvs
    ensures peer.Valid()
    ensures r.Some? || peer.Healthy() ==>
              exists got :: Plausible(old(peer.Unread()), got) && r == BodyGiven(old(peer.Unread()), got, stale)
    ensures peer.Healthy() && FirstReadTakes(old(peer.Unread()), peer.recvSchedule(old(peer.recvs))) ==>
              r == BodyGiven(old(peer.Unread()), peer.recvSchedule(old(peer.recvs)), stale)
    ensures Settled(old(peer.Unread())) && (r.Some? || peer.Healthy()) ==> r == Body(old(peer.Unread()))
  {
    hide BlankLine, FirstBlankLine, Ok200, BodyGiven, Body, Settled, BodyStart;
    ghost var stream := peer.Unread();
    var ok, buf, bodyOff := ReadHeaders(peer);
    assert buf <= stream;
    if !ok {
      if |buf| == HEADER_CAP || buf == stream {
        NoHeader(stream, buf, stale);
      }
      return None;
    }
    HeaderFound(stream, buf, bodyOff, stale);
    if Settled(stream) {
      SettledBody(stream, |buf|, stale);
    }
    if !Ok200(buf) {
      return None;
    }
    var n := ContentLength(buf, bodyOff, stale);
    if n <= 0 || n > BODY_MAX {
      return None;
    }
    r := Assemble(peer, buf, bodyOff, n, old(peer.pos));
    if bodyOff + n <= |stream| {
      assert stream == peer.inbound[old(peer.pos)..|peer.inbound|];
      SliceOfSlice(peer.inbound, old(peer.pos), |peer.inbound|, bodyOff, bodyOff + n);
    }
  }

  /** Once the buffer shows the blank line, status, length and position of the
      body are those of the stream for the amount read. */
  lemma HeaderFound(stream: seq<byte>, buf: seq<byte>, bodyOff: nat, stale: seq<byte>)
    requires buf <= stream && 4 <= bodyOff && |buf| <= HEADER_CAP
    requires FirstBlankLine(buf, 0) < |buf| && bodyOff == FirstBlankLine(buf, 0) + 4
    ensures bodyOff <= |buf| && BodyStart(stream) == Some(bodyOff) && Plausible(stream, |buf|)
    ensures BodyGiven(stream, |buf|, stale) ==
            if !Ok200(buf) then None
            else Portion(stream, bodyOff, Length(buf[..bodyOff], buf[bodyOff..] + stale))
  {
    StartFound(stream, buf, bodyOff);
    hide Length, FirstBlankLine, BlankLine, BodyStart, Ok200, Portion;
    PrefixSlices(stream, buf, bodyOff);
  }

  lemma PrefixSlices(stream: seq<byte>, buf: seq<byte>, o: nat)
    requires buf <= stream && o <= |buf|
    ensures buf[..o] == stream[..o] && buf[o..] == stream[o..|buf|]
  {
  }

  lemma StartFound(stream: seq<byte>, buf: seq<byte>, bodyOff: nat)
    requires buf <= stream && |buf| <= HEADER_CAP
    requires FirstBlankLine(buf, 0) < |buf| && bodyOff == FirstBlankLine(buf, 0) + 4
    ensures bodyOff <= |buf| && BodyStart(stream) == Some(bodyOff) && Plausible(stream, |buf|)
    ensures Ok200(buf) <==> Ok200(buf[..bodyOff])
  {
    FirstOfPrefix(buf, stream, bodyOff - 4);
    StatusInHeader(buf, bodyOff - 4);
  }

  lemma NoHeader(stream: seq<byte>, buf: seq<byte>, stale: seq<byte>)
    requires buf <= stream && |buf| <= HEADER_CAP && FirstBlankLine(buf, 0) == |buf|
    requires |buf| == HEADER_CAP || buf == stream
    ensures BodyStart(stream).None? && Plausible(stream, |buf|)
    ensures BodyGiven(stream, |buf|, stale).None? && Body(stream).None?
  {
    assert forall j :: 0 <= j && j + 4 <= |buf| && BlankLine(stream, j) ==> BlankLine(buf, j);
  }

  // ----- What is an answer

  /** The line at index p of the header is the first that is named Content-Length, in any case. */
  ghost predicate FirstLength(h: seq<byte>, p: nat) {
    && NamesLength(h, p)
    && forall q: nat :: q < p ==> !NamesLength(h, q)
  }

  ghost predicate NamesLength(h: seq<byte>, p: nat) {
    (p == 0 || (p <= |h| && h[p - 1] == LF)) && p + 15 <= |h| && Fold(h[p..p + 15]) == LENGTH_NAME
  }

  /** `HTTP/1.1 200` or `HTTP/1.0 200` at the front. */
  ghost predicate SaysOk(h: seq<byte>) {
    && |h| >= 12
    && h[..7] == ['H' as int, 'T' as int, 'T' as int, 'P' as int, '/' as int, '1' as int, '.' as int]
    && h[7] in {'0' as int, '1' as int}
    && h[8..12] == [' ' as int, '2' as int, '0' as int, '0' as int]
  }

  /** The header ends at o behind the first blank line, its status is 200, its
      first Content-Length line is at p, and the number behind the name, read
      on into what follows in memory, is the number of bytes of the answer. */
  ghost predicate IsAnswer(stream: seq<byte>, got: nat, stale: seq<byte>, b: seq<byte>, o: nat, p: nat) {
    && 4 <= o <= got <= |stream| && o <= HEADER_CAP
    && BlankLine(stream, o - 4) && (forall j :: 0 <= j < o - 4 ==> !BlankLine(stream, j))
    && SaysOk(stream[..o]) && FirstLength(stream[..o], p)
    && 1 <= |b| <= BODY_MAX && o + |b| <= |stream| && b == stream[o..o + |b|]
    && |b| == Atoi(stream[..o][p + 15..] + (stream[o..got] + stale))
  }

  lemma OkMeaning(h: seq<byte>)
    ensures Ok200(h) <==> SaysOk(h)
  {
    if |h| >= 12 {
      assert h[..12] == h[..7] + [h[7]] + h[8..12];
    }
  }

  lemma BlanksAreWhite(h: seq<byte>, p: nat, behind: seq<byte>)
    requires p <= |h|
    ensures Atoi(h[SkipBlanks(h, p)..] + behind) == Atoi(h[p..] + behind)
  {
    hide Atoi;
    var k := SkipBlanks(h, p);
    assert h[p..] + behind == h[p..k] + (h[k..] + behind);
    WhiteSkipped(h[p..k], h[k..] + behind);
  }

  lemma SameLines(h: seq<byte>)
    ensures forall p: nat :: NamedLine(h, p) == NamesLength(h, p)
    ensures forall p: nat :: FirstNamed(h, 0, p) == FirstLength(h, p)
  {
    assert forall p: nat :: NamedLine(h, p) == NamesLength(h, p);
    hide NamedLine, NamesLength;
  }

  lemma OneFirst(h: seq<byte>, p: nat, q: nat)
    requires FirstLength(h, p) && FirstLength(h, q)
    ensures p == q
  {
    hide NamesLength;
  }

  /** The length is the number behind the first Content-Length line. */
  lemma LengthIs(h: seq<byte>, behind: seq<byte>)
    requires |h| >= 4 && BlankLine(h, |h| - 4)
    ensures forall p: nat :: FirstLength(h, p) ==> p + 15 <= |h| && Length(h, behind) == Atoi(h[p + 15..] + behind)
    ensures Length(h, behind) > 0 ==> exists p: nat :: FirstLength(h, p)
  {
    ValueAtMeaning(h);
    SameLines(h);
    hide Atoi, ValueAt, NamedLine, FirstNamed, SkipBlanks;
    forall p: nat | FirstLength(h, p)
      ensures p + 15 <= |h| && Length(h, behind) == Atoi(h[p + 15..] + behind)
    {
      assert NamesLength(h, p);
      var q: nat :| FirstNamed(h, 0, q) && ValueAt(h, 0).value == SkipBlanks(h, q + 15);
      OneFirst(h, p, q);
      BlanksAreWhite(h, p + 15, behind);
    }
  }

  /** Exactly this is taken from a stream of which `got` bytes were read with the header. */
  lemma AnswerIff(stream: seq<byte>, got: nat, stale: seq<byte>, b: seq<byte>)
    ensures BodyGiven(stream, got, stale) == Some(b) <==> exists o: nat, p: nat :: IsAnswer(stream, got, stale, b, o, p)
  {
    hide Length, Ok200, SaysOk, FirstLength, Atoi;
    if o: nat, p: nat :| IsAnswer(stream, got, stale, b, o, p) {
      FirstOfPrefix(stream, stream, o - 4);
      OkMeaning(stream[..o]);
      assert BlankLine(stream[..o], o - 4);
      LengthIs(stream[..o], stream[o..got] + stale);
    }
    if BodyGiven(stream, got, stale) == Some(b) {
      var o := BodyStart(stream).value;
      OkMeaning(stream[..o]);
      assert BlankLine(stream[..o], o - 4);
      LengthIs(stream[..o], stream[o..got] + stale);
      var p: nat :| FirstLength(stream[..o], p);
      assert IsAnswer(stream, got, stale, b, o, p);
    }
  }

  // ----- A printed response is read back

  /** A header of another name, without line feeds. */
  predicate Other(h: HttpParser.Header) {
    LF !in h.key && LF !in h.value && Fold(h.key) != Fold(HttpParser.LENGTH_KEY)
  }

  function Response(line: seq<byte>, headers: seq<HttpParser.Header>, body: seq<byte>): seq<byte> {
    line + HttpParser.CRLF + (HttpParser.PrintHeaders(headers) + HttpParser.CRLF + body)
  }

  predicate StartsNamed(l: seq<byte>) {
    |l| >= 15 && Fold(l[..15]) == LENGTH_NAME
  }

  lemma LengthName()
    ensures LENGTH_NAME == Fold(HttpParser.LENGTH_KEY) + [58]
    ensures forall i :: 0 <= i < 15 ==> LENGTH_NAME[i] != CR && (i < 14 ==> LENGTH_NAME[i] != 58)
  {
  }

  /** A name is recognised within its line. */
  lemma NamedInLine(pre: seq<byte>, l: seq<byte>, rest: seq<byte>)
    requires CR !in l
    ensures NamedAt(pre + l + HttpParser.CRLF + rest, |pre|) <==> StartsNamed(l)
  {
    var h := pre + l + HttpParser.CRLF + rest;
    LengthName();
    assert h[|pre| + |l|] == CR;
    if |l| >= 15 {
      assert h[|pre|..|pre| + 15] == l[..15];
    } else if NamedAt(h, |pre|) {
      NamedBytes(h, |pre|);
    }
  }

  lemma SkipLine(pre: seq<byte>, l: seq<byte>, rest: seq<byte>)
    requires CR !in l && LF !in l && !StartsNamed(l) && |rest| >= 16
    ensures var h := pre + l + HttpParser.CRLF + rest;
            ValueAt(h, |pre|) == ValueAt(h, |pre + l + HttpParser.CRLF|)
  {
    hide ValueAt, NamedAt, StartsNamed;
    var h := pre + l + HttpParser.CRLF + rest;
    NamedInLine(pre, l, rest);
    FieldEnds(pre, l + [CR], LF, rest);
    assert h == pre + (l + [CR]) + [LF] + rest;
    ValueStep(h, |pre|);
  }

  lemma OtherLine(h: HttpParser.Header)
    requires HttpParser.PrintableHeader(h) && Other(h)
    ensures var l := HttpParser.HeaderLine(h); CR !in l && LF !in l && !StartsNamed(l)
  {
    var l, k := HttpParser.HeaderLine(h), |h.key|;
    assert l[k] == 58 && l[..k] == h.key;
    assert forall i :: 0 <= i < k ==> l[i] == h.key[i] && l[i] in h.key;
    if StartsNamed(l) {
      NamedKey(l);
    }
  }

  lemma NamedKey(l: seq<byte>)
    requires StartsNamed(l)
    ensures l[14] == 58 && (forall i :: 0 <= i < 14 ==> l[i] != 58)
    ensures Fold(l[..14]) == Fold(HttpParser.LENGTH_KEY)
  {
    LengthName();
    var f := Fold(l[..15]);
    assert forall i :: 0 <= i < 15 ==> f[i] == Lower(l[i]);
    assert Fold(l[..14]) == f[..14];
  }

  lemma {:induction false} SkipOthers(pre: seq<byte>, hs: seq<HttpParser.Header>, rest: seq<byte>)
    requires HttpParser.PrintableHeaders(hs) && (forall i :: 0 <= i < |hs| ==> Other(hs[i])) && |rest| >= 16
    ensures var h := pre + HttpParser.PrintHeaders(hs) + rest;
            ValueAt(h, |pre|) == ValueAt(h, |pre + HttpParser.PrintHeaders(hs)|)
    decreases |hs|
  {
    hide ValueAt, Other, HttpParser.PrintableHeader, HttpParser.HeaderLine, StartsNamed;
    if hs != [] {
      var l := HttpParser.HeaderLine(hs[0]);
      var more := HttpParser.PrintHeaders(hs[1..]);
      var pre' := pre + l + HttpParser.CRLF;
      OtherLine(hs[0]);
      SkipLine(pre, l, more + rest);
      SkipOthers(pre', hs[1..], rest);
      Regroup(pre, l, HttpParser.CRLF, more, rest);
    } else {
      assert pre + HttpParser.PrintHeaders(hs) == pre;
    }
  }

  lemma Regroup(a: seq<byte>, b: seq<byte>, c: seq<byte>, d: seq<byte>, e: seq<byte>)
    ensures a + (b + c + d) + e == (a + b + c) + d + e == a + b + c + (d + e)
  {
  }

  /** The value of a printed length starts behind the blank. */
  lemma LengthLine(pre: seq<byte>, key: seq<byte>, n: nat, rest: seq<byte>)
    requires Fold(key) == Fold(HttpParser.LENGTH_KEY) && rest != [] && !Digit(rest[0]) && |rest| >= 2
    ensures var h := pre + (key + [58, 32] + Decimal(n)) + rest;
            && ValueAt(h, |pre|) == Some(|pre| + 16)
            && h[|pre| + 16..] == Decimal(n) + rest
  {
    hide Decimal, SkipBlanks, Fold;
    var h := pre + (key + [58, 32] + Decimal(n)) + rest;
    KeyLength(key);
    KeyNamed(key);
    LengthParts(pre, key, Decimal(n), rest);
    OneBlank(h, |pre| + 15);
    hide ValueAt;
    ValueStep(h, |pre|);
  }

  lemma LengthParts(pre: seq<byte>, key: seq<byte>, digits: seq<byte>, rest: seq<byte>)
    requires |key| == 14 && digits != []
    ensures var h := pre + (key + [58, 32] + digits) + rest;
            && |h| == |pre| + 16 + |digits| + |rest|
            && h[|pre|..|pre| + 15] == key + [58]
            && h[|pre| + 15] == 32 && h[|pre| + 16] == digits[0] && h[|pre| + 16..] == digits + rest
  {
  }

  lemma KeyNamed(key: seq<byte>)
    requires Fold(key) == Fold(HttpParser.LENGTH_KEY)
    ensures Fold(key + [58]) == LENGTH_NAME
  {
    LengthName();
    assert Fold(key + [58]) == Fold(key) + [58];
  }

  lemma OneBlank(h: seq<byte>, p: nat)
    requires p + 1 < |h| && h[p] == 32 && Digit(h[p + 1])
    ensures SkipBlanks(h, p) == p + 1
  {
    assert SkipBlanks(h, p + 1) == p + 1;
  }

  /** The header part of a printed response, and where its length stands. */
  lemma PrintedLength(
    line: seq<byte>, before: seq<HttpParser.Header>, key: seq<byte>, n: nat, after: seq<byte>)
    requires Ok200(line) && CR !in line && LF !in line && HttpParser.PrintableHeaders(before)
    requires forall i :: 0 <= i < |before| ==> Other(before[i])
    requires Fold(key) == Fold(HttpParser.LENGTH_KEY) && |after| >= 2 && !Digit(after[0])
    ensures var h := line + HttpParser.CRLF + (HttpParser.PrintHeaders(before)
                       + ((key + [58, 32] + Decimal(n)) + after));
            && ValueAt(h, 0).Some?
            && h[ValueAt(h, 0).value..] == Decimal(n) + after
  {
    hide ValueAt, HttpParser.PrintHeaders, HttpParser.PrintableHeaders, Other, Decimal, Fold, StartsNamed;
    var printed := HttpParser.PrintHeaders(before);
    var l := key + [58, 32] + Decimal(n);
    var start := line + HttpParser.CRLF;
    var h := start + (printed + (l + after));
    StatusLineNotNamed(line);
    KeyLength(key);
    SkipLine([], line, printed + (l + after));
    assert [] + line == line;
    Assoc(start, printed, l + after);
    Assoc(start + printed, l, after);
    SkipOthers(start, before, l + after);
    LengthLine(start + printed, key, n, after);
  }

  lemma KeyLength(key: seq<byte>)
    requires Fold(key) == Fold(HttpParser.LENGTH_KEY)
    ensures |key| == 14
  {
  }

  lemma StatusLineNotNamed(line: seq<byte>)
    requires Ok200(line)
    ensures !StartsNamed(line)
  {
    assert line[0] == 72;
    if |line| >= 15 {
      assert Fold(line[..15])[0] == 104;
    }
  }

  lemma {:induction false} PrintAppend(a: seq<HttpParser.Header>, b: seq<HttpParser.Header>)
    ensures HttpParser.PrintHeaders(a + b) == HttpParser.PrintHeaders(a) + HttpParser.PrintHeaders(b)
    decreases |a|
  {
    hide HttpParser.HeaderLine;
    if a == [] {
      assert a + b == b;
    } else {
      assert (a + b)[1..] == a[1..] + b && (a + b)[0] == a[0];
      PrintAppend(a[1..], b);
      Assoc(HttpParser.HeaderLine(a[0]) + HttpParser.CRLF, HttpParser.PrintHeaders(a[1..]), HttpParser.PrintHeaders(b));
    }
  }

  /** Behind the length: its line end, the other headers and the blank line. */
  function Behind(after: seq<HttpParser.Header>): seq<byte> {
    HttpParser.CRLF + HttpParser.PrintHeaders(after) + HttpParser.CRLF
  }

  lemma PrintedAround(before: seq<HttpParser.Header>, key: seq<byte>, n: nat, after: seq<HttpParser.Header>)
    ensures var hs := before + [HttpParser.Header(key, Decimal(n))] + after;
            HttpParser.PrintHeaders(hs) + HttpParser.CRLF ==
            HttpParser.PrintHeaders(before) + ((key + [58, 32] + Decimal(n)) + Behind(after))
  {
    hide Decimal;
    var h := HttpParser.Header(key, Decimal(n));
    var tail := [h] + after;
    Assoc(before, [h], after);
    PrintAppend(before, tail);
    assert tail[1..] == after;
    var l := HttpParser.HeaderLine(h);
    assert HttpParser.PrintHeaders(tail) == l + HttpParser.CRLF + HttpParser.PrintHeaders(after);
    hide HttpParser.PrintHeaders, HttpParser.HeaderLine;
    RegroupTail(HttpParser.PrintHeaders(before), l, HttpParser.CRLF, HttpParser.PrintHeaders(after), HttpParser.CRLF);
  }

  lemma RegroupTail(a: seq<byte>, b: seq<byte>, c: seq<byte>, d: seq<byte>, e: seq<byte>)
    ensures a + (b + c + d) + e == a + (b + (c + d + e))
  {
  }

  lemma ResponseStart(line: seq<byte>, hs: seq<HttpParser.Header>, body: seq<byte>)
    requires Ok200(line) && CR !in line && HttpParser.PrintableHeaders(hs)
    requires |line| + |HttpParser.PrintHeaders(hs)| + 4 <= HEADER_CAP
    ensures var s := Response(line, hs, body);
            var o := |line| + |HttpParser.PrintHeaders(hs)| + 4;
            && BodyStart(s) == Some(o) && s[o..] == body
            && s[..o] == line + HttpParser.CRLF + (HttpParser.PrintHeaders(hs) + HttpParser.CRLF)
            && Ok200(s[..o])
  {
    hide HttpParser.PrintHeaders, HttpParser.PrintableHeaders, BlankLine, FirstBlankLine;
    var s := Response(line, hs, body);
    var printed := HttpParser.PrintHeaders(hs);
    var o := |line| + |printed| + 4;
    HttpParser.BlankOfPrinted(line, hs, body);
    FirstOfPrefix(s, s, o - 4);
    SplitResponse(line, printed, body);
    assert line <= s[..o];
  }

  lemma SplitResponse(line: seq<byte>, printed: seq<byte>, body: seq<byte>)
    ensures var h := line + HttpParser.CRLF + (printed + HttpParser.CRLF);
            var s := line + HttpParser.CRLF + (printed + HttpParser.CRLF + body);
            s == h + body && s[..|h|] == h && s[|h|..] == body
  {
    var h := line + HttpParser.CRLF + (printed + HttpParser.CRLF);
    assert line + HttpParser.CRLF + (printed + HttpParser.CRLF + body) == h + body;
  }

  /** A response printed with a Content-Length settles its answer: the first n
      bytes behind the header, whatever other headers stand around it. */
  lemma ResponseReadBack(
    line: seq<byte>, before: seq<HttpParser.Header>, key: seq<byte>, n: nat, after: seq<HttpParser.Header>,
    body: seq<byte>)
    requires Ok200(line) && CR !in line && LF !in line
    requires HttpParser.PrintableHeaders(before + [HttpParser.Header(key, Decimal(n))] + after)
    requires (forall i :: 0 <= i < |before| ==> Other(before[i])) && Fold(key) == Fold(HttpParser.LENGTH_KEY)
    requires var hs := before + [HttpParser.Header(key, Decimal(n))] + after;
             |line| + |HttpParser.PrintHeaders(hs)| + 4 <= HEADER_CAP
    requires 1 <= n <= BODY_MAX && n <= |body|
    ensures var s := Response(line, before + [HttpParser.Header(key, Decimal(n))] + after, body);
            Settled(s) && Body(s) == Some(body[..n])
  {
    var hs := before + [HttpParser.Header(key, Decimal(n))] + after;
    var s := Response(line, hs, body);
    ResponseStart(line, hs, body);
    PrintableBefore(before, hs);
    PrintedAround(before, key, n, after);
    hide Response, Decimal, HttpParser.PrintHeaders, HttpParser.PrintableHeaders, Other, Ok200, BodyStart, Fold;
    PrintedLength(line, before, key, n, Behind(after));
    var o := BodyStart(s).value;
    LengthOfPrinted(s[..o], n, Behind(after));
    BodyOfLength(s, n);
  }

  lemma PrintableBefore(before: seq<HttpParser.Header>, hs: seq<HttpParser.Header>)
    requires before <= hs && HttpParser.PrintableHeaders(hs)
    ensures HttpParser.PrintableHeaders(before)
  {
  }

  lemma LengthOfPrinted(header: seq<byte>, n: nat, after: seq<byte>)
    requires ValueAt(header, 0).Some? && header[ValueAt(header, 0).value..] == Decimal(n) + after
    requires after != [] && !Digit(after[0]) && n <= BODY_MAX
    ensures Length(header, []) == n
    ensures SkipWhite(header[ValueAt(header, 0).value..], 0) < |header| - ValueAt(header, 0).value
  {
    hide ValueAt, Decimal, Number, SkipWhite;
    var value := Decimal(n) + after;
    NumberOfPrinted(n, after);
    assert value + [] == value;
  }

  lemma BodyOfLength(s: seq<byte>, n: nat)
    requires BodyStart(s).Some? && Ok200(s[..BodyStart(s).value]) && 1 <= n <= BODY_MAX
    requires BodyStart(s).value + n <= |s| && Length(s[..BodyStart(s).value], []) == n
    ensures Body(s) == Some(s[BodyStart(s).value..][..n])
  {
    hide Length, Ok200, BodyStart;
    var o := BodyStart(s).value;
    assert s[o..o] + [] == [] && s[o..][..n] == s[o..o + n];
  }

  // ----- A blank value

  /** The response `HTTP/1.1 200 OK`, a Content-Length line without a value,
      the blank line, and five bytes `4abcd`. */
  const BLANK_VALUE: seq<byte> :=
    HTTP11_OK + [32, 79, 75, CR, LF] + BLANK_LENGTH + [52, 97, 98, 99, 100]

  const BLANK_LENGTH: seq<byte> :=
    [67, 111, 110, 116, 101, 110, 116, 45, 76, 101, 110, 103, 116, 104, 58, CR, LF, CR, LF]

  /** Read in one piece this response is answered with `4abc`; if the first
      read stops at the blank line, and nothing readable follows in memory,
      it is not answered. */
  lemma BlankValueDependsOnReads()
    ensures !Settled(BLANK_VALUE) && |BLANK_VALUE| == 41
    ensures BodyGiven(BLANK_VALUE, 41, []) == Some([52, 97, 98, 99])
    ensures BodyGiven(BLANK_VALUE, 36, []) == None
  {
    hide Atoi, Ok200, ValueAt, SkipWhite;
    var s := BLANK_VALUE;
    var header := s[..36];
    BlankValueStart();
    BlankValueAt(header);
    BlankNumbers();
    assert s[36..41] + [] == s[36..41] && s[36..36] + [] == [];
    assert [CR, LF, CR, LF] + [52, 97, 98, 99, 100] == [CR, LF, CR, LF, 52, 97, 98, 99, 100];
    assert header[32..] + [] == header[32..];
  }

  lemma BlankValueStart()
    ensures |BLANK_VALUE| == 41 && BodyStart(BLANK_VALUE) == Some(36) && Ok200(BLANK_VALUE[..36])
    ensures BLANK_VALUE[..36] == HTTP11_OK + [32, 79, 75, CR, LF] + BLANK_LENGTH
    ensures BLANK_VALUE[..36][32..] == [CR, LF, CR, LF]
    ensures BLANK_VALUE[36..41] == [52, 97, 98, 99, 100] && BLANK_VALUE[36..40] == [52, 97, 98, 99]
  {
    var s := BLANK_VALUE;
    assert BlankLine(s, 32);
    assert forall j :: 0 <= j < 32 && s[j] == CR ==> j == 15;
    FirstOfPrefix(s, s, 32);
  }

  lemma BlankNumbers()
    ensures Atoi([CR, LF, CR, LF, 52, 97, 98, 99, 100]) == 4
    ensures Atoi([CR, LF, CR, LF]) == 0 && SkipWhite([CR, LF, CR, LF], 0) == 4
  {
    var all: seq<byte> := [CR, LF, CR, LF, 52, 97, 98, 99, 100];
    SkipWhiteIs(all, 0, 4);
    SkipWhiteIs([CR, LF, CR, LF], 0, 4);
    assert Digits(all, 5, 4) == 4;
    assert Digits(all, 4, 0) == 4;
  }

  lemma BlankValueAt(header: seq<byte>)
    requires header == HTTP11_OK + [32, 79, 75, CR, LF] + BLANK_LENGTH
    ensures ValueAt(header, 0) == Some(32)
  {
    hide ValueAt, SkipBlanks;
    NamedStartsWithC(header, 0);
    ValueStep(header, 0);
    IndexFromIs(header, LF, 0, 16);
    assert header[17..32] == BLANK_LENGTH[..15];
    BlankName();
    ValueStep(header, 17);
    NoBlanks(header, 32);
  }

  lemma NoBlanks(h: seq<byte>, p: nat)
    requires p < |h| && h[p] == CR
    ensures SkipBlanks(h, p) == p
  {
  }

  lemma BlankName()
    ensures Fold(BLANK_LENGTH[..15]) == LENGTH_NAME
  {
  }
}
