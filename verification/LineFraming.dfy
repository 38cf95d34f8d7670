/** Newline framing of an IPC client's byte stream: reads of any size are
    appended to an 8192-byte buffer, complete lines are dispatched, and the
    incomplete rest is moved to the front. */
module LineFraming {
  import opened Bytes

  const BUF_SIZE := 8192

  // ----- What framing means

  /** The complete lines of a byte stream, without their newlines. */
  function Lines(s: seq<byte>): seq<seq<byte>>
    decreases |s|
  {
    var k := IndexFrom(s, LF, 0);
    if k == |s| then [] else [s[..k]] + Lines(s[k + 1..])
  }

  /** The bytes after the last newline. */
  function Rest(s: seq<byte>): (r: seq<byte>)
    ensures LF !in r && |r| <= |s|
    decreases |s|
  {
    var k := IndexFrom(s, LF, 0);
    if k == |s| then s else Rest(s[k + 1..])
  }

  /** Lines written back with their newlines. */
  function Unlines(lines: seq<seq<byte>>): seq<byte> {
    if lines == [] then [] else lines[0] + [LF] + Unlines(lines[1..])
  }

  /** Either there is no newline, or the first one ends the first line. */
  lemma {:induction false} SplitStep(s: seq<byte>)
    ensures var k := IndexFrom(s, LF, 0);
            if k == |s| then LF !in s && Lines(s) == [] && Rest(s) == s
            else && LF !in s[..k] && s == s[..k] + [LF] + s[k + 1..]
                 && Lines(s) == [s[..k]] + Lines(s[k + 1..]) && Rest(s) == Rest(s[k + 1..])
  {
  }

  /** Splitting loses nothing: writing the lines back and appending the rest
      gives the stream, and no line holds a newline. */
  lemma {:induction false} SplitJoins(s: seq<byte>)
    ensures Unlines(Lines(s)) + Rest(s) == s
    ensures forall l :: l in Lines(s) ==> LF !in l
    decreases |s|
  {
    hide Lines, Rest;
    SplitStep(s);
    var k := IndexFrom(s, LF, 0);
    if k < |s| {
      var tail := s[k + 1..];
      SplitJoins(tail);
      assert Lines(s)[1..] == Lines(tail);
      Assoc(s[..k] + [LF], Unlines(Lines(tail)), Rest(tail));
    }
  }

  lemma {:induction false} SplitCons(line: seq<byte>, s: seq<byte>)
    requires LF !in line
    ensures Lines(line + [LF] + s) == [line] + Lines(s)
    ensures Rest(line + [LF] + s) == Rest(s)
  {
    var t := line + [LF] + s;
    hide Lines, Rest;
    SplitStep(t);
    assert forall i :: 0 <= i < |line| ==> t[i] == line[i] && t[i] in line;
    IndexFromIs(t, LF, 0, |line|);
    assert t[..|line|] == line && t[|line| + 1..] == s;
  }

  /** Framing can resume from the rest: earlier complete lines are final. */
  lemma {:induction false} SplitAppend(a: seq<byte>, b: seq<byte>)
    ensures Lines(a + b) == Lines(a) + Lines(Rest(a) + b)
    ensures Rest(a + b) == Rest(Rest(a) + b)
    decreases |a|
  {
    hide Lines, Rest, IndexFrom;
    SplitStep(a);
    var k := IndexFrom(a, LF, 0);
    if k < |a| {
      var tail := a[k + 1..];
      SplitAppend(tail, b);
      SplitCons(a[..k], tail + b);
      Assoc(a[..k] + [LF], tail, b);
      Assoc([a[..k]], Lines(tail), Lines(Rest(tail) + b));
    }
  }

  lemma {:induction false} NoNewline(s: seq<byte>)
    requires LF !in s
    ensures Lines(s) == [] && Rest(s) == s
  {
  }

  // ----- One client as a value

  datatype Read = Data(bytes: seq<byte>) | WouldBlock | Failure | Eof

  datatype Client = Open(pending: seq<byte>) | Removed

  /** What the kernel may return for a read into the free part of the buffer. */
  predicate Fits(pending: seq<byte>, r: Read) {
    r.Data? ==> 1 <= |r.bytes| <= BUF_SIZE - 1 - |pending|
  }

  function Space(pending: seq<byte>): int {
    BUF_SIZE - |pending| - 1
  }

  /** One call of the per-client processing: the new client and the lines dispatched. */
  function Feed(c: Client, r: Read): (Client, seq<seq<byte>>) {
    if c.Removed? then (Removed, [])
    else if Space(c.pending) <= 0 then (Removed, [])
    else match r
      case Data(b) => (Open(Rest(c.pending + b)), Lines(c.pending + b))
      case WouldBlock => (c, [])
      case Failure => (Removed, [])
      case Eof => (Removed, [])
  }

  function Run(c: Client, inputs: seq<Read>): Client
    decreases |inputs|
  {
    if inputs == [] then c else Run(Feed(c, inputs[0]).0, inputs[1..])
  }

  function Dispatched(c: Client, inputs: seq<Read>): seq<seq<byte>>
    decreases |inputs|
  {
    if inputs == [] then [] else Feed(c, inputs[0]).1 + Dispatched(Feed(c, inputs[0]).0, inputs[1..])
  }

  /** The bytes a run of calls took from the socket: nothing is read from a
      removed client, nor when the buffer is full. */
  function Received(c: Client, inputs: seq<Read>): seq<byte>
    decreases |inputs|
  {
    if inputs == [] || c.Removed? || Space(c.pending) <= 0 then []
    else (if inputs[0].Data? then inputs[0].bytes else []) + Received(Feed(c, inputs[0]).0, inputs[1..])
  }

  predicate Feasible(c: Client, inputs: seq<Read>)
    decreases |inputs|
  {
    inputs == [] || ((c.Open? ==> Fits(c.pending, inputs[0])) && Feasible(Feed(c, inputs[0]).0, inputs[1..]))
  }

  /** Over every run, also one that ends with the client removed, everything
      dispatched, and the pending bytes of a client that is still there, depend
      only on the bytes received, never on how they were split into reads. */
  lemma {:induction false} FramingIgnoresFragmentation(pending: seq<byte>, inputs: seq<Read>)
    requires LF !in pending
    ensures var all := pending + Received(Open(pending), inputs);
            && Dispatched(Open(pending), inputs) == Lines(all)
            && (Run(Open(pending), inputs).Open? ==> Run(Open(pending), inputs).pending == Rest(all))
    decreases |inputs|
  {
    hide Lines, Rest;
    var received := Received(Open(pending), inputs);
    if inputs == [] {
      assert pending + received == pending;
      NoNewline(pending);
    } else {
      var (c, lines) := Feed(Open(pending), inputs[0]);
      var later := Received(c, inputs[1..]);
      if c.Removed? {
        RemovedForever(inputs[1..]);
        assert pending + received == pending;
        NoNewline(pending);
      } else {
        FramingIgnoresFragmentation(c.pending, inputs[1..]);
        if inputs[0].Data? {
          SplitAppend(pending + inputs[0].bytes, later);
          Assoc(pending, inputs[0].bytes, later);
        } else {
          assert [] + later == later;
        }
      }
    }
  }

  lemma {:induction false} RemovedForever(inputs: seq<Read>)
    ensures Run(Removed, inputs) == Removed && Dispatched(Removed, inputs) == []
    decreases |inputs|
  {
    if inputs != [] {
      RemovedForever(inputs[1..]);
    }
  }

  /** The pending bytes never exceed 8191, and a call removes the client for
      lack of space exactly when 8191 bytes without a newline are pending. */
  lemma {:induction false} PendingBounded(pending: seq<byte>, inputs: seq<Read>)
    requires LF !in pending && |pending| < BUF_SIZE
    requires Feasible(Open(pending), inputs) && Run(Open(pending), inputs).Open?
    ensures var p := Run(Open(pending), inputs).pending;
            && LF !in p && |p| <= BUF_SIZE - 1
            && (Feed(Open(p), WouldBlock).0.Removed? <==> |p| == BUF_SIZE - 1)
    decreases |inputs|
  {
    if inputs != [] {
      RemovedForever(inputs[1..]);
      PendingBounded(Feed(Open(pending), inputs[0]).0.pending, inputs[1..]);
    }
  }

  /** A stream gets through when every line fits the buffer with its newline
      and the rest leaves the client within its 8191 bytes. */
  predicate Digestible(s: seq<byte>) {
    && (forall i :: 0 <= i < |Lines(s)| ==> |Lines(s)[i]| <= BUF_SIZE - 2)
    && |Rest(s)| <= BUF_SIZE - 1
  }

  /** A client that survives its input has sent a digestible stream ... */
  lemma {:induction false} ReceivedIsDigestible(pending: seq<byte>, inputs: seq<Read>)
    requires LF !in pending && |pending| < BUF_SIZE
    requires Feasible(Open(pending), inputs) && Run(Open(pending), inputs).Open?
    ensures Digestible(pending + Received(Open(pending), inputs))
    decreases |inputs|
  {
    hide Lines, Rest;
    var received := Received(Open(pending), inputs);
    if inputs == [] {
      assert pending + received == pending;
      NoNewline(pending);
    } else {
      RemovedForever(inputs[1..]);
      var c := Feed(Open(pending), inputs[0]).0;
      var later := Received(c, inputs[1..]);
      ReceivedIsDigestible(c.pending, inputs[1..]);
      if inputs[0].Data? {
        var s := pending + inputs[0].bytes;
        LinesShort(s);
        SplitAppend(s, later);
        Assoc(pending, inputs[0].bytes, later);
      } else {
        assert [] + later == later;
      }
    }
  }

  lemma {:induction false} LinesShort(s: seq<byte>)
    ensures forall i :: 0 <= i < |Lines(s)| ==> |Lines(s)[i]| < |s|
    decreases |s|
  {
    var k := IndexFrom(s, LF, 0);
    if k < |s| {
      LinesShort(s[k + 1..]);
    }
  }

  lemma {:induction false} DigestibleBegins(a: seq<byte>, more: seq<byte>)
    requires Digestible(a + more) && more != []
    ensures Digestible(a) && |Rest(a)| < BUF_SIZE - 1
    decreases |more|
  {
    hide Digestible, Rest;
    var n := |more| - 1;
    assert a + more == (a + more[..n]) + [more[n]];
    DigestiblePrefix(a + more[..n], more[n]);
    if n > 0 {
      DigestibleBegins(a, more[..n]);
    } else {
      assert a + more[..n] == a;
    }
  }

  /** ... and conversely, in every fragmentation: as long as bytes of a
      digestible stream are still to come, the next read has room. */
  lemma RoomForMore(inputs: seq<Read>, more: seq<byte>)
    requires Run(Open([]), inputs).Open? && more != []
    requires Digestible(Received(Open([]), inputs) + more)
    ensures Space(Run(Open([]), inputs).pending) > 0
  {
    hide Digestible, Rest, Lines;
    var a := Received(Open([]), inputs);
    FramingIgnoresFragmentation([], inputs);
    assert [] + a == a;
    DigestibleBegins(a, more);
  }

  /** The bytes offered by reads that all deliver data. */
  function Offered(inputs: seq<Read>): seq<byte> {
    if inputs == [] then []
    else Offered(inputs[..|inputs| - 1]) + (if inputs[|inputs| - 1].Data? then inputs[|inputs| - 1].bytes else [])
  }

  /** Whether a stream is received in full is decided by its lines alone:
      reads that deliver a digestible stream, in whatever pieces, are all
      taken in and the client is never removed. */
  lemma {:induction false} DigestibleIsReceived(inputs: seq<Read>)
    requires Feasible(Open([]), inputs) && Digestible(Offered(inputs))
    requires forall i :: 0 <= i < |inputs| ==> inputs[i].Data? && inputs[i].bytes != []
    ensures Run(Open([]), inputs) == Open(Rest(Offered(inputs)))
    ensures Received(Open([]), inputs) == Offered(inputs)
    decreases |inputs|
  {
    hide Digestible, Rest, Lines, Fits;
    if inputs == [] {
      NoNewline([]);
    } else {
      var n := |inputs| - 1;
      var last := inputs[n];
      assert inputs == inputs[..n] + [last];
      FeasiblePrefix(Open([]), inputs[..n], last);
      DigestibleBegins(Offered(inputs[..n]), last.bytes);
      DigestibleIsReceived(inputs[..n]);
      RoomForMore(inputs[..n], last.bytes);
      RunSnoc(Open([]), inputs[..n], last);
      FramingIgnoresFragmentation([], inputs);
      assert [] + Offered(inputs) == Offered(inputs);
    }
  }

  lemma {:induction false} FeasiblePrefix(c: Client, inputs: seq<Read>, r: Read)
    requires Feasible(c, inputs + [r])
    ensures Feasible(c, inputs)
    decreases |inputs|
  {
    hide Feed, Fits;
    if inputs != [] {
      assert (inputs + [r])[1..] == inputs[1..] + [r];
      FeasiblePrefix(Feed(c, inputs[0]).0, inputs[1..], r);
    }
  }

  /** Dropping the last byte of a digestible stream leaves a digestible
      stream with room for one more byte. */
  lemma DigestiblePrefix(a: seq<byte>, b: byte)
    requires Digestible(a + [b])
    ensures Digestible(a) && |Rest(a)| < BUF_SIZE - 1
  {
    SplitAppend(a, [b]);
    var r := Rest(a);
    if b == LF {
      SplitCons(r, []);
      assert r + [LF] + [] == r + [b];
      assert Lines(a + [b]) == Lines(a) + [r];
      assert Lines(a + [b])[|Lines(a)|] == r;
    } else {
      NoNewline(r + [b]);
      assert Lines(a + [b]) == Lines(a);
    }
    forall i | 0 <= i < |Lines(a)|
      ensures |Lines(a)[i]| <= BUF_SIZE - 2
    {
      assert Lines(a + [b])[i] == Lines(a)[i];
    }
  }

  lemma {:induction false} RunSnoc(c: Client, inputs: seq<Read>, r: Read)
    ensures Run(c, inputs + [r]) == Feed(Run(c, inputs), r).0
    ensures Run(c, inputs).Open? && Space(Run(c, inputs).pending) > 0 ==>
              Received(c, inputs + [r]) == Received(c, inputs) + (if r.Data? then r.bytes else [])
    decreases |inputs|
  {
    hide Lines, Rest;
    var bytes := if r.Data? then r.bytes else [];
    if inputs == [] {
      assert inputs + [r] == [r] && [r][1..] == [];
      assert Run(c, [r]) == Run(Feed(c, r).0, []);
      assert Received(Feed(c, r).0, []) == [];
      assert bytes + [] == [] + bytes;
    } else {
      assert (inputs + [r])[1..] == inputs[1..] + [r];
      var c' := Feed(c, inputs[0]).0;
      RunSnoc(c', inputs[1..], r);
      if c'.Removed? {
        RemovedForever(inputs[1..]);
      }
      Assoc(if inputs[0].Data? then inputs[0].bytes else [], Received(c', inputs[1..]), bytes);
    }
  }

  // ----- The buffer in memory

  class Connection {
    const buf: array<byte>
    var len: nat
    var open: bool

    ghost predicate Valid()
      reads this, buf
    {
      buf.Length == BUF_SIZE && len < BUF_SIZE && LF !in buf[..len]
    }

    ghost function View(): Client
      requires Valid()
      reads this, buf
    {
      if open then Client.Open(buf[..len]) else Client.Removed
    }

    constructor ()
      ensures Valid() && View() == Client.Open([])
    {
      buf := new byte[BUF_SIZE];
      len, open := 0, true;
    }

    method Remove()
      requires Valid()
      modifies this
      ensures Valid() && !open
    {
      len, open := 0, false;
    }

    /** Copies a read into the free part of the buffer. */
    method Append(bytes: seq<byte>)
      requires Valid() && open && len + |bytes| < BUF_SIZE
      modifies this`len, buf
      ensures len == old(len) + |bytes| && buf[..len] == old(buf[..len]) + bytes
    {
      forall i | 0 <= i < |bytes| {
        buf[len + i] := bytes[i];
      }
      len := len + |bytes|;
    }

    /** Dispatches every complete line; the rest starts at `start`. */
    method DispatchLines() returns (dispatched: seq<seq<byte>>, start: nat)
      requires buf.Length == BUF_SIZE && len < BUF_SIZE
      modifies buf
      ensures start <= len && dispatched == Lines(old(buf[..len])) && buf[start..len] == Rest(old(buf[..len]))
    {
      hide Lines, Rest;
      ghost var all := buf[..len];
      dispatched, start := [], 0;
      var remaining := len;
      while remaining > 0
        invariant start + remaining == len
        invariant buf[start..len] == all[start..]
        invariant Lines(all) == dispatched + Lines(all[start..]) && Rest(all) == Rest(all[start..])
      {
        ghost var view := all[start..];
        SplitStep(view);
        var nl := IndexFrom(buf[start..len], LF, 0);
        if nl == remaining {
          break;
        }
        assert buf[start..start + nl] == view[..nl] && all[start + nl + 1..] == view[nl + 1..];
        dispatched := dispatched + [buf[start..start + nl]];
        buf[start + nl] := 0;
        start := start + nl + 1;
        remaining := remaining - (nl + 1);
      }
      SplitStep(all[start..]);
    }

    /** Moves the bytes from `start` on to the front. */
    method Compact(start: nat)
      requires buf.Length == BUF_SIZE && start <= len < BUF_SIZE
      modifies this`len, buf
      ensures len == old(len) - start && buf[..len] == old(buf[start..len])
    {
      var remaining := len - start;
      forall i | 0 <= i < remaining {
        buf[i] := buf[start + i];
      }
      len := remaining;
    }

    method Process(r: Read) returns (code: int, dispatched: seq<seq<byte>>)
      requires Valid() && open && Fits(buf[..len], r)
      modifies this, buf
      ensures Valid()
      ensures (View(), dispatched) == Feed(old(View()), r)
      ensures !open <==> old(len) == BUF_SIZE - 1 || r.Failure? || r.Eof?
      ensures r.WouldBlock? && open ==> dispatched == [] && View() == old(View())
      ensures code == if open then 0 else -1
    {
      hide Lines, Rest;
      var space := BUF_SIZE - len - 1;
      if space <= 0 {
        Remove();
        return -1, [];
      }
      match r {
        case WouldBlock => return 0, [];
        case Failure => Remove(); return -1, [];
        case Eof => Remove(); return -1, [];
        case Data(bytes) =>
          Append(bytes);
          var lines, start := DispatchLines();
          Compact(start);
          return 0, lines;
      }
    }
  }
}
