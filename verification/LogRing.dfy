/** The daemon's in-memory rings of numbered entries (the log of connections
    and the inspected requests) and the GUI client that polls the log: a ring
    keeps the last entries, the client counts what it missed and keeps the
    last 10000 it received. */
module LogRing {
  import opened Bytes

  const LOG_SIZE := 2000
  const KEPT := 10000
  const LIST_DEFAULT := 500
  const LIST_MAX := 1000
  /** A request passes its sequence number through a C int. */
  const INT_LIMIT := 0x8000_0000

  datatype LogEntry<T> = LogEntry(seqNo: nat, data: T)

  // ----- A ring as a function of everything ever logged

  /** Number of entries already overwritten. */
  function Lost(n: nat, size: nat): nat {
    if n > size then n - size else 0
  }

  /** Entries number lo + 1 to hi; numbering starts at 1. */
  function Numbered<T>(log: seq<T>, lo: nat, hi: nat): (r: seq<LogEntry<T>>)
    requires lo <= hi <= |log|
    ensures |r| == hi - lo
    ensures forall i :: 0 <= i < |r| ==> r[i] == LogEntry(lo + i + 1, log[lo + i])
  {
    seq(hi - lo, i requires 0 <= i < hi - lo => LogEntry(lo + i + 1, log[lo + i]))
  }

  function Max(a: int, b: int): int {
    if a < b then b else a
  }

  /** What a ring still holds beyond number `since`, ascending. */
  function Recent<T>(log: seq<T>, since: int, size: nat): seq<LogEntry<T>> {
    if since >= |log| then [] else Numbered(log, Max(since, Lost(|log|, size)), |log|)
  }

  /** The last n elements. */
  function Last<T>(s: seq<T>, n: nat): seq<T> {
    if |s| <= n then s else s[|s| - n..]
  }

  /** Exactly the last `size` entries with numbers above `since`, in the order of their numbers. */
  lemma RecentMeaning<T>(log: seq<T>, since: int, size: nat)
    ensures var r := Recent(log, since, size);
            && (forall k: nat :: k < |log| ==>
                  (LogEntry(k + 1, log[k]) in r <==> k + 1 > since && k >= |log| - size))
            && (forall i :: 0 <= i < |r| ==> 1 <= r[i].seqNo <= |log| && r[i].data == log[r[i].seqNo - 1])
            && Ascending(r)
  {
    var r := Recent(log, since, size);
    var low := |log| - |r|;
    assert forall i :: 0 <= i < |r| ==> r[i] == LogEntry(low + i + 1, log[low + i]);
    forall k: nat | low <= k < |log|
      ensures LogEntry(k + 1, log[k]) in r
    {
      assert r[k - low] == LogEntry(k + 1, log[k]);
    }
  }

  // ----- Positions in a ring

  /** The slot of entry number k + 1. */
  function Pos(k: nat, size: nat): (p: nat)
    requires size > 0
    ensures p < size
  {
    if k == 0 then 0 else Wrap(Pos(k - 1, size) + 1, size)
  }

  function Wrap(x: nat, size: nat): nat {
    if x >= size then x - size else x
  }

  lemma SmallMod(x: nat, size: nat)
    requires x < 2 * size
    ensures x % size == Wrap(x, size)
  {
    if x >= size {
      assert x == 1 * size + (x - size);
    }
  }

  lemma {:induction false} PosAhead(k: nat, d: nat, size: nat)
    requires size > 0 && d <= size
    ensures Pos(k + d, size) == Wrap(Pos(k, size) + d, size)
    decreases d
  {
    if d > 0 {
      PosAhead(k, d - 1, size);
    }
  }

  ghost predicate Holds<T>(ring: seq<Option<LogEntry<T>>>, log: seq<T>) {
    && |ring| > 0
    && forall k :: Lost(|log|, |ring|) <= k < |log| ==> ring[Pos(k, |ring|)] == Some(LogEntry(k + 1, log[k]))
  }

  lemma HoldsAfterAppend<T>(ring: seq<Option<LogEntry<T>>>, log: seq<T>, x: T)
    requires Holds(ring, log)
    ensures Holds(ring[Pos(|log|, |ring|) := Some(LogEntry(|log| + 1, x))], log + [x])
  {
    hide Pos;
    forall k | Lost(|log| + 1, |ring|) <= k < |log|
      ensures Pos(k, |ring|) != Pos(|log|, |ring|)
    {
      PosAhead(k, |log| - k, |ring|);
    }
  }

  /** The readers' index arithmetic: the i-th oldest of `count` held entries. */
  lemma IndexOf(n: nat, count: nat, i: nat, size: nat)
    requires size > 0 && count <= size && count <= n && i < count
    ensures 0 <= Pos(n, size) - count + i + size
    ensures (Pos(n, size) - count + i + size) % size == Pos(n - count + i, size)
  {
    hide Pos;
    var k := n - count + i;
    PosAhead(k, n - k, size);
    SmallMod(Pos(n, size) - (n - k) + size, size);
  }

  // ----- A ring in memory

  class Ring<T(0)> {
    const slots: array<Option<LogEntry<T>>>
    var head: nat
    var count: nat
    var lastSeq: nat
    ghost var log: seq<T>

    ghost predicate Valid()
      reads this, slots
    {
      && slots.Length > 0 && Holds(slots[..], log)
      && head == Pos(|log|, slots.Length) && count == |log| - Lost(|log|, slots.Length) && lastSeq == |log|
    }

    constructor (size: nat)
      requires size > 0
      ensures Valid() && log == [] && slots.Length == size
    {
      slots := new Option<LogEntry<T>>[size](_ => None);
      head, count, lastSeq, log := 0, 0, 0, [];
    }

    method Append(x: T)
      requires Valid()
      modifies this, slots
      ensures Valid() && log == old(log) + [x]
    {
      var size := slots.Length;
      HoldsAfterAppend(slots[..], log, x);
      SmallMod(head + 1, size);
      assert Pos(|log| + 1, size) == Wrap(head + 1, size);
      hide Pos, Holds;
      lastSeq := lastSeq + 1;
      slots[head] := Some(LogEntry(lastSeq, x));
      head := (head + 1) % size;
      if count < size {
        count := count + 1;
      }
      log := log + [x];
    }

    /** The i-th oldest entry, at the readers' index. */
    method HeldAt(i: nat) returns (e: Option<LogEntry<T>>)
      requires Valid() && i < count
      ensures e == Some(LogEntry(|log| - count + i + 1, log[|log| - count + i]))
    {
      hide Pos;
      IndexOf(|log|, count, i, slots.Length);
      e := slots[(head - count + i + slots.Length) % slots.Length];
      assert e == slots[..][Pos(|log| - count + i, slots.Length)];
    }

    /** The reply to a poll of the log: the held entries above `since`, oldest first. */
    method Poll(since: int) returns (reply: seq<LogEntry<T>>)
      requires Valid() && -INT_LIMIT <= since < INT_LIMIT
      ensures reply == Recent(log, since, slots.Length)
    {
      hide Holds, Pos;
      reply := [];
      ghost var low := Lost(|log|, slots.Length);
      var i := 0;
      while i < count
        invariant 0 <= i <= count
        invariant reply == if since >= low + i then [] else Numbered(log, Max(since, low), low + i)
      {
        var e := HeldAt(i);
        if e.Some? && e.value.seqNo > since {
          reply := reply + [e.value];
        }
        i := i + 1;
      }
    }

    /** The reply to a listing of the inspected requests, whose ring has 5000
        slots: walked from the newest
        entry down and cut at the limit, so that it holds the newest ones
        above `since`, oldest first. */
    method List(since: int, limit: int) returns (reply: seq<LogEntry<T>>)
      requires Valid() && -INT_LIMIT <= since < INT_LIMIT
      ensures reply == Last(Recent(log, since, slots.Length), if 1 <= limit <= 1000 then limit else 500)
    {
      assert Recent(log, since, slots.Length) == Above(log, since, Lost(|log|, slots.Length));
      hide Holds, Pos, Above, Last, Reversed, Recent;
      var cap := ListLimit(limit);
      var newest, at := Walk(since, cap);
      LastAbove(log, since, |log| - count, at, cap);
      reply := Reverse(newest);
    }

    /** Collects entries above `since` from the newest down, until there are
        `cap` of them or no more entries. */
    method Walk(since: int, cap: nat) returns (newest: seq<LogEntry<T>>, ghost at: nat)
      requires Valid()
      ensures |log| - count <= at <= |log| && Reversed(newest) == Above(log, since, at)
      ensures |newest| <= cap && (at == |log| - count || |newest| == cap)
    {
      hide Holds, Pos, Above, Numbered, Reversed, Lost;
      NothingAbove(log, since);
      ghost var low := |log| - count;
      newest := [];
      var i := count;
      while i > 0 && |newest| < cap
        invariant 0 <= i <= count && |newest| <= cap
        invariant Reversed(newest) == Above(log, since, low + i)
      {
        i := i - 1;
        AboveStep(log, since, low + i);
        var e := HeldAt(i);
        if e.Some? && e.value.seqNo > since {
          ReversedSnoc(newest, e.value);
          newest := newest + [e.value];
        }
      }
      at := low + i;
    }
  }

  /** The entries above `since` from position `low` on. */
  function Above<T>(log: seq<T>, since: int, low: nat): seq<LogEntry<T>>
    requires low <= |log|
  {
    if since >= |log| then [] else Numbered(log, Max(since, low), |log|)
  }

  lemma NothingAbove<T>(log: seq<T>, since: int)
    ensures Above(log, since, |log|) == [] && Reversed<LogEntry<T>>([]) == []
  {
  }

  /** Length and elements of what is above a number. */
  lemma AboveAt<T>(log: seq<T>, since: int, low: nat)
    requires low <= |log|
    ensures |Above(log, since, low)| == if since >= |log| then 0 else |log| - Max(since, low)
    ensures forall i :: 0 <= i < |Above(log, since, low)| ==>
              var k := |log| - |Above(log, since, low)| + i;
              k < |log| && Above(log, since, low)[i] == LogEntry(k + 1, log[k])
  {
  }

  lemma AboveStep<T>(log: seq<T>, since: int, low: nat)
    requires low < |log|
    ensures Above(log, since, low) ==
            if low + 1 > since then [LogEntry(low + 1, log[low])] + Above(log, since, low + 1)
            else Above(log, since, low + 1)
  {
    AboveAt(log, since, low);
    AboveAt(log, since, low + 1);
    hide Above;
  }

  /** Stopping the walk at the limit, or at the oldest entry, leaves the last `cap` entries. */
  lemma LastAbove<T>(log: seq<T>, since: int, low: nat, at: nat, cap: nat)
    requires low <= at <= |log| && |Above(log, since, at)| <= cap
    requires at == low || |Above(log, since, at)| == cap
    ensures Last(Above(log, since, low), cap) == Above(log, since, at)
  {
    AboveAt(log, since, low);
    AboveAt(log, since, at);
    hide Above;
  }

  /** A listing without a sensible limit gets 500 entries, never more than 1000. */
  function ListLimit(limit: int): (r: nat)
    ensures 1 <= limit <= 1000 ==> r == limit
    ensures limit < 1 || limit > 1000 ==> r == 500
  {
    if limit <= 0 || limit > LIST_MAX then LIST_DEFAULT else limit
  }

  function Reversed<T>(s: seq<T>): (r: seq<T>)
    ensures |r| == |s|
  {
    if s == [] then [] else Reversed(s[1..]) + [s[0]]
  }

  lemma {:induction false} ReversedSnoc<T>(s: seq<T>, x: T)
    ensures Reversed(s + [x]) == [x] + Reversed(s)
    decreases |s|
  {
    if s == [] {
      assert s + [x] == [x] && [x][1..] == [];
    } else {
      assert (s + [x])[1..] == s[1..] + [x];
      ReversedSnoc(s[1..], x);
    }
  }

  method Reverse<T>(s: seq<T>) returns (r: seq<T>)
    ensures r == Reversed(s)
  {
    r := [];
    var i := |s|;
    assert s[..i] == s;
    while i > 0
      invariant 0 <= i <= |s| && r + Reversed(s[..i]) == Reversed(s)
    {
      i := i - 1;
      assert s[..i + 1] == s[..i] + [s[i]];
      ReversedSnoc(s[..i], s[i]);
      r := r + [s[i]];
    }
  }

  // ----- The polling client

  /** `last` is the highest number seen. */
  datatype Client<T> = Client(last: nat, dropped: nat, entries: seq<LogEntry<T>>)

  function Insert<T>(e: LogEntry<T>, s: seq<LogEntry<T>>): seq<LogEntry<T>> {
    if s == [] || e.seqNo <= s[0].seqNo then [e] + s else [s[0]] + Insert(e, s[1..])
  }

  function Sort<T>(s: seq<LogEntry<T>>): seq<LogEntry<T>> {
    if s == [] then [] else Insert(s[0], Sort(s[1..]))
  }

  ghost predicate Ascending<T>(s: seq<LogEntry<T>>) {
    forall i, j :: 0 <= i < j < |s| ==> s[i].seqNo < s[j].seqNo
  }

  lemma {:induction false} InsertRearranges<T>(e: LogEntry<T>, s: seq<LogEntry<T>>)
    ensures multiset(Insert(e, s)) == multiset{e} + multiset(s)
    decreases |s|
  {
    if s != [] {
      assert s == [s[0]] + s[1..];
      if e.seqNo > s[0].seqNo {
        InsertRearranges(e, s[1..]);
      }
    }
  }

  /** No entry has a smaller number than the first. */
  ghost predicate FirstLeast<T>(s: seq<LogEntry<T>>) {
    forall i :: 0 <= i < |s| ==> s[0].seqNo <= s[i].seqNo
  }

  ghost predicate Sorted<T>(s: seq<LogEntry<T>>) {
    s == [] || (FirstLeast(s) && Sorted(s[1..]))
  }

  lemma {:induction false} InsertSorted<T>(e: LogEntry<T>, s: seq<LogEntry<T>>)
    requires Sorted(s)
    ensures Sorted(Insert(e, s)) && |Insert(e, s)| == |s| + 1
    ensures Insert(e, s)[0] == (if s == [] || e.seqNo <= s[0].seqNo then e else s[0])
    decreases |s|
  {
    if s == [] || e.seqNo <= s[0].seqNo {
      assert ([e] + s)[1..] == s;
      assert FirstLeast([e] + s);
    } else {
      InsertSorted(e, s[1..]);
      var t := Insert(e, s[1..]);
      assert ([s[0]] + t)[1..] == t && FirstLeast(t);
      assert t[0] == e || t[0] == s[1];
      assert FirstLeast([s[0]] + t);
    }
  }

  lemma {:induction false} SortedOrder<T>(s: seq<LogEntry<T>>, i: nat, j: nat)
    requires Sorted(s) && i <= j < |s|
    ensures s[i].seqNo <= s[j].seqNo
    decreases i
  {
    if i > 0 {
      SortedOrder(s[1..], i - 1, j - 1);
    }
  }

  /** Sorting rearranges the entries by number. */
  lemma {:induction false} SortMeaning<T>(s: seq<LogEntry<T>>)
    ensures multiset(Sort(s)) == multiset(s) && Sorted(Sort(s))
    ensures forall i, j :: 0 <= i < j < |Sort(s)| ==> Sort(s)[i].seqNo <= Sort(s)[j].seqNo
    decreases |s|
  {
    hide Insert, Sorted;
    if s != [] {
      SortMeaning(s[1..]);
      InsertRearranges(s[0], Sort(s[1..]));
      InsertSorted(s[0], Sort(s[1..]));
      assert s == [s[0]] + s[1..];
    } else {
      EmptySorted<T>();
    }
    forall i, j | 0 <= i < j < |Sort(s)|
      ensures Sort(s)[i].seqNo <= Sort(s)[j].seqNo
    {
      SortedOrder(Sort(s), i, j);
    }
  }

  lemma EmptySorted<T>()
    ensures Sorted<T>([])
  {
  }

  lemma {:induction false} SortKeepsAscending<T>(s: seq<LogEntry<T>>)
    requires Ascending(s)
    ensures Sort(s) == s
    decreases |s|
  {
    if |s| > 1 {
      SortKeepsAscending(s[1..]);
      assert s == [s[0]] + s[1..];
    } else if |s| == 1 {
      assert s[1..] == [] && s == [s[0]];
    }
  }

  /** JavaScript's `slice` from a non-negative start. */
  function From<T>(s: seq<T>, start: nat): seq<T> {
    if start >= |s| then [] else s[start..]
  }

  /** One unpaused tick with the daemon's reply. */
  function Tick<T>(c: Client<T>, reply: seq<LogEntry<T>>): Client<T> {
    if reply == [] then c
    else
      var sorted := Sort(reply);
      if sorted == [] then c
      else
        var first, last := sorted[0].seqNo, sorted[|sorted| - 1].seqNo;
        Client(
          if last > c.last then last else c.last,
          if c.last > 0 && first > c.last + 1 then c.dropped + (first - c.last - 1) else c.dropped,
          if |c.entries| + |sorted| > KEPT then From(c.entries, |c.entries| + |sorted| - KEPT) + sorted
          else c.entries + sorted)
  }

  // ----- Daemon and client together

  datatype Event<T> = Append(x: T) | Poll | Clear

  /** `received`: everything received since the last clear; `base`: the number
      just before the first entry due since then. */
  datatype World<T> = World(log: seq<T>, client: Client<T>, base: nat, received: seq<LogEntry<T>>)

  function Initial<T>(log: seq<T>): World<T> {
    World(log, Client(0, 0, []), 0, [])
  }

  function Step<T>(w: World<T>, e: Event<T>): World<T> {
    match e
    case Append(x) => w.(log := w.log + [x])
    case Clear => w.(client := w.client.(dropped := 0, entries := []), base := w.client.last, received := [])
    case Poll =>
      var reply := Recent(w.log, w.client.last, LOG_SIZE);
      World(w.log, Tick(w.client, reply),
        if w.client.last == 0 && reply != [] then reply[0].seqNo - 1 else w.base,
        w.received + reply)
  }

  /** What was received is genuine, in order and without repetition, and
      together with the reported losses it makes up every number since the
      client began (or was cleared); the displayed list is its end. */
  ghost predicate Conserved<T>(w: World<T>) {
    && w.base <= w.client.last <= |w.log|
    && |w.received| + w.client.dropped == w.client.last - w.base
    && Ascending(w.received)
    && (forall i :: 0 <= i < |w.received| ==>
          w.base < w.received[i].seqNo <= w.client.last && w.received[i].data == w.log[w.received[i].seqNo - 1])
    && w.client.entries == Last(w.received, KEPT)
  }

  lemma LastAppend<T>(a: seq<T>, b: seq<T>)
    requires |b| <= KEPT
    ensures var kept := Last(a, KEPT);
            Last(a + b, KEPT) == if |kept| + |b| > KEPT then From(kept, |kept| + |b| - KEPT) + b else kept + b
  {
  }

  /** A reply to a client that is behind: consecutive numbers up to the newest. */
  lemma RecentShape<T>(log: seq<T>, since: nat)
    requires since < |log|
    ensures var reply := Recent(log, since, LOG_SIZE);
            && 1 <= |reply| <= LOG_SIZE && Ascending(reply)
            && reply[0].seqNo > since && reply[|reply| - 1].seqNo == |log|
            && |reply| == |log| - (reply[0].seqNo - 1)
            && forall i :: 0 <= i < |reply| ==>
                 since < reply[i].seqNo <= |log| && reply[i].data == log[reply[i].seqNo - 1]
  {
  }

  lemma TickAscending<T>(c: Client<T>, reply: seq<LogEntry<T>>)
    requires reply != [] && Ascending(reply)
    ensures var first, last := reply[0].seqNo, reply[|reply| - 1].seqNo;
            Tick(c, reply) == Client(
              if last > c.last then last else c.last,
              if c.last > 0 && first > c.last + 1 then c.dropped + (first - c.last - 1) else c.dropped,
              if |c.entries| + |reply| > KEPT then From(c.entries, |c.entries| + |reply| - KEPT) + reply
              else c.entries + reply)
  {
    hide Ascending, Sort;
    SortKeepsAscending(reply);
  }

  lemma PollTick<T>(w: World<T>)
    requires Conserved(w) && w.client.last < |w.log|
    ensures var reply := Recent(w.log, w.client.last, LOG_SIZE);
            reply != [] && Tick(w.client, reply) == Client(
              |w.log|,
              w.client.dropped + (if w.client.last > 0 then reply[0].seqNo - w.client.last - 1 else 0),
              Last(w.received + reply, KEPT))
  {
    hide Ascending, Recent, Tick, Last, From;
    var reply := Recent(w.log, w.client.last, LOG_SIZE);
    RecentShape(w.log, w.client.last);
    TickAscending(w.client, reply);
    LastAppend(w.received, reply);
  }

  lemma PollKeepsConserved<T>(w: World<T>)
    requires Conserved(w)
    ensures Conserved(Step(w, Poll))
  {
    hide Tick, Last, Recent;
    if w.client.last < |w.log| {
      PollTick(w);
      RecentShape(w.log, w.client.last);
      var reply := Recent(w.log, w.client.last, LOG_SIZE);
      var w' := Step(w, Poll);
      forall i | 0 <= i < |w'.received|
        ensures w'.base < w'.received[i].seqNo <= w'.client.last
        ensures w'.received[i].data == w'.log[w'.received[i].seqNo - 1]
      {
        if i >= |w.received| {
          assert w'.received[i] == reply[i - |w.received|];
        }
      }
    } else {
      EmptyTick(w.client);
      EmptyRecent(w.log, w.client.last);
      assert w.received + [] == w.received;
    }
  }

  lemma EmptyRecent<T>(log: seq<T>, since: nat)
    requires since >= |log|
    ensures Recent(log, since, LOG_SIZE) == []
  {
  }

  lemma EmptyTick<T>(c: Client<T>)
    ensures Tick(c, []) == c
  {
  }

  lemma StepKeepsConserved<T>(w: World<T>, e: Event<T>)
    requires Conserved(w) && |w.log| < INT_LIMIT
    ensures Conserved(Step(w, e))
  {
    if e.Poll? {
      PollKeepsConserved(w);
    }
  }

  function Run<T>(w: World<T>, events: seq<Event<T>>): World<T>
    decreases |events|
  {
    if events == [] then w else Run(Step(w, events[0]), events[1..])
  }

  /** Over every interleaving of appends, polls and clears, from a ring in any
      state, while numbers fit a C int: received + dropped = last number -
      number before the first, and the displayed list is the last 10000 received. */
  lemma {:induction false} RunKeepsConserved<T>(w: World<T>, events: seq<Event<T>>)
    requires Conserved(w) && |w.log| + |events| < INT_LIMIT
    ensures Conserved(Run(w, events))
    decreases |events|
  {
    hide Conserved;
    if events != [] {
      assert |Step(w, events[0]).log| <= |w.log| + 1;
      hide Step;
      StepKeepsConserved(w, events[0]);
      RunKeepsConserved(Step(w, events[0]), events[1..]);
    }
  }

  lemma ConservedFromStart<T>(log: seq<T>, events: seq<Event<T>>)
    requires |log| + |events| < INT_LIMIT
    ensures Conserved(Run(Initial(log), events))
  {
    RunKeepsConserved(Initial(log), events);
  }
}
