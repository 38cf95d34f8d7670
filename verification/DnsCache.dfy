/** The cache filled from observed DNS traffic: 4096 entries, found by
    case-insensitive domain while live, reused once expired, and searched by
    resolved address when a connection arrives. */
module DnsCache {
  import opened Bytes

  const ENTRIES := 4096
  const TTL := 300
  const TTL_FLOOR := 30
  const DOMAIN_CAP := 252
  const IP_CAP := 45

  type Domain = seq<byte>

  /** The routing decision stored with a domain; not interpreted here. */
  datatype Route = Route(rule: int, action: int, proxy: int, chain: int)

  datatype Entry = Entry(domain: Domain, ip: seq<byte>, route: Route, expires: int, used: bool)

  predicate Live(e: Entry, now: int) {
    e.used && e.expires > now
  }

  predicate Same(a: Domain, b: Domain) {
    Fold(a) == Fold(b)
  }

  // ----- Choosing a slot

  /** First index from k on with a live entry for the domain, or the size. */
  function Match(c: seq<Entry>, d: Domain, now: int, k: nat): (i: nat)
    requires k <= |c|
    ensures k <= i <= |c|
    ensures i < |c| ==> Live(c[i], now) && Same(c[i].domain, d)
    ensures forall j :: k <= j < i ==> !(Live(c[j], now) && Same(c[j].domain, d))
    decreases |c| - k
  {
    if k == |c| || (Live(c[k], now) && Same(c[k].domain, d)) then k else Match(c, d, now, k + 1)
  }

  /** First index from k on with a free or expired entry, or the size. */
  function Dead(c: seq<Entry>, now: int, k: nat): (i: nat)
    requires k <= |c|
    ensures k <= i <= |c|
    ensures i < |c| ==> !Live(c[i], now)
    ensures forall j :: k <= j < i ==> Live(c[j], now)
    decreases |c| - k
  {
    if k == |c| || !Live(c[k], now) then k else Dead(c, now, k + 1)
  }

  /** The live entry of the domain, else the first reusable slot, else none. */
  function Slot(c: seq<Entry>, d: Domain, now: int): (r: Option<nat>)
    ensures r.Some? ==> r.value < |c|
  {
    if Match(c, d, now, 0) < |c| then Some(Match(c, d, now, 0))
    else if Dead(c, now, 0) < |c| then Some(Dead(c, now, 0))
    else None
  }

  // ----- Updates

  /** One entry stored at one moment. */
  datatype Write = Write(slot: nat, time: int, entry: Entry)

  /** A fresh entry for a domain; `find` and `write` are the two clock readings. */
  function Added(c: seq<Entry>, d: Domain, ip: seq<byte>, route: Route, find: int, write: int): (r: Option<Write>)
    ensures r.Some? ==> r.value.slot < |c|
  {
    var slot := Slot(c, d, find);
    if slot.None? then None
    else Some(Write(slot.value, write, Entry(Cut(d, DOMAIN_CAP), Cut(ip, IP_CAP), route, write + TTL, true)))
  }

  function Apply(c: seq<Entry>, w: Option<Write>): (r: seq<Entry>)
    requires w.Some? ==> w.value.slot < |c|
    ensures |r| == |c|
  {
    if w.None? then c else c[w.value.slot := w.value.entry]
  }

  function Add(c: seq<Entry>, d: Domain, ip: seq<byte>, route: Route, find: int, write: int): (r: seq<Entry>)
    ensures |r| == |c|
  {
    Apply(c, Added(c, d, ip, route, find, write))
  }

  /** Lifetime granted for an address record: its own TTL within 30 to 300 s;
      an IPv6 record always gets 300 s. */
  function Lifetime(ttl: Option<nat>): (n: nat)
    ensures TTL_FLOOR <= n <= TTL
  {
    if ttl.None? then TTL
    else if ttl.value < TTL_FLOOR then TTL_FLOOR
    else if ttl.value < TTL then ttl.value
    else TTL
  }

  /** What the daemon sees: a query for a domain, or one address record of a
      response (an IPv4 record with its TTL, an IPv6 record without). The
      clock is read up to three times while an event is handled. */
  datatype Event =
    | Query(domain: Domain, route: Route, t1: int, t2: int)
    | Record(domain: Domain, ip: seq<byte>, ttl: Option<nat>, route: Route, t1: int, t2: int, t3: int)

  function Start(e: Event): int {
    e.t1
  }

  function End(e: Event): int {
    if e.Query? then e.t2 else e.t3
  }

  /** The clock does not run backwards, and domains come from the query parser. */
  predicate Proper(e: Event) {
    && e.t1 <= e.t2 && (e.Record? ==> e.t2 <= e.t3)
    && |e.domain| <= DOMAIN_CAP
  }

  /** A record updates the entry found for its domain, live or expired; else it is inserted afresh. */
  function Effect(c: seq<Entry>, e: Event): (r: Option<Write>)
    ensures r.Some? ==> r.value.slot < |c|
  {
    match e
    case Query(d, route, t1, t2) => Added(c, d, [], route, t1, t2)
    case Record(d, ip, ttl, route, t1, t2, t3) =>
      var slot := Slot(c, d, t1);
      if slot.None? then None
      else
        var found := c[slot.value];
        if found.used && Same(found.domain, d) then
          Some(Write(slot.value, t2, found.(ip := Cut(ip, IP_CAP), expires := t2 + Lifetime(ttl))))
        else Added(c, d, ip, route, t2, t3)
  }

  function Handle(c: seq<Entry>, e: Event): (r: seq<Entry>)
    ensures |r| == |c|
  {
    Apply(c, Effect(c, e))
  }

  // ----- At most one live entry per domain

  ghost predicate Unique(c: seq<Entry>, now: int) {
    forall i, j :: 0 <= i < j < |c| && Live(c[i], now) && Live(c[j], now) ==> !Same(c[i].domain, c[j].domain)
  }

  /** Stored domains fit their field. */
  ghost predicate Stored(c: seq<Entry>) {
    forall i :: 0 <= i < |c| ==> |c[i].domain| <= DOMAIN_CAP
  }

  lemma UniqueLater(c: seq<Entry>, now: int, later: int)
    requires Unique(c, now) && now <= later
    ensures Unique(c, later)
  {
  }

  /** Writing an entry for `d` into the slot chosen for `d` keeps domains
      unique, whether it replaces the live entry, revives an expired one or
      takes a free slot. */
  lemma WriteKeepsUnique(c: seq<Entry>, d: Domain, find: int, write: int, e: Entry)
    requires Unique(c, find) && find <= write && Slot(c, d, find).Some? && Same(e.domain, d)
    ensures Unique(c[Slot(c, d, find).value := e], write)
  {
    var k := Slot(c, d, find).value;
    forall i | 0 <= i < |c| && i != k && Live(c[i], write)
      ensures !Same(c[i].domain, d)
    {
      OnlyMatch(c, d, find, i);
    }
  }

  lemma OnlyMatch(c: seq<Entry>, d: Domain, now: int, i: nat)
    requires Unique(c, now) && i < |c| && Live(c[i], now) && Slot(c, d, now).Some? && i != Slot(c, d, now).value
    ensures !Same(c[i].domain, d)
  {
    var m := Match(c, d, now, 0);
    if m < i {
      assert !Same(c[m].domain, c[i].domain);
    }
  }

  lemma HandleKeepsUnique(c: seq<Entry>, e: Event)
    requires Unique(c, Start(e)) && Proper(e)
    ensures Unique(Handle(c, e), End(e))
  {
    hide Unique, Live;
    UniqueLater(c, e.t1, End(e));
    match e
    case Query(d, route, t1, t2) =>
      if Slot(c, d, t1).Some? {
        WriteKeepsUnique(c, d, t1, t2, Entry(d, [], route, t2 + TTL, true));
      }
    case Record(d, ip, ttl, route, t1, t2, t3) =>
      UniqueLater(c, t1, t2);
      var slot := Slot(c, d, t1);
      if slot.Some? {
        var found := c[slot.value];
        if found.used && Same(found.domain, d) {
          WriteKeepsUnique(c, d, t1, t3, found.(ip := Cut(ip, IP_CAP), expires := t2 + Lifetime(ttl)));
        } else if Slot(c, d, t2).Some? {
          WriteKeepsUnique(c, d, t2, t3, Entry(d, Cut(ip, IP_CAP), route, t3 + TTL, true));
        }
      }
  }

  /** A direct insertion with an over-long domain can break uniqueness: the
      stored, cut domain is not the one searched for. It stays unique exactly
      when the domain fits, no slot is available, or no live entry already
      has the cut domain. */
  lemma AddUniqueIff(c: seq<Entry>, d: Domain, ip: seq<byte>, route: Route, find: int, write: int)
    requires Unique(c, find) && Stored(c) && find <= write
    ensures Unique(Add(c, d, ip, route, find, write), write) <==>
            || |d| <= DOMAIN_CAP
            || Slot(c, d, find).None?
            || forall i :: 0 <= i < |c| && Live(c[i], write) ==> !Same(c[i].domain, Cut(d, DOMAIN_CAP))
  {
    UniqueLater(c, find, write);
    var slot := Slot(c, d, find);
    if slot.Some? {
      if |d| <= DOMAIN_CAP {
        WriteKeepsUnique(c, d, find, write, Entry(d, Cut(ip, IP_CAP), route, write + TTL, true));
      } else {
        LongNeverMatches(c, d, find);
        DeadWriteUniqueIff(c, slot.value, Entry(Cut(d, DOMAIN_CAP), Cut(ip, IP_CAP), route, write + TTL, true), write);
      }
    }
  }

  lemma LongNeverMatches(c: seq<Entry>, d: Domain, now: int)
    requires Stored(c) && |d| > DOMAIN_CAP
    ensures Match(c, d, now, 0) == |c|
  {
    assert forall i :: 0 <= i < |c| ==> |Fold(c[i].domain)| < |Fold(d)|;
  }

  lemma DeadWriteUniqueIff(c: seq<Entry>, k: nat, e: Entry, now: int)
    requires Unique(c, now) && k < |c| && !Live(c[k], now) && Live(e, now)
    ensures Unique(c[k := e], now) <==> forall i :: 0 <= i < |c| && Live(c[i], now) ==> !Same(c[i].domain, e.domain)
  {
    var r := c[k := e];
    if Unique(r, now) {
      forall i | 0 <= i < |c| && Live(c[i], now)
        ensures !Same(c[i].domain, e.domain)
      {
        assert i != k && r[i] == c[i] && r[k] == e;
        assert if i < k then !Same(r[i].domain, r[k].domain) else !Same(r[k].domain, r[i].domain);
      }
    }
  }

  /** Adding the same 253-byte domain twice leaves two live entries for one stored domain. */
  lemma LongDomainDuplicates(route: Route)
    ensures var d := seq(DOMAIN_CAP + 1, _ => 97 as byte);
            var c := seq(ENTRIES, _ => Entry([], [], route, 0, false));
            var once := Add(c, d, [], route, 0, 0);
            Unique(once, 0) && !Unique(Add(once, d, [], route, 0, 0), 0)
  {
    var d := seq(DOMAIN_CAP + 1, _ => 97 as byte);
    var c := seq(ENTRIES, _ => Entry([], [], route, 0, false));
    var once := Add(c, d, [], route, 0, 0);
    LongNeverMatches(c, d, 0);
    assert Dead(c, 0, 0) == 0;
    assert once == c[0 := Entry(Cut(d, DOMAIN_CAP), [], route, TTL, true)];
    AddUniqueIff(c, d, [], route, 0, 0);
    assert !Live(once[1], 0);
    LongNeverMatches(once, d, 0);
    AddUniqueIff(once, d, [], route, 0, 0);
    assert Live(once[0], 0) && Same(once[0].domain, Cut(d, DOMAIN_CAP));
  }

  /** The slot for a domain: its first unexpired entry, else the first slot
      free or expired, and none if all slots hold unexpired entries of other domains. */
  lemma SlotMeaning(c: seq<Entry>, d: Domain, now: int)
    ensures Slot(c, d, now).None? <==>
            forall i :: 0 <= i < |c| ==> c[i].used && c[i].expires > now && Fold(c[i].domain) != Fold(d)
    ensures forall i :: 0 <= i < |c| && c[i].used && c[i].expires > now && Fold(c[i].domain) == Fold(d)
              && (forall j :: 0 <= j < i ==> !(c[j].used && c[j].expires > now && Fold(c[j].domain) == Fold(d)))
              ==> Slot(c, d, now) == Some(i)
    ensures forall i :: 0 <= i < |c| && !(c[i].used && c[i].expires > now)
              && (forall j :: 0 <= j < i ==> c[j].used && c[j].expires > now)
              && (forall j :: 0 <= j < |c| ==> !(c[j].used && c[j].expires > now && Fold(c[j].domain) == Fold(d)))
              ==> Slot(c, d, now) == Some(i)
  {
    hide Fold;
  }

  /** What an event leaves behind when a slot can be had: a query stores its
      domain without an address for 300 s; a record updates address and expiry
      of an entry of its domain, which keeps its route, with the record's
      lifetime within 30 to 300 s (300 s without one), and is stored for 300 s
      if the slot has no such entry. */
  lemma EffectMeaning(c: seq<Entry>, e: Event)
    requires Proper(e)
    ensures Effect(c, e).Some? <==> Slot(c, e.domain, e.t1).Some?
    ensures Effect(c, e).Some? ==>
              var w := Effect(c, e).value;
              var before := c[w.slot];
              var known := e.Record? && before.used && Fold(before.domain) == Fold(e.domain);
              && Slot(c, e.domain, if e.Query? || known then e.t1 else e.t2) == Some(w.slot)
              && w.time == (if e.Query? || known then e.t2 else e.t3)
              && w.entry.used && w.entry.ip == (if e.Query? then [] else Cut(e.ip, 45))
              && w.entry.domain == (if known then before.domain else e.domain)
              && w.entry.route == (if known then before.route else e.route)
              && w.entry.expires - w.time ==
                 (if !known || e.ttl.None? || e.ttl.value > 300 then 300 else if e.ttl.value < 30 then 30 else e.ttl.value)
  {
    if e.Record? && Slot(c, e.domain, e.t1).Some? {
      StillDead(c, e.domain, e.t1, e.t2);
      NewSlot(c, e.domain, e.t1, e.t2);
    }
    hide Slot, Fold;
  }

  /** If the slot found for a domain holds another one, so does the slot found later. */
  lemma NewSlot(c: seq<Entry>, d: Domain, now: int, later: int)
    requires now <= later && Slot(c, d, now).Some? && Slot(c, d, later).Some?
    ensures var found, next := c[Slot(c, d, now).value], c[Slot(c, d, later).value];
            !(found.used && Same(found.domain, d)) ==> !(next.used && Same(next.domain, d))
  {
    hide Fold;
  }

  /** A slot that can be had stays available as time passes. */
  lemma StillDead(c: seq<Entry>, d: Domain, now: int, later: int)
    requires now <= later && Slot(c, d, now).Some?
    ensures Slot(c, d, later).Some?
  {
    var k := Slot(c, d, now).value;
    assert !Live(c[k], later) || Same(c[k].domain, d);
  }

  // ----- Runs

  /** Events in order of a clock that does not run backwards, from `now` on. */
  ghost predicate Timeline(now: int, events: seq<Event>)
    decreases |events|
  {
    events == [] || (now <= Start(events[0]) && Proper(events[0]) && Timeline(End(events[0]), events[1..]))
  }

  function Run(c: seq<Entry>, events: seq<Event>): (r: seq<Entry>)
    ensures |r| == |c|
    decreases |events|
  {
    if events == [] then c else Run(Handle(c, events[0]), events[1..])
  }

  function Clock(now: int, events: seq<Event>): int
    decreases |events|
  {
    if events == [] then now else Clock(End(events[0]), events[1..])
  }

  /** The time of the last write of each slot. */
  function Stamp(c: seq<Entry>, stamps: seq<int>, e: Event): (r: seq<int>)
    requires |stamps| == |c|
    ensures |r| == |c|
  {
    var w := Effect(c, e);
    if w.None? then stamps else stamps[w.value.slot := w.value.time]
  }

  function RunStamps(c: seq<Entry>, stamps: seq<int>, events: seq<Event>): (r: seq<int>)
    requires |stamps| == |c|
    ensures |r| == |c|
    decreases |events|
  {
    if events == [] then stamps else RunStamps(Handle(c, events[0]), Stamp(c, stamps, events[0]), events[1..])
  }

  ghost predicate ExpiresInTime(c: seq<Entry>, stamps: seq<int>) {
    && |stamps| == |c|
    && forall i :: 0 <= i < |c| && c[i].used ==> stamps[i] + TTL_FLOOR <= c[i].expires <= stamps[i] + TTL
  }

  /** Every run of queries and responses keeps at most one live entry per
      domain ignoring case, and every entry expires 30 to 300 s after its
      last write. */
  lemma {:induction false} RunKeepsUnique(c: seq<Entry>, stamps: seq<int>, now: int, events: seq<Event>)
    requires Unique(c, now) && ExpiresInTime(c, stamps) && Timeline(now, events)
    ensures Unique(Run(c, events), Clock(now, events))
    ensures ExpiresInTime(Run(c, events), RunStamps(c, stamps, events))
    decreases |events|
  {
    if events != [] {
      var e := events[0];
      StampInTime(c, stamps, e);
      hide Unique, ExpiresInTime, Handle, Proper;
      UniqueLater(c, now, Start(e));
      HandleKeepsUnique(c, e);
      RunKeepsUnique(Handle(c, e), Stamp(c, stamps, e), End(e), events[1..]);
    }
  }

  lemma StampInTime(c: seq<Entry>, stamps: seq<int>, e: Event)
    requires ExpiresInTime(c, stamps)
    ensures ExpiresInTime(Handle(c, e), Stamp(c, stamps, e))
  {
    hide Slot, Same, Cut;
  }

  // ----- The table in memory

  class Cache {
    const table: array<Entry>

    constructor ()
      ensures table.Length == ENTRIES
      ensures Unique(table[..], 0) && ExpiresInTime(table[..], seq(ENTRIES, _ => 0))
    {
      table := new Entry[ENTRIES](_ => Entry([], [], Route(0, 0, 0, 0), 0, false));
    }

    method FindSlot(d: Domain, now: int) returns (r: Option<nat>)
      ensures r == Slot(table[..], d, now)
    {
      hide Live, Same;
      var reuse: Option<nat> := None;
      var i := 0;
      while i < table.Length
        invariant 0 <= i <= table.Length
        invariant Match(table[..], d, now, 0) == Match(table[..], d, now, i)
        invariant reuse.None? ==> Dead(table[..], now, 0) == Dead(table[..], now, i)
        invariant reuse.Some? ==> reuse.value < i && Dead(table[..], now, 0) == reuse.value
      {
        if !Live(table[i], now) {
          NotLiveNoMatch(table[..], d, now, i);
          if reuse.None? {
            reuse := Some(i);
          }
        } else if Same(table[i].domain, d) {
          return Some(i);
        }
        i := i + 1;
      }
      return reuse;
    }

    method CacheAdd(d: Domain, ip: seq<byte>, route: Route, find: int, write: int)
      modifies table
      ensures table[..] == Add(old(table[..]), d, ip, route, find, write)
    {
      hide Slot;
      var slot := FindSlot(d, find);
      if slot.None? {
        return;
      }
      table[slot.value] := Entry(Cut(d, DOMAIN_CAP), Cut(ip, IP_CAP), route, write + TTL, true);
    }

    /** The cache update for one query or one address record. */
    method Process(e: Event)
      modifies table
      ensures table[..] == Handle(old(table[..]), e)
    {
      hide Slot;
      if e.Query? {
        CacheAdd(e.domain, [], e.route, e.t1, e.t2);
        return;
      }
      var slot := FindSlot(e.domain, e.t1);
      if slot.None? {
        return;
      }
      var found := table[slot.value];
      if found.used && Same(found.domain, e.domain) {
        table[slot.value] := found.(ip := Cut(e.ip, IP_CAP), expires := e.t2 + Lifetime(e.ttl));
      } else {
        CacheAdd(e.domain, e.ip, e.route, e.t2, e.t3);
      }
    }

    /** The first live entry with the address, if any; the empty address never matches. */
    method LookupIp(ip: seq<byte>, now: int) returns (r: Option<Entry>)
      ensures r.Some? ==> r.value in table[..] && r.value.used && r.value.expires > now && r.value.ip == ip && ip != []
      ensures r.Some? <==>
              exists i :: 0 <= i < table.Length && table[i].used && table[i].expires > now && table[i].ip == ip && ip != []
    {
      var i := 0;
      while i < table.Length
        invariant 0 <= i <= table.Length
        invariant forall j :: 0 <= j < i ==> !(Live(table[j], now) && table[j].ip == ip && ip != [])
      {
        var e := table[i];
        if Live(e, now) && e.ip != [] && e.ip == ip {
          assert table[..][i] == e;
          return Some(e);
        }
        i := i + 1;
      }
      return None;
    }
  }

  lemma NotLiveNoMatch(c: seq<Entry>, d: Domain, now: int, i: nat)
    requires i < |c| && !Live(c[i], now)
    ensures Match(c, d, now, i) == Match(c, d, now, i + 1)
  {
  }
}
