/** The MITM certificate cache: 256 slots, open addressing with a 16-slot
    probe window, least-recently-used eviction inside the window, and
    reference-counted certificates shared with the callers. */
module CertCache {
  import opened Bytes

  const SLOTS := 256
  const PROBE := 16
  const DOMAIN_MAX := 253
  const TICK_MODULUS := 0x1_0000_0000_0000_0000

  type Domain = seq<byte>

  /** Start of a probe window: a hash value masked to the table size. */
  type Base = b: nat | b < SLOTS
  type Hash = Domain -> Base

  /** Identity of a live certificate and key pair; both halves are always counted together. */
  type Cert = nat

  datatype Slot = Free | Used(domain: Domain, cert: Cert, lastUsed: nat)

  /** `refs` holds every live pair with its reference count. */
  datatype State = State(slots: seq<Slot>, count: int, tick: nat, refs: map<Cert, nat>)

  datatype Outcome = Hit(cert: Cert) | Generated(cert: Cert) | Failed

  predicate AlphaNumeric(b: byte) {
    48 <= b <= 57 || 65 <= b <= 90 || 97 <= b <= 122
  }

  /** Letters, digits, dot, dash and underscore, 1 to 253 of them. */
  predicate Safe(d: Domain) {
    && 1 <= |d| <= DOMAIN_MAX
    && forall i :: 0 <= i < |d| ==> AlphaNumeric(d[i]) || d[i] in {46, 45, 95}
  }

  /** The k-th slot of the probe window, wrapping at the end of the table. */
  function At(h: Base, k: nat): (i: nat)
    requires k < SLOTS
    ensures i < SLOTS
  {
    if h + k < SLOTS then h + k else h + k - SLOTS
  }

  /** The probe step at which slot `i` appears in the window. */
  function Distance(h: Base, i: nat): (k: nat)
    requires i < SLOTS
    ensures k < SLOTS && At(h, k) == i
  {
    if h <= i then i - h else i + SLOTS - h
  }

  /** The window runs forward and wraps around; its start is step 0. */
  lemma WindowIsCyclic(h: Base, k: nat)
    requires k < SLOTS
    ensures At(h, k) == (h + k) % 256
  {
  }

  lemma DistanceAt(h: Base, k: nat)
    requires k < SLOTS
    ensures Distance(h, At(h, k)) == k
  {
  }

  /** First probe step from `k` on whose slot is free, or 16. */
  function FirstFree(slots: seq<Slot>, h: Base, k: nat): (f: nat)
    requires |slots| == SLOTS && k <= PROBE
    ensures k <= f <= PROBE
    ensures forall j :: k <= j < f ==> slots[At(h, j)].Used?
    ensures f < PROBE ==> slots[At(h, f)].Free?
    decreases PROBE - k
  {
    if k == PROBE || slots[At(h, k)].Free? then k else FirstFree(slots, h, k + 1)
  }

  /** First probe step before the first free slot that holds `key`, or 16. */
  function Find(slots: seq<Slot>, h: Base, key: Domain, k: nat): (f: nat)
    requires |slots| == SLOTS && k <= PROBE
    ensures k <= f <= PROBE
    ensures f < PROBE ==> f < FirstFree(slots, h, k) && slots[At(h, f)].Used? && slots[At(h, f)].domain == key
    ensures f == PROBE ==> forall j :: k <= j < FirstFree(slots, h, k) ==> slots[At(h, j)].domain != key
    decreases PROBE - k
  {
    if k == PROBE || slots[At(h, k)].Free? then PROBE
    else if slots[At(h, k)].domain == key then k
    else Find(slots, h, key, k + 1)
  }

  /** The step of the smallest tick among the first `n` slots of the window. */
  function Oldest(slots: seq<Slot>, h: Base, n: nat): (r: nat)
    requires |slots| == SLOTS && 1 <= n <= PROBE
    requires forall j :: 0 <= j < n ==> slots[At(h, j)].Used?
    ensures r < n
    ensures forall j :: 0 <= j < n ==> slots[At(h, r)].lastUsed <= slots[At(h, j)].lastUsed
  {
    if n == 1 then 0
    else
      var r := Oldest(slots, h, n - 1);
      if slots[At(h, n - 1)].lastUsed < slots[At(h, r)].lastUsed then n - 1 else r
  }

  function UpRef(refs: map<Cert, nat>, c: Cert): map<Cert, nat> {
    if c in refs then refs[c := refs[c] + 1] else refs
  }

  /** Dropping the last reference destroys the pair. */
  function Unref(refs: map<Cert, nat>, c: Cert): map<Cert, nat> {
    if c !in refs then refs
    else if refs[c] <= 1 then refs - {c}
    else refs[c := refs[c] - 1]
  }

  function NextTick(t: nat): nat {
    (t + 1) % TICK_MODULUS
  }

  /** Probe step at which a missing key is stored: the first free slot, else the oldest. */
  function InsertStep(slots: seq<Slot>, h: Base): (k: nat)
    requires |slots| == SLOTS
    ensures k < PROBE && k <= FirstFree(slots, h, 0)
  {
    var f := FirstFree(slots, h, 0);
    if f < PROBE then f else Oldest(slots, h, PROBE)
  }

  function Insert(s: State, h: Base, key: Domain, c: Cert): (r: State)
    requires |s.slots| == SLOTS
    ensures |r.slots| == SLOTS
  {
    var i := At(h, InsertStep(s.slots, h));
    var victim := s.slots[i];
    State(
      s.slots[i := Used(key, c, NextTick(s.tick))],
      if victim.Used? then s.count else s.count + 1,
      NextTick(s.tick),
      (if victim.Used? then Unref(s.refs, victim.cert) else s.refs)[c := 2])
  }

  /** One call of the lookup-or-generate operation for an already lowercased key. */
  function Request(hash: Hash, s: State, key: Domain, generated: Option<Cert>): (r: (State, Outcome))
    requires |s.slots| == SLOTS
    ensures |r.0.slots| == SLOTS
  {
    var f := Find(s.slots, hash(key), key, 0);
    if f < PROBE then
      var i := At(hash(key), f);
      var e := s.slots[i];
      (State(Bump(s.slots, i, NextTick(s.tick)), s.count, NextTick(s.tick), UpRef(s.refs, e.cert)),
       Hit(e.cert))
    else if generated.None? then (s, Failed)
    else (Insert(s, hash(key), key, generated.value), Generated(generated.value))
  }

  // ----- What every reachable state satisfies

  /** Every entry is within its window with no free slot before it, and no domain occurs twice. */
  ghost predicate Probing(hash: Hash, slots: seq<Slot>) {
    && |slots| == SLOTS
    && (forall i :: 0 <= i < SLOTS && slots[i].Used? ==> Reachable(hash, slots, i))
    && (forall i, j :: 0 <= i < j < SLOTS && slots[i].Used? && slots[j].Used? ==> slots[i].domain != slots[j].domain)
  }

  ghost predicate Reachable(hash: Hash, slots: seq<Slot>, i: nat)
    requires |slots| == SLOTS && i < SLOTS && slots[i].Used?
  {
    var h := hash(slots[i].domain);
    Distance(h, i) < PROBE && forall j :: 0 <= j < Distance(h, i) ==> slots[At(h, j)].Used?
  }

  ghost predicate Ticks(slots: seq<Slot>, tick: nat) {
    && tick < TICK_MODULUS
    && (forall i :: 0 <= i < |slots| && slots[i].Used? ==> slots[i].lastUsed <= tick)
    && (forall i, j :: 0 <= i < j < |slots| && slots[i].Used? && slots[j].Used? ==>
          slots[i].lastUsed != slots[j].lastUsed)
  }

  ghost function UsedSlots(slots: seq<Slot>): set<nat> {
    set i: nat | i < |slots| && slots[i].Used?
  }

  ghost predicate Cached(slots: seq<Slot>, c: Cert) {
    exists i :: 0 <= i < |slots| && slots[i].Used? && slots[i].cert == c
  }

  /** One reference for the cache while cached, one for each reference still held by a caller. */
  ghost predicate Counted(slots: seq<Slot>, refs: map<Cert, nat>, held: multiset<Cert>) {
    && (forall i, j :: 0 <= i < j < |slots| && slots[i].Used? && slots[j].Used? ==> slots[i].cert != slots[j].cert)
    && (forall c: Cert :: c in refs <==> Cached(slots, c) || held[c] > 0)
    && (forall c :: c in refs ==> refs[c] == (if Cached(slots, c) then 1 else 0) + held[c])
  }

  /** The cache together with the references its callers have not yet dropped. */
  datatype World = World(cache: State, held: multiset<Cert>)

  ghost predicate Inv(hash: Hash, w: World) {
    && |w.cache.slots| == SLOTS
    && Probing(hash, w.cache.slots)
    && Ticks(w.cache.slots, w.cache.tick)
    && w.cache.count == |UsedSlots(w.cache.slots)|
    && Counted(w.cache.slots, w.cache.refs, w.held)
  }

  function Initial(): (w: World)
    ensures |w.cache.slots| == SLOTS
  {
    World(State(seq(SLOTS, _ => Free), 0, 0, map[]), multiset{})
  }

  /** The invariant leads every probe to the key it looks for. */
  lemma {:induction false} PresentIsFound(hash: Hash, slots: seq<Slot>, key: Domain, i: nat)
    requires Probing(hash, slots) && i < SLOTS && slots[i].Used? && slots[i].domain == key
    ensures Find(slots, hash(key), key, 0) < PROBE
  {
    assert Reachable(hash, slots, i);
    assert FirstFree(slots, hash(key), 0) > Distance(hash(key), i);
  }

  /** A probe that ends without the key proves the key is nowhere in the table. */
  lemma MissMeansAbsent(hash: Hash, slots: seq<Slot>, key: Domain)
    requires Probing(hash, slots)
    requires Find(slots, hash(key), key, 0) == PROBE
    ensures forall i :: 0 <= i < SLOTS && slots[i].Used? ==> slots[i].domain != key
  {
    forall i | 0 <= i < SLOTS && slots[i].Used?
      ensures slots[i].domain != key
    {
      if slots[i].domain == key {
        PresentIsFound(hash, slots, key, i);
      }
    }
  }

  function Bump(slots: seq<Slot>, i: nat, t: nat): (r: seq<Slot>)
    requires i < |slots| && slots[i].Used?
    ensures |r| == |slots|
  {
    slots[i := slots[i].(lastUsed := t)]
  }

  lemma BumpProbing(hash: Hash, slots: seq<Slot>, i: nat, t: nat)
    requires Probing(hash, slots) && i < SLOTS && slots[i].Used?
    ensures Probing(hash, Bump(slots, i, t))
  {
    forall j | 0 <= j < SLOTS && Bump(slots, i, t)[j].Used?
      ensures Reachable(hash, Bump(slots, i, t), j)
    {
      assert Reachable(hash, slots, j);
    }
  }

  lemma BumpCached(slots: seq<Slot>, i: nat, t: nat, c: Cert)
    requires i < |slots| && slots[i].Used?
    ensures Cached(Bump(slots, i, t), c) <==> Cached(slots, c)
  {
    if Cached(slots, c) {
      var j :| 0 <= j < |slots| && slots[j].Used? && slots[j].cert == c;
      assert Bump(slots, i, t)[j].cert == c;
    }
  }

  lemma BumpCounted(slots: seq<Slot>, refs: map<Cert, nat>, held: multiset<Cert>, i: nat, t: nat)
    requires i < |slots| && slots[i].Used? && Counted(slots, refs, held)
    ensures Counted(Bump(slots, i, t), UpRef(refs, slots[i].cert), held + multiset{slots[i].cert})
  {
    assert Cached(slots, slots[i].cert);
    forall c: Cert
      ensures Cached(Bump(slots, i, t), c) <==> Cached(slots, c)
    {
      BumpCached(slots, i, t, c);
    }
  }

  lemma BumpInv(hash: Hash, w: World, i: nat)
    requires Inv(hash, w) && w.cache.tick + 1 < TICK_MODULUS && i < SLOTS && w.cache.slots[i].Used?
    ensures var s := w.cache;
            Inv(hash, World(
              State(Bump(s.slots, i, s.tick + 1), s.count, s.tick + 1, UpRef(s.refs, s.slots[i].cert)),
              w.held + multiset{s.slots[i].cert}))
  {
    BumpProbing(hash, w.cache.slots, i, w.cache.tick + 1);
    BumpCounted(w.cache.slots, w.cache.refs, w.held, i, w.cache.tick + 1);
    assert UsedSlots(Bump(w.cache.slots, i, w.cache.tick + 1)) == UsedSlots(w.cache.slots);
  }

  lemma StaysReachable(hash: Hash, slots: seq<Slot>, i: nat, e: Slot, j: nat)
    requires |slots| == SLOTS && i < SLOTS && e.Used?
    requires j < SLOTS && j != i && slots[j].Used? && Reachable(hash, slots, j)
    ensures Reachable(hash, slots[i := e], j)
  {
    hide At, Distance;
  }

  lemma ReplaceProbing(hash: Hash, slots: seq<Slot>, i: nat, e: Slot)
    requires Probing(hash, slots) && i < SLOTS && e.Used? && Reachable(hash, slots[i := e], i)
    requires forall j :: 0 <= j < SLOTS && slots[j].Used? ==> slots[j].domain != e.domain
    ensures Probing(hash, slots[i := e])
  {
    hide Reachable;
    var after := slots[i := e];
    forall j | 0 <= j < SLOTS && after[j].Used?
      ensures Reachable(hash, after, j)
    {
      if j != i {
        StaysReachable(hash, slots, i, e, j);
      }
    }
  }

  lemma InsertProbing(hash: Hash, s: State, key: Domain, c: Cert)
    requires Probing(hash, s.slots)
    requires Find(s.slots, hash(key), key, 0) == PROBE
    ensures Probing(hash, Insert(s, hash(key), key, c).slots)
  {
    var h := hash(key);
    var k := InsertStep(s.slots, h);
    MissMeansAbsent(hash, s.slots, key);
    DistanceAt(h, k);
    var i, e := At(h, k), Used(key, c, NextTick(s.tick));
    hide Probing, Find, Distance, InsertStep;
    assert Reachable(hash, s.slots[i := e], i);
    ReplaceProbing(hash, s.slots, i, e);
  }

  lemma InsertCount(s: State, h: Base, key: Domain, c: Cert)
    requires |s.slots| == SLOTS && s.count == |UsedSlots(s.slots)|
    ensures var s' := Insert(s, h, key, c); s'.count == |UsedSlots(s'.slots)|
  {
    var i := At(h, InsertStep(s.slots, h));
    assert UsedSlots(Insert(s, h, key, c).slots) == UsedSlots(s.slots) + {i};
  }

  lemma InsertCounted(s: State, h: Base, key: Domain, c: Cert, held: multiset<Cert>)
    requires |s.slots| == SLOTS && Counted(s.slots, s.refs, held) && c !in s.refs
    ensures var s' := Insert(s, h, key, c); Counted(s'.slots, s'.refs, held + multiset{c})
  {
    var s' := Insert(s, h, key, c);
    var i := At(h, InsertStep(s.slots, h));
    var victim := s.slots[i];
    assert !Cached(s.slots, c);
    assert s'.slots[i].cert == c;
    forall x: Cert
      ensures Cached(s'.slots, x) <==> x == c || (Cached(s.slots, x) && !(victim.Used? && victim.cert == x))
    {
      if Cached(s.slots, x) && !(victim.Used? && victim.cert == x) {
        var j :| 0 <= j < SLOTS && s.slots[j].Used? && s.slots[j].cert == x;
        assert s'.slots[j].cert == x;
      }
      if x != c && Cached(s'.slots, x) {
        var j :| 0 <= j < SLOTS && s'.slots[j].Used? && s'.slots[j].cert == x;
        assert s.slots[j].cert == x;
      }
    }
    if victim.Used? {
      assert Cached(s.slots, victim.cert);
    }
  }

  // ----- Runs

  /** A call by a client for a domain (with what certificate generation would
      yield on a miss), or a client dropping a reference it holds. */
  datatype Event = Get(domain: Domain, generated: Option<Cert>) | Release(cert: Cert)

  /** A generated pair is a new object, and only held references are dropped. */
  predicate Legal(w: World, e: Event) {
    match e
    case Get(_, g) => g.Some? ==> g.value !in w.cache.refs
    case Release(c) => c in w.held
  }

  function Step(hash: Hash, w: World, e: Event): (r: (World, Outcome))
    requires |w.cache.slots| == SLOTS
    ensures |r.0.cache.slots| == SLOTS
  {
    match e
    case Get(d, g) =>
      if !Safe(d) then (w, Failed)
      else
        var (s, o) := Request(hash, w.cache, Fold(d), g);
        (World(s, if o.Failed? then w.held else w.held + multiset{o.cert}), o)
    case Release(c) =>
      (World(w.cache.(refs := Unref(w.cache.refs, c)), w.held - multiset{c}), Failed)
  }

  function Run(hash: Hash, w: World, trace: seq<Event>): (r: World)
    requires |w.cache.slots| == SLOTS
    ensures |r.cache.slots| == SLOTS
    decreases |trace|
  {
    if trace == [] then w else Run(hash, Step(hash, w, trace[0]).0, trace[1..])
  }

  predicate LegalRun(hash: Hash, w: World, trace: seq<Event>)
    requires |w.cache.slots| == SLOTS
    decreases |trace|
  {
    trace == [] || (Legal(w, trace[0]) && LegalRun(hash, Step(hash, w, trace[0]).0, trace[1..]))
  }

  /** The lowercased domains requested with success during a run. */
  function Served(hash: Hash, w: World, trace: seq<Event>): set<Domain>
    requires |w.cache.slots| == SLOTS
    decreases |trace|
  {
    if trace == [] then {}
    else ServedBy(hash, w, trace[0]) + Served(hash, Step(hash, w, trace[0]).0, trace[1..])
  }

  function ServedBy(hash: Hash, w: World, e: Event): set<Domain>
    requires |w.cache.slots| == SLOTS
  {
    if e.Get? && !Step(hash, w, e).1.Failed? then {Fold(e.domain)} else {}
  }

  lemma ReleaseCounted(slots: seq<Slot>, refs: map<Cert, nat>, held: multiset<Cert>, c: Cert)
    requires Counted(slots, refs, held) && c in held
    ensures Counted(slots, Unref(refs, c), held - multiset{c})
  {
  }

  lemma InsertTicks(s: State, h: Base, key: Domain, c: Cert)
    requires |s.slots| == SLOTS && Ticks(s.slots, s.tick) && s.tick + 1 < TICK_MODULUS
    ensures var s' := Insert(s, h, key, c); Ticks(s'.slots, s'.tick)
  {
  }

  lemma InsertInv(hash: Hash, w: World, key: Domain, c: Cert)
    requires Inv(hash, w) && w.cache.tick + 1 < TICK_MODULUS && c !in w.cache.refs
    requires Find(w.cache.slots, hash(key), key, 0) == PROBE
    ensures Inv(hash, World(Insert(w.cache, hash(key), key, c), w.held + multiset{c}))
  {
    InsertProbing(hash, w.cache, key, c);
    InsertTicks(w.cache, hash(key), key, c);
    InsertCount(w.cache, hash(key), key, c);
    InsertCounted(w.cache, hash(key), key, c, w.held);
  }

  /** Each step keeps the invariant until the 64-bit tick is used up. */
  lemma StepKeepsInv(hash: Hash, w: World, e: Event)
    requires Inv(hash, w) && Legal(w, e) && w.cache.tick + 1 < TICK_MODULUS
    ensures Inv(hash, Step(hash, w, e).0)
    ensures w.cache.tick <= Step(hash, w, e).0.cache.tick <= w.cache.tick + 1
  {
    hide Probing, Ticks, UsedSlots, Counted, InsertStep, Bump, At, Safe, Fold;
    match e
    case Release(c) => ReleaseCounted(w.cache.slots, w.cache.refs, w.held, c);
    case Get(d, g) =>
      var key := Fold(d);
      var f := Find(w.cache.slots, hash(key), key, 0);
      if f < PROBE {
        BumpInv(hash, w, At(hash(key), f));
      } else if g.Some? {
        InsertInv(hash, w, key, g.value);
      }
  }

  /** Every state of every run of fewer than 2^64 - 1 calls satisfies the invariant. */
  lemma {:induction false} RunKeepsInv(hash: Hash, w: World, trace: seq<Event>)
    requires Inv(hash, w) && LegalRun(hash, w, trace) && w.cache.tick + |trace| < TICK_MODULUS
    ensures Inv(hash, Run(hash, w, trace))
    ensures Run(hash, w, trace).cache.tick <= w.cache.tick + |trace|
    decreases |trace|
  {
    if trace != [] {
      StepKeepsInv(hash, w, trace[0]);
      RunKeepsInv(hash, Step(hash, w, trace[0]).0, trace[1..]);
    }
  }

  lemma ReachableInv(hash: Hash, trace: seq<Event>)
    requires LegalRun(hash, Initial(), trace) && |trace| < TICK_MODULUS
    ensures Inv(hash, Run(hash, Initial(), trace))
    ensures Run(hash, Initial(), trace).cache.tick <= |trace|
  {
    assert UsedSlots(Initial().cache.slots) == {};
    RunKeepsInv(hash, Initial(), trace);
  }

  /** Exactly the domains of 1 to 253 letters, digits, dots, dashes and
      underscores get a certificate, as long as a missing one can be generated;
      all others change nothing. */
  lemma ServedIff(hash: Hash, w: World, d: Domain, g: Option<Cert>)
    requires |w.cache.slots| == SLOTS && Probing(hash, w.cache.slots)
    ensures var acceptable := 1 <= |d| <= 253 && forall i :: 0 <= i < |d| ==>
              || 'a' as int <= d[i] <= 'z' as int || 'A' as int <= d[i] <= 'Z' as int
              || '0' as int <= d[i] <= '9' as int || d[i] in {'.' as int, '-' as int, '_' as int};
            var r := Step(hash, w, Get(d, g));
            && (!r.1.Failed? <==> acceptable && (Fold(d) in Contents(hash, w.cache.slots) || g.Some?))
            && (r.1.Failed? ==> r.0 == w)
  {
    hide Probing, Insert, Bump, At, Contents;
    var s, key := w.cache, Fold(d);
    var f := Find(s.slots, hash(key), key, 0);
    if f < PROBE {
      HitContents(hash, s.slots, key, 0);
    } else {
      MissMeansAbsent(hash, s.slots, key);
      AbsentContents(hash, s.slots, key);
    }
  }

  // ----- Refinement of a partial map

  ghost function Contents(hash: Hash, slots: seq<Slot>): map<Domain, Cert>
    requires Probing(hash, slots)
  {
    map i | 0 <= i < SLOTS && slots[i].Used? :: slots[i].domain := slots[i].cert
  }

  /** A request behaves like a lookup or an insertion in the map of cached
      domains; an insertion forgets at most one other domain, and only when
      all 16 slots of the window are taken, and then the one in the window
      that was used longest ago. */
  lemma RequestRefinesMap(hash: Hash, w: World, key: Domain, g: Option<Cert>)
    requires Inv(hash, w) && w.cache.tick + 1 < TICK_MODULUS && Legal(w, Get(key, g))
    ensures var (s', o) := Request(hash, w.cache, key, g);
            && Probing(hash, s'.slots)
            && var (m, m') := (Contents(hash, w.cache.slots), Contents(hash, s'.slots));
            && (key in m ==> o == Hit(m[key]) && m' == m)
            && (key !in m && g.None? ==> o.Failed? && m' == m)
            && (key !in m && g.Some? ==>
                  && o == Generated(g.value)
                  && var i := At(hash(key), InsertStep(w.cache.slots, hash(key)));
                  && (w.cache.slots[i].Free? ==> m' == m[key := g.value])
                  && (w.cache.slots[i].Used? ==>
                        && m' == (m - {w.cache.slots[i].domain})[key := g.value]
                        && forall j :: 0 <= j < PROBE ==>
                             && w.cache.slots[At(hash(key), j)].Used?
                             && w.cache.slots[i].lastUsed <= w.cache.slots[At(hash(key), j)].lastUsed))
  {
    hide Probing, Ticks, UsedSlots, Counted, Bump, At, Contents;
    var s := w.cache;
    var f := Find(s.slots, hash(key), key, 0);
    if f < PROBE {
      HitContents(hash, s.slots, key, s.tick + 1);
    } else {
      MissMeansAbsent(hash, s.slots, key);
      AbsentContents(hash, s.slots, key);
      if g.Some? {
        InsertProbing(hash, s, key, g.value);
        ReplaceContents(hash, s.slots, At(hash(key), InsertStep(s.slots, hash(key))), key, g.value, s.tick + 1);
      }
    }
  }

  lemma HitContents(hash: Hash, slots: seq<Slot>, key: Domain, t: nat)
    requires Probing(hash, slots) && Find(slots, hash(key), key, 0) < PROBE
    ensures var i := At(hash(key), Find(slots, hash(key), key, 0));
            && Probing(hash, Bump(slots, i, t))
            && Contents(hash, Bump(slots, i, t)) == Contents(hash, slots)
            && key in Contents(hash, slots) && Contents(hash, slots)[key] == slots[i].cert
  {
    hide Reachable;
    var i := At(hash(key), Find(slots, hash(key), key, 0));
    BumpProbing(hash, slots, i, t);
    SameContents(hash, slots, Bump(slots, i, t));
    assert slots[i].domain in Contents(hash, slots);
  }

  lemma AbsentContents(hash: Hash, slots: seq<Slot>, key: Domain)
    requires Probing(hash, slots)
    requires forall i :: 0 <= i < SLOTS && slots[i].Used? ==> slots[i].domain != key
    ensures key !in Contents(hash, slots)
  {
  }

  lemma SameContents(hash: Hash, a: seq<Slot>, b: seq<Slot>)
    requires Probing(hash, a) && Probing(hash, b)
    requires forall j :: 0 <= j < SLOTS ==> a[j].Used? == b[j].Used?
    requires forall j :: 0 <= j < SLOTS && a[j].Used? ==> a[j].domain == b[j].domain && a[j].cert == b[j].cert
    ensures Contents(hash, a) == Contents(hash, b)
  {
  }

  lemma ReplaceContents(hash: Hash, slots: seq<Slot>, i: nat, key: Domain, c: Cert, t: nat)
    requires Probing(hash, slots) && i < SLOTS && Probing(hash, slots[i := Used(key, c, t)])
    requires forall j :: 0 <= j < SLOTS && slots[j].Used? ==> slots[j].domain != key
    ensures var m := Contents(hash, slots);
            Contents(hash, slots[i := Used(key, c, t)]) ==
            (if slots[i].Used? then m - {slots[i].domain} else m)[key := c]
  {
    hide Reachable;
    var m := Contents(hash, slots);
    var after := slots[i := Used(key, c, t)];
    var m' := Contents(hash, after);
    var goal := (if slots[i].Used? then m - {slots[i].domain} else m)[key := c];
    assert after[i].domain == key;
    forall d | d in goal
      ensures d in m' && m'[d] == goal[d]
    {
      if d != key {
        var j :| 0 <= j < SLOTS && slots[j].Used? && slots[j].domain == d;
        assert after[j] == slots[j];
      }
    }
    forall d | d in m'
      ensures d in goal
    {
      var j :| 0 <= j < SLOTS && after[j].Used? && after[j].domain == d;
      if d != key {
        assert after[j] == slots[j];
      }
    }
  }

  // ----- Recency

  /** `key` is cached as `c`, last used no earlier than `since`, and every
      other entry used after `since` is for a domain of `served`. */
  ghost predicate Recent(slots: seq<Slot>, key: Domain, c: Cert, since: nat, served: set<Domain>) {
    && (exists i :: 0 <= i < |slots| && slots[i].Used? && slots[i].domain == key && slots[i].cert == c
                    && since <= slots[i].lastUsed)
    && (forall i :: 0 <= i < |slots| && slots[i].Used? && slots[i].domain != key && since < slots[i].lastUsed ==>
          slots[i].domain in served)
  }

  ghost function Window(slots: seq<Slot>, h: Base, n: nat): set<Domain>
    requires |slots| == SLOTS && n <= PROBE
    requires forall j :: 0 <= j < n ==> slots[At(h, j)].Used?
  {
    set j | 0 <= j < n :: slots[At(h, j)].domain
  }

  lemma OneMoreInWindow(slots: seq<Slot>, h: Base, n: nat)
    requires |slots| == SLOTS && 1 <= n <= PROBE
    requires forall j :: 0 <= j < n ==> slots[At(h, j)].Used?
    requires forall j :: 0 <= j < n - 1 ==> slots[At(h, j)].domain != slots[At(h, n - 1)].domain
    ensures |Window(slots, h, n)| == |Window(slots, h, n - 1)| + 1
  {
    hide At;
    var before, last := Window(slots, h, n - 1), slots[At(h, n - 1)].domain;
    assert last !in before;
    assert Window(slots, h, n) == before + {last};
  }

  /** The 16 domains of a full window are 16 different domains. */
  lemma {:induction false} WindowDomains(hash: Hash, slots: seq<Slot>, h: Base, n: nat)
    requires Probing(hash, slots) && n <= PROBE
    requires forall j :: 0 <= j < n ==> slots[At(h, j)].Used?
    ensures |Window(slots, h, n)| == n
  {
    hide Reachable;
    if n == 0 {
      assert Window(slots, h, n) == {};
    } else {
      WindowDomains(hash, slots, h, n - 1);
      var before := Window(slots, h, n - 1);
      var last := slots[At(h, n - 1)].domain;
      forall j | 0 <= j < n - 1
        ensures slots[At(h, j)].domain != last
      {
        DistanceAt(h, j);
        DistanceAt(h, n - 1);
      }
      OneMoreInWindow(slots, h, n);
    }
  }

  /** Any entry of the window other than the oldest one was used more recently. */
  lemma NewerThanVictim(
    slots: seq<Slot>, tick: nat, h: Base, key: Domain, c: Cert, since: nat, served: set<Domain>, j: nat)
    requires |slots| == SLOTS && Ticks(slots, tick) && Recent(slots, key, c, since, served)
    requires FirstFree(slots, h, 0) == PROBE && j < PROBE && slots[At(h, j)].domain != key
    requires var v := slots[At(h, Oldest(slots, h, PROBE))]; v.domain == key && since <= v.lastUsed
    ensures slots[At(h, j)].domain in served
  {
    var v := At(h, Oldest(slots, h, PROBE));
    assert slots[v].lastUsed <= slots[At(h, j)].lastUsed;
    assert slots[v].lastUsed != slots[At(h, j)].lastUsed;
  }

  /** An insertion that evicts `key` means 16 other domains were used since. */
  lemma EvictionNeedsSixteen(hash: Hash, s: State, key: Domain, c: Cert, since: nat, served: set<Domain>, e: Domain)
    requires Probing(hash, s.slots) && Ticks(s.slots, s.tick)
    requires Recent(s.slots, key, c, since, served)
    requires |s.slots| == SLOTS && FirstFree(s.slots, hash(e), 0) == PROBE && Find(s.slots, hash(e), e, 0) == PROBE
    requires var v := s.slots[At(hash(e), Oldest(s.slots, hash(e), PROBE))]; v.domain == key && since <= v.lastUsed
    ensures |served + {e}| >= PROBE
  {
    hide Probing, Ticks, Recent;
    var h := hash(e);
    var window := Window(s.slots, h, PROBE);
    WindowDomains(hash, s.slots, h, PROBE);
    forall d | d in window && d != key
      ensures d in served
    {
      var j :| 0 <= j < PROBE && s.slots[At(h, j)].domain == d;
      NewerThanVictim(s.slots, s.tick, h, key, c, since, served, j);
    }
    assert s.slots[At(h, Oldest(s.slots, h, PROBE))].domain in window;
    assert e !in window;
    Swap(window, key, e);
    Contained((window - {key}) + {e}, served + {e});
  }

  lemma Swap(window: set<Domain>, key: Domain, e: Domain)
    requires key in window && e !in window
    ensures |(window - {key}) + {e}| == |window|
  {
  }

  lemma Contained(a: set<Domain>, b: set<Domain>)
    requires a <= b
    ensures |a| <= |b|
  {
    assert b == a + (b - a);
  }

  lemma BumpKeepsRecent(slots: seq<Slot>, key: Domain, c: Cert, since: nat, served: set<Domain>, i: nat, t: nat)
    requires Recent(slots, key, c, since, served) && i < |slots| && slots[i].Used? && since < t
    ensures Recent(Bump(slots, i, t), key, c, since, (served + {slots[i].domain}) - {key})
  {
    var j :| 0 <= j < |slots| && slots[j].Used? && slots[j].domain == key && slots[j].cert == c
             && since <= slots[j].lastUsed;
    assert Bump(slots, i, t)[j].domain == key && Bump(slots, i, t)[j].cert == c;
  }

  /** With fewer than 16 other domains served, an insertion does not take the slot of `key`. */
  lemma SlotSurvives(hash: Hash, s: State, key: Domain, c: Cert, since: nat, served: set<Domain>, d: Domain, i: nat)
    requires Probing(hash, s.slots) && Ticks(s.slots, s.tick) && Recent(s.slots, key, c, since, served)
    requires |s.slots| == SLOTS && Find(s.slots, hash(d), d, 0) == PROBE && |served + {d}| < PROBE
    requires i < SLOTS && s.slots[i].Used? && s.slots[i].domain == key && since <= s.slots[i].lastUsed
    ensures At(hash(d), InsertStep(s.slots, hash(d))) != i
  {
    hide Probing, Ticks, Recent, At;
    if FirstFree(s.slots, hash(d), 0) == PROBE && At(hash(d), Oldest(s.slots, hash(d), PROBE)) == i {
      EvictionNeedsSixteen(hash, s, key, c, since, served, d);
    }
  }

  lemma ReplaceKeepsRecent(
    slots: seq<Slot>, key: Domain, c: Cert, since: nat, served: set<Domain>, n: nat, i: nat, e: Slot)
    requires Recent(slots, key, c, since, served) && n < |slots| && i < |slots| && n != i && e.Used?
    requires slots[i].Used? && slots[i].domain == key && slots[i].cert == c && since <= slots[i].lastUsed
    ensures Recent(slots[n := e], key, c, since, served + {e.domain})
  {
    assert slots[n := e][i] == slots[i];
  }

  lemma InsertKeepsRecent(
    hash: Hash, s: State, key: Domain, c: Cert, since: nat, served: set<Domain>, d: Domain, g: Cert)
    requires Probing(hash, s.slots) && Ticks(s.slots, s.tick) && |s.slots| == SLOTS
    requires Recent(s.slots, key, c, since, served)
    requires Find(s.slots, hash(d), d, 0) == PROBE && |served + {d}| < PROBE
    ensures Recent(Insert(s, hash(d), d, g).slots, key, c, since, served + {d})
  {
    var i :| 0 <= i < |s.slots| && s.slots[i].Used? && s.slots[i].domain == key && s.slots[i].cert == c
             && since <= s.slots[i].lastUsed;
    hide Probing, Ticks, Recent, At, InsertStep;
    SlotSurvives(hash, s, key, c, since, served, d, i);
    var n := At(hash(d), InsertStep(s.slots, hash(d)));
    ReplaceKeepsRecent(s.slots, key, c, since, served, n, i, Used(d, g, NextTick(s.tick)));
  }

  lemma RequestKeepsRecent(
    hash: Hash, w: World, d: Domain, g: Option<Cert>, key: Domain, c: Cert, since: nat, served: set<Domain>)
    requires Inv(hash, w) && w.cache.tick + 1 < TICK_MODULUS
    requires Recent(w.cache.slots, key, c, since, served) && since <= w.cache.tick
    requires |(served + {d}) - {key}| < PROBE && key !in served
    ensures var (s, o) := Request(hash, w.cache, d, g);
            if o.Failed? then s == w.cache else Recent(s.slots, key, c, since, (served + {d}) - {key})
  {
    hide Probing, Ticks, UsedSlots, Counted, Recent, Insert, At, Bump, Find;
    var s := w.cache;
    var f := Find(s.slots, hash(d), d, 0);
    if f < PROBE {
      BumpKeepsRecent(s.slots, key, c, since, served, At(hash(d), f), s.tick + 1);
    } else if g.Some? {
      RecentIsFound(hash, s.slots, key, c, since, served);
      assert (served + {d}) - {key} == served + {d};
      InsertKeepsRecent(hash, s, key, c, since, served, d, g.value);
    }
  }

  lemma StepKeepsRecent(hash: Hash, w: World, e: Event, key: Domain, c: Cert, since: nat, served: set<Domain>)
    requires Inv(hash, w) && Legal(w, e) && w.cache.tick + 1 < TICK_MODULUS
    requires Recent(w.cache.slots, key, c, since, served) && since <= w.cache.tick
    requires |(served + ServedBy(hash, w, e)) - {key}| < PROBE && key !in served
    ensures Recent(Step(hash, w, e).0.cache.slots, key, c, since, (served + ServedBy(hash, w, e)) - {key})
  {
    assert |w.cache.slots| == SLOTS;
    hide Inv, Recent, Request, Safe, Fold;
    assert served + {} - {key} == served;
    if e.Get? && !Step(hash, w, e).1.Failed? {
      RequestKeepsRecent(hash, w, Fold(e.domain), e.generated, key, c, since, served);
    } else if e.Get? && Safe(e.domain) {
      FailedKeeps(hash, w.cache, Fold(e.domain), e.generated);
    }
  }

  lemma FailedKeeps(hash: Hash, s: State, key: Domain, g: Option<Cert>)
    requires |s.slots| == SLOTS && Request(hash, s, key, g).1.Failed?
    ensures Request(hash, s, key, g).0 == s
  {
    hide Find;
  }

  lemma RecentIsFound(hash: Hash, slots: seq<Slot>, key: Domain, c: Cert, since: nat, served: set<Domain>)
    requires Probing(hash, slots) && Recent(slots, key, c, since, served)
    ensures var f := Find(slots, hash(key), key, 0); f < PROBE && slots[At(hash(key), f)].cert == c
  {
    var i :| 0 <= i < SLOTS && slots[i].Used? && slots[i].domain == key && slots[i].cert == c;
    PresentIsFound(hash, slots, key, i);
    var f := At(hash(key), Find(slots, hash(key), key, 0));
    assert f == i;
  }

  lemma {:induction false} RunKeepsRecent(
    hash: Hash, w: World, trace: seq<Event>, key: Domain, c: Cert, since: nat, served: set<Domain>)
    requires Inv(hash, w) && LegalRun(hash, w, trace) && w.cache.tick + |trace| < TICK_MODULUS
    requires Recent(w.cache.slots, key, c, since, served) && since <= w.cache.tick && key !in served
    requires |(served + Served(hash, w, trace)) - {key}| < PROBE
    ensures Recent(Run(hash, w, trace).cache.slots, key, c, since, (served + Served(hash, w, trace)) - {key})
    decreases |trace|
  {
    hide Probing, Ticks, UsedSlots, Counted, Recent, Step, ServedBy, Legal;
    if trace == [] {
      assert (served + Served(hash, w, trace)) - {key} == served;
    } else {
      var e := trace[0];
      var w' := Step(hash, w, e).0;
      var served' := (served + ServedBy(hash, w, e)) - {key};
      assert (served' + Served(hash, w', trace[1..])) - {key} == (served + Served(hash, w, trace)) - {key};
      Contained(served', (served + Served(hash, w, trace)) - {key});
      StepKeepsInv(hash, w, e);
      StepKeepsRecent(hash, w, e, key, c, since, served);
      RunKeepsRecent(hash, w', trace[1..], key, c, since, served');
    }
  }

  /** A successful request leaves its domain cached as the newest entry. */
  lemma ServedIsNewest(hash: Hash, w: World, d: Domain, g: Option<Cert>)
    requires Inv(hash, w) && Legal(w, Get(d, g)) && w.cache.tick + 1 < TICK_MODULUS
    requires !Step(hash, w, Get(d, g)).1.Failed?
    ensures var (w', o) := Step(hash, w, Get(d, g));
            Recent(w'.cache.slots, Fold(d), o.cert, w'.cache.tick, {})
  {
    var s := w.cache;
    var key := Fold(d);
    var (w', o) := Step(hash, w, Get(d, g));
    var f := Find(s.slots, hash(key), key, 0);
    var i := At(hash(key), if f < PROBE then f else InsertStep(s.slots, hash(key)));
    assert w'.cache.slots[i].domain == key && w'.cache.slots[i].cert == o.cert;
    StepKeepsInv(hash, w, Get(d, g));
  }

  /** Recency guarantee: if fewer than 16 other domains are served between
      two requests for the same domain (in any case), the second is a hit on
      the very certificate the first one returned. */
  lemma RecentDomainHits(
    hash: Hash, w: World, d: Domain, g: Option<Cert>, between: seq<Event>, d2: Domain, g2: Option<Cert>)
    requires Inv(hash, w) && Legal(w, Get(d, g)) && !Step(hash, w, Get(d, g)).1.Failed?
    requires w.cache.tick + |between| + 1 < TICK_MODULUS
    requires LegalRun(hash, Step(hash, w, Get(d, g)).0, between)
    requires |Served(hash, Step(hash, w, Get(d, g)).0, between) - {Fold(d)}| < PROBE
    requires Safe(d2) && Fold(d2) == Fold(d)
    ensures var (w1, o) := Step(hash, w, Get(d, g));
            Step(hash, Run(hash, w1, between), Get(d2, g2)).1 == Hit(o.cert)
  {
    hide Probing, Ticks, UsedSlots, Counted, Recent, Insert, At, Fold;
    var key := Fold(d);
    var (w1, o) := Step(hash, w, Get(d, g));
    StepKeepsInv(hash, w, Get(d, g));
    ServedIsNewest(hash, w, d, g);
    var served := Served(hash, w1, between);
    assert {} + served == served;
    RunKeepsRecent(hash, w1, between, key, o.cert, w1.cache.tick, {});
    RunKeepsInv(hash, w1, between);
    RecentIsFound(hash, Run(hash, w1, between).cache.slots, key, o.cert, w1.cache.tick, served - {key});
  }

  /** The same over whole runs of the daemon: before, the request, between, the request again. */
  lemma RecencyOverRuns(
    hash: Hash, before: seq<Event>, d: Domain, g: Option<Cert>, between: seq<Event>, d2: Domain, g2: Option<Cert>)
    requires |before| + |between| + 2 < TICK_MODULUS
    requires LegalRun(hash, Initial(), before)
    requires var w := Run(hash, Initial(), before);
             && Legal(w, Get(d, g)) && !Step(hash, w, Get(d, g)).1.Failed?
             && LegalRun(hash, Step(hash, w, Get(d, g)).0, between)
             && |Served(hash, Step(hash, w, Get(d, g)).0, between) - {Fold(d)}| < PROBE
    requires Safe(d2) && Fold(d2) == Fold(d)
    ensures var (w1, o) := Step(hash, Run(hash, Initial(), before), Get(d, g));
            Step(hash, Run(hash, w1, between), Get(d2, g2)).1 == Hit(o.cert)
  {
    hide Inv, Step, Run, LegalRun, Served;
    ReachableInv(hash, before);
    RecentDomainHits(hash, Run(hash, Initial(), before), d, g, between, d2, g2);
  }

  /** The guarantee is not empty: two requests in a row for one domain, in
      different case, on a new cache, are such a run. */
  lemma RecencyApplies(hash: Hash, c: Cert)
    ensures var d, d2 := [97 as byte], [65 as byte];
            var (w1, o) := Step(hash, Initial(), Get(d, Some(c)));
            && LegalRun(hash, Initial(), []) && Run(hash, Initial(), []) == Initial()
            && Legal(Initial(), Get(d, Some(c))) && o == Generated(c)
            && LegalRun(hash, w1, []) && |Served(hash, w1, []) - {Fold(d)}| < PROBE
            && Safe(d2) && Fold(d2) == Fold(d)
            && Step(hash, w1, Get(d2, None)).1 == Hit(c)
  {
    var d, d2 := [97 as byte], [65 as byte];
    var (w1, o) := Step(hash, Initial(), Get(d, Some(c)));
    assert Fold(d2) == Fold(d) == d;
    RecencyOverRuns(hash, [], d, Some(c), [], d2, None);
  }

  // ----- The mutable table

  class Mitm {
    const hash: Hash
    var slots: array<Slot>
    var count: int
    var tick: nat
    var refs: map<Cert, nat>

    ghost predicate Valid()
      reads this
    {
      slots.Length == SLOTS
    }

    ghost function View(): State
      reads this, slots
    {
      State(slots[..], count, tick, refs)
    }

    constructor (hash: Hash)
      ensures Valid() && fresh(slots) && this.hash == hash
      ensures View() == Initial().cache
    {
      this.hash := hash;
      slots := new Slot[SLOTS](_ => Free);
      count, tick, refs := 0, 0, map[];
    }

    /** Probes the window for the key; step 16 means a miss. */
    method Lookup(key: Domain) returns (step: nat)
      requires Valid()
      ensures step == Find(slots[..], hash(key), key, 0)
    {
      var h := hash(key);
      step := 0;
      while step < PROBE
        invariant step <= PROBE
        invariant Find(slots[..], h, key, 0) == Find(slots[..], h, key, step)
      {
        var e := slots[At(h, step)];
        if e.Free? {
          return PROBE;
        }
        if e.domain == key {
          return;
        }
        step := step + 1;
      }
    }

    /** Scans the window for a free slot, remembering the oldest entry seen. */
    method ChooseSlot(h: Base) returns (index: nat)
      requires Valid() && forall i :: 0 <= i < SLOTS && slots[i].Used? ==> slots[i].lastUsed < TICK_MODULUS - 1
      ensures index == At(h, InsertStep(slots[..], h))
    {
      var oldest: nat := 0;
      var oldestTick: nat := TICK_MODULUS - 1;
      var step := 0;
      while step < PROBE
        invariant step <= PROBE
        invariant FirstFree(slots[..], h, 0) == FirstFree(slots[..], h, step)
        invariant step == 0 ==> oldestTick == TICK_MODULUS - 1
        invariant step > 0 ==> oldest == At(h, Oldest(slots[..], h, step)) && oldestTick == slots[oldest].lastUsed
      {
        index := At(h, step);
        if slots[index].Free? {
          return;
        }
        if slots[index].lastUsed < oldestTick {
          oldest, oldestTick := index, slots[index].lastUsed;
        }
        step := step + 1;
      }
      index := oldest;
    }

    method GetCert(domain: Domain, generated: Option<Cert>, ghost held: multiset<Cert>) returns (o: Outcome)
      requires Valid() && Inv(hash, World(View(), held)) && tick + 1 < TICK_MODULUS
      requires Legal(World(View(), held), Get(domain, generated))
      modifies this, slots
      ensures Valid() && slots == old(slots)
      ensures (World(View(), if o.Failed? then held else held + multiset{o.cert}), o)
           == Step(hash, old(World(View(), held)), Get(domain, generated))
    {
      hide Probing, UsedSlots, Counted, Safe, InsertStep;
      if !Safe(domain) {
        return Failed;
      }
      var key := Fold(domain);
      var h := hash(key);
      var step := Lookup(key);
      if step < PROBE {
        var i := At(h, step);
        tick := NextTick(tick);
        refs := UpRef(refs, slots[i].cert);
        o := Hit(slots[i].cert);
        slots[i] := slots[i].(lastUsed := tick);
        return;
      }
      if generated.None? {
        return Failed;
      }
      var i := ChooseSlot(h);
      if slots[i].Used? {
        refs := Unref(refs, slots[i].cert);
      } else {
        count := count + 1;
      }
      tick := NextTick(tick);
      slots[i] := Used(key, generated.value, tick);
      refs := refs[generated.value := 2];
      o := Generated(generated.value);
    }

    /** Closing drops the cache's own references: exactly the pairs still
        held by callers stay alive, each with one count per holder. */
    method Close(ghost held: multiset<Cert>)
      requires Valid() && Inv(hash, World(View(), held))
      modifies this, slots
      ensures Valid() && count == 0
      ensures forall i :: 0 <= i < SLOTS ==> slots[i].Free?
      ensures forall c: Cert :: c in refs <==> held[c] > 0
      ensures forall c :: c in refs ==> refs[c] == held[c]
    {
      hide Inv, Counted, Cleared;
      var i := 0;
      StartClose(hash, World(View(), held));
      while i < SLOTS
        invariant 0 <= i <= SLOTS && slots == old(slots) && Valid() && slots[..] == old(slots[..])
        invariant Counted(Cleared(slots[..], i), refs, held)
      {
        CloseSlot(slots[..], refs, held, i);
        if slots[i].Used? {
          refs := Unref(refs, slots[i].cert);
        }
        i := i + 1;
      }
      OnlyHeldRemain(slots[..], refs, held);
      count := 0;
      forall j | 0 <= j < SLOTS {
        slots[j] := Free;
      }
    }
  }

  /** The table without the entries of its first `i` slots. */
  ghost function Cleared(slots: seq<Slot>, i: nat): (r: seq<Slot>)
    requires i <= |slots|
    ensures |r| == |slots|
  {
    seq(i, _ => Free) + slots[i..]
  }

  lemma StartClose(hash: Hash, w: World)
    requires Inv(hash, w)
    ensures Counted(Cleared(w.cache.slots, 0), w.cache.refs, w.held)
  {
    assert Cleared(w.cache.slots, 0) == w.cache.slots;
  }

  lemma OnlyHeldRemain(table: seq<Slot>, refs: map<Cert, nat>, held: multiset<Cert>)
    requires Counted(Cleared(table, |table|), refs, held)
    ensures forall c: Cert :: c in refs <==> held[c] > 0
    ensures forall c :: c in refs ==> refs[c] == held[c]
  {
    assert forall c: Cert :: !Cached(Cleared(table, |table|), c);
  }

  lemma CloseSlot(table: seq<Slot>, refs: map<Cert, nat>, held: multiset<Cert>, i: nat)
    requires i < |table| && Counted(Cleared(table, i), refs, held)
    ensures Counted(Cleared(table, i + 1), if table[i].Used? then Unref(refs, table[i].cert) else refs, held)
  {
    hide Counted;
    assert Cleared(table, i)[i] == table[i];
    assert Cleared(table, i + 1) == Cleared(table, i)[i := Free];
    if table[i].Used? {
      ForgetCounted(Cleared(table, i), refs, held, i);
    } else {
      assert Cleared(table, i + 1) == Cleared(table, i);
    }
  }

  lemma ForgetCounted(slots: seq<Slot>, refs: map<Cert, nat>, held: multiset<Cert>, i: nat)
    requires Counted(slots, refs, held) && i < |slots| && slots[i].Used?
    ensures Counted(slots[i := Free], Unref(refs, slots[i].cert), held)
  {
    var c := slots[i].cert;
    var t := slots[i := Free];
    assert Cached(slots, c);
    forall x: Cert
      ensures Cached(t, x) <==> Cached(slots, x) && x != c
    {
      if Cached(slots, x) && x != c {
        var j :| 0 <= j < |slots| && slots[j].Used? && slots[j].cert == x;
        assert t[j].cert == x;
      }
      if Cached(t, x) {
        var j :| 0 <= j < |t| && t[j].Used? && t[j].cert == x;
        assert slots[j].cert == x;
      }
    }
  }
}
