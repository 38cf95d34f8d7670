/** The capture queue's ring: 4096 slots addressed by free-running 32-bit
    indices that wrap around. */
module CaptureQueue {
  import opened Bytes
  import opened CaptureFifo

  const INDEX_MODULUS := 0x1_0000_0000
  const COUNTER_MODULUS := 0x1_0000_0000_0000_0000

  /** A wrapped index still selects the slot of the unwrapped one. */
  lemma SlotOfWrapped(k: nat)
    ensures (k % INDEX_MODULUS) % CAPACITY == k % CAPACITY
  {
    assert k == (k / INDEX_MODULUS) * INDEX_MODULUS + k % INDEX_MODULUS;
  }

  /** The wrapped difference of the indices is the number of queued messages. */
  lemma UsedOfWrapped(head: nat, tail: nat)
    requires tail <= head <= tail + CAPACITY
    ensures (head % INDEX_MODULUS - tail % INDEX_MODULUS) % INDEX_MODULUS == head - tail
  {
  }

  lemma SlotsDiffer(a: nat, b: nat)
    requires a < b < a + CAPACITY
    ensures a % CAPACITY != b % CAPACITY
  {
  }

  lemma NextIndex(k: nat)
    ensures (k % INDEX_MODULUS + 1) % INDEX_MODULUS == (k + 1) % INDEX_MODULUS
  {
  }

  lemma NextCounter(k: nat)
    ensures (k % COUNTER_MODULUS + 1) % COUNTER_MODULUS == (k + 1) % COUNTER_MODULUS
  {
  }

  /** Slot contents for a given history: queued messages in place, all other slots empty. */
  ghost predicate Holds<T>(slots: seq<Option<T>>, q: Fifo<T>) {
    && |slots| == CAPACITY
    && |q.fates| <= |q.pushed| <= |q.fates| + CAPACITY
    && (forall k :: |q.fates| <= k < |q.pushed| ==> slots[k % CAPACITY] == Some(q.pushed[k]))
    && (forall k :: |q.pushed| <= k < |q.fates| + CAPACITY ==> slots[k % CAPACITY] == None)
  }

  lemma HoldsAfterTake<T>(slots: seq<Option<T>>, q: Fifo<T>, fate: Fate)
    requires Holds(slots, q) && |q.fates| < |q.pushed|
    ensures Holds(slots[|q.fates| % CAPACITY := None], Fifo(q.pushed, q.fates + [fate]))
  {
    var t := |q.fates|;
    assert (t + CAPACITY) % CAPACITY == t % CAPACITY;
    forall k | t < k < t + CAPACITY
      ensures k % CAPACITY != t % CAPACITY
    {
      SlotsDiffer(t, k);
    }
  }

  lemma HoldsAfterPut<T>(slots: seq<Option<T>>, q: Fifo<T>, m: T)
    requires Holds(slots, q) && |q.pushed| < |q.fates| + CAPACITY
    ensures Holds(slots[|q.pushed| % CAPACITY := Some(m)], Fifo(q.pushed + [m], q.fates))
  {
    var h := |q.pushed|;
    forall k | |q.fates| <= k < |q.fates| + CAPACITY && k != h
      ensures k % CAPACITY != h % CAPACITY
    {
      if k < h {
        SlotsDiffer(k, h);
      } else {
        SlotsDiffer(h, k);
      }
    }
  }

  class Queue<T(0)> {
    var slots: array<Option<T>>
    var head: nat
    var tail: nat
    var dropped: nat
    var enqueued: nat
    ghost var history: Fifo<T>

    ghost predicate Valid()
      reads this, slots
    {
      && history.Valid()
      && Holds(slots[..], history)
      && head == |history.pushed| % INDEX_MODULUS
      && tail == |history.fates| % INDEX_MODULUS
      && enqueued == |history.pushed| % COUNTER_MODULUS
      && dropped == |With(history.pushed, history.fates, Dropped)| % COUNTER_MODULUS
    }

    constructor ()
      ensures Valid() && fresh(slots)
      ensures history == Fifo([], [])
    {
      slots := new Option<T>[CAPACITY](_ => None);
      head, tail, dropped, enqueued := 0, 0, 0, 0;
      history := Fifo([], []);
    }

    /** Empties the slot at the tail and advances it. */
    method Take(ghost fate: Fate) returns (m: T)
      requires Valid() && |history.fates| < |history.pushed|
      requires fate.Dropped? ==> |history.fates| + CAPACITY <= |history.pushed|
      modifies this`tail, this`history, slots
      ensures slots == old(slots) && Holds(slots[..], history)
      ensures tail == |history.fates| % INDEX_MODULUS
      ensures m == old(history.Contents()[0])
      ensures history == old(Fifo(history.pushed, history.fates + [fate]))
    {
      SlotOfWrapped(|history.fates|);
      NextIndex(|history.fates|);
      HoldsAfterTake(slots[..], history, fate);
      m := slots[tail % CAPACITY].value;
      slots[tail % CAPACITY] := None;
      tail := (tail + 1) % INDEX_MODULUS;
      history := Fifo(history.pushed, history.fates + [fate]);
    }

    /** Stores a message at the head of a queue with room for it. */
    method Put(m: T)
      requires Holds(slots[..], history) && |history.Contents()| < CAPACITY
      requires head == |history.pushed| % INDEX_MODULUS && enqueued == |history.pushed| % COUNTER_MODULUS
      modifies this`head, this`enqueued, this`history, slots
      ensures slots == old(slots) && Holds(slots[..], history)
      ensures head == |history.pushed| % INDEX_MODULUS && enqueued == |history.pushed| % COUNTER_MODULUS
      ensures history == old(Fifo(history.pushed + [m], history.fates))
    {
      SlotOfWrapped(|history.pushed|);
      NextIndex(|history.pushed|);
      NextCounter(|history.pushed|);
      HoldsAfterPut(slots[..], history, m);
      slots[head % CAPACITY] := Some(m);
      head := (head + 1) % INDEX_MODULUS;
      enqueued := (enqueued + 1) % COUNTER_MODULUS;
      history := Fifo(history.pushed + [m], history.fates);
    }

    /** A missing message is refused; otherwise the message is queued, and if
        the queue was full its oldest message is dropped. */
    method Push(msg: Option<T>) returns (code: int)
      requires Valid()
      modifies this, slots
      ensures Valid() && slots == old(slots)
      ensures code == if msg.None? then -1 else 0
      ensures history == if msg.None? then old(history) else old(history.Push(msg.value))
    {
      if msg.None? {
        return -1;
      }
      PushParts(history, msg.value);
      hide With, Holds, Fifo.Valid, Fifo.Push;
      UsedOfWrapped(|history.pushed|, |history.fates|);
      var used := (head - tail) % INDEX_MODULUS;
      if used >= CAPACITY {
        NextCounter(|With(history.pushed, history.fates, Dropped)|);
        var _ := Take(Dropped);
        dropped := (dropped + 1) % COUNTER_MODULUS;
      }
      Put(msg.value);
      return 0;
    }

    /** Takes up to `max` messages from the front. */
    method Drain(max: int) returns (out: seq<T>)
      requires Valid()
      modifies this`tail, this`history, slots
      ensures Valid() && slots == old(slots)
      ensures history == old(history.Drain(max))
      ensures out == old(history.Contents()[..history.Available(max)])
      ensures if max <= 0 then out == [] else |out| <= max && (|out| == max || history.Contents() == [])
    {
      hide With, Holds;
      out := [];
      ghost var start := history;
      while |out| < max && tail != head
        invariant slots == old(slots) && Valid() && |out| <= start.Available(max)
        invariant history == start.Leave(|out|, Drained)
        invariant out == start.Contents()[..|out|]
        decreases |history.pushed| - |history.fates|
      {
        ghost var before := history;
        var m := Take(Drained);
        DrainedOne(before);
        out := out + [m];
      }
      UsedOfWrapped(|history.pushed|, |history.fates|);
    }

    /** The worker's drain loop, left to itself: batches of at most `batch`
        until one comes back empty. Everything queued is delivered in order. */
    method DrainAll(batch: int) returns (delivered: seq<T>)
      requires Valid() && batch > 0
      modifies this`tail, this`history, slots
      ensures Valid() && slots == old(slots)
      ensures delivered == old(history.Contents()) && history.Contents() == []
      ensures history.pushed == old(history.pushed)
    {
      hide With, Holds;
      delivered := [];
      ghost var start := history;
      while true
        invariant slots == old(slots) && Valid()
        invariant history.pushed == start.pushed && delivered + history.Contents() == start.Contents()
        decreases |history.Contents()|
      {
        var out := Drain(batch);
        if out == [] {
          break;
        }
        delivered := delivered + out;
      }
    }

    /** Frees everything still queued. */
    method Close()
      requires Valid()
      modifies this`tail, this`history, slots
      ensures Valid() && slots == old(slots)
      ensures history == old(history.Close()) && history.Contents() == []
      ensures forall i :: 0 <= i < CAPACITY ==> slots[i] == None
    {
      ghost var start := history;
      ghost var n := 0;
      while tail != head
        invariant slots == old(slots) && Valid() && n <= |start.Contents()|
        invariant history == start.Leave(n, Discarded)
        decreases |history.pushed| - |history.fates|
      {
        ghost var before := history;
        var _ := Take(Discarded);
        DiscardedOne(before);
        n := n + 1;
      }
      UsedOfWrapped(|history.pushed|, |history.fates|);
      EmptySlots(slots[..], history);
    }
  }

  /** A push into a full queue first drops the oldest message. */
  lemma PushParts<T>(q: Fifo<T>, m: T)
    requires q.Valid()
    ensures |q.fates| <= |q.pushed| <= |q.fates| + CAPACITY && q.Push(m).Valid()
    ensures var full := |q.pushed| == |q.fates| + CAPACITY;
            && q.Push(m) == Fifo(q.pushed + [m], if full then q.fates + [Dropped] else q.fates)
            && |With(q.Push(m).pushed, q.Push(m).fates, Dropped)| ==
               |With(q.pushed, q.fates, Dropped)| + (if full then 1 else 0)
  {
    Bounds(q);
    PushEffect(q, m);
  }

  lemma DrainedOne<T>(q: Fifo<T>)
    requires q.Valid() && |q.fates| < |q.pushed|
    ensures Fifo(q.pushed, q.fates + [Drained]).Valid()
    ensures With(q.pushed, q.fates + [Drained], Dropped) == With(q.pushed, q.fates, Dropped)
  {
    var f := q.fates + [Drained];
    assert f[..|f| - 1] == q.fates;
  }

  lemma DiscardedOne<T>(q: Fifo<T>)
    requires q.Valid() && |q.fates| < |q.pushed|
    ensures Fifo(q.pushed, q.fates + [Discarded]).Valid()
    ensures With(q.pushed, q.fates + [Discarded], Dropped) == With(q.pushed, q.fates, Dropped)
  {
    var f := q.fates + [Discarded];
    assert f[..|f| - 1] == q.fates;
  }

  lemma EmptySlots<T>(slots: seq<Option<T>>, q: Fifo<T>)
    requires Holds(slots, q) && |q.fates| == |q.pushed|
    ensures forall i :: 0 <= i < CAPACITY ==> slots[i] == None
  {
    forall i | 0 <= i < CAPACITY
      ensures slots[i] == None
    {
      var k := |q.pushed| + (i - |q.pushed|) % CAPACITY;
      assert k % CAPACITY == i;
    }
  }
}
