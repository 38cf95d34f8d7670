/** What the capture queue promises: a bounded FIFO that remembers its whole
    history. Every pushed message is either still queued or has exactly one
    fate, and messages leave in the order they were pushed. */
module CaptureFifo {
  import opened Bytes

  const CAPACITY := 4096

  /** How a message left the queue: overwritten by a push into a full queue,
      taken by the consumer, or freed when the queue was closed. */
  datatype Fate = Dropped | Drained | Discarded

  /** Message k of `pushed` left with `fates[k]`; the others are queued. */
  datatype Fifo<T> = Fifo(pushed: seq<T>, fates: seq<Fate>) {

    /** At most 4096 messages are queued, and a message was dropped only when
        4096 younger ones had been pushed behind it. */
    ghost predicate Valid() {
      && |fates| <= |pushed| <= |fates| + CAPACITY
      && forall k :: 0 <= k < |fates| && fates[k].Dropped? ==> k + CAPACITY < |pushed|
    }

    ghost function Contents(): seq<T>
      requires |fates| <= |pushed|
    {
      pushed[|fates|..]
    }

    ghost function Push(m: T): Fifo<T>
      requires |fates| <= |pushed|
    {
      Fifo(pushed + [m], if |Contents()| >= CAPACITY then fates + [Dropped] else fates)
    }

    ghost function Leave(n: nat, fate: Fate): Fifo<T> {
      Fifo(pushed, fates + seq(n, _ => fate))
    }

    /** Number of messages a drain of at most `max` takes. */
    ghost function Available(max: int): nat
      requires |fates| <= |pushed|
    {
      if max <= 0 then 0 else Min(max, |Contents()|)
    }

    ghost function Drain(max: int): Fifo<T>
      requires |fates| <= |pushed|
    {
      Leave(Available(max), Drained)
    }

    ghost function Close(): Fifo<T>
      requires |fates| <= |pushed|
    {
      Leave(|Contents()|, Discarded)
    }
  }

  /** The messages that left with the given fate, in push order. */
  ghost function With<T>(pushed: seq<T>, fates: seq<Fate>, fate: Fate): seq<T>
    requires |fates| <= |pushed|
    decreases |fates|
  {
    if fates == [] then []
    else With(pushed, fates[..|fates| - 1], fate) +
         (if fates[|fates| - 1] == fate then [pushed[|fates| - 1]] else [])
  }

  lemma Bounds<T>(q: Fifo<T>)
    requires q.Valid()
    ensures |q.fates| <= |q.pushed| <= |q.fates| + CAPACITY
  {
  }

  lemma {:induction false} WithLonger<T>(pushed: seq<T>, more: seq<T>, fates: seq<Fate>, fate: Fate)
    requires |fates| <= |pushed|
    ensures With(pushed + more, fates, fate) == With(pushed, fates, fate)
    decreases |fates|
  {
    if fates != [] {
      WithLonger(pushed, more, fates[..|fates| - 1], fate);
    }
  }

  lemma WithOneMore<T>(pushed: seq<T>, fates: seq<Fate>, left: Fate, fate: Fate)
    requires |fates| < |pushed|
    ensures With(pushed, fates + [left], fate) ==
            With(pushed, fates, fate) + (if left == fate then [pushed[|fates|]] else [])
  {
    assert (fates + [left])[..|fates|] == fates;
  }

  lemma LeaveOne<T>(q: Fifo<T>, n: nat, left: Fate)
    ensures |q.Leave(n, left).fates| == |q.fates| + n
    ensures q.Leave(n, left).fates == if n == 0 then q.fates else q.Leave(n - 1, left).fates + [left]
  {
  }

  /** Letting the next n messages leave appends exactly them to their fate's list. */
  lemma {:induction false} WithLeave<T>(q: Fifo<T>, n: nat, left: Fate, fate: Fate)
    requires |q.fates| + n <= |q.pushed|
    ensures With(q.pushed, q.Leave(n, left).fates, fate) ==
            With(q.pushed, q.fates, fate) + (if left == fate then q.pushed[|q.fates|..|q.fates| + n] else [])
  {
    hide With, Fifo.Leave;
    LeaveOne(q, n, left);
    if n > 0 {
      WithLeave(q, n - 1, left, fate);
      WithOneMore(q.pushed, q.Leave(n - 1, left).fates, left, fate);
      SliceSnoc(q.pushed, |q.fates|, |q.fates| + n);
    }
  }

  lemma SliceSnoc<T>(s: seq<T>, i: nat, j: nat)
    requires i < j <= |s|
    ensures s[i..j] == s[i..j - 1] + [s[j - 1]]
  {
  }

  /** Conservation: pushed = dropped + drained + discarded + queued. */
  lemma {:induction false} Conservation<T>(pushed: seq<T>, fates: seq<Fate>)
    requires |fates| <= |pushed|
    ensures |pushed| == |With(pushed, fates, Dropped)| + |With(pushed, fates, Drained)|
                      + |With(pushed, fates, Discarded)| + |Fifo(pushed, fates).Contents()|
    decreases |fates|
  {
    if fates != [] {
      Conservation(pushed, fates[..|fates| - 1]);
    }
  }

  /** A push adds its message at the back and drops only the oldest of a full queue. */
  lemma PushEffect<T>(q: Fifo<T>, m: T)
    requires q.Valid()
    ensures q.Push(m).Valid()
    ensures q.Push(m).Contents() == (if |q.Contents()| == CAPACITY then q.Contents()[1..] else q.Contents()) + [m]
    ensures With(q.pushed + [m], q.Push(m).fates, Drained) == With(q.pushed, q.fates, Drained)
    ensures With(q.pushed + [m], q.Push(m).fates, Dropped) ==
            With(q.pushed, q.fates, Dropped) + (if |q.Contents()| == CAPACITY then q.Contents()[..1] else [])
  {
    WithLonger(q.pushed, [m], q.fates, Drained);
    WithLonger(q.pushed, [m], q.fates, Dropped);
    if |q.Contents()| == CAPACITY {
      var f := q.Push(m).fates;
      assert f[..|f| - 1] == q.fates;
    }
  }

  // ----- Runs of the queue on its own

  datatype Op<T> = PushOp(msg: T) | DrainOp(max: int)

  ghost function Apply<T>(q: Fifo<T>, op: Op<T>): Fifo<T>
    requires q.Valid()
  {
    match op
    case PushOp(m) => q.Push(m)
    case DrainOp(max) => q.Drain(max)
  }

  lemma ApplyValid<T>(q: Fifo<T>, op: Op<T>)
    requires q.Valid()
    ensures Apply(q, op).Valid()
  {
    if op.PushOp? {
      PushEffect(q, op.msg);
    }
  }

  ghost function Outputs<T>(q: Fifo<T>, op: Op<T>): seq<T>
    requires q.Valid()
  {
    match op
    case PushOp(_) => []
    case DrainOp(max) => q.Contents()[..q.Available(max)]
  }

  /** The queue after a run of operations on a new queue. */
  ghost function Run<T>(ops: seq<Op<T>>): (q: Fifo<T>)
    ensures q.Valid()
    decreases |ops|
  {
    if ops == [] then Fifo([], [])
    else
      ApplyValid(Run(ops[..|ops| - 1]), ops[|ops| - 1]);
      Apply(Run(ops[..|ops| - 1]), ops[|ops| - 1])
  }

  /** Everything a run of operations hands to the consumer, in order. */
  ghost function Delivered<T>(ops: seq<Op<T>>): seq<T>
    decreases |ops|
  {
    if ops == [] then []
    else Delivered(ops[..|ops| - 1]) + Outputs(Run(ops[..|ops| - 1]), ops[|ops| - 1])
  }

  ghost function Messages<T>(ops: seq<Op<T>>): seq<T>
    decreases |ops|
  {
    if ops == [] then []
    else Messages(ops[..|ops| - 1]) + (if ops[|ops| - 1].PushOp? then [ops[|ops| - 1].msg] else [])
  }

  lemma ApplyDelivers<T>(q: Fifo<T>, op: Op<T>)
    requires q.Valid()
    ensures var r := Apply(q, op);
            && r.Valid()
            && r.pushed == q.pushed + (if op.PushOp? then [op.msg] else [])
            && With(r.pushed, r.fates, Drained) == With(q.pushed, q.fates, Drained) + Outputs(q, op)
            && With(r.pushed, r.fates, Discarded) == With(q.pushed, q.fates, Discarded)
  {
    ApplyValid(q, op);
    match op
    case PushOp(m) =>
      PushEffect(q, m);
      WithLonger(q.pushed, [m], q.fates, Discarded);
      if |q.Contents()| >= CAPACITY {
        WithOneMore(q.pushed + [m], q.fates, Dropped, Discarded);
      }
    case DrainOp(max) =>
      WithLeave(q, q.Available(max), Drained, Drained);
      WithLeave(q, q.Available(max), Drained, Discarded);
      assert q.pushed[|q.fates|..|q.fates| + q.Available(max)] == Outputs(q, op);
  }

  /** Over every run, what the consumer received is the sequence of pushed
      messages with the dropped ones left out, in push order, and the queue
      holds at most the 4096 youngest. */
  lemma {:induction false} RunDeliversInOrder<T>(ops: seq<Op<T>>)
    ensures var q := Run(ops);
            && q.Valid()
            && q.pushed == Messages(ops)
            && With(q.pushed, q.fates, Drained) == Delivered(ops)
            && With(q.pushed, q.fates, Discarded) == []
            && |Messages(ops)| == |Delivered(ops)| + |With(q.pushed, q.fates, Dropped)| + |q.Contents()|
    decreases |ops|
  {
    hide With, Apply, Outputs;
    if ops != [] {
      RunDeliversInOrder(ops[..|ops| - 1]);
      ApplyDelivers(Run(ops[..|ops| - 1]), ops[|ops| - 1]);
    } else {
      NothingYet<T>();
    }
    Conservation(Run(ops).pushed, Run(ops).fates);
  }

  lemma NothingYet<T>()
    ensures With<T>([], [], Drained) == [] && With<T>([], [], Discarded) == []
  {
  }
}
