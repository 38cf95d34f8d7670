/** The capture queue shared by any number of producer threads, the worker
    thread and the thread that starts and stops it, as interleaved atomic
    steps. Each critical section of the queue's mutex is one step; the
    eventfd write that follows a push is a step of its own. */
module CaptureProtocol {
  import opened CaptureFifo

  const BATCH := 64
  /** An eventfd counter holds at most 2^64 - 2; a write that would exceed it blocks. */
  const COUNTER_MAX := 0xFFFF_FFFF_FFFF_FFFE

  /** `Unlocked`: the message is queued and the mutex released, the eventfd write still to come. */
  datatype Producer = Outside | Unlocked

  datatype Worker =
    | Absent      // no thread, or the thread has been joined
    | Test        // about to test the running flag
    | Wait        // in the blocking read of the eventfd
    | Woken       // the read returned, the flag is about to be tested again
    | Draining    // about to drain a batch
    | Delivering  // handing the batch to the callback
    | Exited

  datatype Control = Idle | Started | Cleared | Signalled | Closed

  /** `neverStarted`: no worker has been started yet. `batch`: drained, not yet delivered. */
  datatype State<T> = State(
    producers: seq<Producer>,
    worker: Worker,
    control: Control,
    neverStarted: bool,
    running: bool,
    counter: nat,
    queue: Fifo<T>,
    batch: seq<T>,
    delivered: seq<T>)

  datatype Event<T> =
    | Push(p: nat, msg: T)
    | Signal(p: nat)
    | TestFlag
    | ReadOk
    | ReadInterrupted
    | ReadError
    | TestAgain
    | DrainBatch
    | Deliver
    | Start
    | Clear
    | SignalStop
    | Join
    | Close

  predicate WorkerEvent<T>(e: Event<T>) {
    e.TestFlag? || e.ReadOk? || e.ReadInterrupted? || e.ReadError? || e.TestAgain? || e.DrainBatch? || e.Deliver?
  }

  ghost predicate Enabled<T>(s: State<T>, e: Event<T>) {
    && |s.queue.fates| <= |s.queue.pushed|
    && match e
       case Push(p, _) => p < |s.producers| && s.producers[p].Outside? && !s.control.Closed?
       case Signal(p) => p < |s.producers| && s.producers[p].Unlocked? && s.counter < COUNTER_MAX
       case TestFlag => s.worker.Test?
       case ReadOk => s.worker.Wait? && s.counter > 0
       case ReadInterrupted => s.worker.Wait?
       case ReadError => s.worker.Wait?
       case TestAgain => s.worker.Woken?
       case DrainBatch => s.worker.Draining?
       case Deliver => s.worker.Delivering? && s.batch != []
       case Start => s.control.Idle?
       case Clear => s.control.Started?
       case SignalStop => s.control.Cleared? && s.counter < COUNTER_MAX
       case Join => s.control.Signalled? && s.worker.Exited?
       case Close => s.control.Idle?
  }

  ghost function Next<T>(s: State<T>, e: Event<T>): State<T>
    requires Enabled(s, e)
  {
    match e
    case Push(p, m) => s.(producers := s.producers[p := Unlocked], queue := s.queue.Push(m))
    case Signal(p) => s.(producers := s.producers[p := Outside], counter := s.counter + 1)
    case TestFlag => s.(worker := if s.running then Wait else Exited)
    case ReadOk => s.(worker := Woken, counter := 0)
    case ReadInterrupted => s.(worker := Test)
    case ReadError => s.(worker := Exited)
    case TestAgain => s.(worker := if s.running then Draining else Exited)
    case DrainBatch =>
      var n := s.queue.Available(BATCH);
      s.(worker := if n == 0 then Test else Delivering,
         queue := s.queue.Drain(BATCH),
         batch := s.queue.Contents()[..n])
    case Deliver =>
      s.(worker := if |s.batch| == 1 then Draining else Delivering,
         batch := s.batch[1..],
         delivered := s.delivered + [s.batch[0]])
    case Start => s.(worker := Test, control := Started, running := true, neverStarted := false)
    case Clear => s.(control := Cleared, running := false)
    case SignalStop => s.(control := Signalled, counter := s.counter + 1)
    case Join => s.(control := Idle, worker := Absent)
    case Close => s.(control := Closed, queue := s.queue.Close())
  }

  ghost function Initial<T>(producers: nat): State<T> {
    State(seq(producers, _ => Outside), Absent, Idle, true, false, 0, Fifo([], []), [], [])
  }

  // ----- Invariants

  ghost predicate SomeUnlocked(producers: seq<Producer>) {
    exists p :: 0 <= p < |producers| && producers[p].Unlocked?
  }

  /** A non-empty queue has a wake-up on record or on its way. */
  ghost predicate WakeDue<T>(s: State<T>) {
    |s.queue.fates| < |s.queue.pushed| ==> s.counter > 0 || SomeUnlocked(s.producers)
  }

  /** No wake-up is lost while the worker is on its way into the read. */
  ghost predicate WakeInv<T>(s: State<T>) {
    s.worker.Test? || s.worker.Wait? || s.neverStarted ==> WakeDue(s)
  }

  ghost predicate ControlInv<T>(s: State<T>) {
    && (s.running <==> s.control.Started?)
    && (s.worker.Absent? <==> s.control.Idle? || s.control.Closed?)
    && (s.control.Signalled? && s.worker.Wait? ==> s.counter > 0)
    && (s.neverStarted ==> s.worker.Absent?)
  }

  /** Messages taken by the worker are delivered or in its batch, in order. */
  ghost predicate Accounted<T>(s: State<T>) {
    && s.queue.Valid()
    && s.delivered + s.batch == With(s.queue.pushed, s.queue.fates, Drained)
    && (s.batch != [] <==> s.worker.Delivering?)
    && (s.control.Closed? ==> s.queue.Contents() == [])
    && (!s.control.Closed? ==> With(s.queue.pushed, s.queue.fates, Discarded) == [])
  }

  ghost predicate Inv<T>(s: State<T>) {
    ControlInv(s) && Accounted(s)
  }

  lemma ControlKept<T>(s: State<T>, e: Event<T>)
    requires Inv(s) && Enabled(s, e)
    ensures ControlInv(Next(s, e))
  {
    hide With, Fifo.Valid;
  }

  lemma PushAccounted<T>(s: State<T>, e: Event<T>)
    requires Accounted(s) && Enabled(s, e) && e.Push?
    ensures Accounted(Next(s, e))
  {
    PushEffect(s.queue, e.msg);
    WithLonger(s.queue.pushed, [e.msg], s.queue.fates, Discarded);
    if |s.queue.Contents()| >= CAPACITY {
      WithOneMore(s.queue.pushed + [e.msg], s.queue.fates, Dropped, Discarded);
    }
  }

  lemma DrainAccounted<T>(s: State<T>, e: Event<T>)
    requires Accounted(s) && Enabled(s, e) && e.DrainBatch?
    ensures Accounted(Next(s, e))
  {
    hide With;
    var n := s.queue.Available(BATCH);
    WithLeave(s.queue, n, Drained, Drained);
    WithLeave(s.queue, n, Drained, Discarded);
    assert s.queue.pushed[|s.queue.fates|..|s.queue.fates| + n] == s.queue.Contents()[..n];
  }

  lemma CloseAccounted<T>(s: State<T>, e: Event<T>)
    requires Accounted(s) && Enabled(s, e) && e.Close?
    ensures Accounted(Next(s, e))
  {
    hide With;
    WithLeave(s.queue, |s.queue.Contents()|, Discarded, Drained);
  }

  lemma AccountedKept<T>(s: State<T>, e: Event<T>)
    requires Inv(s) && Enabled(s, e)
    ensures Accounted(Next(s, e))
  {
    if e.Push? {
      PushAccounted(s, e);
    } else if e.DrainBatch? {
      DrainAccounted(s, e);
    } else if e.Close? {
      CloseAccounted(s, e);
    } else {
      hide With, Fifo.Valid;
      if e.Deliver? {
        assert s.delivered + [s.batch[0]] + s.batch[1..] == s.delivered + s.batch;
      }
    }
  }

  /** Every step of every thread keeps the invariant. */
  lemma StepKeepsInv<T>(s: State<T>, e: Event<T>)
    requires Inv(s) && Enabled(s, e)
    ensures Inv(Next(s, e))
  {
    hide Accounted, ControlInv, Next;
    ControlKept(s, e);
    AccountedKept(s, e);
  }

  /** Every step except an unsound restart keeps the wake-up invariant. */
  lemma StepKeepsWake<T>(s: State<T>, e: Event<T>)
    requires Inv(s) && WakeInv(s) && Enabled(s, e) && (e.Start? && !s.neverStarted ==> WakeDue(s))
    ensures WakeInv(Next(s, e))
  {
    hide With, Fifo.Valid;
    match e
    case Push(p, _) =>
      assert Next(s, e).producers[p].Unlocked?;
    case Signal(p) =>
    case _ =>
  }

  // ----- Runs

  ghost predicate Possible<T>(s: State<T>, run: seq<Event<T>>)
    decreases |run|
  {
    run == [] || (Enabled(s, run[0]) && Possible(Next(s, run[0]), run[1..]))
  }

  ghost function After<T>(s: State<T>, run: seq<Event<T>>): State<T>
    requires Possible(s, run)
    decreases |run|
  {
    if run == [] then s else After(Next(s, run[0]), run[1..])
  }

  /** Every start after the first finds the queue empty or a wake-up due. */
  ghost predicate CarefulStarts<T>(s: State<T>, run: seq<Event<T>>)
    requires Possible(s, run)
    decreases |run|
  {
    run == [] || ((run[0].Start? && !s.neverStarted ==> WakeDue(s)) && CarefulStarts(Next(s, run[0]), run[1..]))
  }

  lemma {:induction false} RunKeepsInv<T>(s: State<T>, run: seq<Event<T>>)
    requires Inv(s) && Possible(s, run)
    ensures Inv(After(s, run))
    decreases |run|
  {
    hide Inv, Enabled, Next;
    if run != [] {
      StepKeepsInv(s, run[0]);
      RunKeepsInv(Next(s, run[0]), run[1..]);
    }
  }

  lemma {:induction false} RunKeepsWake<T>(s: State<T>, run: seq<Event<T>>)
    requires Inv(s) && WakeInv(s) && Possible(s, run) && CarefulStarts(s, run)
    ensures WakeInv(After(s, run))
    decreases |run|
  {
    hide Inv, WakeInv, WakeDue, Enabled, Next;
    if run != [] {
      StepKeepsInv(s, run[0]);
      StepKeepsWake(s, run[0]);
      RunKeepsWake(Next(s, run[0]), run[1..]);
    }
  }

  lemma InitialInv<T>(n: nat)
    ensures Inv(Initial<T>(n)) && WakeInv(Initial<T>(n))
  {
  }

  /** No lost wake-up: in every interleaving, when the worker sleeps in the
      read with the counter at zero while messages are queued, some producer
      has released the mutex and not yet written the eventfd. */
  lemma NoLostWakeup<T>(n: nat, run: seq<Event<T>>)
    requires Possible(Initial(n), run) && CarefulStarts(Initial(n), run)
    ensures var s := After(Initial(n), run);
            s.worker.Wait? && s.counter == 0 && |s.queue.fates| < |s.queue.pushed| ==> SomeUnlocked(s.producers)
  {
    InitialInv<T>(n);
    RunKeepsWake(Initial(n), run);
  }

  ghost predicate NoStart<T>(run: seq<Event<T>>) {
    forall i :: 0 <= i < |run| ==> !run[i].Start?
  }

  /** The failure: the worker sleeps in the read with the counter at zero and
      messages queued, and no producer is about to write. */
  ghost predicate Asleep<T>(s: State<T>) {
    s.worker.Wait? && s.counter == 0 && |s.queue.fates| < |s.queue.pushed| && !SomeUnlocked(s.producers)
  }

  /** No continuation without another start ends in that failure. */
  ghost predicate NeverAsleep<T(!new)>(s: State<T>) {
    forall run :: Possible(s, run) && NoStart(run) ==> !Asleep(After(s, run))
  }

  lemma {:induction false} NoStartIsCareful<T>(s: State<T>, run: seq<Event<T>>)
    requires Possible(s, run) && NoStart(run)
    ensures CarefulStarts(s, run)
    decreases |run|
  {
    hide Enabled, Next;
    if run != [] {
      NoStartIsCareful(Next(s, run[0]), run[1..]);
    }
  }

  /** Exactly when a start is safe: the worker it creates can never be left
      asleep on queued messages, by any continuation of any threads, if and
      only if the queue is empty, the counter positive or a write due at the
      moment of the start. */
  lemma StartSafeIff<T(!new)>(s: State<T>)
    requires Inv(s) && Enabled(s, Start)
    ensures NeverAsleep(Next(s, Start)) <==> WakeDue(s)
  {
    var t := Next(s, Start);
    StepKeepsInv(s, Start);
    if WakeDue(s) {
      forall run | Possible(t, run) && NoStart(run)
        ensures !Asleep(After(t, run))
      {
        NoStartIsCareful(t, run);
        RunKeepsWake(t, run);
      }
    } else {
      Chain(t, TestFlag, []);
      var run: seq<Event<T>> := [TestFlag];
      assert run + [] == run;
      assert Possible(t, run) && NoStart(run) && Asleep(After(t, run));
    }
  }

  /** Whatever the producers did before, the first start of a run is safe. */
  lemma FirstStartSafe<T(!new)>(n: nat, run: seq<Event<T>>)
    requires Possible(Initial(n), run) && NoStart(run) && Enabled(After(Initial(n), run), Start)
    ensures NeverAsleep(Next(After(Initial(n), run), Start))
  {
    var s := After(Initial(n), run);
    InitialInv<T>(n);
    RunKeepsInv(Initial(n), run);
    NoStartIsCareful(Initial(n), run);
    RunKeepsWake(Initial(n), run);
    StaysUnstarted(Initial(n), run);
    StartSafeIff(s);
  }

  lemma {:induction false} StaysUnstarted<T>(s: State<T>, run: seq<Event<T>>)
    requires Possible(s, run) && NoStart(run) && s.neverStarted
    ensures After(s, run).neverStarted
    decreases |run|
  {
    if run != [] {
      assert Next(s, run[0]).neverStarted;
      hide Enabled, Next;
      StaysUnstarted(Next(s, run[0]), run[1..]);
    }
  }

  /** One producer, between calls, with one message queued. */
  ghost function Queued<T>(m: T, worker: Worker, control: Control, neverStarted: bool, counter: nat): State<T> {
    State([Outside], worker, control, neverStarted, control.Started?, counter, Fifo([m], []), [], [])
  }

  lemma WokenByStop<T>(m: T)
    ensures var run := [Clear, SignalStop] + ([ReadOk, TestAgain] + [Join]);
            && Possible(Queued(m, Wait, Started, false, 1), run)
            && After(Queued(m, Wait, Started, false, 1), run) == Queued(m, Absent, Idle, false, 0)
  {
    var r: seq<Event<T>> := [Join];
    Chain(Queued(m, Exited, Signalled, false, 0), Join, []);
    assert r + [] == r;
    Chain2(Queued(m, Wait, Signalled, false, 2), ReadOk, TestAgain, r, Queued(m, Exited, Signalled, false, 0));
    Chain2(Queued(m, Wait, Started, false, 1), Clear, SignalStop, [ReadOk, TestAgain] + r,
           Queued(m, Wait, Signalled, false, 2));
  }

  /** A stop can consume the wake-up of a message it leaves queued. */
  lemma StopCanLeaveMessage<T>(m: T)
    ensures var run := [Push(0, m), Signal(0)]
                       + ([Start, TestFlag] + ([Clear, SignalStop] + ([ReadOk, TestAgain] + [Join])));
            Possible(Initial<T>(1), run) && After(Initial<T>(1), run) == Queued(m, Absent, Idle, false, 0)
  {
    var r: seq<Event<T>> := [Clear, SignalStop] + ([ReadOk, TestAgain] + [Join]);
    WokenByStop(m);
    Chain2(Queued(m, Absent, Idle, true, 1), Start, TestFlag, r, Queued(m, Wait, Started, false, 1));
    assert Next(Initial<T>(1), Push(0, m)).producers == [Unlocked];
    Chain2(Initial<T>(1), Push(0, m), Signal(0), [Start, TestFlag] + r, Queued(m, Absent, Idle, true, 1));
  }

  /** Restarting in that state loses the wake-up: the new worker sleeps in
      the read with the counter at zero, the message queued and no write due. */
  lemma RestartCanLoseWakeup<T>(m: T)
    ensures var s := Queued(m, Absent, Idle, false, 0);
            && Possible(s, [Start, TestFlag])
            && After(s, [Start, TestFlag]) == Queued(m, Wait, Started, false, 0)
            && !SomeUnlocked(After(s, [Start, TestFlag]).producers)
  {
    Chain2(Queued(m, Absent, Idle, false, 0), Start, TestFlag, [], Queued(m, Wait, Started, false, 0));
    var run: seq<Event<T>> := [Start, TestFlag];
    assert run + [] == run;
  }

  lemma Chain2<T>(s: State<T>, e: Event<T>, f: Event<T>, rest: seq<Event<T>>, t: State<T>)
    requires Enabled(s, e) && Enabled(Next(s, e), f) && Next(Next(s, e), f) == t && Possible(t, rest)
    ensures Possible(s, [e, f] + rest) && After(s, [e, f] + rest) == After(t, rest)
  {
    hide Enabled, Next;
    Chain(Next(s, e), f, rest);
    Chain(s, e, [f] + rest);
    assert [e] + ([f] + rest) == [e, f] + rest;
  }

  lemma Chain<T>(s: State<T>, e: Event<T>, rest: seq<Event<T>>)
    requires Enabled(s, e) && Possible(Next(s, e), rest)
    ensures Possible(s, [e] + rest) && After(s, [e] + rest) == After(Next(s, e), rest)
  {
    assert ([e] + rest)[1..] == rest;
  }

  // ----- Shutdown

  /** Steps the worker can still take once the flag is down and pushes have ceased. */
  ghost function Remaining<T>(s: State<T>): nat
    requires |s.queue.fates| <= |s.queue.pushed|
  {
    match s.worker
    case Absent => 0
    case Exited => 0
    case Test => 1
    case Woken => 1
    case Wait => 2
    case Draining => 2 * |s.queue.Contents()| + 2
    case Delivering => 2 * |s.queue.Contents()| + 2 + |s.batch|
  }

  /** After the stop signal the worker always has a step to take: it is never stuck in the read. */
  lemma StoppedWorkerMoves<T>(s: State<T>)
    requires Inv(s) && s.control.Signalled? && !s.worker.Exited?
    ensures exists e :: WorkerEvent(e) && Enabled(s, e)
    ensures s.worker.Wait? ==> Enabled(s, ReadOk)
  {
    hide With;
    var e := match s.worker
      case Test => TestFlag
      case Wait => ReadOk
      case Woken => TestAgain
      case Draining => DrainBatch
      case _ => Deliver;
    assert WorkerEvent(e) && Enabled(s, e);
  }

  lemma WorkerEvents<T>(e: Event<T>)
    ensures WorkerEvent(e) <==> !(e.Push? || e.Signal? || e.Start? || e.Clear? || e.SignalStop? || e.Join? || e.Close?)
  {
  }

  lemma RemainingShrinks<T>(s: State<T>, e: Event<T>)
    requires Inv(s) && Enabled(s, e) && !s.running && !e.Push? && !e.Start?
    ensures !Next(s, e).running
    ensures Inv(Next(s, e))
    ensures Remaining(Next(s, e)) + (if WorkerEvent(e) then 1 else 0) <= Remaining(s)
  {
    StepKeepsInv(s, e);
    hide With, Fifo.Valid, WorkerEvent;
    Bounds(s.queue);
    assert WorkerEvent(e) <==> !(e.Signal? || e.Clear? || e.SignalStop? || e.Join? || e.Close?) by {
      WorkerEvents(e);
    }
  }

  ghost function WorkerSteps<T>(run: seq<Event<T>>): nat {
    if run == [] then 0 else (if WorkerEvent(run[0]) then 1 else 0) + WorkerSteps(run[1..])
  }

  /** Once the flag is down, any interleaving without pushes gives the worker
      at most `Remaining` steps before it has exited. */
  lemma {:induction false} ShutdownTerminates<T>(s: State<T>, run: seq<Event<T>>)
    requires Inv(s) && !s.running && Possible(s, run)
    requires forall i :: 0 <= i < |run| ==> !run[i].Push? && !run[i].Start?
    ensures Inv(After(s, run))
    ensures WorkerSteps(run) + Remaining(After(s, run)) <= Remaining(s)
    decreases |run|
  {
    hide Inv, Next, Remaining;
    Settled(s);
    if run != [] {
      RemainingShrinks(s, run[0]);
      ShutdownTerminates(Next(s, run[0]), run[1..]);
    }
  }

  lemma Settled<T>(s: State<T>)
    requires Inv(s)
    ensures |s.queue.fates| <= |s.queue.pushed|
  {
  }

  /** After stop, join and close, every message ever pushed has exactly one
      fate, and the delivered ones are exactly the drained ones in push order. */
  lemma ClosedAccountsForAll<T>(n: nat, run: seq<Event<T>>)
    requires Possible(Initial(n), run) && After(Initial(n), run).control.Closed?
    ensures var s := After(Initial(n), run);
            && |s.queue.fates| == |s.queue.pushed|
            && s.delivered == With(s.queue.pushed, s.queue.fates, Drained)
            && |s.queue.pushed| == |s.delivered| + |With(s.queue.pushed, s.queue.fates, Dropped)|
                                 + |With(s.queue.pushed, s.queue.fates, Discarded)|
  {
    hide With;
    InitialInv<T>(n);
    RunKeepsInv(Initial(n), run);
    var s := After(Initial(n), run);
    assert s.delivered + s.batch == s.delivered;
    Conservation(s.queue.pushed, s.queue.fates);
  }
}
