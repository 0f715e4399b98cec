/**
  Producers that put messages in a mutex-protected queue and then bump an eventfd, and a
  consumer that waits on the eventfd, clears it and drains the queue. Every thread moves in
  the atomic steps of the program text; any interleaving is a run.
  */
module Wakeup {

  datatype Message = Message(thread: nat, index: nat)

  datatype ProducerPc =
    | Sleeping   // about to make the next message
    | WantLock   // message made, about to lock the mutex
    | Locked     // holds the mutex, about to enqueue
    | Enqueued   // holds the mutex, about to unlock
    | Unlocked   // about to write to the eventfd
    | Woken      // about to test the completed flag
    | Exited

  datatype Producer = Producer(pc: ProducerPc, msgIdx: nat, cnt: nat)

  datatype ConsumerPc =
    | Selecting  // in select
    | Readable   // select returned, about to read the eventfd
    | Cleared    // eventfd read, about to lock the mutex
    | Draining   // holds the mutex, in the dequeue loop
    | Unlocking  // left the dequeue loop, about to unlock
    | Checking   // about to test the exit flag
    | Stopping   // left the event loop, about to set the completed flag
    | Joining(k: nat)
    | Exhausting
    | Finished

  datatype Owner = Nobody | HeldByProducer(i: nat) | HeldByConsumer

  datatype State = State(
    producers: seq<Producer>, consumer: ConsumerPc,
    queue: seq<Message>, mutex: Owner, eventfd: nat, exit: bool, completed: bool,
    cnt: nat, totalSend: nat, received: seq<Message>)

  const EVENTFD_MAX: nat := 0xffff_ffff_ffff_fffe
  const CONSUMER_LIMIT: nat := 512

  datatype Action = Produce(i: nat) | Consume | SelectFails

  function Init(n: nat): State
  {
    State(seq(n, _ => Producer(Sleeping, 0, 0)), Selecting, [], Nobody, 0, false, false, 0, 0, [])
  }

  predicate Enabled(s: State, a: Action)
  {
    match a
    case Produce(i) =>
      && i < |s.producers|
      && (match s.producers[i].pc
          case WantLock => s.mutex.Nobody?
          case Exited => false
          case _ => true)
    case Consume =>
      (match s.consumer
       case Selecting => s.eventfd > 0
       case Cleared => s.mutex.Nobody?
       case Joining(k) => k < |s.producers| ==> s.producers[k].pc.Exited?
       case Finished => false
       case _ => true)
    case SelectFails => s.consumer.Selecting?
  }

  function ProducerStep(s: State, i: nat): State
    requires i < |s.producers|
  {
    var p := s.producers[i];
    match p.pc
    case Sleeping => s.(producers := s.producers[i := p.(pc := WantLock, msgIdx := p.msgIdx + 1)])
    case WantLock => s.(producers := s.producers[i := p.(pc := Locked)], mutex := HeldByProducer(i))
    case Locked => s.(producers := s.producers[i := p.(pc := Enqueued)], queue := s.queue + [Message(i, p.msgIdx)])
    case Enqueued => s.(producers := s.producers[i := p.(pc := Unlocked)], mutex := Nobody)
    case Unlocked =>
      // a write that would overflow the counter fails and leaves it alone
      s.(producers := s.producers[i := p.(pc := Woken)],
         eventfd := if s.eventfd < EVENTFD_MAX then s.eventfd + 1 else s.eventfd)
    case Woken =>
      if s.completed then s.(producers := s.producers[i := p.(pc := Exited, cnt := p.msgIdx)])
      else s.(producers := s.producers[i := p.(pc := Sleeping)])
    case Exited => s
  }

  function Dequeue(s: State): State
    requires s.queue != []
  {
    s.(cnt := s.cnt + 1, queue := s.queue[1..], received := s.received + [s.queue[0]])
  }

  function ConsumerStep(s: State): State
  {
    match s.consumer
    case Selecting => s.(consumer := Readable)
    case Readable => s.(consumer := Cleared, eventfd := 0)
    case Cleared => s.(consumer := Draining, mutex := HeldByConsumer)
    case Draining =>
      if s.queue == [] then s.(consumer := Unlocking)
      else if s.cnt + 1 >= CONSUMER_LIMIT then Dequeue(s).(exit := true, consumer := Unlocking)
      else Dequeue(s)
    case Unlocking => s.(consumer := Checking, mutex := Nobody)
    case Checking => s.(consumer := if s.exit then Stopping else Selecting)
    case Stopping => s.(consumer := Joining(0), completed := true)
    case Joining(k) =>
      if k < |s.producers| then s.(consumer := Joining(k + 1), totalSend := s.totalSend + s.producers[k].cnt)
      else s.(consumer := Exhausting)
    case Exhausting => if s.queue == [] then s.(consumer := Finished) else Dequeue(s)
    case Finished => s
  }

  function Do(s: State, a: Action): State
    requires Enabled(s, a)
  {
    match a
    case Produce(i) => ProducerStep(s, i)
    case Consume => ConsumerStep(s)
    case SelectFails => s.(exit := true, consumer := Checking)
  }

  predicate CanRun(s: State, run: seq<Action>)
    decreases |run|
  {
    run == [] || (Enabled(s, run[0]) && CanRun(Do(s, run[0]), run[1..]))
  }

  function After(s: State, run: seq<Action>): State
    requires CanRun(s, run)
    decreases |run|
  {
    if run == [] then s else After(Do(s, run[0]), run[1..])
  }

  // ---- what every step keeps

  /** The mutex excludes: whoever is in a critical section is recorded as its owner. */
  ghost predicate MutexInv(s: State)
  {
    && (forall i :: 0 <= i < |s.producers| ==>
          (s.producers[i].pc.Locked? || s.producers[i].pc.Enqueued? <==> s.mutex == HeldByProducer(i)))
    && (s.mutex.HeldByProducer? ==> s.mutex.i < |s.producers|)
    && (s.consumer.Draining? || s.consumer.Unlocking? <==> s.mutex == HeldByConsumer)
  }

  /** The indices of the messages of one producer, in order. */
  function Of(log: seq<Message>, thread: nat): seq<nat>
  {
    if log == [] then []
    else
      var rest := Of(log[..|log| - 1], thread);
      var m := log[|log| - 1];
      if m.thread == thread then rest + [m.index] else rest
  }

  /** 1, 2, ..., n */
  function UpTo(n: nat): (s: seq<nat>)
    ensures |s| == n
  {
    if n == 0 then [] else UpTo(n - 1) + [n]
  }

  /** The messages producer `p` has put in the queue so far. */
  function Sent(p: Producer): int
  {
    if p.pc.WantLock? || p.pc.Locked? then p.msgIdx - 1 else p.msgIdx
  }

  /** Everything enqueued so far, in order: what was received followed by what is still queued. */
  function Log(s: State): seq<Message>
  {
    s.received + s.queue
  }

  /** Nothing is lost, duplicated or reordered between a producer and the consumer. */
  ghost predicate LogInv(s: State)
  {
    && s.cnt == |s.received|
    && (forall k :: 0 <= k < |Log(s)| ==> Log(s)[k].thread < |s.producers|)
    && (forall i :: 0 <= i < |s.producers| ==>
          0 <= Sent(s.producers[i]) && Of(Log(s), i) == UpTo(Sent(s.producers[i])))
  }

  predicate InLoop(c: ConsumerPc)
  {
    c.Selecting? || c.Readable? || c.Cleared? || c.Draining? || c.Unlocking? || c.Checking?
  }

  /** Some producer has enqueued and is on its way to the eventfd. */
  ghost predicate WakeupPending(s: State)
  {
    exists i :: 0 <= i < |s.producers| && (s.producers[i].pc.Enqueued? || s.producers[i].pc.Unlocked?)
  }

  /** No wakeup is lost. */
  ghost predicate WakeInv(s: State)
  {
    && (InLoop(s.consumer) && !s.exit && s.queue != [] ==>
          s.eventfd > 0 || WakeupPending(s) || s.consumer.Cleared? || s.consumer.Draining?)
    && (s.consumer.Unlocking? && !s.exit ==> s.queue == [])
    && (s.consumer.Readable? ==> s.eventfd > 0)
  }

  function SumCnt(ps: seq<Producer>): nat
  {
    if ps == [] then 0 else SumCnt(ps[..|ps| - 1]) + ps[|ps| - 1].cnt
  }

  /** How far the shutdown has come. */
  ghost predicate PhaseInv(s: State)
  {
    && (s.completed <==> s.consumer.Joining? || s.consumer.Exhausting? || s.consumer.Finished?)
    && (forall i :: 0 <= i < |s.producers| && s.producers[i].pc.Exited? ==>
          s.completed && s.producers[i].cnt == s.producers[i].msgIdx)
    && (s.consumer.Joining? ==>
          && s.consumer.k <= |s.producers|
          && (forall i :: 0 <= i < s.consumer.k ==> s.producers[i].pc.Exited?)
          && s.totalSend == SumCnt(s.producers[..s.consumer.k]))
    && (s.consumer.Exhausting? || s.consumer.Finished? ==>
          && (forall i :: 0 <= i < |s.producers| ==> s.producers[i].pc.Exited?)
          && s.totalSend == SumCnt(s.producers))
    && (s.consumer.Stopping? ==> s.exit)
    && (InLoop(s.consumer) && s.exit ==> s.consumer.Unlocking? || s.consumer.Checking?)
    && (s.consumer.Finished? ==> s.queue == [])
    && (InLoop(s.consumer) ==> s.totalSend == 0)
    && (s.consumer.Stopping? ==> s.totalSend == 0)
    && (!s.exit && InLoop(s.consumer) ==> s.cnt < CONSUMER_LIMIT)
  }

  ghost predicate Inv(s: State)
  {
    MutexInv(s) && LogInv(s) && WakeInv(s) && PhaseInv(s)
  }

  lemma InitInv(n: nat)
    ensures Inv(Init(n))
  {
  }

  lemma MutexStep(s: State, a: Action)
    requires MutexInv(s) && Enabled(s, a)
    ensures MutexInv(Do(s, a))
  {
  }

  lemma OfAppend(log: seq<Message>, m: Message, thread: nat)
    ensures Of(log + [m], thread) == if m.thread == thread then Of(log, thread) + [m.index] else Of(log, thread)
  {
    assert (log + [m])[..|log|] == log;
  }

  lemma EnqueueLog(s: State, i: nat)
    requires LogInv(s) && i < |s.producers| && s.producers[i].pc.Locked?
    ensures LogInv(ProducerStep(s, i))
  {
    var t := ProducerStep(s, i);
    var m := Message(i, s.producers[i].msgIdx);
    assert Log(t) == Log(s) + [m];
    hide Log;
    assert UpTo(m.index) == UpTo(m.index - 1) + [m.index];
    hide UpTo;
    forall j | 0 <= j < |t.producers|
      ensures 0 <= Sent(t.producers[j]) && Of(Log(t), j) == UpTo(Sent(t.producers[j]))
    {
      OfAppend(Log(s), m, j);
    }
  }

  lemma OtherLog(s: State, t: State)
    requires LogInv(s) && Log(t) == Log(s) && t.cnt == |t.received| && |t.producers| == |s.producers|
    requires forall j :: 0 <= j < |s.producers| ==> Sent(t.producers[j]) == Sent(s.producers[j])
    ensures LogInv(t)
  {
    hide Of, UpTo, Sent;
  }

  lemma ConsumerLog(s: State)
    requires LogInv(s)
    ensures LogInv(ConsumerStep(s))
  {
    assert s.cnt == |s.received|;
    hide LogInv;
    var t := ConsumerStep(s);
    if s.queue != [] {
      assert s.received + s.queue == (s.received + [s.queue[0]]) + s.queue[1..];
    }
    assert Log(t) == Log(s);
    OtherLog(s, t);
  }

  lemma ProducerLog(s: State, i: nat)
    requires LogInv(s) && i < |s.producers|
    ensures LogInv(ProducerStep(s, i))
  {
    var t := ProducerStep(s, i);
    assert s.cnt == |s.received|;
    hide LogInv;
    if s.producers[i].pc.Locked? {
      EnqueueLog(s, i);
    } else {
      OtherLog(s, t);
    }
  }

  lemma LogStep(s: State, a: Action)
    requires LogInv(s) && Enabled(s, a)
    ensures LogInv(Do(s, a))
  {
    match a
    case Produce(i) => ProducerLog(s, i);
    case Consume => ConsumerLog(s);
    case SelectFails =>
      assert s.cnt == |s.received|;
      OtherLog(s, Do(s, a));
  }

  lemma WakeStep(s: State, a: Action)
    requires MutexInv(s) && WakeInv(s) && Enabled(s, a)
    ensures WakeInv(Do(s, a))
  {
    var t := Do(s, a);
    match a
    case Produce(i) =>
      forall j | 0 <= j < |s.producers| && j != i ensures t.producers[j] == s.producers[j] {}
      assert t.producers[i].pc.Enqueued? || t.producers[i].pc.Unlocked? ==> WakeupPending(t);
    case Consume =>
      assert t.producers == s.producers;
      assert WakeupPending(t) == WakeupPending(s);
    case SelectFails =>
  }

  lemma ProducerPhase(s: State, i: nat)
    requires PhaseInv(s) && Enabled(s, Produce(i))
    ensures PhaseInv(ProducerStep(s, i))
  {
    hide SumCnt;
    var t := ProducerStep(s, i);
    assert forall j :: 0 <= j < |s.producers| && j != i ==> t.producers[j] == s.producers[j];
    if s.consumer.Joining? {
      assert t.producers[..s.consumer.k] == s.producers[..s.consumer.k];
    }
  }

  lemma ConsumerPhase(s: State)
    requires PhaseInv(s) && Enabled(s, Consume)
    ensures PhaseInv(ConsumerStep(s))
  {
    if s.consumer.Joining? {
      var k, ps := s.consumer.k, s.producers;
      assert ps[..|ps|] == ps;
      if k < |ps| {
        assert ps[..k + 1][..k] == ps[..k];
      }
    }
  }

  lemma PhaseStep(s: State, a: Action)
    requires PhaseInv(s) && Enabled(s, a)
    ensures PhaseInv(Do(s, a))
  {
    if a.Produce? {
      hide PhaseInv;
      ProducerPhase(s, a.i);
    } else if a.Consume? {
      hide PhaseInv;
      ConsumerPhase(s);
    }
  }

  lemma StepInv(s: State, a: Action)
    requires Inv(s) && Enabled(s, a)
    ensures Inv(Do(s, a))
  {
    hide MutexInv, LogInv, WakeInv, PhaseInv, Do, Enabled;
    MutexStep(s, a);
    LogStep(s, a);
    WakeStep(s, a);
    PhaseStep(s, a);
  }

  /** The invariant holds in every reachable state, whatever the interleaving. */
  lemma {:induction false} RunInv(s: State, run: seq<Action>)
    requires Inv(s) && CanRun(s, run)
    ensures Inv(After(s, run))
    decreases |run|
  {
    hide Inv, Do, Enabled;
    if run != [] {
      StepInv(s, run[0]);
      RunInv(Do(s, run[0]), run[1..]);
    }
  }

  /** No lost wakeup: while the event loop is running, queued messages imply a readable eventfd,
      a producer between its enqueue and its wakeup, or a consumer that is about to drain. */
  lemma NoLostWakeup(n: nat, run: seq<Action>)
    requires CanRun(Init(n), run)
    ensures var s := After(Init(n), run);
      InLoop(s.consumer) && !s.exit && s.queue != [] ==>
        s.eventfd > 0 || WakeupPending(s) || s.consumer.Cleared? || s.consumer.Draining?
  {
    InitInv(n);
    RunInv(Init(n), run);
  }

  /** The consumer never waits while there is work that nobody will announce. */
  lemma BlockedOnlyWhenIdle(n: nat, run: seq<Action>)
    requires CanRun(Init(n), run)
    ensures var s := After(Init(n), run);
      s.consumer.Selecting? && s.eventfd == 0 && !s.exit && !WakeupPending(s) ==> s.queue == []
  {
    NoLostWakeup(n, run);
  }

  lemma {:induction false} OfPrefix(a: seq<Message>, b: seq<Message>, thread: nat)
    ensures Of(a, thread) <= Of(a + b, thread)
  {
    if b == [] {
      assert a + b == a;
    } else {
      var b' := b[..|b| - 1];
      OfPrefix(a, b', thread);
      assert a + b == (a + b') + [b[|b| - 1]];
      OfAppend(a + b', b[|b| - 1], thread);
    }
  }

  lemma {:induction false} UpToAt(n: nat, k: nat)
    requires k < n
    ensures UpTo(n)[k] == k + 1
  {
    if k < n - 1 {
      UpToAt(n - 1, k);
    }
  }

  /** At any time the consumer has seen the messages 1, 2, 3, ... of each producer, in order,
      without gap or repetition, and none that was not sent. */
  lemma ReceivedInOrder(n: nat, run: seq<Action>, i: nat)
    requires CanRun(Init(n), run) && i < n
    ensures var s := After(Init(n), run);
      var got := Of(s.received, i);
      && |s.producers| == n && |got| <= s.producers[i].msgIdx && got == UpTo(|got|)
  {
    InitInv(n);
    RunInv(Init(n), run);
    SameProducers(Init(n), run);
    var s := After(Init(n), run);
    OfPrefix(s.received, s.queue, i);
    var got, sent := Of(s.received, i), Sent(s.producers[i]);
    assert got <= UpTo(sent);
    forall k | 0 <= k < |got| ensures got[k] == UpTo(|got|)[k] {
      UpToAt(sent, k);
      UpToAt(|got|, k);
    }
  }

  lemma {:induction false} SameProducers(s: State, run: seq<Action>)
    requires CanRun(s, run)
    ensures |After(s, run).producers| == |s.producers|
    decreases |run|
  {
    if run != [] {
      SameProducers(Do(s, run[0]), run[1..]);
    }
  }

  /** The number of messages is the sum of the numbers per producer. */
  lemma {:induction false} CountByThread(log: seq<Message>, ps: seq<Producer>)
    requires forall k :: 0 <= k < |log| ==> log[k].thread < |ps|
    requires forall i :: 0 <= i < |ps| ==> |Of(log, i)| == ps[i].cnt
    ensures |log| == SumCnt(ps)
  {
    if log == [] {
      ZeroSum(ps);
    } else {
      var init, m := log[..|log| - 1], log[|log| - 1];
      var ps' := ps[m.thread := ps[m.thread].(cnt := ps[m.thread].cnt - 1)];
      forall i | 0 <= i < |ps'| ensures |Of(init, i)| == ps'[i].cnt {
        assert |Of(log, i)| == ps[i].cnt;
      }
      CountByThread(init, ps');
      BumpSum(ps', m.thread, ps[m.thread]);
      assert ps'[m.thread := ps[m.thread]] == ps;
    }
  }

  lemma {:induction false} ZeroSum(ps: seq<Producer>)
    requires forall i :: 0 <= i < |ps| ==> ps[i].cnt == 0
    ensures SumCnt(ps) == 0
  {
    if ps != [] {
      ZeroSum(ps[..|ps| - 1]);
    }
  }

  lemma {:induction false} BumpSum(ps: seq<Producer>, i: nat, p: Producer)
    requires i < |ps|
    ensures SumCnt(ps[i := p]) == SumCnt(ps) - ps[i].cnt + p.cnt
  {
    var last := |ps| - 1;
    if i == last {
      assert ps[i := p][..last] == ps[..last];
    } else {
      BumpSum(ps[..last], i, p);
      assert ps[i := p][..last] == ps[..last][i := p];
    }
  }

  /** When the program ends, every message of every producer has been received exactly once and in
      order, and the two totals that it prints agree. */
  lemma ExactlyOnce(n: nat, run: seq<Action>)
    requires CanRun(Init(n), run)
    requires After(Init(n), run).consumer.Finished?
    ensures var s := After(Init(n), run);
      && s.queue == [] && s.cnt == s.totalSend == |s.received| == SumCnt(s.producers)
      && forall i :: 0 <= i < |s.producers| ==>
           s.producers[i].cnt == s.producers[i].msgIdx && Of(s.received, i) == UpTo(s.producers[i].cnt)
  {
    InitInv(n);
    RunInv(Init(n), run);
    var s := After(Init(n), run);
    assert Log(s) == s.received;
    CountByThread(s.received, s.producers);
  }

  // ---- when the loop ends, and what the eventfd counts

  /** The loop is left with 512 messages received, and more only come out of the queue afterwards. */
  predicate LimitInv(s: State)
  {
    && (s.exit <==> s.cnt >= 512)
    && (!s.exit ==> InLoop(s.consumer))
    && (InLoop(s.consumer) || s.consumer.Stopping? || s.consumer.Joining? ==> s.cnt <= 512)
  }

  lemma LimitStep(s: State, a: Action)
    requires PhaseInv(s) && LimitInv(s) && Enabled(s, a) && !a.SelectFails?
    ensures LimitInv(Do(s, a))
  {
  }

  lemma {:induction false} RunLimit(s: State, run: seq<Action>)
    requires Inv(s) && LimitInv(s) && CanRun(s, run) && SelectFails !in run
    ensures LimitInv(After(s, run))
    decreases |run|
  {
    hide Inv, LimitInv, Do, Enabled;
    if run != [] {
      StepInv(s, run[0]);
      assert PhaseInv(s) by { InvPhase(s); }
      LimitStep(s, run[0]);
      RunLimit(Do(s, run[0]), run[1..]);
    }
  }

  lemma InvPhase(s: State)
    requires Inv(s)
    ensures PhaseInv(s)
  {
  }

  /** Unless select fails, the consumer stays in its loop exactly until it has received 512 messages. */
  lemma StopsAt512(n: nat, run: seq<Action>)
    requires CanRun(Init(n), run) && SelectFails !in run
    ensures var s := After(Init(n), run);
      && (s.exit <==> s.cnt >= 512) && (!InLoop(s.consumer) ==> s.cnt >= 512)
      && (s.consumer.Stopping? || s.consumer.Joining? ==> s.cnt == |s.received| == 512)
  {
    InitInv(n);
    RunLimit(Init(n), run);
    RunInv(Init(n), run);
  }

  /** Out of the event loop, or about to leave it. */
  predicate Leaving(s: State)
  {
    s.exit && (s.consumer.Checking? || !InLoop(s.consumer))
  }

  lemma {:induction false} StaysOut(s: State, run: seq<Action>)
    requires Leaving(s) && CanRun(s, run)
    ensures Leaving(After(s, run)) && SelectFails !in run
    decreases |run|
  {
    if run != [] {
      assert Leaving(Do(s, run[0])) && run[0] != SelectFails;
      StaysOut(Do(s, run[0]), run[1..]);
      assert run == [run[0]] + run[1..];
    }
  }

  /** A failed select ends the event loop: the consumer never waits again, nor receives before all
      producers have been joined. */
  lemma {:induction false} FailedSelectEnds(s: State, run: seq<Action>, k: nat)
    requires CanRun(s, run) && k < |run| && run[k] == SelectFails
    ensures Leaving(After(s, run)) && SelectFails !in run[k + 1..]
    decreases k
  {
    if k == 0 {
      StaysOut(Do(s, run[0]), run[1..]);
    } else {
      FailedSelectEnds(Do(s, run[0]), run[1..], k - 1);
      assert run[1..][k..] == run[k + 1..];
    }
  }

  predicate Bumps(s: State, a: Action)
  {
    a.Produce? && a.i < |s.producers| && s.producers[a.i].pc.Unlocked?
  }

  predicate Clears(s: State, a: Action)
  {
    a.Consume? && s.consumer.Readable?
  }

  /** The wakeups written since the consumer last read the eventfd, of which `c` before the run. */
  function Unread(s: State, run: seq<Action>, c: nat): nat
    requires CanRun(s, run)
    decreases |run|
  {
    if run == [] then c
    else
      var next := if Bumps(s, run[0]) then c + 1 else if Clears(s, run[0]) then 0 else c;
      Unread(Do(s, run[0]), run[1..], next)
  }

  /** The eventfd holds their number, up to its largest value: a write beyond it is lost, but not the
      wakeup. */
  lemma {:induction false} EventfdCounts(s: State, run: seq<Action>, c: nat)
    requires CanRun(s, run) && s.eventfd == (if c < 0xffff_ffff_ffff_fffe then c else 0xffff_ffff_ffff_fffe)
    ensures var u := Unread(s, run, c);
      After(s, run).eventfd == (if u < 0xffff_ffff_ffff_fffe then u else 0xffff_ffff_ffff_fffe)
    decreases |run|
  {
    if run != [] {
      var a := run[0];
      var next := if Bumps(s, a) then c + 1 else if Clears(s, a) then 0 else c;
      assert Do(s, a).eventfd == (if next < 0xffff_ffff_ffff_fffe then next else 0xffff_ffff_ffff_fffe);
      hide Do, Enabled, Bumps, Clears;
      EventfdCounts(Do(s, a), run[1..], next);
    }
  }

  /** select returns exactly when some wakeup has not been read. */
  lemma SelectWaits(n: nat, run: seq<Action>)
    requires CanRun(Init(n), run) && After(Init(n), run).consumer.Selecting?
    ensures Enabled(After(Init(n), run), Consume) <==> Unread(Init(n), run, 0) > 0
  {
    EventfdCounts(Init(n), run, 0);
  }

  // ---- no trap: from every reachable state the program can still come to its end

  function PcRank(pc: ProducerPc): nat
  {
    match pc
    case Sleeping => 6
    case WantLock => 5
    case Locked => 4
    case Enqueued => 3
    case Unlocked => 2
    case Woken => 1
    case Exited => 0
  }

  function SumRank(ps: seq<Producer>): nat
  {
    if ps == [] then 0 else SumRank(ps[..|ps| - 1]) + PcRank(ps[|ps| - 1].pc)
  }

  lemma {:induction false} RankUpdate(ps: seq<Producer>, i: nat, p: Producer)
    requires i < |ps|
    ensures SumRank(ps[i := p]) == SumRank(ps) - PcRank(ps[i].pc) + PcRank(p.pc)
  {
    var last := |ps| - 1;
    if i == last {
      assert ps[i := p][..last] == ps[..last];
    } else {
      RankUpdate(ps[..last], i, p);
      assert ps[i := p][..last] == ps[..last][i := p];
    }
  }

  function Phase(s: State): nat
  {
    if InLoop(s.consumer) && !s.exit then 3
    else if InLoop(s.consumer) || s.consumer.Stopping? then 2
    else if s.consumer.Finished? then 0 else 1
  }

  /** Steps to the next enqueue, for an empty queue. */
  function ToEnqueue(s: State): nat
  {
    match s.mutex
    case HeldByConsumer => if s.consumer.Draining? then 22 else 21
    case HeldByProducer(i) => if i < |s.producers| && s.producers[i].pc.Enqueued? then 20 else 0
    case Nobody => if |s.producers| == 0 then 0 else
      match s.producers[0].pc
      case Unlocked => 4
      case Woken => 3
      case Sleeping => 2
      case _ => 1
  }

  /** Steps to the next dequeue, for a queue with messages in it. */
  function ToDequeue(s: State): nat
  {
    var held := match s.mutex
      case HeldByProducer(i) => if i < |s.producers| && s.producers[i].pc.Locked? then 20 else 10
      case _ => 0;
    var walk := match s.consumer
      case Checking => 5
      case Selecting => if s.eventfd == 0 then 4 else 3
      case Readable => 2
      case Cleared => 1
      case _ => 0;
    held + walk
  }

  function Major(s: State): nat
  {
    match Phase(s)
    case 3 => if s.cnt < CONSUMER_LIMIT then CONSUMER_LIMIT - s.cnt else 0
    case 2 => if s.consumer.Unlocking? then 3 else if s.consumer.Checking? then 2 else 1
    case 1 => SumRank(s.producers)
    case _ => 0
  }

  function Middle(s: State): nat
  {
    if Phase(s) == 3 && s.queue == [] then 1 else 0
  }

  function Minor(s: State): nat
  {
    match Phase(s)
    case 3 => if s.queue == [] then ToEnqueue(s) else ToDequeue(s)
    case 1 =>
      (match s.consumer
       case Joining(k) => (if k <= |s.producers| then |s.producers| - k else 0) + |s.queue| + 2
       case _ => |s.queue| + 1)
    case _ => 0
  }

  predicate Closer(t: State, s: State)
  {
    || Phase(t) < Phase(s)
    || (Phase(t) == Phase(s) && Major(t) < Major(s))
    || (Phase(t) == Phase(s) && Major(t) == Major(s) && Middle(t) < Middle(s))
    || (Phase(t) == Phase(s) && Major(t) == Major(s) && Middle(t) == Middle(s) && Minor(t) < Minor(s))
  }

  /** With an empty queue, someone can move towards the next enqueue. */
  lemma TowardsEnqueue(s: State) returns (a: Action)
    requires Inv(s) && |s.producers| > 0 && Phase(s) == 3 && s.queue == []
    ensures !a.SelectFails? && Enabled(s, a) && Closer(Do(s, a), s)
  {
    hide LogInv;
    match s.mutex
    case HeldByConsumer => a := Consume;
    case HeldByProducer(i) => a := Produce(i);
    case Nobody => a := Produce(0);
  }

  /** With messages queued, someone can move towards the next dequeue: this is where a lost
      wakeup would leave the consumer waiting for ever. */
  lemma TowardsDequeue(s: State) returns (a: Action)
    requires Inv(s) && Phase(s) == 3 && s.queue != []
    ensures !a.SelectFails? && Enabled(s, a) && Closer(Do(s, a), s)
  {
    hide LogInv;
    if s.mutex.HeldByProducer? {
      a := Produce(s.mutex.i);
    } else if s.consumer.Selecting? && s.eventfd == 0 {
      var i :| 0 <= i < |s.producers| && (s.producers[i].pc.Enqueued? || s.producers[i].pc.Unlocked?);
      a := Produce(i);
    } else {
      a := Consume;
    }
  }

  lemma TowardsExit(s: State) returns (a: Action)
    requires Inv(s) && (Phase(s) == 2 || Phase(s) == 1)
    ensures !a.SelectFails? && Enabled(s, a) && Closer(Do(s, a), s)
  {
    hide LogInv, SumRank, SumCnt;
    if Phase(s) == 2 {
      a := Consume;
    } else if s.mutex.HeldByProducer? {
      a := Produce(s.mutex.i);
      RankUpdate(s.producers, a.i, Do(s, a).producers[a.i]);
    } else if i :| 0 <= i < |s.producers| && !s.producers[i].pc.Exited? {
      a := Produce(i);
      RankUpdate(s.producers, i, Do(s, a).producers[i]);
    } else {
      a := Consume;
    }
  }

  /** Whatever has happened so far, the program can still end, without any failure of select. */
  lemma {:induction false} CanFinish(s: State) returns (run: seq<Action>)
    requires Inv(s) && |s.producers| > 0
    ensures CanRun(s, run) && After(s, run).consumer.Finished? && SelectFails !in run
    decreases Phase(s), Major(s), Middle(s), Minor(s)
  {
    if s.consumer.Finished? {
      return [];
    }
    var a;
    if Phase(s) == 3 {
      if s.queue == [] {
        a := TowardsEnqueue(s);
      } else {
        a := TowardsDequeue(s);
      }
    } else {
      a := TowardsExit(s);
    }
    StepInv(s, a);
    hide Inv, Enabled, Phase, Major, Middle, Minor;
    SameProducers(s, [a]);
    var rest := CanFinish(Do(s, a));
    run := [a] + rest;
  }

  lemma AlwaysCanFinish(n: nat, run: seq<Action>)
    requires n > 0 && CanRun(Init(n), run)
    ensures exists more ::
      CanRun(After(Init(n), run), more) && After(After(Init(n), run), more).consumer.Finished? && SelectFails !in more
  {
    InitInv(n);
    RunInv(Init(n), run);
    SameProducers(Init(n), run);
    var more := CanFinish(After(Init(n), run));
  }
}
