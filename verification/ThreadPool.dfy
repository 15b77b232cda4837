/** Shutting down `thread_pool`: the destructor posts one terminate message per worker, blocking while the queue is
    full, and the workers leave their loops one by one. */
module ThreadPool {
  import opened BlockingQueue

  datatype Msg = Log(id: nat) | Flush(id: nat) | Terminate

  /** The worker threads, the thread running the destructor, and what was queued when it started. */
  datatype Config = Config(workers: set<Tid>, destructor: Tid, q0: seq<Msg>, overruns0: nat)

  /** The queue, the terminate messages the destructor has yet to post, and what the workers have dequeued. */
  datatype Pool = Pool(qs: State<Msg>, remaining: nat, dequeued: seq<Msg>)

  datatype PoolStep =
    | Post                     // the destructor calls post_async_msg_(terminate, block)
    | Inner(step: Step<Msg>)   // a thread goes on with the queue operation it is in

  /** Steps that go on with an operation, as opposed to calling one. */
  predicate GoesOn(step: Step<Msg>) {
    !step.BeginEnqueue? && !step.BeginNowait? && !step.BeginDequeue?
  }

  predicate PoolEnabled(c: Config, p: Pool, s: PoolStep) {
    match s
    case Post => p.remaining > 0 && c.destructor in p.qs.pc && p.qs.pc[c.destructor].Out?
    case Inner(step) => GoesOn(step) && Enabled(p.qs, step)
  }

  /** `process_next_msg_` in the loop: a worker back from dequeue_for calls it again at once, unless the message it
      got was terminate. */
  function LoopOn(c: Config, before: Pc<Msg>, s: State<Msg>, t: Tid): State<Msg>
    requires t in s.pc
  {
    if t in c.workers && s.pc[t].Out? && before != PopNotify(Terminate) then Goto(s, t, DeqReady(false)) else s
  }

  function PoolApply(c: Config, p: Pool, s: PoolStep): Pool
    requires |p.qs.q| <= p.qs.cap && PoolEnabled(c, p, s)
  {
    match s
    case Post => p.(qs := Goto(p.qs, c.destructor, EnqReady(Terminate)), remaining := p.remaining - 1)
    case Inner(step) =>
      var popped := if step.Lock? && p.qs.pc[step.t].DeqReady? && p.qs.q != [] then [p.qs.q[0]] else [];
      p.(qs := LoopOn(c, p.qs.pc[step.t], Apply(p.qs, step), step.t), dequeued := p.dequeued + popped)
  }

  // ---- The invariant ----

  function Terms(q: seq<Msg>): nat {
    if q == [] then 0 else Terms(q[..|q| - 1]) + (if q[|q| - 1].Terminate? then 1 else 0)
  }

  function Terminates(n: nat): (q: seq<Msg>)
    ensures |q| == n && forall i :: 0 <= i < n ==> q[i] == Terminate
  {
    seq(n, i => Terminate)
  }

  /** A worker that is still in its loop: it has not received a terminate message. */
  predicate IsLive(pc: Pc<Msg>) { pc.DeqReady? || pc.DeqAsleep? || (pc.PopNotify? && pc.m != Terminate) }

  function Live(c: Config, p: Pool): set<Tid> {
    set t | t in c.workers && t in p.qs.pc && IsLive(p.qs.pc[t])
  }

  /** One while the destructor is inside a blocking post. */
  function InFlight(c: Config, p: Pool): nat {
    if c.destructor in p.qs.pc && (p.qs.pc[c.destructor].EnqReady? || p.qs.pc[c.destructor].EnqAsleep?) then 1 else 0
  }

  /** Every thread is where its role allows: no client posts any more. */
  predicate Roles(c: Config, pc: map<Tid, Pc<Msg>>) {
    && c.workers != {} && c.destructor !in c.workers && c.destructor in pc && c.workers <= pc.Keys
    && (forall t :: t in c.workers ==> IsLive(pc[t]) || pc[t].PopNotify? || pc[t].Out?)
    && (pc[c.destructor].Out? || pc[c.destructor].PushNotify? || pc[c.destructor] == EnqReady(Terminate)
        || pc[c.destructor] == EnqAsleep(Terminate))
    && (forall t :: t in pc && t !in c.workers && t != c.destructor ==> pc[t].Out? || pc[t].PushNotify?)
  }

  ghost predicate Inv(c: Config, p: Pool) {
    && Roles(c, p.qs.pc) && NoLostWakeup(p.qs) && p.qs.cap >= 1
    && Terms(c.q0) == 0 && p.qs.overruns == c.overruns0
    && p.remaining + InFlight(c, p) <= |c.workers|
    && p.dequeued + p.qs.q == c.q0 + Terminates(|c.workers| - p.remaining - InFlight(c, p))
    && |Live(c, p)| + Terms(p.dequeued) == |c.workers|
  }

  /** The destructor starts: the workers are all in their loops and no terminate message has been posted. */
  ghost predicate Starts(c: Config, p: Pool) {
    && Roles(c, p.qs.pc) && NoLostWakeup(p.qs) && p.qs.cap >= 1
    && (forall t :: t in c.workers ==> IsLive(p.qs.pc[t]))
    && p.qs.pc[c.destructor].Out?
    && p.qs.q == c.q0 && Terms(c.q0) == 0 && p.qs.overruns == c.overruns0
    && p.remaining == |c.workers| && p.dequeued == []
  }

  lemma StartsInv(c: Config, p: Pool)
    requires Starts(c, p)
    ensures Inv(c, p)
  {
    assert Live(c, p) == c.workers;
    assert Terminates(0) == [] && [] + p.qs.q == c.q0 + [];
  }

  // ---- Counting terminate messages ----

  lemma {:induction false} TermsAppend(a: seq<Msg>, b: seq<Msg>)
    ensures Terms(a + b) == Terms(a) + Terms(b)
  {
    if b == [] {
      assert a + b == a;
    } else {
      var n := |b| - 1;
      TermsAppend(a, b[..n]);
      assert (a + b)[..|a + b| - 1] == a + b[..n];
    }
  }

  lemma {:induction false} TermsOfTerminates(n: nat)
    ensures Terms(Terminates(n)) == n
  {
    if n == 0 {
    } else {
      TermsOfTerminates(n - 1);
      assert Terminates(n)[..n - 1] == Terminates(n - 1);
    }
  }

  lemma {:induction false} NoTermsMeansNone(q: seq<Msg>, i: nat)
    requires i < |q| && Terms(q) == 0
    ensures q[i] != Terminate
  {
    if i < |q| - 1 { NoTermsMeansNone(q[..|q| - 1], i); }
  }

  /** live workers == terminates still to post + terminates queued. */
  lemma LiveBalance(c: Config, p: Pool)
    requires Inv(c, p)
    ensures |Live(c, p)| == p.remaining + InFlight(c, p) + Terms(p.qs.q)
  {
    var posted := |c.workers| - p.remaining - InFlight(c, p);
    TermsAppend(p.dequeued, p.qs.q);
    TermsAppend(c.q0, Terminates(posted));
    TermsOfTerminates(posted);
  }

  // ---- Every step keeps the invariant ----

  /** What LoopOn adds is the call of dequeue_for, itself a step of the queue. */
  lemma LoopOnKeepsWakeups(c: Config, before: Pc<Msg>, s: State<Msg>, t: Tid)
    requires NoLostWakeup(s) && t in s.pc
    ensures NoLostWakeup(LoopOn(c, before, s, t))
  {
    if s.pc[t].Out? { StepKeepsWakeups(s, BeginDequeue(t)); }
  }

  lemma PostKeepsInv(c: Config, p: Pool)
    requires Inv(c, p) && PoolEnabled(c, p, Post)
    ensures Inv(c, PoolApply(c, p, Post))
  {
    var p' := PoolApply(c, p, Post);
    StepKeepsWakeups(p.qs, BeginEnqueue(c.destructor, Terminate));
    assert Live(c, p') == Live(c, p);
  }

  lemma LockKeepsInv(c: Config, p: Pool, t: Tid)
    requires Inv(c, p) && PoolEnabled(c, p, Inner(Lock(t)))
    ensures Inv(c, PoolApply(c, p, Inner(Lock(t))))
  {
    StepKeepsWakeups(p.qs, Lock(t));
    LoopOnKeepsWakeups(c, p.qs.pc[t], Apply(p.qs, Lock(t)), t);
    if t !in c.workers {
      assert t == c.destructor;
      DestructorLocks(c, p);
    } else if p.qs.q == [] {
      WorkerFindsNothing(c, p, t);
    } else {
      WorkerPops(c, p, t);
    }
  }

  lemma WorkerPops(c: Config, p: Pool, t: Tid)
    requires Inv(c, p) && PoolEnabled(c, p, Inner(Lock(t))) && t in c.workers && p.qs.q != []
    requires NoLostWakeup(PoolApply(c, p, Inner(Lock(t))).qs)
    ensures Inv(c, PoolApply(c, p, Inner(Lock(t))))
  {
    PopMoves(c, p, t);
    PopKeepsInv(c, p, PoolApply(c, p, Inner(Lock(t))), t, p.qs.q[0]);
  }

  lemma PopKeepsInv(c: Config, p: Pool, p': Pool, t: Tid, m: Msg)
    requires Inv(c, p) && NoLostWakeup(p'.qs) && Roles(c, p'.qs.pc) && InFlight(c, p') == InFlight(c, p)
    requires t in c.workers && t in p.qs.pc && p.qs.pc[t].DeqReady? && p.qs.q != [] && m == p.qs.q[0]
    requires p' == p.(qs := p.qs.(q := p.qs.q[1..], pc := p.qs.pc[t := PopNotify(m)]), dequeued := p.dequeued + [m])
    ensures Inv(c, p')
  {
    LiveAfterPop(c, p, p', t, m);
    TermsOfPopped(p.dequeued, p.qs.q);
  }

  lemma PopMoves(c: Config, p: Pool, t: Tid)
    requires Roles(c, p.qs.pc) && |p.qs.q| <= p.qs.cap
    requires PoolEnabled(c, p, Inner(Lock(t))) && t in c.workers && p.qs.q != []
    ensures var p' := PoolApply(c, p, Inner(Lock(t)));
            && p' == p.(qs := p.qs.(q := p.qs.q[1..], pc := p.qs.pc[t := PopNotify(p.qs.q[0])]),
                        dequeued := p.dequeued + [p.qs.q[0]])
            && Roles(c, p'.qs.pc) && InFlight(c, p') == InFlight(c, p)
  {}

  /** Moving the oldest message over keeps the sequence and counts it. */
  lemma TermsOfPopped(dequeued: seq<Msg>, q: seq<Msg>)
    requires q != []
    ensures dequeued + [q[0]] + q[1..] == dequeued + q
    ensures Terms(dequeued + [q[0]]) == Terms(dequeued) + (if q[0] == Terminate then 1 else 0)
  {
    assert (dequeued + [q[0]])[..|dequeued|] == dequeued;
  }

  lemma LiveAfterPop(c: Config, p: Pool, p': Pool, t: Tid, m: Msg)
    requires t in c.workers && t in p.qs.pc && p.qs.pc[t].DeqReady?
    requires p'.qs.pc == p.qs.pc[t := PopNotify(m)]
    ensures |Live(c, p')| == |Live(c, p)| - (if m == Terminate then 1 else 0)
  {
    assert t in Live(c, p);
    assert Live(c, p') == if m == Terminate then Live(c, p) - {t} else Live(c, p);
  }

  lemma WorkerFindsNothing(c: Config, p: Pool, t: Tid)
    requires Inv(c, p) && PoolEnabled(c, p, Inner(Lock(t))) && t in c.workers && p.qs.q == []
    requires NoLostWakeup(PoolApply(c, p, Inner(Lock(t))).qs)
    ensures Inv(c, PoolApply(c, p, Inner(Lock(t))))
  {
    EmptyLockMoves(c, p, t);
    MoveKeepsInv(c, p, PoolApply(c, p, Inner(Lock(t))));
  }

  lemma EmptyLockMoves(c: Config, p: Pool, t: Tid)
    requires Roles(c, p.qs.pc) && |p.qs.q| <= p.qs.cap
    requires PoolEnabled(c, p, Inner(Lock(t))) && t in c.workers && p.qs.q == []
    ensures var p' := PoolApply(c, p, Inner(Lock(t)));
            && p' == p.(qs := p.qs.(pc := p'.qs.pc)) && p'.qs.pc.Keys == p.qs.pc.Keys && Roles(c, p'.qs.pc)
            && (forall x :: x in c.workers ==> IsLive(p'.qs.pc[x]) == IsLive(p.qs.pc[x]))
            && InFlight(c, p') == InFlight(c, p)
  {
    assert p.dequeued + [] == p.dequeued;
  }

  lemma DestructorLocks(c: Config, p: Pool)
    requires Inv(c, p) && PoolEnabled(c, p, Inner(Lock(c.destructor)))
    requires NoLostWakeup(PoolApply(c, p, Inner(Lock(c.destructor))).qs)
    ensures Inv(c, PoolApply(c, p, Inner(Lock(c.destructor))))
  {
    var p' := PoolApply(c, p, Inner(Lock(c.destructor)));
    assert p'.qs.pc == p.qs.pc[c.destructor := p'.qs.pc[c.destructor]];
    assert p.dequeued + [] == p.dequeued;
    assert Live(c, p') == Live(c, p);
    if |p.qs.q| < p.qs.cap {
      var posted := |c.workers| - p.remaining - 1;
      assert p.dequeued + (p.qs.q + [Terminate]) == c.q0 + Terminates(posted) + [Terminate];
      assert Terminates(posted) + [Terminate] == Terminates(posted + 1);
      assert p'.dequeued + p'.qs.q == c.q0 + Terminates(posted + 1);
    }
  }

  /** The other steps only move threads, and a worker leaves its loop only after a terminate message. */
  lemma MoveKeepsInv(c: Config, p: Pool, p': Pool)
    requires Inv(c, p) && NoLostWakeup(p'.qs) && Roles(c, p'.qs.pc)
    requires p' == p.(qs := p.qs.(pc := p'.qs.pc)) && p'.qs.pc.Keys == p.qs.pc.Keys
    requires forall t :: t in c.workers ==> IsLive(p'.qs.pc[t]) == IsLive(p.qs.pc[t])
    requires InFlight(c, p') == InFlight(c, p)
    ensures Inv(c, p')
  {
    assert Live(c, p') == Live(c, p);
  }

  /** Where a thread goes once it has notified. */
  function AfterNotify(c: Config, before: Pc<Msg>, t: Tid): Pc<Msg> {
    if t in c.workers && before != PopNotify(Terminate) then DeqReady(false) else Out
  }

  lemma NotifyOneMoves(c: Config, p: Pool, t: Tid, w: Tid)
    requires |p.qs.q| <= p.qs.cap && PoolEnabled(c, p, Inner(NotifyOne(t, w)))
    ensures w != t && KindOf(p.qs.pc[w]) == WaiterFor(p.qs.pc[t])
    ensures PoolApply(c, p, Inner(NotifyOne(t, w)))
            == p.(qs := p.qs.(pc := p.qs.pc[t := AfterNotify(c, p.qs.pc[t], t)][w := Awake(p.qs.pc[w])]))
  {
    var p' := PoolApply(c, p, Inner(NotifyOne(t, w)));
    assert p.dequeued + [] == p.dequeued;
    assert p'.qs.pc == p.qs.pc[t := AfterNotify(c, p.qs.pc[t], t)][w := Awake(p.qs.pc[w])];
  }

  lemma NotifyOneKeepsRoles(c: Config, p: Pool, t: Tid, w: Tid)
    requires Inv(c, p) && PoolEnabled(c, p, Inner(NotifyOne(t, w)))
    ensures var p' := p.(qs := p.qs.(pc := p.qs.pc[t := AfterNotify(c, p.qs.pc[t], t)][w := Awake(p.qs.pc[w])]));
            && Roles(c, p'.qs.pc) && InFlight(c, p') == InFlight(c, p)
            && forall x :: x in c.workers ==> IsLive(p'.qs.pc[x]) == IsLive(p.qs.pc[x])
  {}

  lemma NotifyOneKeepsInv(c: Config, p: Pool, t: Tid, w: Tid)
    requires Inv(c, p) && PoolEnabled(c, p, Inner(NotifyOne(t, w)))
    ensures Inv(c, PoolApply(c, p, Inner(NotifyOne(t, w))))
  {
    StepKeepsWakeups(p.qs, NotifyOne(t, w));
    LoopOnKeepsWakeups(c, p.qs.pc[t], Apply(p.qs, NotifyOne(t, w)), t);
    NotifyOneMoves(c, p, t, w);
    NotifyOneKeepsRoles(c, p, t, w);
    MoveKeepsInv(c, p, PoolApply(c, p, Inner(NotifyOne(t, w))));
  }

  lemma WakeKeepsInv(c: Config, p: Pool, step: Step<Msg>)
    requires Inv(c, p) && PoolEnabled(c, p, Inner(step)) && !step.Lock? && !step.NotifyOne?
    ensures Inv(c, PoolApply(c, p, Inner(step)))
  {
    StepKeepsWakeups(p.qs, step);
    LoopOnKeepsWakeups(c, p.qs.pc[step.t], Apply(p.qs, step), step.t);
    WakeMoves(c, p, step);
    MoveKeepsInv(c, p, PoolApply(c, p, Inner(step)));
  }

  lemma WakeMoves(c: Config, p: Pool, step: Step<Msg>)
    requires Roles(c, p.qs.pc) && |p.qs.q| <= p.qs.cap
    requires PoolEnabled(c, p, Inner(step)) && !step.Lock? && !step.NotifyOne?
    ensures var p' := PoolApply(c, p, Inner(step));
            && p' == p.(qs := p.qs.(pc := p'.qs.pc)) && p'.qs.pc.Keys == p.qs.pc.Keys && Roles(c, p'.qs.pc)
            && (forall t :: t in c.workers ==> IsLive(p'.qs.pc[t]) == IsLive(p.qs.pc[t]))
            && InFlight(c, p') == InFlight(c, p)
  {
    assert p.dequeued + [] == p.dequeued;
  }

  lemma StepKeepsInv(c: Config, p: Pool, s: PoolStep)
    requires Inv(c, p) && PoolEnabled(c, p, s)
    ensures Inv(c, PoolApply(c, p, s))
  {
    match s
    case Post => PostKeepsInv(c, p);
    case Inner(step) =>
      match step {
        case Lock(t) => LockKeepsInv(c, p, t);
        case NotifyOne(t, w) => NotifyOneKeepsInv(c, p, t, w);
        case _ => WakeKeepsInv(c, p, step);
      }
  }

  // ---- What the shutdown guarantees ----

  /** Every message queued before the shutdown is dequeued before any terminate message, nothing is overrun, and the
      last worker leaves an empty queue behind. */
  lemma ShutdownIsGraceful(c: Config, p: Pool)
    requires Inv(c, p)
    ensures p.qs.overruns == c.overruns0
    ensures forall i :: 0 <= i < |p.dequeued| && p.dequeued[i] == Terminate ==>
      i >= |c.q0| && p.dequeued[..|c.q0|] == c.q0
    ensures Live(c, p) == {} ==>
      p.qs.q == [] && p.remaining == 0 && p.dequeued == c.q0 + Terminates(|c.workers|)
  {
    var whole := c.q0 + Terminates(|c.workers| - p.remaining - InFlight(c, p));
    forall i | 0 <= i < |p.dequeued| && p.dequeued[i] == Terminate
      ensures i >= |c.q0| && p.dequeued[..|c.q0|] == c.q0
    {
      assert p.dequeued[i] == whole[i];
      if i < |c.q0| { NoTermsMeansNone(c.q0, i); }
      assert p.dequeued[..|c.q0|] == whole[..|c.q0|];
    }
    if Live(c, p) == {} {
      LiveBalance(c, p);
      if p.qs.q != [] { LastIsTerminate(c, p); }
      assert p.dequeued + [] == p.dequeued;
    }
  }

  /** With everything posted, a queue that is not empty ends with a terminate message. */
  lemma LastIsTerminate(c: Config, p: Pool)
    requires Inv(c, p) && p.qs.q != [] && |c.workers| > p.remaining + InFlight(c, p)
    ensures Terms(p.qs.q) > 0
  {
    var n := |p.qs.q| - 1;
    assert p.qs.q[n] == (p.dequeued + p.qs.q)[|p.dequeued| + n] == Terminate;
  }

  // ---- The shutdown comes to its end ----

  /** The steps that depend neither on a timeout nor on a spurious wake-up. */
  predicate Progress(s: PoolStep) {
    s.Post? || s.step.Lock? || s.step.NotifyOne? || s.step.NotifyNone?
  }

  /** What is left to do: every progress step takes at least one off, every other step adds at most two. */
  function Measure(p: Pool): nat {
    8 * p.remaining + 4 * |p.qs.q|
    + 7 * Count(p.qs.pc, KEnqReady) + 6 * Count(p.qs.pc, KEnqAsleep) + 2 * Count(p.qs.pc, KPushNotify)
    + Count(p.qs.pc, KDeqReady) + 2 * Count(p.qs.pc, KDeqExpired) + 4 * Count(p.qs.pc, KPopNotify)
  }

  lemma MeasureAfterMove(p: Pool, p': Pool, t: Tid, to: Pc<Msg>)
    requires t in p.qs.pc && p'.qs.pc == p.qs.pc[t := to]
    ensures Measure(p') + 8 * p.remaining + 4 * |p.qs.q| + Weight(p.qs.pc[t])
            == Measure(p) + 8 * p'.remaining + 4 * |p'.qs.q| + Weight(to)
  {
    CountMoves(p.qs.pc, t, to);
  }

  /** The share of one thread in the measure. */
  function Weight(pc: Pc<Msg>): nat {
    match pc
    case EnqReady(_) => 7
    case EnqAsleep(_) => 6
    case PushNotify => 2
    case DeqReady(expired) => if expired then 2 else 1
    case PopNotify(_) => 4
    case _ => 0
  }

  lemma StepMeasure(c: Config, p: Pool, s: PoolStep)
    requires Inv(c, p) && PoolEnabled(c, p, s)
    ensures var p' := PoolApply(c, p, s);
            if Progress(s) then Measure(p') < Measure(p) else Measure(p') <= Measure(p) + 2
  {
    var p' := PoolApply(c, p, s);
    if s.Post? {
      MeasureAfterMove(p, p', c.destructor, EnqReady(Terminate));
    } else if s.step.NotifyOne? {
      NotifyOneMeasure(c, p, s.step.t, s.step.woken);
    } else {
      OneThreadMeasure(c, p, s.step);
    }
  }

  lemma OneThreadMeasure(c: Config, p: Pool, step: Step<Msg>)
    requires Inv(c, p) && PoolEnabled(c, p, Inner(step)) && !step.NotifyOne?
    ensures var p' := PoolApply(c, p, Inner(step));
            if Progress(Inner(step)) then Measure(p') < Measure(p) else Measure(p') <= Measure(p) + 2
  {
    var p', t := PoolApply(c, p, Inner(step)), step.t;
    OneThreadWeight(c, p, step);
    MeasureAfterMove(p, p', t, p'.qs.pc[t]);
  }

  /** A step moves its thread only; what that and a change of the queue take off the measure. */
  lemma OneThreadWeight(c: Config, p: Pool, step: Step<Msg>)
    requires Roles(c, p.qs.pc) && |p.qs.q| <= p.qs.cap && PoolEnabled(c, p, Inner(step)) && !step.NotifyOne?
    ensures var p', t := PoolApply(c, p, Inner(step)), step.t;
            && t in p'.qs.pc && p'.qs.pc == p.qs.pc[t := p'.qs.pc[t]] && p'.remaining == p.remaining
            && var change := 4 * |p'.qs.q| + Weight(p'.qs.pc[t]) - 4 * |p.qs.q| - Weight(p.qs.pc[t]);
               if Progress(Inner(step)) then change < 0 else change <= 2
  {
    var p', t := PoolApply(c, p, Inner(step)), step.t;
    assert p'.qs.pc == p.qs.pc[t := p'.qs.pc[t]];
  }

  lemma NotifyOneMeasure(c: Config, p: Pool, t: Tid, w: Tid)
    requires Inv(c, p) && PoolEnabled(c, p, Inner(NotifyOne(t, w)))
    ensures Measure(PoolApply(c, p, Inner(NotifyOne(t, w)))) < Measure(p)
  {
    NotifyOneMoves(c, p, t, w);
    MeasureAfterTwoMoves(p, t, AfterNotify(c, p.qs.pc[t], t), w, Awake(p.qs.pc[w]));
  }

  lemma MeasureAfterTwoMoves(p: Pool, t: Tid, to: Pc<Msg>, w: Tid, awake: Pc<Msg>)
    requires t in p.qs.pc && w in p.qs.pc && t != w
    requires Weight(to) + Weight(awake) < Weight(p.qs.pc[t]) + Weight(p.qs.pc[w])
    ensures Measure(p.(qs := p.qs.(pc := p.qs.pc[t := to][w := awake]))) < Measure(p)
  {
    var middle := p.(qs := p.qs.(pc := p.qs.pc[t := to]));
    MeasureAfterMove(p, middle, t, to);
    MeasureAfterMove(middle, p.(qs := p.qs.(pc := p.qs.pc[t := to][w := awake])), w, awake);
    assert middle.qs.pc[w] == p.qs.pc[w];
  }

  /** No progress step is possible. */
  ghost predicate Stuck(c: Config, p: Pool) {
    forall s :: PoolEnabled(c, p, s) ==> !Progress(s)
  }

  /** Every thread that is awake or about to notify has a progress step. */
  lemma BusyThreadHasStep(c: Config, p: Pool, t: Tid)
    requires t in p.qs.pc && Stuck(c, p)
    ensures p.qs.pc[t].Out? || p.qs.pc[t].EnqAsleep? || p.qs.pc[t].DeqAsleep?
  {
    var pc := p.qs.pc[t];
    if pc.EnqReady? || pc.NowaitReady? || pc.DeqReady? {
      assert PoolEnabled(c, p, Inner(Lock(t)));
    }
    if pc.PushNotify? || pc.PopNotify? {
      var waiting := Threads(p.qs.pc, WaiterFor(pc));
      if waiting == {} {
        assert PoolEnabled(c, p, Inner(NotifyNone(t)));
      } else {
        var w :| w in waiting;
        assert PoolEnabled(c, p, Inner(NotifyOne(t, w)));
      }
    }
  }

  lemma StuckCounts(c: Config, p: Pool)
    requires Stuck(c, p)
    ensures Count(p.qs.pc, KEnqReady) == Count(p.qs.pc, KPopNotify) == Count(p.qs.pc, KPushNotify) == 0
    ensures Count(p.qs.pc, KDeqReady) == Count(p.qs.pc, KDeqExpired) == 0
  {
    forall t | t in p.qs.pc
      ensures p.qs.pc[t].Out? || p.qs.pc[t].EnqAsleep? || p.qs.pc[t].DeqAsleep?
    {
      BusyThreadHasStep(c, p, t);
    }
    assert Threads(p.qs.pc, KEnqReady) == {} && Threads(p.qs.pc, KPopNotify) == {};
    assert Threads(p.qs.pc, KPushNotify) == {};
    assert Threads(p.qs.pc, KDeqReady) == {} && Threads(p.qs.pc, KDeqExpired) == {};
  }

  lemma SleeperCounts(pc: map<Tid, Pc<Msg>>, t: Tid)
    requires t in pc
    ensures Count(pc, KindOf(pc[t])) > 0
  {
    assert t in Threads(pc, KindOf(pc[t]));
  }

  lemma StuckHasNobodyLive(c: Config, p: Pool)
    requires Inv(c, p) && Stuck(c, p)
    ensures Live(c, p) == {}
  {
    StuckCounts(c, p);
    StuckCannotPost(c, p);
    LiveBalance(c, p);
    BusyThreadHasStep(c, p, c.destructor);
    if w :| w in Live(c, p) {
      BusyThreadHasStep(c, p, w);
      SleeperCounts(p.qs.pc, w);
      assert p.qs.q == [];
      if InFlight(c, p) == 1 {
        SleeperCounts(p.qs.pc, c.destructor);
      }
    }
  }

  lemma StuckCannotPost(c: Config, p: Pool)
    requires Stuck(c, p) && c.destructor in p.qs.pc
    ensures p.remaining == 0 || !p.qs.pc[c.destructor].Out?
  {
    assert PoolEnabled(c, p, Post) ==> !Progress(Post);
  }

  /** The shutdown cannot get stuck before its end: there, every worker has left its loop, the destructor has
      posted everything, and the queue is empty. */
  lemma StuckMeansDone(c: Config, p: Pool)
    requires Inv(c, p) && Stuck(c, p)
    ensures forall t :: t in c.workers ==> p.qs.pc[t].Out?
    ensures p.qs.pc[c.destructor].Out? && p.remaining == 0 && p.qs.q == []
    ensures p.dequeued == c.q0 + Terminates(|c.workers|)
  {
    StuckHasNobodyLive(c, p);
    BusyThreadHasStep(c, p, c.destructor);
    ShutdownIsGraceful(c, p);
    forall t | t in c.workers
      ensures p.qs.pc[t].Out?
    {
      BusyThreadHasStep(c, p, t);
      assert t !in Live(c, p);
    }
  }

  // ---- Whole runs ----

  ghost predicate IsPoolRun(c: Config, p: Pool, steps: seq<PoolStep>)
    requires Inv(c, p)
    decreases |steps|
  {
    steps == [] ||
    (PoolEnabled(c, p, steps[0]) && (StepKeepsInv(c, p, steps[0]); IsPoolRun(c, PoolApply(c, p, steps[0]), steps[1..])))
  }

  ghost function PoolRun(c: Config, p: Pool, steps: seq<PoolStep>): (r: Pool)
    requires Inv(c, p) && IsPoolRun(c, p, steps)
    ensures Inv(c, r)
    decreases |steps|
  {
    if steps == [] then p else
      StepKeepsInv(c, p, steps[0]);
      PoolRun(c, PoolApply(c, p, steps[0]), steps[1..])
  }

  function ProgressSteps(steps: seq<PoolStep>): nat {
    if steps == [] then 0 else (if Progress(steps[0]) then 1 else 0) + ProgressSteps(steps[1..])
  }

  /** Timeouts and spurious wake-ups apart, a run is no longer than the measure at its start. */
  lemma {:induction false} RunIsBounded(c: Config, p: Pool, steps: seq<PoolStep>)
    requires Inv(c, p) && IsPoolRun(c, p, steps)
    ensures ProgressSteps(steps) + Measure(PoolRun(c, p, steps)) <= Measure(p) + 2 * (|steps| - ProgressSteps(steps))
    decreases |steps|
  {
    if steps == [] {
    } else {
      StepKeepsInv(c, p, steps[0]);
      StepMeasure(c, p, steps[0]);
      RunIsBounded(c, PoolApply(c, p, steps[0]), steps[1..]);
    }
  }

  /** Every run from the start of the shutdown: bounded, live workers always balance the terminate messages on their
      way, and where no progress is left the workers are gone, the queue is empty and every earlier message was
      dequeued, in order, before the terminate messages. */
  lemma ShutdownOverRuns(c: Config, p: Pool, steps: seq<PoolStep>)
    requires Starts(c, p)
    ensures Inv(c, p)
    ensures IsPoolRun(c, p, steps) ==>
      var r := PoolRun(c, p, steps);
      && |Live(c, r)| == r.remaining + InFlight(c, r) + Terms(r.qs.q)
      && r.qs.overruns == c.overruns0
      && ProgressSteps(steps) <= Measure(p) + 2 * (|steps| - ProgressSteps(steps))
      && (Stuck(c, r) ==> r.qs.q == [] && r.dequeued == c.q0 + Terminates(|c.workers|)
                          && forall t :: t in c.workers ==> r.qs.pc[t].Out?)
  {
    StartsInv(c, p);
    if IsPoolRun(c, p, steps) {
      var r := PoolRun(c, p, steps);
      LiveBalance(c, r);
      RunIsBounded(c, p, steps);
      if Stuck(c, r) { StuckMeansDone(c, r); }
    }
  }
}
