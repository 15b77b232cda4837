/** `mpmc_blocking_queue` as interleaved atomic steps of any number of threads: each lock region is one step, and a
    thread that has left it but not yet notified is in between. */
module BlockingQueue {
  import opened BoundedFifo
  import opened Sequences

  type Tid = nat

  /** Where a thread is. */
  datatype Pc<M> =
    | Out                      // in none of the queue's operations
    | EnqReady(m: M)           // in enqueue, about to take the lock: first time, or woken
    | EnqAsleep(m: M)          // in enqueue, waiting on pop_cv_
    | NowaitReady(m: M)        // in enqueue_nowait, about to take the lock
    | PushNotify               // item pushed, lock released, push_cv_ not yet notified
    | DeqReady(expired: bool)  // in dequeue_for, about to take the lock; expired: its wait timed out
    | DeqAsleep                // in dequeue_for, waiting on push_cv_
    | PopNotify(m: M)          // item popped, lock released, pop_cv_ not yet notified

  datatype Kind =
    KOut | KEnqReady | KEnqAsleep | KNowaitReady | KPushNotify | KDeqReady | KDeqExpired | KDeqAsleep | KPopNotify

  function KindOf<M>(pc: Pc<M>): Kind {
    match pc
    case Out => KOut
    case EnqReady(_) => KEnqReady
    case EnqAsleep(_) => KEnqAsleep
    case NowaitReady(_) => KNowaitReady
    case PushNotify => KPushNotify
    case DeqReady(expired) => if expired then KDeqExpired else KDeqReady
    case DeqAsleep => KDeqAsleep
    case PopNotify(_) => KPopNotify
  }

  datatype State<M> = State(cap: nat, q: seq<M>, overruns: nat, pc: map<Tid, Pc<M>>)

  datatype Step<M> =
    | BeginEnqueue(t: Tid, m: M)
    | BeginNowait(t: Tid, m: M)
    | BeginDequeue(t: Tid)
    | Lock(t: Tid)                    // the whole region under queue_mutex_
    | NotifyOne(t: Tid, woken: Tid)   // notify_one with a waiter to wake
    | NotifyNone(t: Tid)              // notify_one with nobody waiting
    | SpuriousWake(t: Tid)
    | Timeout(t: Tid)

  /** The kind of waiter that a notifying thread wakes. */
  function WaiterFor<M>(pc: Pc<M>): Kind
    requires pc.PushNotify? || pc.PopNotify?
  {
    if pc.PushNotify? then KDeqAsleep else KEnqAsleep
  }

  function Threads<M>(pc: map<Tid, Pc<M>>, k: Kind): set<Tid> {
    set t | t in pc && KindOf(pc[t]) == k
  }

  function Count<M>(pc: map<Tid, Pc<M>>, k: Kind): nat { |Threads(pc, k)| }

  predicate Enabled<M>(s: State<M>, step: Step<M>) {
    && step.t in s.pc
    && match step
       case BeginEnqueue(t, _) => s.pc[t].Out?
       case BeginNowait(t, _) => s.pc[t].Out?
       case BeginDequeue(t) => s.pc[t].Out?
       case Lock(t) => s.pc[t].EnqReady? || s.pc[t].NowaitReady? || s.pc[t].DeqReady?
       case NotifyOne(t, w) =>
         (s.pc[t].PushNotify? || s.pc[t].PopNotify?) && w in s.pc && KindOf(s.pc[w]) == WaiterFor(s.pc[t])
       case NotifyNone(t) =>
         (s.pc[t].PushNotify? || s.pc[t].PopNotify?) && Threads(s.pc, WaiterFor(s.pc[t])) == {}
       case SpuriousWake(t) => s.pc[t].EnqAsleep? || s.pc[t].DeqAsleep?
       case Timeout(t) => s.pc[t].DeqAsleep?
  }

  /** Back from waiting, to compete for the lock and test the predicate again. */
  function Awake<M>(pc: Pc<M>): Pc<M>
    requires pc.EnqAsleep? || pc.DeqAsleep?
  {
    if pc.EnqAsleep? then EnqReady(pc.m) else DeqReady(false)
  }

  function Goto<M>(s: State<M>, t: Tid, pc: Pc<M>): State<M> { s.(pc := s.pc[t := pc]) }

  /** The region under the mutex, for a thread at pc: the queue it leaves, how many items were overrun, and where
      the thread goes. */
  function Region<M>(cap: nat, q: seq<M>, pc: Pc<M>): (r: (seq<M>, nat, Pc<M>))
    requires |q| <= cap && (pc.EnqReady? || pc.NowaitReady? || pc.DeqReady?)
    ensures |r.0| <= cap
  {
    match pc
    case EnqReady(m) =>
      if |q| == cap then (q, 0, EnqAsleep(m)) else (q + [m], 0, PushNotify)
    case NowaitReady(m) =>
      (Push(q, cap, m), if |q| < cap then 0 else 1, PushNotify)
    case DeqReady(expired) =>
      if q != [] then (q[1..], 0, PopNotify(q[0])) else (q, 0, if expired then Out else DeqAsleep)
  }

  function LockRegion<M>(s: State<M>, t: Tid): State<M>
    requires Enabled(s, Lock(t)) && |s.q| <= s.cap
  {
    var (q, lost, pc) := Region(s.cap, s.q, s.pc[t]);
    Goto(s.(q := q, overruns := s.overruns + lost), t, pc)
  }

  function Apply<M>(s: State<M>, step: Step<M>): State<M>
    requires Enabled(s, step) && |s.q| <= s.cap
  {
    match step
    case BeginEnqueue(t, m) => Goto(s, t, EnqReady(m))
    case BeginNowait(t, m) => Goto(s, t, NowaitReady(m))
    case BeginDequeue(t) => Goto(s, t, DeqReady(false))
    case Lock(t) => LockRegion(s, t)
    case NotifyOne(t, w) => Goto(Goto(s, t, Out), w, Awake(s.pc[w]))
    case NotifyNone(t) => Goto(s, t, Out)
    case SpuriousWake(t) => Goto(s, t, Awake(s.pc[t]))
    case Timeout(t) => Goto(s, t, DeqReady(true))
  }

  // ---- No lost wake-up ----

  /** While a producer sleeps, the free slots are covered by producers that are awake and by notifies on their way;
      while a consumer sleeps, so are the stored items. */
  predicate NoLostWakeup<M>(s: State<M>) {
    && |s.q| <= s.cap
    && (Count(s.pc, KEnqAsleep) > 0 ==> s.cap - |s.q| <= Count(s.pc, KEnqReady) + Count(s.pc, KPopNotify))
    && (Count(s.pc, KDeqAsleep) > 0 ==>
          |s.q| <= Count(s.pc, KDeqReady) + Count(s.pc, KDeqExpired) + Count(s.pc, KPushNotify))
  }

  /** Moving one thread changes the counts of the kind it leaves and of the kind it enters. */
  lemma CountMove<M>(pc: map<Tid, Pc<M>>, t: Tid, to: Pc<M>, k: Kind)
    requires t in pc
    ensures Count(pc[t := to], k)
            == Count(pc, k) - (if KindOf(pc[t]) == k then 1 else 0) + (if KindOf(to) == k then 1 else 0)
    ensures KindOf(pc[t]) == k ==> Count(pc, k) > 0
  {
    var before, after := Threads(pc, k), Threads(pc[t := to], k);
    var others := before - {t};
    MembersApart(pc, t, pc[t], k);
    MembersApart(pc, t, to, k);
    assert pc[t := pc[t]] == pc;
  }

  /** The members of a kind, apart from a thread that is at p. */
  lemma MembersApart<M>(pc: map<Tid, Pc<M>>, t: Tid, p: Pc<M>, k: Kind)
    requires t in pc
    ensures Threads(pc[t := p], k) == Threads(pc, k) - {t} + (if KindOf(p) == k then {t} else {})
  {}

  lemma CountMoves<M>(pc: map<Tid, Pc<M>>, t: Tid, to: Pc<M>)
    requires t in pc
    ensures forall k ::
      Count(pc[t := to], k)
      == Count(pc, k) - (if KindOf(pc[t]) == k then 1 else 0) + (if KindOf(to) == k then 1 else 0)
    ensures Count(pc, KindOf(pc[t])) > 0
  {
    CountMove(pc, t, to, KindOf(pc[t]));
    forall k
      ensures Count(pc[t := to], k)
              == Count(pc, k) - (if KindOf(pc[t]) == k then 1 else 0) + (if KindOf(to) == k then 1 else 0)
    {
      CountMove(pc, t, to, k);
    }
  }

  lemma EmptyCount<M>(pc: map<Tid, Pc<M>>, k: Kind)
    requires Threads(pc, k) == {}
    ensures Count(pc, k) == 0
  {}

  lemma NotifyKeepsWakeups<M>(s: State<M>, step: Step<M>)
    requires NoLostWakeup(s) && Enabled(s, step) && (step.NotifyOne? || step.NotifyNone?)
    ensures NoLostWakeup(Apply(s, step))
  {
    var t := step.t;
    CountMoves(s.pc, t, Out);
    if step.NotifyOne? {
      assert s.pc[t := Out][step.woken] == s.pc[step.woken];
      CountMoves(s.pc[t := Out], step.woken, Awake(s.pc[step.woken]));
    } else {
      EmptyCount(s.pc, WaiterFor(s.pc[t]));
    }
  }

  lemma LockKeepsWakeups<M>(s: State<M>, t: Tid)
    requires NoLostWakeup(s) && Enabled(s, Lock(t))
    ensures NoLostWakeup(Apply(s, Lock(t)))
  {
    CountMoves(s.pc, t, Region(s.cap, s.q, s.pc[t]).2);
  }

  /** Every step of every thread keeps the invariant. */
  lemma StepKeepsWakeups<M>(s: State<M>, step: Step<M>)
    requires NoLostWakeup(s) && Enabled(s, step)
    ensures NoLostWakeup(Apply(s, step))
  {
    match step
    case NotifyOne(_, _) => NotifyKeepsWakeups(s, step);
    case NotifyNone(_) => NotifyKeepsWakeups(s, step);
    case Lock(t) => LockKeepsWakeups(s, t);
    case SpuriousWake(t) => WakeKeepsWakeups(s, step);
    case Timeout(t) => WakeKeepsWakeups(s, step);
    case _ => BeginKeepsWakeups(s, step);
  }

  lemma BeginKeepsWakeups<M>(s: State<M>, step: Step<M>)
    requires NoLostWakeup(s) && Enabled(s, step) && (step.BeginEnqueue? || step.BeginNowait? || step.BeginDequeue?)
    ensures NoLostWakeup(Apply(s, step))
  {
    CountMoves(s.pc, step.t, Apply(s, step).pc[step.t]);
  }

  lemma WakeKeepsWakeups<M>(s: State<M>, step: Step<M>)
    requires NoLostWakeup(s) && Enabled(s, step) && (step.SpuriousWake? || step.Timeout?)
    ensures NoLostWakeup(Apply(s, step))
  {
    CountMoves(s.pc, step.t, Apply(s, step).pc[step.t]);
  }

  predicate IsRun<M>(s: State<M>, steps: seq<Step<M>>)
    requires NoLostWakeup(s)
    decreases |steps|
  {
    steps == [] || (Enabled(s, steps[0]) && (StepKeepsWakeups(s, steps[0]); IsRun(Apply(s, steps[0]), steps[1..])))
  }

  function Run<M>(s: State<M>, steps: seq<Step<M>>): (r: State<M>)
    requires NoLostWakeup(s) && IsRun(s, steps)
    ensures NoLostWakeup(r)
    decreases |steps|
  {
    if steps == [] then s else
      StepKeepsWakeups(s, steps[0]);
      Run(Apply(s, steps[0]), steps[1..])
  }

  /** A queue on which nobody has called anything yet. */
  predicate Initial<M>(s: State<M>) {
    s.q == [] && forall t :: t in s.pc ==> s.pc[t].Out?
  }

  // ---- What the operations do ----

  /** A consumer at the lock takes the front item if there is one. On an empty queue it leaves with nothing exactly
      when its wait has expired, and waits otherwise; it never goes back to waiting once expired. */
  lemma ConsumerAtLock<M>(s: State<M>, t: Tid)
    requires |s.q| <= s.cap && Enabled(s, Lock(t)) && s.pc[t].DeqReady?
    ensures var r := Apply(s, Lock(t));
            && r.overruns == s.overruns && r.pc.Keys == s.pc.Keys
            && (forall u :: u in s.pc && u != t ==> r.pc[u] == s.pc[u])
            && (s.q != [] ==> r.pc[t].PopNotify? && [r.pc[t].m] + r.q == s.q)
            && (s.q == [] ==> r.q == [] && (r.pc[t].Out? || r.pc[t].DeqAsleep?))
            && (r.pc[t].Out? <==> s.q == [] && s.pc[t].expired)
  {
    if s.q != [] { assert [s.q[0]] + s.q[1..] == s.q; }
  }

  /** A producer at the lock waits exactly when it blocks and the queue is full; otherwise its item becomes the last.
      Only one that does not block drops an item, the oldest, and only when the queue is full. */
  lemma ProducerAtLock<M>(s: State<M>, t: Tid)
    requires |s.q| <= s.cap && s.cap > 0 && Enabled(s, Lock(t)) && !s.pc[t].DeqReady?
    ensures var r := Apply(s, Lock(t));
            var full := |s.q| == s.cap;
            && r.pc.Keys == s.pc.Keys && (forall u :: u in s.pc && u != t ==> r.pc[u] == s.pc[u])
            && (if s.pc[t].EnqReady? && full then r.pc[t] == EnqAsleep(s.pc[t].m) && r.q == s.q
                else r.pc[t] == PushNotify && r.q == (if full then s.q[1..] else s.q) + [s.pc[t].m])
            && r.overruns == s.overruns + (if s.pc[t].NowaitReady? && full then 1 else 0)
  {}

  /** Nobody is stuck in the middle: whoever is in an operation has a step, a sleeping consumer its timeout too. */
  lemma EveryThreadCanMove<M>(s: State<M>, t: Tid)
    requires t in s.pc && !s.pc[t].Out?
    ensures exists step: Step<M> :: step.t == t && Enabled(s, step) && !step.BeginEnqueue? && !step.BeginNowait?
                           && !step.BeginDequeue?
    ensures s.pc[t].DeqAsleep? ==> Enabled(s, Timeout(t))
  {
    if s.pc[t].EnqAsleep? || s.pc[t].DeqAsleep? {
      assert Enabled(s, SpuriousWake(t));
    } else if s.pc[t].PushNotify? || s.pc[t].PopNotify? {
      NotifierCanMove(s, t);
    } else {
      assert Enabled(s, Lock(t));
    }
  }

  lemma NotifierCanMove<M>(s: State<M>, t: Tid)
    requires t in s.pc && (s.pc[t].PushNotify? || s.pc[t].PopNotify?)
    ensures exists step: Step<M> :: step.t == t && Enabled(s, step) && (step.NotifyOne? || step.NotifyNone?)
  {
    var waiting := Threads(s.pc, WaiterFor(s.pc[t]));
    if waiting == {} {
      assert Enabled(s, NotifyNone(t));
    } else {
      var w :| w in waiting;
      assert Enabled(s, NotifyOne(t, w));
    }
  }

  ghost predicate IsStep<M>(s: State<M>, step: Step<M>, r: State<M>) {
    |s.q| <= s.cap && Enabled(s, step) && r == Apply(s, step)
  }

  /** The states that a run goes through. */
  ghost predicate IsTrace<M>(states: seq<State<M>>, steps: seq<Step<M>>) {
    |states| == |steps| + 1 && forall k :: 0 <= k < |steps| ==> IsStep(states[k], steps[k], states[k + 1])
  }

  lemma {:induction false} RunHasTrace<M>(s: State<M>, steps: seq<Step<M>>) returns (states: seq<State<M>>)
    requires NoLostWakeup(s) && IsRun(s, steps)
    ensures IsTrace(states, steps) && states[0] == s && states[|steps|] == Run(s, steps)
    decreases |steps|
  {
    if steps == [] {
      states := [s];
    } else {
      StepKeepsWakeups(s, steps[0]);
      var later := RunHasTrace(Apply(s, steps[0]), steps[1..]);
      states := [s] + later;
      forall k | 0 <= k < |steps|
        ensures IsStep(states[k], steps[k], states[k + 1])
      {
        if k > 0 { assert IsStep(later[k - 1], steps[1..][k - 1], later[k]); }
      }
    }
  }

  /** The thread's wait has timed out in step j, and it has not moved between that step and step k. */
  ghost predicate TimedOutAt<M>(steps: seq<Step<M>>, j: nat, k: nat, t: Tid) {
    j < k <= |steps| && steps[j] == Timeout(t) && forall i :: j < i < k ==> steps[i].t != t
  }

  lemma {:induction false} ExpiredHasTimedOut<M>(states: seq<State<M>>, steps: seq<Step<M>>, k: nat, t: Tid)
    returns (j: nat)
    requires IsTrace(states, steps) && Initial(states[0]) && k <= |steps|
    requires t in states[k].pc && states[k].pc[t] == DeqReady(true)
    ensures TimedOutAt(steps, j, k, t)
  {
    assert k > 0 && IsStep(states[k - 1], steps[k - 1], states[k]);
    if steps[k - 1] == Timeout(t) {
      j := k - 1;
    } else {
      OnlyTimeoutExpires(states[k - 1], steps[k - 1], t);
      j := ExpiredHasTimedOut(states, steps, k - 1, t);
    }
  }

  lemma OnlyTimeoutExpires<M>(s: State<M>, step: Step<M>, t: Tid)
    requires |s.q| <= s.cap && Enabled(s, step) && step != Timeout(t)
    requires t in Apply(s, step).pc && Apply(s, step).pc[t] == DeqReady(true)
    ensures t in s.pc && s.pc[t] == DeqReady(true) && step.t != t
  {}

  /** In every run from the start, a call of dequeue_for that returns false does so on an empty queue, and because its
      own wait has timed out. */
  lemma EmptyHandedMeansTimeout<M>(states: seq<State<M>>, steps: seq<Step<M>>, k: nat, t: Tid) returns (j: nat)
    requires IsTrace(states, steps) && Initial(states[0]) && k < |steps| && steps[k] == Lock(t)
    requires t in states[k].pc && states[k].pc[t].DeqReady? && t in states[k + 1].pc && states[k + 1].pc[t].Out?
    ensures states[k].q == [] && states[k + 1].q == [] && TimedOutAt(steps, j, k, t)
  {
    assert IsStep(states[k], steps[k], states[k + 1]);
    ConsumerAtLock(states[k], t);
    j := ExpiredHasTimedOut(states, steps, k, t);
  }

  /** Having timed out, a consumer does nothing but take the lock, and then its wait is over: it has the front item, or
      leaves with nothing when there is none. */
  lemma TimeoutEndsWait<M>(states: seq<State<M>>, steps: seq<Step<M>>, j: nat, k: nat, t: Tid)
    requires IsTrace(states, steps) && k < |steps| && TimedOutAt(steps, j, k, t) && steps[k].t == t
    ensures steps[k] == Lock(t) && t in states[k + 1].pc
    ensures var before, after := states[k], states[k + 1];
            if before.q == [] then after.pc[t].Out? && after.q == []
            else after.pc[t].PopNotify? && [after.pc[t].m] + after.q == before.q
  {
    assert IsStep(states[j], steps[j], states[j + 1]);
    StaysExpired(states, steps, j + 1, k, t);
    assert IsStep(states[k], steps[k], states[k + 1]);
    ConsumerAtLock(states[k], t);
  }

  lemma {:induction false} StaysExpired<M>(states: seq<State<M>>, steps: seq<Step<M>>, j: nat, k: nat, t: Tid)
    requires IsTrace(states, steps) && j <= k <= |steps|
    requires t in states[j].pc && states[j].pc[t] == DeqReady(true)
    requires forall i :: j <= i < k ==> steps[i].t != t
    ensures t in states[k].pc && states[k].pc[t] == DeqReady(true)
  {
    if k == j {
    } else {
      StaysExpired(states, steps, j, k - 1, t);
      assert IsStep(states[k - 1], steps[k - 1], states[k]);
    }
  }

  // ---- What goes in comes out ----

  /** The item that a step has put into the queue, and the one it has handed to its thread. */
  function Entering<M>(s: State<M>, step: Step<M>): seq<M>
    requires |s.q| <= s.cap && Enabled(s, step)
  {
    if step.Lock? && Apply(s, step).pc[step.t].PushNotify? && !s.pc[step.t].DeqReady? then [s.pc[step.t].m] else []
  }

  function Leaving<M>(s: State<M>, step: Step<M>): seq<M>
    requires |s.q| <= s.cap && Enabled(s, step)
  {
    if step.Lock? && Apply(s, step).pc[step.t].PopNotify? then [Apply(s, step).pc[step.t].m] else []
  }

  function Entered<M>(s: State<M>, steps: seq<Step<M>>): seq<M>
    requires NoLostWakeup(s) && IsRun(s, steps)
    decreases |steps|
  {
    if steps == [] then [] else
      StepKeepsWakeups(s, steps[0]);
      Entering(s, steps[0]) + Entered(Apply(s, steps[0]), steps[1..])
  }

  function Left<M>(s: State<M>, steps: seq<Step<M>>): seq<M>
    requires NoLostWakeup(s) && IsRun(s, steps)
    decreases |steps|
  {
    if steps == [] then [] else
      StepKeepsWakeups(s, steps[0]);
      Leaving(s, steps[0]) + Left(Apply(s, steps[0]), steps[1..])
  }

  lemma StepDelivers<M>(s: State<M>, step: Step<M>)
    requires NoLostWakeup(s) && Enabled(s, step) && s.cap > 0
    ensures var r, whole := Apply(s, step), s.q + Entering(s, step);
            && r.cap == s.cap && s.overruns <= r.overruns
            && |whole| == |Leaving(s, step)| + (r.overruns - s.overruns) + |r.q| && IsSuffix(r.q, whole)
            && (r.overruns == s.overruns ==> whole == Leaving(s, step) + r.q)
  {
    if step.Lock? {
      if s.pc[step.t].DeqReady? { ConsumerDelivers(s, step.t); } else { ProducerDelivers(s, step.t); }
    }
  }

  lemma ConsumerDelivers<M>(s: State<M>, t: Tid)
    requires |s.q| <= s.cap && Enabled(s, Lock(t)) && s.pc[t].DeqReady?
    ensures var r := Apply(s, Lock(t));
            r.overruns == s.overruns && Entering(s, Lock(t)) == [] && s.q == Leaving(s, Lock(t)) + r.q
  {
    ConsumerAtLock(s, t);
  }

  lemma ProducerDelivers<M>(s: State<M>, t: Tid)
    requires |s.q| <= s.cap && s.cap > 0 && Enabled(s, Lock(t)) && !s.pc[t].DeqReady?
    ensures var r, whole := Apply(s, Lock(t)), s.q + Entering(s, Lock(t));
            && Leaving(s, Lock(t)) == [] && IsSuffix(r.q, whole) && s.overruns <= r.overruns
            && |whole| == r.overruns - s.overruns + |r.q| && (r.overruns == s.overruns ==> whole == r.q)
  {
    ProducerAtLock(s, t);
  }

  /** Over every interleaving the items put in are those handed out, those overrun and those still held, which are the
      newest; and unless something was overrun, they are handed out in the order in which they were put in. */
  lemma {:induction false} DeliveredInOrder<M>(s: State<M>, steps: seq<Step<M>>)
    requires NoLostWakeup(s) && IsRun(s, steps) && s.cap > 0
    ensures var r, whole := Run(s, steps), s.q + Entered(s, steps);
            && s.overruns <= r.overruns
            && |whole| == |Left(s, steps)| + (r.overruns - s.overruns) + |r.q| && IsSuffix(r.q, whole)
            && (r.overruns == s.overruns ==> whole == Left(s, steps) + r.q)
    decreases |steps|
  {
    if steps == [] {
    } else {
      StepKeepsWakeups(s, steps[0]);
      StepDelivers(s, steps[0]);
      var next := Apply(s, steps[0]);
      DeliveredInOrder(next, steps[1..]);
      var first, later := Entering(s, steps[0]), Entered(next, steps[1..]);
      Reassociated(s.q, first, later);
      SuffixGrows(next.q, s.q + first, later);
      SuffixOfSuffix(Run(s, steps).q, next.q + later, s.q + first + later);
      Reassociated(Leaving(s, steps[0]), next.q, later);
      Reassociated(Leaving(s, steps[0]), Left(next, steps[1..]), Run(s, steps).q);
    }
  }

  /** In every interleaving from the start: once nobody is awake or about to notify, producers sleep only on a full
      queue and consumers only on an empty one. */
  lemma SleepersHaveReason<M>(s: State<M>, steps: seq<Step<M>>)
    requires Initial(s)
    ensures NoLostWakeup(s)
    ensures IsRun(s, steps) ==>
      var r := Run(s, steps);
      && (Count(r.pc, KEnqReady) + Count(r.pc, KPopNotify) == 0 ==>
            Count(r.pc, KEnqAsleep) > 0 ==> |r.q| == r.cap)
      && (Count(r.pc, KDeqReady) + Count(r.pc, KDeqExpired) + Count(r.pc, KPushNotify) == 0 ==>
            Count(r.pc, KDeqAsleep) > 0 ==> r.q == [])
  {
    assert Threads(s.pc, KEnqAsleep) == {} && Threads(s.pc, KDeqAsleep) == {};
  }
}

/** The lock regions of `mpmc_blocking_queue` on the ring buffer itself. */
module MpmcQueues {
  import opened BlockingQueue
  import opened CircularQueues

  class MpmcBlockingQueue<T(0)> {
    const q: CircularQ<T>

    ghost predicate Valid()
      reads q
    {
      q.Valid() && q.maxItems > 0
    }

    constructor (maxItems: nat)
      ensures Valid() && fresh(q) && fresh(q.v) && q.Capacity() == maxItems && q.Contents() == []
    {
      q := new CircularQ(maxItems);
    }

    /** `enqueue` from taking the lock to releasing it or falling asleep: the predicate is tested, and the item is
        pushed when there is room. */
    method EnqueueRegion(item: T) returns (next: Pc<T>)
      requires Valid()
      modifies q, q.v
      ensures Valid() && q.v == old(q.v) && q.Capacity() == old(q.Capacity())
      ensures (q.Contents(), q.overrunCounter - old(q.overrunCounter), next)
              == Region(q.Capacity(), old(q.Contents()), EnqReady(item))
    {
      if q.Full() { return EnqAsleep(item); }
      q.PushBack(item);
      return PushNotify;
    }

    /** `enqueue_nowait`. */
    method EnqueueNowaitRegion(item: T) returns (next: Pc<T>)
      requires Valid()
      modifies q, q.v
      ensures Valid() && q.v == old(q.v) && q.Capacity() == old(q.Capacity())
      ensures (q.Contents(), q.overrunCounter - old(q.overrunCounter), next)
              == Region(q.Capacity(), old(q.Contents()), NowaitReady(item))
    {
      q.PushBack(item);
      return PushNotify;
    }

    /** `dequeue_for`: expired tells whether the wait has timed out. */
    method DequeueRegion(expired: bool) returns (next: Pc<T>)
      requires Valid()
      modifies q
      ensures Valid() && q.v == old(q.v) && q.Capacity() == old(q.Capacity())
      ensures (q.Contents(), q.overrunCounter - old(q.overrunCounter), next)
              == Region(q.Capacity(), old(q.Contents()), DeqReady(expired))
    {
      if q.Empty() { return if expired then Out else DeqAsleep; }
      var item := q.Front();
      q.PopFront();
      return PopNotify(item);
    }
  }
}
