/**
 The queue of script checks: one master adds batches and finally joins the workers
 until all checks are done. Threads interleave at the granularity of the critical
 sections; between two of them a thread is outside the queue, asleep on its condition
 variable, or evaluating a batch of its own. Wake-ups without a signal are allowed.
 */
module CheckQueue {

  type Check = nat

  /** The fields guarded by the mutex. */
  datatype Shared = Shared(queue: seq<Check>, nIdle: int, nTotal: int, fAllOk: bool, nTodo: int, nBatchSize: nat)

  datatype Outcome = Sleeps | Takes(batch: seq<Check>, ok: bool) | Returns(result: bool)

  function Min(a: int, b: int): int { if a < b then a else b }

  function Max(a: int, b: int): int { if a < b then b else a }

  predicate Sane(s: Shared) {
    s.nTotal >= 0 && s.nIdle >= 0
  }

  /** How many checks to take: small batches near the end, at least one, at most nBatchSize. */
  function BatchCount(s: Shared): (n: nat)
    requires Sane(s) && s.queue != []
    ensures 1 <= n <= |s.queue|
  {
    Max(1, Min(s.nBatchSize, |s.queue| / (s.nTotal + s.nIdle + 1)))
  }

  /** The last n elements, last first. */
  function Taken(queue: seq<Check>, n: nat): seq<Check>
    requires n <= |queue|
  {
    if n == 0 then [] else [queue[|queue| - 1]] + Taken(queue[..|queue| - 1], n - 1)
  }

  /** The part of a critical section that is common to all: leave, sleep or take work. */
  function Decide(s: Shared, master: bool): (r: (Shared, Outcome))
    requires Sane(s)
  {
    if s.queue == [] then
      if master && s.nTodo == 0
      then (s.(nTotal := s.nTotal - 1, fAllOk := true), Returns(s.fAllOk))
      else (s.(nIdle := s.nIdle + 1), Sleeps)
    else
      var n := BatchCount(s);
      (s.(queue := s.queue[..|s.queue| - n]), Takes(Taken(s.queue, n), s.fAllOk))
  }

  function Entered(s: Shared): Shared {
    s.(nTotal := s.nTotal + 1)
  }

  function Finished(s: Shared, count: nat, ok: bool): Shared {
    s.(fAllOk := s.fAllOk && ok, nTodo := s.nTodo - count)
  }

  function Woken(s: Shared): Shared {
    s.(nIdle := s.nIdle - 1)
  }

  // ----- the threads ---------------------------------------------------------

  datatype Thread = Outside | Asleep(signalled: bool) | InFlight(batch: seq<Check>, ok: bool)

  /** Thread 0 is the master; `added` are the checks added since the last Wait returned. */
  datatype System = System(shared: Shared, threads: seq<Thread>, added: seq<Check>)

  datatype Step =
    | Enter(thread: nat)
    | Finish(thread: nat)
    | Wake(thread: nat)
    | Add(checks: seq<Check>, notified: nat)

  predicate AllTrue(eval: Check -> bool, checks: seq<Check>) {
    forall i :: 0 <= i < |checks| ==> eval(checks[i])
  }

  /** Evaluation of a batch stops at the first failure, and does nothing after a failure elsewhere. */
  predicate BatchResult(eval: Check -> bool, t: Thread)
    requires t.InFlight?
  {
    t.ok && AllTrue(eval, t.batch)
  }

  function After(o: Outcome): Thread {
    match o
    case Sleeps => Asleep(false)
    case Takes(batch, ok) => InFlight(batch, ok)
    case Returns(_) => Outside
  }

  function Notify(t: Thread): Thread {
    if t.Asleep? then Asleep(true) else t
  }

  function NotifyAll(ts: seq<Thread>): (r: seq<Thread>)
    ensures |r| == |ts|
    ensures forall i :: 0 <= i < |ts| ==> r[i] == if i == 0 then ts[0] else Notify(ts[i])
  {
    seq(|ts|, i requires 0 <= i < |ts| => if i == 0 then ts[0] else Notify(ts[i]))
  }

  predicate Enabled(y: System, step: Step) {
    match step
    case Enter(i) => i < |y.threads| && y.threads[i].Outside?
    case Finish(i) => i < |y.threads| && y.threads[i].InFlight?
    case Wake(i) => i < |y.threads| && y.threads[i].Asleep?
    case Add(_, _) => y.threads != [] && y.threads[0].Outside?
  }

  /** The shared state at the point where the critical section decides, for a thread's step. */
  function Arrived(eval: Check -> bool, y: System, step: Step): Shared
    requires Enabled(y, step) && !step.Add?
  {
    match step
    case Enter(_) => Entered(y.shared)
    case Finish(i) => Finished(y.shared, |y.threads[i].batch|, BatchResult(eval, y.threads[i]))
    case Wake(_) => Woken(y.shared)
  }

  function Verdict(eval: Check -> bool, y: System, step: Step): (Shared, Outcome)
    requires Enabled(y, step) && !step.Add? && Sane(Arrived(eval, y, step))
  {
    Decide(Arrived(eval, y, step), step.thread == 0)
  }

  /** The threads after a worker that finished the last check has signalled the master. */
  function Signalled(eval: Check -> bool, y: System, step: Step): seq<Thread>
    requires Enabled(y, step) && !step.Add?
  {
    if step.Finish? && step.thread != 0 && Arrived(eval, y, step).nTodo == 0
    then y.threads[0 := Notify(y.threads[0])] else y.threads
  }

  function Next(eval: Check -> bool, y: System, step: Step): System
    requires Enabled(y, step) && (!step.Add? ==> Sane(Arrived(eval, y, step)))
  {
    match step
    case Add(checks, j) =>
      System(y.shared.(queue := y.shared.queue + checks, nTodo := y.shared.nTodo + |checks|),
             if |checks| > 1 then NotifyAll(y.threads)
             else if |checks| == 1 && 0 < j < |y.threads| then y.threads[j := Notify(y.threads[j])]
             else y.threads,
             y.added + checks)
    case _ =>
      var (shared, outcome) := Verdict(eval, y, step);
      System(shared, Signalled(eval, y, step)[step.thread := After(outcome)],
             if outcome.Returns? then [] else y.added)
  }

  // ----- sums over the threads -----------------------------------------------

  function Inside(t: Thread): int { if t.Outside? then 0 else 1 }

  function Idle(t: Thread): int { if t.Asleep? then 1 else 0 }

  function Held(t: Thread): int { if t.InFlight? then |t.batch| else 0 }

  function Pending(t: Thread): int { if t.Asleep? && t.signalled then 1 else 0 }

  function Sum(f: Thread -> int, ts: seq<Thread>): int {
    if ts == [] then 0 else f(ts[0]) + Sum(f, ts[1..])
  }

  lemma {:induction false} SumUpdate(f: Thread -> int, ts: seq<Thread>, i: nat, t: Thread)
    requires i < |ts|
    ensures Sum(f, ts[i := t]) == Sum(f, ts) - f(ts[i]) + f(t)
  {
    if i == 0 {
      assert ts[0 := t][1..] == ts[1..];
    } else {
      assert ts[i := t][1..] == ts[1..][i - 1 := t];
      SumUpdate(f, ts[1..], i - 1, t);
    }
  }

  lemma {:induction false} SumSame(f: Thread -> int, ts: seq<Thread>, us: seq<Thread>)
    requires |ts| == |us| && forall i :: 0 <= i < |ts| ==> f(ts[i]) == f(us[i])
    ensures Sum(f, ts) == Sum(f, us)
  {
    if ts != [] { SumSame(f, ts[1..], us[1..]); }
  }

  lemma {:induction false} SumAtLeast(f: Thread -> int, ts: seq<Thread>, i: nat)
    requires i < |ts| && forall t: Thread :: f(t) >= 0
    ensures 0 <= f(ts[i]) <= Sum(f, ts)
  {
    if i == 0 {
      SumNonNegative(f, ts[1..]);
    } else {
      SumAtLeast(f, ts[1..], i - 1);
    }
  }

  lemma {:induction false} SumNonNegative(f: Thread -> int, ts: seq<Thread>)
    requires forall t: Thread :: f(t) >= 0
    ensures 0 <= Sum(f, ts)
  {
    if ts != [] { SumNonNegative(f, ts[1..]); }
  }

  // ----- the invariant -------------------------------------------------------

  predicate ThreadOk(y: System, i: nat) {
    i < |y.threads| && y.threads[i].InFlight? ==>
      y.threads[i].batch != [] && (!y.threads[i].ok ==> !y.shared.fAllOk)
  }

  predicate FlightTrue(eval: Check -> bool, ts: seq<Thread>, i: nat) {
    i < |ts| && ts[i].InFlight? ==> AllTrue(eval, ts[i].batch)
  }

  /** Everything still to be evaluated, or already evaluated, holds. */
  ghost predicate AllStillTrue(eval: Check -> bool, y: System) {
    && y.shared.fAllOk
    && AllTrue(eval, y.shared.queue)
    && forall i: nat {:trigger FlightTrue(eval, y.threads, i)} :: FlightTrue(eval, y.threads, i)
  }

  ghost predicate Inv(eval: Check -> bool, y: System) {
    && y.threads != []
    && y.shared.nTodo == |y.shared.queue| + Sum(Held, y.threads)
    && y.shared.nTotal == Sum(Inside, y.threads)
    && y.shared.nIdle == Sum(Idle, y.threads)
    && (forall i: nat {:trigger ThreadOk(y, i)} :: ThreadOk(y, i))
    && (AllTrue(eval, y.added) <==> AllStillTrue(eval, y))
    && (y.added == [] ==> y.shared.nTodo == 0)
    && (y.threads[0].Asleep? ==> y.shared.queue == [] && (!y.threads[0].signalled ==> y.shared.nTodo > 0))
  }

  lemma ArrivesSane(eval: Check -> bool, y: System, step: Step)
    requires Inv(eval, y) && Enabled(y, step) && !step.Add?
    ensures Sane(Arrived(eval, y, step))
    ensures !step.Enter? ==> y.shared.nTotal >= 1
  {
    SumNonNegative(Inside, y.threads);
    SumNonNegative(Idle, y.threads);
    SumAtLeast(Idle, y.threads, step.thread);
    SumAtLeast(Inside, y.threads, step.thread);
  }

  lemma {:induction false} TakenMeaning(eval: Check -> bool, queue: seq<Check>, n: nat)
    requires n <= |queue|
    ensures |Taken(queue, n)| == n
    ensures AllTrue(eval, queue) <==> AllTrue(eval, queue[..|queue| - n]) && AllTrue(eval, Taken(queue, n))
  {
    if n > 0 {
      var q, k := queue[..|queue| - 1], |queue| - 1;
      TakenMeaning(eval, q, n - 1);
      assert q[..|q| - (n - 1)] == queue[..|queue| - n];
      assert AllTrue(eval, queue) <==> AllTrue(eval, q) && eval(queue[k]) by {
        assert forall i :: 0 <= i < |q| ==> q[i] == queue[i];
        if AllTrue(eval, q) && eval(queue[k]) {
          forall i | 0 <= i < |queue| ensures eval(queue[i]) { if i < k { assert eval(q[i]); } }
        }
      }
      var t := Taken(q, n - 1);
      assert AllTrue(eval, [queue[k]] + t) <==> eval(queue[k]) && AllTrue(eval, t) by {
        var u := [queue[k]] + t;
        assert u[0] == queue[k] && forall i :: 0 <= i < |t| ==> t[i] == u[i + 1];
        if AllTrue(eval, u) { forall i | 0 <= i < |t| ensures eval(t[i]) { assert eval(u[i + 1]); } }
      }
    }
  }

  lemma SumsAfter(ts: seq<Thread>, i: nat, t: Thread)
    requires i < |ts|
    ensures Sum(Held, ts[i := t]) == Sum(Held, ts) - Held(ts[i]) + Held(t)
    ensures Sum(Inside, ts[i := t]) == Sum(Inside, ts) - Inside(ts[i]) + Inside(t)
    ensures Sum(Idle, ts[i := t]) == Sum(Idle, ts) - Idle(ts[i]) + Idle(t)
  {
    SumUpdate(Held, ts, i, t);
    SumUpdate(Inside, ts, i, t);
    SumUpdate(Idle, ts, i, t);
  }

  /** Signals change none of the counts. */
  lemma SignalsDoNotCount(ts: seq<Thread>, us: seq<Thread>)
    requires |ts| == |us| && forall i :: 0 <= i < |ts| ==> us[i] == ts[i] || us[i] == Notify(ts[i])
    ensures Sum(Held, us) == Sum(Held, ts) && Sum(Inside, us) == Sum(Inside, ts) && Sum(Idle, us) == Sum(Idle, ts)
  {
    SumSame(Held, ts, us);
    SumSame(Inside, ts, us);
    SumSame(Idle, ts, us);
  }

  // ----- one step ------------------------------------------------------------

  /** The system at the point where a critical section decides; the thread holds no batch. */
  function Midway(eval: Check -> bool, y: System, step: Step): System
    requires Enabled(y, step) && !step.Add?
  {
    System(Arrived(eval, y, step), Signalled(eval, y, step)[step.thread := Outside], y.added)
  }

  /** What holds at that point. */
  ghost predicate MidInv(eval: Check -> bool, y: System, i: nat) {
    && i < |y.threads| && y.threads[i].Outside?
    && y.shared.nTodo == |y.shared.queue| + Sum(Held, y.threads)
    && y.shared.nTotal == Sum(Inside, y.threads) + 1
    && y.shared.nIdle == Sum(Idle, y.threads)
    && (forall k: nat {:trigger ThreadOk(y, k)} :: ThreadOk(y, k))
    && (AllTrue(eval, y.added) <==> AllStillTrue(eval, y))
    && (y.added == [] ==> y.shared.nTodo == 0)
    && (y.threads[0].Asleep? ==> y.shared.queue == [] && (!y.threads[0].signalled ==> y.shared.nTodo > 0))
  }

  lemma MidCounts(eval: Check -> bool, y: System, step: Step)
    requires Inv(eval, y) && Enabled(y, step) && !step.Add?
    ensures var m := Midway(eval, y, step);
            && m.shared.nTodo == |m.shared.queue| + Sum(Held, m.threads)
            && m.shared.nTotal == Sum(Inside, m.threads) + 1
            && m.shared.nIdle == Sum(Idle, m.threads)
  {
    var us := Signalled(eval, y, step);
    SignalsDoNotCount(y.threads, us);
    SumsAfter(us, step.thread, Outside);
  }

  lemma MidTruth(eval: Check -> bool, y: System, step: Step)
    requires Inv(eval, y) && Enabled(y, step) && !step.Add?
    ensures AllStillTrue(eval, Midway(eval, y, step)) <==> AllStillTrue(eval, y)
    ensures forall k: nat :: ThreadOk(Midway(eval, y, step), k)
  {
    var m, i := Midway(eval, y, step), step.thread;
    assert ThreadOk(y, i) && (AllStillTrue(eval, y) ==> FlightTrue(eval, y.threads, i));
    forall k: nat ensures ThreadOk(m, k) { assert ThreadOk(y, k); }
    if AllStillTrue(eval, m) {
      forall k: nat ensures FlightTrue(eval, y.threads, k) { assert FlightTrue(eval, m.threads, k); }
    }
    if AllStillTrue(eval, y) {
      forall k: nat ensures FlightTrue(eval, m.threads, k) { assert FlightTrue(eval, y.threads, k); }
    }
  }

  lemma MidHolds(eval: Check -> bool, y: System, step: Step)
    requires Inv(eval, y) && Enabled(y, step) && !step.Add?
    ensures MidInv(eval, Midway(eval, y, step), step.thread)
  {
    MidCounts(eval, y, step);
    MidTruth(eval, y, step);
    var m := Midway(eval, y, step);
    if m.threads[0].Asleep? && !m.threads[0].signalled {
      SumNonNegative(Held, m.threads);
    }
    if y.added == [] && step.Finish? {
      SumNonNegative(Held, m.threads);
    }
  }

  /** With nothing left to do, no thread holds a batch. */
  lemma NothingHeld(y: System, k: nat)
    requires k < |y.threads| && Sum(Held, y.threads) <= 0 && ThreadOk(y, k)
    ensures !y.threads[k].InFlight?
  {
    SumAtLeast(Held, y.threads, k);
  }

  /** The verdict: when the master leaves, its answer is whether every check added since the
      last time holds; otherwise all that is known stays known. */
  lemma DecideTruth(eval: Check -> bool, m: System, i: nat)
    requires MidInv(eval, m, i)
    ensures Sane(m.shared)
    ensures var (shared, outcome) := Decide(m.shared, i == 0);
            var y := System(shared, m.threads[i := After(outcome)], if outcome.Returns? then [] else m.added);
            && (outcome.Returns? ==> (outcome.result <==> AllTrue(eval, m.added)) && shared.nTodo == 0)
            && (AllTrue(eval, y.added) <==> AllStillTrue(eval, y))
            && forall k: nat :: ThreadOk(y, k)
  {
    SumNonNegative(Inside, m.threads);
    SumNonNegative(Idle, m.threads);
    var (shared, outcome) := Decide(m.shared, i == 0);
    var y := System(shared, m.threads[i := After(outcome)], if outcome.Returns? then [] else m.added);
    match outcome
    case Returns(_) =>
      forall k: nat ensures ThreadOk(y, k) && FlightTrue(eval, m.threads, k) && FlightTrue(eval, y.threads, k) {
        assert ThreadOk(m, k);
        if k < |m.threads| { NothingHeld(m, k); }
      }
    case Sleeps =>
      forall k: nat ensures ThreadOk(y, k) && (FlightTrue(eval, y.threads, k) <==> FlightTrue(eval, m.threads, k)) {
        assert ThreadOk(m, k);
      }
    case Takes(batch, ok) =>
      TakenMeaning(eval, m.shared.queue, BatchCount(m.shared));
      forall k: nat ensures ThreadOk(y, k) { assert ThreadOk(m, k); }
      forall k: nat | k != i ensures FlightTrue(eval, y.threads, k) <==> FlightTrue(eval, m.threads, k) {}
      assert FlightTrue(eval, m.threads, i);
      assert FlightTrue(eval, y.threads, i) <==> AllTrue(eval, batch);
  }

  lemma DecideCounts(eval: Check -> bool, m: System, i: nat)
    requires MidInv(eval, m, i) && Sane(m.shared)
    ensures var (shared, outcome) := Decide(m.shared, i == 0);
            var ts := m.threads[i := After(outcome)];
            && shared.nTodo == |shared.queue| + Sum(Held, ts)
            && shared.nTotal == Sum(Inside, ts)
            && shared.nIdle == Sum(Idle, ts)
            && (ts[0].Asleep? ==> shared.queue == [] && (!ts[0].signalled ==> shared.nTodo > 0))
  {
    var (shared, outcome) := Decide(m.shared, i == 0);
    SumsAfter(m.threads, i, After(outcome));
    SumNonNegative(Held, m.threads);
    if outcome.Takes? {
      TakenMeaning(eval, m.shared.queue, BatchCount(m.shared));
    }
  }

  lemma ThreadStepKeeps(eval: Check -> bool, y: System, step: Step)
    requires Inv(eval, y) && Enabled(y, step) && !step.Add?
    ensures Sane(Arrived(eval, y, step))
    ensures Inv(eval, Next(eval, y, step))
  {
    MidHolds(eval, y, step);
    var m, i := Midway(eval, y, step), step.thread;
    DecideTruth(eval, m, i);
    DecideCounts(eval, m, i);
    var (shared, outcome) := Decide(m.shared, i == 0);
    assert Signalled(eval, y, step)[i := After(outcome)] == m.threads[i := After(outcome)];
  }

  lemma AllTrueConcat(eval: Check -> bool, a: seq<Check>, b: seq<Check>)
    ensures AllTrue(eval, a + b) <==> AllTrue(eval, a) && AllTrue(eval, b)
  {
    var c := a + b;
    if AllTrue(eval, c) {
      forall i | 0 <= i < |a| ensures eval(a[i]) { assert c[i] == a[i]; }
      forall i | 0 <= i < |b| ensures eval(b[i]) { assert c[|a| + i] == b[i]; }
    }
  }

  lemma AddKeeps(eval: Check -> bool, y: System, step: Step)
    requires Inv(eval, y) && Enabled(y, step) && step.Add?
    ensures Inv(eval, Next(eval, y, step))
  {
    var z := Next(eval, y, step);
    assert forall i :: 0 <= i < |y.threads| ==> z.threads[i] == y.threads[i] || z.threads[i] == Notify(y.threads[i]);
    SignalsDoNotCount(y.threads, z.threads);
    AllTrueConcat(eval, y.shared.queue, step.checks);
    AllTrueConcat(eval, y.added, step.checks);
    forall k: nat ensures ThreadOk(z, k) && (FlightTrue(eval, z.threads, k) <==> FlightTrue(eval, y.threads, k)) {
      assert ThreadOk(y, k);
    }
  }

  /** Every step of every thread keeps the books. */
  lemma NextKeeps(eval: Check -> bool, y: System, step: Step)
    requires Inv(eval, y) && Enabled(y, step)
    ensures !step.Add? ==> Sane(Arrived(eval, y, step))
    ensures Inv(eval, Next(eval, y, step))
  {
    if step.Add? { AddKeeps(eval, y, step); } else { ThreadStepKeeps(eval, y, step); }
  }

  // ----- runs ----------------------------------------------------------------

  function Initial(workers: nat, batchSize: nat): System {
    System(Shared([], 0, 0, true, 0, batchSize), seq(workers + 1, _ => Outside), [])
  }

  lemma InitialHolds(eval: Check -> bool, workers: nat, batchSize: nat)
    ensures Inv(eval, Initial(workers, batchSize))
  {
    var y := Initial(workers, batchSize);
    AllOutside(y.threads);
    forall k: nat ensures FlightTrue(eval, y.threads, k) && ThreadOk(y, k) {}
  }

  lemma {:induction false} AllOutside(ts: seq<Thread>)
    requires forall i :: 0 <= i < |ts| ==> ts[i].Outside?
    ensures Sum(Held, ts) == 0 && Sum(Inside, ts) == 0 && Sum(Idle, ts) == 0
  {
    if ts != [] { AllOutside(ts[1..]); }
  }

  /** A state that some interleaving of the master and the workers leads to. */
  ghost predicate Reaches(eval: Check -> bool, y: System, steps: seq<Step>, z: System)
    decreases |steps|
  {
    if steps == [] then z == y
    else
      && Enabled(y, steps[0])
      && (!steps[0].Add? ==> Sane(Arrived(eval, y, steps[0])))
      && Reaches(eval, Next(eval, y, steps[0]), steps[1..], z)
  }

  lemma {:induction false} RunKeeps(eval: Check -> bool, y: System, steps: seq<Step>, z: System)
    requires Inv(eval, y) && Reaches(eval, y, steps, z)
    ensures Inv(eval, z)
    decreases |steps|
  {
    if steps != [] {
      NextKeeps(eval, y, steps[0]);
      RunKeeps(eval, Next(eval, y, steps[0]), steps[1..], z);
    }
  }

  // ----- what the users of the queue rely on ---------------------------------

  predicate IsIdle(s: Shared) {
    s.nTotal == s.nIdle && s.nTodo == 0 && s.fAllOk
  }

  /** The outcome of the master's step is the answer of Wait. */
  predicate WaitReturns(eval: Check -> bool, y: System, step: Step, result: bool) {
    && Enabled(y, step) && !step.Add? && step.thread == 0 && Sane(Arrived(eval, y, step))
    && Verdict(eval, y, step).1 == Returns(result)
  }

  /** Over every interleaving: the number of checks to do is the number queued and in flight;
      Wait answers true exactly when every check added since the last Wait holds; a master
      asleep without a signal has some worker still at work; and once Wait has returned,
      the queue is idle until the next Add. */
  lemma Protocol(eval: Check -> bool, workers: nat, batchSize: nat, steps: seq<Step>, y: System)
    requires Reaches(eval, Initial(workers, batchSize), steps, y)
    ensures y.shared.nTodo == |y.shared.queue| + Sum(Held, y.threads)
    ensures forall step, result :: WaitReturns(eval, y, step, result) ==> (result <==> AllTrue(eval, y.added))
    ensures y.threads != [] && (y.threads[0] == Asleep(false) ==>
              exists i :: 0 < i < |y.threads| && y.threads[i].InFlight?)
    ensures y.threads[0].Outside? && y.added == [] ==> IsIdle(y.shared)
  {
    InitialHolds(eval, workers, batchSize);
    RunKeeps(eval, Initial(workers, batchSize), steps, y);
    forall step, result | WaitReturns(eval, y, step, result) ensures result <==> AllTrue(eval, y.added) {
      WaitAnswer(eval, y, step, result);
    }
    if y.threads[0] == Asleep(false) {
      var i := SomeoneWorks(y.threads);
    }
    if y.threads[0].Outside? && y.added == [] {
      AfterWaitIdle(eval, y);
    }
  }

  lemma WaitAnswer(eval: Check -> bool, y: System, step: Step, result: bool)
    requires Inv(eval, y) && WaitReturns(eval, y, step, result)
    ensures result <==> AllTrue(eval, y.added)
  {
    MidHolds(eval, y, step);
    DecideTruth(eval, Midway(eval, y, step), 0);
  }

  lemma {:induction false} SomeoneWorks(ts: seq<Thread>) returns (i: nat)
    requires Sum(Held, ts) > 0
    ensures i < |ts| && ts[i].InFlight?
  {
    if ts[0].InFlight? {
      i := 0;
    } else {
      var k := SomeoneWorks(ts[1..]);
      i := k + 1;
    }
  }

  lemma AfterWaitIdle(eval: Check -> bool, y: System)
    requires Inv(eval, y) && y.added == []
    ensures IsIdle(y.shared)
  {
    SumNonNegative(Held, y.threads);
    assert AllTrue(eval, y.added);
    forall i | 0 <= i < |y.threads| ensures Inside(y.threads[i]) == Idle(y.threads[i]) {
      assert ThreadOk(y, i);
      NothingHeld(y, i);
    }
    SumSameOf(Inside, Idle, y.threads);
  }

  lemma {:induction false} SumSameOf(f: Thread -> int, g: Thread -> int, ts: seq<Thread>)
    requires forall i :: 0 <= i < |ts| ==> f(ts[i]) == g(ts[i])
    ensures Sum(f, ts) == Sum(g, ts)
  {
    if ts != [] { SumSameOf(f, g, ts[1..]); }
  }

  // ----- Wait comes to an end ------------------------------------------------

  /** A step that a signal or a finished batch calls for. */
  predicate Due(y: System, step: Step) {
    Enabled(y, step) && (step.Finish? || (step.Wake? && y.threads[step.thread].signalled))
  }

  /** While the master waits, some step is due, and every due step either lets Wait return
      or leaves fewer checks to do, or as many and fewer signals to answer. */
  lemma WaitProgresses(eval: Check -> bool, y: System)
    requires Inv(eval, y) && !y.threads[0].Outside?
    ensures exists step :: Due(y, step)
    ensures forall step :: Due(y, step) ==>
              && !step.Add? && Sane(Arrived(eval, y, step))
              && var z := Next(eval, y, step);
                 || z.threads[0].Outside?
                 || z.shared.nTodo < y.shared.nTodo
                 || (z.shared.nTodo == y.shared.nTodo && Sum(Pending, z.threads) < Sum(Pending, y.threads))
  {
    if y.threads[0].InFlight? {
      assert Due(y, Finish(0));
    } else if y.threads[0].signalled {
      assert Due(y, Wake(0));
    } else {
      var i := SomeoneWorks(y.threads);
      assert Due(y, Finish(i));
    }
    forall step | Due(y, step)
      ensures !step.Add? && Sane(Arrived(eval, y, step))
      ensures var z := Next(eval, y, step);
              || z.threads[0].Outside?
              || z.shared.nTodo < y.shared.nTodo
              || (z.shared.nTodo == y.shared.nTodo && Sum(Pending, z.threads) < Sum(Pending, y.threads))
    {
      ArrivesSane(eval, y, step);
      assert ThreadOk(y, step.thread);
      if step.Wake? {
        SumUpdate(Pending, y.threads, step.thread, After(Verdict(eval, y, step).1));
      }
    }
  }

  /** The checks to do, and below them the signals to answer. */
  function Measure(y: System): int {
    y.shared.nTodo * (|y.threads| + 1) + Sum(Pending, y.threads)
  }

  lemma {:induction false} PendingBounds(ts: seq<Thread>)
    ensures 0 <= Sum(Pending, ts) <= |ts|
  {
    if ts != [] { PendingBounds(ts[1..]); }
  }

  lemma Rows(a: int, b: int, n: int)
    requires a <= b - 1 && n >= 0
    ensures a * (n + 1) + n < b * (n + 1)
  {
    assert (b - 1 - a) * (n + 1) >= 0;
  }

  lemma MeasureNatural(eval: Check -> bool, y: System)
    requires Inv(eval, y)
    ensures 0 <= y.shared.nTodo && 0 <= Measure(y)
  {
    SumNonNegative(Held, y.threads);
    PendingBounds(y.threads);
    assert y.shared.nTodo * (|y.threads| + 1) >= 0;
  }

  /** While the master waits, every due step that does not let Wait return brings the measure down. */
  lemma DueLowers(eval: Check -> bool, y: System, step: Step)
    requires Inv(eval, y) && !y.threads[0].Outside? && Due(y, step)
    ensures !step.Add? && Sane(Arrived(eval, y, step))
    ensures Next(eval, y, step).threads[0].Outside? || Measure(Next(eval, y, step)) < Measure(y)
  {
    WaitProgresses(eval, y);
    var z := Next(eval, y, step);
    PendingBounds(y.threads);
    PendingBounds(z.threads);
    assert |z.threads| == |y.threads|;
    if z.shared.nTodo < y.shared.nTodo { Rows(z.shared.nTodo, y.shared.nTodo, |y.threads|); }
  }

  /** Other steps, of workers that come in and of threads that wake up without a signal, do not raise it. */
  lemma OtherKeeps(eval: Check -> bool, y: System, step: Step)
    requires Inv(eval, y) && !y.threads[0].Outside? && Enabled(y, step) && !Due(y, step)
    ensures !step.Add? && Sane(Arrived(eval, y, step))
    ensures Measure(Next(eval, y, step)) == Measure(y)
  {
    ArrivesSane(eval, y, step);
    var z, t := Next(eval, y, step), After(Verdict(eval, y, step).1);
    assert z.threads == y.threads[step.thread := t];
    SumUpdate(Pending, y.threads, step.thread, t);
  }

  /** A run during which the master stays in Wait. */
  ghost predicate Waiting(eval: Check -> bool, y: System, steps: seq<Step>)
    decreases |steps|
  {
    && y.threads != [] && !y.threads[0].Outside?
    && (steps != [] ==>
          && Enabled(y, steps[0]) && (!steps[0].Add? ==> Sane(Arrived(eval, y, steps[0])))
          && Waiting(eval, Next(eval, y, steps[0]), steps[1..]))
  }

  ghost function Later(eval: Check -> bool, y: System, steps: seq<Step>): System
    requires Waiting(eval, y, steps)
    decreases |steps|
  {
    if steps == [] then y else Later(eval, Next(eval, y, steps[0]), steps[1..])
  }

  ghost function DueSteps(eval: Check -> bool, y: System, steps: seq<Step>): nat
    requires Waiting(eval, y, steps)
    decreases |steps|
  {
    if steps == [] then 0
    else (if Due(y, steps[0]) then 1 else 0) + DueSteps(eval, Next(eval, y, steps[0]), steps[1..])
  }

  lemma WaitStep(eval: Check -> bool, y: System, step: Step)
    requires Inv(eval, y) && !y.threads[0].Outside? && Enabled(y, step)
    ensures !step.Add? && Sane(Arrived(eval, y, step))
    ensures var z := Next(eval, y, step);
            !z.threads[0].Outside? ==> Measure(z) + (if Due(y, step) then 1 else 0) <= Measure(y)
  {
    if Due(y, step) { DueLowers(eval, y, step); } else { OtherKeeps(eval, y, step); }
  }

  lemma {:induction false} WaitBound(eval: Check -> bool, y: System, steps: seq<Step>)
    requires Inv(eval, y) && Waiting(eval, y, steps)
    ensures DueSteps(eval, y, steps) <= Measure(y)
    decreases |steps|
  {
    if steps == [] {
      MeasureNatural(eval, y);
    } else {
      NextKeeps(eval, y, steps[0]);
      WaitStep(eval, y, steps[0]);
      WaitBound(eval, Next(eval, y, steps[0]), steps[1..]);
    }
  }

  lemma {:induction false} LaterKeeps(eval: Check -> bool, y: System, steps: seq<Step>)
    requires Inv(eval, y) && Waiting(eval, y, steps)
    ensures Inv(eval, Later(eval, y, steps)) && !Later(eval, y, steps).threads[0].Outside?
    decreases |steps|
  {
    if steps != [] {
      NextKeeps(eval, y, steps[0]);
      LaterKeeps(eval, Next(eval, y, steps[0]), steps[1..]);
    }
  }

  /** Wait comes to an end: however the threads are scheduled, it lasts no more due steps than the measure at its
      beginning, and as long as it lasts some step is due. */
  lemma WaitEnds(eval: Check -> bool, y: System, steps: seq<Step>)
    requires Inv(eval, y) && Waiting(eval, y, steps)
    ensures DueSteps(eval, y, steps) <= Measure(y)
    ensures exists step :: Due(Later(eval, y, steps), step)
  {
    WaitBound(eval, y, steps);
    LaterKeeps(eval, y, steps);
    WaitProgresses(eval, Later(eval, y, steps));
  }
}
