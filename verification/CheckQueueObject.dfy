/**
 The guarded fields of the check queue as an object, with one method per critical
 section of its loop, and the evaluation of a batch outside the lock.
 */
module CheckQueueObject {
  import opened CheckQueue

  class CheckQueueFields {
    var queue: seq<Check>
    var nIdle: int
    var nTotal: int
    var fAllOk: bool
    var nTodo: int
    const nBatchSize: nat

    constructor (batchSize: nat)
      ensures State() == Initial(0, batchSize).shared
    {
      queue, nIdle, nTotal, fAllOk, nTodo, nBatchSize := [], 0, 0, true, 0, batchSize;
    }

    function State(): Shared
      reads this
    {
      Shared(queue, nIdle, nTotal, fAllOk, nTodo, nBatchSize)
    }

    method Add(vChecks: seq<Check>)
      modifies this
      ensures State() == old(State()).(queue := old(queue) + vChecks, nTodo := old(nTodo) + |vChecks|)
    {
      for i := 0 to |vChecks|
        invariant queue == old(queue) + vChecks[..i]
        invariant State() == old(State()).(queue := queue)
      {
        queue := queue + [vChecks[i]];
      }
      nTodo := nTodo + |vChecks|;
    }

    /** Moves checks one by one from the end of the queue to the thread's own vector. */
    method TakeBatch(nNow: nat) returns (vChecks: seq<Check>)
      requires nNow <= |queue|
      modifies this`queue
      ensures vChecks == Taken(old(queue), nNow)
      ensures queue == old(queue)[..|old(queue)| - nNow]
    {
      vChecks := [];
      for i := 0 to nNow
        invariant queue == old(queue)[..|old(queue)| - i]
        invariant vChecks == Taken(old(queue), i)
      {
        TakenOneMore(old(queue), i);
        vChecks := vChecks + [queue[|queue| - 1]];
        queue := queue[..|queue| - 1];
      }
    }

    /** The loop around the wait, up to the point where the thread blocks, leaves or has work. */
    method Continue(fMaster: bool) returns (outcome: Outcome)
      requires Sane(State())
      modifies this
      ensures (State(), outcome) == Decide(old(State()), fMaster)
    {
      if queue == [] {
        if fMaster && nTodo == 0 {
          nTotal := nTotal - 1;
          var fRet := fAllOk;
          fAllOk := true;
          return Returns(fRet);
        }
        nIdle := nIdle + 1;
        return Sleeps;
      }
      var nNow := BatchCount(State());
      var vChecks := TakeBatch(nNow);
      return Takes(vChecks, fAllOk);
    }

    /** The critical section on entering the loop. */
    method EnterSection(fMaster: bool) returns (outcome: Outcome)
      requires Sane(Entered(State()))
      modifies this
      ensures (State(), outcome) == Decide(Entered(old(State())), fMaster)
    {
      nTotal := nTotal + 1;
      outcome := Continue(fMaster);
    }

    /** The critical section after a batch of nNow checks with result fOk. */
    method FinishSection(fMaster: bool, nNow: nat, fOk: bool) returns (outcome: Outcome, notifyMaster: bool)
      requires Sane(State())
      modifies this
      ensures (State(), outcome) == Decide(Finished(old(State()), nNow, fOk), fMaster)
      ensures notifyMaster <==> old(nTodo) - nNow == 0 && !fMaster
    {
      fAllOk := fAllOk && fOk;
      nTodo := nTodo - nNow;
      notifyMaster := nTodo == 0 && !fMaster;
      outcome := Continue(fMaster);
    }

    /** The critical section after waking up. */
    method WakeSection(fMaster: bool) returns (outcome: Outcome)
      requires Sane(Woken(State()))
      modifies this
      ensures (State(), outcome) == Decide(Woken(old(State())), fMaster)
    {
      nIdle := nIdle - 1;
      outcome := Continue(fMaster);
    }
  }

  /** The evaluation of a batch: nothing is evaluated after a failure. */
  method Execute(eval: Check -> bool, vChecks: seq<Check>, fOk: bool) returns (r: bool)
    ensures r <==> BatchResult(eval, InFlight(vChecks, fOk))
  {
    r := fOk;
    for i := 0 to |vChecks|
      invariant r <==> fOk && AllTrue(eval, vChecks[..i])
    {
      if r {
        r := eval(vChecks[i]);
      }
    }
    assert vChecks[..|vChecks|] == vChecks;
  }

  lemma {:induction false} TakenOneMore(queue: seq<Check>, n: nat)
    requires n < |queue|
    ensures Taken(queue, n + 1) == Taken(queue, n) + [queue[|queue| - 1 - n]]
  {
    if n > 0 {
      TakenOneMore(queue[..|queue| - 1], n - 1);
    }
  }
}
