/** The InstantSend maps as they are updated when requests and votes arrive. */
module InstantSendObject {
  import opened InstantSend

  /** What the surroundings answer while votes are cast: whether an outpoint is unspent, whether signing works. */
  datatype Surroundings = Surroundings(unspent: OutPoint -> bool, signs: OutPoint -> bool)

  /** The votes that this noirnode casts for a candidate's outpoints, in their order; a missing outpoint or a
      failed signature ends the round. */
  function CastAll(net: Network, s: State, h: Tx, me: Node, order: seq<OutPoint>, env: Surroundings): State
    decreases |order|
  {
    if order == [] || !env.unspent(order[0]) then s
    else if !net.MayVote(order[0], me) || VotedAnywhere(s, order[0], me) then CastAll(net, s, h, me, order[1..], env)
    else if !env.signs(order[0]) then s
    else CastAll(net, Cast(net, s, Vote(h, order[0], me)), h, me, order[1..], env)
  }

  /** Whether a vote that arrives changes a candidate. */
  predicate Fresh(net: Network, s: State, v: Vote, signed: bool) {
    && signed && net.MayVote(v.outpoint, v.node) && v.tx in s.candidates && !VotedElsewhere(s, v)
    && v.outpoint in s.candidates[v.tx] && v.node !in s.candidates[v.tx][v.outpoint]
  }

  /** A vote that arrives may complete its candidate. */
  function VoteArrives(net: Network, s: State, v: Vote, signed: bool, resolved: bool): State {
    var t := Receive(net, s, v, signed);
    if Fresh(net, s, v, signed) then Finalize(t, v.tx, resolved) else t
  }

  /** The votes that came before their request, replayed in order. */
  function Replay(net: Network, s: State, orphans: seq<Vote>, signed: Vote -> bool, resolved: bool): State
    decreases |orphans|
  {
    if orphans == [] then s
    else Replay(net, VoteArrives(net, s, orphans[0], signed(orphans[0]), resolved), orphans[1..], signed, resolved)
  }

  /** A request with what its processing finds: its inputs, whether it is valid, the order of its outpoints in the
      candidate's map, and the earlier votes that were put aside. */
  datatype Request = Request(h: Tx, vin: seq<OutPoint>, valid: bool, order: seq<OutPoint>, orphans: seq<Vote>)

  /** A request that arrives: refused when an input is locked or the request is not valid, else made a candidate,
      voted for, and locked when the votes that came first suffice. */
  function RequestArrives(net: Network, s: State, r: Request, me: Node, voting: bool, env: Surroundings,
                          signed: Vote -> bool, resolved: bool): State {
    if (exists o :: o in r.vin && o in s.locked) || !r.valid then s
    else
      var t := Create(net, s, r.h);
      var u := if voting then CastAll(net, t, r.h, me, r.order, env) else t;
      Finalize(Replay(net, u, r.orphans, signed, resolved), r.h, resolved)
  }

  lemma {:induction false} RunAppend(net: Network, s: State, a: seq<Step>, b: seq<Step>)
    ensures Run(net, s, a + b) == Run(net, Run(net, s, a), b)
  {
    if b == [] {
      assert a + b == a;
    } else {
      var n := |b| - 1;
      RunAppend(net, s, a, b[..n]);
      assert (a + b)[..|a + b| - 1] == a + b[..n];
    }
  }

  lemma OneStep(net: Network, s: State, step: Step)
    ensures Run(net, s, [step]) == Next(net, s, step)
  {
    assert [step][..0] == [];
  }

  lemma {:induction false} CastAllIsRun(net: Network, s: State, h: Tx, me: Node, order: seq<OutPoint>, env: Surroundings)
    returns (steps: seq<Step>)
    ensures CastAll(net, s, h, me, order, env) == Run(net, s, steps)
    decreases |order|
  {
    if order == [] || !env.unspent(order[0]) {
      steps := [];
    } else if !net.MayVote(order[0], me) || VotedAnywhere(s, order[0], me) {
      steps := CastAllIsRun(net, s, h, me, order[1..], env);
    } else if !env.signs(order[0]) {
      steps := [];
    } else {
      var v := Vote(h, order[0], me);
      var rest := CastAllIsRun(net, Cast(net, s, v), h, me, order[1..], env);
      OneStep(net, s, DoCast(v));
      RunAppend(net, s, [DoCast(v)], rest);
      steps := [DoCast(v)] + rest;
    }
  }

  /** What arrives is a run of steps, so whatever holds of all runs holds of all that arrives. */
  lemma VoteIsRun(net: Network, s: State, v: Vote, signed: bool, resolved: bool) returns (steps: seq<Step>)
    ensures VoteArrives(net, s, v, signed, resolved) == Run(net, s, steps)
  {
    var first, last := DoReceive(v, signed), DoFinalize(v.tx, resolved);
    var t := Receive(net, s, v, signed);
    OneStep(net, s, first);
    OneStep(net, t, last);
    RunAppend(net, s, [first], [last]);
    steps := if Fresh(net, s, v, signed) then [first] + [last] else [first];
  }

  lemma {:induction false} ReplayIsRun(net: Network, s: State, orphans: seq<Vote>, signed: Vote -> bool, resolved: bool)
    returns (steps: seq<Step>)
    ensures Replay(net, s, orphans, signed, resolved) == Run(net, s, steps)
    decreases |orphans|
  {
    if orphans == [] {
      steps := [];
    } else {
      var first := VoteIsRun(net, s, orphans[0], signed(orphans[0]), resolved);
      var rest := ReplayIsRun(net, Run(net, s, first), orphans[1..], signed, resolved);
      RunAppend(net, s, first, rest);
      steps := first + rest;
    }
  }

  lemma RequestIsRun(net: Network, s: State, r: Request, me: Node, voting: bool, env: Surroundings,
                     signed: Vote -> bool, resolved: bool)
    returns (steps: seq<Step>)
    ensures RequestArrives(net, s, r, me, voting, env, signed, resolved) == Run(net, s, steps)
  {
    if (exists o :: o in r.vin && o in s.locked) || !r.valid {
      steps := [];
    } else {
      var t := Create(net, s, r.h);
      OneStep(net, s, DoCreate(r.h));
      var votes := CastAllIsRun(net, t, r.h, me, r.order, env);
      if !voting { votes := []; }
      RunAppend(net, s, [DoCreate(r.h)], votes);
      steps := [DoCreate(r.h)] + votes;
      var more := ReplayIsRun(net, Run(net, s, steps), r.orphans, signed, resolved);
      RunAppend(net, s, steps, more);
      steps := steps + more;
      var last := DoFinalize(r.h, resolved);
      OneStep(net, Run(net, s, steps), last);
      RunAppend(net, s, steps, [last]);
      steps := steps + [last];
    }
  }

  /** Outpoint by outpoint, what inserting locks leaves in the map. */
  ghost predicate Inserted(now: map<OutPoint, Tx>, was: map<OutPoint, Tx>, done: set<OutPoint>, h: Tx) {
    && (forall o :: o in now <==> o in was || o in done)
    && (forall o :: o in now ==> now[o] == if o in was then was[o] else h)
  }

  lemma InsertedIs(now: map<OutPoint, Tx>, was: map<OutPoint, Tx>, done: set<OutPoint>, h: Tx)
    requires Inserted(now, was, done, h)
    ensures now == LockAll(was, done, h)
  {
    assert forall o :: o in now <==> o in LockAll(was, done, h);
  }

  class CInstantSend {
    const net: Network
    var mapTxLockCandidates: map<Tx, Candidate>
    var mapVotedOutpoints: map<OutPoint, set<Tx>>
    var mapLockedOutpoints: map<OutPoint, Tx>

    ghost function Contents(): State
      reads this
    {
      State(mapTxLockCandidates, mapVotedOutpoints, mapLockedOutpoints)
    }

    ghost predicate Valid()
      reads this
    {
      Inv(net, Contents())
    }

    constructor (net: Network)
      ensures Contents() == EMPTY && this.net == net && Valid()
    {
      this.net := net;
      mapTxLockCandidates, mapVotedOutpoints, mapLockedOutpoints := map[], map[], map[];
      new;
      EmptyOk(net);
    }

    method IsAllOutPointsReady(c: Candidate) returns (r: bool)
      ensures r <==> Ready(c)
    {
      if c.Keys == {} { return false; }
      var todo := c.Keys;
      while todo != {}
        invariant todo <= c.Keys && forall o :: o in c && o !in todo ==> |c[o]| >= SIGNATURES_REQUIRED
        decreases |todo|
      {
        var o :| o in todo;
        if |c[o]| < SIGNATURES_REQUIRED { return false; }
        todo := todo - {o};
      }
      return true;
    }

    method IsLockedInstantSendTransaction(h: Tx) returns (r: bool)
      ensures r <==> IsLocked(Contents(), h)
    {
      if h !in mapTxLockCandidates { return false; }
      var c := mapTxLockCandidates[h];
      if c.Keys == {} { return false; }
      var todo := c.Keys;
      while todo != {}
        invariant todo <= c.Keys && forall o :: o in c && o !in todo ==> LockedTo(Contents(), o, h)
        decreases |todo|
      {
        var o :| o in todo;
        if o !in mapLockedOutpoints || mapLockedOutpoints[o] != h {
          assert !LockedTo(Contents(), o, h);
          return false;
        }
        todo := todo - {o};
      }
      return true;
    }

    method CreateTxLockCandidate(h: Tx, vin: seq<OutPoint>, valid: bool) returns (ok: bool)
      requires forall o :: o in vin <==> o in net.inputs(h)
      modifies this`mapTxLockCandidates
      ensures ok <==> valid
      ensures Contents() == if valid then Create(net, old(Contents()), h) else old(Contents())
    {
      if !valid { return false; }
      if h !in mapTxLockCandidates {
        var c: Candidate := map[];
        for i := |vin| downto 0
          invariant forall o :: o in c <==> o in vin[i..]
          invariant forall o :: o in c ==> c[o] == {}
        {
          if vin[i] !in c { c := c[vin[i] := {}]; }
        }
        assert c == NoVotes(net.inputs(h));
        mapTxLockCandidates := mapTxLockCandidates[h := c];
      }
      return true;
    }

    /** Whether a noirnode has voted for an outpoint in a noted transaction other than one; looks at candidates only. */
    method FindVote(o: OutPoint, m: Node, but: set<Tx>) returns (r: bool)
      requires Valid()
      ensures r <==> o in mapVotedOutpoints && exists h :: h in mapVotedOutpoints[o] && h !in but && HasVoted(Contents(), h, o, m)
    {
      if o !in mapVotedOutpoints { return false; }
      var todo := mapVotedOutpoints[o];
      while todo != {}
        invariant todo <= mapVotedOutpoints[o]
        invariant forall h :: h in mapVotedOutpoints[o] && h !in todo ==> h in but || !HasVoted(Contents(), h, o, m)
        decreases |todo|
      {
        var h :| h in todo;
        assert NotedOk(Contents(), o, h);
        if h !in but && o in mapTxLockCandidates[h] && m in mapTxLockCandidates[h][o] {
          assert HasVoted(Contents(), h, o, m);
          return true;
        }
        todo := todo - {h};
      }
      return false;
    }
  
    /** Counts a vote and notes its transaction for the outpoint. */
    method Note(o: OutPoint, h: Tx)
      modifies this`mapVotedOutpoints
      ensures mapVotedOutpoints == Record(old(Contents()), o, h)
    {
      if o !in mapVotedOutpoints {
        mapVotedOutpoints := mapVotedOutpoints[o := {h}];
        assert {} + {h} == {h};
      } else {
        mapVotedOutpoints := mapVotedOutpoints[o := mapVotedOutpoints[o] + {h}];
      }
    }

    method AddVote(v: Vote) returns (added: bool)
      requires v.tx in mapTxLockCandidates
      modifies this`mapTxLockCandidates
      ensures added <==> v.outpoint in old(mapTxLockCandidates[v.tx]) && v.node !in old(mapTxLockCandidates[v.tx][v.outpoint])
      ensures mapTxLockCandidates
           == old(mapTxLockCandidates)[v.tx := InstantSend.AddVote(old(mapTxLockCandidates)[v.tx], v.outpoint, v.node)]
    {
      var c := mapTxLockCandidates[v.tx];
      if v.outpoint !in c || v.node in c[v.outpoint] {
        assert InstantSend.AddVote(c, v.outpoint, v.node) == c by {
          if v.outpoint in c { assert c[v.outpoint] + {v.node} == c[v.outpoint]; }
        }
        return false;
      }
      mapTxLockCandidates := mapTxLockCandidates[v.tx := InstantSend.AddVote(c, v.outpoint, v.node)];
      return true;
    }

    method Vote(h: Tx, me: Node, order: seq<OutPoint>, env: Surroundings)
      requires Valid() && h in mapTxLockCandidates && forall o :: o in order ==> o in mapTxLockCandidates[h]
      modifies this`mapTxLockCandidates, this`mapVotedOutpoints
      ensures Contents() == CastAll(net, old(Contents()), h, me, order, env) && Valid()
      ensures h in mapTxLockCandidates
    {
      ghost var all := CastAll(net, Contents(), h, me, order, env);
      assert order[0..] == order;
      var i := 0;
      while i < |order|
        invariant i <= |order| && Valid()
        invariant h in mapTxLockCandidates && forall o :: o in order ==> o in mapTxLockCandidates[h]
        invariant all == CastAll(net, Contents(), h, me, order[i..], env)
      {
        var o := order[i];
        assert order[i..][0] == o && order[i..][1..] == order[i + 1..];
        if !env.unspent(o) { return; }
        var n := net.rank(o, me);
        var voted := FindVote(o, me, {});
        assert voted <==> VotedAnywhere(Contents(), o, me);
        i := i + 1;
        if n == -1 || n > SIGNATURES_TOTAL || voted { continue; }
        if !env.signs(o) { return; }
        CastVote(InstantSend.Vote(h, o, me));
      }
    }

    method CastVote(v: Vote)
      requires Valid() && v.tx in mapTxLockCandidates && v.outpoint in mapTxLockCandidates[v.tx]
      requires net.MayVote(v.outpoint, v.node) && !VotedAnywhere(Contents(), v.outpoint, v.node)
      modifies this`mapTxLockCandidates, this`mapVotedOutpoints
      ensures Contents() == Cast(net, old(Contents()), v) && Valid()
      ensures v.tx in mapTxLockCandidates && mapTxLockCandidates[v.tx].Keys == old(mapTxLockCandidates[v.tx].Keys)
    {
      CastKeeps(net, Contents(), v);
      Note(v.outpoint, v.tx);
      var added := AddVote(v);
    }

    method LockTransactionInputs(h: Tx)
      requires h in mapTxLockCandidates
      modifies this`mapLockedOutpoints
      ensures mapLockedOutpoints ==
              if Ready(mapTxLockCandidates[h]) then LockAll(old(mapLockedOutpoints), mapTxLockCandidates[h].Keys, h)
              else old(mapLockedOutpoints)
    {
      var c := mapTxLockCandidates[h];
      var ready := IsAllOutPointsReady(c);
      if !ready { return; }
      InsertLocks(c.Keys, h);
    }

    method InsertLocks(outpoints: set<OutPoint>, h: Tx)
      modifies this`mapLockedOutpoints
      ensures mapLockedOutpoints == LockAll(old(mapLockedOutpoints), outpoints, h)
    {
      var todo := outpoints;
      ghost var was, done := mapLockedOutpoints, {};
      while todo != {}
        invariant done + todo == outpoints
        invariant Inserted(mapLockedOutpoints, was, done, h)
        decreases |todo|
      {
        var o :| o in todo;
        if o !in mapLockedOutpoints { mapLockedOutpoints := mapLockedOutpoints[o := h]; }
        todo, done := todo - {o}, done + {o};
      }
      assert done == outpoints;
      InsertedIs(mapLockedOutpoints, was, done, h);
    }

    /** The part of conflict resolution that looks at completed locks. */
    method FindConflict(h: Tx) returns (r: bool)
      requires h in mapTxLockCandidates
      ensures r <==> Conflicts(Contents(), h)
    {
      var c := mapTxLockCandidates[h];
      var todo := c.Keys;
      while todo != {}
        invariant todo <= c.Keys
        invariant forall o :: o in c && o !in todo ==> o !in mapLockedOutpoints || mapLockedOutpoints[o] == h
        decreases |todo|
      {
        var o :| o in todo;
        if o in mapLockedOutpoints && mapLockedOutpoints[o] != h { return true; }
        todo := todo - {o};
      }
      return false;
    }

    method TryToFinalizeLockCandidate(h: Tx, resolved: bool)
      requires h in mapTxLockCandidates && Valid()
      modifies this`mapLockedOutpoints
      ensures Contents() == Finalize(old(Contents()), h, resolved) && Valid()
    {
      FinalizeKeeps(net, Contents(), h, resolved);
      var ready := IsAllOutPointsReady(mapTxLockCandidates[h]);
      var locked := IsLockedInstantSendTransaction(h);
      if ready && !locked {
        var conflict := FindConflict(h);
        if !conflict && resolved {
          LockTransactionInputs(h);
        }
      }
    }

    /** A vote whose transaction is not a candidate yet is kept aside, which changes none of the maps here. The
        program may then process the request for that transaction again; that is a RequestArrives of its own. */
    method ProcessTxLockVote(v: Vote, signed: bool, resolved: bool) returns (ok: bool)
      requires Valid()
      modifies this
      ensures Contents() == VoteArrives(net, old(Contents()), v, signed, resolved) && Valid()
      ensures v.tx in old(mapTxLockCandidates) ==> (ok <==> Fresh(net, old(Contents()), v, signed))
      ensures forall h :: h in old(mapTxLockCandidates) ==> h in mapTxLockCandidates
    {
      ghost var s := Contents();
      ReceiveKeeps(net, s, v, signed);
      var n := net.rank(v.outpoint, v.node);
      if !signed || n == -1 || n > SIGNATURES_TOTAL { return false; }
      if v.tx !in mapTxLockCandidates { return true; }
      var elsewhere := FindVote(v.outpoint, v.node, {v.tx});
      assert elsewhere <==> VotedElsewhere(s, v);
      if elsewhere { return false; }
      Note(v.outpoint, v.tx);
      ok := AddVote(v);
      assert Contents() == Receive(net, s, v, signed);
      if ok { TryToFinalizeLockCandidate(v.tx, resolved); }
    }
  
    /** Votes that were put aside until their request arrived; those of other requests change nothing. */
    method ProcessOrphanTxLockVotes(orphans: seq<Vote>, signed: Vote -> bool, resolved: bool)
      requires Valid()
      modifies this
      ensures Contents() == Replay(net, old(Contents()), orphans, signed, resolved) && Valid()
      ensures forall h :: h in old(mapTxLockCandidates) ==> h in mapTxLockCandidates
    {
      ghost var all := Replay(net, Contents(), orphans, signed, resolved);
      assert orphans[0..] == orphans;
      for i := 0 to |orphans|
        invariant Valid() && all == Replay(net, Contents(), orphans[i..], signed, resolved)
        invariant forall h :: h in old(mapTxLockCandidates) ==> h in mapTxLockCandidates
      {
        assert orphans[i..][0] == orphans[i] && orphans[i..][1..] == orphans[i + 1..];
        var ok := ProcessTxLockVote(orphans[i], signed(orphans[i]), resolved);
      }
    }

    method ProcessTxLockRequest(r: Request, me: Node, fNoirNode: bool, env: Surroundings, signed: Vote -> bool, resolved: bool)
      returns (ok: bool)
      requires Valid() && (forall o :: o in r.vin <==> o in net.inputs(r.h)) && (forall o :: o in r.order ==> o in r.vin)
      modifies this
      ensures Contents() == RequestArrives(net, old(Contents()), r, me, fNoirNode, env, signed, resolved) && Valid()
      ensures ok <==> r.valid && forall o :: o in r.vin ==> o !in old(mapLockedOutpoints)
    {
      ghost var s := Contents();
      for i := 0 to |r.vin|
        invariant forall k :: 0 <= k < i ==> r.vin[k] !in mapLockedOutpoints
        invariant Contents() == s
      {
        if r.vin[i] in mapLockedOutpoints {
          assert r.vin[i] in r.vin;
          return false;
        }
      }
      CreateKeeps(net, s, r.h);
      ok := CreateTxLockCandidate(r.h, r.vin, r.valid);
      if !ok { return; }
      assert CandidateOk(net, Contents(), r.h);
      if fNoirNode { Vote(r.h, me, r.order, env); }
      assert CandidateOk(net, Contents(), r.h);
      ProcessOrphanTxLockVotes(r.orphans, signed, resolved);
      TryToFinalizeLockCandidate(r.h, resolved);
    }
  }
}
