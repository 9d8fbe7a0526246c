/**
 InstantSend voting as a state machine: candidates collect votes for the
 outpoints they spend, a candidate with enough votes on all of them is locked.
 Ranks are fixed per outpoint, and nothing expires during a run.
 */
module InstantSend {
  import opened Sets
  type Tx = nat
  type OutPoint = nat
  type Node = nat

  const SIGNATURES_REQUIRED := 6
  const SIGNATURES_TOTAL := 10

  /** What a run takes as given: each request's inputs, and the ranks of the noirnodes for each outpoint. */
  datatype Network = Network(inputs: Tx -> set<OutPoint>, nodes: set<Node>, rank: (OutPoint, Node) -> int) {
    /** Ranks start at one and are not shared; minus one stands for an unknown noirnode. */
    ghost predicate Ranked() {
      && (forall o, m :: rank(o, m) == -1 || rank(o, m) >= 1)
      && (forall o, m :: rank(o, m) != -1 ==> m in nodes)
      && (forall o, m, k :: rank(o, m) == rank(o, k) != -1 ==> m == k)
    }

    predicate MayVote(o: OutPoint, m: Node) {
      rank(o, m) != -1 && rank(o, m) <= SIGNATURES_TOTAL
    }

    function Top(o: OutPoint, n: nat): set<Node> {
      set m | m in nodes && 1 <= rank(o, m) <= n
    }
  }

  lemma {:induction false} TopSize(net: Network, o: OutPoint, n: nat)
    requires net.Ranked()
    ensures |net.Top(o, n)| <= n
  {
    if n == 0 {
      assert net.Top(o, 0) == {};
    } else {
      TopSize(net, o, n - 1);
      var rest, all := net.Top(o, n - 1), net.Top(o, n);
      if m :| m in all && net.rank(o, m) == n {
        assert forall k :: k in all <==> k in rest + {m};
        assert all == rest + {m};
      } else {
        assert forall k :: k in all <==> k in rest;
        assert all == rest;
      }
    }
  }

  /** The votes for each outpoint that a candidate spends. */
  type Candidate = map<OutPoint, set<Node>>

  datatype State = State(candidates: map<Tx, Candidate>, voted: map<OutPoint, set<Tx>>, locked: map<OutPoint, Tx>)

  datatype Vote = Vote(tx: Tx, outpoint: OutPoint, node: Node)

  predicate HasVoted(s: State, h: Tx, o: OutPoint, m: Node) {
    h in s.candidates && o in s.candidates[h] && m in s.candidates[h][o]
  }

  predicate Ready(c: Candidate) {
    c.Keys != {} && forall o :: o in c ==> |c[o]| >= SIGNATURES_REQUIRED
  }

  predicate LockedTo(s: State, o: OutPoint, h: Tx) {
    o in s.locked && s.locked[o] == h
  }

  /** A candidate all of whose outpoints are locked to it. */
  predicate IsLocked(s: State, h: Tx) {
    h in s.candidates && s.candidates[h].Keys != {} && forall o :: o in s.candidates[h] ==> LockedTo(s, o, h)
  }

  // ---------- steps ----------

  function Create(net: Network, s: State, h: Tx): State {
    if h in s.candidates then s
    else s.(candidates := s.candidates[h := NoVotes(net.inputs(h))])
  }

  function NoVotes(outpoints: set<OutPoint>): Candidate {
    map o | o in outpoints :: {}
  }

  function Record(s: State, o: OutPoint, h: Tx): map<OutPoint, set<Tx>> {
    s.voted[o := (if o in s.voted then s.voted[o] else {}) + {h}]
  }

  function AddVote(c: Candidate, o: OutPoint, m: Node): Candidate {
    if o in c then c[o := c[o] + {m}] else c
  }

  /** Whether a noirnode has voted for an outpoint in one of the transactions noted for it, other than one. */
  predicate VotedElsewhere(s: State, v: Vote) {
    v.outpoint in s.voted && exists h :: h in s.voted[v.outpoint] && h != v.tx && HasVoted(s, h, v.outpoint, v.node)
  }

  predicate VotedAnywhere(s: State, o: OutPoint, m: Node) {
    o in s.voted && exists h :: h in s.voted[o] && HasVoted(s, h, o, m)
  }

  /** A vote is counted and its transaction noted. */
  function Counted(s: State, v: Vote): State
    requires v.tx in s.candidates
  {
    State(s.candidates[v.tx := AddVote(s.candidates[v.tx], v.outpoint, v.node)], Record(s, v.outpoint, v.tx), s.locked)
  }

  /** A vote that arrives, signed or not: counted unless the noirnode voted for the outpoint in a competing
      transaction. */
  function Receive(net: Network, s: State, v: Vote, signed: bool): State {
    if !signed || !net.MayVote(v.outpoint, v.node) || v.tx !in s.candidates || VotedElsewhere(s, v) then s
    else Counted(s, v)
  }

  /** A vote of this node: cast unless it voted for the outpoint before. */
  function Cast(net: Network, s: State, v: Vote): State {
    if v.tx !in s.candidates || v.outpoint !in s.candidates[v.tx] then s
    else if !net.MayVote(v.outpoint, v.node) || VotedAnywhere(s, v.outpoint, v.node) then s
    else Counted(s, v)
  }

  /** Some outpoint of a candidate is locked to another transaction. */
  predicate Conflicts(s: State, h: Tx) {
    h in s.candidates && exists o :: o in s.candidates[h] && o in s.locked && s.locked[o] != h
  }

  /** Inserting into a map leaves the keys it has. */
  function LockAll(locked: map<OutPoint, Tx>, outpoints: set<OutPoint>, h: Tx): map<OutPoint, Tx> {
    map o | o in locked.Keys + outpoints :: if o in locked then locked[o] else h
  }

  /** Locks a ready candidate, unless the rest of conflict resolution fails. */
  function Finalize(s: State, h: Tx, resolved: bool): State {
    if h !in s.candidates || !Ready(s.candidates[h]) || IsLocked(s, h) || !resolved || Conflicts(s, h) then s
    else s.(locked := LockAll(s.locked, s.candidates[h].Keys, h))
  }

  datatype Step = DoCreate(h: Tx) | DoReceive(v: Vote, signed: bool) | DoCast(v: Vote) | DoFinalize(h: Tx, resolved: bool)

  function Next(net: Network, s: State, step: Step): State {
    match step
    case DoCreate(h) => Create(net, s, h)
    case DoReceive(v, signed) => Receive(net, s, v, signed)
    case DoCast(v) => Cast(net, s, v)
    case DoFinalize(h, resolved) => Finalize(s, h, resolved)
  }

  const EMPTY := State(map[], map[], map[])

  function Run(net: Network, s: State, steps: seq<Step>): State {
    if steps == [] then s else Next(net, Run(net, s, steps[..|steps| - 1]), steps[|steps| - 1])
  }

  // ---------- invariant ----------

  ghost predicate CandidateOk(net: Network, s: State, h: Tx) {
    h in s.candidates ==> s.candidates[h].Keys == net.inputs(h)
  }

  /** A counted vote comes from a noirnode that may vote, and its transaction is noted for the outpoint. */
  ghost predicate VoteOk(net: Network, s: State, h: Tx, o: OutPoint, m: Node) {
    HasVoted(s, h, o, m) ==> net.MayVote(o, m) && o in s.voted && h in s.voted[o]
  }

  /** No noirnode is counted for one outpoint in two candidates. */
  ghost predicate OneVote(s: State, h: Tx, k: Tx, o: OutPoint, m: Node) {
    HasVoted(s, h, o, m) && HasVoted(s, k, o, m) ==> h == k
  }

  /** What is noted for an outpoint is a candidate. */
  ghost predicate NotedOk(s: State, o: OutPoint, h: Tx) {
    o in s.voted && h in s.voted[o] ==> h in s.candidates
  }

  /** An outpoint is locked to a candidate that spends it, is ready, and has all its outpoints locked. */
  ghost predicate LockOk(s: State, o: OutPoint) {
    o in s.locked ==>
      var h := s.locked[o];
      h in s.candidates && o in s.candidates[h] && Ready(s.candidates[h]) && IsLocked(s, h)
  }

  ghost predicate Inv(net: Network, s: State) {
    && (forall h {:trigger CandidateOk(net, s, h)} :: CandidateOk(net, s, h))
    && (forall h, o, m {:trigger VoteOk(net, s, h, o, m)} :: VoteOk(net, s, h, o, m))
    && (forall h, k, o, m {:trigger OneVote(s, h, k, o, m)} :: OneVote(s, h, k, o, m))
    && (forall o, h {:trigger NotedOk(s, o, h)} :: NotedOk(s, o, h))
    && (forall o {:trigger LockOk(s, o)} :: LockOk(s, o))
  }

  // ---------- quorums ----------

  /** Two sets of voters for one outpoint, in any two states, share at least as many as exceed the total. */
  lemma Overlap(net: Network, s: State, t: State, h: Tx, k: Tx, o: OutPoint)
    requires net.Ranked() && Inv(net, s) && Inv(net, t)
    requires h in s.candidates && o in s.candidates[h] && k in t.candidates && o in t.candidates[k]
    ensures |s.candidates[h][o]| + |t.candidates[k][o]| <= SIGNATURES_TOTAL + |s.candidates[h][o] * t.candidates[k][o]|
  {
    var a, b := s.candidates[h][o], t.candidates[k][o];
    forall m | m in a + b ensures m in net.Top(o, SIGNATURES_TOTAL) {
      assert VoteOk(net, s, h, o, m) && VoteOk(net, t, k, o, m);
    }
    TopSize(net, o, SIGNATURES_TOTAL);
    SubsetSize(a + b, net.Top(o, SIGNATURES_TOTAL));
  }

  /** No two candidates can both have enough votes for one outpoint. */
  lemma Exclusive(net: Network, s: State, h: Tx, k: Tx, o: OutPoint)
    requires net.Ranked() && Inv(net, s)
    requires h in s.candidates && o in s.candidates[h] && |s.candidates[h][o]| >= SIGNATURES_REQUIRED
    requires k in s.candidates && o in s.candidates[k] && |s.candidates[k][o]| >= SIGNATURES_REQUIRED
    ensures h == k
  {
    if h != k {
      var both := s.candidates[h][o] * s.candidates[k][o];
      forall m ensures m !in both { assert OneVote(s, h, k, o, m); }
      assert both == {};
      Overlap(net, s, s, h, k, o);
    }
  }

  /** A ready candidate is never kept from locking by a completed lock. */
  lemma ReadyHasNoConflict(net: Network, s: State, h: Tx)
    requires net.Ranked() && Inv(net, s) && h in s.candidates && Ready(s.candidates[h])
    ensures !Conflicts(s, h)
  {
    forall o | o in s.candidates[h] && o in s.locked ensures s.locked[o] == h {
      assert LockOk(s, o);
      Exclusive(net, s, h, s.locked[o], o);
    }
  }

  // ---------- every step keeps the invariant ----------

  lemma EmptyOk(net: Network)
    ensures Inv(net, EMPTY)
  {
  }

  lemma CreateKeeps(net: Network, s: State, h: Tx)
    requires Inv(net, s)
    ensures Inv(net, Create(net, s, h))
  {
    var t := Create(net, s, h);
    if h !in s.candidates {
      assert forall k, o, m :: HasVoted(t, k, o, m) <==> HasVoted(s, k, o, m);
      forall k ensures CandidateOk(net, t, k) { assert CandidateOk(net, s, k); }
      forall k, o, m ensures VoteOk(net, t, k, o, m) { assert VoteOk(net, s, k, o, m); }
      forall j, k, o, m ensures OneVote(t, j, k, o, m) { assert OneVote(s, j, k, o, m); }
      forall o, k ensures NotedOk(t, o, k) { assert NotedOk(s, o, k); }
      forall o ensures LockOk(t, o) { assert LockOk(s, o); }
    }
  }

  /** Who has voted after a vote is counted. */
  lemma CountedVotes(s: State, v: Vote, h: Tx, o: OutPoint, m: Node)
    requires v.tx in s.candidates
    ensures HasVoted(Counted(s, v), h, o, m) <==>
            HasVoted(s, h, o, m) || (v == Vote(h, o, m) && o in s.candidates[h])
  {
  }

  lemma CountedKeeps(net: Network, s: State, v: Vote)
    requires Inv(net, s) && v.tx in s.candidates && net.MayVote(v.outpoint, v.node)
    requires forall h :: HasVoted(s, h, v.outpoint, v.node) ==> h == v.tx
    ensures Inv(net, Counted(s, v))
  {
    var t := Counted(s, v);
    forall h ensures CandidateOk(net, t, h) { assert CandidateOk(net, s, h); }
    forall h, o, m ensures VoteOk(net, t, h, o, m) {
      assert VoteOk(net, s, h, o, m);
      CountedVotes(s, v, h, o, m);
    }
    forall h, k, o, m ensures OneVote(t, h, k, o, m) {
      assert OneVote(s, h, k, o, m);
      CountedVotes(s, v, h, o, m);
      CountedVotes(s, v, k, o, m);
    }
    forall o, h ensures NotedOk(t, o, h) { assert NotedOk(s, o, h); }
    forall o ensures LockOk(t, o) {
      assert LockOk(s, o);
      if o in s.locked { StaysReady(s, v, s.locked[o]); }
    }
  }

  lemma StaysReady(s: State, v: Vote, h: Tx)
    requires v.tx in s.candidates && h in s.candidates
    ensures Ready(s.candidates[h]) ==> Ready(Counted(s, v).candidates[h])
    ensures IsLocked(s, h) ==> IsLocked(Counted(s, v), h)
  {
    var c, d := s.candidates[h], Counted(s, v).candidates[h];
    assert c.Keys == d.Keys;
    forall o | o in c ensures |c[o]| <= |d[o]| { SubsetSize(c[o], d[o]); }
  }

  lemma ReceiveKeeps(net: Network, s: State, v: Vote, signed: bool)
    requires Inv(net, s)
    ensures Inv(net, Receive(net, s, v, signed))
  {
    if Receive(net, s, v, signed) != s {
      forall h | HasVoted(s, h, v.outpoint, v.node) ensures h == v.tx { assert VoteOk(net, s, h, v.outpoint, v.node); }
      CountedKeeps(net, s, v);
    }
  }

  lemma CastKeeps(net: Network, s: State, v: Vote)
    requires Inv(net, s)
    ensures Inv(net, Cast(net, s, v))
  {
    if Cast(net, s, v) != s {
      forall h ensures !HasVoted(s, h, v.outpoint, v.node) { assert VoteOk(net, s, h, v.outpoint, v.node); }
      CountedKeeps(net, s, v);
    }
  }

  lemma FinalizeKeeps(net: Network, s: State, h: Tx, resolved: bool)
    requires Inv(net, s)
    ensures Inv(net, Finalize(s, h, resolved))
    ensures Finalize(s, h, resolved) != s ==> IsLocked(Finalize(s, h, resolved), h)
  {
    var t := Finalize(s, h, resolved);
    if t != s {
      forall k ensures CandidateOk(net, t, k) { assert CandidateOk(net, s, k); }
      forall k, o, m ensures VoteOk(net, t, k, o, m) { assert VoteOk(net, s, k, o, m); }
      forall j, k, o, m ensures OneVote(t, j, k, o, m) { assert OneVote(s, j, k, o, m); }
      forall o, k ensures NotedOk(t, o, k) { assert NotedOk(s, o, k); }
      assert IsLocked(t, h);
      forall o ensures LockOk(t, o) {
        assert LockOk(s, o);
        if o in s.locked { StaysLocked(s, h, resolved, s.locked[o]); }
      }
    }
  }

  lemma StaysLocked(s: State, h: Tx, resolved: bool, k: Tx)
    ensures IsLocked(s, k) ==> IsLocked(Finalize(s, h, resolved), k)
  {
    if IsLocked(s, k) {
      forall o | o in s.candidates[k] ensures LockedTo(Finalize(s, h, resolved), o, k) { assert LockedTo(s, o, k); }
    }
  }

  lemma NextKeeps(net: Network, s: State, step: Step)
    requires Inv(net, s)
    ensures Inv(net, Next(net, s, step))
  {
    match step
    case DoCreate(h) => CreateKeeps(net, s, h);
    case DoReceive(v, signed) => ReceiveKeeps(net, s, v, signed);
    case DoCast(v) => CastKeeps(net, s, v);
    case DoFinalize(h, resolved) => FinalizeKeeps(net, s, h, resolved);
  }

  lemma {:induction false} RunKeeps(net: Network, s: State, steps: seq<Step>)
    requires Inv(net, s)
    ensures Inv(net, Run(net, s, steps))
  {
    if steps != [] {
      RunKeeps(net, s, steps[..|steps| - 1]);
      NextKeeps(net, Run(net, s, steps[..|steps| - 1]), steps[|steps| - 1]);
    }
  }

  // ---------- runs ----------

  /** Between expiries, no two candidates that spend an outpoint both get enough votes for it. */
  lemma RunExclusive(net: Network, steps: seq<Step>, h: Tx, k: Tx, o: OutPoint)
    requires net.Ranked()
    requires var s := Run(net, EMPTY, steps);
             && h in s.candidates && o in s.candidates[h] && |s.candidates[h][o]| >= SIGNATURES_REQUIRED
             && k in s.candidates && o in s.candidates[k] && |s.candidates[k][o]| >= SIGNATURES_REQUIRED
    ensures h == k
  {
    EmptyOk(net);
    RunKeeps(net, EMPTY, steps);
    Exclusive(net, Run(net, EMPTY, steps), h, k, o);
  }

  /** Locks are all or nothing: one locked outpoint means the whole transaction is locked. */
  lemma RunAllOrNothing(net: Network, steps: seq<Step>, h: Tx, o: OutPoint)
    requires LockedTo(Run(net, EMPTY, steps), o, h)
    ensures o in net.inputs(h) && IsLocked(Run(net, EMPTY, steps), h)
    ensures forall q :: q in net.inputs(h) ==> LockedTo(Run(net, EMPTY, steps), q, h)
  {
    var s := Run(net, EMPTY, steps);
    EmptyOk(net);
    RunKeeps(net, EMPTY, steps);
    assert LockOk(s, o) && CandidateOk(net, s, h);
  }

  /** A completed lock stays through the rest of a run. */
  lemma {:induction false} LockStays(net: Network, s: State, steps: seq<Step>, h: Tx)
    requires Inv(net, s) && IsLocked(s, h)
    ensures IsLocked(Run(net, s, steps), h)
  {
    if steps != [] {
      var n := |steps| - 1;
      LockStays(net, s, steps[..n], h);
      var t := Run(net, s, steps[..n]);
      match steps[n]
      case DoCreate(k) =>
      case DoReceive(v, signed) => if Receive(net, t, v, signed) != t { StaysReady(t, v, h); }
      case DoCast(v) => if Cast(net, t, v) != t { StaysReady(t, v, h); }
      case DoFinalize(k, resolved) => StaysLocked(t, k, resolved, h);
    }
  }

  /** On two nodes, conflicting completed locks take at least two noirnodes that voted both ways. */
  lemma TwoEquivocators(net: Network, first: seq<Step>, second: seq<Step>, h: Tx, k: Tx, o: OutPoint)
    requires net.Ranked() && h != k
    requires LockedTo(Run(net, EMPTY, first), o, h) && LockedTo(Run(net, EMPTY, second), o, k)
    ensures var s, t := Run(net, EMPTY, first), Run(net, EMPTY, second);
            && h in s.candidates && o in s.candidates[h] && k in t.candidates && o in t.candidates[k]
            && |s.candidates[h][o] * t.candidates[k][o]| >= 2
  {
    var s, t := Run(net, EMPTY, first), Run(net, EMPTY, second);
    EmptyOk(net);
    RunKeeps(net, EMPTY, first);
    RunKeeps(net, EMPTY, second);
    assert LockOk(s, o) && LockOk(t, o);
    Overlap(net, s, t, h, k, o);
  }
}
