/**
 The noirnode's side of a mixing session as a state machine: queueing users,
 taking their entries, and merging the entries into one transaction to sign.
 */
module MixingSession {
  import AmountCodec

  datatype PoolState = Idle | Queue | AcceptingEntries | Signing | Error | Success

  datatype Input = Input(prevout: nat, sequence: nat, scriptSig: nat, hasSig: bool)
  datatype Output = Output(value: int, script: nat)
  datatype Entry = Entry(ins: seq<Input>, outs: seq<Output>)

  /** The null outpoint. */
  const NULL_OUTPOINT: nat := 0

  datatype Pool = Pool(state: PoolState, sessionID: int, denom: int, collaterals: seq<nat>, entries: seq<Entry>,
                       vin: seq<Input>, vout: seq<Output>)

  const NULLED := Pool(Idle, 0, 0, [], [], [], [])

  // ---------- denominations ----------

  const COIN := AmountCodec.COIN
  const DENOMINATIONS := [10 * COIN + 10000, COIN + 1000, COIN / 10 + 100, COIN / 100 + 10]

  predicate Uses(outs: seq<Output>, d: int) {
    exists i :: 0 <= i < |outs| && outs[i].value == d
  }

  function MaskFrom(outs: seq<Output>, c: nat): nat
    requires c <= |DENOMINATIONS|
    decreases |DENOMINATIONS| - c
  {
    if c == |DENOMINATIONS| then 0
    else (if Uses(outs, DENOMINATIONS[c]) then 1 else 0) + 2 * MaskFrom(outs, c + 1)
  }

  /** A bit for each denomination that occurs; zero when something that is none occurs. */
  function Denominations(outs: seq<Output>): nat {
    if forall i :: 0 <= i < |outs| ==> outs[i].value in DENOMINATIONS then MaskFrom(outs, 0) else 0
  }

  /** The mask is zero exactly for no outputs and for those with some other amount. */
  lemma MaskMeaning(outs: seq<Output>)
    ensures Denominations(outs) < 16
    ensures Denominations(outs) == 0 <==> outs == [] || exists i :: 0 <= i < |outs| && outs[i].value !in DENOMINATIONS
  {
    var d := DENOMINATIONS;
    assert MaskFrom(outs, 0) == (if Uses(outs, d[0]) then 1 else 0) + 2 * MaskFrom(outs, 1);
    assert MaskFrom(outs, 1) == (if Uses(outs, d[1]) then 1 else 0) + 2 * MaskFrom(outs, 2);
    assert MaskFrom(outs, 2) == (if Uses(outs, d[2]) then 1 else 0) + 2 * MaskFrom(outs, 3);
    assert MaskFrom(outs, 3) == (if Uses(outs, d[3]) then 1 else 0) + 2 * MaskFrom(outs, 4);
    if outs != [] && forall i :: 0 <= i < |outs| ==> outs[i].value in d {
      assert outs[0].value in d;
      var c :| 0 <= c < 4 && d[c] == outs[0].value;
      assert Uses(outs, d[c]);
    }
  }

  /** Whether a denomination mask from a message has one of the known bits and none above them; a negative number
      is read as two's complement. */
  predicate LegitDenom(nDenom: int) {
    nDenom < 16 && nDenom % 16 != 0
  }

  // ---------- sorting ----------

  function Insert<T>(x: T, s: seq<T>, le: (T, T) -> bool): seq<T> {
    if s == [] || le(x, s[0]) then [x] + s else [s[0]] + Insert(x, s[1..], le)
  }

  function Sort<T>(s: seq<T>, le: (T, T) -> bool): seq<T> {
    if s == [] then [] else Insert(s[0], Sort(s[1..], le), le)
  }

  lemma {:induction false} InsertPermutes<T>(x: T, s: seq<T>, le: (T, T) -> bool)
    ensures multiset(Insert(x, s, le)) == multiset{x} + multiset(s)
  {
    if s != [] && !le(x, s[0]) {
      InsertPermutes(x, s[1..], le);
      assert s == [s[0]] + s[1..];
    }
  }

  lemma {:induction false} SortPermutes<T>(s: seq<T>, le: (T, T) -> bool)
    ensures multiset(Sort(s, le)) == multiset(s)
  {
    if s != [] {
      SortPermutes(s[1..], le);
      InsertPermutes(s[0], Sort(s[1..], le), le);
      assert s == [s[0]] + s[1..];
    }
  }

  ghost predicate SortedBy<T>(s: seq<T>, le: (T, T) -> bool) {
    forall i, k :: 0 <= i < k < |s| ==> le(s[i], s[k])
  }

  ghost predicate IsOrder<T(!new)>(le: (T, T) -> bool) {
    && (forall a, b :: le(a, b) || le(b, a))
    && (forall a, b, c :: le(a, b) && le(b, c) ==> le(a, c))
  }

  lemma {:induction false} InsertSorted<T(!new)>(x: T, s: seq<T>, le: (T, T) -> bool)
    requires IsOrder(le) && SortedBy(s, le)
    ensures SortedBy(Insert(x, s, le), le)
  {
    if s != [] && !le(x, s[0]) {
      InsertSorted(x, s[1..], le);
      var r := Insert(x, s[1..], le);
      InsertPermutes(x, s[1..], le);
      forall k | 0 <= k < |r| ensures le(s[0], r[k]) {
        assert r[k] in multiset(r);
        if r[k] != x { assert r[k] in s[1..]; }
      }
    }
  }

  lemma {:induction false} SortSorted<T(!new)>(s: seq<T>, le: (T, T) -> bool)
    requires IsOrder(le)
    ensures SortedBy(Sort(s, le), le)
  {
    if s != [] {
      SortSorted(s[1..], le);
      InsertSorted(s[0], Sort(s[1..], le), le);
    }
  }

  /** Inputs are ordered by outpoint, outputs by amount and then script. */
  function InputOrder(): (Input, Input) -> bool {
    (a: Input, b: Input) => a.prevout <= b.prevout
  }

  function OutputOrder(): (Output, Output) -> bool {
    (a: Output, b: Output) => a.value < b.value || (a.value == b.value && a.script <= b.script)
  }

  // ---------- steps ----------

  predicate SessionReady(p: Pool, max: nat) {
    |p.collaterals| >= max
  }

  /** A user asks to join: starts a session, or joins one that is queueing for the same denominations. */
  function Accept(p: Pool, max: nat, nDenom: int, collateral: nat, collateralOk: bool, id: nat): Pool {
    if SessionReady(p, max) || !LegitDenom(nDenom) || !collateralOk then p
    else if p.sessionID == 0 then
      if p.state != Idle then p
      else p.(sessionID := id + 1, denom := nDenom, state := Queue, collaterals := p.collaterals + [collateral])
    else if p.state != Queue || nDenom != p.denom then p
    else p.(collaterals := p.collaterals + [collateral])
  }

  predicate Compatible(p: Pool, outs: seq<Output>) {
    && Denominations(outs) != 0
    && forall i :: 0 <= i < |p.entries| ==> Denominations(p.entries[i].outs) == Denominations(outs)
  }

  predicate Spends(e: Entry, prevout: nat) {
    exists i :: 0 <= i < |e.ins| && e.ins[i].prevout == prevout
  }

  predicate Disjoint(e: Entry, f: Entry) {
    forall i :: 0 <= i < |e.ins| ==> !Spends(f, e.ins[i].prevout)
  }

  predicate CanAdd(p: Pool, max: nat, e: Entry, collateralOk: bool) {
    && (forall i :: 0 <= i < |e.ins| ==> e.ins[i].prevout != NULL_OUTPOINT)
    && collateralOk && |p.entries| < max
    && forall k :: 0 <= k < |p.entries| ==> Disjoint(e, p.entries[k])
  }

  /** An entry as it arrives: signatures are not part of the message. */
  function Unsigned(e: Entry): Entry {
    Entry(seq(|e.ins|, i requires 0 <= i < |e.ins| => e.ins[i].(hasSig := false)), e.outs)
  }

  /** A user submits an entry; one that cannot be added resets the whole session. */
  function Submit(p: Pool, max: nat, e: Entry, checksOk: bool, collateralOk: bool): Pool {
    if !SessionReady(p, max) || !Compatible(p, e.outs) || !checksOk then p
    else if CanAdd(p, max, e, collateralOk) then CheckPool(p.(entries := p.entries + [Unsigned(e)]), max)
    else NULLED
  }

  function AllIns(entries: seq<Entry>): seq<Input> {
    if entries == [] then [] else AllIns(entries[..|entries| - 1]) + entries[|entries| - 1].ins
  }

  function AllOuts(entries: seq<Entry>): seq<Output> {
    if entries == [] then [] else AllOuts(entries[..|entries| - 1]) + entries[|entries| - 1].outs
  }

  predicate AllSigned(entries: seq<Entry>) {
    forall i, k :: 0 <= i < |entries| && 0 <= k < |entries[i].ins| ==> entries[i].ins[k].hasSig
  }

  /** Merges full entries into one transaction, or completes a signed one. */
  function CheckPool(p: Pool, max: nat): Pool {
    if p.state == AcceptingEntries && |p.entries| >= max then
      p.(vin := Sort(AllIns(p.entries), InputOrder()), vout := Sort(AllOuts(p.entries), OutputOrder()), state := Signing)
    else if p.state == Signing && AllSigned(p.entries) then NULLED
    else p
  }

  predicate SameInput(a: Input, b: Input) {
    a.prevout == b.prevout && a.sequence == b.sequence
  }

  /** The first matching input of an entry takes the signature, unless it has one. */
  function SignIns(ins: seq<Input>, new_: Input): (seq<Input>, bool) {
    if ins == [] then (ins, false)
    else if SameInput(ins[0], new_) then
      if ins[0].hasSig then (ins, false) else ([ins[0].(scriptSig := new_.scriptSig, hasSig := true)] + ins[1..], true)
    else
      var (rest, ok) := SignIns(ins[1..], new_);
      ([ins[0]] + rest, ok)
  }

  /** The first entry that takes it. */
  function SignEntries(entries: seq<Entry>, new_: Input): (seq<Entry>, bool) {
    if entries == [] then (entries, false)
    else
      var (ins, ok) := SignIns(entries[0].ins, new_);
      if ok then ([Entry(ins, entries[0].outs)] + entries[1..], true)
      else
        var (rest, ok') := SignEntries(entries[1..], new_);
        ([entries[0]] + rest, ok')
  }

  predicate HasScript(entries: seq<Entry>, scriptSig: nat) {
    exists i, k :: 0 <= i < |entries| && 0 <= k < |entries[i].ins| && entries[i].ins[k].scriptSig == scriptSig
  }

  function SignVin(vin: seq<Input>, new_: Input): seq<Input> {
    seq(|vin|, i requires 0 <= i < |vin| => if SameInput(vin[i], new_) then vin[i].(scriptSig := new_.scriptSig) else vin[i])
  }

  /** One signature: refused when its script is there already or no entry spends the outpoint. */
  function AddScriptSig(p: Pool, new_: Input): (Pool, bool) {
    if HasScript(p.entries, new_.scriptSig) || !exists k :: 0 <= k < |p.entries| && Spends(p.entries[k], new_.prevout)
    then (p, false)
    else
      var (entries, ok) := SignEntries(p.entries, new_);
      (p.(vin := SignVin(p.vin, new_), entries := entries), ok)
  }

  /** Signatures that arrive: the first refused one ends their processing. */
  function Sign(p: Pool, max: nat, ins: seq<Input>): Pool
    decreases |ins|
  {
    if ins == [] then CheckPool(p, max)
    else
      var (q, ok) := AddScriptSig(p, ins[0]);
      if ok then Sign(q, max, ins[1..]) else q
  }

  function Timeout(p: Pool, timedOut: bool): Pool {
    if p.state != Idle && timedOut then NULLED else p
  }

  function CompleteQueue(p: Pool, max: nat): Pool {
    if p.state == Queue && SessionReady(p, max) then p.(state := AcceptingEntries) else p
  }

  datatype Step =
    | DoAccept(nDenom: int, collateral: nat, collateralOk: bool, id: nat)
    | DoSubmit(entry: Entry, checksOk: bool, collateralOk: bool)
    | DoSign(ins: seq<Input>)
    | DoTimeout(timedOut: bool)
    | DoCompleteQueue

  function Next(p: Pool, max: nat, step: Step): Pool {
    match step
    case DoAccept(nDenom, collateral, ok, id) => Accept(p, max, nDenom, collateral, ok, id)
    case DoSubmit(entry, checksOk, collateralOk) => Submit(p, max, entry, checksOk, collateralOk)
    case DoSign(ins) => Sign(p, max, ins)
    case DoTimeout(timedOut) => Timeout(p, timedOut)
    case DoCompleteQueue => CompleteQueue(p, max)
  }

  function Run(max: nat, steps: seq<Step>): Pool {
    if steps == [] then NULLED else Next(Run(max, steps[..|steps| - 1]), max, steps[|steps| - 1])
  }

  // ---------- invariant ----------

  function Keys(ins: seq<Input>): seq<(nat, nat)> {
    if ins == [] then [] else Keys(ins[..|ins| - 1]) + [(ins[|ins| - 1].prevout, ins[|ins| - 1].sequence)]
  }

  /** An entry that was taken: it spends no null outpoint and pays denominations only. */
  ghost predicate EntryOk(e: Entry) {
    Denominations(e.outs) != 0 && !Spends(e, NULL_OUTPOINT)
  }

  /** Entries pay the same denominations and spend different outpoints. */
  ghost predicate PairOk(entries: seq<Entry>, i: nat, k: nat) {
    i < k < |entries| ==>
      Denominations(entries[i].outs) == Denominations(entries[k].outs) && Disjoint(entries[k], entries[i])
  }

  ghost predicate EntriesOk(entries: seq<Entry>) {
    && (forall i :: 0 <= i < |entries| ==> EntryOk(entries[i]))
    && (forall i: nat, k: nat :: PairOk(entries, i, k))
  }

  /** The merged transaction has the entries' inputs and outputs, sorted. */
  ghost predicate Merged(p: Pool) {
    && SortedBy(p.vin, InputOrder()) && SortedBy(p.vout, OutputOrder())
    && multiset(Keys(p.vin)) == multiset(Keys(AllIns(p.entries)))
    && multiset(p.vout) == multiset(AllOuts(p.entries))
  }

  ghost predicate Inv(p: Pool, max: nat) {
    && p.state != Error && p.state != Success
    && (p.state == Idle <==> p.sessionID == 0) && (p.state == Idle ==> p == NULLED)
    && (p.state != Idle ==> p.sessionID > 0 && LegitDenom(p.denom) && p.collaterals != [])
    && |p.collaterals| <= max && |p.entries| <= max
    && (p.entries != [] || p.state == AcceptingEntries || p.state == Signing ==> |p.collaterals| == max)
    && EntriesOk(p.entries)
    && (p.state == Signing ==> |p.entries| == max && Merged(p))
    && (p.state != Signing ==> p.vin == [] && p.vout == [])
  }

  lemma KeysAppend(a: seq<Input>, b: seq<Input>)
    ensures Keys(a + b) == Keys(a) + Keys(b)
  {
    if b == [] {
      assert a + b == a;
    } else {
      var n := |b| - 1;
      KeysAppend(a, b[..n]);
      assert (a + b)[..|a + b| - 1] == a + b[..n];
    }
  }

  lemma KeysCons(x: Input, s: seq<Input>)
    ensures Keys([x] + s) == [(x.prevout, x.sequence)] + Keys(s)
  {
    KeysAppend([x], s);
    assert [x][..0] == [];
  }

  lemma {:induction false} InsertKeys(x: Input, s: seq<Input>, le: (Input, Input) -> bool)
    ensures multiset(Keys(Insert(x, s, le))) == multiset{(x.prevout, x.sequence)} + multiset(Keys(s))
  {
    if s == [] || le(x, s[0]) {
      KeysCons(x, s);
    } else {
      InsertKeys(x, s[1..], le);
      KeysCons(s[0], Insert(x, s[1..], le));
      KeysCons(s[0], s[1..]);
      assert s == [s[0]] + s[1..];
    }
  }

  lemma {:induction false} SortKeys(s: seq<Input>, le: (Input, Input) -> bool)
    ensures multiset(Keys(Sort(s, le))) == multiset(Keys(s))
  {
    if s != [] {
      SortKeys(s[1..], le);
      InsertKeys(s[0], Sort(s[1..], le), le);
      KeysCons(s[0], s[1..]);
      assert s == [s[0]] + s[1..];
    }
  }

  // ---------- every step keeps the invariant ----------

  lemma CheckPoolKeeps(p: Pool, max: nat)
    requires Inv(p, max) && max > 0
    ensures Inv(CheckPool(p, max), max)
  {
    SortSorted(AllIns(p.entries), InputOrder());
    SortSorted(AllOuts(p.entries), OutputOrder());
    SortKeys(AllIns(p.entries), InputOrder());
    SortPermutes(AllOuts(p.entries), OutputOrder());
  }

  lemma AcceptKeeps(p: Pool, max: nat, nDenom: int, collateral: nat, collateralOk: bool, id: nat)
    requires Inv(p, max) && max > 0
    ensures Inv(Accept(p, max, nDenom, collateral, collateralOk, id), max)
  {
  }

  lemma UnsignedIs(e: Entry)
    ensures forall o :: Spends(Unsigned(e), o) <==> Spends(e, o)
    ensures forall f :: Disjoint(e, f) ==> Disjoint(Unsigned(e), f)
  {
    forall o ensures Spends(Unsigned(e), o) <==> Spends(e, o) {
      if Spends(e, o) {
        var i :| 0 <= i < |e.ins| && e.ins[i].prevout == o;
        assert Unsigned(e).ins[i].prevout == o;
      }
    }
  }

  lemma SubmitKeeps(p: Pool, max: nat, e: Entry, checksOk: bool, collateralOk: bool)
    requires Inv(p, max) && max > 0
    ensures Inv(Submit(p, max, e, checksOk, collateralOk), max)
  {
    if SessionReady(p, max) && Compatible(p, e.outs) && checksOk && CanAdd(p, max, e, collateralOk) {
      var u := Unsigned(e);
      var q := p.(entries := p.entries + [u]);
      UnsignedIs(e);
      forall i: nat, k: nat ensures PairOk(q.entries, i, k) { assert PairOk(p.entries, i, k); }
      assert Inv(q, max);
      CheckPoolKeeps(q, max);
    }
  }

  /** The same entries but for signatures. */
  ghost predicate Resigned(a: seq<Entry>, b: seq<Entry>) {
    |a| == |b| && forall i :: 0 <= i < |a| ==> a[i].outs == b[i].outs && SameIns(a[i].ins, b[i].ins)
  }

  ghost predicate SameIns(a: seq<Input>, b: seq<Input>) {
    |a| == |b| && forall i :: 0 <= i < |a| ==> SameInput(a[i], b[i])
  }

  lemma {:induction false} SignInsSame(ins: seq<Input>, x: Input)
    ensures SameIns(SignIns(ins, x).0, ins)
  {
    if ins != [] && !SameInput(ins[0], x) {
      SignInsSame(ins[1..], x);
    }
  }

  lemma {:induction false} SignEntriesSame(entries: seq<Entry>, x: Input)
    ensures Resigned(SignEntries(entries, x).0, entries)
  {
    if entries != [] {
      SignInsSame(entries[0].ins, x);
      SignEntriesSame(entries[1..], x);
    }
  }

  lemma {:induction false} SameKeys(a: seq<Input>, b: seq<Input>)
    requires SameIns(a, b)
    ensures Keys(a) == Keys(b)
  {
    if a != [] {
      SameKeys(a[..|a| - 1], b[..|b| - 1]);
    }
  }

  lemma {:induction false} ResignedMerge(a: seq<Entry>, b: seq<Entry>)
    requires Resigned(a, b)
    ensures Keys(AllIns(a)) == Keys(AllIns(b)) && AllOuts(a) == AllOuts(b)
  {
    if a != [] {
      var n := |a| - 1;
      ResignedMerge(a[..n], b[..n]);
      KeysAppend(AllIns(a[..n]), a[n].ins);
      KeysAppend(AllIns(b[..n]), b[n].ins);
      SameKeys(a[n].ins, b[n].ins);
    }
  }

  lemma ResignedSpends(a: Entry, b: Entry, o: nat)
    requires SameIns(a.ins, b.ins)
    ensures Spends(a, o) <==> Spends(b, o)
  {
    if Spends(a, o) {
      var i :| 0 <= i < |a.ins| && a.ins[i].prevout == o;
      assert SameInput(a.ins[i], b.ins[i]);
    }
    if Spends(b, o) {
      var i :| 0 <= i < |b.ins| && b.ins[i].prevout == o;
      assert SameInput(a.ins[i], b.ins[i]);
    }
  }

  lemma ResignedOk(a: seq<Entry>, b: seq<Entry>)
    requires Resigned(a, b) && EntriesOk(b)
    ensures EntriesOk(a)
  {
    forall i | 0 <= i < |a| ensures EntryOk(a[i]) {
      assert EntryOk(b[i]);
      ResignedSpends(a[i], b[i], NULL_OUTPOINT);
    }
    forall i: nat, k: nat ensures PairOk(a, i, k) {
      assert PairOk(b, i, k);
      if i < k < |a| {
        forall j | 0 <= j < |a[k].ins| ensures !Spends(a[i], a[k].ins[j].prevout) {
          assert SameInput(a[k].ins[j], b[k].ins[j]);
          ResignedSpends(a[i], b[i], a[k].ins[j].prevout);
        }
      }
    }
  }

  lemma SignVinSame(vin: seq<Input>, x: Input)
    ensures SameIns(SignVin(vin, x), vin)
    ensures SortedBy(vin, InputOrder()) ==> SortedBy(SignVin(vin, x), InputOrder())
  {
  }

  lemma AddScriptSigKeeps(p: Pool, max: nat, x: Input)
    requires Inv(p, max)
    ensures Inv(AddScriptSig(p, x).0, max)
  {
    var (q, ok) := AddScriptSig(p, x);
    SignEntriesSame(p.entries, x);
    SignVinSame(p.vin, x);
    SameKeys(SignVin(p.vin, x), p.vin);
    ResignedMerge(SignEntries(p.entries, x).0, p.entries);
    ResignedOk(SignEntries(p.entries, x).0, p.entries);
  }

  lemma {:induction false} SignKeeps(p: Pool, max: nat, ins: seq<Input>)
    requires Inv(p, max) && max > 0
    ensures Inv(Sign(p, max, ins), max)
    decreases |ins|
  {
    if ins == [] {
      CheckPoolKeeps(p, max);
    } else {
      AddScriptSigKeeps(p, max, ins[0]);
      var (q, ok) := AddScriptSig(p, ins[0]);
      if ok { SignKeeps(q, max, ins[1..]); }
    }
  }

  lemma NextKeeps(p: Pool, max: nat, step: Step)
    requires Inv(p, max) && max > 0
    ensures Inv(Next(p, max, step), max)
  {
    match step
    case DoAccept(nDenom, collateral, ok, id) => AcceptKeeps(p, max, nDenom, collateral, ok, id);
    case DoSubmit(entry, checksOk, collateralOk) => SubmitKeeps(p, max, entry, checksOk, collateralOk);
    case DoSign(ins) => SignKeeps(p, max, ins);
    case DoTimeout(timedOut) =>
    case DoCompleteQueue =>
  }

  /** In every run of messages and timeouts on a noirnode. */
  lemma {:induction false} RunKeeps(max: nat, steps: seq<Step>)
    requires max > 0
    ensures Inv(Run(max, steps), max)
  {
    if steps != [] {
      RunKeeps(max, steps[..|steps| - 1]);
      NextKeeps(Run(max, steps[..|steps| - 1]), max, steps[|steps| - 1]);
    }
  }

  // ---------- the denominations of the session ----------

  /** All entries pay what the session was started for. */
  ghost predicate Matches(p: Pool) {
    forall i :: 0 <= i < |p.entries| ==> Denominations(p.entries[i].outs) == p.denom
  }

  predicate Taken(p: Pool, max: nat, e: Entry, checksOk: bool, collateralOk: bool) {
    SessionReady(p, max) && Compatible(p, e.outs) && checksOk && CanAdd(p, max, e, collateralOk)
  }

  /** The comparison that is not made: a first entry that is taken pays what the session was started for. */
  ghost predicate FirstMatches(p: Pool, max: nat, step: Step) {
    step.DoSubmit? && p.entries == [] && Taken(p, max, step.entry, step.checksOk, step.collateralOk)
    ==> Denominations(step.entry.outs) == p.denom
  }

  lemma SubmitMatches(p: Pool, max: nat, e: Entry, checksOk: bool, collateralOk: bool)
    requires Inv(p, max) && max > 0 && Matches(p)
    ensures Matches(Submit(p, max, e, checksOk, collateralOk))
            <==> FirstMatches(p, max, DoSubmit(e, checksOk, collateralOk))
  {
    if Taken(p, max, e, checksOk, collateralOk) {
      var q := p.(entries := p.entries + [Unsigned(e)]);
      assert q.entries[|p.entries|] == Unsigned(e);
      if p.entries != [] {
        assert Denominations(p.entries[0].outs) == Denominations(e.outs);
      } else {
        assert CheckPool(q, max).entries == q.entries && CheckPool(q, max).denom == p.denom;
        assert CheckPool(q, max).entries[0] == Unsigned(e);
      }
    }
  }

  lemma {:induction false} SignMatches(p: Pool, max: nat, ins: seq<Input>)
    requires Matches(p)
    ensures Matches(Sign(p, max, ins))
    decreases |ins|
  {
    if ins != [] {
      SignEntriesSame(p.entries, ins[0]);
      var (q, ok) := AddScriptSig(p, ins[0]);
      if ok { SignMatches(q, max, ins[1..]); }
    }
  }

  /** A step keeps the match exactly when it makes the comparison hold. */
  lemma NextMatches(p: Pool, max: nat, step: Step)
    requires Inv(p, max) && max > 0 && Matches(p)
    ensures Matches(Next(p, max, step)) <==> FirstMatches(p, max, step)
  {
    match step
    case DoAccept(nDenom, collateral, ok, id) =>
    case DoSubmit(entry, checksOk, collateralOk) => SubmitMatches(p, max, entry, checksOk, collateralOk);
    case DoSign(ins) => SignMatches(p, max, ins);
    case DoTimeout(timedOut) =>
    case DoCompleteQueue =>
  }

  ghost predicate MatchesAt(max: nat, steps: seq<Step>, k: nat) {
    k <= |steps| ==> Matches(Run(max, steps[..k]))
  }

  ghost predicate FirstMatchesAt(max: nat, steps: seq<Step>, k: nat) {
    k < |steps| ==> FirstMatches(Run(max, steps[..k]), max, steps[k])
  }

  lemma RunNext(max: nat, steps: seq<Step>, k: nat)
    requires k < |steps|
    ensures Run(max, steps[..k + 1]) == Next(Run(max, steps[..k]), max, steps[k])
  {
    assert steps[..k + 1][..k] == steps[..k];
  }

  lemma {:induction false} PrefixMatches(max: nat, steps: seq<Step>, k: nat)
    requires max > 0 && k <= |steps| && forall j: nat :: FirstMatchesAt(max, steps, j)
    ensures MatchesAt(max, steps, k)
  {
    if k > 0 {
      PrefixMatches(max, steps, k - 1);
      assert FirstMatchesAt(max, steps, k - 1);
      RunKeeps(max, steps[..k - 1]);
      RunNext(max, steps, k - 1);
      NextMatches(Run(max, steps[..k - 1]), max, steps[k - 1]);
    } else {
      assert steps[..0] == [];
    }
  }

  /** Throughout a run all entries pay what their session was started for exactly when every first entry does. */
  lemma RunMatches(max: nat, steps: seq<Step>)
    requires max > 0
    ensures (forall k: nat :: MatchesAt(max, steps, k)) <==> (forall k: nat :: FirstMatchesAt(max, steps, k))
  {
    if forall k: nat :: FirstMatchesAt(max, steps, k) {
      forall k: nat ensures MatchesAt(max, steps, k) {
        if k <= |steps| { PrefixMatches(max, steps, k); }
      }
    }
    if forall k: nat :: MatchesAt(max, steps, k) {
      forall k: nat ensures FirstMatchesAt(max, steps, k) {
        if k < |steps| {
          var next := k + 1;
          assert MatchesAt(max, steps, k) && MatchesAt(max, steps, next);
          RunKeeps(max, steps[..k]);
          RunNext(max, steps, k);
          NextMatches(Run(max, steps[..k]), max, steps[k]);
        }
      }
    }
  }

  /** At any point of a run that has entries, the first decides for all. */
  lemma FirstDecides(max: nat, steps: seq<Step>)
    requires max > 0 && Run(max, steps).entries != []
    ensures Matches(Run(max, steps)) <==> Denominations(Run(max, steps).entries[0].outs) == Run(max, steps).denom
  {
    RunKeeps(max, steps);
    var p := Run(max, steps);
    forall i: nat | i < |p.entries| ensures Denominations(p.entries[i].outs) == Denominations(p.entries[0].outs) {
      assert PairOk(p.entries, 0, i);
    }
  }

  function Joins(n: nat): seq<Step> {
    seq(n, _ => DoAccept(1, 0, true, 0))
  }

  lemma {:induction false} Queued(max: nat, n: nat)
    requires 0 < n <= max
    ensures Run(max, Joins(n)) == Pool(Queue, 1, 1, seq(n, _ => 0), [], [], [])
  {
    var s := Joins(n);
    assert s[..n - 1] == Joins(n - 1);
    if n == 1 {
      assert seq(1, _ => 0) == [0];
    } else {
      Queued(max, n - 1);
      assert seq(n, _ => 0) == seq(n - 1, _ => 0) + [0];
    }
  }

  /** With any number of participants: users join for the largest denomination, and an entry with the smallest is
      taken. */
  lemma SessionDenomNotCompared(max: nat)
    requires max > 0
    ensures var e := Entry([Input(1, 0, 0, false)], [Output(DENOMINATIONS[3], 0)]);
            var p := Run(max, Joins(max) + [DoSubmit(e, true, true)]);
            p.denom == 1 && p.entries == [e] && Denominations(e.outs) != 1
  {
    var e := Entry([Input(1, 0, 0, false)], [Output(DENOMINATIONS[3], 0)]);
    var steps := Joins(max) + [DoSubmit(e, true, true)];
    assert steps[..|steps| - 1] == Joins(max);
    Queued(max, max);
    var p := Run(max, Joins(max));
    assert Run(max, steps) == Submit(p, max, e, true, true);
    assert e.outs[0].value == DENOMINATIONS[3] && e.outs[0].value in DENOMINATIONS;
    MaskMeaning(e.outs);
    assert !Uses(e.outs, DENOMINATIONS[0]);
    assert Unsigned(e) == e;
    assert Compatible(p, e.outs) && CanAdd(p, max, e, true);
    assert p.entries + [e] == [e];
  }

  // ---------- the signatures of the merged transaction ----------

  predicate SignedAt(entries: seq<Entry>, k: int, j: int) {
    0 <= k < |entries| && 0 <= j < |entries[k].ins| && entries[k].ins[j].hasSig
  }

  /** The merged input for a signed input of an entry has its signature. */
  predicate Carried(p: Pool, k: int, j: int, i: int) {
    SignedAt(p.entries, k, j) && 0 <= i < |p.vin| && SameInput(p.vin[i], p.entries[k].ins[j])
    ==> p.vin[i].scriptSig == p.entries[k].ins[j].scriptSig
  }

  ghost predicate Agrees(p: Pool) {
    forall k, j, i {:trigger Carried(p, k, j, i)} :: Carried(p, k, j, i)
  }

  /** Some entry has signed this input already. */
  ghost predicate Signed(entries: seq<Entry>, x: Input) {
    exists k, j :: SignedAt(entries, k, j) && SameInput(entries[k].ins[j], x)
  }

  lemma {:induction false} SignInsKeeps(ins: seq<Input>, x: Input)
    ensures var (r, ok) := SignIns(ins, x);
            && |r| == |ins|
            && forall j :: 0 <= j < |ins| ==>
                 r[j] == ins[j] || (!ins[j].hasSig && SameInput(ins[j], x) && r[j] == ins[j].(scriptSig := x.scriptSig, hasSig := true))
  {
    if ins != [] && !SameInput(ins[0], x) { SignInsKeeps(ins[1..], x); }
  }

  /** An input of an entry stays as it is, or is signed for the first time. */
  predicate KeptOrSigned(a: seq<Entry>, b: seq<Entry>, x: Input, k: int, j: int) {
    0 <= k < |a| && 0 <= j < |a[k].ins| ==>
      && k < |b| && |b[k].ins| == |a[k].ins|
      && (|| b[k].ins[j] == a[k].ins[j]
          || (!a[k].ins[j].hasSig && SameInput(a[k].ins[j], x)
              && b[k].ins[j] == a[k].ins[j].(scriptSig := x.scriptSig, hasSig := true)))
  }

  lemma {:induction false} SignEntriesKeeps(entries: seq<Entry>, x: Input, k: int, j: int)
    ensures KeptOrSigned(entries, SignEntries(entries, x).0, x, k, j)
  {
    if entries != [] {
      SignInsKeeps(entries[0].ins, x);
      SignEntriesKeeps(entries[1..], x, k - 1, j);
    }
  }

  lemma {:induction false} KeysHave(a: seq<Input>, i: nat)
    requires i < |a|
    ensures (a[i].prevout, a[i].sequence) in Keys(a)
  {
    var n := |a| - 1;
    if i < n { KeysHave(a[..n], i); }
  }

  lemma {:induction false} KeysFrom(a: seq<Input>, key: (nat, nat)) returns (i: nat)
    requires key in Keys(a)
    ensures i < |a| && (a[i].prevout, a[i].sequence) == key
  {
    var n := |a| - 1;
    if key == (a[n].prevout, a[n].sequence) { i := n; } else { i := KeysFrom(a[..n], key); }
  }

  lemma {:induction false} AllInsHave(entries: seq<Entry>, k: nat, j: nat)
    requires k < |entries| && j < |entries[k].ins|
    ensures entries[k].ins[j] in AllIns(entries)
  {
    var n := |entries| - 1;
    if k < n { AllInsHave(entries[..n], k, j); }
  }

  /** Every input of an entry is an input of the merged transaction. */
  lemma InMerged(p: Pool, k: nat, j: nat) returns (i: nat)
    requires Merged(p) && k < |p.entries| && j < |p.entries[k].ins|
    ensures i < |p.vin| && SameInput(p.vin[i], p.entries[k].ins[j])
  {
    var all, x := AllIns(p.entries), p.entries[k].ins[j];
    AllInsHave(p.entries, k, j);
    var n :| 0 <= n < |all| && all[n] == x;
    KeysHave(all, n);
    assert (x.prevout, x.sequence) in multiset(Keys(all));
    assert (x.prevout, x.sequence) in multiset(Keys(p.vin));
    i := KeysFrom(p.vin, (x.prevout, x.sequence));
  }

  /** While a transaction is signed, a signature keeps the merged inputs in agreement with the signed entries if and
      only if its script is there already, so that it is refused at once, or its input is not signed yet. */
  lemma AddScriptSigAgrees(p: Pool, x: Input)
    requires Merged(p) && Agrees(p)
    ensures Agrees(AddScriptSig(p, x).0) <==> HasScript(p.entries, x.scriptSig) || !Signed(p.entries, x)
  {
    if HasScript(p.entries, x.scriptSig) {
    } else if Signed(p.entries, x) {
      var k, j :| SignedAt(p.entries, k, j) && SameInput(p.entries[k].ins[j], x);
      Overwritten(p, x, k, j);
    } else {
      FirstSignature(p, x);
    }
  }

  lemma FirstSignature(p: Pool, x: Input)
    requires Agrees(p) && !Signed(p.entries, x)
    ensures Agrees(AddScriptSig(p, x).0)
  {
    var q := AddScriptSig(p, x).0;
    forall k, j, i ensures Carried(q, k, j, i) {
      SignEntriesKeeps(p.entries, x, k, j);
      SignEntriesSame(p.entries, x);
      assert Carried(p, k, j, i);
      assert SignedAt(p.entries, k, j) ==> !SameInput(p.entries[k].ins[j], x);
    }
  }

  /** A second signature of an input is refused by the entries, but not before the merged input has it. */
  lemma Overwritten(p: Pool, x: Input, k: int, j: int)
    requires Merged(p) && !HasScript(p.entries, x.scriptSig)
    requires SignedAt(p.entries, k, j) && SameInput(p.entries[k].ins[j], x)
    ensures !Agrees(AddScriptSig(p, x).0)
  {
    var q := AddScriptSig(p, x).0;
    assert Spends(p.entries[k], x.prevout);
    SignEntriesKeeps(p.entries, x, k, j);
    SignEntriesSame(p.entries, x);
    var i := InMerged(p, k, j);
    assert q.vin[i].scriptSig == x.scriptSig != p.entries[k].ins[j].scriptSig;
    assert !Carried(q, k, j, i);
  }

  /** Merging starts in agreement: no entry that was taken is signed. */
  lemma MergedAgrees(p: Pool, max: nat)
    requires p.state == AcceptingEntries && |p.entries| >= max
    requires forall k, j :: !SignedAt(p.entries, k, j)
    ensures CheckPool(p, max).state == Signing && Agrees(CheckPool(p, max))
  {
    var q := CheckPool(p, max);
    forall k, j, i ensures Carried(q, k, j, i) { assert !SignedAt(p.entries, k, j); }
  }

  /** A session of one participant whose entry has two inputs. */
  const TWO_INPUTS := Entry([Input(1, 0, 0, false), Input(2, 0, 0, false)], [Output(DENOMINATIONS[0], 0)])

  function UntilSigning(): seq<Step> {
    [DoAccept(1, 0, true, 0), DoCompleteQueue, DoSubmit(TWO_INPUTS, true, true)]
  }

  lemma RunStep(max: nat, steps: seq<Step>, step: Step)
    ensures Run(max, steps + [step]) == Next(Run(max, steps), max, step)
  {
    assert (steps + [step])[..|steps|] == steps;
  }

  lemma EntryTaken(p: Pool, e: Entry)
    requires e == TWO_INPUTS && p == Pool(AcceptingEntries, 1, 1, [0], [], [], [])
    ensures var q := Submit(p, 1, e, true, true); q.state == Signing && q.entries == [e]
  {
    assert e.outs[0].value in DENOMINATIONS;
    MaskMeaning(e.outs);
    assert Unsigned(e) == e;
    assert Compatible(p, e.outs) && CanAdd(p, 1, e, true);
    assert p.entries + [e] == [e];
  }

  lemma SigningReached()
    ensures var p := Run(1, UntilSigning()); p.state == Signing && p.entries == [TWO_INPUTS]
  {
    var a, b, c := DoAccept(1, 0, true, 0), DoCompleteQueue, DoSubmit(TWO_INPUTS, true, true);
    RunStep(1, [], a);
    RunStep(1, [a], b);
    RunStep(1, [a, b], c);
    assert [] + [a] == [a] && [a] + [b] == [a, b] && [a, b] + [c] == UntilSigning();
    EntryTaken(Run(1, [a, b]), TWO_INPUTS);
  }

  lemma FirstOfTwo(p: Pool, x: Input)
    requires p.state == Signing && p.entries == [TWO_INPUTS] && x == Input(1, 0, 5, false)
    ensures var q := Sign(p, 1, [x]);
            && q.state == Signing && |q.entries| == 1 && |q.entries[0].ins| == 2
            && q.entries[0].ins[0] == Input(1, 0, 5, true) && q.entries[0].ins[1] == Input(2, 0, 0, false)
  {
    var e := TWO_INPUTS;
    assert Spends(p.entries[0], 1) by { assert e.ins[0].prevout == 1; }
    assert !HasScript(p.entries, 5);
    assert SignIns(e.ins, x) == ([Input(1, 0, 5, true)] + e.ins[1..], true);
    var (q, ok) := AddScriptSig(p, x);
    assert ok && q.entries[0].ins == [Input(1, 0, 5, true), Input(2, 0, 0, false)];
    assert [x][1..] == [];
    assert !AllSigned(q.entries) by { assert !q.entries[0].ins[1].hasSig; }
  }

  lemma SecondOfTwo(p: Pool, y: Input)
    requires p.state == Signing && Merged(p) && |p.entries| == 1 && p.entries[0].ins != []
    requires p.entries[0].ins[0].hasSig && SameInput(p.entries[0].ins[0], y) && !HasScript(p.entries, y.scriptSig)
    ensures Sign(p, 1, [y]).state == Signing && !Agrees(Sign(p, 1, [y]))
  {
    assert SignedAt(p.entries, 0, 0);
    Overwritten(p, y, 0, 0);
    assert !SignIns(p.entries[0].ins, y).1;
    assert p.entries[1..] == [] && !SignEntries(p.entries[1..], y).1 && !SignEntries(p.entries, y).1;
    assert !AddScriptSig(p, y).1;
    assert Sign(p, 1, [y]) == AddScriptSig(p, y).0;
  }

  lemma MergedThen(max: nat, steps: seq<Step>)
    requires max > 0 && Run(max, steps).state == Signing
    ensures Merged(Run(max, steps))
  {
    RunKeeps(max, steps);
  }

  lemma TwoSigns(max: nat, steps: seq<Step>, x: Input, y: Input)
    requires max == 1 && Run(max, steps).state == Signing && Run(max, steps).entries == [TWO_INPUTS]
    requires x == Input(1, 0, 5, false) && y == Input(1, 0, 6, false)
    ensures var p := Run(max, steps + [DoSign([x])] + [DoSign([y])]); p.state == Signing && !Agrees(p)
  {
    var s1 := steps + [DoSign([x])];
    RunStep(max, steps, DoSign([x]));
    FirstOfTwo(Run(max, steps), x);
    MergedThen(max, s1);
    SecondOfTwo(Run(max, s1), y);
    RunStep(max, s1, DoSign([y]));
  }

  /** Two signatures for the first input: the second is refused, and ends up in the merged transaction. */
  lemma SecondSignature(steps: seq<Step>, x: Input, y: Input)
    requires steps == UntilSigning() && x == Input(1, 0, 5, false) && y == Input(1, 0, 6, false)
    ensures var p := Run(1, steps + [DoSign([x])] + [DoSign([y])]); p.state == Signing && !Agrees(p)
  {
    SigningReached();
    TwoSigns(1, steps, x, y);
  }
}
