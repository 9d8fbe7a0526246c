/** The mixing pool object of a noirnode, updated by the messages it gets and by the passing of time. */
module MixingPool {
  import Arithmetic
  import opened MixingSession

  class CDarksendPool {
    const nMaxTransactions: nat
    var nState: PoolState
    var nSessionID: int
    var nSessionDenom: int
    var vecSessionCollaterals: seq<nat>
    var vecEntries: seq<Entry>
    var finalVin: seq<Input>
    var finalVout: seq<Output>

    ghost function Contents(): Pool
      reads this
    {
      Pool(nState, nSessionID, nSessionDenom, vecSessionCollaterals, vecEntries, finalVin, finalVout)
    }

    ghost predicate Valid()
      reads this
    {
      nMaxTransactions > 0 && Inv(Contents(), nMaxTransactions)
    }

    constructor (nMaxTransactions: nat)
      requires nMaxTransactions > 0
      ensures Contents() == NULLED && this.nMaxTransactions == nMaxTransactions && Valid()
    {
      this.nMaxTransactions := nMaxTransactions;
      nState, nSessionID, nSessionDenom, vecSessionCollaterals, vecEntries := Idle, 0, 0, [], [];
      finalVin, finalVout := [], [];
    }

    method SetNull()
      modifies this
      ensures Contents() == NULLED
    {
      vecSessionCollaterals := [];
      nState := Idle;
      nSessionID := 0;
      nSessionDenom := 0;
      vecEntries := [];
      finalVin := [];
      finalVout := [];
    }

    /** A noirnode does not go to the error and success states. */
    method SetState(nStateNew: PoolState)
      modifies this`nState
      ensures nState == if nStateNew == Error || nStateNew == Success then old(nState) else nStateNew
    {
      if nStateNew == Error || nStateNew == Success { return; }
      nState := nStateNew;
    }

    predicate IsSessionReady()
      reads this
    {
      |vecSessionCollaterals| >= nMaxTransactions
    }

    /** The bits of the mask that are set; none when a bit above the known ones is. */
    static method GetDenominationsBits(nDenom: int) returns (ok: bool, vecBits: seq<nat>)
      ensures ok <==> LegitDenom(nDenom)
      ensures ok ==> forall i :: i in vecBits <==> 0 <= i < 4 && BitSet(nDenom, i)
    {
      vecBits := [];
      if nDenom >= 16 { return false, []; }
      for i := 0 to 4
        invariant forall k :: k in vecBits <==> 0 <= k < i && BitSet(nDenom, k)
      {
        if BitSet(nDenom, i) { vecBits := vecBits + [i]; }
      }
      LowBits(nDenom);
      ok := vecBits != [];
      if ok { assert vecBits[0] in vecBits; }
    }

    static predicate BitSet(n: int, i: nat) {
      n / Arithmetic.Pow2(i) % 2 == 1
    }

    static lemma LowBits(n: int)
      ensures n % 16 == 0 <==> forall i :: 0 <= i < 4 ==> !BitSet(n, i)
    {
      LowFour(n);
      assert Arithmetic.Pow2(1) == 2 && Arithmetic.Pow2(2) == 4 && Arithmetic.Pow2(3) == 8;
      assert BitSet(n, 0) <==> n % 2 == 1;
      assert BitSet(n, 1) <==> n / 2 % 2 == 1;
      assert BitSet(n, 2) <==> n / 4 % 2 == 1;
      assert BitSet(n, 3) <==> n / 8 % 2 == 1;
    }

    static lemma LowFour(n: int)
      ensures n % 16 == 0 <==> n % 2 == 0 && n / 2 % 2 == 0 && n / 4 % 2 == 0 && n / 8 % 2 == 0
    {
    }

    static method GetDenominations(vecTxOut: seq<Output>) returns (nDenom: nat)
      ensures nDenom == Denominations(vecTxOut)
    {
      var used: seq<bool> := [false, false, false, false];
      for i := 0 to |vecTxOut|
        invariant |used| == 4 && forall c :: 0 <= c < 4 ==> (used[c] <==> Uses(vecTxOut[..i], DENOMINATIONS[c]))
        invariant forall k :: 0 <= k < i ==> vecTxOut[k].value in DENOMINATIONS
      {
        var found, before := false, used;
        for c := 0 to 4
          invariant |used| == 4 && (found <==> exists k :: 0 <= k < c && DENOMINATIONS[k] == vecTxOut[i].value)
          invariant forall k :: 0 <= k < c ==> (used[k] <==> before[k] || vecTxOut[i].value == DENOMINATIONS[k])
          invariant forall k :: c <= k < 4 ==> used[k] == before[k]
        {
          if vecTxOut[i].value == DENOMINATIONS[c] {
            used := used[c := true];
            found := true;
          }
        }
        if !found { return 0; }
        UsesOneMore(vecTxOut, i);
      }
      assert vecTxOut[..|vecTxOut|] == vecTxOut;
      nDenom := MaskOf(vecTxOut, used);
    }

    static lemma UsesOneMore(outs: seq<Output>, i: nat)
      requires i < |outs|
      ensures forall d :: Uses(outs[..i + 1], d) <==> Uses(outs[..i], d) || outs[i].value == d
    {
      forall d ensures Uses(outs[..i + 1], d) <==> Uses(outs[..i], d) || outs[i].value == d {
        if Uses(outs[..i], d) {
          var k :| 0 <= k < i && outs[..i][k].value == d;
          assert outs[..i + 1][k].value == d;
        }
        assert outs[..i + 1][i] == outs[i];
      }
    }

    /** Shifts a bit on for each denomination that is used. */
    static method MaskOf(ghost outs: seq<Output>, used: seq<bool>) returns (nDenom: nat)
      requires |used| == 4 && forall c :: 0 <= c < 4 ==> (used[c] <==> Uses(outs, DENOMINATIONS[c]))
      ensures nDenom == MaskFrom(outs, 0)
    {
      nDenom := 0;
      var c, weight := 0, 1;
      while c < 4
        invariant 0 <= c <= 4 && nDenom + weight * MaskFrom(outs, c) == MaskFrom(outs, 0)
      {
        Weigh(weight, MaskFrom(outs, c + 1));
        if used[c] { nDenom := nDenom + weight; }
        c, weight := c + 1, weight * 2;
      }
    }

    static lemma Weigh(w: int, m: int)
      ensures w * (1 + 2 * m) == w + (w * 2) * m && w * (0 + 2 * m) == (w * 2) * m
    {
    }

    method IsOutputsCompatibleWithSessionDenom(outs: seq<Output>) returns (r: bool)
      ensures r <==> Compatible(Contents(), outs)
    {
      var mask := GetDenominations(outs);
      if mask == 0 { return false; }
      for i := 0 to |vecEntries|
        invariant forall k :: 0 <= k < i ==> Denominations(vecEntries[k].outs) == mask
      {
        var other := GetDenominations(vecEntries[i].outs);
        if mask != other { return false; }
      }
      return true;
    }

    /** Whether an outpoint is spent by an entry of the pool. */
    method FindInput(prevout: nat) returns (r: bool)
      ensures r <==> exists k :: 0 <= k < |vecEntries| && Spends(vecEntries[k], prevout)
    {
      for k := 0 to |vecEntries|
        invariant forall j :: 0 <= j < k ==> !Spends(vecEntries[j], prevout)
      {
        for i := 0 to |vecEntries[k].ins|
          invariant forall j :: 0 <= j < i ==> vecEntries[k].ins[j].prevout != prevout
        {
          if vecEntries[k].ins[i].prevout == prevout { return true; }
        }
      }
      return false;
    }

    method AddEntry(e: Entry, collateralOk: bool) returns (ok: bool)
      modifies this`vecEntries
      ensures ok <==> CanAdd(old(Contents()), nMaxTransactions, e, collateralOk)
      ensures vecEntries == if ok then old(vecEntries) + [Unsigned(e)] else old(vecEntries)
    {
      for i := 0 to |e.ins|
        invariant forall k :: 0 <= k < i ==> e.ins[k].prevout != NULL_OUTPOINT
        invariant vecEntries == old(vecEntries)
      {
        if e.ins[i].prevout == NULL_OUTPOINT { return false; }
      }
      if !collateralOk { return false; }
      if |vecEntries| >= nMaxTransactions { return false; }
      for i := 0 to |e.ins|
        invariant forall j, k :: 0 <= j < i && 0 <= k < |vecEntries| ==> !Spends(vecEntries[k], e.ins[j].prevout)
        invariant vecEntries == old(vecEntries)
      {
        var found := FindInput(e.ins[i].prevout);
        if found {
          var k :| 0 <= k < |vecEntries| && Spends(vecEntries[k], e.ins[i].prevout);
          assert !Disjoint(e, vecEntries[k]);
          return false;
        }
      }
      vecEntries := vecEntries + [Unsigned(e)];
      ok := true;
    }

    method IsSignaturesComplete() returns (r: bool)
      ensures r <==> AllSigned(vecEntries)
    {
      for i := 0 to |vecEntries|
        invariant forall j, k :: 0 <= j < i && 0 <= k < |vecEntries[j].ins| ==> vecEntries[j].ins[k].hasSig
      {
        for k := 0 to |vecEntries[i].ins|
          invariant forall m :: 0 <= m < k ==> vecEntries[i].ins[m].hasSig
        {
          if !vecEntries[i].ins[k].hasSig { return false; }
        }
      }
      return true;
    }

    method CreateFinalTransaction()
      modifies this
      ensures Contents() == old(Contents()).(vin := Sort(AllIns(old(vecEntries)), InputOrder()),
                                             vout := Sort(AllOuts(old(vecEntries)), OutputOrder()), state := Signing)
    {
      var vin: seq<Input>, vout: seq<Output> := [], [];
      for i := 0 to |vecEntries|
        invariant vin == AllIns(vecEntries[..i]) && vout == AllOuts(vecEntries[..i])
        invariant Contents() == old(Contents())
      {
        assert vecEntries[..i + 1][..i] == vecEntries[..i];
        vout := vout + vecEntries[i].outs;
        vin := vin + vecEntries[i].ins;
      }
      assert vecEntries[..|vecEntries|] == vecEntries;
      finalVin := Sort(vin, InputOrder());
      finalVout := Sort(vout, OutputOrder());
      SetState(Signing);
    }

    /** Whether the merged transaction is accepted or not, the session is over. */
    method CommitFinalTransaction(accepted: bool)
      modifies this
      ensures Contents() == NULLED
    {
      if !accepted {
        SetNull();
        return;
      }
      SetNull();
    }

    method CheckPool(accepted: bool)
      requires Valid()
      modifies this
      ensures Contents() == MixingSession.CheckPool(old(Contents()), nMaxTransactions) && Valid()
    {
      CheckPoolKeeps(Contents(), nMaxTransactions);
      if nState == AcceptingEntries && |vecEntries| >= nMaxTransactions {
        CreateFinalTransaction();
        return;
      }
      var complete := IsSignaturesComplete();
      if nState == Signing && complete {
        CommitFinalTransaction(accepted);
        return;
      }
    }

    /** A user asks to join. The first one is refused while this noirnode's last queue is too recent, or when it does
        not know itself. */
    method ProcessAccept(nDenom: int, txCollateral: nat, collateralOk: bool, random: nat, known: bool, tooRecent: bool)
      returns (ok: bool)
      requires Valid()
      modifies this
      ensures Valid()
      ensures Contents() == if !known || (tooRecent && old(vecSessionCollaterals) == []) then old(Contents())
                            else Accept(old(Contents()), nMaxTransactions, nDenom, txCollateral, collateralOk, random)
    {
      AcceptKeeps(Contents(), nMaxTransactions, nDenom, txCollateral, collateralOk, random);
      if IsSessionReady() { return false; }
      if !known { return false; }
      if |vecSessionCollaterals| == 0 && tooRecent { return false; }
      if nSessionID == 0 {
        ok := CreateNewSession(nDenom, txCollateral, collateralOk, random);
      } else {
        ok := AddUserToExistingSession(nDenom, txCollateral, collateralOk);
      }
    }

    method CreateNewSession(nDenom: int, txCollateral: nat, collateralOk: bool, random: nat) returns (ok: bool)
      requires nSessionID == 0
      modifies this
      ensures ok <==> old(nState) == Idle && LegitDenom(nDenom) && collateralOk
      ensures Contents() == if !ok then old(Contents()) else
                old(Contents()).(sessionID := random + 1, denom := nDenom, state := Queue,
                                 collaterals := old(vecSessionCollaterals) + [txCollateral])
    {
      if nState != Idle { return false; }
      var legit, bits := GetDenominationsBits(nDenom);
      if !legit || !collateralOk { return false; }
      nSessionID := random + 1;
      nSessionDenom := nDenom;
      SetState(Queue);
      vecSessionCollaterals := vecSessionCollaterals + [txCollateral];
      ok := true;
    }

    method AddUserToExistingSession(nDenom: int, txCollateral: nat, collateralOk: bool) returns (ok: bool)
      requires nSessionID != 0
      modifies this`vecSessionCollaterals
      ensures ok <==> old(!IsSessionReady()) && LegitDenom(nDenom) && collateralOk && nState == Queue && nDenom == nSessionDenom
      ensures vecSessionCollaterals == if ok then old(vecSessionCollaterals) + [txCollateral] else old(vecSessionCollaterals)
    {
      if IsSessionReady() { return false; }
      var legit, bits := GetDenominationsBits(nDenom);
      if !legit || !collateralOk { return false; }
      if nState != Queue { return false; }
      if nDenom != nSessionDenom { return false; }
      vecSessionCollaterals := vecSessionCollaterals + [txCollateral];
      ok := true;
    }

    /** A user submits an entry. */
    method ProcessVin(e: Entry, checksOk: bool, collateralOk: bool, accepted: bool)
      requires Valid()
      modifies this
      ensures Contents() == Submit(old(Contents()), nMaxTransactions, e, checksOk, collateralOk) && Valid()
    {
      SubmitKeeps(Contents(), nMaxTransactions, e, checksOk, collateralOk);
      if !IsSessionReady() { return; }
      var compatible := IsOutputsCompatibleWithSessionDenom(e.outs);
      if !compatible || !checksOk { return; }
      AddKeeps(Contents(), nMaxTransactions, e, collateralOk);
      var added := AddEntry(e, collateralOk);
      if added {
        CheckPool(accepted);
      } else {
        SetNull();
      }
    }

    static lemma AddKeeps(p: Pool, max: nat, e: Entry, collateralOk: bool)
      requires Inv(p, max) && SessionReady(p, max) && Compatible(p, e.outs)
      ensures CanAdd(p, max, e, collateralOk) ==> Inv(p.(entries := p.entries + [Unsigned(e)]), max)
    {
      if CanAdd(p, max, e, collateralOk) {
        var q := p.(entries := p.entries + [Unsigned(e)]);
        UnsignedIs(e);
        forall i: nat, k: nat ensures PairOk(q.entries, i, k) { assert PairOk(p.entries, i, k); }
      }
    }

    method CheckTimeout(timedOut: bool)
      requires Valid()
      modifies this
      ensures Contents() == Timeout(old(Contents()), timedOut) && Valid()
    {
      if nState != Idle && timedOut {
        SetNull();
        SetState(Error);
      }
    }

    method CheckForCompleteQueue()
      requires Valid()
      modifies this
      ensures Contents() == CompleteQueue(old(Contents()), nMaxTransactions) && Valid()
    {
      if nState == Queue && IsSessionReady() {
        SetState(AcceptingEntries);
      }
    }
  
    method HasScriptSig(scriptSig: nat) returns (r: bool)
      ensures r <==> HasScript(vecEntries, scriptSig)
    {
      for i := 0 to |vecEntries|
        invariant forall j, k :: 0 <= j < i && 0 <= k < |vecEntries[j].ins| ==> vecEntries[j].ins[k].scriptSig != scriptSig
      {
        for k := 0 to |vecEntries[i].ins|
          invariant forall m :: 0 <= m < k ==> vecEntries[i].ins[m].scriptSig != scriptSig
        {
          if vecEntries[i].ins[k].scriptSig == scriptSig { return true; }
        }
      }
      return false;
    }

    /** The first input of an entry that matches. */
    static method AddToEntry(e: Entry, txin: Input) returns (f: Entry, ok: bool)
      ensures f == Entry(SignIns(e.ins, txin).0, e.outs) && ok == SignIns(e.ins, txin).1
    {
      var i := 0;
      while i < |e.ins| && !SameInput(e.ins[i], txin)
        invariant 0 <= i <= |e.ins| && forall k :: 0 <= k < i ==> !SameInput(e.ins[k], txin)
      {
        i := i + 1;
      }
      SignInsAt(e.ins, txin, i);
      if i == |e.ins| || e.ins[i].hasSig { return e, false; }
      return Entry(e.ins[i := e.ins[i].(scriptSig := txin.scriptSig, hasSig := true)], e.outs), true;
    }

    static lemma {:induction false} SignInsAt(ins: seq<Input>, x: Input, i: nat)
      requires i <= |ins| && (forall k :: 0 <= k < i ==> !SameInput(ins[k], x)) && (i < |ins| ==> SameInput(ins[i], x))
      ensures SignIns(ins, x) == if i == |ins| || ins[i].hasSig then (ins, false)
                                 else (ins[i := ins[i].(scriptSig := x.scriptSig, hasSig := true)], true)
    {
      if i < |ins| {
        var y := ins[i].(scriptSig := x.scriptSig, hasSig := true);
        assert ins[i := y] == if i == 0 then [y] + ins[1..] else [ins[0]] + ins[1..][i - 1 := y];
      }
      if i > 0 {
        SignInsAt(ins[1..], x, i - 1);
        assert ins == [ins[0]] + ins[1..];
      }
    }

    static lemma {:induction false} SignEntriesAt(s: seq<Entry>, x: Input, i: nat)
      requires i <= |s| && (forall k :: 0 <= k < i ==> !SignIns(s[k].ins, x).1) && (i < |s| ==> SignIns(s[i].ins, x).1)
      ensures SignEntries(s, x) == if i == |s| then (s, false)
                                   else (s[i := Entry(SignIns(s[i].ins, x).0, s[i].outs)], true)
    {
      if i < |s| {
        var y := Entry(SignIns(s[i].ins, x).0, s[i].outs);
        assert s[i := y] == if i == 0 then [y] + s[1..] else [s[0]] + s[1..][i - 1 := y];
      }
      if i > 0 {
        SignEntriesAt(s[1..], x, i - 1);
        assert s == [s[0]] + s[1..];
      }
    }

    method AddScriptSig(txin: Input) returns (ok: bool)
      modifies this`vecEntries, this`finalVin
      ensures (Contents(), ok) == MixingSession.AddScriptSig(old(Contents()), txin)
    {
      var known := HasScriptSig(txin.scriptSig);
      if known { return false; }
      var found := FindInput(txin.prevout);
      if !found { return false; }
      finalVin := SignVin(finalVin, txin);
      ok := SignFirstEntry(txin);
    }

    method SignFirstEntry(txin: Input) returns (ok: bool)
      modifies this`vecEntries
      ensures (vecEntries, ok) == SignEntries(old(vecEntries), txin)
    {
      for i := 0 to |vecEntries|
        invariant vecEntries == old(vecEntries) && forall k :: 0 <= k < i ==> !SignIns(vecEntries[k].ins, txin).1
      {
        var e, signed := AddToEntry(vecEntries[i], txin);
        if signed {
          SignEntriesAt(vecEntries, txin, i);
          vecEntries := vecEntries[i := e];
          return true;
        }
      }
      SignEntriesAt(vecEntries, txin, |vecEntries|);
      ok := false;
    }

    /** Users send their signatures of the merged transaction. */
    method ProcessSignFinal(vecTxIn: seq<Input>, accepted: bool)
      requires Valid()
      modifies this
      ensures Contents() == Sign(old(Contents()), nMaxTransactions, vecTxIn) && Valid()
    {
      ghost var all := Sign(Contents(), nMaxTransactions, vecTxIn);
      assert vecTxIn[0..] == vecTxIn;
      for i := 0 to |vecTxIn|
        invariant Valid() && all == Sign(Contents(), nMaxTransactions, vecTxIn[i..])
      {
        assert vecTxIn[i..][0] == vecTxIn[i] && vecTxIn[i..][1..] == vecTxIn[i + 1..];
        AddScriptSigKeeps(Contents(), nMaxTransactions, vecTxIn[i]);
        var ok := AddScriptSig(vecTxIn[i]);
        if !ok { return; }
      }
      CheckPool(accepted);
    }
  }
}
