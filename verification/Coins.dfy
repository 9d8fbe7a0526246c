/**
 The unspent outputs of one transaction. Spent outputs are null, and null outputs
 at the end are dropped; a record all of whose outputs are null is pruned, and
 means the same as no record at all.
 */
module Coins {
  import opened Arithmetic

  type Amount = int

  datatype TxOut = TxOut(value: Amount, script: seq<Byte>)

  /** A null output has the amount -1 and an empty script. */
  const NULL_OUT := TxOut(-1, [])

  predicate IsNull(o: TxOut) {
    o.value == -1
  }

  datatype CoinRecord = CoinRecord(coinBase: bool, vout: seq<TxOut>, height: int, version: int)

  const CLEARED := CoinRecord(false, [], 0, 0)

  predicate IsPruned(c: CoinRecord) {
    forall i :: 0 <= i < |c.vout| ==> IsNull(c.vout[i])
  }

  predicate IsAvailable(c: CoinRecord, n: nat) {
    n < |c.vout| && !IsNull(c.vout[n])
  }

  predicate IsTrimmed(c: CoinRecord) {
    c.vout != [] ==> !IsNull(c.vout[|c.vout| - 1])
  }

  function TrimOuts(vout: seq<TxOut>): (r: seq<TxOut>)
    ensures r <= vout
    ensures r != [] ==> !IsNull(r[|r| - 1])
    ensures forall i :: |r| <= i < |vout| ==> IsNull(vout[i])
  {
    if vout != [] && IsNull(vout[|vout| - 1]) then TrimOuts(vout[..|vout| - 1]) else vout
  }

  function Trim(c: CoinRecord): CoinRecord {
    c.(vout := TrimOuts(c.vout))
  }

  /** Dropping null outputs at the end changes no output's availability, and a trimmed
      record is pruned exactly when it has no outputs. */
  lemma TrimMeaning(c: CoinRecord)
    ensures IsTrimmed(Trim(c))
    ensures IsPruned(Trim(c)) <==> IsPruned(c)
    ensures IsTrimmed(c) ==> Trim(c) == c && (IsPruned(c) <==> c.vout == [])
    ensures forall n: nat :: IsAvailable(Trim(c), n) <==> IsAvailable(c, n)
  {
    var t := Trim(c);
    forall n: nat ensures IsAvailable(t, n) <==> IsAvailable(c, n) {
      if n < |t.vout| { assert t.vout[n] == c.vout[n]; }
    }
    assert forall i :: 0 <= i < |t.vout| ==> t.vout[i] == c.vout[i];
    if IsTrimmed(c) && c.vout != [] {
      assert !IsNull(c.vout[|c.vout| - 1]);
    }
  }

  /** Cleanup, as the loop that pops null outputs off the end. */
  method Cleanup(c: CoinRecord) returns (r: CoinRecord)
    ensures r == Trim(c)
  {
    var vout := c.vout;
    while 0 < |vout| && IsNull(vout[|vout| - 1])
      invariant TrimOuts(vout) == TrimOuts(c.vout)
    {
      vout := vout[..|vout| - 1];
    }
    r := c.(vout := vout);
  }

  /** Marks an output spent; fails when it is not there or already spent. */
  method Spend(c: CoinRecord, n: nat) returns (ok: bool, r: CoinRecord)
    ensures ok <==> IsAvailable(c, n)
    ensures !ok ==> r == c
    ensures ok ==> !IsAvailable(r, n) && IsTrimmed(r)
    ensures ok ==> forall k: nat :: k != n ==> (IsAvailable(r, k) <==> IsAvailable(c, k))
    ensures ok ==> forall k: nat :: k != n && IsAvailable(c, k) ==> IsAvailable(r, k) && r.vout[k] == c.vout[k]
  {
    if n >= |c.vout| || IsNull(c.vout[n]) {
      return false, c;
    }
    var spent := c.(vout := c.vout[n := NULL_OUT]);
    TrimMeaning(spent);
    r := Cleanup(spent);
    ok := true;
    assert forall k: nat :: IsAvailable(r, k) <==> IsAvailable(spent, k);
    assert forall k: nat :: k != n ==> (IsAvailable(spent, k) <==> IsAvailable(c, k));
  }
}
