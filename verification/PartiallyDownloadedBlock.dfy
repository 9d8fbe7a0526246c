/** Receiving a compact block: the slots filled step by step, and the codec of the request for missing ones. */
module PartiallyDownloadedBlock {
  import opened Arithmetic
  import opened Wrappers
  import opened CompactBlocks

  datatype ReadStatus = StatusOk | StatusInvalid | StatusFailed | StatusCheckBlockFailed

  /** What becomes of a call: it returns a status, or comes back to a state that it was in. */
  datatype Outcome = Ends(status: ReadStatus) | NeverEnds

  /** Slots bound to the first ids, with the next place to look for an empty one. */
  ghost predicate Binding(slots: Slots, ids: seq<nat>, k: nat, place: nat, bound: map<nat, nat>) {
    && k <= |ids| == |Free(slots)| && place <= |slots|
    && |Free(slots[..place])| == k
    && bound == Bind(ids[..k], Narrow(Free(slots))[..k])
  }

  /** There is an empty slot left for each id that is not bound yet. */
  lemma SlotLeft(slots: Slots, ids: seq<nat>, k: nat, place: nat, bound: map<nat, nat>)
    requires Binding(slots, ids, k, place, bound) && k < |ids|
    ensures place < |slots|
  {
    assert slots[..|slots|] == slots;
  }

  lemma PassSlot(slots: Slots, place: nat)
    requires place < |slots|
    ensures |Free(slots[..place + 1])| == |Free(slots[..place])| + if slots[place].None? then 1 else 0
    ensures slots[place].None? ==> |Free(slots[..place])| < |Free(slots)| && Free(slots)[|Free(slots[..place])|] == place
  {
    assert slots[..place + 1][..place] == slots[..place];
    FreePrefix(slots, place + 1);
  }

  lemma BindNext(slots: Slots, ids: seq<nat>, k: nat, place: nat, bound: map<nat, nat>)
    requires Binding(slots, ids, k, place, bound) && k < |ids| && place < |slots| && slots[place].None?
    ensures Binding(slots, ids, k + 1, place + 1, bound[ids[k] := place % (UINT16_MAX + 1)])
  {
    PassSlot(slots, place);
    var free := Narrow(Free(slots));
    assert ids[..k + 1][..k] == ids[..k] && free[..k + 1][..k] == free[..k];
  }

  /** The slots passed over are taken ones, so that counting them does not go beyond sixteen bits. */
  lemma PassTaken(slots: Slots, ids: seq<nat>, k: nat, place: nat, bound: map<nat, nat>)
    requires Binding(slots, ids, k, place, bound) && k < |ids| && place < |slots| && slots[place].Some?
    requires |slots| - |ids| <= UINT16_MAX
    ensures Binding(slots, ids, k, place + 1, bound) && place + 1 < |slots| && place + 1 - k <= UINT16_MAX
  {
    PassSlot(slots, place);
    SlotLeft(slots, ids, k, place + 1, bound);
    FreeTail(slots, place + 1);
  }

  lemma OffsetFits(slots: Slots, ids: seq<nat>, k: nat, place: nat, bound: map<nat, nat>)
    requires Binding(slots, ids, k, place, bound)
    ensures place - k <= |slots| - |ids|
  {
    FreeTail(slots, place);
  }

  /** Counting in sixteen bits. */
  function Next16(n: nat): nat {
    (n + 1) % (UINT16_MAX + 1)
  }

  lemma Next16Small(n: nat)
    requires n + 1 <= UINT16_MAX
    ensures Next16(n) == n + 1
  {
  }

  lemma NarrowWithin(slots: Slots, ids: seq<nat>)
    requires |Free(slots)| == |ids|
    ensures forall id :: id in Bind(ids, Narrow(Free(slots))) ==> Bind(ids, Narrow(Free(slots)))[id] < |slots|
  {
    BindValues(ids, Narrow(Free(slots)));
  }

  class PartialBlock {
    var txn_available: Slots
    var prefilled_count: nat
    var mempool_count: int
    /** The largest number of transactions that a block has room for. */
    const maxCount: nat
    const isNull: Tx -> bool
    const short: Tx -> nat

    constructor (maxCount: nat, isNull: Tx -> bool, short: Tx -> nat)
      ensures txn_available == [] && mempool_count == 0 && this.maxCount == maxCount
      ensures this.isNull == isNull && this.short == short
    {
      this.maxCount, this.isNull, this.short := maxCount, isNull, short;
      txn_available, prefilled_count, mempool_count := [], 0, 0;
    }

    /** Puts the prefilled transactions in their slots. */
    method TakePrefilled(m: Message) returns (ok: bool)
      requires |txn_available| == |m.shorttxids| + |m.prefilledtxn|
      requires txn_available == NoSlots(|txn_available|)
      modifies this`txn_available
      ensures ok <==> EntriesOk(m, isNull)
      ensures ok ==> txn_available == Base(m)
    {
      var lastprefilledindex := -1;
      ghost var p, n := m.prefilledtxn, |txn_available|;
      for i := 0 to |m.prefilledtxn|
        invariant forall k: nat :: k < i ==> EntryOk(m, isNull, k)
        invariant -1 <= lastprefilledindex == LastIndex(p[..i])
        invariant |txn_available| == n && txn_available == Prefill(NoSlots(n), p[..i])
      {
        assert p[..i + 1][..i] == p[..i];
        if isNull(m.prefilledtxn[i].tx) {
          assert !EntryOk(m, isNull, i);
          return false;
        }
        lastprefilledindex := lastprefilledindex + m.prefilledtxn[i].index + 1;
        assert lastprefilledindex == Position(p, i);
        if lastprefilledindex > UINT16_MAX || lastprefilledindex > |m.shorttxids| + i {
          assert !EntryOk(m, isNull, i);
          return false;
        }
        txn_available := txn_available[lastprefilledindex := Some(m.prefilledtxn[i].tx)];
      }
      assert p[..|p|] == p;
      ok := true;
    }

    /** Moves on to the next empty slot. When all that a sixteen-bit offset reaches are taken, the offset comes back to
        where it was, and the search does not end. */
    method SkipTaken(ghost ids: seq<nat>, i: nat, start: nat, ghost bound: map<nat, nat>)
      returns (ends: bool, index_offset: nat)
      requires Binding(txn_available, ids, i, i + start, bound) && i < |ids|
      requires |txn_available| - |ids| <= UINT16_MAX || (Blocked(txn_available) && i == 0 && start == 0)
      ensures ends <==> |txn_available| - |ids| <= UINT16_MAX
      ensures ends ==> Binding(txn_available, ids, i, i + index_offset, bound)
      ensures ends ==> i + index_offset < |txn_available| && txn_available[i + index_offset].None?
    {
      ghost var fits := |txn_available| - |ids| <= UINT16_MAX;
      index_offset := start;
      SlotLeft(txn_available, ids, i, i + index_offset, bound);
      OffsetFits(txn_available, ids, i, i + index_offset, bound);
      var passed := 0;
      while txn_available[i + index_offset].Some? && passed <= UINT16_MAX
        invariant i + index_offset < |txn_available| && 0 <= passed <= UINT16_MAX + 1
        invariant fits ==> Binding(txn_available, ids, i, i + index_offset, bound)
        invariant fits ==> index_offset == start + passed <= UINT16_MAX
        invariant !fits ==> index_offset == if passed <= UINT16_MAX then passed else 0
        decreases UINT16_MAX + 1 - passed
      {
        if fits {
          PassTaken(txn_available, ids, i, i + index_offset, bound);
          Next16Small(index_offset);
        }
        index_offset := Next16(index_offset);
        passed := passed + 1;
      }
      ends := txn_available[i + index_offset].None?;
    }

    method BindOne(ids: seq<nat>, i: nat, start: nat, was: map<nat, nat>)
      returns (ends: bool, index_offset: nat, bound: map<nat, nat>)
      requires Binding(txn_available, ids, i, i + start, was) && i < |ids|
      requires |txn_available| - |ids| <= UINT16_MAX || (Blocked(txn_available) && i == 0 && start == 0)
      ensures ends <==> |txn_available| - |ids| <= UINT16_MAX
      ensures ends ==> Binding(txn_available, ids, i + 1, i + 1 + index_offset, bound)
    {
      bound := was;
      ends, index_offset := SkipTaken(ids, i, start, bound);
      if ends {
        BindNext(txn_available, ids, i, i + index_offset, bound);
        bound := bound[ids[i] := (i + index_offset) % (UINT16_MAX + 1)];
      }
    }

    /** Binds each short id to the next empty slot; fails on a repeated id, or when the surroundings say that the
        ids are spread too unevenly. */
    method BindIds(ids: seq<nat>, uneven: nat -> bool) returns (ends: bool, ok: bool, bound: map<nat, nat>)
      requires |Free(txn_available)| == |ids|
      requires ids != [] ==> |txn_available| - |ids| <= UINT16_MAX || Blocked(txn_available)
      ensures ends <==> ids == [] || |txn_available| - |ids| <= UINT16_MAX
      ensures ends ==> (ok <==> Distinct(ids) && forall i :: 0 <= i < |ids| ==> !uneven(i))
      ensures ends && ok ==> bound == Bind(ids, Narrow(Free(txn_available)))
    {
      ends, ok, bound := true, false, map[];
      var index_offset := 0;
      for i := 0 to |ids|
        invariant index_offset >= 0 && Binding(txn_available, ids, i, i + index_offset, bound)
        invariant i > 0 ==> |txn_available| - |ids| <= UINT16_MAX
        invariant i == 0 ==> index_offset == 0
        invariant ends && !ok && forall k :: 0 <= k < i ==> !uneven(k)
      {
        ends, index_offset, bound := BindOne(ids, i, index_offset, bound);
        if !ends || uneven(i) { return; }
      }
      ghost var free := Narrow(Free(txn_available));
      assert ids[..|ids|] == ids && free[..|ids|] == free;
      BindSize(ids, free);
      ok := |bound| == |ids|;
    }

    /** Looks for pool transactions that the bound ids stand for, until all slots are filled. */
    method SearchPool(bound: map<nat, nat>, vTxHashes: seq<Tx>) returns (ghost seen: nat)
      requires mempool_count == 0 && forall id :: id in bound ==> bound[id] < |txn_available|
      modifies this`txn_available, this`mempool_count
      ensures seen <= |vTxHashes|
      ensures Bound(old(txn_available), bound) && |Free(old(txn_available))| == |bound| ==>
                && (exists have: set<nat> ::
                      Found(Search(txn_available, have, mempool_count), old(txn_available), bound, vTxHashes[..seen], short))
                && (seen < |vTxHashes| ==> Free(txn_available) == [])
    {
      var have: set<nat> := {};
      ghost var base := txn_available;
      ghost var s := Search(base, have, 0);
      ghost var good := Bound(base, bound) && |Free(base)| == |bound|;
      seen := 0;
      if good {
        forall id | id in bound ensures FoundFor(s, bound, id, Matches(vTxHashes[..0], short, id)) { }
      }
      for i := 0 to |vTxHashes|
        invariant seen == i && s == Search(txn_available, have, mempool_count) && |txn_available| == |base|
        invariant good ==> Found(s, base, bound, vTxHashes[..i], short)
      {
        var tx := vTxHashes[i];
        if good { SeeFinds(s, base, bound, vTxHashes[..i], short, tx); }
        assert vTxHashes[..i + 1] == vTxHashes[..i] + [tx];
        s := See(s, bound, short(tx), tx);
        have := Match(bound, have, tx);
        seen := i + 1;
        if mempool_count == |bound| { return; }
      }
    }

    /** One pool transaction. */
    method Match(bound: map<nat, nat>, have: set<nat>, tx: Tx) returns (have': set<nat>)
      requires forall id :: id in bound ==> bound[id] < |txn_available|
      modifies this`txn_available, this`mempool_count
      ensures Search(txn_available, have', mempool_count)
           == See(Search(old(txn_available), have, old(mempool_count)), bound, short(tx), tx)
    {
      have' := have;
      var shortid := short(tx);
      if shortid in bound {
        var k := bound[shortid];
        if k !in have {
          txn_available := txn_available[k := Some(tx)];
          have' := have + {k};
          mempool_count := mempool_count + 1;
        } else if txn_available[k].Some? {
          txn_available := txn_available[k := None];
          mempool_count := mempool_count - 1;
        }
      }
    }

    /** Accepts a message only when its prefilled transactions and short ids together account for every slot, and
        then, when there are at most 65536 slots, fills those that the prefilled and pool transactions determine. */
    method InitData(m: Message, headerIsNull: bool, uneven: nat -> bool, vTxHashes: seq<Tx>)
      returns (r: Outcome, ghost seen: nat)
      requires txn_available == [] && mempool_count == 0
      modifies this
      ensures r == Ends(StatusInvalid) <==> Invalid(m, headerIsNull)
      ensures r == NeverEnds <==>
              !Invalid(m, headerIsNull) && m.shorttxids != [] && |m.prefilledtxn| == UINT16_MAX + 1
      ensures r == Ends(StatusFailed) <==>
              && !Invalid(m, headerIsNull) && r != NeverEnds
              && (!Distinct(m.shorttxids) || exists i :: 0 <= i < |m.shorttxids| && uneven(i))
      ensures r == Ends(StatusOk) ==> seen <= |vTxHashes|
      ensures r == Ends(StatusOk) && |m.shorttxids| + |m.prefilledtxn| <= UINT16_MAX + 1 ==>
              && Initialised(txn_available, m, isNull, short, vTxHashes[..seen])
              && (seen < |vTxHashes| ==> Free(txn_available) == [])
      ensures r != Ends(StatusCheckBlockFailed)
    {
      seen := 0;
      if headerIsNull || (|m.shorttxids| == 0 && |m.prefilledtxn| == 0) { return Ends(StatusInvalid), 0; }
      if |m.shorttxids| + |m.prefilledtxn| > maxCount { return Ends(StatusInvalid), 0; }
      txn_available := NoSlots(|m.shorttxids| + |m.prefilledtxn|);
      var ok := TakePrefilled(m);
      if !ok { return Ends(StatusInvalid), 0; }
      prefilled_count := |m.prefilledtxn|;
      BaseFree(m, isNull);
      if m.shorttxids != [] { SearchEnds(m, isNull); }
      var ends, bound;
      ends, ok, bound := BindIds(m.shorttxids, uneven);
      if !ends { return NeverEnds, 0; }
      if !ok { return Ends(StatusFailed), 0; }
      NarrowCount(m, isNull);
      NarrowWithin(Base(m), m.shorttxids);
      seen := SearchPool(bound, vTxHashes);
      if |m.shorttxids| + |m.prefilledtxn| <= UINT16_MAX + 1 {
        BoundToFree(Base(m), m.shorttxids);
        BindSize(m.shorttxids, Free(Base(m)));
        ghost var have: set<nat> :|
          Found(Search(txn_available, have, mempool_count), Base(m), bound, vTxHashes[..seen], short);
        SearchInitialises(Search(txn_available, have, mempool_count), m, isNull, short, vTxHashes[..seen]);
      }
      return Ends(StatusOk), seen;
    }

    /** The messages that are refused at once. */
    predicate Invalid(m: Message, headerIsNull: bool) {
      || headerIsNull || (m.shorttxids == [] && m.prefilledtxn == [])
      || |m.shorttxids| + |m.prefilledtxn| > maxCount || !EntriesOk(m, isNull)
    }

    method IsTxAvailable(index: nat) returns (r: bool)
      requires index < |txn_available|
      ensures r <==> index !in Free(txn_available)
    {
      FreeOrdered(txn_available);
      r := txn_available[index].Some?;
    }

    /** The block, when as many transactions are given as slots are empty and the block check passes. */
    method FillBlock(vtx_missing: seq<Tx>, checks: seq<Tx> -> bool, corrupt: bool) returns (status: ReadStatus, vtx: seq<Tx>)
      ensures status == StatusInvalid <==> |vtx_missing| != |Free(txn_available)|
      ensures status != StatusInvalid ==> Fill(txn_available, vtx_missing) == Some(vtx)
      ensures status == StatusOk <==> |vtx_missing| == |Free(txn_available)| && checks(vtx)
      ensures status == StatusFailed <==> |vtx_missing| == |Free(txn_available)| && !checks(vtx) && corrupt
      ensures status == StatusCheckBlockFailed <==> |vtx_missing| == |Free(txn_available)| && !checks(vtx) && !corrupt
    {
      FillNeeds(txn_available, vtx_missing);
      vtx := [];
      var tx_missing_offset := 0;
      for i := 0 to |txn_available|
        invariant tx_missing_offset <= |vtx_missing| && tx_missing_offset == |Free(txn_available[..i])|
        invariant Fill(txn_available[..i], vtx_missing[..tx_missing_offset]) == Some(vtx)
      {
        PassSlot(txn_available, i);
        FillNext(txn_available, vtx_missing, i, tx_missing_offset, vtx);
        if txn_available[i].None? {
          if |vtx_missing| <= tx_missing_offset { return StatusInvalid, []; }
          vtx := vtx + [vtx_missing[tx_missing_offset]];
          tx_missing_offset := tx_missing_offset + 1;
        } else {
          vtx := vtx + [txn_available[i].value];
        }
      }
      assert txn_available[..|txn_available|] == txn_available;
      if |vtx_missing| != tx_missing_offset { return StatusInvalid, []; }
      assert vtx_missing[..tx_missing_offset] == vtx_missing;
      if !checks(vtx) {
        return if corrupt then StatusFailed else StatusCheckBlockFailed, vtx;
      }
      return StatusOk, vtx;
    }
  }
}
