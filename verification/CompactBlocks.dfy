/**
 Compact blocks: which slot of a block each prefilled transaction and each
 short id of a message stands for, and how a block is put together again.
 */
module CompactBlocks {
  import opened Arithmetic
  import opened Wrappers

  type Tx = nat
  type Slots = seq<Option<Tx>>

  /** A transaction sent in full, with the number of slots skipped since the one before. */
  datatype Prefilled = Prefilled(index: nat, tx: Tx)
  datatype Message = Message(shorttxids: seq<nat>, prefilledtxn: seq<Prefilled>)

  /** The slot of the last prefilled transaction. */
  function LastIndex(p: seq<Prefilled>): int {
    if p == [] then -1 else LastIndex(p[..|p| - 1]) + p[|p| - 1].index + 1
  }

  /** The slot of a prefilled transaction. */
  function Position(p: seq<Prefilled>, i: nat): int
    requires i < |p|
  {
    LastIndex(p[..i + 1])
  }

  /** A prefilled transaction leaves no slot that neither it, an earlier one nor a short id could fill. */
  predicate EntryOk(m: Message, isNull: Tx -> bool, i: nat)
    requires i < |m.prefilledtxn|
  {
    && !isNull(m.prefilledtxn[i].tx)
    && Position(m.prefilledtxn, i) <= UINT16_MAX
    && Position(m.prefilledtxn, i) <= |m.shorttxids| + i
  }

  predicate EntriesOk(m: Message, isNull: Tx -> bool) {
    forall i: nat :: i < |m.prefilledtxn| ==> EntryOk(m, isNull, i)
  }

  function NoSlots(n: nat): Slots {
    seq(n, _ => None)
  }

  /** The slots that the prefilled transactions take. */
  function Prefill(slots: Slots, p: seq<Prefilled>): Slots {
    if p == [] then slots
    else
      var s, k := Prefill(slots, p[..|p| - 1]), LastIndex(p);
      if 0 <= k < |s| then s[k := Some(p[|p| - 1].tx)] else s
  }

  lemma {:induction false} Increasing(p: seq<Prefilled>, i: nat, j: nat)
    requires i < j <= |p|
    ensures -1 <= LastIndex(p[..i]) < LastIndex(p[..j])
  {
    assert p[..j][..j - 1] == p[..j - 1];
    if i < j - 1 {
      Increasing(p, i, j - 1);
    } else if i > 0 {
      Increasing(p, i - 1, i);
    }
  }

  /** The empty slots, in order. */
  function Free(s: Slots): (r: seq<nat>)
    ensures forall i :: 0 <= i < |r| ==> r[i] < |s| && s[r[i]].None?
  {
    if s == [] then []
    else Free(s[..|s| - 1]) + if s[|s| - 1].None? then [|s| - 1] else []
  }

  lemma {:induction false} FreeOrdered(s: Slots)
    ensures forall i, j :: 0 <= i < j < |Free(s)| ==> Free(s)[i] < Free(s)[j]
    ensures forall k :: 0 <= k < |s| && s[k].None? ==> k in Free(s)
  {
    if s != [] {
      var n := |s| - 1;
      FreeOrdered(s[..n]);
      assert Free(s)[..|Free(s[..n])|] == Free(s[..n]);
      forall k | 0 <= k < |s| && s[k].None? ensures k in Free(s) {
        if k < n {
          assert s[..n][k].None? && k in Free(s[..n]);
        } else {
          assert Free(s)[|Free(s)| - 1] == n;
        }
      }
    }
  }

  lemma {:induction false} FreePrefix(s: Slots, k: nat)
    requires k <= |s|
    ensures Free(s[..k]) <= Free(s)
  {
    if k == |s| {
      assert s[..k] == s;
    } else {
      FreePrefix(s[..|s| - 1], k);
      assert s[..|s| - 1][..k] == s[..k];
    }
  }

  lemma {:induction false} FreeOne(s: Slots, k: nat, v: Option<Tx>)
    requires k < |s|
    ensures |Free(s[k := v])| == |Free(s)| - (if s[k].None? then 1 else 0) + if v.None? then 1 else 0
  {
    var n, t := |s| - 1, s[k := v];
    if k == n {
      assert t[..n] == s[..n];
    } else {
      assert t[..n] == s[..n][k := v];
      FreeOne(s[..n], k, v);
    }
  }

  lemma {:induction false} FreeAll(n: nat)
    ensures |Free(NoSlots(n))| == n
  {
    if n > 0 {
      assert NoSlots(n)[..n - 1] == NoSlots(n - 1);
      FreeAll(n - 1);
    }
  }

  /** The first prefilled transactions are in their slots, and all slots after them are empty. */
  ghost predicate PrefilledTo(p: seq<Prefilled>, n: nat, i: nat)
    requires i <= |p|
  {
    var s := Prefill(NoSlots(n), p[..i]);
    && |s| == n && |Free(s)| == n - i
    && (forall k :: LastIndex(p[..i]) < k < n && 0 <= k ==> s[k].None?)
    && (forall j: nat :: j < i ==> 0 <= Position(p, j) < n && s[Position(p, j)] == Some(p[j].tx))
  }

  /** Prefilling an accepted message leaves one empty slot for each short id. */
  lemma {:induction false} PrefillFree(m: Message, isNull: Tx -> bool, i: nat)
    requires EntriesOk(m, isNull) && i <= |m.prefilledtxn|
    ensures PrefilledTo(m.prefilledtxn, |m.shorttxids| + |m.prefilledtxn|, i)
  {
    var n, p := |m.shorttxids| + |m.prefilledtxn|, m.prefilledtxn;
    if i == 0 {
      FreeAll(n);
    } else {
      PrefillFree(m, isNull, i - 1);
      assert EntryOk(m, isNull, i - 1);
      PrefillOne(p, n, i);
    }
  }

  /** One more prefilled transaction goes to a slot that is still empty. */
  lemma PrefillOne(p: seq<Prefilled>, n: nat, i: nat)
    requires 0 < i <= |p| && Position(p, i - 1) < n && PrefilledTo(p, n, i - 1)
    ensures PrefilledTo(p, n, i)
  {
    assert p[..i][..i - 1] == p[..i - 1];
    var s, k := Prefill(NoSlots(n), p[..i - 1]), LastIndex(p[..i]);
    Increasing(p, i - 1, i);
    FreeOne(s, k, Some(p[i - 1].tx));
    forall j: nat | j < i - 1 ensures Position(p, j) < k { Increasing(p, j + 1, i); }
  }

  // ---------- short ids ----------

  /** Each short id is bound to the empty slot with its number; a repeated id takes the later slot. */
  function Bind(ids: seq<nat>, free: seq<nat>): map<nat, nat>
    requires |ids| == |free|
  {
    if ids == [] then map[]
    else Bind(ids[..|ids| - 1], free[..|free| - 1])[ids[|ids| - 1] := free[|free| - 1]]
  }

  ghost predicate Distinct(ids: seq<nat>) {
    forall i, j :: 0 <= i < j < |ids| ==> ids[i] != ids[j]
  }

  lemma {:induction false} BindKeys(ids: seq<nat>, free: seq<nat>)
    requires |ids| == |free|
    ensures forall id :: id in Bind(ids, free) <==> id in ids
  {
    if ids != [] {
      var n := |ids| - 1;
      BindKeys(ids[..n], free[..n]);
      assert ids == ids[..n] + [ids[n]];
    }
  }

  lemma DistinctPrefix(ids: seq<nat>)
    requires ids != []
    ensures var n := |ids| - 1; Distinct(ids) <==> Distinct(ids[..n]) && ids[n] !in ids[..n]
  {
    var n := |ids| - 1;
    if Distinct(ids[..n]) && ids[n] !in ids[..n] {
      forall i, j | 0 <= i < j < |ids| ensures ids[i] != ids[j] {
        assert ids[i] == ids[..n][i];
        if j < n { assert ids[j] == ids[..n][j]; }
      }
    }
  }

  /** The number of bound ids tells whether they are distinct. */
  lemma {:induction false} BindSize(ids: seq<nat>, free: seq<nat>)
    requires |ids| == |free|
    ensures |Bind(ids, free)| <= |ids| && (|Bind(ids, free)| == |ids| <==> Distinct(ids))
  {
    if ids != [] {
      var n := |ids| - 1;
      var m, last := Bind(ids[..n], free[..n]), ids[n];
      BindSize(ids[..n], free[..n]);
      BindKeys(ids[..n], free[..n]);
      DistinctPrefix(ids);
      assert m[last := free[n]].Keys == m.Keys + {last};
    }
  }

  /** Then each id has its own slot, in the order of the slots. */
  lemma {:induction false} BindSlots(ids: seq<nat>, free: seq<nat>)
    requires |ids| == |free| && Distinct(ids)
    ensures forall k :: 0 <= k < |ids| ==> ids[k] in Bind(ids, free) && Bind(ids, free)[ids[k]] == free[k]
  {
    if ids != [] {
      var n := |ids| - 1;
      BindSlots(ids[..n], free[..n]);
      forall k | 0 <= k < n ensures ids[k] in Bind(ids, free) && Bind(ids, free)[ids[k]] == free[k] {
        assert ids[..n][k] == ids[k] && free[..n][k] == free[k];
      }
    }
  }

  /** Slot numbers as they are kept, in sixteen bits. */
  function Narrow(free: seq<nat>): (r: seq<nat>)
    ensures |r| == |free| && forall k :: 0 <= k < |r| ==> r[k] == free[k] % (UINT16_MAX + 1)
  {
    seq(|free|, k requires 0 <= k < |free| => free[k] % (UINT16_MAX + 1))
  }

  lemma InSixteenBits(x: nat)
    ensures x % (UINT16_MAX + 1) == x <==> x <= UINT16_MAX
  {
  }

  lemma {:induction false} BindValues(ids: seq<nat>, free: seq<nat>)
    requires |ids| == |free|
    ensures forall id :: id in Bind(ids, free) ==> Bind(ids, free)[id] in free
  {
    if ids != [] {
      BindValues(ids[..|ids| - 1], free[..|free| - 1]);
    }
  }

  /** The binding that is kept is the one that is meant exactly when all empty slots have sixteen-bit numbers. */
  lemma NarrowRight(ids: seq<nat>, free: seq<nat>)
    requires |ids| == |free| && Distinct(ids)
    ensures Bind(ids, Narrow(free)) == Bind(ids, free) <==> forall k :: 0 <= k < |free| ==> free[k] <= UINT16_MAX
  {
    var n := Narrow(free);
    forall k | 0 <= k < |free| ensures n[k] == free[k] <==> free[k] <= UINT16_MAX { InSixteenBits(free[k]); }
    if forall k :: 0 <= k < |free| ==> free[k] <= UINT16_MAX {
      assert n == free;
    } else {
      var k :| 0 <= k < |free| && free[k] > UINT16_MAX;
      BindSlots(ids, free);
      BindSlots(ids, n);
      assert Bind(ids, n)[ids[k]] == n[k] && Bind(ids, free)[ids[k]] == free[k];
    }
  }

  lemma LastFree(m: Message, isNull: Tx -> bool)
    requires EntriesOk(m, isNull) && |m.shorttxids| + |m.prefilledtxn| > UINT16_MAX + 1
    ensures |Base(m)| > UINT16_MAX + 1 && |Base(m)| - 1 in Free(Base(m))
  {
    var p := m.prefilledtxn;
    assert p[..|p|] == p;
    PrefillFree(m, isNull, |p|);
    if p != [] { assert EntryOk(m, isNull, |p| - 1); }
    FreeOrdered(Base(m));
    assert Base(m)[|Base(m)| - 1].None?;
  }

  /** Each slot after a prefix leaves room for one more empty slot at most. */
  lemma {:induction false} FreeTail(s: Slots, k: nat)
    requires k <= |s|
    ensures |Free(s)| <= |Free(s[..k])| + (|s| - k)
  {
    if k == |s| {
      assert s[..k] == s;
    } else {
      FreeTail(s[..|s| - 1], k);
      assert s[..|s| - 1][..k] == s[..k];
    }
  }

  /** That is when there are at most 65536 slots: the prefilled ones cannot be further back. */
  lemma NarrowCount(m: Message, isNull: Tx -> bool)
    requires EntriesOk(m, isNull) && Distinct(m.shorttxids)
    ensures |Free(Base(m))| == |m.shorttxids|
    ensures Bind(m.shorttxids, Narrow(Free(Base(m)))) == Bind(m.shorttxids, Free(Base(m)))
            <==> |m.shorttxids| + |m.prefilledtxn| <= UINT16_MAX + 1
  {
    var base, free := Base(m), Free(Base(m));
    BaseFree(m, isNull);
    FreeOrdered(base);
    NarrowRight(m.shorttxids, free);
    if |base| > UINT16_MAX + 1 {
      LastFree(m, isNull);
      var k :| 0 <= k < |free| && free[k] == |base| - 1;
    }
  }

  /** The slot numbers are far enough apart. */
  lemma {:induction false} Spread(p: seq<Prefilled>, i: nat, j: nat)
    requires i <= j <= |p|
    ensures LastIndex(p[..i]) + (j - i) <= LastIndex(p[..j])
  {
    if i < j {
      Spread(p, i, j - 1);
      assert p[..j][..j - 1] == p[..j - 1];
    }
  }

  /** Every slot that a sixteen-bit number reaches is taken. */
  ghost predicate Blocked(s: Slots) {
    |s| > UINT16_MAX && forall k :: 0 <= k <= UINT16_MAX ==> s[k].Some?
  }

  lemma PrefilledFit(m: Message, isNull: Tx -> bool)
    requires EntriesOk(m, isNull)
    ensures |m.prefilledtxn| <= UINT16_MAX + 1
  {
    var p := m.prefilledtxn;
    if |p| > 0 {
      assert EntryOk(m, isNull, |p| - 1);
      Spread(p, 0, |p|);
    }
  }

  lemma AllTaken(m: Message, isNull: Tx -> bool)
    requires EntriesOk(m, isNull) && |m.prefilledtxn| == UINT16_MAX + 1 && m.shorttxids != []
    ensures Blocked(Base(m))
  {
    var p := m.prefilledtxn;
    BaseFree(m, isNull);
    assert EntryOk(m, isNull, UINT16_MAX);
    forall k | 0 <= k <= UINT16_MAX ensures Base(m)[k].Some? {
      Spread(p, 0, k + 1);
      Spread(p, k + 1, |p|);
      assert Position(p, k) == k;
    }
  }

  /** A search for an empty slot that counts in sixteen bits finds one exactly when fewer than 65536 transactions are
      prefilled; with 65536 of them, which is the most a message can have, it passes the same slots again and again. */
  lemma SearchEnds(m: Message, isNull: Tx -> bool)
    requires EntriesOk(m, isNull) && m.shorttxids != []
    ensures |m.prefilledtxn| <= UINT16_MAX + 1 && |Base(m)| == |m.shorttxids| + |m.prefilledtxn|
    ensures (exists k :: 0 <= k <= UINT16_MAX && k < |Base(m)| && Base(m)[k].None?) <==> |m.prefilledtxn| <= UINT16_MAX
    ensures Blocked(Base(m)) <==> |m.prefilledtxn| == UINT16_MAX + 1
  {
    var base := Base(m);
    BaseFree(m, isNull);
    PrefilledFit(m, isNull);
    if |m.prefilledtxn| == UINT16_MAX + 1 {
      AllTaken(m, isNull);
    } else {
      var n := if |base| <= UINT16_MAX + 1 then |base| else UINT16_MAX + 1;
      FreeTail(base, n);
      var k := Free(base[..n])[0];
      assert base[k] == base[..n][k] && base[k].None?;
    }
  }

  function AllZero(n: nat, tx: Tx): seq<Prefilled> {
    seq(n, _ => Prefilled(0, tx))
  }

  lemma {:induction false} ZeroIndexes(n: nat, tx: Tx)
    ensures LastIndex(AllZero(n, tx)) == n - 1
  {
    if n > 0 {
      ZeroIndexes(n - 1, tx);
      assert AllZero(n, tx)[..n - 1] == AllZero(n - 1, tx);
    }
  }

  /** Such a message: one short id, and 65536 prefilled transactions without gaps. */
  lemma SearchDoesNotEnd(id: nat, tx: Tx, isNull: Tx -> bool, n: nat)
    requires !isNull(tx) && n == UINT16_MAX + 1
    ensures var m := Message([id], AllZero(n, tx)); EntriesOk(m, isNull) && Blocked(Base(m))
  {
    var m := Message([id], AllZero(n, tx));
    forall i: nat | i < n ensures EntryOk(m, isNull, i) {
      ZeroIndexes(i + 1, tx);
      assert AllZero(n, tx)[..i + 1] == AllZero(i + 1, tx);
    }
    SearchEnds(m, isNull);
  }

  function FirstIds(n: nat): seq<nat> {
    seq(n, i requires 0 <= i < n => i)
  }

  /** A message with too many slots: 65537 different short ids, and nothing prefilled. */
  lemma TooManySlots(isNull: Tx -> bool, n: nat)
    requires n == UINT16_MAX + 2
    ensures var m := Message(FirstIds(n), []);
            && EntriesOk(m, isNull) && Distinct(m.shorttxids) && |Free(Base(m))| == n
            && Bind(m.shorttxids, Narrow(Free(Base(m)))) != Bind(m.shorttxids, Free(Base(m)))
  {
    NarrowCount(Message(FirstIds(n), []), isNull);
  }

  // ---------- the memory pool ----------

  /** The slots while the pool is searched, those that a pool transaction has matched, and the number filled. */
  datatype Search = Search(slots: Slots, have: set<nat>, count: int)

  /** The first match of a short id fills its slot, a second one empties it for good. */
  function See(s: Search, m: map<nat, nat>, id: nat, tx: Tx): Search
    requires forall i :: i in m ==> m[i] < |s.slots|
  {
    if id !in m then s
    else
      var k := m[id];
      if k !in s.have then Search(s.slots[k := Some(tx)], s.have + {k}, s.count + 1)
      else if s.slots[k].Some? then Search(s.slots[k := None], s.have, s.count - 1)
      else s
  }

  function Matches(pool: seq<Tx>, short: Tx -> nat, id: nat): seq<Tx> {
    if pool == [] then []
    else Matches(pool[..|pool| - 1], short, id) + if short(pool[|pool| - 1]) == id then [pool[|pool| - 1]] else []
  }

  ghost predicate Unbound(m: map<nat, nat>, k: nat) {
    forall id :: id in m ==> m[id] != k
  }

  /** What a search of some pool transactions has found for each bound id. */
  ghost predicate Found(s: Search, base: Slots, m: map<nat, nat>, pool: seq<Tx>, short: Tx -> nat) {
    && |s.slots| == |base| && |Free(s.slots)| == |Free(base)| - s.count
    && (forall k :: 0 <= k < |base| && Unbound(m, k) ==> s.slots[k] == base[k])
    && (forall id :: id in m ==> FoundFor(s, m, id, Matches(pool, short, id)))
  }

  ghost predicate FoundFor(s: Search, m: map<nat, nat>, id: nat, matches: seq<Tx>) {
    && id in m && m[id] < |s.slots|
    && (m[id] in s.have <==> matches != [])
    && s.slots[m[id]] == if |matches| == 1 then Some(matches[0]) else None
  }

  /** Ids are bound to different, empty slots. */
  ghost predicate Bound(base: Slots, m: map<nat, nat>) {
    && (forall id :: id in m ==> m[id] < |base| && base[m[id]].None?)
    && (forall id, other :: id in m && other in m && m[id] == m[other] ==> id == other)
  }

  lemma SeeFinds(s: Search, base: Slots, m: map<nat, nat>, pool: seq<Tx>, short: Tx -> nat, tx: Tx)
    requires Bound(base, m) && Found(s, base, m, pool, short)
    ensures forall i :: i in m ==> m[i] < |s.slots|
    ensures Found(See(s, m, short(tx), tx), base, m, pool + [tx], short)
  {
    var t, id := See(s, m, short(tx), tx), short(tx);
    assert (pool + [tx])[..|pool|] == pool;
    if id in m {
      assert FoundFor(s, m, id, Matches(pool, short, id));
      FreeOne(s.slots, m[id], t.slots[m[id]]);
    }
    forall other | other in m ensures FoundFor(t, m, other, Matches(pool + [tx], short, other)) {
      assert FoundFor(s, m, other, Matches(pool, short, other));
    }
  }

  // ---------- accepted messages ----------

  function Base(m: Message): Slots {
    Prefill(NoSlots(|m.shorttxids| + |m.prefilledtxn|), m.prefilledtxn)
  }

  /** The slots for an accepted message after the first pool transactions were searched. */
  ghost predicate Initialised(slots: Slots, m: Message, isNull: Tx -> bool, short: Tx -> nat, pool: seq<Tx>) {
    && EntriesOk(m, isNull) && Distinct(m.shorttxids)
    && |slots| == |Base(m)| && |Free(Base(m))| == |m.shorttxids|
    && (forall k :: 0 <= k < |slots| && k !in Free(Base(m)) ==> slots[k] == Base(m)[k])
    && (forall k :: 0 <= k < |m.shorttxids| ==>
          var found := Matches(pool, short, m.shorttxids[k]);
          slots[Free(Base(m))[k]] == if |found| == 1 then Some(found[0]) else None)
  }

  lemma BaseFree(m: Message, isNull: Tx -> bool)
    requires EntriesOk(m, isNull)
    ensures |Base(m)| == |m.shorttxids| + |m.prefilledtxn| && |Free(Base(m))| == |m.shorttxids|
    ensures forall j: nat :: j < |m.prefilledtxn| ==>
              0 <= Position(m.prefilledtxn, j) < |Base(m)|
              && Base(m)[Position(m.prefilledtxn, j)] == Some(m.prefilledtxn[j].tx)
  {
    assert m.prefilledtxn[..|m.prefilledtxn|] == m.prefilledtxn;
    PrefillFree(m, isNull, |m.prefilledtxn|);
  }

  lemma BoundToFree(base: Slots, ids: seq<nat>)
    requires |Free(base)| == |ids| && Distinct(ids)
    ensures Bound(base, Bind(ids, Free(base)))
    ensures forall k: nat :: k < |base| && k !in Free(base) ==> Unbound(Bind(ids, Free(base)), k)
  {
    var free, m := Free(base), Bind(ids, Free(base));
    FreeOrdered(base);
    BindKeys(ids, free);
    BindSlots(ids, free);
    forall id | id in m ensures m[id] in free && m[id] < |base| && base[m[id]].None? {
      var i :| 0 <= i < |ids| && ids[i] == id;
      assert m[id] == free[i];
    }
    forall id, other | id in m && other in m && m[id] == m[other] ensures id == other {
      var i :| 0 <= i < |ids| && ids[i] == id;
      var j :| 0 <= j < |ids| && ids[j] == other;
      assert free[i] == free[j];
    }
  }

  /** What the search finds is what an accepted message's slots hold. */
  lemma SearchInitialises(s: Search, msg: Message, isNull: Tx -> bool, short: Tx -> nat, pool: seq<Tx>)
    requires EntriesOk(msg, isNull) && Distinct(msg.shorttxids) && |Free(Base(msg))| == |msg.shorttxids|
    requires Found(s, Base(msg), Bind(msg.shorttxids, Free(Base(msg))), pool, short)
    ensures Initialised(s.slots, msg, isNull, short, pool)
  {
    var base, ids := Base(msg), msg.shorttxids;
    var m := Bind(ids, Free(base));
    BoundToFree(base, ids);
    BindSlots(ids, Free(base));
    forall k | 0 <= k < |ids|
      ensures var found := Matches(pool, short, ids[k]);
              s.slots[Free(base)[k]] == if |found| == 1 then Some(found[0]) else None
    {
      assert FoundFor(s, m, ids[k], Matches(pool, short, ids[k]));
    }
  }

  // ---------- putting the block together ----------

  /** The block with the empty slots filled from the missing transactions, in order; none may be left over. */
  function Fill(slots: Slots, missing: seq<Tx>): Option<seq<Tx>> {
    if slots == [] then (if missing == [] then Some([]) else None)
    else
      var n := |slots| - 1;
      if slots[n].Some? then
        match Fill(slots[..n], missing)
        case Some(vtx) => Some(vtx + [slots[n].value])
        case None => None
      else if missing == [] then None
      else
        match Fill(slots[..n], missing[..|missing| - 1])
        case Some(vtx) => Some(vtx + [missing[|missing| - 1]])
        case None => None
  }

  lemma FillNext(slots: Slots, missing: seq<Tx>, i: nat, used: nat, vtx: seq<Tx>)
    requires i < |slots| && used <= |missing| && Fill(slots[..i], missing[..used]) == Some(vtx)
    ensures slots[i].Some? ==> Fill(slots[..i + 1], missing[..used]) == Some(vtx + [slots[i].value])
    ensures slots[i].None? && used < |missing| ==>
              Fill(slots[..i + 1], missing[..used + 1]) == Some(vtx + [missing[used]])
  {
    assert slots[..i + 1][..i] == slots[..i];
    if used < |missing| { assert missing[..used + 1][..used] == missing[..used]; }
  }

  lemma {:induction false} FillNeeds(slots: Slots, missing: seq<Tx>)
    ensures Fill(slots, missing).Some? <==> |missing| == |Free(slots)|
  {
    if slots != [] {
      var n := |slots| - 1;
      if slots[n].Some? {
        FillNeeds(slots[..n], missing);
      } else if missing != [] {
        FillNeeds(slots[..n], missing[..|missing| - 1]);
      }
    }
  }

  function MissingFrom(slots: Slots, block: seq<Tx>): seq<Tx>
    requires |slots| == |block|
  {
    if slots == [] then []
    else
      var n := |slots| - 1;
      MissingFrom(slots[..n], block[..n]) + if slots[n].None? then [block[n]] else []
  }

  lemma {:induction false} FillRebuilds(slots: Slots, block: seq<Tx>)
    requires |slots| == |block| && forall k :: 0 <= k < |slots| ==> slots[k] == None || slots[k] == Some(block[k])
    ensures Fill(slots, MissingFrom(slots, block)) == Some(block)
  {
    if slots == [] {
      assert block == [];
    } else {
      var n := |slots| - 1;
      FillRebuilds(slots[..n], block[..n]);
      FillLast(slots, MissingFrom(slots[..n], block[..n]), block[n], block[..n]);
      assert block == block[..n] + [block[n]];
    }
  }

  lemma FillLast(slots: Slots, rest: seq<Tx>, last: Tx, vtx: seq<Tx>)
    requires slots != [] && Fill(slots[..|slots| - 1], rest) == Some(vtx)
    requires slots[|slots| - 1] == None || slots[|slots| - 1] == Some(last)
    ensures Fill(slots, rest + if slots[|slots| - 1].None? then [last] else []) == Some(vtx + [last])
  {
    assert (rest + [last])[..|rest|] == rest && rest + [] == rest;
  }

  /** The message that a node makes of a block: the first transaction in full, short ids for the others. */
  function Build(block: seq<Tx>, short: Tx -> nat): Message
    requires block != []
  {
    Message(seq(|block| - 1, i requires 0 <= i < |block| - 1 => short(block[i + 1])), [Prefilled(0, block[0])])
  }

  /** No other transaction in the pool passes for one of the block. */
  ghost predicate Genuine(block: seq<Tx>, short: Tx -> nat, pool: seq<Tx>) {
    forall i, j :: 0 < i < |block| && 0 <= j < |pool| && short(pool[j]) == short(block[i]) ==> pool[j] == block[i]
  }

  lemma {:induction false} MatchesFrom(pool: seq<Tx>, short: Tx -> nat, id: nat)
    ensures forall i :: 0 <= i < |Matches(pool, short, id)| ==>
              Matches(pool, short, id)[i] in pool && short(Matches(pool, short, id)[i]) == id
  {
    if pool != [] {
      MatchesFrom(pool[..|pool| - 1], short, id);
    }
  }

  lemma {:induction false} FreeAfterFirst(n: nat, tx: Tx)
    ensures var s := [Some(tx)] + NoSlots(n);
            |Free(s)| == n && forall k :: 0 <= k < n ==> Free(s)[k] == k + 1
  {
    var s := [Some(tx)] + NoSlots(n);
    if n > 0 {
      FreeAfterFirst(n - 1, tx);
      assert s[..n] == [Some(tx)] + NoSlots(n - 1);
    } else {
      assert s[..0] == [];
    }
  }

  lemma BuildBase(block: seq<Tx>, short: Tx -> nat, isNull: Tx -> bool)
    requires block != [] && !isNull(block[0])
    ensures EntriesOk(Build(block, short), isNull)
    ensures Base(Build(block, short)) == [Some(block[0])] + NoSlots(|block| - 1)
  {
    var m := Build(block, short);
    var p := m.prefilledtxn;
    assert p[..0] == [] && p[..1] == p;
    assert LastIndex(p) == LastIndex(p[..0]) + p[0].index + 1 == 0;
    assert Prefill(NoSlots(|block|), p[..0]) == NoSlots(|block|);
  }

  /** A block sent this way is put together again from what its slots lack, whatever part of the pool was searched. */
  lemma Rebuilds(block: seq<Tx>, short: Tx -> nat, isNull: Tx -> bool, pool: seq<Tx>, slots: Slots)
    requires block != [] && !isNull(block[0]) && Genuine(block, short, pool)
    requires Initialised(slots, Build(block, short), isNull, short, pool)
    ensures |slots| == |block| && Fill(slots, MissingFrom(slots, block)) == Some(block)
  {
    var m, n := Build(block, short), |block| - 1;
    BuildBase(block, short, isNull);
    FreeAfterFirst(n, block[0]);
    forall k | 0 <= k < |slots| ensures slots[k] == None || slots[k] == Some(block[k]) {
      if k > 0 {
        assert Free(Base(m))[k - 1] == k && m.shorttxids[k - 1] == short(block[k]);
        var found := Matches(pool, short, short(block[k]));
        MatchesFrom(pool, short, short(block[k]));
        if |found| == 1 {
          var j :| 0 <= j < |pool| && pool[j] == found[0];
          assert pool[j] == block[k];
        }
      }
    }
    FillRebuilds(slots, block);
  }
}
