/**
 A stack of write-back coin caches over a database, as a value. Each cache holds
 entries flagged DIRTY (may differ from the parent view) and FRESH (the parent view
 has nothing for this transaction). The proofs show that the stack behaves like one
 plain map from transaction ids to coins per level, where a pruned record means no
 record, and that the flags never let a write get lost.
 */
module CoinsView {
  import opened Coins
  import opened Wrappers

  type Txid = nat
  type Hash = nat
  const NULL_HASH: Hash := 0

  datatype Entry = Entry(coins: CoinRecord, dirty: bool, fresh_: bool)

  type Entries = map<Txid, Entry>

  /** A modifier remembers the transaction and the memory usage counted for it before. */
  datatype Modifier = Modifier(txid: Txid, counted: int)

  datatype View =
    | Root(db: map<Txid, CoinRecord>, bestBlock: Hash)
    | Cached(base: View, entries: Entries, usage: int, bestBlock: Hash, modifier: Option<Modifier>)

  // ----- what a view says ----------------------------------------------------

  /** What GetCoins finds. */
  function Raw(v: View, t: Txid): Option<CoinRecord> {
    match v
    case Root(db, _) => if t in db then Some(db[t]) else None
    case Cached(base, entries, _, _, _) => if t in entries then Some(entries[t].coins) else Raw(base, t)
  }

  /** Records up to meaning: a pruned record is none, and null outputs at the end do not count. */
  function Norm(c: Option<CoinRecord>): Option<CoinRecord> {
    if c.None? || IsPruned(c.value) then None else Some(Trim(c.value))
  }

  function Get(v: View, t: Txid): Option<CoinRecord> {
    Norm(Raw(v, t))
  }

  predicate SameView(v: View, w: View, t: Txid) {
    Get(v, t) == Get(w, t)
  }

  function Best(v: View): Hash {
    if v.Root? || v.bestBlock != NULL_HASH then v.bestBlock else Best(v.base)
  }

  // ----- the invariant -------------------------------------------------------

  predicate InModification(v: View, t: Txid) {
    v.Cached? && v.modifier.Some? && v.modifier.value.txid == t
  }

  predicate RecordOk(db: map<Txid, CoinRecord>, t: Txid) {
    t in db ==> IsTrimmed(db[t]) && !IsPruned(db[t])
  }

  /** FRESH implies that the parent has nothing, clean implies that it has the same;
      a record under modification is dirty, any other is trimmed. */
  predicate EntryOk(v: View, t: Txid) {
    v.Cached? && t in v.entries ==>
      && (v.entries[t].fresh_ ==> Get(v.base, t) == None)
      && (!v.entries[t].dirty ==> Norm(Some(v.entries[t].coins)) == Get(v.base, t))
      && (if InModification(v, t) then v.entries[t].dirty else IsTrimmed(v.entries[t].coins))
  }

  predicate Quiet(v: View) {
    v.Cached? ==> v.modifier.None?
  }

  ghost predicate Ok(v: View) {
    match v
    case Root(db, _) => forall t {:trigger RecordOk(db, t)} :: RecordOk(db, t)
    case Cached(base, entries, _, _, modifier) =>
      && Ok(base) && Quiet(base)
      && (modifier.Some? ==> modifier.value.txid in entries)
      && forall t {:trigger EntryOk(v, t)} :: EntryOk(v, t)
  }

  // ----- reading -------------------------------------------------------------

  /** FetchCoins, recursively filling every cache on the way. */
  function Fetch(size: CoinRecord -> nat, v: View, t: Txid): View {
    match v
    case Root(_, _) => v
    case Cached(base, entries, usage, _, _) =>
      if t in entries then v
      else
        var b := Fetch(size, base, t);
        match Raw(base, t)
        case None => v.(base := b)
        case Some(c) => v.(base := b, entries := entries[t := Entry(c, false, IsPruned(c))], usage := usage + size(c))
  }

  lemma {:induction false} FetchSame(size: CoinRecord -> nat, v: View, t: Txid, x: Txid)
    ensures Raw(Fetch(size, v, t), x) == Raw(v, x)
    ensures Quiet(Fetch(size, v, t)) == Quiet(v)
  {
    if v.Cached? && t !in v.entries {
      FetchSame(size, v.base, t, x);
    }
  }

  lemma {:induction false} FetchOk(size: CoinRecord -> nat, v: View, t: Txid)
    requires Ok(v)
    ensures Ok(Fetch(size, v, t))
  {
    if v.Cached? && t !in v.entries {
      FetchOk(size, v.base, t);
      var w := Fetch(size, v, t);
      FetchSame(size, v.base, t, t);
      RawTrimmed(v.base, t);
      forall x ensures EntryOk(w, x) {
        assert EntryOk(v, x);
        FetchSame(size, v.base, t, x);
      }
    }
  }

  /** A quiet view only hands out trimmed records. */
  lemma {:induction false} RawTrimmed(v: View, t: Txid)
    requires Ok(v) && Quiet(v)
    ensures Raw(v, t).Some? ==> IsTrimmed(Raw(v, t).value)
  {
    match v
    case Root(db, _) => assert RecordOk(db, t);
    case Cached(base, _, _, _, _) => assert EntryOk(v, t); RawTrimmed(base, t);
  }

  /** HaveCoins looks only for a non-empty list of outputs; in a quiet view that is the
      same as having an unspent output. */
  lemma HaveCoinsMeaning(v: View, t: Txid)
    requires Ok(v) && Quiet(v)
    ensures Raw(v, t).Some? && Raw(v, t).value.vout != [] <==> Get(v, t).Some?
  {
    RawTrimmed(v, t);
    if Raw(v, t).Some? { TrimMeaning(Raw(v, t).value); }
  }

  // ----- modifying the top cache ---------------------------------------------

  /** ModifyCoins: the entry becomes dirty and may then be changed through the modifier. */
  function Modify(size: CoinRecord -> nat, v: View, t: Txid): View
    requires v.Cached?
  {
    if t in v.entries then
      v.(entries := v.entries[t := v.entries[t].(dirty := true)],
         modifier := Some(Modifier(t, size(v.entries[t].coins))))
    else
      var e := match Raw(v.base, t)
               case None => Entry(CLEARED, true, true)
               case Some(c) => Entry(c, true, IsPruned(c));
      v.(base := Fetch(size, v.base, t), entries := v.entries[t := e], modifier := Some(Modifier(t, 0)))
  }

  /** ModifyNewCoins: as above, but without looking at the parent. */
  function ModifyNew(v: View, t: Txid, coinbase: bool): View
    requires v.Cached?
  {
    var fresh_ := !coinbase || (t in v.entries && v.entries[t].fresh_);
    v.(entries := v.entries[t := Entry(CLEARED, true, fresh_)], modifier := Some(Modifier(t, 0)))
  }

  /** A change through the modifier. */
  function Write(v: View, c: CoinRecord): View
    requires v.Cached? && v.modifier.Some? && v.modifier.value.txid in v.entries
  {
    var t := v.modifier.value.txid;
    v.(entries := v.entries[t := v.entries[t].(coins := c)])
  }

  /** The end of the modifier: the record is trimmed, and dropped if nobody needs to know. */
  function Release(size: CoinRecord -> nat, v: View): View
    requires v.Cached? && v.modifier.Some? && v.modifier.value.txid in v.entries
  {
    var Modifier(t, counted) := v.modifier.value;
    var e := v.entries[t].(coins := Trim(v.entries[t].coins));
    if e.fresh_ && IsPruned(e.coins)
    then v.(entries := v.entries - {t}, usage := v.usage - counted, modifier := None)
    else v.(entries := v.entries[t := e], usage := v.usage - counted + size(e.coins), modifier := None)
  }

  /** Uncache: an entry without flags may be dropped. */
  function Uncache(size: CoinRecord -> nat, v: View, t: Txid): View
    requires v.Cached?
  {
    if t in v.entries && !v.entries[t].dirty && !v.entries[t].fresh_
    then v.(entries := v.entries - {t}, usage := v.usage - size(v.entries[t].coins))
    else v
  }

  lemma ModifyOk(size: CoinRecord -> nat, v: View, t: Txid)
    requires Ok(v) && v.Cached? && v.modifier.None?
    ensures Ok(Modify(size, v, t))
    ensures forall x :: SameView(Modify(size, v, t), v, x)
    ensures forall x :: SameView(Modify(size, v, t).base, v.base, x)
  {
    var w := Modify(size, v, t);
    FetchOk(size, v.base, t);
    forall x ensures Raw(w.base, x) == Raw(v.base, x) { FetchSame(size, v.base, t, x); }
    FetchSame(size, v.base, t, t);
    assert EntryOk(v, t);
    forall x ensures EntryOk(w, x) && SameView(w, v, x) {
      assert EntryOk(v, x) && Raw(w.base, x) == Raw(v.base, x);
    }
  }

  /** ModifyNewCoins shows the entry as absent; its flags are right exactly when the
      transaction is a coinbase or the parent has no unspent output of it. */
  lemma ModifyNewOk(v: View, t: Txid, coinbase: bool)
    requires Ok(v) && v.Cached? && v.modifier.None?
    ensures Ok(ModifyNew(v, t, coinbase)) <==> coinbase || Get(v.base, t) == None
    ensures forall x :: Get(ModifyNew(v, t, coinbase), x) == if x == t then None else Get(v, x)
  {
    var w := ModifyNew(v, t, coinbase);
    assert EntryOk(v, t);
    forall x | x != t ensures EntryOk(w, x) { assert EntryOk(v, x); }
    assert EntryOk(w, t) <==> coinbase || Get(v.base, t) == None;
  }

  /** With the flags wrong, the record below shows through: creating a transaction the
      parent still has unspent, and spending it again, brings the parent's record back. */
  lemma WrongNewResurrects(size: CoinRecord -> nat, v: View, t: Txid)
    requires v.Cached? && v.modifier.None? && Get(v.base, t).Some?
    ensures Get(ModifyNew(v, t, false), t) == None
    ensures Get(Release(size, ModifyNew(v, t, false)), t) == Get(v.base, t)
  {
    TrimMeaning(CLEARED);
  }

  lemma WriteOk(v: View, c: CoinRecord)
    requires Ok(v) && v.Cached? && v.modifier.Some?
    ensures Ok(Write(v, c))
    ensures forall x :: Get(Write(v, c), x) == if x == v.modifier.value.txid then Norm(Some(c)) else Get(v, x)
  {
    var w := Write(v, c);
    forall x ensures EntryOk(w, x) { assert EntryOk(v, x); }
  }

  lemma ReleaseOk(size: CoinRecord -> nat, v: View)
    requires Ok(v) && v.Cached? && v.modifier.Some?
    ensures Ok(Release(size, v)) && Quiet(Release(size, v))
    ensures forall x :: SameView(Release(size, v), v, x)
  {
    var w, t := Release(size, v), v.modifier.value.txid;
    var c := v.entries[t].coins;
    TrimMeaning(c);
    TrimMeaning(Trim(c));
    assert EntryOk(v, t);
    forall x ensures EntryOk(w, x) && SameView(w, v, x) { assert EntryOk(v, x); }
  }

  lemma UncacheOk(size: CoinRecord -> nat, v: View, t: Txid)
    requires Ok(v) && v.Cached? && v.modifier.None?
    ensures Ok(Uncache(size, v, t))
    ensures forall x :: SameView(Uncache(size, v, t), v, x)
  {
    var w := Uncache(size, v, t);
    forall x ensures EntryOk(w, x) && SameView(w, v, x) { assert EntryOk(v, x); }
  }

  // ----- writing a cache back to its parent ----------------------------------

  function At(entries: Entries, t: Txid): Option<Entry> {
    if t in entries then Some(entries[t]) else None
  }

  /** What a parent cache keeps for a transaction when a child entry arrives. */
  function Merged(ours: Option<Entry>, child: Entry): Option<Entry> {
    if !child.dirty then ours
    else if ours.None? then
      if child.fresh_ && IsPruned(child.coins) then None else Some(Entry(child.coins, true, child.fresh_))
    else if ours.value.fresh_ && IsPruned(child.coins) then None
    else Some(ours.value.(coins := child.coins, dirty := true))
  }

  /** What the database keeps. */
  function Stored(ours: Option<CoinRecord>, child: Entry): Option<CoinRecord> {
    if !child.dirty then ours else if IsPruned(child.coins) then None else Some(child.coins)
  }

  /** The entries of a parent cache after the child entries have been merged in. */
  function MergedEntries(ours: Entries, child: Entries): Entries {
    map t | t in ours.Keys + child.Keys && (t in child ==> Merged(At(ours, t), child[t]).Some?)
      :: if t in child then Merged(At(ours, t), child[t]).value else ours[t]
  }

  function StoredRecords(db: map<Txid, CoinRecord>, child: Entries): map<Txid, CoinRecord> {
    map t | t in db.Keys + child.Keys && (t in child ==> Stored(if t in db then Some(db[t]) else None, child[t]).Some?)
      :: if t in child then Stored(if t in db then Some(db[t]) else None, child[t]).value else db[t]
  }

  /** The memory counted for the records of some entries. */
  ghost function Total(size: CoinRecord -> nat, entries: Entries): nat
    decreases |entries|
  {
    if entries == map[] then 0
    else
      var t :| t in entries;
      size(entries[t].coins) + Total(size, entries - {t})
  }

  /** BatchWrite. */
  ghost function BatchWrite(size: CoinRecord -> nat, v: View, child: Entries, best: Hash): View {
    match v
    case Root(db, was) => Root(StoredRecords(db, child), if best == NULL_HASH then was else best)
    case Cached(_, entries, usage, _, _) =>
      var merged := MergedEntries(entries, child);
      v.(entries := merged, usage := usage + Total(size, merged) - Total(size, entries), bestBlock := best)
  }

  lemma MergedAt(ours: Entries, child: Entries, t: Txid)
    ensures At(MergedEntries(ours, child), t)
         == if t in child then Merged(At(ours, t), child[t]) else At(ours, t)
  {
  }

  lemma StoredAt(db: map<Txid, CoinRecord>, child: Entries, t: Txid)
    ensures var ours := if t in db then Some(db[t]) else None;
            Raw(Root(StoredRecords(db, child), 0), t) == if t in child then Stored(ours, child[t]) else ours
  {
  }

  lemma StoredSame(size: CoinRecord -> nat, v: View, t: Txid)
    requires Ok(v) && v.Cached? && v.modifier.None? && v.base.Root?
    ensures var p := BatchWrite(size, v.base, v.entries, v.bestBlock);
            RecordOk(p.db, t) && SameView(p, v, t)
  {
    StoredAt(v.base.db, v.entries, t);
    assert EntryOk(v, t) && RecordOk(v.base.db, t);
    assert Raw(BatchWrite(size, v.base, v.entries, v.bestBlock), t) == Raw(Root(StoredRecords(v.base.db, v.entries), 0), t);
    if t !in v.entries { assert Raw(v, t) == Raw(v.base, t); }
  }

  lemma MergedSame(size: CoinRecord -> nat, v: View, t: Txid)
    requires Ok(v) && v.Cached? && v.modifier.None? && v.base.Cached?
    ensures var p := BatchWrite(size, v.base, v.entries, v.bestBlock);
            EntryOk(p, t) && SameView(p, v, t)
  {
    var p := BatchWrite(size, v.base, v.entries, v.bestBlock);
    MergedAt(v.base.entries, v.entries, t);
    assert EntryOk(v, t) && EntryOk(v.base, t);
    assert Raw(v.base, t) == if t in v.base.entries then Some(v.base.entries[t].coins) else Raw(v.base.base, t);
    assert Raw(p, t) == if t in p.entries then Some(p.entries[t].coins) else Raw(v.base.base, t);
  }

  /** After writing a cache back, its parent shows what the cache showed, for every
      transaction; and the parent's own flags are right again. */
  lemma BatchWriteOk(size: CoinRecord -> nat, v: View)
    requires Ok(v) && v.Cached? && v.modifier.None?
    ensures Ok(BatchWrite(size, v.base, v.entries, v.bestBlock))
    ensures Quiet(BatchWrite(size, v.base, v.entries, v.bestBlock))
    ensures forall t :: SameView(BatchWrite(size, v.base, v.entries, v.bestBlock), v, t)
  {
    var p := BatchWrite(size, v.base, v.entries, v.bestBlock);
    if v.base.Root? {
      forall t ensures RecordOk(p.db, t) && SameView(p, v, t) { StoredSame(size, v, t); }
    } else {
      forall t ensures EntryOk(p, t) && SameView(p, v, t) { MergedSame(size, v, t); }
    }
  }

  /** Flush: everything goes to the parent, and the cache starts again empty. */
  ghost function Flush(size: CoinRecord -> nat, v: View): View
    requires v.Cached?
  {
    v.(base := BatchWrite(size, v.base, v.entries, v.bestBlock), entries := map[], usage := 0)
  }

  /** Flushing leaves the base view equal to the cache's view beforehand, and the cache's
      view as it was. */
  lemma FlushOk(size: CoinRecord -> nat, v: View)
    requires Ok(v) && v.Cached? && v.modifier.None?
    ensures Ok(Flush(size, v)) && Quiet(Flush(size, v))
    ensures forall t :: SameView(Flush(size, v).base, v, t)
    ensures forall t :: SameView(Flush(size, v), v, t)
  {
    BatchWriteOk(size, v);
    forall t ensures SameView(Flush(size, v), v, t) { assert SameView(Flush(size, v).base, v, t); }
  }

  /** The best block reaches the parent exactly when the cache knows one, or the parent
      is the database, or the parent had nothing to lose. */
  lemma FlushBest(size: CoinRecord -> nat, v: View)
    requires v.Cached?
    ensures Best(Flush(size, v).base) == Best(v) <==>
              v.bestBlock != NULL_HASH || v.base.Root? || Best(v.base.base) == Best(v.base)
  {
  }

  /** A cache that never learned its best block wipes out its parent's: block 2 falls back to block 1. */
  lemma FlushForgetsBest(size: CoinRecord -> nat)
    ensures var v := Cached(Cached(Root(map[], 1), map[], 0, 2, None), map[], 0, NULL_HASH, None);
            Ok(v) && Best(v) == 2 && Best(Flush(size, v)) == Best(Flush(size, v).base) == 1
  {
  }

  // ----- memory accounting ---------------------------------------------------

  lemma {:induction false} TotalWithout(size: CoinRecord -> nat, entries: Entries, t: Txid)
    requires t in entries
    ensures Total(size, entries) == size(entries[t].coins) + Total(size, entries - {t})
    decreases |entries|
  {
    var u :| u in entries && Total(size, entries) == size(entries[u].coins) + Total(size, entries - {u});
    if u != t {
      TotalWithout(size, entries - {u}, t);
      TotalWithout(size, entries - {t}, u);
      assert entries - {u} - {t} == entries - {t} - {u};
    }
  }

  lemma TotalUpdate(size: CoinRecord -> nat, entries: Entries, t: Txid, e: Entry)
    ensures Total(size, entries[t := e]) == size(e.coins) + Total(size, entries - {t})
  {
    TotalWithout(size, entries[t := e], t);
    assert entries[t := e] - {t} == entries - {t};
  }

  /** How far the counted usage is from the usage of the records; an entry under
      modification counts as it did when the modification began. */
  ghost function Drift(size: CoinRecord -> nat, v: View): int
    requires v.Cached?
  {
    match v.modifier
    case None => v.usage - Total(size, v.entries)
    case Some(Modifier(t, counted)) => v.usage - counted - Total(size, v.entries - {t})
  }

  lemma FetchDrift(size: CoinRecord -> nat, v: View, t: Txid)
    requires v.Cached? && (v.modifier.Some? ==> v.modifier.value.txid in v.entries)
    ensures Drift(size, Fetch(size, v, t)) == Drift(size, v)
  {
    var w := Fetch(size, v, t);
    if t !in v.entries && Raw(v.base, t).Some? {
      TotalUpdate(size, v.entries, t, w.entries[t]);
      assert v.entries - {t} == v.entries;
      if v.modifier.Some? {
        var m := v.modifier.value.txid;
        TotalUpdate(size, v.entries - {m}, t, w.entries[t]);
        assert (v.entries - {m})[t := w.entries[t]] == w.entries - {m};
        assert v.entries - {m} - {t} == v.entries - {m};
      }
    }
  }

  /** Modifying, writing, releasing and dropping keep the account. */
  lemma ModifyDrift(size: CoinRecord -> nat, v: View, t: Txid)
    requires v.Cached? && v.modifier.None?
    ensures Drift(size, Modify(size, v, t)) == Drift(size, v)
  {
    var w := Modify(size, v, t);
    assert w.entries - {t} == v.entries - {t};
    if t in v.entries { TotalWithout(size, v.entries, t); } else { assert v.entries - {t} == v.entries; }
  }

  lemma WriteDrift(size: CoinRecord -> nat, v: View, c: CoinRecord)
    requires v.Cached? && v.modifier.Some? && v.modifier.value.txid in v.entries
    ensures Drift(size, Write(v, c)) == Drift(size, v)
  {
    var t := v.modifier.value.txid;
    assert Write(v, c).entries - {t} == v.entries - {t};
  }

  lemma ReleaseDrift(size: CoinRecord -> nat, v: View)
    requires v.Cached? && v.modifier.Some? && v.modifier.value.txid in v.entries
    ensures Drift(size, Release(size, v)) == Drift(size, v)
  {
    var t := v.modifier.value.txid;
    TotalUpdate(size, v.entries, t, v.entries[t].(coins := Trim(v.entries[t].coins)));
  }

  lemma UncacheDrift(size: CoinRecord -> nat, v: View, t: Txid)
    requires v.Cached? && v.modifier.None?
    ensures Drift(size, Uncache(size, v, t)) == Drift(size, v)
  {
    if t in v.entries { TotalWithout(size, v.entries, t); }
  }

  /** ModifyNewCoins forgets the storage of an entry it replaces: the account stays right
      exactly when there is no such entry, or it holds no storage. */
  lemma ModifyNewDrift(size: CoinRecord -> nat, v: View, t: Txid, coinbase: bool)
    requires v.Cached? && v.modifier.None?
    ensures Drift(size, ModifyNew(v, t, coinbase)) == Drift(size, v)
              + (if t in v.entries then size(v.entries[t].coins) else 0)
    ensures Drift(size, v) == 0 ==>
              (Drift(size, ModifyNew(v, t, coinbase)) == 0 <==> t !in v.entries || size(v.entries[t].coins) == 0)
  {
    assert ModifyNew(v, t, coinbase).entries - {t} == v.entries - {t};
    if t in v.entries { TotalWithout(size, v.entries, t); } else { assert v.entries - {t} == v.entries; }
  }

  /** Flushing empties the account of the cache and keeps that of its parent. */
  lemma FlushDrift(size: CoinRecord -> nat, v: View)
    requires v.Cached? && v.modifier.None? && Quiet(v.base)
    ensures Drift(size, Flush(size, v)) == 0
    ensures v.base.Cached? ==> Drift(size, Flush(size, v).base) == Drift(size, v.base)
  {
  }

  // ----- merging one entry at a time -----------------------------------------

  /** One more child entry changes the merged entries at its transaction only. */
  lemma MergeOneMore(ours: Entries, done: Entries, t: Txid, e: Entry)
    requires t !in done
    ensures At(MergedEntries(ours, done), t) == At(ours, t)
    ensures MergedEntries(ours, done[t := e])
         == match Merged(At(ours, t), e)
            case None => MergedEntries(ours, done) - {t}
            case Some(m) => MergedEntries(ours, done)[t := m]
  {
    var all := done[t := e];
    MergedAt(ours, done, t);
    MergedAt(ours, all, t);
    forall x | x != t ensures At(MergedEntries(ours, all), x) == At(MergedEntries(ours, done), x) {
      MergedAt(ours, done, x);
      MergedAt(ours, all, x);
    }
    var rhs := match Merged(At(ours, t), e)
               case None => MergedEntries(ours, done) - {t}
               case Some(m) => MergedEntries(ours, done)[t := m];
    forall x ensures At(MergedEntries(ours, all), x) == At(rhs, x) {}
    SameEntries(MergedEntries(ours, all), rhs);
  }

  lemma SameEntries(a: Entries, b: Entries)
    requires forall x :: At(a, x) == At(b, x)
    ensures a == b
  {
    forall x ensures (x in a <==> x in b) && (x in a ==> a[x] == b[x]) { assert At(a, x) == At(b, x); }
  }

  lemma StoreOneMore(db: map<Txid, CoinRecord>, done: Entries, t: Txid, e: Entry)
    requires t !in done
    ensures StoredRecords(db, done[t := e])
         == if !e.dirty then StoredRecords(db, done)
            else if IsPruned(e.coins) then StoredRecords(db, done) - {t}
            else StoredRecords(db, done)[t := e.coins]
  {
  }

  lemma MergeNone(ours: Entries, db: map<Txid, CoinRecord>)
    ensures MergedEntries(ours, map[]) == ours && StoredRecords(db, map[]) == db
  {
  }

  /** The entries of a batch whose transactions are not in `todo` any more. */
  lemma DoneOneMore(batch: Entries, todo: set<Txid>, t: Txid)
    requires t in todo && t in batch
    ensures t !in batch - todo
    ensures batch - (todo - {t}) == (batch - todo)[t := batch[t]]
  {
  }
}
