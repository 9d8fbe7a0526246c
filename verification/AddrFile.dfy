/**
 The stored form of the address manager. The address index, the tried table and
 the random vector are not stored but rebuilt, and entries get new ids.
 */
module AddrFile {
  import opened AddrTables

  /** What is stored of an entry; the rest is kept in memory only. */
  datatype Stored = Stored(addr: Address, source: NetAddr, nLastSuccess: int, nAttempts: int)

  /** The stored counters, which may be negative, the new and tried entries that are there for them, and for each new
      bucket the indexes of its entries. */
  datatype File = File(version: nat, key: Key, nNew: int, nTried: int,
                       newEntries: seq<Stored>, triedEntries: seq<Stored>, buckets: seq<seq<int>>)

  /** As many entries follow as the counters say, and none for a negative one. */
  predicate Complete(f: File) {
    |f.newEntries| == (if f.nNew > 0 then f.nNew else 0) && |f.triedEntries| == (if f.nTried > 0 then f.nTried else 0)
  }

  datatype LoadResult = Failed | Loaded(state: AddrState)

  function Entry(x: Stored): AddrInfo {
    AddrInfo(x.addr, x.source, x.nLastSuccess, 0, 0, x.nAttempts, 0, false, 0)
  }

  // ----- reading -------------------------------------------------------------

  /** Whether the stored bucket positions can be used as they are. */
  predicate Usable(f: File) {
    f.version == 1 && |f.buckets| == NEW_BUCKET_COUNT
  }

  /** An entry gets a reference in a slot. */
  function AddRef(s: AddrState, id: int, slot: Slot): AddrState
    requires id in s.info
  {
    s.(info := s.info[id := s.info[id].(nRefCount := s.info[id].nRefCount + 1)], newTab := s.newTab[slot := id])
  }

  /** A new entry; where the positions cannot be used, it gets the slot of its own source if that is free. */
  function LoadNew(p: Placement, s: AddrState, x: Stored, usable: bool): AddrState {
    var t := Enlist(s, Entry(x)).(nNew := s.nNew + 1);
    var slot := p.NewSlot(s.key, x.addr.svc, x.source);
    if usable || slot in t.newTab then t else AddRef(t, s.idCount, slot)
  }

  /** The entry enters the tried table; the id -1, which a slot holds when it is empty, leaves no trace there. */
  function EnterTried(p: Placement, s: AddrState, id: int): AddrState
    requires id in s.info
  {
    if id == -1 then Promote(p, s, id).(triedTab := s.triedTab) else Promote(p, s, id)
  }

  /** A tried entry goes to its slot; it is lost when the slot is taken. */
  function LoadTried(p: Placement, s: AddrState, x: Stored): AddrState {
    if p.TriedSlot(s.key, x.addr.svc) in s.triedTab then s
    else EnterTried(p, Enlist(s, Entry(x)), s.idCount)
  }

  /** A stored position: the entry takes its place in the bucket, if that is free and it has not too many. */
  function LoadSlot(p: Placement, s: AddrState, nNew: nat, bucket: nat, index: int, usable: bool): AddrState {
    if !(0 <= index < nNew) || index !in s.info then s
    else
      var slot := (bucket, p.Position(s.key, true, bucket, s.info[index].addr.svc));
      if usable && slot !in s.newTab && s.info[index].nRefCount < NEW_BUCKETS_PER_ADDRESS then AddRef(s, index, slot) else s
  }

  function LoadNews(p: Placement, s: AddrState, xs: seq<Stored>, usable: bool): AddrState {
    if xs == [] then s else LoadNew(p, LoadNews(p, s, xs[..|xs| - 1], usable), xs[|xs| - 1], usable)
  }

  function LoadTrieds(p: Placement, s: AddrState, xs: seq<Stored>): AddrState {
    if xs == [] then s else LoadTried(p, LoadTrieds(p, s, xs[..|xs| - 1]), xs[|xs| - 1])
  }

  function LoadBucket(p: Placement, s: AddrState, nNew: nat, bucket: nat, indexes: seq<int>, usable: bool): AddrState {
    if indexes == [] then s
    else
      var n := |indexes| - 1;
      LoadSlot(p, LoadBucket(p, s, nNew, bucket, indexes[..n], usable), nNew, bucket, indexes[n], usable)
  }

  function LoadBuckets(p: Placement, s: AddrState, nNew: nat, buckets: seq<seq<int>>, usable: bool): AddrState {
    if buckets == [] then s
    else
      var b := |buckets| - 1;
      LoadBucket(p, LoadBuckets(p, s, nNew, buckets[..b], usable), nNew, b, buckets[b], usable)
  }

  predicate Unused(s: AddrState, id: int) {
    id in s.info && !s.info[id].fInTried && s.info[id].nRefCount == 0
  }

  /** Entries below a number that are in no table are dropped. */
  function Prune(s: AddrState, n: int): AddrState
    decreases n
  {
    if n <= 0 then s
    else
      PruneId(Prune(s, n - 1), n - 1)
  }

  function PruneId(t: AddrState, id: int): AddrState {
    if Unused(t, id) && CanDelete(t, id) then Delete(t, id) else t
  }

  /** Counters that are not negative are counted again from zero; a negative number of new entries is also where the
      ids start. */
  function Start(f: File): AddrState {
    var n := if f.nNew < 0 then f.nNew else 0;
    Empty(f.key).(idCount := n, nNew := n, nTried := if f.nTried < 0 then f.nTried else 0)
  }

  function LoadEntries(p: Placement, f: File): AddrState {
    LoadTrieds(p, LoadNews(p, Start(f), f.newEntries, Usable(f)), f.triedEntries)
  }

  function LoadAll(p: Placement, f: File): AddrState {
    LoadBuckets(p, LoadEntries(p, f), |f.newEntries|, f.buckets, Usable(f))
  }

  /** Reading into a fresh manager; a file with more entries than the tables have slots is refused, as is one that ends
      too early. */
  function Unserialize(p: Placement, f: File): LoadResult {
    if f.nNew > NEW_BUCKET_COUNT * BUCKET_SIZE || f.nTried > TRIED_BUCKET_COUNT * BUCKET_SIZE || !Complete(f) then Failed
    else Loaded(Prune(LoadAll(p, f), LoadAll(p, f).idCount))
  }

  // ----- all but the address index of what is read ------------------------------

  function Limbo(n: int): (r: set<int>)
    ensures forall i :: i in r <==> 0 <= i < n
    decreases n
  {
    if n <= 0 then {} else Limbo(n - 1) + {n - 1}
  }

  lemma WiderLimbo(p: Placement, s: AddrState, limbo: set<int>, wider: set<int>)
    requires Sound(p, s, limbo, 0) && limbo <= wider
    ensures Sound(p, s, wider, 0)
  {
    forall n ensures Counted(s.info, s.newTab, wider, n) { assert Counted(s.info, s.newTab, limbo, n); }
  }

  lemma AddRefSound(p: Placement, s: AddrState, id: int, slot: Slot, limbo: set<int>)
    requires Sound(p, s, limbo, 0) && id in s.info && !s.info[id].fInTried
    requires slot !in s.newTab && NewAt(p, s.key, s.info, id, slot) && s.info[id].nRefCount < NEW_BUCKETS_PER_ADDRESS
    ensures Sound(p, AddRef(s, id, slot), limbo, 0)
  {
    var t := AddRef(s, id, slot);
    ReplaceRandom(s, id, t.info[id]);
    RecountTried(p, s.key, s.info, s.triedTab, id, s.info[id].nRefCount + 1);
    forall x | x in t.newTab ensures NewAt(p, t.key, t.info, t.newTab[x], x) {
      if x != slot { assert NewAt(p, s.key, s.info, s.newTab[x], x); }
    }
    forall n ensures Counted(t.info, t.newTab, limbo, n) {
      assert Counted(s.info, s.newTab, limbo, n);
      SameOrOneMore(Slots(s.newTab, n), Slots(t.newTab, n), slot);
    }
  }

  /** A state in the middle of loading. */
  ghost predicate Loading(p: Placement, s: AddrState) {
    s.idCount >= 0 && Sound(p, s, Limbo(s.idCount), 0)
  }

  lemma CountOne(p: Placement, s: AddrState, limbo: set<int>)
    requires Sound(p, s, limbo, 1)
    ensures Sound(p, s.(nNew := s.nNew + 1), limbo, 0)
  {
  }

  lemma LoadNewKeeps(p: Placement, s: AddrState, x: Stored, usable: bool)
    requires Loading(p, s)
    ensures Loading(p, LoadNew(p, s, x, usable))
  {
    EnlistLoading(p, s, x);
    var t := Enlist(s, Entry(x)).(nNew := s.nNew + 1);
    var slot := p.NewSlot(s.key, x.addr.svc, x.source);
    if !usable && slot !in t.newTab { AddRefSound(p, t, s.idCount, slot, Limbo(t.idCount)); }
  }

  lemma EnlistLoading(p: Placement, s: AddrState, x: Stored)
    requires Loading(p, s)
    ensures Loading(p, Enlist(s, Entry(x)).(nNew := s.nNew + 1))
  {
    var t := Enlist(s, Entry(x)).(nNew := s.nNew + 1);
    assert t.idCount == s.idCount + 1;
    LimboNext(s.idCount);
    EnlistSound(p, s, Entry(x), Limbo(s.idCount), 0);
    CountOne(p, Enlist(s, Entry(x)), Limbo(t.idCount));
  }

  lemma LimboNext(n: nat)
    ensures Limbo(n + 1) == Limbo(n) + {n}
  {
  }

  lemma LoadTriedKeeps(p: Placement, s: AddrState, x: Stored)
    requires Loading(p, s)
    ensures Loading(p, LoadTried(p, s, x))
  {
    if p.TriedSlot(s.key, x.addr.svc) !in s.triedTab {
      var limbo, t := Limbo(s.idCount), Promote(p, Enlist(s, Entry(x)), s.idCount);
      EnlistSound(p, s, Entry(x), limbo, 0);
      PromoteSound(p, Enlist(s, Entry(x)), s.idCount, limbo, 0);
      assert t.idCount == s.idCount + 1;
      WiderLimbo(p, t, limbo, Limbo(t.idCount));
    }
  }

  ghost predicate NoTriedBelow(s: AddrState, n: nat) {
    forall i :: 0 <= i < n && i in s.info ==> !s.info[i].fInTried
  }

  lemma LoadSlotKeeps(p: Placement, s: AddrState, nNew: nat, bucket: nat, index: int, usable: bool)
    requires Loading(p, s) && NoTriedBelow(s, nNew) && (usable ==> bucket < NEW_BUCKET_COUNT)
    ensures var t := LoadSlot(p, s, nNew, bucket, index, usable); Loading(p, t) && NoTriedBelow(t, nNew)
  {
    if 0 <= index < nNew && index in s.info {
      var slot := (bucket, p.Position(s.key, true, bucket, s.info[index].addr.svc));
      if usable && slot !in s.newTab && s.info[index].nRefCount < NEW_BUCKETS_PER_ADDRESS {
        AddRefSound(p, s, index, slot, Limbo(s.idCount));
      }
    }
  }

  lemma {:induction false} LoadBucketKeeps(p: Placement, s: AddrState, nNew: nat, bucket: nat, indexes: seq<int>, usable: bool)
    requires Loading(p, s) && NoTriedBelow(s, nNew) && (usable ==> bucket < NEW_BUCKET_COUNT)
    ensures var t := LoadBucket(p, s, nNew, bucket, indexes, usable); Loading(p, t) && NoTriedBelow(t, nNew)
  {
    if indexes != [] {
      var n := |indexes| - 1;
      LoadBucketKeeps(p, s, nNew, bucket, indexes[..n], usable);
      LoadSlotKeeps(p, LoadBucket(p, s, nNew, bucket, indexes[..n], usable), nNew, bucket, indexes[n], usable);
    }
  }

  lemma {:induction false} LoadBucketsKeeps(p: Placement, s: AddrState, nNew: nat, buckets: seq<seq<int>>, usable: bool)
    requires Loading(p, s) && NoTriedBelow(s, nNew) && (usable ==> |buckets| <= NEW_BUCKET_COUNT)
    ensures var t := LoadBuckets(p, s, nNew, buckets, usable); Loading(p, t) && NoTriedBelow(t, nNew)
  {
    if buckets != [] {
      var b := |buckets| - 1;
      LoadBucketsKeeps(p, s, nNew, buckets[..b], usable);
      LoadBucketKeeps(p, LoadBuckets(p, s, nNew, buckets[..b], usable), nNew, b, buckets[b], usable);
    }
  }

  lemma {:induction false} LoadNewsKeeps(p: Placement, key: Key, xs: seq<Stored>, usable: bool)
    ensures var s := LoadNews(p, Empty(key), xs, usable); Loading(p, s) && s.idCount == |xs| && NoTriedBelow(s, |xs|)
  {
    if xs != [] {
      var n := |xs| - 1;
      LoadNewsKeeps(p, key, xs[..n], usable);
      LoadNewKeeps(p, LoadNews(p, Empty(key), xs[..n], usable), xs[n], usable);
    } else {
      assert TriedIds(map[]) == {} && NewIds(map[]) == {};
    }
  }

  lemma {:induction false} LoadTriedsKeeps(p: Placement, s: AddrState, xs: seq<Stored>, nNew: nat)
    requires Loading(p, s) && s.idCount >= nNew && NoTriedBelow(s, nNew)
    ensures var t := LoadTrieds(p, s, xs); Loading(p, t) && t.idCount >= nNew && NoTriedBelow(t, nNew)
  {
    if xs != [] {
      var n := |xs| - 1;
      LoadTriedsKeeps(p, s, xs[..n], nNew);
      LoadTriedKeeps(p, LoadTrieds(p, s, xs[..n]), xs[n]);
    }
  }

  lemma LoadAllKeeps(p: Placement, f: File)
    requires f.nNew >= 0 && f.nTried >= 0
    ensures Loading(p, LoadAll(p, f))
  {
    LoadNewsKeeps(p, f.key, f.newEntries, Usable(f));
    LoadTriedsKeeps(p, LoadNews(p, Empty(f.key), f.newEntries, Usable(f)), f.triedEntries, |f.newEntries|);
    LoadBucketsKeeps(p, LoadEntries(p, f), |f.newEntries|, f.buckets, Usable(f));
  }

  // ----- the random vector, whatever the counters -------------------------------

  /** The next id is above all others. */
  ghost predicate Placed(s: AddrState) {
    RandomOk(s.info, s.random) && forall n :: n in s.info ==> n < s.idCount
  }

  lemma AddRefPlaced(s: AddrState, id: int, slot: Slot)
    requires Placed(s) && id in s.info
    ensures Placed(AddRef(s, id, slot))
  {
    ReplaceRandom(s, id, AddRef(s, id, slot).info[id]);
  }

  lemma {:induction false} LoadNewsPlaced(p: Placement, s: AddrState, xs: seq<Stored>, usable: bool)
    requires Placed(s)
    ensures Placed(LoadNews(p, s, xs, usable))
  {
    if xs != [] {
      var n := |xs| - 1;
      LoadNewsPlaced(p, s, xs[..n], usable);
      var t, x := LoadNews(p, s, xs[..n], usable), xs[n];
      EnlistRandom(t, Entry(x));
      var slot := p.NewSlot(t.key, x.addr.svc, x.source);
      if !usable && slot !in t.newTab { AddRefPlaced(Enlist(t, Entry(x)).(nNew := t.nNew + 1), t.idCount, slot); }
    }
  }

  lemma {:induction false} LoadTriedsPlaced(p: Placement, s: AddrState, xs: seq<Stored>)
    requires Placed(s)
    ensures Placed(LoadTrieds(p, s, xs))
  {
    if xs != [] {
      var n := |xs| - 1;
      LoadTriedsPlaced(p, s, xs[..n]);
      var t := LoadTrieds(p, s, xs[..n]);
      var u := Enlist(t, Entry(xs[n]));
      EnlistRandom(t, Entry(xs[n]));
      ReplaceRandom(u, t.idCount, u.info[t.idCount].(fInTried := true));
    }
  }

  lemma {:induction false} LoadBucketPlaced(p: Placement, s: AddrState, nNew: nat, bucket: nat, indexes: seq<int>, usable: bool)
    requires Placed(s)
    ensures Placed(LoadBucket(p, s, nNew, bucket, indexes, usable))
  {
    if indexes != [] {
      var n := |indexes| - 1;
      LoadBucketPlaced(p, s, nNew, bucket, indexes[..n], usable);
      var t, i := LoadBucket(p, s, nNew, bucket, indexes[..n], usable), indexes[n];
      if i in t.info { AddRefPlaced(t, i, (bucket, p.Position(t.key, true, bucket, t.info[i].addr.svc))); }
    }
  }

  lemma {:induction false} LoadBucketsPlaced(p: Placement, s: AddrState, nNew: nat, buckets: seq<seq<int>>, usable: bool)
    requires Placed(s)
    ensures Placed(LoadBuckets(p, s, nNew, buckets, usable))
  {
    if buckets != [] {
      var b := |buckets| - 1;
      LoadBucketsPlaced(p, s, nNew, buckets[..b], usable);
      LoadBucketPlaced(p, LoadBuckets(p, s, nNew, buckets[..b], usable), nNew, b, buckets[b], usable);
    }
  }

  lemma LoadAllPlaced(p: Placement, f: File)
    ensures Placed(LoadAll(p, f))
  {
    LoadNewsPlaced(p, Start(f), f.newEntries, Usable(f));
    LoadTriedsPlaced(p, LoadNews(p, Start(f), f.newEntries, Usable(f)), f.triedEntries);
    LoadBucketsPlaced(p, LoadEntries(p, f), |f.newEntries|, f.buckets, Usable(f));
  }
}
