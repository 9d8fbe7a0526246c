/** Writing a consistent address manager and reading it into a fresh one loses nothing but what is not stored. */
module AddrRoundTrip {
  import opened Sets
  import opened AddrTables
  import opened AddrFile
  import opened AddrLoaded

  // ----- writing -------------------------------------------------------------

  predicate Selected(info: map<int, AddrInfo>, n: int, tried: bool) {
    n in info && if tried then info[n].fInTried else info[n].nRefCount != 0
  }

  /** The ids below a number that are written as new or as tried entries, in order. */
  function Select(info: map<int, AddrInfo>, n: int, tried: bool): seq<int>
    decreases n
  {
    if n <= 0 then [] else Select(info, n - 1, tried) + if Selected(info, n - 1, tried) then [n - 1] else []
  }

  function Store(e: AddrInfo): Stored {
    Stored(e.addr, e.source, e.nLastSuccess, e.nAttempts)
  }

  function StoreAll(info: map<int, AddrInfo>, ids: seq<int>): (r: seq<Stored>)
    requires forall i :: 0 <= i < |ids| ==> ids[i] in info
    ensures |r| == |ids| && forall i :: 0 <= i < |ids| ==> r[i] == Store(info[ids[i]])
  {
    if ids == [] then [] else StoreAll(info, ids[..|ids| - 1]) + [Store(info[ids[|ids| - 1]])]
  }

  /** The number under which a new entry is written. */
  function IndexOf(info: map<int, AddrInfo>, id: int): nat {
    |Select(info, id, false)|
  }

  /** The numbers of the entries in the first positions of a bucket. */
  function BucketIndexes(s: AddrState, bucket: int, n: nat): seq<int> {
    if n == 0 then []
    else
      BucketIndexes(s, bucket, n - 1)
      + if (bucket, n - 1) in s.newTab then [IndexOf(s.info, s.newTab[(bucket, n - 1)])] else []
  }

  function Buckets(s: AddrState, n: nat): (r: seq<seq<int>>)
    ensures |r| == n && forall b :: 0 <= b < n ==> r[b] == BucketIndexes(s, b, BUCKET_SIZE)
  {
    if n == 0 then [] else Buckets(s, n - 1) + [BucketIndexes(s, n - 1, BUCKET_SIZE)]
  }

  lemma {:induction false} SelectIs(info: map<int, AddrInfo>, n: int, tried: bool)
    ensures forall i :: 0 <= i < |Select(info, n, tried)| ==>
              0 <= Select(info, n, tried)[i] < n && Selected(info, Select(info, n, tried)[i], tried)
    ensures forall i, j :: 0 <= i < j < |Select(info, n, tried)| ==> Select(info, n, tried)[i] < Select(info, n, tried)[j]
    decreases n
  {
    if n > 0 { SelectIs(info, n - 1, tried); }
  }

  function Serialize(s: AddrState): File {
    SelectIs(s.info, s.idCount, false);
    SelectIs(s.info, s.idCount, true);
    File(1, s.key, s.nNew, s.nTried, StoreAll(s.info, Select(s.info, s.idCount, false)), StoreAll(s.info, Select(s.info, s.idCount, true)),
         Buckets(s, NEW_BUCKET_COUNT))
  }

  /** A selected id is found under the number of selected ids before it. */
  lemma {:induction false} SelectAt(info: map<int, AddrInfo>, n: int, id: int, tried: bool)
    requires 0 <= id < n && Selected(info, id, tried)
    ensures |Select(info, id, tried)| < |Select(info, n, tried)|
    ensures Select(info, n, tried)[|Select(info, id, tried)|] == id
    decreases n
  {
    if id < n - 1 { SelectAt(info, n - 1, id, tried); }
  }

  /** The counters agree with what is written. */
  lemma {:induction false} SelectCount(info: map<int, AddrInfo>, n: int, tried: bool, ids: set<int>)
    requires forall i :: i in ids <==> 0 <= i < n && Selected(info, i, tried)
    ensures |Select(info, n, tried)| == |ids|
    decreases n
  {
    if n <= 0 {
      assert forall i :: i !in ids;
      assert ids == {};
    } else {
      SelectCount(info, n - 1, tried, ids - {n - 1});
      if n - 1 !in ids { assert ids - {n - 1} == ids; }
    }
  }

  lemma WrittenCounts(p: Placement, s: AddrState)
    requires Valid(p, s)
    ensures |Select(s.info, s.idCount, false)| == s.nNew && |Select(s.info, s.idCount, true)| == s.nTried
    ensures forall n :: Selected(s.info, n, false) <==> n in s.info && !s.info[n].fInTried
  {
    forall n ensures Selected(s.info, n, false) <==> n in s.info && !s.info[n].fInTried {
      assert Counted(s.info, s.newTab, {}, n) && InTried(p, s.key, s.info, s.triedTab, n);
    }
    SelectCount(s.info, s.idCount, false, NewIds(s.info));
    SelectCount(s.info, s.idCount, true, TriedIds(s.info));
  }

  // ----- the tables have room for what is written -----------------------------

  predicate Holds(t: Table, x: Slot, id: int) {
    x in t && t[x] == id
  }

  ghost predicate Has(t: Table, id: int) {
    exists x :: Holds(t, x, id)
  }

  lemma SlotOf(t: Table, id: int) returns (x: Slot)
    requires Has(t, id)
    ensures Holds(t, x, id)
  {
    x :| Holds(t, x, id);
  }

  lemma {:induction false} ImageSize(t: Table, ids: set<int>)
    requires forall id :: id in ids ==> Has(t, id)
    ensures |ids| <= |t.Keys|
  {
    if ids != {} {
      var id := AnyOf(ids);
      var x := SlotOf(t, id);
      forall other | other in ids - {id} ensures Has(t - {x}, other) { StillHas(t, x, id, other); }
      ImageSize(t - {x}, ids - {id});
      assert (t - {x}).Keys == t.Keys - {x};
    }
  }

  lemma StillHas(t: Table, x: Slot, id: int, other: int)
    requires Holds(t, x, id) && Has(t, other) && other != id
    ensures Has(t - {x}, other)
  {
    var y := SlotOf(t, other);
    assert Holds(t - {x}, y, other);
  }

  function Row(b: int, n: nat): (r: set<Slot>)
    ensures |r| == n && forall x :: x in r <==> x.0 == b && 0 <= x.1 < n
  {
    if n == 0 then {} else
      var r := Row(b, n - 1);
      assert (b, n - 1) !in r;
      r + {(b, n - 1)}
  }

  function Grid(m: nat, n: nat): (r: set<Slot>)
    ensures |r| == m * n && forall x :: x in r <==> 0 <= x.0 < m && 0 <= x.1 < n
  {
    if m == 0 then {} else
      var g, r := Grid(m - 1, n), Row(m - 1, n);
      assert g !! r;
      assert m * n == (m - 1) * n + n;
      g + r
  }

  lemma RoomIn(t: Table, m: nat, n: nat)
    requires forall x :: x in t ==> 0 <= x.0 < m && 0 <= x.1 < n
    ensures |t.Keys| <= m * n
  {
    SubsetSize(t.Keys, Grid(m, n));
  }

  lemma NewFits(p: Placement, s: AddrState)
    requires Valid(p, s)
    ensures s.nNew <= NEW_BUCKET_COUNT * BUCKET_SIZE
  {
    forall id | id in NewIds(s.info) ensures Has(s.newTab, id) {
      assert Counted(s.info, s.newTab, {}, id);
      assert Slots(s.newTab, id) != {};
      var x :| x in Slots(s.newTab, id);
      assert Holds(s.newTab, x, id);
    }
    ImageSize(s.newTab, NewIds(s.info));
    forall x | x in s.newTab ensures 0 <= x.0 < NEW_BUCKET_COUNT && 0 <= x.1 < BUCKET_SIZE {
      assert NewAt(p, s.key, s.info, s.newTab[x], x);
    }
    RoomIn(s.newTab, NEW_BUCKET_COUNT, BUCKET_SIZE);
  }

  lemma TriedFits(p: Placement, s: AddrState)
    requires Valid(p, s)
    ensures s.nTried <= TRIED_BUCKET_COUNT * BUCKET_SIZE
  {
    forall id | id in TriedIds(s.info) ensures Has(s.triedTab, id) {
      assert InTried(p, s.key, s.info, s.triedTab, id);
      assert Holds(s.triedTab, p.TriedSlot(s.key, s.info[id].addr.svc), id);
    }
    ImageSize(s.triedTab, TriedIds(s.info));
    forall x | x in s.triedTab ensures 0 <= x.0 < TRIED_BUCKET_COUNT && 0 <= x.1 < BUCKET_SIZE {
      assert TriedAt(p, s.key, s.info, s.triedTab[x], x);
    }
    RoomIn(s.triedTab, TRIED_BUCKET_COUNT, BUCKET_SIZE);
  }

  // ----- the entries come back -------------------------------------------------

  predicate Carries(info: map<int, AddrInfo>, i: int, x: Stored, tried: bool) {
    i in info && info[i] == Entry(x).(fInTried := tried, nRefCount := info[i].nRefCount, nRandomPos := info[i].nRandomPos)
  }

  /** The new entries have the first ids, in order, and the tried entries the ids after them. */
  ghost predicate Rebuilt(u: AddrState, key: Key, xs: seq<Stored>, ys: seq<Stored>) {
    && u.key == key && u.idCount == |xs| + |ys| && u.nNew == |xs| && u.nTried == |ys|
    && (forall i :: i in u.info <==> 0 <= i < |xs| + |ys|)
    && (forall i :: 0 <= i < |xs| ==> Carries(u.info, i, xs[i], false))
    && (forall k :: 0 <= k < |ys| ==> Carries(u.info, |xs| + k, ys[k], true))
  }

  lemma {:induction false} NewsRebuilt(p: Placement, key: Key, xs: seq<Stored>)
    ensures var u := LoadNews(p, Empty(key), xs, true); Rebuilt(u, key, xs, []) && u.newTab == map[] && u.triedTab == map[]
  {
    if xs != [] {
      var n := |xs| - 1;
      NewsRebuilt(p, key, xs[..n]);
      var s, u := LoadNews(p, Empty(key), xs[..n], true), LoadNews(p, Empty(key), xs, true);
      forall i | 0 <= i < |xs| ensures Carries(u.info, i, xs[i], false) {
        if i < n { assert Carries(s.info, i, xs[..n][i], false); }
      }
    }
  }

  ghost predicate SlotsOf(p: Placement, key: Key, t: Table, ys: seq<Stored>) {
    forall x :: x in t ==> exists k :: 0 <= k < |ys| && p.TriedSlot(key, ys[k].addr.svc) == x
  }

  ghost predicate OwnSlots(p: Placement, key: Key, ys: seq<Stored>) {
    forall j, k :: 0 <= j < k < |ys| ==> p.TriedSlot(key, ys[j].addr.svc) != p.TriedSlot(key, ys[k].addr.svc)
  }

  lemma {:induction false} TriedsRebuilt(p: Placement, u: AddrState, key: Key, xs: seq<Stored>, ys: seq<Stored>)
    requires Rebuilt(u, key, xs, []) && u.newTab == map[] && u.triedTab == map[] && OwnSlots(p, key, ys)
    ensures var t := LoadTrieds(p, u, ys); Rebuilt(t, key, xs, ys) && t.newTab == map[] && SlotsOf(p, key, t.triedTab, ys)
  {
    if ys != [] {
      var n := |ys| - 1;
      TriedsRebuilt(p, u, key, xs, ys[..n]);
      var s, t := LoadTrieds(p, u, ys[..n]), LoadTrieds(p, u, ys);
      var slot := p.TriedSlot(key, ys[n].addr.svc);
      assert slot !in s.triedTab by {
        assert forall k :: 0 <= k < n ==> p.TriedSlot(key, ys[..n][k].addr.svc) != slot;
      }
      TriedAdded(p, s, key, xs, ys);
      forall x | x in t.triedTab ensures exists k :: 0 <= k < |ys| && p.TriedSlot(key, ys[k].addr.svc) == x {
        if x != slot {
          var k :| 0 <= k < n && p.TriedSlot(key, ys[..n][k].addr.svc) == x;
          assert ys[k] == ys[..n][k];
        }
      }
    }
  }

  lemma TriedAdded(p: Placement, s: AddrState, key: Key, xs: seq<Stored>, ys: seq<Stored>)
    requires ys != [] && Rebuilt(s, key, xs, ys[..|ys| - 1])
    requires p.TriedSlot(key, ys[|ys| - 1].addr.svc) !in s.triedTab
    ensures Rebuilt(LoadTried(p, s, ys[|ys| - 1]), key, xs, ys)
  {
    var n := |ys| - 1;
    var t := LoadTried(p, s, ys[n]);
    forall i | 0 <= i < |xs| ensures Carries(t.info, i, xs[i], false) { assert Carries(s.info, i, xs[i], false); }
    forall k | 0 <= k < |ys| ensures Carries(t.info, |xs| + k, ys[k], true) {
      if k < n { assert Carries(s.info, |xs| + k, ys[..n][k], true); }
    }
  }

  // ----- the positions come back ------------------------------------------------

  predicate Done(x: Slot, b: int, k: int) {
    x.0 < b || (x.0 == b && x.1 < k)
  }

  ghost predicate SlotBack(u: Table, s: Table, ids: seq<int>, x: Slot, b: int, k: int) {
    && (x in u <==> x in s && Done(x, b, k))
    && (x in u ==> 0 <= u[x] < |ids| && ids[u[x]] == s[x])
  }

  /** The new table is back up to a position of a bucket, under the new ids. */
  ghost predicate FilledTo(u: Table, s: Table, ids: seq<int>, b: int, k: int) {
    forall x {:trigger SlotBack(u, s, ids, x, b, k)} :: SlotBack(u, s, ids, x, b, k)
  }

  ghost predicate Midway(p: Placement, u: AddrState, s: AddrState, b: int, k: int) {
    && Loading(p, u) && Rebuilt(u, s.key, Serialize(s).newEntries, Serialize(s).triedEntries)
    && FilledTo(u.newTab, s.newTab, Select(s.info, s.idCount, false), b, k)
  }

  lemma EmptySlot(p: Placement, u: AddrState, s: AddrState, b: int, k: int)
    requires Midway(p, u, s, b, k) && (b, k) !in s.newTab
    ensures Midway(p, u, s, b, k + 1)
  {
    var ids, next := Select(s.info, s.idCount, false), k + 1;
    forall x ensures SlotBack(u.newTab, s.newTab, ids, x, b, next) {
      assert SlotBack(u.newTab, s.newTab, ids, x, b, k);
      assert Done(x, b, next) <==> Done(x, b, k) || x == (b, k);
    }
  }

  lemma {:induction false} SmallerSet(a: set<Slot>, b: set<Slot>, x: Slot)
    requires a <= b && x in b && x !in a
    ensures |a| < |b|
  {
    SubsetSize(a, b - {x});
  }

  /** There is room for the reference that is read: the original entry had one more. */
  lemma RoomForRef(p: Placement, u: AddrState, s: AddrState, b: int, k: int)
    requires Valid(p, s) && Midway(p, u, s, b, k) && (b, k) in s.newTab
    ensures var id := s.newTab[(b, k)];
            var i := IndexOf(s.info, id);
            && 0 <= i < |Select(s.info, s.idCount, false)| && Select(s.info, s.idCount, false)[i] == id
            && id in s.info && i in u.info && !u.info[i].fInTried && u.info[i].addr.svc == s.info[id].addr.svc
            && u.info[i].nRefCount < NEW_BUCKETS_PER_ADDRESS
  {
    var ids, x := Select(s.info, s.idCount, false), (b, k);
    var id := s.newTab[x];
    assert NewAt(p, s.key, s.info, id, x);
    WrittenCounts(p, s);
    assert Selected(s.info, id, false);
    SelectAt(s.info, s.idCount, id, false);
    var i := IndexOf(s.info, id);
    SelectIs(s.info, s.idCount, false);
    assert Carries(u.info, i, Serialize(s).newEntries[i], false);
    assert Counted(u.info, u.newTab, Limbo(u.idCount), i) && Counted(s.info, s.newTab, {}, id);
    forall y | y in Slots(u.newTab, i) ensures y in Slots(s.newTab, id) && y != x {
      assert SlotBack(u.newTab, s.newTab, ids, y, b, k);
    }
    SmallerSet(Slots(u.newTab, i), Slots(s.newTab, id), x);
  }

  lemma FullSlot(p: Placement, u: AddrState, s: AddrState, b: nat, k: int)
    requires Valid(p, s) && Midway(p, u, s, b, k) && (b, k) in s.newTab && b < NEW_BUCKET_COUNT
    ensures Midway(p, LoadSlot(p, u, |Select(s.info, s.idCount, false)|, b, IndexOf(s.info, s.newTab[(b, k)]), true), s, b, k + 1)
  {
    var ids, next, x := Select(s.info, s.idCount, false), k + 1, (b, k);
    var id := s.newTab[x];
    var i := IndexOf(s.info, id);
    RoomForRef(p, u, s, b, k);
    assert NewAt(p, s.key, s.info, id, x);
    assert SlotBack(u.newTab, s.newTab, ids, x, b, k);
    var t := LoadSlot(p, u, |ids|, b, i, true);
    assert t == AddRef(u, i, x);
    AddRefSound(p, u, i, x, Limbo(u.idCount));
    RefRebuilt(u, i, x, s.key, Serialize(s).newEntries, Serialize(s).triedEntries);
    forall y ensures SlotBack(t.newTab, s.newTab, ids, y, b, next) {
      assert SlotBack(u.newTab, s.newTab, ids, y, b, k);
      assert Done(y, b, next) <==> Done(y, b, k) || y == x;
    }
  }

  lemma RefRebuilt(u: AddrState, i: int, x: Slot, key: Key, xs: seq<Stored>, ys: seq<Stored>)
    requires Rebuilt(u, key, xs, ys) && i in u.info
    ensures Rebuilt(AddRef(u, i, x), key, xs, ys)
  {
    var t := AddRef(u, i, x);
    forall j | 0 <= j < |xs| ensures Carries(t.info, j, xs[j], false) { assert Carries(u.info, j, xs[j], false); }
    forall k | 0 <= k < |ys| ensures Carries(t.info, |xs| + k, ys[k], true) { assert Carries(u.info, |xs| + k, ys[k], true); }
  }

  lemma {:induction false} BucketBack(p: Placement, u: AddrState, s: AddrState, b: nat, n: nat)
    requires Valid(p, s) && Midway(p, u, s, b, 0) && b < NEW_BUCKET_COUNT
    ensures Midway(p, LoadBucket(p, u, |Select(s.info, s.idCount, false)|, b, BucketIndexes(s, b, n), true), s, b, n)
  {
    if n > 0 {
      var m, all, rest := |Select(s.info, s.idCount, false)|, BucketIndexes(s, b, n), BucketIndexes(s, b, n - 1);
      BucketBack(p, u, s, b, n - 1);
      var t := LoadBucket(p, u, m, b, rest, true);
      if (b, n - 1) in s.newTab {
        assert all[..|all| - 1] == rest;
        FullSlot(p, t, s, b, n - 1);
      } else {
        assert all == rest;
        EmptySlot(p, t, s, b, n - 1);
      }
    }
  }

  /** A bucket is full after its last position. */
  lemma NextBucket(p: Placement, u: AddrState, s: AddrState, b: nat)
    requires Valid(p, s) && Midway(p, u, s, b, BUCKET_SIZE)
    ensures Midway(p, u, s, b + 1, 0)
  {
    var ids, next := Select(s.info, s.idCount, false), b + 1;
    forall x ensures SlotBack(u.newTab, s.newTab, ids, x, next, 0) {
      assert SlotBack(u.newTab, s.newTab, ids, x, b, BUCKET_SIZE);
      if x in s.newTab {
        assert NewAt(p, s.key, s.info, s.newTab[x], x);
        assert Done(x, next, 0) <==> Done(x, b, BUCKET_SIZE);
      }
    }
  }

  lemma {:induction false} BucketsBack(p: Placement, u: AddrState, s: AddrState, n: nat)
    requires Valid(p, s) && Midway(p, u, s, 0, 0) && n <= NEW_BUCKET_COUNT
    ensures Midway(p, LoadBuckets(p, u, |Select(s.info, s.idCount, false)|, Buckets(s, n), true), s, n, 0)
  {
    if n > 0 {
      var b, m := n - 1, |Select(s.info, s.idCount, false)|;
      BucketsBack(p, u, s, b);
      assert Buckets(s, n)[..b] == Buckets(s, b);
      var t := LoadBuckets(p, u, m, Buckets(s, b), true);
      BucketBack(p, t, s, b, BUCKET_SIZE);
      NextBucket(p, LoadBucket(p, t, m, b, BucketIndexes(s, b, BUCKET_SIZE), true), s, b);
    }
  }

  // ----- the whole ---------------------------------------------------------------

  /** The ids under which the entries of a manager are found after it was written and read: new ones first. */
  function Renamed(s: AddrState): seq<int> {
    Select(s.info, s.idCount, false) + Select(s.info, s.idCount, true)
  }

  lemma RenamedIs(p: Placement, s: AddrState)
    requires Valid(p, s)
    ensures |Renamed(s)| == s.nNew + s.nTried
    ensures forall i :: 0 <= i < |Renamed(s)| ==> Renamed(s)[i] in s.info && (s.info[Renamed(s)[i]].fInTried <==> i >= s.nNew)
    ensures forall i, j :: 0 <= i < j < |Renamed(s)| ==> Renamed(s)[i] != Renamed(s)[j]
  {
    WrittenCounts(p, s);
    SelectIs(s.info, s.idCount, false);
    SelectIs(s.info, s.idCount, true);
    var r, n := Renamed(s), s.nNew;
    forall i | 0 <= i < |r| ensures r[i] in s.info && (s.info[r[i]].fInTried <==> i >= n) {
      if i < n { assert Selected(s.info, r[i], false); } else { assert Selected(s.info, r[i], true); }
    }
  }

  lemma FileIs(p: Placement, s: AddrState)
    requires Valid(p, s)
    ensures var f := Serialize(s);
            var all := f.newEntries + f.triedEntries;
            && |f.newEntries| == s.nNew == f.nNew && |f.triedEntries| == s.nTried == f.nTried && Usable(f)
            && |all| == |Renamed(s)| && forall i :: 0 <= i < |all| ==> Renamed(s)[i] in s.info && all[i] == Store(s.info[Renamed(s)[i]])
  {
    RenamedIs(p, s);
    WrittenCounts(p, s);
  }

  lemma FileDistinct(p: Placement, s: AddrState)
    requires Valid(p, s)
    ensures DistinctIps(Serialize(s).newEntries + Serialize(s).triedEntries)
    ensures OwnSlots(p, s.key, Serialize(s).triedEntries)
  {
    var f, r := Serialize(s), Renamed(s);
    var all := f.newEntries + f.triedEntries;
    RenamedIs(p, s);
    FileIs(p, s);
    forall i, j | 0 <= i < j < |all| ensures Ip(all[i]) != Ip(all[j]) {
      assert InAddr(s.info, s.addr, r[i]) && InAddr(s.info, s.addr, r[j]);
    }
    forall j, k | 0 <= j < k < |f.triedEntries|
      ensures p.TriedSlot(s.key, f.triedEntries[j].addr.svc) != p.TriedSlot(s.key, f.triedEntries[k].addr.svc)
    {
      var a, b := r[s.nNew + j], r[s.nNew + k];
      assert f.triedEntries[j] == all[s.nNew + j] && f.triedEntries[k] == all[s.nNew + k];
      assert InTried(p, s.key, s.info, s.triedTab, a) && InTried(p, s.key, s.info, s.triedTab, b);
    }
  }

  lemma {:induction false} NothingPruned(u: AddrState, n: int)
    requires forall i :: !Unused(u, i)
    ensures Prune(u, n) == u
    decreases n
  {
    if n > 0 { NothingPruned(u, n - 1); }
  }

  /** All that was written is read: before pruning, every entry and every position is back. */
  lemma AllBack(p: Placement, s: AddrState)
    requires Valid(p, s)
    ensures Midway(p, LoadAll(p, Serialize(s)), s, NEW_BUCKET_COUNT, 0)
  {
    var f, n := Serialize(s), s.nNew;
    FileIs(p, s);
    WrittenCounts(p, s);
    FileDistinct(p, s);
    LoadNewsKeeps(p, s.key, f.newEntries, true);
    NewsRebuilt(p, s.key, f.newEntries);
    var u := LoadNews(p, Empty(s.key), f.newEntries, true);
    LoadTriedsKeeps(p, u, f.triedEntries, n);
    TriedsRebuilt(p, u, s.key, f.newEntries, f.triedEntries);
    var t := LoadTrieds(p, u, f.triedEntries);
    NothingFilled(p, t, s);
    BucketsBack(p, t, s, NEW_BUCKET_COUNT);
  }

  lemma NothingFilled(p: Placement, t: AddrState, s: AddrState)
    requires Valid(p, s) && t.newTab == map[]
    ensures FilledTo(t.newTab, s.newTab, Select(s.info, s.idCount, false), 0, 0)
  {
    forall x ensures SlotBack(t.newTab, s.newTab, Select(s.info, s.idCount, false), x, 0, 0) {
      if x in s.newTab { assert NewAt(p, s.key, s.info, s.newTab[x], x); }
    }
  }

  /** A table is the same with other ids. */
  ghost predicate SameTable(u: Table, s: Table, ids: seq<int>) {
    && (forall x :: x in u <==> x in s)
    && (forall x :: x in u ==> 0 <= u[x] < |ids| && ids[u[x]] == s[x])
  }

  /** The same manager with other ids, up to what is kept in memory only. */
  ghost predicate SameStored(u: AddrState, s: AddrState, ids: seq<int>) {
    && u.key == s.key && u.nNew == s.nNew && u.nTried == s.nTried && u.idCount == |ids|
    && (forall i :: i in u.info <==> 0 <= i < |ids|)
    && (forall i :: 0 <= i < |ids| ==> ids[i] in s.info && SameEntryStored(u.info, i, s.info, ids[i]))
    && (forall n :: n in s.info ==> n in ids)
    && SameTable(u.newTab, s.newTab, ids) && SameTable(u.triedTab, s.triedTab, ids)
  }

  ghost predicate SameEntryStored(u: map<int, AddrInfo>, i: int, s: map<int, AddrInfo>, n: int) {
    && i in u && n in s && Store(u[i]) == Store(s[n]) && u[i].fInTried == s[n].fInTried
    && u[i].nLastTry == 0 && u[i].nLastCountAttempt == 0
  }

  /** Writing a manager and reading it back into a fresh one gives the same manager, consistent, with nothing lost. */
  lemma RoundTrip(p: Placement, s: AddrState)
    requires Valid(p, s)
    ensures Unserialize(p, Serialize(s)).Loaded?
    ensures Valid(p, Unserialize(p, Serialize(s)).state)
    ensures SameStored(Unserialize(p, Serialize(s)).state, s, Renamed(s))
  {
    var f := Serialize(s);
    FileIs(p, s);
    NewFits(p, s);
    TriedFits(p, s);
    FileDistinct(p, s);
    DistinctValid(p, f);
    AllBack(p, s);
    var u := LoadAll(p, f);
    NothingUnused(p, u, s);
    NothingPruned(u, u.idCount);
    EntriesSame(p, u, s);
    NewTableSame(p, u, s);
    TriedTableSame(p, u, s);
  }

  lemma NothingUnused(p: Placement, u: AddrState, s: AddrState)
    requires Valid(p, s) && Midway(p, u, s, NEW_BUCKET_COUNT, 0)
    ensures forall i :: !Unused(u, i)
  {
    var ids := Select(s.info, s.idCount, false);
    WrittenCounts(p, s);
    SelectIs(s.info, s.idCount, false);
    forall i ensures !Unused(u, i) {
      if 0 <= i < |ids| {
        var id := ids[i];
        assert Selected(s.info, id, false);
        assert Counted(s.info, s.newTab, {}, id) && Counted(u.info, u.newTab, Limbo(u.idCount), i);
        var x := AnyOf(Slots(s.newTab, id));
        assert SlotBack(u.newTab, s.newTab, ids, x, NEW_BUCKET_COUNT, 0) && NewAt(p, s.key, s.info, id, x);
        assert u.newTab[x] == i;
        assert x in Slots(u.newTab, i);
      } else if i in u.info {
        assert Carries(u.info, |ids| + (i - |ids|), Serialize(s).triedEntries[i - |ids|], true);
      }
    }
  }

  lemma EntriesSame(p: Placement, u: AddrState, s: AddrState)
    requires Valid(p, s) && Rebuilt(u, s.key, Serialize(s).newEntries, Serialize(s).triedEntries)
    ensures var ids := Renamed(s);
            && u.nNew == s.nNew && u.nTried == s.nTried && u.idCount == |ids|
            && (forall i :: i in u.info <==> 0 <= i < |ids|)
            && (forall i :: 0 <= i < |ids| ==> ids[i] in s.info && SameEntryStored(u.info, i, s.info, ids[i]))
            && (forall n :: n in s.info ==> n in ids)
  {
    var f, ids := Serialize(s), Renamed(s);
    FileIs(p, s);
    RenamedIs(p, s);
    WrittenCounts(p, s);
    forall i | 0 <= i < |ids| ensures SameEntryStored(u.info, i, s.info, ids[i]) {
      if i < s.nNew {
        assert Carries(u.info, i, f.newEntries[i], false);
      } else {
        assert Carries(u.info, |f.newEntries| + (i - s.nNew), f.triedEntries[i - s.nNew], true);
      }
    }
    forall n | n in s.info ensures n in ids {
      var tried := s.info[n].fInTried;
      assert Selected(s.info, n, tried);
      SelectAt(s.info, s.idCount, n, tried);
      var k := |Select(s.info, n, tried)|;
      assert ids[if tried then s.nNew + k else k] == n;
    }
  }

  lemma NewTableSame(p: Placement, u: AddrState, s: AddrState)
    requires Valid(p, s) && Midway(p, u, s, NEW_BUCKET_COUNT, 0)
    ensures SameTable(u.newTab, s.newTab, Renamed(s))
  {
    var ids := Select(s.info, s.idCount, false);
    forall x ensures x in u.newTab <==> x in s.newTab
      ensures x in u.newTab ==> 0 <= u.newTab[x] < |Renamed(s)| && Renamed(s)[u.newTab[x]] == s.newTab[x]
    {
      assert SlotBack(u.newTab, s.newTab, ids, x, NEW_BUCKET_COUNT, 0);
      if x in s.newTab { assert NewAt(p, s.key, s.info, s.newTab[x], x); }
    }
  }

  lemma TriedTableSame(p: Placement, u: AddrState, s: AddrState)
    requires Valid(p, s) && Loading(p, u) && u.key == s.key
    requires forall i :: i in u.info <==> 0 <= i < |Renamed(s)|
    requires forall i :: 0 <= i < |Renamed(s)| ==> SameEntryStored(u.info, i, s.info, Renamed(s)[i])
    requires forall n :: n in s.info ==> n in Renamed(s)
    ensures SameTable(u.triedTab, s.triedTab, Renamed(s))
  {
    var ids := Renamed(s);
    forall x | x in u.triedTab ensures x in s.triedTab && 0 <= u.triedTab[x] < |ids| && ids[u.triedTab[x]] == s.triedTab[x] {
      var i := u.triedTab[x];
      assert TriedAt(p, u.key, u.info, i, x);
      assert SameEntryStored(u.info, i, s.info, ids[i]);
      assert InTried(p, s.key, s.info, s.triedTab, ids[i]);
    }
    forall x | x in s.triedTab ensures x in u.triedTab {
      var n := s.triedTab[x];
      assert TriedAt(p, s.key, s.info, n, x);
      assert n in ids;
      var i :| 0 <= i < |ids| && ids[i] == n;
      assert SameEntryStored(u.info, i, s.info, ids[i]);
      assert InTried(p, u.key, u.info, u.triedTab, i);
    }
  }
}
