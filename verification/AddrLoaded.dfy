/**
 When a manager that was read from a file is valid. All but its address index always is, unless a counter was negative;
 the index is, exactly when no entry that stays shares its address with another that was read.
 */
module AddrLoaded {
  import opened AddrTables
  import opened AddrFile

  // ----- the address index while loading ----------------------------------------

  predicate IsListed(info: map<int, AddrInfo>, addr: map<NetAddr, int>, n: int) {
    n in info ==> info[n].addr.svc.ip in addr
  }

  /** The address of every entry is listed, for some entry that has it. */
  ghost predicate Listed(s: AddrState) {
    && (forall ip {:trigger HasIp(s.info, s.addr[ip], ip)} :: ip in s.addr ==> HasIp(s.info, s.addr[ip], ip))
    && (forall n {:trigger IsListed(s.info, s.addr, n)} :: IsListed(s.info, s.addr, n))
    && (forall n :: n in s.info ==> n < s.idCount)
  }

  lemma EnlistListed(s: AddrState, e: AddrInfo)
    requires Listed(s)
    ensures Listed(Enlist(s, e))
  {
    var t := Enlist(s, e);
    forall ip | ip in t.addr ensures HasIp(t.info, t.addr[ip], ip) {
      if ip != e.addr.svc.ip { assert HasIp(s.info, s.addr[ip], ip); }
    }
    forall n ensures IsListed(t.info, t.addr, n) { assert IsListed(s.info, s.addr, n); }
  }

  /** A state with the same ids, addresses and index. */
  ghost predicate SameAddresses(s: AddrState, t: AddrState) {
    && t.addr == s.addr && t.idCount == s.idCount && t.info.Keys == s.info.Keys
    && forall n :: n in s.info ==> t.info[n].addr == s.info[n].addr
  }

  lemma SameListed(s: AddrState, t: AddrState)
    requires Listed(s) && SameAddresses(s, t)
    ensures Listed(t)
  {
    forall ip | ip in t.addr ensures HasIp(t.info, t.addr[ip], ip) { assert HasIp(s.info, s.addr[ip], ip); }
    forall n ensures IsListed(t.info, t.addr, n) { assert IsListed(s.info, s.addr, n); }
  }

  lemma {:induction false} LoadNewsListed(p: Placement, s: AddrState, xs: seq<Stored>, usable: bool)
    requires Listed(s)
    ensures Listed(LoadNews(p, s, xs, usable))
  {
    if xs != [] {
      var n := |xs| - 1;
      LoadNewsListed(p, s, xs[..n], usable);
      var t := LoadNews(p, s, xs[..n], usable);
      EnlistListed(t, Entry(xs[n]));
      SameListed(Enlist(t, Entry(xs[n])), LoadNew(p, t, xs[n], usable));
    }
  }

  lemma {:induction false} LoadTriedsListed(p: Placement, s: AddrState, xs: seq<Stored>)
    requires Listed(s)
    ensures Listed(LoadTrieds(p, s, xs))
  {
    if xs != [] {
      var n := |xs| - 1;
      LoadTriedsListed(p, s, xs[..n]);
      var t := LoadTrieds(p, s, xs[..n]);
      EnlistListed(t, Entry(xs[n]));
      if p.TriedSlot(t.key, xs[n].addr.svc) !in t.triedTab {
        SameListed(Enlist(t, Entry(xs[n])), LoadTried(p, t, xs[n]));
      }
    }
  }

  /** Reading positions changes neither ids, addresses nor counters. */
  ghost predicate OnlyRefs(s: AddrState, t: AddrState) {
    SameAddresses(s, t) && t.nNew == s.nNew && t.nTried == s.nTried
  }

  lemma {:induction false} BucketOnlyRefs(p: Placement, s: AddrState, nNew: nat, bucket: nat, indexes: seq<int>, usable: bool)
    ensures OnlyRefs(s, LoadBucket(p, s, nNew, bucket, indexes, usable))
  {
    if indexes != [] { BucketOnlyRefs(p, s, nNew, bucket, indexes[..|indexes| - 1], usable); }
  }

  lemma {:induction false} BucketsOnlyRefs(p: Placement, s: AddrState, nNew: nat, buckets: seq<seq<int>>, usable: bool)
    ensures OnlyRefs(s, LoadBuckets(p, s, nNew, buckets, usable))
  {
    if buckets != [] {
      var b := |buckets| - 1;
      BucketsOnlyRefs(p, s, nNew, buckets[..b], usable);
      BucketOnlyRefs(p, LoadBuckets(p, s, nNew, buckets[..b], usable), nNew, b, buckets[b], usable);
    }
  }

  lemma LoadAllListed(p: Placement, f: File)
    ensures Listed(LoadAll(p, f))
  {
    LoadNewsListed(p, Start(f), f.newEntries, Usable(f));
    LoadTriedsListed(p, LoadNews(p, Start(f), f.newEntries, Usable(f)), f.triedEntries);
    BucketsOnlyRefs(p, LoadEntries(p, f), |f.newEntries|, f.buckets, Usable(f));
    SameListed(LoadEntries(p, f), LoadAll(p, f));
  }

  // ----- what pruning does --------------------------------------------------------

  predicate Dropped(u: AddrState, n: int, i: int) {
    0 <= i < n && Unused(u, i)
  }

  ghost predicate AddressDropped(u: AddrState, n: int, ip: NetAddr) {
    exists i :: Dropped(u, n, i) && u.info[i].addr.svc.ip == ip
  }

  predicate EntryStays(u: AddrState, v: AddrState, n: int, i: int) {
    && (i in v.info <==> i in u.info && !Dropped(u, n, i))
    && (i in v.info ==> SameEntry(u.info[i], v.info[i]))
  }

  ghost predicate AddressStays(u: AddrState, v: AddrState, n: int, ip: NetAddr) {
    && (ip in v.addr <==> ip in u.addr && !AddressDropped(u, n, ip))
    && (ip in v.addr ==> v.addr[ip] == u.addr[ip])
  }

  /** The unused entries below a number are gone, and with each of them the listing of its address. */
  ghost predicate PrunedTo(u: AddrState, v: AddrState, n: int) {
    && RandomOk(v.info, v.random) && v.nTried == u.nTried && v.nNew <= u.nNew
    && (forall i {:trigger EntryStays(u, v, n, i)} :: EntryStays(u, v, n, i))
    && (forall ip {:trigger AddressStays(u, v, n, ip)} :: AddressStays(u, v, n, ip))
  }

  lemma DeleteRandom(s: AddrState, id: int)
    requires RandomOk(s.info, s.random) && Unused(s, id)
    ensures CanDelete(s, id)
    ensures var t := Delete(s, id);
            && RandomOk(t.info, t.random) && t.nTried == s.nTried && t.nNew == s.nNew - 1
            && t.addr == s.addr - {s.info[id].addr.svc.ip} && t.info.Keys == s.info.Keys - {id}
            && forall i :: i in t.info ==> SameEntry(s.info[i], t.info[i])
  {
    Deletable(s, id);
    SwapIndexes(s, s.info[id].nRandomPos, |s.random| - 1);
    DropRandom(SwapRandom(s, s.info[id].nRandomPos, |s.random| - 1), id);
  }

  lemma PruneOne(u: AddrState, v: AddrState, n: nat)
    requires PrunedTo(u, v, n)
    ensures PrunedTo(u, PruneId(v, n), n + 1)
  {
    var w, next := PruneId(v, n), n + 1;
    assert EntryStays(u, v, n, n);
    if Unused(v, n) { DeleteRandom(v, n); }
    forall i ensures EntryStays(u, w, next, i) { assert EntryStays(u, v, n, i); }
    forall ip ensures AddressStays(u, w, next, ip) {
      assert AddressStays(u, v, n, ip);
      OneMoreDropped(u, n, ip);
    }
  }

  lemma OneMoreDropped(u: AddrState, n: nat, ip: NetAddr)
    ensures AddressDropped(u, n + 1, ip) <==>
              AddressDropped(u, n, ip) || (Unused(u, n) && u.info[n].addr.svc.ip == ip)
  {
    var next := n + 1;
    if AddressDropped(u, n, ip) {
      var i :| Dropped(u, n, i) && u.info[i].addr.svc.ip == ip;
      assert Dropped(u, next, i);
    }
    if AddressDropped(u, next, ip) {
      var i :| Dropped(u, next, i) && u.info[i].addr.svc.ip == ip;
      assert i == n || Dropped(u, n, i);
    }
    if Unused(u, n) { assert Dropped(u, next, n); }
  }

  lemma {:induction false} PruneEffect(u: AddrState, n: int)
    requires RandomOk(u.info, u.random)
    ensures PrunedTo(u, Prune(u, n), n)
    decreases n
  {
    if n > 0 {
      PruneEffect(u, n - 1);
      PruneOne(u, Prune(u, n - 1), n - 1);
    }
  }

  // ----- when the result is valid -------------------------------------------------

  /** An entry that shares its address with another is not used by any table. */
  predicate Apart(u: AddrState, m: int, n: int) {
    m in u.info && n in u.info && m != n && u.info[m].addr.svc.ip == u.info[n].addr.svc.ip ==> Unused(u, n)
  }

  ghost predicate AllApart(u: AddrState) {
    forall m, n {:trigger Apart(u, m, n)} :: Apart(u, m, n)
  }

  lemma IndexExact(u: AddrState, v: AddrState)
    requires Listed(u) && PrunedTo(u, v, u.idCount) && forall n :: n in u.info ==> 0 <= n
    ensures AddrOk(v.info, v.addr) <==> AllApart(u)
  {
    if AllApart(u) {
      forall ip | ip in v.addr ensures HasIp(v.info, v.addr[ip], ip) { ListedStays(u, v, ip); }
      forall n ensures InAddr(v.info, v.addr, n) { ApartListed(u, v, n); }
    }
    if AddrOk(v.info, v.addr) {
      forall m, n ensures Apart(u, m, n) { ListedApart(u, v, m, n); }
    }
  }

  lemma ListedStays(u: AddrState, v: AddrState, ip: NetAddr)
    requires Listed(u) && PrunedTo(u, v, u.idCount) && (forall n :: n in u.info ==> 0 <= n) && ip in v.addr
    ensures HasIp(v.info, v.addr[ip], ip)
  {
    assert AddressStays(u, v, u.idCount, ip);
    var a := u.addr[ip];
    assert HasIp(u.info, u.addr[ip], ip) && EntryStays(u, v, u.idCount, a);
    assert Dropped(u, u.idCount, a) ==> AddressDropped(u, u.idCount, ip);
  }

  lemma ApartListed(u: AddrState, v: AddrState, n: int)
    requires Listed(u) && PrunedTo(u, v, u.idCount) && (forall n :: n in u.info ==> 0 <= n) && AllApart(u)
    ensures InAddr(v.info, v.addr, n)
  {
    assert EntryStays(u, v, u.idCount, n) && IsListed(u.info, u.addr, n);
    if n in v.info {
      var ip := u.info[n].addr.svc.ip;
      var a := u.addr[ip];
      assert HasIp(u.info, u.addr[ip], ip) && Apart(u, a, n) && AddressStays(u, v, u.idCount, ip);
      forall i | Dropped(u, u.idCount, i) ensures u.info[i].addr.svc.ip != ip { assert Apart(u, i, n); }
    }
  }

  lemma ListedApart(u: AddrState, v: AddrState, m: int, n: int)
    requires Listed(u) && PrunedTo(u, v, u.idCount) && (forall n :: n in u.info ==> 0 <= n) && AddrOk(v.info, v.addr)
    ensures Apart(u, m, n)
  {
    assert EntryStays(u, v, u.idCount, n) && InAddr(v.info, v.addr, n);
    assert EntryStays(u, v, u.idCount, m) && InAddr(v.info, v.addr, m);
    if m in u.info {
      var ip := u.info[m].addr.svc.ip;
      assert AddressStays(u, v, u.idCount, ip);
      assert Dropped(u, u.idCount, m) ==> AddressDropped(u, u.idCount, ip);
    }
  }

  lemma {:induction false} PruneSound(p: Placement, u: AddrState, limbo: set<int>, n: int)
    requires Sound(p, u, limbo, 0)
    ensures Sound(p, Prune(u, n), limbo, 0)
    decreases n
  {
    if n > 0 {
      PruneSound(p, u, limbo, n - 1);
      if Unused(Prune(u, n - 1), n - 1) { DeleteSound(p, Prune(u, n - 1), n - 1, limbo, 0); }
    }
  }

  lemma AllSettled(p: Placement, u: AddrState)
    requires Loading(p, u)
    ensures Sound(p, Prune(u, u.idCount), {}, 0)
  {
    var v := Prune(u, u.idCount);
    PruneSound(p, u, Limbo(u.idCount), u.idCount);
    PruneEffect(u, u.idCount);
    forall n ensures Counted(v.info, v.newTab, {}, n) {
      assert Counted(v.info, v.newTab, Limbo(u.idCount), n) && EntryStays(u, v, u.idCount, n);
    }
  }

  lemma {:induction false} TriedsKeepNew(p: Placement, s: AddrState, xs: seq<Stored>)
    ensures LoadTrieds(p, s, xs).nNew == s.nNew
  {
    if xs != [] { TriedsKeepNew(p, s, xs[..|xs| - 1]); }
  }

  lemma {:induction false} NewsKeepTried(p: Placement, s: AddrState, xs: seq<Stored>, usable: bool)
    ensures LoadNews(p, s, xs, usable).nTried == s.nTried
  {
    if xs != [] { NewsKeepTried(p, s, xs[..|xs| - 1], usable); }
  }

  /** A negative counter stays negative. */
  lemma NegativeStays(p: Placement, f: File)
    requires Complete(f) && (f.nNew < 0 || f.nTried < 0)
    ensures LoadAll(p, f).nNew < 0 || LoadAll(p, f).nTried < 0
  {
    TriedsKeepNew(p, LoadNews(p, Start(f), f.newEntries, Usable(f)), f.triedEntries);
    NewsKeepTried(p, Start(f), f.newEntries, Usable(f));
    BucketsOnlyRefs(p, LoadEntries(p, f), |f.newEntries|, f.buckets, Usable(f));
  }

  /** Whatever file is accepted, the manager is valid if and only if neither counter is negative and, before the unused
      entries are dropped, every entry that shares its address with another is one of those. */
  lemma LoadedValid(p: Placement, f: File)
    requires Unserialize(p, f).Loaded?
    ensures Valid(p, Unserialize(p, f).state) <==> f.nNew >= 0 && f.nTried >= 0 && AllApart(LoadAll(p, f))
  {
    var u := LoadAll(p, f);
    LoadAllPlaced(p, f);
    PruneEffect(u, u.idCount);
    if f.nNew >= 0 && f.nTried >= 0 {
      LoadAllKeeps(p, f);
      LoadAllListed(p, f);
      AllSettled(p, u);
      IndexExact(u, Prune(u, u.idCount));
    } else {
      NegativeStays(p, f);
    }
  }

  // ----- files ----------------------------------------------------------------------

  function Ip(x: Stored): NetAddr {
    x.addr.svc.ip
  }

  ghost predicate DistinctIps(xs: seq<Stored>) {
    forall i, j :: 0 <= i < j < |xs| ==> Ip(xs[i]) != Ip(xs[j])
  }

  ghost predicate Among(ip: NetAddr, xs: seq<Stored>) {
    exists i :: 0 <= i < |xs| && Ip(xs[i]) == ip
  }

  /** The entries have different addresses, of the list. */
  ghost predicate Different(s: AddrState, xs: seq<Stored>) {
    && (forall n :: n in s.info ==> n < s.idCount && Among(s.info[n].addr.svc.ip, xs))
    && (forall m, n :: m in s.info && n in s.info && m != n ==> s.info[m].addr.svc.ip != s.info[n].addr.svc.ip)
  }

  lemma AmongMore(ip: NetAddr, xs: seq<Stored>)
    requires xs != [] && Among(ip, xs[..|xs| - 1])
    ensures Among(ip, xs)
  {
    var i :| 0 <= i < |xs| - 1 && Ip(xs[..|xs| - 1][i]) == ip;
    assert Ip(xs[i]) == ip;
  }

  lemma OneMoreDifferent(s: AddrState, t: AddrState, xs: seq<Stored>)
    requires xs != [] && DistinctIps(xs) && Different(s, xs[..|xs| - 1])
    requires t == s || SameAddresses(Enlist(s, Entry(xs[|xs| - 1])), t)
    ensures Different(t, xs)
  {
    var n := |xs| - 1;
    assert !Among(Ip(xs[n]), xs[..n]);
    forall k | k in t.info ensures Among(t.info[k].addr.svc.ip, xs) {
      if k in s.info && (t == s || k != s.idCount) {
        AmongMore(s.info[k].addr.svc.ip, xs);
      } else {
        assert Ip(xs[n]) == t.info[k].addr.svc.ip;
      }
    }
  }

  lemma {:induction false} NewsDifferent(p: Placement, key: Key, xs: seq<Stored>, usable: bool)
    requires DistinctIps(xs)
    ensures Different(LoadNews(p, Empty(key), xs, usable), xs)
  {
    if xs != [] {
      var n := |xs| - 1;
      NewsDifferent(p, key, xs[..n], usable);
      var s := LoadNews(p, Empty(key), xs[..n], usable);
      OneMoreDifferent(s, LoadNew(p, s, xs[n], usable), xs);
    }
  }

  lemma {:induction false} TriedsDifferent(p: Placement, s: AddrState, before: seq<Stored>, xs: seq<Stored>)
    requires DistinctIps(before + xs) && Different(s, before)
    ensures Different(LoadTrieds(p, s, xs), before + xs)
  {
    if xs == [] {
      assert before + xs == before;
    } else {
      var n, all := |xs| - 1, before + xs;
      assert all[..|all| - 1] == before + xs[..n];
      TriedsDifferent(p, s, before, xs[..n]);
      var t := LoadTrieds(p, s, xs[..n]);
      OneMoreDifferent(t, LoadTried(p, t, xs[n]), all);
    }
  }

  /** A file without negative counters in which no address occurs twice gives a valid manager. */
  lemma DistinctValid(p: Placement, f: File)
    requires Unserialize(p, f).Loaded? && f.nNew >= 0 && f.nTried >= 0
    requires DistinctIps(f.newEntries + f.triedEntries)
    ensures Valid(p, Unserialize(p, f).state)
  {
    var all := f.newEntries + f.triedEntries;
    assert DistinctIps(f.newEntries) by {
      assert forall i :: 0 <= i < |f.newEntries| ==> all[i] == f.newEntries[i];
    }
    NewsDifferent(p, f.key, f.newEntries, Usable(f));
    TriedsDifferent(p, LoadNews(p, Start(f), f.newEntries, Usable(f)), f.newEntries, f.triedEntries);
    BucketsOnlyRefs(p, LoadEntries(p, f), |f.newEntries|, f.buckets, Usable(f));
    forall m, n ensures Apart(LoadAll(p, f), m, n) {}
    LoadedValid(p, f);
  }

  /** A state in which two entries have one address is not valid. */
  lemma SharedAddress(p: Placement, s: AddrState, m: int, n: int)
    requires m in s.info && n in s.info && m != n && s.info[m].addr.svc.ip == s.info[n].addr.svc.ip
    ensures !(InAddr(s.info, s.addr, m) && InAddr(s.info, s.addr, n)) && !Valid(p, s)
  {
    assert !(InAddr(s.info, s.addr, m) && InAddr(s.info, s.addr, n));
  }

  lemma TwoLoaded(p: Placement, key: Key, x: Stored, y: Stored)
    requires Ip(x) == Ip(y) && p.NewSlot(key, x.addr.svc, x.source) != p.NewSlot(key, y.addr.svc, y.source)
    ensures var s := LoadAll(p, File(0, key, 2, 0, [x, y], [], []));
            && s.idCount == 2 && s.info.Keys == {0, 1} && s.info[0].nRefCount == 1 && s.info[1].nRefCount == 1
            && s.info[0].addr.svc.ip == s.info[1].addr.svc.ip && s.addr == map[Ip(x) := 1]
  {
    var s1 := LoadNew(p, Empty(key), x, false);
    assert [x, y][..1] == [x] && [x][..0] == [];
    assert LoadNews(p, Empty(key), [x], false) == s1;
    assert LoadNews(p, Empty(key), [x, y], false) == LoadNew(p, s1, y, false);
  }

  /** What is read when two new entries of a file have one address and get slots of their own: both stay, but the
      index lists the second only. */
  lemma AddressTwice(p: Placement, key: Key, x: Stored, y: Stored)
    requires Ip(x) == Ip(y) && p.NewSlot(key, x.addr.svc, x.source) != p.NewSlot(key, y.addr.svc, y.source)
    ensures var f := File(0, key, 2, 0, [x, y], [], []);
            Unserialize(p, f).Loaded? && !Valid(p, Unserialize(p, f).state)
            && var s := Unserialize(p, f).state; 0 in s.info && 1 in s.info && s.addr == map[Ip(x) := 1]
  {
    var f := File(0, key, 2, 0, [x, y], [], []);
    TwoLoaded(p, key, x, y);
    var s2 := LoadAll(p, f);
    assert Prune(s2, 1) == s2 && Prune(s2, 2) == s2;
    assert !Apart(s2, 0, 1);
    LoadedValid(p, f);
  }

  /** A file with the number -1 of new entries, and nothing in it, is accepted: the counters do not add up to the size
      of the random vector, which is what the check looks at first. */
  lemma NegativeCount(p: Placement, key: Key)
    ensures var f := File(1, key, -1, 0, [], [], []);
            && Unserialize(p, f).Loaded? && !Valid(p, Unserialize(p, f).state)
            && var s := Unserialize(p, f).state;
               s == Empty(key).(idCount := -1, nNew := -1) && |s.random| != s.nTried + s.nNew
  {
    var f := File(1, key, -1, 0, [], [], []);
    assert LoadAll(p, f) == Empty(key).(idCount := -1, nNew := -1);
    LoadedValid(p, f);
  }
}
