/** Writing and reading the address manager itself, as loops over its maps and tables. */
module AddrManFile {
  import opened AddrTables
  import opened AddrFile
  import opened AddrLoaded
  import opened AddrRoundTrip
  import opened AddrMan
  import opened AddrCheck

  // ----- writing -------------------------------------------------------------

  /** The entries of one kind, and for each id the number written before it. */
  method WriteEntries(m: AddrManager, tried: bool) returns (entries: seq<Stored>, numbers: map<int, int>)
    requires m.Valid()
    ensures entries == if tried then AddrRoundTrip.Serialize(m.State()).triedEntries
                       else AddrRoundTrip.Serialize(m.State()).newEntries
    ensures forall n :: n in numbers <==> n in m.mapInfo
    ensures !tried ==> forall n :: n in m.mapInfo ==> numbers[n] == IndexOf(m.mapInfo, n)
  {
    ghost var s := m.State();
    entries, numbers := [], map[];
    var nIds := 0;
    for n := 0 to m.nIdCount
      invariant nIds == |entries| && entries == Written(m.mapInfo, n, tried)
      invariant forall i :: i in numbers <==> i in m.mapInfo && 0 <= i < n
      invariant forall i :: i in numbers ==> numbers[i] == |Written(m.mapInfo, i, tried)|
    {
      if n in m.mapInfo {
        numbers := numbers[n := nIds];
        if Selected(m.mapInfo, n, tried) {
          MoreToWrite(m.p, s, n, tried);
          assert nIds != if tried then m.nTried else m.nNew;
          entries := entries + [AddrRoundTrip.Store(m.mapInfo[n])];
          nIds := nIds + 1;
        }
      }
    }
    WrittenIs(s.info, s.idCount, tried);
    forall i | i in numbers ensures numbers[i] == |Select(m.mapInfo, i, tried)| { WrittenIs(m.mapInfo, i, tried); }
  }

  /** What is written of the entries below a number. */
  function Written(info: map<int, AddrInfo>, n: int, tried: bool): seq<Stored>
    decreases n
  {
    if n <= 0 then []
    else Written(info, n - 1, tried) + if Selected(info, n - 1, tried) then [AddrRoundTrip.Store(info[n - 1])] else []
  }

  lemma {:induction false} WrittenIs(info: map<int, AddrInfo>, n: int, tried: bool)
    ensures |Written(info, n, tried)| == |Select(info, n, tried)|
    ensures forall i :: 0 <= i < |Select(info, n, tried)| ==> Select(info, n, tried)[i] in info
    ensures Written(info, n, tried) == StoreAll(info, Select(info, n, tried))
    decreases n
  {
    SelectIs(info, n, tried);
    if n > 0 {
      WrittenIs(info, n - 1, tried);
      if Selected(info, n - 1, tried) { StoreOneMore(info, Select(info, n - 1, tried), n - 1); }
    }
  }

  /** An entry that is still to be written means that fewer than the counter says were. */
  lemma MoreToWrite(p: Placement, s: AddrState, n: int, tried: bool)
    requires AddrTables.Valid(p, s) && 0 <= n < s.idCount && Selected(s.info, n, tried)
    ensures |Written(s.info, n, tried)| < if tried then s.nTried else s.nNew
  {
    WrittenCounts(p, s);
    SelectAt(s.info, s.idCount, n, tried);
    WrittenIs(s.info, n, tried);
  }

  lemma StoreOneMore(info: map<int, AddrInfo>, ids: seq<int>, n: int)
    requires n in info && forall i :: 0 <= i < |ids| ==> ids[i] in info
    ensures StoreAll(info, ids + [n]) == StoreAll(info, ids) + [AddrRoundTrip.Store(info[n])]
  {
    assert (ids + [n])[..|ids|] == ids;
  }

  method WriteBucket(m: AddrManager, bucket: nat, numbers: map<int, int>) returns (indexes: seq<int>)
    requires m.Valid() && bucket < NEW_BUCKET_COUNT
    requires forall n :: n in numbers <==> n in m.mapInfo
    requires forall n :: n in m.mapInfo ==> numbers[n] == IndexOf(m.mapInfo, n)
    ensures indexes == BucketIndexes(m.State(), bucket, BUCKET_SIZE)
  {
    indexes := [];
    for i := 0 to BUCKET_SIZE
      invariant indexes == BucketIndexes(m.State(), bucket, i)
    {
      var id := m.vvNew[bucket, i];
      if id != -1 {
        assert (bucket, i) in m.State().newTab && m.State().newTab[(bucket, i)] == id;
        assert NewAt(m.p, m.nKey, m.mapInfo, id, (bucket, i));
        indexes := indexes + [numbers[id]];
      }
    }
  }

  method Write(m: AddrManager) returns (f: File)
    requires m.Valid()
    ensures f == AddrRoundTrip.Serialize(m.State())
  {
    var newEntries, numbers := WriteEntries(m, false);
    var triedEntries, others := WriteEntries(m, true);
    var buckets: seq<seq<int>> := [];
    for bucket := 0 to NEW_BUCKET_COUNT
      invariant buckets == Buckets(m.State(), bucket)
    {
      var indexes := WriteBucket(m, bucket, numbers);
      buckets := buckets + [indexes];
    }
    f := File(1, m.nKey, m.nNew, m.nTried, newEntries, triedEntries, buckets);
  }

  // ----- reading -------------------------------------------------------------

  method Enroll(m: AddrManager, x: Stored)
    requires m.Shaped()
    modifies m`nIdCount, m`mapInfo, m`mapAddr, m`vRandom
    ensures m.State() == Enlist(old(m.State()), Entry(x))
  {
    m.mapInfo := m.mapInfo[m.nIdCount := Entry(x).(nRandomPos := |m.vRandom|)];
    m.mapAddr := m.mapAddr[x.addr.svc.ip := m.nIdCount];
    m.vRandom := m.vRandom + [m.nIdCount];
    m.nIdCount := m.nIdCount + 1;
  }

  method Refer(m: AddrManager, id: int, bucket: int, pos: int)
    requires m.Shaped() && id in m.mapInfo && id != -1 && 0 <= bucket < NEW_BUCKET_COUNT && 0 <= pos < BUCKET_SIZE
    modifies m`mapInfo, m.vvNew
    ensures m.State() == AddRef(old(m.State()), id, (bucket, pos))
  {
    AddrMan.Store(m.vvNew, bucket, pos, id);
    m.mapInfo := m.mapInfo[id := m.mapInfo[id].(nRefCount := m.mapInfo[id].nRefCount + 1)];
  }

  method ReadNew(m: AddrManager, x: Stored, usable: bool)
    requires m.Shaped() && m.nIdCount >= 0
    modifies m`nIdCount, m`mapInfo, m`mapAddr, m`vRandom, m`nNew, m.vvNew
    ensures m.State() == LoadNew(m.p, old(m.State()), x, usable)
  {
    var n := m.nIdCount;
    Enroll(m, x);
    m.nNew := m.nNew + 1;
    if !usable {
      var nUBucket := m.p.NewBucket(m.nKey, x.addr.svc, x.source);
      var nUBucketPos := m.p.Position(m.nKey, true, nUBucket, x.addr.svc);
      assert m.vvNew[nUBucket, nUBucketPos] == -1 <==> (nUBucket, nUBucketPos) !in View(m.vvNew);
      if m.vvNew[nUBucket, nUBucketPos] == -1 {
        Refer(m, n, nUBucket, nUBucketPos);
      }
    }
  }

  method ReadTried(m: AddrManager, x: Stored)
    requires m.Shaped()
    modifies m`nIdCount, m`mapInfo, m`mapAddr, m`vRandom, m`nTried, m.vvTried
    ensures m.State() == LoadTried(m.p, old(m.State()), x)
  {
    var nKBucket := m.p.TriedBucket(m.nKey, x.addr.svc);
    var nKBucketPos := m.p.Position(m.nKey, false, nKBucket, x.addr.svc);
    assert m.vvTried[nKBucket, nKBucketPos] == -1 <==> (nKBucket, nKBucketPos) !in View(m.vvTried);
    if m.vvTried[nKBucket, nKBucketPos] == -1 {
      var n := m.nIdCount;
      Enroll(m, x);
      AddrMan.Store(m.vvTried, nKBucket, nKBucketPos, n);
      m.nTried := m.nTried + 1;
      m.mapInfo := m.mapInfo[n := m.mapInfo[n].(fInTried := true)];
    }
  }

  method ReadSlot(m: AddrManager, nNew: nat, bucket: nat, nIndex: int, usable: bool)
    requires m.Shaped() && (usable ==> bucket < NEW_BUCKET_COUNT)
    requires forall i :: 0 <= i < nNew ==> i in m.mapInfo
    modifies m`mapInfo, m.vvNew
    ensures m.State() == LoadSlot(m.p, old(m.State()), nNew, bucket, nIndex, usable)
    ensures m.mapInfo.Keys == old(m.mapInfo.Keys)
  {
    if 0 <= nIndex < nNew && usable {
      var nUBucketPos := m.p.Position(m.nKey, true, bucket, m.mapInfo[nIndex].addr.svc);
      assert m.vvNew[bucket, nUBucketPos] == -1 <==> (bucket, nUBucketPos) !in View(m.vvNew);
      if m.vvNew[bucket, nUBucketPos] == -1 && m.mapInfo[nIndex].nRefCount < NEW_BUCKETS_PER_ADDRESS {
        Refer(m, nIndex, bucket, nUBucketPos);
      }
    }
  }

  ghost predicate HasFirst(s: AddrState, n: int) {
    forall i :: 0 <= i < n ==> i in s.info
  }

  lemma {:induction false} NewsThere(p: Placement, s: AddrState, xs: seq<Stored>, usable: bool)
    requires s.idCount <= 0 && (xs != [] ==> s.idCount == 0)
    ensures var t := LoadNews(p, s, xs, usable); t.idCount == s.idCount + |xs| && HasFirst(t, |xs|)
  {
    if xs != [] { NewsThere(p, s, xs[..|xs| - 1], usable); }
  }

  lemma {:induction false} TriedsThere(p: Placement, s: AddrState, xs: seq<Stored>, n: int)
    requires HasFirst(s, n)
    ensures HasFirst(LoadTrieds(p, s, xs), n)
  {
    if xs != [] { TriedsThere(p, s, xs[..|xs| - 1], n); }
  }

  method ReadEntries(m: AddrManager, f: File)
    requires m.Shaped() && m.State() == Start(f) && Complete(f)
    modifies m, m.vvNew, m.vvTried
    ensures m.State() == LoadEntries(m.p, f) && HasFirst(m.State(), |f.newEntries|)
  {
    ReadNews(m, f.newEntries, Usable(f));
    ReadTrieds(m, f.triedEntries, |f.newEntries|);
  }

  method ReadNews(m: AddrManager, xs: seq<Stored>, usable: bool)
    requires m.Shaped() && m.nIdCount <= 0 && (xs != [] ==> m.nIdCount == 0)
    modifies m`nIdCount, m`mapInfo, m`mapAddr, m`vRandom, m`nNew, m.vvNew
    ensures m.State() == LoadNews(m.p, old(m.State()), xs, usable) && HasFirst(m.State(), |xs|)
  {
    ghost var s := m.State();
    for n := 0 to |xs|
      invariant m.State() == LoadNews(m.p, s, xs[..n], usable)
    {
      NewsThere(m.p, s, xs[..n], usable);
      assert xs[..n + 1][..n] == xs[..n];
      ReadNew(m, xs[n], usable);
    }
    assert xs[..|xs|] == xs;
    NewsThere(m.p, s, xs, usable);
  }

  method ReadTrieds(m: AddrManager, xs: seq<Stored>, nNew: nat)
    requires m.Shaped() && HasFirst(m.State(), nNew)
    modifies m`nIdCount, m`mapInfo, m`mapAddr, m`vRandom, m`nTried, m.vvTried
    ensures m.State() == LoadTrieds(m.p, old(m.State()), xs) && HasFirst(m.State(), nNew)
  {
    ghost var s := m.State();
    for n := 0 to |xs|
      invariant m.State() == LoadTrieds(m.p, s, xs[..n])
    {
      assert xs[..n + 1][..n] == xs[..n];
      ReadTried(m, xs[n]);
    }
    assert xs[..|xs|] == xs;
    TriedsThere(m.p, s, xs, nNew);
  }

  method ReadBucket(m: AddrManager, nNew: nat, bucket: nat, indexes: seq<int>, usable: bool)
    requires m.Shaped() && (usable ==> bucket < NEW_BUCKET_COUNT) && HasFirst(m.State(), nNew)
    modifies m`mapInfo, m.vvNew
    ensures m.State() == LoadBucket(m.p, old(m.State()), nNew, bucket, indexes, usable)
    ensures HasFirst(m.State(), nNew)
  {
    ghost var s := m.State();
    for n := 0 to |indexes|
      invariant m.State() == LoadBucket(m.p, s, nNew, bucket, indexes[..n], usable) && HasFirst(m.State(), nNew)
    {
      assert indexes[..n + 1][..n] == indexes[..n];
      ReadSlot(m, nNew, bucket, indexes[n], usable);
    }
    assert indexes[..|indexes|] == indexes;
  }

  method ReadBuckets(m: AddrManager, nNew: nat, buckets: seq<seq<int>>, usable: bool)
    requires m.Shaped() && (usable ==> |buckets| <= NEW_BUCKET_COUNT) && HasFirst(m.State(), nNew)
    modifies m`mapInfo, m.vvNew
    ensures m.State() == LoadBuckets(m.p, old(m.State()), nNew, buckets, usable)
  {
    ghost var s := m.State();
    for bucket := 0 to |buckets|
      invariant m.State() == LoadBuckets(m.p, s, nNew, buckets[..bucket], usable) && HasFirst(m.State(), nNew)
    {
      assert buckets[..bucket + 1][..bucket] == buckets[..bucket];
      ReadBucket(m, nNew, bucket, buckets[bucket], usable);
    }
    assert buckets[..|buckets|] == buckets;
  }

  /** Drops the entries that are in no table. */
  method DropUnused(m: AddrManager)
    requires m.Shaped() && Placed(m.State())
    modifies m`mapInfo, m`vRandom, m`mapAddr, m`nNew
    ensures m.State() == Prune(old(m.State()), old(m.nIdCount))
  {
    ghost var s := m.State();
    var n := 0;
    while n < m.nIdCount
      invariant 0 <= n && (n <= m.nIdCount || n == 0) && m.nIdCount == s.idCount
      invariant m.State() == Prune(s, n)
    {
      PruneEffect(s, n);
      if n in m.mapInfo && !m.mapInfo[n].fInTried && m.mapInfo[n].nRefCount == 0 {
        Deletable(m.State(), n);
        m.Delete(n);
      }
      n := n + 1;
    }
    assert Prune(s, n) == Prune(s, s.idCount);
  }

  /** Reads a file into a manager as constructed. */
  method Read(m: AddrManager, f: File) returns (ok: bool)
    requires m.Valid() && m.State() == Empty(m.nKey)
    modifies m, m.vvNew, m.vvTried
    ensures ok <==> AddrFile.Unserialize(m.p, f).Loaded?
    ensures ok ==> m.State() == AddrFile.Unserialize(m.p, f).state
    ensures ok ==> (m.Valid() <==> f.nNew >= 0 && f.nTried >= 0 && AllApart(LoadAll(m.p, f)))
  {
    m.nKey := f.key;
    if f.nNew > NEW_BUCKET_COUNT * BUCKET_SIZE { return false; }
    if f.nTried > TRIED_BUCKET_COUNT * BUCKET_SIZE { return false; }
    if !Complete(f) { return false; }
    if f.nNew < 0 { m.nNew, m.nIdCount := f.nNew, f.nNew; }
    if f.nTried < 0 { m.nTried := f.nTried; }
    assert m.State() == Start(f);
    ReadEntries(m, f);
    ReadBuckets(m, |f.newEntries|, f.buckets, Usable(f));
    LoadAllPlaced(m.p, f);
    DropUnused(m);
    LoadedValid(m.p, f);
    ok := true;
  }

  /** What was written and read back passes the check if what was written did. */
  lemma RoundTripPasses(p: Placement, s: AddrState)
    requires AddrTables.Valid(p, s) && CheckOk(p, s)
    ensures AddrFile.Unserialize(p, AddrRoundTrip.Serialize(s)).Loaded?
    ensures CheckOk(p, AddrFile.Unserialize(p, AddrRoundTrip.Serialize(s)).state)
  {
    AddrRoundTrip.RoundTrip(p, s);
    var u, ids := AddrFile.Unserialize(p, AddrRoundTrip.Serialize(s)).state, Renamed(s);
    CheckMeans(p, s);
    forall i | i in u.info ensures TimeOk(u.info[i]) {
      assert SameEntryStored(u.info, i, s.info, ids[i]) && ids[i] in s.info;
      assert AddrRoundTrip.Store(u.info[i]).nLastSuccess == AddrRoundTrip.Store(s.info[ids[i]]).nLastSuccess;
    }
    CheckMeans(p, u);
  }

  /** A manager that was written and read back into another one. */
  method Transfer(m: AddrManager, fresh_: AddrManager) returns (ok: bool)
    requires m.Valid() && fresh_.Valid() && fresh_ != m && fresh_.p == m.p && fresh_.State() == Empty(fresh_.nKey)
    requires {fresh_.vvNew, fresh_.vvTried} !! {m.vvNew, m.vvTried}
    modifies fresh_, fresh_.vvNew, fresh_.vvTried
    ensures ok && fresh_.Valid() && m.State() == old(m.State())
    ensures SameStored(fresh_.State(), m.State(), Renamed(m.State()))
    ensures CheckOk(m.p, m.State()) ==> CheckOk(fresh_.p, fresh_.State())
  {
    var f := Write(m);
    AddrRoundTrip.RoundTrip(m.p, m.State());
    if CheckOk(m.p, m.State()) { RoundTripPasses(m.p, m.State()); }
    ok := Read(fresh_, f);
  }
}
