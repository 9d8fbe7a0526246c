/**
 The address manager itself: in-memory indexes and two bucket arrays, updated in
 place. Every method is proved to take the step that AddrTables and AddrOperations
 describe, so that it keeps the manager valid and none of its assertions fails.
 */
module AddrMan {
  import opened AddrTables
  import Ops = AddrOperations

  ghost function View(a: array2<int>): Table
    reads a
  {
    map b, i | 0 <= b < a.Length0 && 0 <= i < a.Length1 && a[b, i] != -1 :: (b, i) := a[b, i]
  }

  /** Storing an entry id, or -1, in a slot. */
  method Store(a: array2<int>, b: int, i: int, x: int)
    requires 0 <= b < a.Length0 && 0 <= i < a.Length1
    modifies a
    ensures View(a) == if x == -1 then old(View(a)) - {(b, i)} else old(View(a))[(b, i) := x]
  {
    a[b, i] := x;
  }

  class AddrManager {
    const p: Placement
    const vvTried: array2<int>
    const vvNew: array2<int>
    var nIdCount: int
    var mapInfo: map<int, AddrInfo>
    var mapAddr: map<NetAddr, int>
    var vRandom: seq<int>
    var nTried: int
    var nNew: int
    var nLastGood: int
    var nKey: Key

    ghost predicate Shaped() {
      && vvTried.Length0 == TRIED_BUCKET_COUNT && vvTried.Length1 == BUCKET_SIZE
      && vvNew.Length0 == NEW_BUCKET_COUNT && vvNew.Length1 == BUCKET_SIZE
      && vvTried != vvNew
    }

    ghost function State(): AddrState
      reads this, vvTried, vvNew
    {
      AddrState(nIdCount, mapInfo, mapAddr, vRandom, nTried, View(vvTried), nNew, View(vvNew), nLastGood, nKey)
    }

    ghost predicate Valid()
      reads this, vvTried, vvNew
    {
      Shaped() && AddrTables.Valid(p, State())
    }

    constructor (p: Placement, key: Key)
      ensures Valid() && this.p == p && State() == Empty(key)
      ensures fresh(vvTried) && fresh(vvNew)
    {
      this.p := p;
      vvTried := new int[TRIED_BUCKET_COUNT, BUCKET_SIZE]((_, _) => -1);
      vvNew := new int[NEW_BUCKET_COUNT, BUCKET_SIZE]((_, _) => -1);
      nIdCount, mapInfo, mapAddr, vRandom := 0, map[], map[], [];
      nTried, nNew, nLastGood, nKey := 0, 0, 1, key;
      new;
      assert View(vvTried) == map[] && View(vvNew) == map[];
      Ops.EmptyValid(p, key);
    }

    method SwapRandom(i: int, j: int)
      requires Shaped() && CanSwap(State(), i, j)
      modifies this`mapInfo, this`vRandom
      ensures State() == AddrTables.SwapRandom(old(State()), i, j)
    {
      if i == j { return; }
      var id1, id2 := vRandom[i], vRandom[j];
      mapInfo := mapInfo[id1 := mapInfo[id1].(nRandomPos := j)];
      mapInfo := mapInfo[id2 := mapInfo[id2].(nRandomPos := i)];
      vRandom := vRandom[i := id2];
      vRandom := vRandom[j := id1];
    }

    method Delete(nId: int)
      requires Shaped() && CanDelete(State(), nId)
      modifies this`mapInfo, this`vRandom, this`mapAddr, this`nNew
      ensures State() == AddrTables.Delete(old(State()), nId)
    {
      SwapRandom(mapInfo[nId].nRandomPos, |vRandom| - 1);
      vRandom := vRandom[..|vRandom| - 1];
      mapAddr := mapAddr - {mapInfo[nId].addr.svc.ip};
      mapInfo := mapInfo - {nId};
      nNew := nNew - 1;
    }

    method ClearNew(nUBucket: int, nUBucketPos: int)
      requires Shaped() && 0 <= nUBucket < NEW_BUCKET_COUNT && 0 <= nUBucketPos < BUCKET_SIZE
      requires CanClear(State(), (nUBucket, nUBucketPos))
      modifies this`mapInfo, this`vRandom, this`mapAddr, this`nNew, vvNew
      ensures State() == AddrTables.ClearNew(old(State()), (nUBucket, nUBucketPos))
    {
      if vvNew[nUBucket, nUBucketPos] != -1 {
        var nIdDelete := vvNew[nUBucket, nUBucketPos];
        assert View(vvNew)[(nUBucket, nUBucketPos)] == nIdDelete;
        mapInfo := mapInfo[nIdDelete := mapInfo[nIdDelete].(nRefCount := mapInfo[nIdDelete].nRefCount - 1)];
        Store(vvNew, nUBucket, nUBucketPos, -1);
        assert State() == Unref(old(State()), (nUBucket, nUBucketPos));
        if mapInfo[nIdDelete].nRefCount == 0 {
          Delete(nIdDelete);
        }
      }
    }
  
    /** One new bucket of the loop in MakeTried. */
    method LeaveBucket(nId: int, bucket: int, pos: int)
      requires Shaped() && 0 <= bucket < NEW_BUCKET_COUNT && 0 <= pos < BUCKET_SIZE
      requires nId in mapInfo && nId != -1
      modifies this`mapInfo, vvNew
      ensures State() == LeftSlot(old(State()), nId, (bucket, pos))
    {
      if vvNew[bucket, pos] == nId {
        Store(vvNew, bucket, pos, -1);
        mapInfo := mapInfo[nId := mapInfo[nId].(nRefCount := mapInfo[nId].nRefCount - 1)];
      }
    }

    /** The first part of MakeTried: the entry leaves all new buckets. */
    method LeaveNew(nId: int)
      requires Valid() && nId in mapInfo && !mapInfo[nId].fInTried
      modifies this`mapInfo, this`nNew, vvNew
      ensures State() == Unlink(old(State()), nId)
    {
      ghost var s0 := State();
      LeavingNone(p, s0, nId);
      var svc := mapInfo[nId].addr.svc;
      for bucket := 0 to NEW_BUCKET_COUNT
        invariant State() == Leaving(s0, nId, bucket)
      {
        LeavingOne(p, s0, nId, bucket);
        LeaveBucket(nId, bucket, p.Position(nKey, true, bucket, svc));
      }
      LeavingAll(p, s0, nId);
      nNew := nNew - 1;
    }

    /** The occupant of a tried slot leaves it. */
    method LeaveTried(nKBucket: int, nKBucketPos: int) returns (nIdEvict: int)
      requires Shaped() && 0 <= nKBucket < TRIED_BUCKET_COUNT && 0 <= nKBucketPos < BUCKET_SIZE
      requires vvTried[nKBucket, nKBucketPos] in mapInfo
      requires (nKBucket, nKBucketPos) == p.TriedSlot(nKey, mapInfo[vvTried[nKBucket, nKBucketPos]].addr.svc)
      modifies this`mapInfo, this`nTried, vvTried
      ensures nIdEvict == old(vvTried[nKBucket, nKBucketPos])
      ensures State() == Demote(p, old(State()), nIdEvict)
    {
      nIdEvict := vvTried[nKBucket, nKBucketPos];
      mapInfo := mapInfo[nIdEvict := mapInfo[nIdEvict].(fInTried := false)];
      Store(vvTried, nKBucket, nKBucketPos, -1);
      nTried := nTried - 1;
    }

    /** An entry enters the new slot of its own source. */
    method EnterNew(nId: int, nUBucket: int, nUBucketPos: int)
      requires Shaped() && nId in mapInfo && nId != -1
      requires (nUBucket, nUBucketPos) == p.NewSlot(nKey, mapInfo[nId].addr.svc, mapInfo[nId].source)
      modifies this`mapInfo, this`nNew, vvNew
      ensures State() == Reenter(p, old(State()), nId)
    {
      mapInfo := mapInfo[nId := mapInfo[nId].(nRefCount := 1)];
      Store(vvNew, nUBucket, nUBucketPos, nId);
      nNew := nNew + 1;
    }

    /** The second part of MakeTried: the occupant of a tried slot goes back to new. */
    method EvictTried(nKBucket: int, nKBucketPos: int)
      requires Shaped() && 0 <= nKBucket < TRIED_BUCKET_COUNT && 0 <= nKBucketPos < BUCKET_SIZE
      requires vvTried[nKBucket, nKBucketPos] >= 0 && CanEvict(p, State(), vvTried[nKBucket, nKBucketPos])
      requires (nKBucket, nKBucketPos) == p.TriedSlot(nKey, mapInfo[vvTried[nKBucket, nKBucketPos]].addr.svc)
      modifies this`mapInfo, this`vRandom, this`mapAddr, this`nNew, this`nTried, vvNew, vvTried
      ensures State() == Evict(p, old(State()), old(vvTried[nKBucket, nKBucketPos]))
    {
      var nIdEvict := LeaveTried(nKBucket, nKBucketPos);
      var svc, source := mapInfo[nIdEvict].addr.svc, mapInfo[nIdEvict].source;
      var nUBucket := p.NewBucket(nKey, svc, source);
      var nUBucketPos := p.Position(nKey, true, nUBucket, svc);
      ghost var d := State();
      ClearNew(nUBucket, nUBucketPos);
      ClearedEntry(d, (nUBucket, nUBucketPos), nIdEvict);
      EnterNew(nIdEvict, nUBucket, nUBucketPos);
    }
  
    /** The third part of MakeTried: the entry enters its tried slot. */
    method EnterTried(nId: int, nKBucket: int, nKBucketPos: int)
      requires Shaped() && nId in mapInfo && nId != -1
      requires (nKBucket, nKBucketPos) == p.TriedSlot(nKey, mapInfo[nId].addr.svc)
      modifies this`mapInfo, this`nTried, vvTried
      ensures State() == Promote(p, old(State()), nId)
    {
      Store(vvTried, nKBucket, nKBucketPos, nId);
      nTried := nTried + 1;
      mapInfo := mapInfo[nId := mapInfo[nId].(fInTried := true)];
    }

    method MakeTried(nId: int)
      requires Valid() && nId in mapInfo && !mapInfo[nId].fInTried
      modifies this, vvNew, vvTried
      ensures CanMakeTried(p, old(State()), nId)
      ensures State() == AddrTables.MakeTried(p, old(State()), nId)
    {
      var svc := mapInfo[nId].addr.svc;
      var nKBucket := p.TriedBucket(nKey, svc);
      var nKBucketPos := p.Position(nKey, false, nKBucket, svc);
      Phases(p, State(), nId, (nKBucket, nKBucketPos));
      LeaveNew(nId);
      if vvTried[nKBucket, nKBucketPos] != -1 {
        EvictTried(nKBucket, nKBucketPos);
      }
      EnterTried(nId, nKBucket, nKBucketPos);
    }

    /** What Good records about a known address. */
    method RecordSuccess(nId: int, nTime: int)
      requires Valid() && nId in mapInfo
      modifies this`mapInfo, this`nLastGood
      ensures State() == Ops.Update(old(State()).(lastGood := nTime), nId, Ops.Succeeded(old(mapInfo[nId]), nTime))
      ensures Valid()
    {
      ghost var s0 := State();
      StructureDecides(p, s0, s0.(lastGood := nTime), {}, 0);
      Ops.UpdateConsistent(p, s0.(lastGood := nTime), nId, Ops.Succeeded(s0.info[nId], nTime), {}, 0);
      nLastGood := nTime;
      mapInfo := mapInfo[nId := mapInfo[nId].(nLastSuccess := nTime, nLastTry := nTime, nAttempts := 0)];
    }

    method Good(addr: Service, nTime: int, nRnd: int)
      requires Valid() && 0 <= nRnd < NEW_BUCKET_COUNT
      modifies this, vvNew, vvTried
      ensures State() == Ops.Good(p, old(State()), addr, nTime)
      ensures Valid()
    {
      ghost var s0 := State();
      var known := addr.ip in mapAddr;
      if known {
        assert HasIp(s0.info, s0.addr[addr.ip], addr.ip);
        known := mapInfo[mapAddr[addr.ip]].addr.svc == addr;
      }
      if !known {
        nLastGood := nTime;
        return;
      }
      var nId := mapAddr[addr.ip];
      RecordSuccess(nId, nTime);
      if mapInfo[nId].fInTried { return; }
      var nUBucket := FindNewBucket(nId, nRnd);
      assert nUBucket != -1; // the bail-out for a missing bucket is never taken
      MakeTried(nId);
    }

    /** The search loop in Good: a new bucket that holds the entry, from a random one on. */
    method FindNewBucket(nId: int, nRnd: int) returns (nUBucket: int)
      requires Valid() && nId in mapInfo && !mapInfo[nId].fInTried
      requires 0 <= nRnd < NEW_BUCKET_COUNT
      ensures 0 <= nUBucket < NEW_BUCKET_COUNT
      ensures vvNew[nUBucket, p.Position(nKey, true, nUBucket, mapInfo[nId].addr.svc)] == nId
    {
      ghost var slot := SlotOf(p, State(), nId);
      ghost var k := if slot.0 >= nRnd then slot.0 - nRnd else slot.0 - nRnd + NEW_BUCKET_COUNT;
      assert (k + nRnd) % NEW_BUCKET_COUNT == slot.0;
      var svc := mapInfo[nId].addr.svc;
      nUBucket := -1;
      for n := 0 to NEW_BUCKET_COUNT
        invariant n <= k
      {
        var nB := (n + nRnd) % NEW_BUCKET_COUNT;
        if vvNew[nB, p.Position(nKey, true, nB, svc)] == nId {
          return nB;
        }
      }
      assert false;
    }

    method Create(addr: Address, source: NetAddr) returns (nId: int)
      requires Shaped()
      modifies this`nIdCount, this`mapInfo, this`mapAddr, this`vRandom
      ensures nId == old(nIdCount)
      ensures State() == AddrTables.Create(old(State()), addr, source)
    {
      nId := nIdCount;
      nIdCount := nIdCount + 1;
      mapInfo := mapInfo[nId := AddrInfo(addr, source, 0, 0, 0, 0, 0, false, -1)];
      mapAddr := mapAddr[addr.svc.ip := nId];
      mapInfo := mapInfo[nId := mapInfo[nId].(nRandomPos := |vRandom|)];
      vRandom := vRandom + [nId];
    }

    /** The stochastic test of Add: with a reference count of N, one draw in 2^N passes. */
    method PassesDraw(nRefCount: int, rnd: nat) returns (pass: bool)
      ensures pass <==> (Ops.Factor(nRefCount) > 1 ==> rnd % Ops.Factor(nRefCount) == 0)
    {
      var nFactor, n := 1, 0;
      while n < nRefCount
        invariant 0 <= n && (n <= nRefCount || n == 0)
        invariant nFactor == Ops.Factor(n)
      {
        nFactor := nFactor * 2;
        n := n + 1;
      }
      pass := !(nFactor > 1 && rnd % nFactor != 0);
    }

    /** The entry takes a slot of the new table from its occupant. */
    method TakeSlot(nId: int, nUBucket: int, nUBucketPos: int)
      requires Shaped() && 0 <= nUBucket < NEW_BUCKET_COUNT && 0 <= nUBucketPos < BUCKET_SIZE
      requires nId != -1 && CanClear(State(), (nUBucket, nUBucketPos))
      requires nId in AddrTables.ClearNew(State(), (nUBucket, nUBucketPos)).info
      modifies this`mapInfo, this`vRandom, this`mapAddr, this`nNew, vvNew
      ensures State() == Ops.TakeSlot(old(State()), nId, (nUBucket, nUBucketPos))
    {
      ClearNew(nUBucket, nUBucketPos);
      ghost var c := State();
      assert c == AddrTables.ClearNew(old(State()), (nUBucket, nUBucketPos));
      mapInfo := mapInfo[nId := mapInfo[nId].(nRefCount := mapInfo[nId].nRefCount + 1)];
      Store(vvNew, nUBucket, nUBucketPos, nId);
      assert State() == c.(info := mapInfo, newTab := c.newTab[(nUBucket, nUBucketPos) := nId]);
    }

    /** The second half of Add: the entry tries to get the slot selected by the source. */
    method Offer(nId: int, source: NetAddr, now: int)
      requires Shaped() && Consistent(p, State(), {nId}, 0)
      requires nId in mapInfo && !mapInfo[nId].fInTried && mapInfo[nId].nRefCount < NEW_BUCKETS_PER_ADDRESS
      modifies this`mapInfo, this`vRandom, this`mapAddr, this`nNew, vvNew
      ensures State() == Ops.Offer(p, old(State()), nId, source, now)
      ensures Valid()
    {
      ghost var s := State();
      var nUBucket := p.NewBucket(nKey, mapInfo[nId].addr.svc, source);
      var nUBucketPos := p.Position(nKey, true, nUBucket, mapInfo[nId].addr.svc);
      var there := vvNew[nUBucket, nUBucketPos];
      if there != nId {
        var fInsert := there == -1;
        if !fInsert {
          NewOccupant(p, s, (nUBucket, nUBucketPos), {nId}, 0);
          var infoExisting := mapInfo[there];
          if Ops.IsTerrible(infoExisting, now) || (infoExisting.nRefCount > 1 && mapInfo[nId].nRefCount == 0) {
            fInsert := true;
          }
        }
        if fInsert {
          Ops.TakeSlotValid(p, s, nId, source);
          TakeSlot(nId, nUBucket, nUBucketPos);
        } else if mapInfo[nId].nRefCount == 0 {
          DeleteConsistent(p, s, nId, {nId}, 0);
          Delete(nId);
        }
      }
    }

    /** Add's update of a known entry. */
    method Refresh(nId: int, addr: Address, nTimePenalty: int, now: int)
      requires Valid() && nId in mapInfo
      modifies this`mapInfo
      ensures State() == Ops.Update(old(State()), nId, Ops.Refreshed(old(mapInfo[nId]), addr, nTimePenalty, now))
      ensures Valid()
    {
      Ops.UpdateConsistent(p, State(), nId, Ops.Refreshed(mapInfo[nId], addr, nTimePenalty, now), {}, 0);
      var info := mapInfo[nId];
      var nUpdateInterval := if now - addr.nTime < Ops.DAY then 60 * 60 else Ops.DAY;
      if addr.nTime != 0 && (info.addr.nTime == 0 || info.addr.nTime < addr.nTime - nUpdateInterval - nTimePenalty) {
        info := info.(addr := info.addr.(nTime := Ops.Penalized(addr.nTime, nTimePenalty)));
      }
      info := info.(addr := info.addr.(services := info.addr.services + addr.services));
      mapInfo := mapInfo[nId := info];
    }

    /** Add's entry for a fresh address. */
    method Introduce(addr: Address, source: NetAddr, nTimePenalty: int) returns (nId: int)
      requires Valid() && addr.svc.ip !in mapAddr
      modifies this`nIdCount, this`mapInfo, this`mapAddr, this`vRandom, this`nNew
      ensures nId == old(nIdCount)
      ensures State() == Ops.Introduce(old(State()), addr, source, nTimePenalty)
      ensures Shaped() && Consistent(p, State(), {nId}, 0)
    {
      Ops.IntroduceConsistent(p, State(), addr, source, nTimePenalty);
      nId := Create(addr, source);
      mapInfo := mapInfo[nId := mapInfo[nId].(addr := mapInfo[nId].addr.(nTime := Ops.Penalized(mapInfo[nId].addr.nTime, nTimePenalty)))];
      nNew := nNew + 1;
    }

    method Add(addr: Address, source: NetAddr, nTimePenalty: int, now: int, routable: bool, rnd: nat) returns (fNew: bool)
      requires Valid()
      modifies this, vvNew
      ensures State() == Ops.Add(p, old(State()), addr, source, nTimePenalty, now, routable, rnd)
      ensures fNew <==> routable && addr.svc.ip !in old(mapAddr)
      ensures Valid()
    {
      fNew := false;
      if !routable { return; }
      ghost var s := State();
      if addr.svc.ip in mapAddr {
        var nId := mapAddr[addr.svc.ip];
        assert HasIp(s.info, s.addr[addr.svc.ip], addr.svc.ip) && Counted(s.info, s.newTab, {}, nId);
        Refresh(nId, addr, nTimePenalty, now);
        if addr.nTime == 0 || (mapInfo[nId].addr.nTime != 0 && addr.nTime <= mapInfo[nId].addr.nTime) { return; }
        if mapInfo[nId].fInTried { return; }
        if mapInfo[nId].nRefCount == NEW_BUCKETS_PER_ADDRESS { return; }
        var pass := PassesDraw(mapInfo[nId].nRefCount, rnd);
        if !pass { return; }
        Ops.Waived(p, State(), nId);
        Offer(nId, source, now);
      } else {
        var nId := Introduce(addr, source, nTimePenalty);
        fNew := true;
        Offer(nId, source, now);
      }
    }

    /** Replaces the entry of a known address; the common shape of the three reports below. */
    method Report(addr: Service, f: AddrInfo -> AddrInfo)
      requires Valid() && forall e :: Ops.OnlyStatistics(e, f(e))
      modifies this`mapInfo
      ensures State() == Ops.Modify(p, old(State()), addr, f)
      ensures Valid()
    {
      if addr.ip !in mapAddr { return; }
      assert HasIp(State().info, State().addr[addr.ip], addr.ip);
      var nId := mapAddr[addr.ip];
      if mapInfo[nId].addr.svc != addr { return; }
      mapInfo := mapInfo[nId := f(mapInfo[nId])];
    }

    method Attempt(addr: Service, fCountFailure: bool, nTime: int)
      requires Valid()
      modifies this`mapInfo
      ensures State() == Ops.Step(p, old(State()), Ops.OpAttempt(addr, fCountFailure, nTime))
      ensures Valid()
    {
      var lastGood := nLastGood;
      Report(addr, (e: AddrInfo) => Ops.Attempted(e, fCountFailure, nTime, lastGood));
    }

    method Connected(addr: Service, nTime: int)
      requires Valid()
      modifies this`mapInfo
      ensures State() == Ops.Step(p, old(State()), Ops.OpConnected(addr, nTime))
      ensures Valid()
    {
      Report(addr, (e: AddrInfo) => Ops.Connected(e, nTime));
    }

    method SetServices(addr: Service, nServices: set<nat>)
      requires Valid()
      modifies this`mapInfo
      ensures State() == Ops.Step(p, old(State()), Ops.OpSetServices(addr, nServices))
      ensures Valid()
    {
      Report(addr, (e: AddrInfo) => Ops.WithServices(e, nServices));
    }

    /** A random selection of good addresses, at most 23 percent of all and at most 2500. */
    method GetAddr(picks: seq<nat>, now: int) returns (vAddr: seq<Address>, ghost m: nat)
      requires Valid() && |vRandom| <= |picks|
      modifies this`mapInfo, this`vRandom
      ensures m <= |old(vRandom)|
      ensures State() == Ops.Shuffle(p, old(State()), picks[..m])
      ensures |vRandom| == |old(vRandom)| && vAddr == Ops.Selected(State(), m, now)
      ensures |vAddr| <= MaxNodes(|vRandom|)
      ensures m == |vRandom| || |vAddr| == MaxNodes(|vRandom|)
      ensures Valid()
    {
      vAddr, m := SelectUpTo(MaxNodes(|vRandom|), picks, now);
    }

    method SelectUpTo(nNodes: nat, picks: seq<nat>, now: int) returns (vAddr: seq<Address>, ghost m: nat)
      requires Valid() && |vRandom| <= |picks|
      modifies this`mapInfo, this`vRandom
      ensures m <= |old(vRandom)| == |vRandom| && Chosen(p, old(State()), State(), picks, m, vAddr, now)
      ensures |vAddr| <= nNodes && (m == |vRandom| || |vAddr| == nNodes)
    {
      ghost var s0 := State();
      NoneChosen(p, s0, picks, now);
      vAddr := [];
      var n := 0;
      while n < |vRandom| && |vAddr| < nNodes
        invariant 0 <= n <= |vRandom| == |s0.random| && |vAddr| <= nNodes
        invariant Chosen(p, s0, State(), picks, n, vAddr, now)
      {
        vAddr := SelectMore(s0, vAddr, n, picks, now);
        n := n + 1;
      }
      m := n;
    }

    method SelectMore(ghost s0: AddrState, vAddr: seq<Address>, n: nat, picks: seq<nat>, now: int) returns (r: seq<Address>)
      requires Shaped() && n < |vRandom| == |s0.random| && Chosen(p, s0, State(), picks, n, vAddr, now)
      modifies this`mapInfo, this`vRandom
      ensures |vRandom| == |old(vRandom)| && |r| <= |vAddr| + 1
      ensures Chosen(p, s0, State(), picks, n + 1, r, now)
    {
      Ops.SelectOneMore(p, s0, picks, n, now);
      r := SelectNext(vAddr, n, picks[n], now);
    }

    /** One step of GetAddr: a random entry from position n on comes to n, and its address
        is taken unless it is terrible. */
    method SelectNext(vAddr: seq<Address>, n: nat, pick: nat, now: int) returns (r: seq<Address>)
      requires Shaped() && n < |vRandom| && CanSwap(State(), n, Ops.Draw(pick, n, |vRandom|))
      requires var t := AddrTables.SwapRandom(State(), n, Ops.Draw(pick, n, |vRandom|)); t.random[n] in t.info
      modifies this`mapInfo, this`vRandom
      ensures State() == AddrTables.SwapRandom(old(State()), n, Ops.Draw(pick, n, |old(vRandom)|))
      ensures |vRandom| == |old(vRandom)| && vRandom[n] in mapInfo
      ensures r == vAddr + (if Ops.IsTerrible(mapInfo[vRandom[n]], now) then [] else [mapInfo[vRandom[n]].addr])
    {
      SwapRandom(n, Ops.Draw(pick, n, |vRandom|));
      r := vAddr;
      if !Ops.IsTerrible(mapInfo[vRandom[n]], now) {
        r := r + [mapInfo[vRandom[n]].addr];
      }
    }
  }

  /** The state and the addresses chosen once the first n positions have been drawn. */
  ghost predicate Chosen(p: Placement, s0: AddrState, s: AddrState, picks: seq<nat>, n: nat, vAddr: seq<Address>, now: int) {
    && AddrTables.Valid(p, s0) && n <= |s0.random| <= |picks|
    && s == Ops.Shuffle(p, s0, picks[..n]) && vAddr == Ops.Selected(s, n, now)
  }

  lemma NoneChosen(p: Placement, s0: AddrState, picks: seq<nat>, now: int)
    requires AddrTables.Valid(p, s0) && |s0.random| <= |picks|
    ensures Chosen(p, s0, s0, picks, 0, [], now)
  {
    assert picks[..0] == [];
  }

  function MaxNodes(size: nat): nat {
    if GETADDR_MAX_PCT * size / 100 > GETADDR_MAX then GETADDR_MAX else GETADDR_MAX_PCT * size / 100
  }

  /** A slot that holds the entry; an untried entry always has one. */
  ghost function SlotOf(p: Placement, s: AddrState, id: int): (slot: Slot)
    requires AddrTables.Valid(p, s) && id in s.info && !s.info[id].fInTried
    ensures slot in s.newTab && s.newTab[slot] == id
    ensures NewAt(p, s.key, s.info, id, slot)
  {
    assert Counted(s.info, s.newTab, {}, id);
    assert Slots(s.newTab, id) != {};
    var slot :| slot in Slots(s.newTab, id);
    assert NewAt(p, s.key, s.info, s.newTab[slot], slot);
    slot
  }

  lemma NewOccupant(p: Placement, s: AddrState, slot: Slot, limbo: set<int>, uncounted: int)
    requires Consistent(p, s, limbo, uncounted) && slot in s.newTab
    ensures s.newTab[slot] in s.info
  {
    assert NewAt(p, s.key, s.info, s.newTab[slot], slot);
  }

  lemma TriedOccupant(p: Placement, s: AddrState, slot: Slot)
    requires TriedOk(p, s.key, s.info, s.triedTab) && IdsOk(s.info, s.idCount) && slot in s.triedTab
    ensures 0 <= s.triedTab[slot] && s.triedTab[slot] in s.info
    ensures slot == p.TriedSlot(s.key, s.info[s.triedTab[slot]].addr.svc)
  {
    assert TriedAt(p, s.key, s.info, s.triedTab[slot], slot);
  }

  /** The three parts of MakeTried meet their demands. */
  lemma Phases(p: Placement, s: AddrState, id: int, slot: Slot)
    requires AddrTables.Valid(p, s) && id in s.info && !s.info[id].fInTried
    requires slot == p.TriedSlot(s.key, s.info[id].addr.svc)
    ensures CanMakeTried(p, s, id) && 0 <= id
    ensures var u := Unlink(s, id);
            && AddrTables.MakeTried(p, s, id) == Promote(p, Displaced(p, u, id), id)
            && id in Displaced(p, u, id).info
            && slot == p.TriedSlot(u.key, u.info[id].addr.svc)
            && slot == p.TriedSlot(u.key, Displaced(p, u, id).info[id].addr.svc)
            && Displaced(p, u, id).key == u.key
            && (slot !in u.triedTab ==> Displaced(p, u, id) == u)
            && (slot in u.triedTab ==>
                  var e := u.triedTab[slot];
                  && 0 <= e && CanEvict(p, u, e) && Displaced(p, u, id) == Evict(p, u, e)
                  && slot == p.TriedSlot(u.key, u.info[e].addr.svc))
  {
    MakeTriedValid(p, s, id);
    Ops.MakeTriedEffect(p, s, id);
    if slot in s.triedTab {
      TriedOccupant(p, s, slot);
      EvictEffect(p, Unlink(s, id), s.triedTab[slot]);
    }
  }

  /** An entry that survives the clearing of a slot keeps its address and source. */
  lemma ClearedEntry(s: AddrState, slot: Slot, e: int)
    requires CanClear(s, slot) && e in s.info && e in AddrTables.ClearNew(s, slot).info
    ensures AddrTables.ClearNew(s, slot).key == s.key
    ensures AddrTables.ClearNew(s, slot).info[e].addr == s.info[e].addr
    ensures AddrTables.ClearNew(s, slot).info[e].source == s.info[e].source
  {
  }

  /** The entry leaves one slot of the new table, if it is there. */
  ghost function LeftSlot(s: AddrState, id: int, slot: Slot): AddrState
    requires id in s.info
  {
    if slot in s.newTab && s.newTab[slot] == id
    then s.(info := s.info[id := s.info[id].(nRefCount := s.info[id].nRefCount - 1)],
            newTab := s.newTab - {slot})
    else s
  }

  /** The entry has left the new buckets below `limit`. */
  ghost function Leaving(s: AddrState, id: int, limit: int): AddrState
    requires id in s.info
  {
    var t := Without(s.newTab, id, limit);
    s.(info := s.info[id := s.info[id].(nRefCount := |Slots(t, id)|)], newTab := t)
  }

  lemma LeavingNone(p: Placement, s: AddrState, id: int)
    requires AddrTables.Valid(p, s) && id in s.info && !s.info[id].fInTried
    ensures Leaving(s, id, 0) == s && 0 <= id
  {
    assert Counted(s.info, s.newTab, {}, id);
    forall x | x in s.newTab ensures x in Without(s.newTab, id, 0) {
      assert NewAt(p, s.key, s.info, s.newTab[x], x);
    }
    assert Without(s.newTab, id, 0) == s.newTab;
    assert Leaving(s, id, 0).info == s.info;
  }

  /** In each bucket, an entry can only be at its own position. */
  lemma LeavingOne(p: Placement, s: AddrState, id: int, b: int)
    requires AddrTables.Valid(p, s) && id in s.info
    ensures Leaving(s, id, b + 1)
         == LeftSlot(Leaving(s, id, b), id, (b, p.Position(s.key, true, b, s.info[id].addr.svc)))
  {
    var here := (b, p.Position(s.key, true, b, s.info[id].addr.svc));
    var t, u := Without(s.newTab, id, b), Without(s.newTab, id, b + 1);
    forall x | x in s.newTab && s.newTab[x] == id && x.0 == b ensures x == here {
      assert NewAt(p, s.key, s.info, s.newTab[x], x);
    }
    if here in t && t[here] == id {
      assert u == t - {here};
      SameOrOneMore(Slots(u, id), Slots(t, id), here);
    } else {
      assert u == t;
    }
  }

  lemma LeavingAll(p: Placement, s: AddrState, id: int)
    requires AddrTables.Valid(p, s) && id in s.info
    ensures Leaving(s, id, NEW_BUCKET_COUNT).(nNew := s.nNew - 1) == Unlink(s, id)
  {
    forall x | x in s.newTab ensures x.0 < NEW_BUCKET_COUNT {
      assert NewAt(p, s.key, s.info, s.newTab[x], x);
    }
    assert Slots(Without(s.newTab, id, NEW_BUCKET_COUNT), id) == {};
  }
}
