/**
 The address manager's check of itself, which the debugging build makes around every operation, and what it means:
 it passes exactly for the states that the operations are proved to keep.
 */
module AddrCheck {
  import opened Sets
  import opened AddrTables
  import opened AddrMan
  import Ops = AddrOperations

  const NULL_KEY: Key := 0

  /** Looking up an address that is not listed finds zero. */
  function Found(addr: map<NetAddr, int>, ip: NetAddr): int {
    if ip in addr then addr[ip] else 0
  }

  function EntryError(e: AddrInfo, found: int, random: seq<int>, n: int): int {
    if e.fInTried && e.nLastSuccess == 0 then -1
    else if e.fInTried && e.nRefCount != 0 then -2
    else if !e.fInTried && (e.nRefCount < 0 || e.nRefCount > NEW_BUCKETS_PER_ADDRESS) then -3
    else if !e.fInTried && e.nRefCount == 0 then -4
    else if found != n then -5
    else if e.nRandomPos < 0 || e.nRandomPos >= |random| || random[e.nRandomPos] != n then -14
    else if e.nLastTry < 0 then -6
    else if e.nLastSuccess < 0 then -8
    else 0
  }

  predicate Passes(s: AddrState, n: int) {
    n in s.info ==> EntryError(s.info[n], Found(s.addr, s.info[n].addr.svc.ip), s.random, n) == 0
  }

  /** What the check establishes. */
  ghost predicate CheckOk(p: Placement, s: AddrState) {
    && |s.random| == s.nTried + s.nNew
    && (forall n {:trigger Passes(s, n)} :: Passes(s, n))
    && s.nTried == |TriedIds(s.info)| && s.nNew == |NewIds(s.info)|
    && TriedOk(p, s.key, s.info, s.triedTab)
    && NewOk(p, s.key, s.info, s.newTab, {})
    && s.key != NULL_KEY
  }

  // ---------- the check and the invariant ----------

  lemma AllIds(info: map<int, AddrInfo>)
    ensures |info| == |info.Keys| == |TriedIds(info)| + |NewIds(info)|
  {
    var a, b := TriedIds(info), NewIds(info);
    forall n ensures n in info.Keys <==> n in a + b {}
    assert info.Keys == a + b && a !! b;
    assert |a + b| == |a| + |b|;
  }

  function Positions(info: map<int, AddrInfo>, ids: set<int>): set<int>
    requires ids <= info.Keys
  {
    set n | n in ids :: info[n].nRandomPos
  }

  lemma {:induction false} PositionsDiffer(info: map<int, AddrInfo>, random: seq<int>, ids: set<int>)
    requires ids <= info.Keys && forall n {:trigger InRandom(info, random, n)} :: InRandom(info, random, n)
    ensures |Positions(info, ids)| == |ids|
    decreases |ids|
  {
    if ids != {} {
      var n := AnyOf(ids);
      PositionsDiffer(info, random, ids - {n});
      var rest, pos := Positions(info, ids - {n}), info[n].nRandomPos;
      assert InRandom(info, random, n);
      forall k | k in ids - {n} ensures info[k].nRandomPos != pos { assert InRandom(info, random, k); }
      forall x ensures x in Positions(info, ids) <==> x in rest + {pos} {
        if x == pos { assert n in ids; }
      }
      assert Positions(info, ids) == rest + {pos};
    }
  }

  function Below(n: nat): (r: set<int>)
    ensures |r| == n && forall x :: x in r <==> 0 <= x < n
  {
    if n == 0 then {} else Below(n - 1) + {n - 1}
  }

  lemma RangeFull(a: set<int>, n: nat, i: int)
    requires (forall x :: x in a ==> 0 <= x < n) && |a| == n && 0 <= i < n
    ensures i in a
  {
    if i !in a {
      SubsetSize(a + {i}, Below(n));
    }
  }

  /** A vector as long as there are entries, in which each finds itself, lists nothing else. */
  lemma RandomFull(info: map<int, AddrInfo>, random: seq<int>)
    requires |random| == |info| && forall n {:trigger InRandom(info, random, n)} :: InRandom(info, random, n)
    ensures RandomOk(info, random)
  {
    var all := Positions(info, info.Keys);
    PositionsDiffer(info, random, info.Keys);
    forall x | x in all ensures 0 <= x < |random| {
      var n :| n in info.Keys && info[n].nRandomPos == x;
      assert InRandom(info, random, n);
    }
    forall i | 0 <= i < |random| ensures IsAt(info, random[i], i) {
      RangeFull(all, |random|, i);
      var n :| n in info.Keys && info[n].nRandomPos == i;
      assert InRandom(info, random, n);
    }
  }

  /** Nothing but addresses of entries is listed. */
  ghost predicate ListsOnlyEntries(s: AddrState) {
    forall ip {:trigger HasIp(s.info, s.addr[ip], ip)} :: ip in s.addr ==> HasIp(s.info, s.addr[ip], ip)
  }

  predicate ZeroListed(s: AddrState) {
    0 in s.info ==> s.info[0].addr.svc.ip in s.addr
  }

  lemma PassesMeans(p: Placement, s: AddrState, n: int)
    requires TriedOk(p, s.key, s.info, s.triedTab) && NewOk(p, s.key, s.info, s.newTab, {})
    ensures Passes(s, n) && (n == 0 ==> ZeroListed(s)) <==>
              InRandom(s.info, s.random, n) && InAddr(s.info, s.addr, n) && (n in s.info ==> TimeOk(s.info[n]))
  {
    assert InTried(p, s.key, s.info, s.triedTab, n) && Counted(s.info, s.newTab, {}, n);
  }

  predicate TimeOk(e: AddrInfo) {
    0 <= e.nLastTry && 0 <= e.nLastSuccess && (e.fInTried ==> e.nLastSuccess != 0)
  }

  /** For states that list only addresses of entries and give ids in order, which the check does not look at: it passes,
      and the address of entry zero is listed, exactly when the state is valid, its times are right and its key is not
      null. So a state that passes is valid exactly when the address of entry zero is listed. */
  lemma CheckMeans(p: Placement, s: AddrState)
    requires IdsOk(s.info, s.idCount) && ListsOnlyEntries(s)
    ensures CheckOk(p, s) && ZeroListed(s) <==> Valid(p, s) && TimesOk(s.info) && s.key != NULL_KEY
    ensures CheckOk(p, s) ==> (Valid(p, s) <==> ZeroListed(s))
  {
    AllIds(s.info);
    if CheckOk(p, s) && ZeroListed(s) {
      forall n ensures InRandom(s.info, s.random, n) && InAddr(s.info, s.addr, n) && (n in s.info ==> TimeOk(s.info[n])) {
        assert Passes(s, n);
        PassesMeans(p, s, n);
      }
      RandomFull(s.info, s.random);
    }
    if Valid(p, s) {
      assert InAddr(s.info, s.addr, 0);
    }
    if Valid(p, s) && TimesOk(s.info) {
      forall n ensures Passes(s, n) {
        assert InRandom(s.info, s.random, n) && InAddr(s.info, s.addr, n);
        PassesMeans(p, s, n);
      }
      RandomSize(s.info, s.random);
    }
  }

  /** One entry, with the id zero and one reference, whose address is not listed. */
  function Unlisted(p: Placement, key: Key, a: Address, source: NetAddr): AddrState {
    AddrState(1, map[0 := AddrInfo(a, source, 0, 0, 0, 0, 1, false, 0)], map[], [0], 0, map[], 1,
              map[p.NewSlot(key, a.svc, source) := 0], 1, key)
  }

  /** It passes the check, and is not valid. */
  lemma UnlistedZero(p: Placement, key: Key, a: Address, source: NetAddr)
    requires key != NULL_KEY
    ensures CheckOk(p, Unlisted(p, key, a, source)) && !Valid(p, Unlisted(p, key, a, source))
  {
    var s, slot := Unlisted(p, key, a, source), p.NewSlot(key, a.svc, source);
    assert TriedIds(s.info) == {} && NewIds(s.info) == {0};
    forall n ensures Counted(s.info, s.newTab, {}, n) {
      if n == 0 { assert Slots(s.newTab, n) == {slot}; }
    }
    assert NewAt(p, s.key, s.info, s.newTab[slot], slot);
    assert !InAddr(s.info, s.addr, 0);
  }

  lemma RandomSize(info: map<int, AddrInfo>, random: seq<int>)
    requires RandomOk(info, random)
    ensures |random| == |info|
  {
    var all := Positions(info, info.Keys);
    PositionsDiffer(info, random, info.Keys);
    forall x | x in all ensures 0 <= x < |random| {
      var n :| n in info.Keys && info[n].nRandomPos == x;
      assert InRandom(info, random, n);
    }
    forall i ensures i in Below(|random|) <==> i in all {
      if 0 <= i < |random| {
        assert IsAt(info, random[i], i);
        assert random[i] in info.Keys;
      }
    }
    assert all == Below(|random|);
  }

  lemma {:induction false} ShuffleKey(p: Placement, s: AddrState, picks: seq<nat>)
    requires Valid(p, s) && |picks| <= |s.random|
    ensures Ops.Shuffle(p, s, picks).key == s.key
    decreases |picks|
  {
    if picks != [] { ShuffleKey(p, s, picks[..|picks| - 1]); }
  }

  lemma GoodKey(p: Placement, s: AddrState, svc: Service, time: int)
    requires Valid(p, s)
    ensures Ops.Good(p, s, svc, time).key == s.key
  {
  }

  lemma OfferKey(p: Placement, s: AddrState, id: int, source: NetAddr, now: int)
    requires Consistent(p, s, {id}, 0)
    requires id in s.info && !s.info[id].fInTried && s.info[id].nRefCount < NEW_BUCKETS_PER_ADDRESS
    ensures Ops.Offer(p, s, id, source, now).key == s.key
  {
  }

  lemma AddKey(p: Placement, s: AddrState, op: Ops.Op)
    requires Valid(p, s) && op.OpAdd?
    ensures Ops.Step(p, s, op).key == s.key
  {
    var OpAdd(a, source, penalty, now, routable, rnd) := op;
    if routable && a.svc.ip in s.addr {
      var id := s.addr[a.svc.ip];
      assert HasIp(s.info, s.addr[a.svc.ip], a.svc.ip) && Counted(s.info, s.newTab, {}, id);
      var e := Ops.Refreshed(s.info[id], a, penalty, now);
      Ops.UpdateConsistent(p, s, id, e, {}, 0);
      if Ops.MayGainReference(e, a, rnd) {
        Ops.Waived(p, Ops.Update(s, id, e), id);
        OfferKey(p, Ops.Update(s, id, e), id, source, now);
      }
    } else if routable {
      Ops.IntroduceConsistent(p, s, a, source, penalty);
      OfferKey(p, Ops.Introduce(s, a, source, penalty), s.idCount, source, now);
    }
  }

  lemma StepKey(p: Placement, s: AddrState, op: Ops.Op)
    requires Valid(p, s)
    ensures Ops.Step(p, s, op).key == s.key
  {
    match op
    case OpAdd(_, _, _, _, _, _) => AddKey(p, s, op);
    case OpGood(svc, time) => GoodKey(p, s, svc, time);
    case OpAttempt(_, _, _) =>
    case OpConnected(_, _) =>
    case OpSetServices(_, _) =>
    case OpGetAddr(picks) => if |picks| <= |s.random| { ShuffleKey(p, s, picks); }
  }

  lemma {:induction false} RunKey(p: Placement, s: AddrState, ops: seq<Ops.Op>)
    requires Valid(p, s)
    ensures Ops.Run(p, s, ops).key == s.key
    decreases |ops|
  {
    if ops != [] {
      StepKey(p, s, ops[0]);
      RunKey(p, Ops.Step(p, s, ops[0]), ops[1..]);
    }
  }

  /** Every run from an empty manager with a key passes the check, given times that are not zero. */
  lemma RunPassesCheck(p: Placement, key: Key, ops: seq<Ops.Op>)
    requires key != NULL_KEY && forall op :: op in ops ==> Ops.WellTimed(op)
    ensures CheckOk(p, Ops.Run(p, Empty(key), ops))
  {
    Ops.RunKeepsCheck(p, key, ops);
    RunKey(p, Empty(key), ops);
    CheckMeans(p, Ops.Run(p, Empty(key), ops));
  }

  // ---------- the check, step by step ----------

  predicate Before(slot: Slot, b: int, i: int) {
    slot.0 < b || (slot.0 == b && slot.1 < i)
  }

  /** The part of a table that has been looked at. */
  function Part(t: Table, b: int, i: int): Table {
    map slot | slot in t && Before(slot, b, i) :: t[slot]
  }

  predicate InGrid(t: Table, buckets: nat) {
    forall slot :: slot in t ==> 0 <= slot.0 < buckets && 0 <= slot.1 < BUCKET_SIZE
  }

  lemma PartNext(t: Table, b: int, i: int)
    ensures (b, i) !in Part(t, b, i)
    ensures (b, i) in t ==> Part(t, b, i + 1) == Part(t, b, i)[(b, i) := t[(b, i)]]
    ensures (b, i) !in t ==> Part(t, b, i + 1) == Part(t, b, i)
  {
    forall x: Slot | x in t && x != (b, i) ensures Before(x, b, i + 1) <==> Before(x, b, i) {
      assert x.0 != b || x.1 != i;
    }
  }

  lemma PartRow(t: Table, buckets: nat, b: int)
    requires InGrid(t, buckets)
    ensures Part(t, b, BUCKET_SIZE) == Part(t, b + 1, 0)
    ensures Part(t, 0, 0) == map[] && Part(t, buckets, 0) == t
  {
  }

  function Ids(t: Table): set<int> {
    set slot | slot in t :: t[slot]
  }

  lemma IdsNext(t: Table, slot: Slot, n: int)
    requires slot !in t
    ensures Ids(t[slot := n]) == Ids(t) + {n}
  {
    forall x ensures x in Ids(t[slot := n]) <==> x in Ids(t) + {n} {
      if x == n { assert slot in t[slot := n]; }
      if x in Ids(t) {
        var y :| y in t && t[y] == x;
        assert t[slot := n][y] == x;
      }
    }
  }

  /** All of a part of the tried table is right, and these entries have not been seen in it. */
  ghost predicate TriedSeen(p: Placement, s: AddrState, part: Table, left: set<int>) {
    && (forall x {:trigger TriedAt(p, s.key, s.info, part[x], x)} :: x in part ==> TriedAt(p, s.key, s.info, part[x], x))
    && left == TriedIds(s.info) - Ids(part)
  }

  lemma TriedOne(p: Placement, s: AddrState, part: Table, left: set<int>, slot: Slot, n: int)
    requires TriedSeen(p, s, part, left) && slot !in part
    ensures n in left && slot == p.TriedSlot(s.key, s.info[n].addr.svc) <==> TriedAt(p, s.key, s.info, n, slot)
    ensures TriedAt(p, s.key, s.info, n, slot) ==> TriedSeen(p, s, part[slot := n], left - {n})
  {
    IdsNext(part, slot, n);
    forall y | y in part ensures part[y] == n ==> !TriedAt(p, s.key, s.info, n, slot) {
      assert TriedAt(p, s.key, s.info, part[y], y);
    }
  }

  /** Nothing is left exactly when every tried entry has its slot. */
  lemma TriedAll(p: Placement, s: AddrState, left: set<int>)
    requires TriedSeen(p, s, s.triedTab, left) && forall n {:trigger Passes(s, n)} :: Passes(s, n)
    ensures left == {} <==> TriedOk(p, s.key, s.info, s.triedTab)
  {
    if left == {} {
      forall n ensures InTried(p, s.key, s.info, s.triedTab, n) {
        assert Passes(s, n);
        if n in TriedIds(s.info) {
          assert n !in left;
          assert n in Ids(s.triedTab);
          var y :| y in s.triedTab && s.triedTab[y] == n;
          assert TriedAt(p, s.key, s.info, s.triedTab[y], y);
        }
      }
    } else {
      var n := AnyOf(left);
      var slot := p.TriedSlot(s.key, s.info[n].addr.svc);
      if slot in s.triedTab { assert s.triedTab[slot] in Ids(s.triedTab); }
      assert !InTried(p, s.key, s.info, s.triedTab, n);
    }
  }

  /** The result so far, and what is left to be seen. */
  datatype Scan<+T> = Scan(err: int, left: T)

  function TriedSlotScan(p: Placement, s: AddrState, slot: Slot, left: set<int>): Scan<set<int>> {
    if slot !in s.triedTab then Scan(0, left)
    else
      var id := s.triedTab[slot];
      if id !in left || id !in s.info then Scan(-11, left)
      else if p.TriedBucket(s.key, s.info[id].addr.svc) != slot.0 then Scan(-17, left)
      else if p.Position(s.key, false, slot.0, s.info[id].addr.svc) != slot.1 then Scan(-18, left)
      else Scan(0, left - {id})
  }

  /** The first slots of a bucket, one after the other. */
  function TriedBucketScan(p: Placement, s: AddrState, b: int, i: nat, left: set<int>): Scan<set<int>> {
    if i == 0 then Scan(0, left)
    else
      var r := TriedBucketScan(p, s, b, i - 1, left);
      if r.err != 0 then r else TriedSlotScan(p, s, (b, i - 1), r.left)
  }

  function TriedScan(p: Placement, s: AddrState, b: nat, left: set<int>): Scan<set<int>> {
    if b == 0 then Scan(0, left)
    else
      var r := TriedScan(p, s, b - 1, left);
      if r.err != 0 then r else TriedBucketScan(p, s, b - 1, BUCKET_SIZE, r.left)
  }

  lemma {:induction false} TriedBucketStops(p: Placement, s: AddrState, b: int, i: nat, n: nat, left: set<int>)
    requires i <= n && TriedBucketScan(p, s, b, i, left).err != 0
    ensures TriedBucketScan(p, s, b, n, left) == TriedBucketScan(p, s, b, i, left)
  {
    if i < n { TriedBucketStops(p, s, b, i, n - 1, left); }
  }

  lemma {:induction false} TriedStops(p: Placement, s: AddrState, b: nat, n: nat, left: set<int>)
    requires b <= n && TriedScan(p, s, b, left).err != 0
    ensures TriedScan(p, s, n, left) == TriedScan(p, s, b, left)
  {
    if b < n { TriedStops(p, s, b, n - 1, left); }
  }

  /** What a scan means: all of the part is right, or the table is not. */
  ghost predicate TriedScanned(p: Placement, s: AddrState, part: Table, r: Scan<set<int>>) {
    if r.err == 0 then TriedSeen(p, s, part, r.left) else !TriedOk(p, s.key, s.info, s.triedTab)
  }

  lemma TriedSlotMeans(p: Placement, s: AddrState, b: int, i: int, left: set<int>)
    requires TriedSeen(p, s, Part(s.triedTab, b, i), left)
    ensures TriedScanned(p, s, Part(s.triedTab, b, i + 1), TriedSlotScan(p, s, (b, i), left))
  {
    PartNext(s.triedTab, b, i);
    if (b, i) in s.triedTab {
      var id := s.triedTab[(b, i)];
      TriedOne(p, s, Part(s.triedTab, b, i), left, (b, i), id);
      if !TriedAt(p, s.key, s.info, id, (b, i)) {
        assert !TriedAt(p, s.key, s.info, s.triedTab[(b, i)], (b, i));
      }
    }
  }

  lemma {:induction false} TriedBucketMeans(p: Placement, s: AddrState, b: int, i: nat, left: set<int>)
    requires TriedSeen(p, s, Part(s.triedTab, b, 0), left)
    ensures TriedScanned(p, s, Part(s.triedTab, b, i), TriedBucketScan(p, s, b, i, left))
  {
    if i > 0 {
      TriedBucketMeans(p, s, b, i - 1, left);
      var r := TriedBucketScan(p, s, b, i - 1, left);
      if r.err == 0 { TriedSlotMeans(p, s, b, i - 1, r.left); }
    }
  }

  lemma {:induction false} TriedMeans(p: Placement, s: AddrState, b: nat, left: set<int>)
    requires InGrid(s.triedTab, TRIED_BUCKET_COUNT) && left == TriedIds(s.info)
    ensures TriedScanned(p, s, Part(s.triedTab, b, 0), TriedScan(p, s, b, left))
  {
    PartRow(s.triedTab, TRIED_BUCKET_COUNT, b - 1);
    if b > 0 {
      TriedMeans(p, s, b - 1, left);
      var r := TriedScan(p, s, b - 1, left);
      if r.err == 0 { TriedBucketMeans(p, s, b - 1, BUCKET_SIZE, r.left); }
    } else {
      assert Ids(map[]) == {};
    }
  }

  ghost predicate AreEntries(ids: set<int>, info: map<int, AddrInfo>) {
    forall n :: n in ids ==> n in info
  }

  method CheckTried(m: AddrManager, tried: set<int>) returns (err: int, left: set<int>)
    requires m.Shaped() && AreEntries(tried, m.mapInfo)
    ensures Scan(err, left) == TriedScan(m.p, m.State(), TRIED_BUCKET_COUNT, tried)
  {
    ghost var s := m.State();
    err, left := 0, tried;
    var n := 0;
    while n < TRIED_BUCKET_COUNT && err == 0
      invariant 0 <= n <= TRIED_BUCKET_COUNT && Scan(err, left) == TriedScan(m.p, s, n, tried) && AreEntries(left, m.mapInfo)
    {
      err, left := CheckTriedBucket(m, n, BUCKET_SIZE, left);
      n := n + 1;
    }
    if err != 0 { TriedStops(m.p, s, n, TRIED_BUCKET_COUNT, tried); }
  }

  method CheckTriedBucket(m: AddrManager, n: nat, size: nat, tried: set<int>) returns (err: int, left: set<int>)
    requires m.Shaped() && n < TRIED_BUCKET_COUNT && size <= BUCKET_SIZE && AreEntries(tried, m.mapInfo)
    ensures Scan(err, left) == TriedBucketScan(m.p, m.State(), n, size, tried) && AreEntries(left, m.mapInfo)
  {
    ghost var s := m.State();
    err, left := 0, tried;
    var i := 0;
    while i < size && err == 0
      invariant 0 <= i <= size && Scan(err, left) == TriedBucketScan(m.p, s, n, i, tried) && AreEntries(left, m.mapInfo)
    {
      err, left := CheckTriedSlot(m, n, i, left);
      i := i + 1;
    }
    if err != 0 { TriedBucketStops(m.p, s, n, i, size, tried); }
  }

  method CheckTriedSlot(m: AddrManager, n: nat, i: nat, tried: set<int>) returns (err: int, left: set<int>)
    requires m.Shaped() && n < TRIED_BUCKET_COUNT && i < BUCKET_SIZE && AreEntries(tried, m.mapInfo)
    ensures Scan(err, left) == TriedSlotScan(m.p, m.State(), (n, i), tried) && AreEntries(left, m.mapInfo)
  {
    var id := m.vvTried[n, i];
    if id == -1 { return 0, tried; }
    if id !in tried { return -11, tried; }
    if m.p.TriedBucket(m.nKey, m.mapInfo[id].addr.svc) != n { return -17, tried; }
    if m.p.Position(m.nKey, false, n, m.mapInfo[id].addr.svc) != i { return -18, tried; }
    return 0, tried - {id};
  }

  function RefCounts(info: map<int, AddrInfo>): map<int, int> {
    map n | n in info && !info[n].fInTried :: info[n].nRefCount
  }

  /** The references of an entry that have not been seen in a part of the new table. */
  predicate Remains(info: map<int, AddrInfo>, part: Table, left: map<int, int>, n: int) {
    if n in info && !info[n].fInTried then
      && |Slots(part, n)| <= info[n].nRefCount
      && (n in left <==> |Slots(part, n)| < info[n].nRefCount)
      && (n in left ==> left[n] == info[n].nRefCount - |Slots(part, n)|)
    else n !in left
  }

  ghost predicate NewSeen(p: Placement, s: AddrState, part: Table, left: map<int, int>) {
    && (forall x {:trigger NewAt(p, s.key, s.info, part[x], x)} :: x in part ==> NewAt(p, s.key, s.info, part[x], x))
    && (forall n {:trigger Remains(s.info, part, left, n)} :: Remains(s.info, part, left, n))
  }

  lemma SlotsNext(t: Table, slot: Slot, n: int, x: int)
    requires slot !in t
    ensures Slots(t[slot := n], x) == Slots(t, x) + if x == n then {slot} else {}
  {
  }

  lemma {:induction false} SlotsWithin(part: Table, t: Table, n: int)
    requires forall x :: x in part ==> x in t && t[x] == part[x]
    ensures |Slots(part, n)| <= |Slots(t, n)|
  {
    var a, b := Slots(part, n), Slots(t, n);
    assert b == a + (b - a) && a !! (b - a);
  }

  /** One reference of an entry less. */
  function OneLess(left: map<int, int>, n: int): map<int, int>
    requires n in left
  {
    if left[n] == 1 then left - {n} else left[n := left[n] - 1]
  }

  lemma NewOne(p: Placement, s: AddrState, part: Table, left: map<int, int>, slot: Slot, n: int)
    requires NewSeen(p, s, part, left) && slot !in part && 0 <= slot.0 < NEW_BUCKET_COUNT
    requires n in left && n in s.info && slot.1 == p.Position(s.key, true, slot.0, s.info[n].addr.svc)
    ensures NewSeen(p, s, part[slot := n], OneLess(left, n))
  {
    var part', left' := part[slot := n], OneLess(left, n);
    assert Remains(s.info, part, left, n);
    forall x ensures Remains(s.info, part', left', x) {
      assert Remains(s.info, part, left, x);
      SlotsNext(part, slot, n, x);
    }
    forall x | x in part' ensures NewAt(p, s.key, s.info, part'[x], x) {
      if x != slot { assert NewAt(p, s.key, s.info, part[x], x); }
    }
  }

  /** An entry without a reference left, or out of place, is an error in the table. */
  lemma NewBad(p: Placement, s: AddrState, part: Table, left: map<int, int>, slot: Slot, n: int)
    requires NewSeen(p, s, part, left) && slot !in part && slot in s.newTab && s.newTab[slot] == n
    requires forall x :: x in part ==> x in s.newTab && s.newTab[x] == part[x]
    requires n in left && n in s.info ==> slot.1 != p.Position(s.key, true, slot.0, s.info[n].addr.svc)
    ensures !NewOk(p, s.key, s.info, s.newTab, {})
  {
    assert Remains(s.info, part, left, n);
    if NewAt(p, s.key, s.info, s.newTab[slot], slot) {
      SlotsNext(part, slot, n, n);
      SlotsWithin(part[slot := n], s.newTab, n);
      assert !Counted(s.info, s.newTab, {}, n);
    }
  }

  /** Nothing is left exactly when every reference is there. */
  lemma NewAll(p: Placement, s: AddrState, left: map<int, int>)
    requires NewSeen(p, s, s.newTab, left) && forall n {:trigger Passes(s, n)} :: Passes(s, n)
    ensures left == map[] <==> NewOk(p, s.key, s.info, s.newTab, {})
  {
    if left == map[] {
      forall n ensures Counted(s.info, s.newTab, {}, n) {
        assert Passes(s, n) && Remains(s.info, s.newTab, left, n);
      }
    } else {
      var n := AnyOf(left.Keys);
      assert Remains(s.info, s.newTab, left, n);
      assert !Counted(s.info, s.newTab, {}, n);
    }
  }

  lemma NewNone(p: Placement, s: AddrState)
    requires forall n {:trigger Passes(s, n)} :: Passes(s, n)
    ensures NewSeen(p, s, map[], RefCounts(s.info))
  {
    forall n ensures Remains(s.info, map[], RefCounts(s.info), n) {
      assert Passes(s, n);
      assert Slots(map[], n) == {};
    }
  }

  function NewSlotScan(p: Placement, s: AddrState, slot: Slot, left: map<int, int>): Scan<map<int, int>> {
    if slot !in s.newTab then Scan(0, left)
    else
      var id := s.newTab[slot];
      if id !in left || id !in s.info then Scan(-12, left)
      else if p.Position(s.key, true, slot.0, s.info[id].addr.svc) != slot.1 then Scan(-19, left)
      else Scan(0, OneLess(left, id))
  }

  function NewBucketScan(p: Placement, s: AddrState, b: int, i: nat, left: map<int, int>): Scan<map<int, int>> {
    if i == 0 then Scan(0, left)
    else
      var r := NewBucketScan(p, s, b, i - 1, left);
      if r.err != 0 then r else NewSlotScan(p, s, (b, i - 1), r.left)
  }

  function NewScan(p: Placement, s: AddrState, b: nat, left: map<int, int>): Scan<map<int, int>> {
    if b == 0 then Scan(0, left)
    else
      var r := NewScan(p, s, b - 1, left);
      if r.err != 0 then r else NewBucketScan(p, s, b - 1, BUCKET_SIZE, r.left)
  }

  lemma {:induction false} NewBucketStops(p: Placement, s: AddrState, b: int, i: nat, n: nat, left: map<int, int>)
    requires i <= n && NewBucketScan(p, s, b, i, left).err != 0
    ensures NewBucketScan(p, s, b, n, left) == NewBucketScan(p, s, b, i, left)
  {
    if i < n { NewBucketStops(p, s, b, i, n - 1, left); }
  }

  lemma {:induction false} NewStops(p: Placement, s: AddrState, b: nat, n: nat, left: map<int, int>)
    requires b <= n && NewScan(p, s, b, left).err != 0
    ensures NewScan(p, s, n, left) == NewScan(p, s, b, left)
  {
    if b < n { NewStops(p, s, b, n - 1, left); }
  }

  ghost predicate NewScanned(p: Placement, s: AddrState, part: Table, r: Scan<map<int, int>>) {
    if r.err == 0 then NewSeen(p, s, part, r.left) else !NewOk(p, s.key, s.info, s.newTab, {})
  }

  lemma NewSlotMeans(p: Placement, s: AddrState, b: int, i: int, left: map<int, int>)
    requires InGrid(s.newTab, NEW_BUCKET_COUNT) && NewSeen(p, s, Part(s.newTab, b, i), left)
    ensures NewScanned(p, s, Part(s.newTab, b, i + 1), NewSlotScan(p, s, (b, i), left))
  {
    PartNext(s.newTab, b, i);
    if (b, i) in s.newTab {
      var id := s.newTab[(b, i)];
      assert Remains(s.info, Part(s.newTab, b, i), left, id);
      if NewSlotScan(p, s, (b, i), left).err == 0 {
        NewOne(p, s, Part(s.newTab, b, i), left, (b, i), id);
      } else {
        NewBad(p, s, Part(s.newTab, b, i), left, (b, i), id);
      }
    }
  }

  lemma {:induction false} NewBucketMeans(p: Placement, s: AddrState, b: int, i: nat, left: map<int, int>)
    requires InGrid(s.newTab, NEW_BUCKET_COUNT) && NewSeen(p, s, Part(s.newTab, b, 0), left)
    ensures NewScanned(p, s, Part(s.newTab, b, i), NewBucketScan(p, s, b, i, left))
  {
    if i > 0 {
      NewBucketMeans(p, s, b, i - 1, left);
      var r := NewBucketScan(p, s, b, i - 1, left);
      if r.err == 0 { NewSlotMeans(p, s, b, i - 1, r.left); }
    }
  }

  lemma {:induction false} NewMeans(p: Placement, s: AddrState, b: nat, left: map<int, int>)
    requires InGrid(s.newTab, NEW_BUCKET_COUNT) && NewSeen(p, s, map[], left)
    ensures NewScanned(p, s, Part(s.newTab, b, 0), NewScan(p, s, b, left))
  {
    PartRow(s.newTab, NEW_BUCKET_COUNT, b - 1);
    if b > 0 {
      NewMeans(p, s, b - 1, left);
      var r := NewScan(p, s, b - 1, left);
      if r.err == 0 { NewBucketMeans(p, s, b - 1, BUCKET_SIZE, r.left); }
    }
  }

  method CheckNew(m: AddrManager, refs: map<int, int>) returns (err: int, left: map<int, int>)
    requires m.Shaped() && refs.Keys <= m.mapInfo.Keys
    ensures Scan(err, left) == NewScan(m.p, m.State(), NEW_BUCKET_COUNT, refs)
  {
    ghost var s := m.State();
    err, left := 0, refs;
    var n := 0;
    while n < NEW_BUCKET_COUNT && err == 0
      invariant 0 <= n <= NEW_BUCKET_COUNT && Scan(err, left) == NewScan(m.p, s, n, refs) && left.Keys <= m.mapInfo.Keys
    {
      err, left := CheckNewBucket(m, n, BUCKET_SIZE, left);
      n := n + 1;
    }
    if err != 0 { NewStops(m.p, s, n, NEW_BUCKET_COUNT, refs); }
  }

  method CheckNewBucket(m: AddrManager, n: nat, size: nat, refs: map<int, int>) returns (err: int, left: map<int, int>)
    requires m.Shaped() && n < NEW_BUCKET_COUNT && size <= BUCKET_SIZE && refs.Keys <= m.mapInfo.Keys
    ensures Scan(err, left) == NewBucketScan(m.p, m.State(), n, size, refs) && left.Keys <= m.mapInfo.Keys
  {
    ghost var s := m.State();
    err, left := 0, refs;
    var i := 0;
    while i < size && err == 0
      invariant 0 <= i <= size && Scan(err, left) == NewBucketScan(m.p, s, n, i, refs) && left.Keys <= m.mapInfo.Keys
    {
      err, left := CheckNewSlot(m, n, i, left);
      i := i + 1;
    }
    if err != 0 { NewBucketStops(m.p, s, n, i, size, refs); }
  }

  method CheckNewSlot(m: AddrManager, n: nat, i: nat, refs: map<int, int>) returns (err: int, left: map<int, int>)
    requires m.Shaped() && n < NEW_BUCKET_COUNT && i < BUCKET_SIZE && refs.Keys <= m.mapInfo.Keys
    ensures Scan(err, left) == NewSlotScan(m.p, m.State(), (n, i), refs) && left.Keys <= m.mapInfo.Keys
  {
    var id := m.vvNew[n, i];
    if id == -1 { return 0, refs; }
    if id !in refs { return -12, refs; }
    if m.p.Position(m.nKey, true, n, m.mapInfo[id].addr.svc) != i { return -19, refs; }
    return 0, OneLess(refs, id);
  }

  ghost predicate AllListed(info: map<int, AddrInfo>, addr: map<NetAddr, int>) {
    forall n {:trigger InAddr(info, addr, n)} :: InAddr(info, addr, n)
  }

  /** The entries one by one: those tried, and the reference counts of the others. Looking an address up lists it. */
  method CheckEntries(m: AddrManager) returns (err: int, tried: set<int>, refs: map<int, int>)
    modifies m`mapAddr
    ensures forall ip {:trigger Found(m.mapAddr, ip)} :: Found(m.mapAddr, ip) == Found(old(m.mapAddr), ip)
    ensures err == 0 <==> forall n {:trigger Passes(old(m.State()), n)} :: Passes(old(m.State()), n)
    ensures err == 0 ==> tried == TriedIds(m.mapInfo) && refs == RefCounts(m.mapInfo)
    ensures AllListed(m.mapInfo, old(m.mapAddr)) ==> m.mapAddr == old(m.mapAddr)
  {
    ghost var s := m.State();
    tried, refs := {}, map[];
    var todo := m.mapInfo.Keys;
    while todo != {}
      invariant todo <= m.mapInfo.Keys
      invariant forall n {:trigger Passes(s, n)} :: n !in todo ==> Passes(s, n)
      invariant tried == TriedIds(m.mapInfo - todo) && refs == RefCounts(m.mapInfo - todo)
      invariant forall ip {:trigger Found(m.mapAddr, ip)} :: Found(m.mapAddr, ip) == Found(s.addr, ip)
      invariant AllListed(m.mapInfo, s.addr) ==> m.mapAddr == s.addr
    {
      ghost var some := AnyOf(todo);
      var n :| n in todo;
      var info := m.mapInfo[n];
      var found := Found(m.mapAddr, info.addr.svc.ip);
      Listed(m.mapAddr, info.addr.svc.ip);
      if AllListed(m.mapInfo, s.addr) { assert InAddr(m.mapInfo, s.addr, n); }
      m.mapAddr := m.mapAddr[info.addr.svc.ip := found];
      err := EntryError(info, found, m.vRandom, n);
      if err != 0 {
        assert !Passes(s, n);
        return;
      }
      MoreSeen(m.mapInfo, todo, n);
      if info.fInTried { tried := tried + {n}; } else { refs := refs[n := info.nRefCount]; }
      todo := todo - {n};
    }
    assert m.mapInfo - todo == m.mapInfo;
    err := 0;
  }

  lemma Listed(addr: map<NetAddr, int>, ip: NetAddr)
    ensures forall x {:trigger Found(addr[ip := Found(addr, ip)], x)} :: Found(addr[ip := Found(addr, ip)], x) == Found(addr, x)
    ensures ip in addr ==> addr[ip := Found(addr, ip)] == addr
  {
  }

  lemma MoreSeen(info: map<int, AddrInfo>, todo: set<int>, n: int)
    requires n in todo && n in info
    ensures TriedIds(info - (todo - {n})) == TriedIds(info - todo) + if info[n].fInTried then {n} else {}
    ensures RefCounts(info - (todo - {n}))
         == if info[n].fInTried then RefCounts(info - todo) else RefCounts(info - todo)[n := info[n].nRefCount]
  {
  }

  lemma RefCountsSize(info: map<int, AddrInfo>)
    ensures RefCounts(info).Keys == NewIds(info) && |RefCounts(info)| == |NewIds(info)|
  {
    forall n ensures n in RefCounts(info).Keys <==> n in NewIds(info) {}
  }

  /** The whole check. */
  method Check(m: AddrManager) returns (err: int)
    requires m.Shaped()
    modifies m`mapAddr
    ensures err == 0 <==> CheckOk(m.p, old(m.State()))
    ensures forall ip {:trigger Found(m.mapAddr, ip)} :: Found(m.mapAddr, ip) == Found(old(m.mapAddr), ip)
    ensures old(m.Valid()) ==> m.State() == old(m.State())
  {
    ghost var s := m.State();
    if |m.vRandom| != m.nTried + m.nNew { return -7; }
    var tried, refs;
    err, tried, refs := CheckEntries(m);
    if err != 0 { return; }
    RefCountsSize(m.mapInfo);
    if |tried| != m.nTried { return -9; }
    if |refs| != m.nNew { return -10; }
    SamePasses(s, m.State());
    err := CheckTables(m, tried, refs);
    assert m.State() == s.(addr := m.mapAddr);
  }

  /** Only what is found decides about an entry. */
  lemma SamePasses(s: AddrState, t: AddrState)
    requires t == s.(addr := t.addr)
    requires forall ip {:trigger Found(t.addr, ip)} :: Found(t.addr, ip) == Found(s.addr, ip)
    requires forall n {:trigger Passes(s, n)} :: Passes(s, n)
    ensures forall n {:trigger Passes(t, n)} :: Passes(t, n)
  {
    forall n ensures Passes(t, n) { assert Passes(s, n); }
  }

  /** What the scans of both tables say about them. */
  lemma TablesMean(p: Placement, s: AddrState)
    requires InGrid(s.triedTab, TRIED_BUCKET_COUNT) && InGrid(s.newTab, NEW_BUCKET_COUNT)
    requires forall n {:trigger Passes(s, n)} :: Passes(s, n)
    ensures var r := TriedScan(p, s, TRIED_BUCKET_COUNT, TriedIds(s.info));
            r.err == 0 && r.left == {} <==> TriedOk(p, s.key, s.info, s.triedTab)
    ensures var r := NewScan(p, s, NEW_BUCKET_COUNT, RefCounts(s.info));
            r.err == 0 && r.left == map[] <==> NewOk(p, s.key, s.info, s.newTab, {})
  {
    var left, refs := TriedIds(s.info), RefCounts(s.info);
    PartRow(s.triedTab, TRIED_BUCKET_COUNT, 0);
    PartRow(s.newTab, NEW_BUCKET_COUNT, 0);
    TriedMeans(p, s, TRIED_BUCKET_COUNT, left);
    NewNone(p, s);
    NewMeans(p, s, NEW_BUCKET_COUNT, refs);
    var r, q := TriedScan(p, s, TRIED_BUCKET_COUNT, left), NewScan(p, s, NEW_BUCKET_COUNT, refs);
    if r.err == 0 { TriedAll(p, s, r.left); }
    if q.err == 0 { NewAll(p, s, q.left); }
  }

  method CheckTables(m: AddrManager, tried: set<int>, refs: map<int, int>) returns (err: int)
    requires m.Shaped() && tried == TriedIds(m.mapInfo) && refs == RefCounts(m.mapInfo)
    requires forall n {:trigger Passes(m.State(), n)} :: Passes(m.State(), n)
    ensures err == 0 <==>
              && TriedOk(m.p, m.nKey, m.mapInfo, View(m.vvTried)) && NewOk(m.p, m.nKey, m.mapInfo, View(m.vvNew), {})
              && m.nKey != NULL_KEY
  {
    TablesMean(m.p, m.State());
    var triedLeft, newLeft;
    err, triedLeft := CheckTried(m, tried);
    if err != 0 { return; }
    err, newLeft := CheckNew(m, refs);
    if err != 0 { return; }
    if triedLeft != {} { return -13; }
    if newLeft != map[] { return -15; }
    if m.nKey == NULL_KEY { return -16; }
    return 0;
  }
}
