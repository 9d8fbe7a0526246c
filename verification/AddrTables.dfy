/**
 The address manager as a value: its four indexes, the placement of entries in
 the bucket tables, and what every step of every operation does to them.

 A bucket table is a partial map from (bucket, position) to an entry id; a slot
 that is absent from the map is a slot holding -1 in the arrays.
 */
module AddrTables {

  const TRIED_BUCKET_COUNT := 256
  const NEW_BUCKET_COUNT := 1024
  const BUCKET_SIZE := 64
  const NEW_BUCKETS_PER_ADDRESS := 8
  const HORIZON_DAYS := 30
  const RETRIES := 3
  const MAX_FAILURES := 10
  const MIN_FAIL_DAYS := 7
  const GETADDR_MAX_PCT := 23
  const GETADDR_MAX := 2500

  type Key = nat
  type NetAddr = nat
  type Slot = (int, int)
  type Table = map<Slot, int>

  datatype Service = Service(ip: NetAddr, port: nat)

  datatype Address = Address(svc: Service, services: set<nat>, nTime: nat)

  datatype AddrInfo = AddrInfo(
    addr: Address, source: NetAddr,
    nLastSuccess: int, nLastTry: int, nLastCountAttempt: int, nAttempts: int,
    nRefCount: int, fInTried: bool, nRandomPos: int)

  /** The keyed hashes behind bucket selection; nothing is known about them. */
  datatype Placement = Placement(
    triedHash: (Key, Service) -> nat,
    newHash: (Key, Service, NetAddr) -> nat,
    positionHash: (Key, bool, int, Service) -> nat)
  {
    function TriedBucket(key: Key, svc: Service): (b: nat)
      ensures b < TRIED_BUCKET_COUNT
    {
      triedHash(key, svc) % TRIED_BUCKET_COUNT
    }

    function NewBucket(key: Key, svc: Service, source: NetAddr): (b: nat)
      ensures b < NEW_BUCKET_COUNT
    {
      newHash(key, svc, source) % NEW_BUCKET_COUNT
    }

    function Position(key: Key, isNew: bool, bucket: int, svc: Service): (i: nat)
      ensures i < BUCKET_SIZE
    {
      positionHash(key, isNew, bucket, svc) % BUCKET_SIZE
    }

    function TriedSlot(key: Key, svc: Service): Slot {
      var b := TriedBucket(key, svc);
      (b, Position(key, false, b, svc))
    }

    function NewSlot(key: Key, svc: Service, source: NetAddr): Slot {
      var b := NewBucket(key, svc, source);
      (b, Position(key, true, b, svc))
    }
  }

  datatype AddrState = AddrState(
    idCount: int,
    info: map<int, AddrInfo>,
    addr: map<NetAddr, int>,
    random: seq<int>,
    nTried: int,
    triedTab: Table,
    nNew: int,
    newTab: Table,
    lastGood: int,
    key: Key)

  function Empty(key: Key): AddrState {
    AddrState(0, map[], map[], [], 0, map[], 0, map[], 1, key)
  }

  function Slots(t: Table, id: int): set<Slot> {
    set s | s in t && t[s] == id
  }

  function TriedIds(info: map<int, AddrInfo>): set<int> {
    set n | n in info && info[n].fInTried
  }

  function NewIds(info: map<int, AddrInfo>): set<int> {
    set n | n in info && !info[n].fInTried
  }

  // ----- the invariant -------------------------------------------------------

  predicate IsAt(info: map<int, AddrInfo>, n: int, pos: int) {
    n in info && info[n].nRandomPos == pos
  }

  predicate InRandom(info: map<int, AddrInfo>, random: seq<int>, n: int) {
    n in info ==> 0 <= info[n].nRandomPos < |random| && random[info[n].nRandomPos] == n
  }

  /** nRandomPos and the random vector are inverse to each other. */
  ghost predicate RandomOk(info: map<int, AddrInfo>, random: seq<int>) {
    && (forall i {:trigger IsAt(info, random[i], i)} :: 0 <= i < |random| ==> IsAt(info, random[i], i))
    && (forall n {:trigger InRandom(info, random, n)} :: InRandom(info, random, n))
  }

  predicate HasIp(info: map<int, AddrInfo>, n: int, ip: NetAddr) {
    n in info && info[n].addr.svc.ip == ip
  }

  predicate InAddr(info: map<int, AddrInfo>, addr: map<NetAddr, int>, n: int) {
    n in info ==> info[n].addr.svc.ip in addr && addr[info[n].addr.svc.ip] == n
  }

  /** The address index and the entries are inverse to each other. */
  ghost predicate AddrOk(info: map<int, AddrInfo>, addr: map<NetAddr, int>) {
    && (forall ip {:trigger HasIp(info, addr[ip], ip)} :: ip in addr ==> HasIp(info, addr[ip], ip))
    && (forall n {:trigger InAddr(info, addr, n)} :: InAddr(info, addr, n))
  }

  predicate TriedAt(p: Placement, key: Key, info: map<int, AddrInfo>, n: int, slot: Slot) {
    n in info && info[n].fInTried && slot == p.TriedSlot(key, info[n].addr.svc)
  }

  predicate InTried(p: Placement, key: Key, info: map<int, AddrInfo>, t: Table, n: int) {
    n in info && info[n].fInTried ==>
      var slot := p.TriedSlot(key, info[n].addr.svc);
      info[n].nRefCount == 0 && slot in t && t[slot] == n
  }

  /** A tried entry has exactly one slot, its own, and no new references. */
  ghost predicate TriedOk(p: Placement, key: Key, info: map<int, AddrInfo>, t: Table) {
    && (forall s {:trigger TriedAt(p, key, info, t[s], s)} :: s in t ==> TriedAt(p, key, info, t[s], s))
    && (forall n {:trigger InTried(p, key, info, t, n)} :: InTried(p, key, info, t, n))
  }

  predicate NewAt(p: Placement, key: Key, info: map<int, AddrInfo>, n: int, slot: Slot) {
    && n in info && !info[n].fInTried
    && 0 <= slot.0 < NEW_BUCKET_COUNT
    && slot.1 == p.Position(key, true, slot.0, info[n].addr.svc)
  }

  predicate Counted(info: map<int, AddrInfo>, t: Table, limbo: set<int>, n: int) {
    n in info && !info[n].fInTried ==>
      && info[n].nRefCount == |Slots(t, n)| <= NEW_BUCKETS_PER_ADDRESS
      && (n !in limbo ==> 1 <= info[n].nRefCount)
  }

  /** The new table holds only untried entries, each at its position in the bucket.
      The reference count of an untried entry is its number of slots, from 1 to 8;
      entries in `limbo` may be without any slot. */
  ghost predicate NewOk(p: Placement, key: Key, info: map<int, AddrInfo>, t: Table, limbo: set<int>) {
    && (forall s {:trigger NewAt(p, key, info, t[s], s)} :: s in t ==> NewAt(p, key, info, t[s], s))
    && (forall n {:trigger Counted(info, t, limbo, n)} :: Counted(info, t, limbo, n))
  }

  ghost predicate IdsOk(info: map<int, AddrInfo>, idCount: int) {
    0 <= idCount && forall n :: n in info ==> 0 <= n < idCount
  }

  /** All but the address index of a state in the middle of an operation is right: the
      entries of `limbo` have no table slot yet, and `uncounted` untried entries are
      missing from nNew. */
  ghost predicate Sound(p: Placement, s: AddrState, limbo: set<int>, uncounted: int) {
    && RandomOk(s.info, s.random)
    && TriedOk(p, s.key, s.info, s.triedTab)
    && NewOk(p, s.key, s.info, s.newTab, limbo)
    && IdsOk(s.info, s.idCount)
    && s.nTried == |TriedIds(s.info)|
    && s.nNew + uncounted == |NewIds(s.info)|
  }

  /** The consistency of a state in the middle of an operation. */
  ghost predicate Consistent(p: Placement, s: AddrState, limbo: set<int>, uncounted: int) {
    Sound(p, s, limbo, uncounted) && AddrOk(s.info, s.addr)
  }

  /** The consistency of a state between operations. */
  ghost predicate Valid(p: Placement, s: AddrState) {
    Consistent(p, s, {}, 0)
  }

  /** The time stamps the consistency check looks at. */
  ghost predicate TimesOk(info: map<int, AddrInfo>) {
    forall n :: n in info ==>
      && 0 <= info[n].nLastTry
      && 0 <= info[n].nLastSuccess
      && (info[n].fInTried ==> info[n].nLastSuccess != 0)
  }

  // ----- the steps -----------------------------------------------------------

  /** An entry gets the next id and is listed by address and in the random vector. */
  function Enlist(s: AddrState, e: AddrInfo): AddrState {
    s.(idCount := s.idCount + 1,
       info := s.info[s.idCount := e.(nRandomPos := |s.random|)],
       addr := s.addr[e.addr.svc.ip := s.idCount],
       random := s.random + [s.idCount])
  }

  function Create(s: AddrState, a: Address, source: NetAddr): AddrState {
    Enlist(s, AddrInfo(a, source, 0, 0, 0, 0, 0, false, |s.random|))
  }

  /** What the assertions of the swap demand. */
  predicate CanSwap(s: AddrState, i: int, j: int) {
    i == j || (0 <= i < |s.random| && 0 <= j < |s.random| && s.random[i] in s.info && s.random[j] in s.info)
  }

  function SwapRandom(s: AddrState, i: int, j: int): AddrState
    requires CanSwap(s, i, j)
  {
    if i == j then s
    else
      var a, b := s.random[i], s.random[j];
      var info1 := s.info[a := s.info[a].(nRandomPos := j)];
      s.(info := info1[b := info1[b].(nRandomPos := i)],
         random := s.random[i := b][j := a])
  }

  /** What the assertions of the deletion demand. */
  predicate CanDelete(s: AddrState, id: int) {
    && id in s.info && !s.info[id].fInTried && s.info[id].nRefCount == 0
    && 0 < |s.random|
    && CanSwap(s, s.info[id].nRandomPos, |s.random| - 1)
  }

  /** The end of a deletion, once the entry is last in the random vector. */
  function DropLast(s: AddrState, id: int): AddrState
    requires id in s.info && 0 < |s.random|
  {
    s.(random := s.random[..|s.random| - 1],
       addr := s.addr - {s.info[id].addr.svc.ip},
       info := s.info - {id},
       nNew := s.nNew - 1)
  }

  function Delete(s: AddrState, id: int): AddrState
    requires CanDelete(s, id)
  {
    DropLast(SwapRandom(s, s.info[id].nRandomPos, |s.random| - 1), id)
  }

  /** A slot of the new table loses its entry's reference. */
  function Unref(s: AddrState, slot: Slot): AddrState
    requires slot in s.newTab && s.newTab[slot] in s.info
  {
    var d := s.newTab[slot];
    s.(info := s.info[d := s.info[d].(nRefCount := s.info[d].nRefCount - 1)],
       newTab := s.newTab - {slot})
  }

  predicate CanClear(s: AddrState, slot: Slot) {
    slot in s.newTab ==>
      && s.newTab[slot] in s.info
      && 0 < s.info[s.newTab[slot]].nRefCount
      && (s.info[s.newTab[slot]].nRefCount == 1 ==> CanDelete(Unref(s, slot), s.newTab[slot]))
  }

  function ClearNew(s: AddrState, slot: Slot): AddrState
    requires CanClear(s, slot)
  {
    if slot !in s.newTab then s
    else if s.info[s.newTab[slot]].nRefCount == 1 then Delete(Unref(s, slot), s.newTab[slot])
    else Unref(s, slot)
  }

  /** The entry leaves every bucket of the new table below `limit`. */
  function Without(t: Table, id: int, limit: int): Table {
    map x | x in t && !(t[x] == id && x.0 < limit) :: t[x]
  }

  /** The entry gives up all its references and is no longer counted as new. */
  function Unlink(s: AddrState, id: int): AddrState
    requires id in s.info
  {
    s.(info := s.info[id := s.info[id].(nRefCount := 0)],
       newTab := Without(s.newTab, id, NEW_BUCKET_COUNT),
       nNew := s.nNew - 1)
  }

  /** The entry leaves the tried table. */
  function Demote(p: Placement, s: AddrState, e: int): AddrState
    requires e in s.info
  {
    s.(info := s.info[e := s.info[e].(fInTried := false)],
       triedTab := s.triedTab - {p.TriedSlot(s.key, s.info[e].addr.svc)},
       nTried := s.nTried - 1)
  }

  /** The entry gets one reference, in the slot given by its own source. */
  function Reenter(p: Placement, s: AddrState, e: int): AddrState
    requires e in s.info
  {
    s.(info := s.info[e := s.info[e].(nRefCount := 1)],
       newTab := s.newTab[p.NewSlot(s.key, s.info[e].addr.svc, s.info[e].source) := e],
       nNew := s.nNew + 1)
  }

  /** The entry enters the tried table. */
  function Promote(p: Placement, s: AddrState, id: int): AddrState
    requires id in s.info
  {
    s.(info := s.info[id := s.info[id].(fInTried := true)],
       triedTab := s.triedTab[p.TriedSlot(s.key, s.info[id].addr.svc) := id],
       nTried := s.nTried + 1)
  }

  predicate CanEvict(p: Placement, s: AddrState, e: int) {
    && e in s.info
    && var d := Demote(p, s, e);
       var slot := p.NewSlot(s.key, s.info[e].addr.svc, s.info[e].source);
       CanClear(d, slot) && e in ClearNew(d, slot).info
  }

  /** A tried entry goes back to the new table, taking the slot of what is there. */
  function Evict(p: Placement, s: AddrState, e: int): AddrState
    requires CanEvict(p, s, e)
  {
    Reenter(p, ClearNew(Demote(p, s, e), p.NewSlot(s.key, s.info[e].addr.svc, s.info[e].source)), e)
  }

  function Displaced(p: Placement, s: AddrState, id: int): AddrState
    requires id in s.info
  {
    var slot := p.TriedSlot(s.key, s.info[id].addr.svc);
    if slot in s.triedTab && CanEvict(p, s, s.triedTab[slot]) then Evict(p, s, s.triedTab[slot]) else s
  }

  /** What the assertions on the way from new to tried demand. */
  predicate CanMakeTried(p: Placement, s: AddrState, id: int) {
    && id in s.info && !s.info[id].fInTried
    && s.info[id].nRefCount == |Slots(s.newTab, id)|
    && var u := Unlink(s, id);
       var slot := p.TriedSlot(s.key, s.info[id].addr.svc);
       && (slot in u.triedTab ==> CanEvict(p, u, u.triedTab[slot]))
       && id in Displaced(p, u, id).info
       && slot !in Displaced(p, u, id).triedTab
  }

  function MakeTried(p: Placement, s: AddrState, id: int): AddrState
    requires CanMakeTried(p, s, id)
  {
    Promote(p, Displaced(p, Unlink(s, id), id), id)
  }

  // ----- the steps keep the state consistent ---------------------------------

  /** The fields of the entries that the tables and the address index speak of. */
  predicate SameStructure(a: map<int, AddrInfo>, b: map<int, AddrInfo>, n: int) {
    && (n in a <==> n in b)
    && (n in a ==>
          && a[n].addr.svc == b[n].addr.svc
          && a[n].nRefCount == b[n].nRefCount
          && a[n].fInTried == b[n].fInTried)
  }

  lemma SameOrOneMore<T>(a: set<T>, b: set<T>, x: T)
    requires x !in a
    requires forall y :: y != x ==> (y in b <==> y in a)
    ensures |b| == |a| + (if x in b then 1 else 0)
  {
    assert b == if x in b then a + {x} else a;
  }

  lemma StructureCounts(a: map<int, AddrInfo>, b: map<int, AddrInfo>)
    requires forall n :: SameStructure(a, b, n)
    ensures TriedIds(a) == TriedIds(b) && NewIds(a) == NewIds(b)
  {
    forall n ensures n in TriedIds(a) <==> n in TriedIds(b) { assert SameStructure(a, b, n); }
    forall n ensures n in NewIds(a) <==> n in NewIds(b) { assert SameStructure(a, b, n); }
  }

  lemma StructureSound(p: Placement, s: AddrState, t: AddrState, limbo: set<int>, uncounted: int)
    requires Sound(p, s, limbo, uncounted)
    requires forall n :: SameStructure(s.info, t.info, n)
    requires RandomOk(t.info, t.random)
    requires t.triedTab == s.triedTab && t.newTab == s.newTab
    requires t.key == s.key && t.idCount == s.idCount && t.nTried == s.nTried && t.nNew == s.nNew
    ensures Sound(p, t, limbo, uncounted)
  {
    StructureCounts(s.info, t.info);
    forall x | x in t.triedTab ensures TriedAt(p, t.key, t.info, t.triedTab[x], x) {
      assert TriedAt(p, s.key, s.info, s.triedTab[x], x) && SameStructure(s.info, t.info, s.triedTab[x]);
    }
    forall x | x in t.newTab ensures NewAt(p, t.key, t.info, t.newTab[x], x) {
      assert NewAt(p, s.key, s.info, s.newTab[x], x) && SameStructure(s.info, t.info, s.newTab[x]);
    }
    forall n
      ensures InTried(p, t.key, t.info, t.triedTab, n) && Counted(t.info, t.newTab, limbo, n)
      ensures n in t.info ==> 0 <= n < t.idCount
    {
      assert SameStructure(s.info, t.info, n);
      assert InTried(p, s.key, s.info, s.triedTab, n) && Counted(s.info, s.newTab, limbo, n);
    }
  }

  lemma StructureAddr(a: map<int, AddrInfo>, b: map<int, AddrInfo>, addr: map<NetAddr, int>)
    requires AddrOk(a, addr) && forall n :: SameStructure(a, b, n)
    ensures AddrOk(b, addr)
  {
    forall ip | ip in addr ensures HasIp(b, addr[ip], ip) {
      assert HasIp(a, addr[ip], ip) && SameStructure(a, b, addr[ip]);
    }
    forall n ensures InAddr(b, addr, n) { assert SameStructure(a, b, n) && InAddr(a, addr, n); }
  }

  lemma StructureDecides(p: Placement, s: AddrState, t: AddrState, limbo: set<int>, uncounted: int)
    requires Consistent(p, s, limbo, uncounted)
    requires forall n :: SameStructure(s.info, t.info, n)
    requires RandomOk(t.info, t.random)
    requires t.addr == s.addr && t.triedTab == s.triedTab && t.newTab == s.newTab
    requires t.key == s.key && t.idCount == s.idCount && t.nTried == s.nTried && t.nNew == s.nNew
    ensures Consistent(p, t, limbo, uncounted)
  {
    StructureSound(p, s, t, limbo, uncounted);
    StructureAddr(s.info, t.info, s.addr);
  }

  lemma CreateConsistent(p: Placement, s: AddrState, a: Address, source: NetAddr)
    requires Valid(p, s)
    requires a.svc.ip !in s.addr
    ensures Consistent(p, Create(s, a, source), {s.idCount}, 1)
  {
    EnlistConsistent(p, s, AddrInfo(a, source, 0, 0, 0, 0, 0, false, |s.random|), {}, 0);
    assert {} + {s.idCount} == {s.idCount};
  }

  lemma EnlistRandom(s: AddrState, e: AddrInfo)
    requires RandomOk(s.info, s.random) && s.idCount !in s.info
    ensures RandomOk(Enlist(s, e).info, Enlist(s, e).random)
  {
    var t := Enlist(s, e);
    forall i | 0 <= i < |t.random| ensures IsAt(t.info, t.random[i], i) {
      if i < |s.random| { assert IsAt(s.info, s.random[i], i); }
    }
    forall n ensures InRandom(t.info, t.random, n) { assert InRandom(s.info, s.random, n); }
  }

  lemma EnlistSound(p: Placement, s: AddrState, e: AddrInfo, limbo: set<int>, uncounted: int)
    requires Sound(p, s, limbo, uncounted) && !e.fInTried && e.nRefCount == 0
    ensures Sound(p, Enlist(s, e), limbo + {s.idCount}, uncounted + 1)
  {
    var id, t := s.idCount, Enlist(s, e);
    EnlistRandom(s, e);
    SameOrOneMore(TriedIds(s.info), TriedIds(t.info), id);
    SameOrOneMore(NewIds(s.info), NewIds(t.info), id);
    forall x | x in t.triedTab ensures TriedAt(p, t.key, t.info, t.triedTab[x], x) {
      assert TriedAt(p, s.key, s.info, s.triedTab[x], x);
    }
    forall x | x in t.newTab ensures NewAt(p, t.key, t.info, t.newTab[x], x) && t.newTab[x] != id {
      assert NewAt(p, s.key, s.info, s.newTab[x], x);
    }
    assert Slots(t.newTab, id) == {};
    forall n ensures InTried(p, t.key, t.info, t.triedTab, n) && Counted(t.info, t.newTab, limbo + {id}, n) {
      assert InTried(p, s.key, s.info, s.triedTab, n) && Counted(s.info, s.newTab, limbo, n);
    }
  }

  lemma EnlistConsistent(p: Placement, s: AddrState, e: AddrInfo, limbo: set<int>, uncounted: int)
    requires Consistent(p, s, limbo, uncounted)
    requires e.addr.svc.ip !in s.addr && !e.fInTried && e.nRefCount == 0
    ensures Consistent(p, Enlist(s, e), limbo + {s.idCount}, uncounted + 1)
  {
    EnlistSound(p, s, e, limbo, uncounted);
    var t := Enlist(s, e);
    forall ip | ip in t.addr ensures HasIp(t.info, t.addr[ip], ip) {
      if ip in s.addr { assert HasIp(s.info, s.addr[ip], ip); }
    }
    forall n ensures InAddr(t.info, t.addr, n) { assert InAddr(s.info, s.addr, n); }
  }

  lemma SwapIndexes(s: AddrState, i: int, j: int)
    requires RandomOk(s.info, s.random)
    requires 0 <= i < |s.random| && 0 <= j < |s.random|
    ensures CanSwap(s, i, j)
    ensures RandomOk(SwapRandom(s, i, j).info, SwapRandom(s, i, j).random)
    ensures forall n :: SameStructure(s.info, SwapRandom(s, i, j).info, n)
    ensures IsAt(SwapRandom(s, i, j).info, s.random[i], j)
  {
    assert IsAt(s.info, s.random[i], i) && IsAt(s.info, s.random[j], j);
    var t := SwapRandom(s, i, j);
    forall k | 0 <= k < |t.random| ensures IsAt(t.info, t.random[k], k) {
      assert IsAt(s.info, s.random[k], k);
    }
    forall n ensures InRandom(t.info, t.random, n) {
      assert InRandom(s.info, s.random, n);
    }
  }

  lemma SwapConsistent(p: Placement, s: AddrState, i: int, j: int, limbo: set<int>, uncounted: int)
    requires Consistent(p, s, limbo, uncounted)
    requires 0 <= i < |s.random| && 0 <= j < |s.random|
    ensures CanSwap(s, i, j)
    ensures Consistent(p, SwapRandom(s, i, j), limbo, uncounted)
  {
    SwapIndexes(s, i, j);
    StructureDecides(p, s, SwapRandom(s, i, j), limbo, uncounted);
  }

  predicate LastAndUnused(s: AddrState, id: int) {
    && id in s.info && !s.info[id].fInTried && s.info[id].nRefCount == 0
    && s.info[id].nRandomPos == |s.random| - 1 && 0 < |s.random|
  }

  lemma DropRandom(s: AddrState, id: int)
    requires RandomOk(s.info, s.random) && LastAndUnused(s, id)
    ensures RandomOk(DropLast(s, id).info, DropLast(s, id).random)
  {
    var t := DropLast(s, id);
    assert InRandom(s.info, s.random, id);
    forall i | 0 <= i < |t.random| ensures IsAt(t.info, t.random[i], i) {
      assert IsAt(s.info, s.random[i], i);
    }
    forall n ensures InRandom(t.info, t.random, n) { assert InRandom(s.info, s.random, n); }
  }

  lemma DropSound(p: Placement, s: AddrState, id: int, limbo: set<int>, uncounted: int)
    requires Sound(p, s, limbo, uncounted) && LastAndUnused(s, id)
    ensures Sound(p, DropLast(s, id), limbo, uncounted)
  {
    var t := DropLast(s, id);
    DropRandom(s, id);
    SameOrOneMore(TriedIds(t.info), TriedIds(s.info), id);
    SameOrOneMore(NewIds(t.info), NewIds(s.info), id);
    assert Counted(s.info, s.newTab, limbo, id);
    forall x | x in t.triedTab ensures TriedAt(p, t.key, t.info, t.triedTab[x], x) {
      assert TriedAt(p, s.key, s.info, s.triedTab[x], x);
    }
    forall x | x in t.newTab ensures NewAt(p, t.key, t.info, t.newTab[x], x) {
      assert NewAt(p, s.key, s.info, s.newTab[x], x);
      assert Slots(s.newTab, id) == {} && x !in Slots(s.newTab, id);
    }
    forall n ensures InTried(p, t.key, t.info, t.triedTab, n) && Counted(t.info, t.newTab, limbo, n) {
      assert InTried(p, s.key, s.info, s.triedTab, n) && Counted(s.info, s.newTab, limbo, n);
    }
  }

  lemma DropConsistent(p: Placement, s: AddrState, id: int, limbo: set<int>, uncounted: int)
    requires Consistent(p, s, limbo, uncounted)
    requires LastAndUnused(s, id)
    ensures Consistent(p, DropLast(s, id), limbo, uncounted)
  {
    DropSound(p, s, id, limbo, uncounted);
    var t := DropLast(s, id);
    forall ip | ip in t.addr ensures HasIp(t.info, t.addr[ip], ip) {
      assert HasIp(s.info, s.addr[ip], ip);
    }
    forall n ensures InAddr(t.info, t.addr, n) {
      assert InAddr(s.info, s.addr, n) && InAddr(s.info, s.addr, id);
    }
  }

  lemma Deletable(s: AddrState, id: int)
    requires RandomOk(s.info, s.random)
    requires id in s.info && !s.info[id].fInTried && s.info[id].nRefCount == 0
    ensures CanDelete(s, id)
    ensures 0 <= s.info[id].nRandomPos < |s.random|
    ensures LastAndUnused(SwapRandom(s, s.info[id].nRandomPos, |s.random| - 1), id)
  {
    assert InRandom(s.info, s.random, id);
    SwapIndexes(s, s.info[id].nRandomPos, |s.random| - 1);
    assert SameStructure(s.info, SwapRandom(s, s.info[id].nRandomPos, |s.random| - 1).info, id);
  }

  lemma DeleteSound(p: Placement, s: AddrState, id: int, limbo: set<int>, uncounted: int)
    requires Sound(p, s, limbo, uncounted)
    requires id in s.info && !s.info[id].fInTried && s.info[id].nRefCount == 0
    ensures CanDelete(s, id)
    ensures Sound(p, Delete(s, id), limbo, uncounted)
  {
    Deletable(s, id);
    var i, j := s.info[id].nRandomPos, |s.random| - 1;
    SwapIndexes(s, i, j);
    StructureSound(p, s, SwapRandom(s, i, j), limbo, uncounted);
    DropSound(p, SwapRandom(s, i, j), id, limbo, uncounted);
  }

  lemma DeleteConsistent(p: Placement, s: AddrState, id: int, limbo: set<int>, uncounted: int)
    requires Consistent(p, s, limbo, uncounted)
    requires id in s.info && !s.info[id].fInTried && s.info[id].nRefCount == 0
    ensures CanDelete(s, id)
    ensures Consistent(p, Delete(s, id), limbo, uncounted)
  {
    Deletable(s, id);
    SwapConsistent(p, s, s.info[id].nRandomPos, |s.random| - 1, limbo, uncounted);
    DropConsistent(p, SwapRandom(s, s.info[id].nRandomPos, |s.random| - 1), id, limbo, uncounted);
  }

  // ----- clearing a slot of the new table ------------------------------------

  /** The same entry, perhaps elsewhere in the random vector. */
  predicate SameEntry(a: AddrInfo, b: AddrInfo) {
    a == b.(nRandomPos := a.nRandomPos)
  }

  predicate Kept(s: AddrState, t: AddrState, n: int) {
    n in s.info ==> n in t.info && SameEntry(s.info[n], t.info[n])
  }

  /** Replacing one entry by another at the same position. */
  lemma ReplaceRandom(s: AddrState, id: int, e: AddrInfo)
    requires id in s.info && s.info[id].nRandomPos == e.nRandomPos && RandomOk(s.info, s.random)
    ensures RandomOk(s.info[id := e], s.random)
    ensures |TriedIds(s.info[id := e])| == |TriedIds(s.info)|
              + (if e.fInTried then 1 else 0) - (if s.info[id].fInTried then 1 else 0)
    ensures |NewIds(s.info[id := e])| == |NewIds(s.info)|
              + (if e.fInTried then 0 else 1) - (if s.info[id].fInTried then 0 else 1)
  {
    var info := s.info[id := e];
    var tried, others := TriedIds(s.info) - {id}, NewIds(s.info) - {id};
    SameOrOneMore(tried, TriedIds(s.info), id);
    SameOrOneMore(tried, TriedIds(info), id);
    SameOrOneMore(others, NewIds(s.info), id);
    SameOrOneMore(others, NewIds(info), id);
    forall i | 0 <= i < |s.random| ensures IsAt(info, s.random[i], i) {
      assert IsAt(s.info, s.random[i], i);
    }
    forall n ensures InRandom(info, s.random, n) { assert InRandom(s.info, s.random, n); }
  }

  /** Replacing one entry by another with the same address and position. */
  lemma ReplaceIndexes(s: AddrState, id: int, e: AddrInfo)
    requires id in s.info && s.info[id].addr.svc == e.addr.svc && s.info[id].nRandomPos == e.nRandomPos
    requires RandomOk(s.info, s.random) && AddrOk(s.info, s.addr)
    ensures RandomOk(s.info[id := e], s.random) && AddrOk(s.info[id := e], s.addr)
    ensures |TriedIds(s.info[id := e])| == |TriedIds(s.info)|
              + (if e.fInTried then 1 else 0) - (if s.info[id].fInTried then 1 else 0)
    ensures |NewIds(s.info[id := e])| == |NewIds(s.info)|
              + (if e.fInTried then 0 else 1) - (if s.info[id].fInTried then 0 else 1)
  {
    var info := s.info[id := e];
    ReplaceRandom(s, id, e);
    forall ip | ip in s.addr ensures HasIp(info, s.addr[ip], ip) {
      assert HasIp(s.info, s.addr[ip], ip);
    }
    forall n ensures InAddr(info, s.addr, n) { assert InAddr(s.info, s.addr, n); }
  }

  /** Changing the reference count of an untried entry does not touch the tried table. */
  lemma RecountTried(p: Placement, key: Key, info: map<int, AddrInfo>, t: Table, id: int, count: int)
    requires TriedOk(p, key, info, t)
    requires id in info && !info[id].fInTried
    ensures TriedOk(p, key, info[id := info[id].(nRefCount := count)], t)
  {
    var info' := info[id := info[id].(nRefCount := count)];
    forall x | x in t ensures TriedAt(p, key, info', t[x], x) { assert TriedAt(p, key, info, t[x], x); }
    forall n ensures InTried(p, key, info', t, n) { assert InTried(p, key, info, t, n); }
  }

  lemma UnrefNew(p: Placement, s: AddrState, slot: Slot, limbo: set<int>)
    requires slot in s.newTab && NewOk(p, s.key, s.info, s.newTab, limbo)
    ensures s.newTab[slot] in s.info && !s.info[s.newTab[slot]].fInTried
    ensures 0 < s.info[s.newTab[slot]].nRefCount
    ensures NewOk(p, s.key, Unref(s, slot).info, Unref(s, slot).newTab, limbo + {s.newTab[slot]})
  {
    var d := s.newTab[slot];
    assert NewAt(p, s.key, s.info, s.newTab[slot], slot) && Counted(s.info, s.newTab, limbo, d);
    assert slot in Slots(s.newTab, d);
    var t := Unref(s, slot);
    forall x | x in t.newTab ensures NewAt(p, t.key, t.info, t.newTab[x], x) {
      assert NewAt(p, s.key, s.info, s.newTab[x], x);
    }
    forall n ensures Counted(t.info, t.newTab, limbo + {d}, n) {
      assert Counted(s.info, s.newTab, limbo, n);
      SameOrOneMore(Slots(t.newTab, n), Slots(s.newTab, n), slot);
    }
  }

  lemma UnrefConsistent(p: Placement, s: AddrState, slot: Slot, limbo: set<int>, uncounted: int)
    requires Consistent(p, s, limbo, uncounted)
    requires slot in s.newTab
    ensures s.newTab[slot] in s.info && !s.info[s.newTab[slot]].fInTried
    ensures 0 < s.info[s.newTab[slot]].nRefCount
    ensures Consistent(p, Unref(s, slot), limbo + {s.newTab[slot]}, uncounted)
  {
    UnrefNew(p, s, slot, limbo);
    var d := s.newTab[slot];
    RecountTried(p, s.key, s.info, s.triedTab, d, s.info[d].nRefCount - 1);
    ReplaceIndexes(s, d, s.info[d].(nRefCount := s.info[d].nRefCount - 1));
  }

  /** An entry that has a reference, or is gone, needs no waiver. */
  lemma Unwaived(p: Placement, s: AddrState, limbo: set<int>, d: int, uncounted: int)
    requires Consistent(p, s, limbo + {d}, uncounted)
    requires d in s.info ==> 1 <= s.info[d].nRefCount
    ensures Consistent(p, s, limbo, uncounted)
  {
    forall n ensures Counted(s.info, s.newTab, limbo, n) {
      assert Counted(s.info, s.newTab, limbo + {d}, n);
    }
  }

  lemma ClearConsistent(p: Placement, s: AddrState, slot: Slot, limbo: set<int>, uncounted: int)
    requires Consistent(p, s, limbo, uncounted)
    ensures CanClear(s, slot)
    ensures Consistent(p, ClearNew(s, slot), limbo, uncounted)
  {
    if slot in s.newTab {
      var d := s.newTab[slot];
      UnrefConsistent(p, s, slot, limbo, uncounted);
      if s.info[d].nRefCount == 1 {
        DeleteConsistent(p, Unref(s, slot), d, limbo + {d}, uncounted);
      }
      Unwaived(p, ClearNew(s, slot), limbo, d, uncounted);
    }
  }

  lemma DeleteKeeps(s: AddrState, id: int)
    requires CanDelete(s, id)
    ensures Delete(s, id).newTab == s.newTab && Delete(s, id).triedTab == s.triedTab && Delete(s, id).key == s.key
    ensures forall n :: n != id ==> Kept(s, Delete(s, id), n)
  {
  }

  lemma UnrefKeeps(s: AddrState, slot: Slot)
    requires slot in s.newTab && s.newTab[slot] in s.info
    ensures Unref(s, slot).triedTab == s.triedTab && Unref(s, slot).key == s.key
    ensures forall n :: n != s.newTab[slot] ==> Kept(s, Unref(s, slot), n)
  {
  }

  /** Clearing a slot changes that slot, and no entry but the one it held. */
  lemma ClearKeeps(s: AddrState, slot: Slot)
    requires CanClear(s, slot)
    ensures ClearNew(s, slot).newTab == s.newTab - {slot}
    ensures ClearNew(s, slot).triedTab == s.triedTab && ClearNew(s, slot).key == s.key
    ensures forall n :: n !in Occupant(s.newTab, slot) ==> Kept(s, ClearNew(s, slot), n)
  {
    if slot in s.newTab {
      var d, t := s.newTab[slot], Unref(s, slot);
      UnrefKeeps(s, slot);
      if s.info[d].nRefCount == 1 {
        DeleteKeeps(t, d);
        forall n | n !in Occupant(s.newTab, slot) ensures Kept(s, ClearNew(s, slot), n) {
          assert Kept(s, t, n) && Kept(t, Delete(t, d), n);
        }
      }
    }
  }

  function Occupant(t: Table, slot: Slot): set<int> {
    if slot in t then {t[slot]} else {}
  }

  // ----- from new to tried ---------------------------------------------------

  lemma UnlinkNew(p: Placement, s: AddrState, id: int)
    requires NewOk(p, s.key, s.info, s.newTab, {})
    requires id in s.info && !s.info[id].fInTried
    ensures NewOk(p, s.key, Unlink(s, id).info, Unlink(s, id).newTab, {id})
  {
    var t := Unlink(s, id);
    forall x | x in s.newTab ensures x.0 < NEW_BUCKET_COUNT {
      assert NewAt(p, s.key, s.info, s.newTab[x], x);
    }
    forall x | x in t.newTab ensures NewAt(p, t.key, t.info, t.newTab[x], x) {
      assert NewAt(p, s.key, s.info, s.newTab[x], x);
    }
    forall n ensures Counted(t.info, t.newTab, {id}, n) {
      assert Counted(s.info, s.newTab, {}, n);
      if n == id {
        assert Slots(t.newTab, n) == {};
      } else {
        assert forall x :: x in Slots(t.newTab, n) <==> x in Slots(s.newTab, n);
        assert Slots(t.newTab, n) == Slots(s.newTab, n);
      }
    }
  }

  lemma UnlinkConsistent(p: Placement, s: AddrState, id: int)
    requires Valid(p, s)
    requires id in s.info && !s.info[id].fInTried
    ensures Consistent(p, Unlink(s, id), {id}, 1)
  {
    UnlinkNew(p, s, id);
    RecountTried(p, s.key, s.info, s.triedTab, id, 0);
    ReplaceIndexes(s, id, s.info[id].(nRefCount := 0));
  }

  lemma DemoteConsistent(p: Placement, s: AddrState, e: int, limbo: set<int>, uncounted: int)
    requires Consistent(p, s, limbo, uncounted)
    requires e in s.info && s.info[e].fInTried
    ensures Consistent(p, Demote(p, s, e), limbo + {e}, uncounted + 1)
    ensures s.info[e].nRefCount == 0
  {
    var t := Demote(p, s, e);
    ReplaceIndexes(s, e, t.info[e]);
    assert InTried(p, s.key, s.info, s.triedTab, e);
    forall x | x in t.triedTab ensures TriedAt(p, t.key, t.info, t.triedTab[x], x) {
      assert TriedAt(p, s.key, s.info, s.triedTab[x], x);
    }
    forall x | x in t.newTab ensures NewAt(p, t.key, t.info, t.newTab[x], x) && t.newTab[x] != e {
      assert NewAt(p, s.key, s.info, s.newTab[x], x);
    }
    assert Slots(t.newTab, e) == {};
    forall n
      ensures InTried(p, t.key, t.info, t.triedTab, n) && Counted(t.info, t.newTab, limbo + {e}, n)
    {
      assert InTried(p, s.key, s.info, s.triedTab, n) && Counted(s.info, s.newTab, limbo, n);
    }
  }

  lemma ReenterConsistent(p: Placement, s: AddrState, e: int, limbo: set<int>, uncounted: int)
    requires Consistent(p, s, limbo + {e}, uncounted + 1)
    requires e in s.info && !s.info[e].fInTried && s.info[e].nRefCount == 0
    requires p.NewSlot(s.key, s.info[e].addr.svc, s.info[e].source) !in s.newTab
    ensures Consistent(p, Reenter(p, s, e), limbo, uncounted)
  {
    var t := Reenter(p, s, e);
    var slot := p.NewSlot(s.key, s.info[e].addr.svc, s.info[e].source);
    ReplaceIndexes(s, e, t.info[e]);
    RecountTried(p, s.key, s.info, s.triedTab, e, 1);
    forall x | x in t.newTab ensures NewAt(p, t.key, t.info, t.newTab[x], x) {
      if x != slot { assert NewAt(p, s.key, s.info, s.newTab[x], x); }
    }
    forall n ensures Counted(t.info, t.newTab, limbo, n) {
      assert Counted(s.info, s.newTab, limbo + {e}, n);
      SameOrOneMore(Slots(s.newTab, n), Slots(t.newTab, n), slot);
    }
  }

  lemma PromoteSound(p: Placement, s: AddrState, id: int, limbo: set<int>, uncounted: int)
    requires Sound(p, s, limbo + {id}, uncounted + 1)
    requires id in s.info && !s.info[id].fInTried && s.info[id].nRefCount == 0
    requires p.TriedSlot(s.key, s.info[id].addr.svc) !in s.triedTab
    ensures Sound(p, Promote(p, s, id), limbo, uncounted)
  {
    var t := Promote(p, s, id);
    var slot := p.TriedSlot(s.key, s.info[id].addr.svc);
    ReplaceRandom(s, id, t.info[id]);
    assert Counted(s.info, s.newTab, limbo + {id}, id);
    assert Slots(s.newTab, id) == {};
    forall x | x in t.triedTab ensures TriedAt(p, t.key, t.info, t.triedTab[x], x) {
      if x != slot { assert TriedAt(p, s.key, s.info, s.triedTab[x], x); }
    }
    forall x | x in t.newTab ensures NewAt(p, t.key, t.info, t.newTab[x], x) {
      assert NewAt(p, s.key, s.info, s.newTab[x], x) && x !in Slots(s.newTab, id);
    }
    forall n ensures InTried(p, t.key, t.info, t.triedTab, n) && Counted(t.info, t.newTab, limbo, n) {
      assert InTried(p, s.key, s.info, s.triedTab, n) && Counted(s.info, s.newTab, limbo + {id}, n);
    }
  }

  lemma PromoteConsistent(p: Placement, s: AddrState, id: int, limbo: set<int>, uncounted: int)
    requires Consistent(p, s, limbo + {id}, uncounted + 1)
    requires id in s.info && !s.info[id].fInTried && s.info[id].nRefCount == 0
    requires p.TriedSlot(s.key, s.info[id].addr.svc) !in s.triedTab
    ensures Consistent(p, Promote(p, s, id), limbo, uncounted)
  {
    PromoteSound(p, s, id, limbo, uncounted);
    ReplaceIndexes(s, id, Promote(p, s, id).info[id]);
  }

  /** The state between the eviction's two halves: the evicted entry is in no table. */
  lemma EvictConsistent(p: Placement, s: AddrState, e: int, limbo: set<int>, uncounted: int)
    requires Consistent(p, s, limbo, uncounted)
    requires e in s.info && s.info[e].fInTried
    ensures CanEvict(p, s, e)
    ensures Consistent(p, Evict(p, s, e), limbo, uncounted)
  {
    var slot := p.NewSlot(s.key, s.info[e].addr.svc, s.info[e].source);
    DemoteConsistent(p, s, e, limbo, uncounted);
    var d := Demote(p, s, e);
    ClearConsistent(p, d, slot, limbo + {e}, uncounted + 1);
    ClearKeeps(d, slot);
    Unreferenced(p, d, e, limbo + {e}, uncounted + 1, slot);
    assert Kept(d, ClearNew(d, slot), e);
    ReenterConsistent(p, ClearNew(d, slot), e, limbo, uncounted);
  }

  /** An entry without references is in no slot of the new table. */
  lemma Unreferenced(p: Placement, s: AddrState, e: int, limbo: set<int>, uncounted: int, slot: Slot)
    requires Consistent(p, s, limbo, uncounted)
    requires e in s.info && !s.info[e].fInTried && s.info[e].nRefCount == 0
    ensures e !in Occupant(s.newTab, slot)
  {
    assert Counted(s.info, s.newTab, limbo, e);
    assert Slots(s.newTab, e) == {} && slot !in Slots(s.newTab, e);
  }

  /** Moving an untried entry to the tried table meets every assertion on the way and
      leaves a valid state. */
  lemma MakeTriedValid(p: Placement, s: AddrState, id: int)
    requires Valid(p, s)
    requires id in s.info && !s.info[id].fInTried
    ensures CanMakeTried(p, s, id)
    ensures Valid(p, MakeTried(p, s, id))
  {
    assert Counted(s.info, s.newTab, {}, id);
    UnlinkConsistent(p, s, id);
    var u, slot := Unlink(s, id), p.TriedSlot(s.key, s.info[id].addr.svc);
    if slot in u.triedTab {
      assert TriedAt(p, u.key, u.info, u.triedTab[slot], slot);
      EvictConsistent(p, u, u.triedTab[slot], {id}, 1);
      EvictEffect(p, u, u.triedTab[slot]);
      var e := u.triedTab[slot];
      Unreferenced(p, u, id, {id}, 1, p.NewSlot(u.key, u.info[e].addr.svc, u.info[e].source));
      assert Kept(u, Evict(p, u, e), id);
    }
    assert {} + {id} == {id};
    PromoteConsistent(p, Displaced(p, u, id), id, {}, 0);
  }

  /** Evicting e frees its tried slot, gives it one reference, and changes no other
      entry but the one whose new slot it takes. */
  lemma EvictEffect(p: Placement, s: AddrState, e: int)
    requires CanEvict(p, s, e)
    ensures var newSlot := p.NewSlot(s.key, s.info[e].addr.svc, s.info[e].source);
            var t := Evict(p, s, e);
            && t.key == s.key
            && t.triedTab == s.triedTab - {p.TriedSlot(s.key, s.info[e].addr.svc)}
            && (e !in Occupant(s.newTab, newSlot) ==>
                  && e in t.info
                  && SameEntry(s.info[e].(fInTried := false, nRefCount := 1), t.info[e])
                  && t.newTab == s.newTab[newSlot := e])
            && forall n :: n != e && n !in Occupant(s.newTab, newSlot) ==> Kept(s, t, n)
  {
    var newSlot := p.NewSlot(s.key, s.info[e].addr.svc, s.info[e].source);
    var d := Demote(p, s, e);
    ClearKeeps(d, newSlot);
    var t := Evict(p, s, e);
    if e !in Occupant(s.newTab, newSlot) {
      assert Kept(d, ClearNew(d, newSlot), e);
      assert t.newTab == s.newTab[newSlot := e];
    }
    forall n | n != e && n !in Occupant(s.newTab, newSlot) ensures Kept(s, t, n) {
      assert Kept(d, ClearNew(d, newSlot), n);
    }
  }
}
