/**
 The operations of the address manager as functions from state to state, the
 proof that every run of them keeps the manager valid, and what they do to the
 tables and to the other entries.
 */
module AddrOperations {
  import Arithmetic
  import opened AddrTables

  const DAY := 24 * 60 * 60

  /** Whether the statistics of an entry are bad enough to overwrite it. */
  predicate IsTerrible(e: AddrInfo, now: int) {
    if e.nLastTry != 0 && e.nLastTry >= now - 60 then false
    else
      || e.addr.nTime > now + 10 * 60
      || e.addr.nTime == 0 || now - e.addr.nTime > HORIZON_DAYS * DAY
      || (e.nLastSuccess == 0 && e.nAttempts >= RETRIES)
      || (now - e.nLastSuccess > MIN_FAIL_DAYS * DAY && e.nAttempts >= MAX_FAILURES)
  }

  /** The address is known, with this very port. */
  predicate Knows(s: AddrState, svc: Service) {
    svc.ip in s.addr && s.addr[svc.ip] in s.info && s.info[s.addr[svc.ip]].addr.svc == svc
  }

  function Update(s: AddrState, id: int, e: AddrInfo): AddrState {
    s.(info := s.info[id := e])
  }

  /** The entry differs at most in its statistics. */
  predicate OnlyStatistics(a: AddrInfo, b: AddrInfo) {
    && a.addr.svc == b.addr.svc && a.source == b.source && a.nRandomPos == b.nRandomPos
    && a.nRefCount == b.nRefCount && a.fInTried == b.fInTried
  }

  lemma UpdateConsistent(p: Placement, s: AddrState, id: int, e: AddrInfo, limbo: set<int>, uncounted: int)
    requires Consistent(p, s, limbo, uncounted)
    requires id in s.info && OnlyStatistics(s.info[id], e)
    ensures Consistent(p, Update(s, id, e), limbo, uncounted)
  {
    ReplaceIndexes(s, id, e);
    StructureDecides(p, s, Update(s, id, e), limbo, uncounted);
  }

  // ----- Good ----------------------------------------------------------------

  function Succeeded(e: AddrInfo, time: int): AddrInfo {
    e.(nLastSuccess := time, nLastTry := time, nAttempts := 0)
  }

  ghost function Good(p: Placement, s: AddrState, svc: Service, time: int): (r: AddrState)
    requires Valid(p, s)
    ensures Valid(p, r)
  {
    var s0 := s.(lastGood := time);
    StructureDecides(p, s, s0, {}, 0);
    if !Knows(s, svc) then s0
    else
      var id := s.addr[svc.ip];
      var s1 := Update(s0, id, Succeeded(s.info[id], time));
      UpdateConsistent(p, s0, id, Succeeded(s.info[id], time), {}, 0);
      if s.info[id].fInTried then s1
      else MakeTriedValid(p, s1, id); MakeTried(p, s1, id)
  }

  // ----- Add -----------------------------------------------------------------

  function Max(a: int, b: int): int { if a < b then b else a }

  /** A time stamp after the penalty, stored in 32 bits. */
  function Penalized(time: int, penalty: int): nat {
    Max(0, time - penalty) % 0x1_0000_0000
  }

  /** A known entry hears of its address again. */
  function Refreshed(e: AddrInfo, a: Address, penalty: int, now: int): AddrInfo {
    var interval := if now - a.nTime < DAY then 60 * 60 else DAY;
    var time :=
      if a.nTime != 0 && (e.addr.nTime == 0 || e.addr.nTime < a.nTime - interval - penalty)
      then Penalized(a.nTime, penalty) else e.addr.nTime;
    e.(addr := e.addr.(nTime := time, services := e.addr.services + a.services))
  }

  /** One draw in so many lets an entry with that many references have another. */
  function Factor(references: int): nat {
    Arithmetic.Pow2(if references > 0 then references else 0)
  }

  /** Whether a known, refreshed entry may get another reference; `rnd` is the random draw. */
  predicate MayGainReference(e: AddrInfo, a: Address, rnd: nat) {
    && a.nTime != 0 && !(e.addr.nTime != 0 && a.nTime <= e.addr.nTime)
    && !e.fInTried
    && e.nRefCount != NEW_BUCKETS_PER_ADDRESS
    && (Factor(e.nRefCount) > 1 ==> rnd % Factor(e.nRefCount) == 0)
  }

  /** The slot's occupant loses its reference there, the entry gains one. */
  function TakeSlot(s: AddrState, id: int, slot: Slot): AddrState
    requires CanClear(s, slot) && id in ClearNew(s, slot).info
  {
    var c := ClearNew(s, slot);
    Update(c, id, c.info[id].(nRefCount := c.info[id].nRefCount + 1)).(newTab := c.newTab[slot := id])
  }

  lemma TakeSlotValid(p: Placement, s: AddrState, id: int, source: NetAddr)
    requires Consistent(p, s, {id}, 0)
    requires id in s.info && !s.info[id].fInTried && s.info[id].nRefCount < NEW_BUCKETS_PER_ADDRESS
    requires id !in Occupant(s.newTab, p.NewSlot(s.key, s.info[id].addr.svc, source))
    ensures var slot := p.NewSlot(s.key, s.info[id].addr.svc, source);
            && CanClear(s, slot) && id in ClearNew(s, slot).info
            && Valid(p, TakeSlot(s, id, slot))
  {
    var slot := p.NewSlot(s.key, s.info[id].addr.svc, source);
    ClearConsistent(p, s, slot, {id}, 0);
    ClearKeeps(s, slot);
    var c := ClearNew(s, slot);
    assert Kept(s, c, id);
    var t := TakeSlot(s, id, slot);
    ReplaceIndexes(c, id, t.info[id]);
    RecountTried(p, c.key, c.info, c.triedTab, id, c.info[id].nRefCount + 1);
    forall x | x in t.newTab ensures NewAt(p, t.key, t.info, t.newTab[x], x) {
      if x != slot { assert NewAt(p, c.key, c.info, c.newTab[x], x); }
    }
    forall n ensures Counted(t.info, t.newTab, {}, n) {
      assert Counted(c.info, c.newTab, {id}, n);
      SameOrOneMore(Slots(c.newTab, n), Slots(t.newTab, n), slot);
    }
  }

  /** The entry tries to get the slot that its address and the source select. */
  ghost function Offer(p: Placement, s: AddrState, id: int, source: NetAddr, now: int): (r: AddrState)
    requires Consistent(p, s, {id}, 0)
    requires id in s.info && !s.info[id].fInTried && s.info[id].nRefCount < NEW_BUCKETS_PER_ADDRESS
    ensures Valid(p, r)
  {
    var slot := p.NewSlot(s.key, s.info[id].addr.svc, source);
    if Occupant(s.newTab, slot) == {id} then
      Referenced(p, s, id, slot, {id}, 0);
      Settled(p, s, id);
      s
    else if slot !in s.newTab || Overwritable(s, s.newTab[slot], id, now) then
      TakeSlotValid(p, s, id, source);
      TakeSlot(s, id, slot)
    else if s.info[id].nRefCount == 0 then
      DeleteConsistent(p, s, id, {id}, 0);
      Settled(p, Delete(s, id), id);
      Delete(s, id)
    else
      Settled(p, s, id);
      s
  }

  predicate Overwritable(s: AddrState, d: int, id: int, now: int) {
    d in s.info && id in s.info &&
    (IsTerrible(s.info[d], now) || (s.info[d].nRefCount > 1 && s.info[id].nRefCount == 0))
  }

  lemma Referenced(p: Placement, s: AddrState, id: int, slot: Slot, limbo: set<int>, uncounted: int)
    requires Consistent(p, s, limbo, uncounted)
    requires slot in s.newTab && s.newTab[slot] == id
    ensures id in s.info && !s.info[id].fInTried && 1 <= s.info[id].nRefCount
  {
    assert NewAt(p, s.key, s.info, s.newTab[slot], slot) && Counted(s.info, s.newTab, limbo, id);
    assert slot in Slots(s.newTab, id);
  }

  lemma Settled(p: Placement, s: AddrState, id: int)
    requires Consistent(p, s, {id}, 0)
    requires id in s.info ==> s.info[id].nRefCount != 0
    ensures Valid(p, s)
  {
    forall n ensures Counted(s.info, s.newTab, {}, n) {
      assert Counted(s.info, s.newTab, {id}, n);
    }
  }

  lemma Waived(p: Placement, s: AddrState, id: int)
    requires Valid(p, s)
    ensures Consistent(p, s, {id}, 0)
  {
    forall n ensures Counted(s.info, s.newTab, {id}, n) {
      assert Counted(s.info, s.newTab, {}, n);
    }
  }

  /** The entry of a fresh address, counted as new but without a slot. */
  function Introduce(s: AddrState, a: Address, source: NetAddr, penalty: int): AddrState {
    var c := Create(s, a, source);
    Update(c, s.idCount, c.info[s.idCount].(addr := a.(nTime := Penalized(a.nTime, penalty))))
      .(nNew := c.nNew + 1)
  }

  lemma IntroduceConsistent(p: Placement, s: AddrState, a: Address, source: NetAddr, penalty: int)
    requires Valid(p, s)
    requires a.svc.ip !in s.addr
    ensures Consistent(p, Introduce(s, a, source, penalty), {s.idCount}, 0)
  {
    CreateConsistent(p, s, a, source);
    var c := Create(s, a, source);
    UpdateConsistent(p, c, s.idCount, c.info[s.idCount].(addr := a.(nTime := Penalized(a.nTime, penalty))), {s.idCount}, 1);
  }

  ghost function Add(p: Placement, s: AddrState, a: Address, source: NetAddr, penalty: int,
                     now: int, routable: bool, rnd: nat): (r: AddrState)
    requires Valid(p, s)
    ensures Valid(p, r)
  {
    if !routable then s
    else if a.svc.ip in s.addr then
      var id := s.addr[a.svc.ip];
      assert HasIp(s.info, s.addr[a.svc.ip], a.svc.ip) && Counted(s.info, s.newTab, {}, id);
      var e := Refreshed(s.info[id], a, penalty, now);
      UpdateConsistent(p, s, id, e, {}, 0);
      var s1 := Update(s, id, e);
      if MayGainReference(e, a, rnd) then
        Waived(p, s1, id);
        Offer(p, s1, id, source, now)
      else s1
    else
      IntroduceConsistent(p, s, a, source, penalty);
      Offer(p, Introduce(s, a, source, penalty), s.idCount, source, now)
  }

  // ----- the operations on statistics only -----------------------------------

  ghost function Modify(p: Placement, s: AddrState, svc: Service, f: AddrInfo -> AddrInfo): (r: AddrState)
    requires Valid(p, s)
    requires forall e :: OnlyStatistics(e, f(e))
    ensures Valid(p, r)
  {
    if !Knows(s, svc) then s
    else
      var id := s.addr[svc.ip];
      UpdateConsistent(p, s, id, f(s.info[id]), {}, 0);
      Update(s, id, f(s.info[id]))
  }

  function Attempted(e: AddrInfo, countFailure: bool, time: int, lastGood: int): AddrInfo {
    if countFailure && e.nLastCountAttempt < lastGood
    then e.(nLastTry := time, nLastCountAttempt := time, nAttempts := e.nAttempts + 1)
    else e.(nLastTry := time)
  }

  function Connected(e: AddrInfo, time: int): AddrInfo {
    if time - e.addr.nTime > 20 * 60 then e.(addr := e.addr.(nTime := Penalized(time, 0))) else e
  }

  function WithServices(e: AddrInfo, services: set<nat>): AddrInfo {
    e.(addr := e.addr.(services := services))
  }

  // ----- GetAddr -------------------------------------------------------------

  /** A position from `from` on, by the random draw. */
  function Draw(rnd: nat, from: nat, size: nat): (j: nat)
    requires from < size
    ensures from <= j < size
  {
    rnd % (size - from) + from
  }

  /** The state after the first |picks| steps of the partial shuffle; each pick is the
      random draw of one step. */
  ghost function Shuffle(p: Placement, s: AddrState, picks: seq<nat>): (r: AddrState)
    requires Valid(p, s)
    requires |picks| <= |s.random|
    ensures Valid(p, r) && |r.random| == |s.random|
    decreases |picks|
  {
    if picks == [] then s
    else
      var n := |picks| - 1;
      var t := Shuffle(p, s, picks[..n]);
      SwapConsistent(p, t, n, Draw(picks[n], n, |t.random|), {}, 0);
      SwapRandom(t, n, Draw(picks[n], n, |t.random|))
  }

  /** The addresses of good quality among the first m positions of the random vector. */
  ghost function Selected(s: AddrState, m: nat, now: int): (r: seq<Address>)
    requires m <= |s.random|
    ensures |r| <= m
  {
    if m == 0 then []
    else
      var r, id := Selected(s, m - 1, now), s.random[m - 1];
      if id in s.info && !IsTerrible(s.info[id], now) then r + [s.info[id].addr] else r
  }

  /** Later swaps do not disturb what was selected. */
  lemma {:induction false} SelectedStays(s: AddrState, m: nat, i: nat, j: nat, now: int)
    requires m <= i < |s.random| && m <= j < |s.random| && CanSwap(s, i, j)
    ensures Selected(SwapRandom(s, i, j), m, now) == Selected(s, m, now)
  {
    if m > 0 {
      SelectedStays(s, m - 1, i, j, now);
    }
  }

  /** One step of the selection. */
  lemma SelectOneMore(p: Placement, s0: AddrState, picks: seq<nat>, n: nat, now: int)
    requires Valid(p, s0) && n < |s0.random| <= |picks|
    ensures var s := Shuffle(p, s0, picks[..n]);
            var j := Draw(picks[n], n, |s0.random|);
            && CanSwap(s, n, j)
            && var t := SwapRandom(s, n, j);
               && t == Shuffle(p, s0, picks[..n + 1])
               && t.random[n] in t.info
               && Selected(t, n + 1, now) == Selected(s, n, now)
                    + (if IsTerrible(t.info[t.random[n]], now) then [] else [t.info[t.random[n]].addr])
  {
    assert picks[..n + 1][..n] == picks[..n];
    var s := Shuffle(p, s0, picks[..n]);
    SwapConsistent(p, s, n, Draw(picks[n], n, |s0.random|), {}, 0);
    SelectedStays(s, n, n, Draw(picks[n], n, |s0.random|), now);
    var t := Shuffle(p, s0, picks[..n + 1]);
    assert IsAt(t.info, t.random[n], n);
  }

  /** Every selected address belongs to a good entry of the manager, and none comes twice. */
  lemma {:induction false} SelectedDistinct(p: Placement, s: AddrState, m: nat, now: int)
    requires Valid(p, s) && m <= |s.random|
    ensures forall a :: a in Selected(s, m, now) ==>
              && Knows(s, a.svc) && s.info[s.addr[a.svc.ip]].addr == a
              && !IsTerrible(s.info[s.addr[a.svc.ip]], now)
              && s.info[s.addr[a.svc.ip]].nRandomPos < m
    ensures forall i, k :: 0 <= i < k < |Selected(s, m, now)| ==>
              Selected(s, m, now)[i].svc.ip != Selected(s, m, now)[k].svc.ip
  {
    if m > 0 {
      SelectedDistinct(p, s, m - 1, now);
      var id := s.random[m - 1];
      assert IsAt(s.info, s.random[m - 1], m - 1) && InAddr(s.info, s.addr, id);
      var r := Selected(s, m - 1, now);
      assert forall i :: 0 <= i < |r| ==> r[i] in r;
    }
  }

  // ----- runs ----------------------------------------------------------------

  datatype Op =
    | OpAdd(a: Address, source: NetAddr, penalty: int, now: int, routable: bool, rnd: nat)
    | OpGood(svc: Service, time: int)
    | OpAttempt(svc: Service, countFailure: bool, time: int)
    | OpConnected(svc: Service, time: int)
    | OpSetServices(svc: Service, services: set<nat>)
    | OpGetAddr(picks: seq<nat>)

  ghost function Step(p: Placement, s: AddrState, op: Op): (r: AddrState)
    requires Valid(p, s)
    ensures Valid(p, r)
  {
    match op
    case OpAdd(a, source, penalty, now, routable, rnd) => Add(p, s, a, source, penalty, now, routable, rnd)
    case OpGood(svc, time) => Good(p, s, svc, time)
    case OpAttempt(svc, countFailure, time) =>
      Modify(p, s, svc, (e: AddrInfo) => Attempted(e, countFailure, time, s.lastGood))
    case OpConnected(svc, time) => Modify(p, s, svc, (e: AddrInfo) => Connected(e, time))
    case OpSetServices(svc, services) => Modify(p, s, svc, (e: AddrInfo) => WithServices(e, services))
    case OpGetAddr(picks) => if |picks| <= |s.random| then Shuffle(p, s, picks) else s
  }

  ghost function Run(p: Placement, s: AddrState, ops: seq<Op>): (r: AddrState)
    requires Valid(p, s)
    ensures Valid(p, r)
    decreases |ops|
  {
    if ops == [] then s else Run(p, Step(p, s, ops[0]), ops[1..])
  }

  lemma EmptyValid(p: Placement, key: Key)
    ensures Valid(p, Empty(key)) && TimesOk(Empty(key).info)
  {
    assert TriedIds(Empty(key).info) == {} && NewIds(Empty(key).info) == {};
  }

  // ----- what the consistency check says about times -------------------------

  /** Nothing about the entry that the check reads got worse. */
  predicate NoWorse(s: map<int, AddrInfo>, t: map<int, AddrInfo>, n: int) {
    n in t ==>
      && n in s
      && t[n].nLastTry == s[n].nLastTry && t[n].nLastSuccess == s[n].nLastSuccess
      && (t[n].fInTried ==> s[n].fInTried)
  }

  lemma ClearNoWorse(s: AddrState, slot: Slot)
    requires CanClear(s, slot)
    ensures forall n :: NoWorse(s.info, ClearNew(s, slot).info, n)
  {
  }

  lemma EvictNoWorse(p: Placement, s: AddrState, e: int)
    requires CanEvict(p, s, e)
    ensures forall n :: NoWorse(s.info, Evict(p, s, e).info, n)
  {
    var d, slot := Demote(p, s, e), p.NewSlot(s.key, s.info[e].addr.svc, s.info[e].source);
    ClearNoWorse(d, slot);
    forall n ensures NoWorse(s.info, Evict(p, s, e).info, n) {
      assert NoWorse(d.info, ClearNew(d, slot).info, n);
    }
  }

  lemma MakeTriedNoWorse(p: Placement, s: AddrState, id: int)
    requires CanMakeTried(p, s, id)
    ensures forall n :: n != id ==> NoWorse(s.info, MakeTried(p, s, id).info, n)
    ensures var t := MakeTried(p, s, id);
            && id in t.info && t.info[id].fInTried
            && t.info[id].nLastTry == s.info[id].nLastTry && t.info[id].nLastSuccess == s.info[id].nLastSuccess
  {
    var u, slot := Unlink(s, id), p.TriedSlot(s.key, s.info[id].addr.svc);
    if slot in u.triedTab {
      EvictNoWorse(p, u, u.triedTab[slot]);
    }
    forall n ensures NoWorse(s.info, Displaced(p, u, id).info, n) {
      assert slot in u.triedTab ==> NoWorse(u.info, Displaced(p, u, id).info, n);
    }
    assert NoWorse(s.info, Displaced(p, u, id).info, id);
    forall n | n != id ensures NoWorse(s.info, MakeTried(p, s, id).info, n) {
      assert NoWorse(s.info, Displaced(p, u, id).info, n);
    }
  }

  lemma TimesNoWorse(s: map<int, AddrInfo>, t: map<int, AddrInfo>)
    requires TimesOk(s) && forall n :: NoWorse(s, t, n)
    ensures TimesOk(t)
  {
    forall n | n in t
      ensures 0 <= t[n].nLastTry && 0 <= t[n].nLastSuccess && (t[n].fInTried ==> t[n].nLastSuccess != 0)
    {
      assert NoWorse(s, t, n);
    }
  }

  /** Reporting a success keeps the time stamps in order exactly when its time is
      positive, or the address is not known. */
  lemma GoodTimes(p: Placement, s: AddrState, svc: Service, time: int)
    requires Valid(p, s) && TimesOk(s.info)
    ensures TimesOk(Good(p, s, svc, time).info) <==> time > 0 || !Knows(s, svc)
  {
    if Knows(s, svc) {
      var id := s.addr[svc.ip];
      var s1 := Update(s.(lastGood := time), id, Succeeded(s.info[id], time));
      var t := Good(p, s, svc, time);
      if !s.info[id].fInTried {
        UpdateConsistent(p, s, id, Succeeded(s.info[id], time), {}, 0);
        StructureDecides(p, Update(s, id, Succeeded(s.info[id], time)), s1, {}, 0);
        MakeTriedValid(p, s1, id);
        MakeTriedNoWorse(p, s1, id);
      }
      assert t.info[id].fInTried && t.info[id].nLastSuccess == time && t.info[id].nLastTry == time;
      if time > 0 {
        forall n | n in t.info
          ensures 0 <= t.info[n].nLastTry && 0 <= t.info[n].nLastSuccess
          ensures t.info[n].fInTried ==> t.info[n].nLastSuccess != 0
        {
          assert n != id && !s.info[id].fInTried ==> NoWorse(s1.info, t.info, n);
        }
      }
    }
  }

  /** Reporting an attempt keeps them in order exactly when its time is not negative, or
      the address is not known. */
  lemma AttemptTimes(p: Placement, s: AddrState, svc: Service, countFailure: bool, time: int)
    requires Valid(p, s) && TimesOk(s.info)
    ensures TimesOk(Step(p, s, OpAttempt(svc, countFailure, time)).info) <==> time >= 0 || !Knows(s, svc)
  {
    if Knows(s, svc) {
      var id := s.addr[svc.ip];
      var t := Step(p, s, OpAttempt(svc, countFailure, time)).info;
      assert t == s.info[id := Attempted(s.info[id], countFailure, time, s.lastGood)];
      assert id in t && t[id].nLastTry == time;
    }
  }

  /** The first address that is added to an empty manager is known. */
  lemma FirstKnown(p: Placement, key: Key, a: Address, source: NetAddr, penalty: int, now: int, rnd: nat)
    ensures Valid(p, Empty(key))
    ensures var s := Add(p, Empty(key), a, source, penalty, now, true, rnd); Knows(s, a.svc) && TimesOk(s.info)
  {
    EmptyValid(p, key);
    var s := Empty(key);
    IntroduceConsistent(p, s, a, source, penalty);
    var t := Introduce(s, a, source, penalty);
    var slot := p.NewSlot(key, a.svc, source);
    assert t.info.Keys == {0} && t.info[0].addr.svc == a.svc && t.newTab == map[];
    assert ClearNew(t, slot) == t;
  }

  /** A success at time zero, or an attempt at a negative time, reported for it: its time stamps fail the check. */
  lemma BadTimes(p: Placement, key: Key, a: Address, source: NetAddr, penalty: int, now: int, rnd: nat)
    ensures Valid(p, Empty(key))
    ensures var s := Add(p, Empty(key), a, source, penalty, now, true, rnd);
            && !TimesOk(Good(p, s, a.svc, 0).info)
            && !TimesOk(Step(p, s, OpAttempt(a.svc, false, -1)).info)
  {
    FirstKnown(p, key, a, source, penalty, now, rnd);
    var s := Add(p, Empty(key), a, source, penalty, now, true, rnd);
    GoodTimes(p, s, a.svc, 0);
    AttemptTimes(p, s, a.svc, false, -1);
  }

  lemma OfferTimes(p: Placement, s: AddrState, id: int, source: NetAddr, now: int)
    requires Consistent(p, s, {id}, 0) && TimesOk(s.info)
    requires id in s.info && !s.info[id].fInTried && s.info[id].nRefCount < NEW_BUCKETS_PER_ADDRESS
    ensures TimesOk(Offer(p, s, id, source, now).info)
  {
    var slot := p.NewSlot(s.key, s.info[id].addr.svc, source);
    if Occupant(s.newTab, slot) != {id} && (slot !in s.newTab || Overwritable(s, s.newTab[slot], id, now)) {
      TakeSlotValid(p, s, id, source);
      ClearNoWorse(s, slot);
      TimesNoWorse(s.info, ClearNew(s, slot).info);
    } else if Occupant(s.newTab, slot) != {id} && s.info[id].nRefCount == 0 {
      DeleteConsistent(p, s, id, {id}, 0);
      forall n ensures NoWorse(s.info, Delete(s, id).info, n) {}
      TimesNoWorse(s.info, Delete(s, id).info);
    }
  }

  lemma AddTimes(p: Placement, s: AddrState, op: Op)
    requires Valid(p, s) && TimesOk(s.info) && op.OpAdd?
    ensures TimesOk(Step(p, s, op).info)
  {
    var OpAdd(a, source, penalty, now, routable, rnd) := op;
    if routable && a.svc.ip in s.addr {
      var id := s.addr[a.svc.ip];
      assert HasIp(s.info, s.addr[a.svc.ip], a.svc.ip) && Counted(s.info, s.newTab, {}, id);
      var e := Refreshed(s.info[id], a, penalty, now);
      UpdateConsistent(p, s, id, e, {}, 0);
      if MayGainReference(e, a, rnd) {
        Waived(p, Update(s, id, e), id);
        OfferTimes(p, Update(s, id, e), id, source, now);
      }
    } else if routable {
      IntroduceConsistent(p, s, a, source, penalty);
      OfferTimes(p, Introduce(s, a, source, penalty), s.idCount, source, now);
    }
  }

  lemma SwapNoWorse(s: AddrState, i: int, j: int, n: int)
    requires CanSwap(s, i, j)
    ensures NoWorse(s.info, SwapRandom(s, i, j).info, n)
  {
  }

  lemma {:induction false} ShuffleNoWorse(p: Placement, s: AddrState, picks: seq<nat>, n: int)
    requires Valid(p, s) && |picks| <= |s.random|
    ensures NoWorse(s.info, Shuffle(p, s, picks).info, n)
    decreases |picks|
  {
    if picks != [] {
      var k := |picks| - 1;
      ShuffleNoWorse(p, s, picks[..k], n);
      var t := Shuffle(p, s, picks[..k]);
      SwapConsistent(p, t, k, Draw(picks[k], k, |t.random|), {}, 0);
      SwapNoWorse(t, k, Draw(picks[k], k, |t.random|), n);
    }
  }

  predicate WellTimed(op: Op) {
    (op.OpGood? ==> op.time > 0) && (op.OpAttempt? ==> op.time >= 0)
  }

  lemma StepTimes(p: Placement, s: AddrState, op: Op)
    requires Valid(p, s) && TimesOk(s.info) && WellTimed(op)
    ensures TimesOk(Step(p, s, op).info)
  {
    match op
    case OpAdd(_, _, _, _, _, _) => AddTimes(p, s, op);
    case OpGood(svc, time) => GoodTimes(p, s, svc, time);
    case OpAttempt(svc, countFailure, time) => AttemptTimes(p, s, svc, countFailure, time);
    case OpGetAddr(picks) =>
      if |picks| <= |s.random| {
        forall n ensures NoWorse(s.info, Shuffle(p, s, picks).info, n) { ShuffleNoWorse(p, s, picks, n); }
        TimesNoWorse(s.info, Shuffle(p, s, picks).info);
      }
    case _ =>
  }

  /** Every run from an empty manager keeps everything the consistency check looks at. */
  lemma {:induction false} RunKeepsCheck(p: Placement, key: Key, ops: seq<Op>)
    requires forall op :: op in ops ==> WellTimed(op)
    ensures Valid(p, Empty(key))
    ensures Valid(p, Run(p, Empty(key), ops)) && TimesOk(Run(p, Empty(key), ops).info)
  {
    EmptyValid(p, key);
    RunTimes(p, Empty(key), ops);
  }

  lemma {:induction false} RunTimes(p: Placement, s: AddrState, ops: seq<Op>)
    requires Valid(p, s) && TimesOk(s.info)
    requires forall op :: op in ops ==> WellTimed(op)
    ensures TimesOk(Run(p, s, ops).info)
    decreases |ops|
  {
    if ops != [] {
      StepTimes(p, s, ops[0]);
      RunTimes(p, Step(p, s, ops[0]), ops[1..]);
    }
  }

  // ----- what the operations do to the tables and to other entries -----------

  /** Moving an entry to tried: it takes its own tried slot and leaves all new slots;
      whoever had the tried slot gets one reference, in the new slot of its own
      source; and no other entry changes but the one that had that new slot. */
  lemma MakeTriedEffect(p: Placement, s: AddrState, id: int)
    requires Valid(p, s)
    requires id in s.info && !s.info[id].fInTried
    ensures CanMakeTried(p, s, id)
    ensures var slot := p.TriedSlot(s.key, s.info[id].addr.svc);
            var rest := Without(s.newTab, id, NEW_BUCKET_COUNT);
            var t := MakeTried(p, s, id);
            && t.triedTab == s.triedTab[slot := id]
            && Slots(rest, id) == {}
            && id in t.info && SameEntry(s.info[id].(fInTried := true, nRefCount := 0), t.info[id])
            && (slot !in s.triedTab ==>
                  t.newTab == rest && forall n :: n != id ==> Kept(s, t, n))
            && (slot in s.triedTab ==>
                  var e := s.triedTab[slot];
                  && e in s.info && e != id && e in t.info
                  && SameEntry(s.info[e].(fInTried := false, nRefCount := 1), t.info[e])
                  && var newSlot := p.NewSlot(s.key, s.info[e].addr.svc, s.info[e].source);
                     && t.newTab == rest[newSlot := e]
                     && forall n :: n != id && n != e && n !in Occupant(rest, newSlot) ==> Kept(s, t, n))
  {
    MakeTriedValid(p, s, id);
    UnlinkConsistent(p, s, id);
    var u, slot := Unlink(s, id), p.TriedSlot(s.key, s.info[id].addr.svc);
    var t := MakeTried(p, s, id);
    assert Counted(u.info, u.newTab, {id}, id);
    if slot in s.triedTab {
      var e := s.triedTab[slot];
      assert TriedAt(p, s.key, s.info, s.triedTab[slot], slot);
      var newSlot := p.NewSlot(s.key, s.info[e].addr.svc, s.info[e].source);
      EvictEffect(p, u, e);
      Unreferenced(p, u, id, {id}, 1, newSlot);
      assert Kept(u, Evict(p, u, e), id);
      TriedUnreferenced(p, u, e, {id}, 1, newSlot);
      forall n | n != id && n != e && n !in Occupant(u.newTab, newSlot) ensures Kept(s, t, n) {
        assert Kept(u, Evict(p, u, e), n);
      }
      assert t.triedTab == s.triedTab[slot := id];
    }
  }

  lemma TriedUnreferenced(p: Placement, s: AddrState, e: int, limbo: set<int>, uncounted: int, slot: Slot)
    requires Consistent(p, s, limbo, uncounted)
    requires e in s.info && s.info[e].fInTried
    ensures e !in Occupant(s.newTab, slot)
  {
    if slot in s.newTab {
      assert NewAt(p, s.key, s.info, s.newTab[slot], slot);
    }
  }

  /** Adding an address never touches a tried entry other than the one it names. */
  lemma OfferKeepsTried(p: Placement, s: AddrState, id: int, source: NetAddr, now: int, n: int)
    requires Consistent(p, s, {id}, 0)
    requires id in s.info && !s.info[id].fInTried && s.info[id].nRefCount < NEW_BUCKETS_PER_ADDRESS
    requires n in s.info && s.info[n].fInTried
    ensures Kept(s, Offer(p, s, id, source, now), n)
  {
    var slot := p.NewSlot(s.key, s.info[id].addr.svc, source);
    TriedUnreferenced(p, s, n, {id}, 0, slot);
    if Occupant(s.newTab, slot) != {id} {
      if slot !in s.newTab || Overwritable(s, s.newTab[slot], id, now) {
        TakeSlotValid(p, s, id, source);
        ClearKeeps(s, slot);
        assert Kept(s, ClearNew(s, slot), n);
      } else if s.info[id].nRefCount == 0 {
        DeleteConsistent(p, s, id, {id}, 0);
      }
    }
  }

  /** The entry is still there, with the same address. */
  predicate Survives(s: AddrState, t: AddrState, n: int) {
    n in s.info && n in t.info && s.info[n].addr.svc == t.info[n].addr.svc
  }

  /** No single operation forgets a tried address. */
  lemma TriedSurvives(p: Placement, s: AddrState, op: Op, n: int)
    requires Valid(p, s)
    requires n in s.info && s.info[n].fInTried
    ensures Survives(s, Step(p, s, op), n)
  {
    match op
    case OpAdd(a, source, penalty, now, routable, rnd) =>
      if routable && a.svc.ip in s.addr {
        var id := s.addr[a.svc.ip];
        assert HasIp(s.info, s.addr[a.svc.ip], a.svc.ip) && Counted(s.info, s.newTab, {}, id);
        var e := Refreshed(s.info[id], a, penalty, now);
        UpdateConsistent(p, s, id, e, {}, 0);
        if MayGainReference(e, a, rnd) {
          Waived(p, Update(s, id, e), id);
          OfferKeepsTried(p, Update(s, id, e), id, source, now, n);
        }
      } else if routable {
        IntroduceConsistent(p, s, a, source, penalty);
        OfferKeepsTried(p, Introduce(s, a, source, penalty), s.idCount, source, now, n);
      }
    case OpGood(svc, time) => GoodSurvives(p, s, svc, time, n);
    case OpGetAddr(picks) =>
      if |picks| <= |s.random| {
        ShuffleSurvives(p, s, picks, n);
      }
    case _ =>
  }

  lemma GoodSurvives(p: Placement, s: AddrState, svc: Service, time: int, n: int)
    requires Valid(p, s)
    requires n in s.info && s.info[n].fInTried
    ensures Survives(s, Good(p, s, svc, time), n)
  {
    if Knows(s, svc) && !s.info[s.addr[svc.ip]].fInTried {
      var id := s.addr[svc.ip];
      UpdateConsistent(p, s, id, Succeeded(s.info[id], time), {}, 0);
      var s1 := Update(s.(lastGood := time), id, Succeeded(s.info[id], time));
      StructureDecides(p, Update(s, id, Succeeded(s.info[id], time)), s1, {}, 0);
      MakeTriedEffect(p, s1, id);
      var slot := p.TriedSlot(s1.key, s1.info[id].addr.svc);
      if slot in s1.triedTab && n != s1.triedTab[slot] {
        var e := s1.triedTab[slot];
        var newSlot := p.NewSlot(s1.key, s1.info[e].addr.svc, s1.info[e].source);
        TriedUnreferenced(p, s1, n, {}, 0, newSlot);
        assert Kept(s1, MakeTried(p, s1, id), n);
      } else if slot !in s1.triedTab {
        assert Kept(s1, MakeTried(p, s1, id), n);
      }
    }
  }

  lemma {:induction false} ShuffleSurvives(p: Placement, s: AddrState, picks: seq<nat>, n: int)
    requires Valid(p, s) && |picks| <= |s.random|
    requires n in s.info
    ensures Survives(s, Shuffle(p, s, picks), n)
    decreases |picks|
  {
    if picks != [] {
      var k := |picks| - 1;
      ShuffleSurvives(p, s, picks[..k], n);
      var t := Shuffle(p, s, picks[..k]);
      SwapConsistent(p, t, k, Draw(picks[k], k, |t.random|), {}, 0);
    }
  }
}
