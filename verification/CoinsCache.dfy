/**
 The coin caches as objects: each has a fixed base, which is another cache or the
 database, and updates its own entries in place. Every method is proved to take the
 step that CoinsView describes on the view made of the cache and everything below it.
 */
module CoinsCache {
  import opened Coins
  import opened Wrappers
  import opened CoinsView

  class CoinsDb {
    var coins: map<Txid, CoinRecord>
    var bestBlock: Hash

    constructor ()
      ensures coins == map[] && bestBlock == NULL_HASH
    {
      coins, bestBlock := map[], NULL_HASH;
    }

    method StoreOne(t: Txid, e: Entry)
      modifies this`coins
      ensures coins == if !e.dirty then old(coins) else if IsPruned(e.coins) then old(coins) - {t} else old(coins)[t := e.coins]
    {
      if e.dirty {
        if IsPruned(e.coins) {
          coins := coins - {t};
        } else {
          coins := coins[t := e.coins];
        }
      }
    }

    method BatchWrite(mapCoins: Entries, hashBlock: Hash)
      modifies this
      ensures coins == StoredRecords(old(coins), mapCoins)
      ensures bestBlock == if hashBlock == NULL_HASH then old(bestBlock) else hashBlock
    {
      var todo: set<Txid> := mapCoins.Keys;
      MergeNone(map[], coins);
      assert mapCoins - todo == map[];
      while todo != {}
        invariant bestBlock == old(bestBlock) && todo <= mapCoins.Keys
        invariant coins == StoredRecords(old(coins), mapCoins - todo)
        decreases |todo|
      {
        var t :| t in todo;
        DoneOneMore(mapCoins, todo, t);
        StoreOneMore(old(coins), mapCoins - todo, t, mapCoins[t]);
        StoreOne(t, mapCoins[t]);
        todo := todo - {t};
      }
      assert mapCoins - todo == mapCoins;
      if hashBlock != NULL_HASH {
        bestBlock := hashBlock;
      }
    }
  }

  class CoinsViewCache {
    const size: CoinRecord -> nat
    const base: CoinsViewCache?
    const db: CoinsDb
    ghost const Repr: set<object>
    var cacheCoins: Entries
    var cachedCoinsUsage: int
    var hashBlock: Hash
    var modifier: Option<Modifier>

    /** The caches below are other objects, down to the database. */
    ghost predicate Chain()
      decreases Repr
    {
      && this in Repr && db in Repr
      && (base == null ==> Repr == {this, db})
      && (base != null ==>
            && base.Repr < Repr && this !in base.Repr && Repr == {this} + base.Repr
            && base.db == db && base.size == size
            && base.Chain())
    }

    ghost function BaseView(): View
      requires Chain()
      reads Repr
      decreases Repr, 0
    {
      if base == null then Root(db.coins, db.bestBlock) else base.AsView()
    }

    ghost function AsView(): View
      requires Chain()
      reads Repr
      decreases Repr, 1
    {
      Cached(BaseView(), cacheCoins, cachedCoinsUsage, hashBlock, modifier)
    }

    constructor (size: CoinRecord -> nat, base: CoinsViewCache?, db: CoinsDb)
      requires base != null ==> base.Chain() && base.db == db && base.size == size
      ensures Chain() && this.base == base && this.db == db && this.size == size
      ensures AsView() == Cached(BaseView(), map[], 0, NULL_HASH, None)
      ensures Repr == {this} + (if base == null then {db} else base.Repr)
    {
      this.size, this.base, this.db := size, base, db;
      cacheCoins, cachedCoinsUsage, hashBlock, modifier := map[], 0, NULL_HASH, None;
      Repr := {this} + (if base == null then {db} else base.Repr);
    }

    method FetchCoins(t: Txid) returns (r: Option<CoinRecord>)
      requires Chain()
      modifies Repr
      ensures AsView() == Fetch(size, old(AsView()), t)
      ensures r == Raw(old(AsView()), t)
      decreases Repr
    {
      if t in cacheCoins {
        return Some(cacheCoins[t].coins);
      }
      r := BaseGetCoins(t);
      if r.Some? {
        cacheCoins := cacheCoins[t := Entry(r.value, false, false)];
        if IsPruned(r.value) {
          cacheCoins := cacheCoins[t := cacheCoins[t].(fresh_ := true)];
        }
        cachedCoinsUsage := cachedCoinsUsage + size(r.value);
      }
    }

    /** GetCoins of the base, whichever it is. */
    method BaseGetCoins(t: Txid) returns (r: Option<CoinRecord>)
      requires Chain()
      modifies Repr - {this}
      ensures BaseView() == Fetch(size, old(BaseView()), t)
      ensures r == Raw(old(BaseView()), t)
      decreases Repr, 0
    {
      if base == null {
        r := if t in db.coins then Some(db.coins[t]) else None;
      } else {
        r := base.FetchCoins(t);
      }
    }
  
    method HaveCoins(t: Txid) returns (have: bool)
      requires Chain() && Ok(AsView()) && Quiet(AsView())
      modifies Repr
      ensures AsView() == Fetch(size, old(AsView()), t)
      ensures have <==> Get(old(AsView()), t).Some?
    {
      HaveCoinsMeaning(AsView(), t);
      var r := FetchCoins(t);
      have := r.Some? && r.value.vout != [];
    }

    method GetBestBlock() returns (h: Hash)
      requires Chain()
      modifies Repr
      ensures h == Best(old(AsView())) == Best(AsView())
      ensures cacheCoins == old(cacheCoins) && cachedCoinsUsage == old(cachedCoinsUsage) && modifier == old(modifier)
      decreases Repr
    {
      if hashBlock == NULL_HASH {
        var b: Hash;
        if base == null {
          b := db.bestBlock;
        } else {
          b := base.GetBestBlock();
        }
        hashBlock := b;
      }
      h := hashBlock;
    }

    method ModifyCoins(t: Txid)
      requires Chain() && modifier.None?
      modifies Repr
      ensures AsView() == Modify(size, old(AsView()), t)
    {
      var cachedCoinUsage := 0;
      if t !in cacheCoins {
        var r := BaseGetCoins(t);
        match r
        case None =>
          cacheCoins := cacheCoins[t := Entry(CLEARED, false, true)];
        case Some(c) =>
          cacheCoins := cacheCoins[t := Entry(c, false, IsPruned(c))];
      } else {
        cachedCoinUsage := size(cacheCoins[t].coins);
      }
      cacheCoins := cacheCoins[t := cacheCoins[t].(dirty := true)];
      modifier := Some(Modifier(t, cachedCoinUsage));
    }

    method ModifyNewCoins(t: Txid, coinbase: bool)
      requires Chain() && modifier.None?
      modifies this
      ensures AsView() == ModifyNew(old(AsView()), t, coinbase)
    {
      if t !in cacheCoins {
        cacheCoins := cacheCoins[t := Entry(CLEARED, false, false)];
      }
      cacheCoins := cacheCoins[t := cacheCoins[t].(coins := CLEARED)];
      if !coinbase {
        cacheCoins := cacheCoins[t := cacheCoins[t].(dirty := false, fresh_ := true)];
      }
      cacheCoins := cacheCoins[t := cacheCoins[t].(dirty := true)];
      modifier := Some(Modifier(t, 0));
    }

    /** A change through the modifier. */
    method SetCoins(c: CoinRecord)
      requires Chain() && modifier.Some? && modifier.value.txid in cacheCoins
      modifies this`cacheCoins
      ensures AsView() == Write(old(AsView()), c)
    {
      var t := modifier.value.txid;
      cacheCoins := cacheCoins[t := cacheCoins[t].(coins := c)];
    }

    /** The destructor of the modifier. */
    method ReleaseModifier()
      requires Chain() && modifier.Some? && modifier.value.txid in cacheCoins
      modifies this
      ensures AsView() == Release(size, old(AsView()))
    {
      var Modifier(t, cachedCoinUsage) := modifier.value;
      modifier := None;
      var coins := Cleanup(cacheCoins[t].coins);
      cacheCoins := cacheCoins[t := cacheCoins[t].(coins := coins)];
      cachedCoinsUsage := cachedCoinsUsage - cachedCoinUsage;
      if cacheCoins[t].fresh_ && IsPruned(coins) {
        cacheCoins := cacheCoins - {t};
      } else {
        cachedCoinsUsage := cachedCoinsUsage + size(coins);
      }
      ghost var e := old(cacheCoins[t]).(coins := coins);
      assert old(cacheCoins)[t := e] - {t} == old(cacheCoins) - {t};
    }

    method UncacheCoins(t: Txid)
      requires Chain()
      modifies this
      ensures AsView() == Uncache(size, old(AsView()), t)
    {
      if t in cacheCoins && !cacheCoins[t].dirty && !cacheCoins[t].fresh_ {
        cachedCoinsUsage := cachedCoinsUsage - size(cacheCoins[t].coins);
        cacheCoins := cacheCoins - {t};
      }
    }

    /** The arrival of one entry of a child. */
    method MergeOne(t: Txid, e: Entry)
      requires Chain()
      modifies this`cacheCoins, this`cachedCoinsUsage
      ensures cacheCoins == match Merged(At(old(cacheCoins), t), e)
                            case None => old(cacheCoins) - {t}
                            case Some(m) => old(cacheCoins)[t := m]
      ensures cachedCoinsUsage - Total(size, cacheCoins) == old(cachedCoinsUsage) - Total(size, old(cacheCoins))
    {
      ghost var before: Entries := cacheCoins;
      if t in before { TotalWithout(size, before, t); } else { assert before - {t} == before; }
      if e.dirty {
        if t !in cacheCoins {
          if !(e.fresh_ && IsPruned(e.coins)) {
            cacheCoins := cacheCoins[t := Entry(e.coins, true, e.fresh_)];
            cachedCoinsUsage := cachedCoinsUsage + size(e.coins);
            TotalUpdate(size, before, t, cacheCoins[t]);
          }
        } else if cacheCoins[t].fresh_ && IsPruned(e.coins) {
          cachedCoinsUsage := cachedCoinsUsage - size(cacheCoins[t].coins);
          cacheCoins := cacheCoins - {t};
        } else {
          cachedCoinsUsage := cachedCoinsUsage - size(cacheCoins[t].coins);
          cacheCoins := cacheCoins[t := cacheCoins[t].(coins := e.coins, dirty := true)];
          cachedCoinsUsage := cachedCoinsUsage + size(e.coins);
          TotalUpdate(size, before, t, cacheCoins[t]);
        }
      } else if t in cacheCoins {
        assert before[t := before[t]] == before;
      }
    }

    /** The loop of BatchWrite. */
    method MergeAll(mapCoins: Entries)
      requires Chain()
      modifies this`cacheCoins, this`cachedCoinsUsage
      ensures cacheCoins == MergedEntries(old(cacheCoins), mapCoins)
      ensures cachedCoinsUsage - Total(size, cacheCoins) == old(cachedCoinsUsage) - Total(size, old(cacheCoins))
    {
      var todo: set<Txid> := mapCoins.Keys;
      MergeNone(cacheCoins, map[]);
      assert mapCoins - todo == map[];
      while todo != {}
        invariant todo <= mapCoins.Keys
        invariant cacheCoins == MergedEntries(old(cacheCoins), mapCoins - todo)
        invariant cachedCoinsUsage - Total(size, cacheCoins) == old(cachedCoinsUsage) - Total(size, old(cacheCoins))
        decreases |todo|
      {
        var t :| t in todo;
        DoneOneMore(mapCoins, todo, t);
        MergeOneMore(old(cacheCoins), mapCoins - todo, t, mapCoins[t]);
        MergeOne(t, mapCoins[t]);
        todo := todo - {t};
      }
      assert mapCoins - todo == mapCoins;
    }

    method BatchWrite(mapCoins: Entries, hashBlockIn: Hash)
      requires Chain() && modifier.None?
      modifies this
      ensures AsView() == CoinsView.BatchWrite(size, old(AsView()), mapCoins, hashBlockIn)
    {
      MergeAll(mapCoins);
      hashBlock := hashBlockIn;
    }

    method FlushCache()
      requires Chain() && modifier.None? && (base != null ==> base.modifier.None?)
      modifies Repr
      ensures AsView() == Flush(size, old(AsView()))
    {
      if base == null {
        db.BatchWrite(cacheCoins, hashBlock);
      } else {
        base.BatchWrite(cacheCoins, hashBlock);
      }
      cacheCoins := map[];
      cachedCoinsUsage := 0;
    }
  }
}
