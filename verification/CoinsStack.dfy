/**
 Runs of a stack of coin caches refine runs of a stack of plain maps: reading,
 uncaching and beginning or ending a modification change nothing, a change shows
 in the top map only, and flushing a cache copies its map over its parent's.
 */
module CoinsStack {
  import opened Coins
  import opened Wrappers
  import opened CoinsView

  type Plain = map<Txid, CoinRecord>

  /** Operations; `depth` counts the caches above the one meant, 0 being the top. */
  datatype Op =
    | Read(depth: nat, txid: Txid)
    | Drop(depth: nat, txid: Txid)
    | FlushOp(depth: nat)
    | Begin(txid: Txid)
    | BeginNew(txid: Txid, coinbase: bool)
    | Change(txid: Txid, coins: CoinRecord)
    | End
    | Push
    | Pop

  function Height(v: View): nat {
    if v.Root? then 0 else 1 + Height(v.base)
  }

  /** The cache under `depth` others. */
  function Below(v: View, depth: nat): View
    requires depth <= Height(v)
    decreases depth
  {
    if depth == 0 then v else Below(v.base, depth - 1)
  }

  /** What the program demands of its callers. */
  predicate Enabled(v: View, op: Op) {
    match op
    case Read(depth, _) => depth <= Height(v)
    case Drop(depth, _) => depth < Height(v) && Quiet(v)
    case FlushOp(depth) => depth < Height(v) && Quiet(v)
    case Begin(_) => v.Cached? && v.modifier.None?
    case BeginNew(t, coinbase) => v.Cached? && v.modifier.None? && (coinbase || Get(v.base, t) == None)
    case Change(t, _) => v.Cached? && v.modifier.Some? && v.modifier.value.txid == t && t in v.entries
    case End => v.Cached? && v.modifier.Some? && v.modifier.value.txid in v.entries
    case Push => Quiet(v)
    case Pop => v.Cached? && v.modifier.None?
  }

  ghost function Deep(size: CoinRecord -> nat, v: View, op: Op, depth: nat): View
    requires op.Read? || op.Drop? || op.FlushOp?
    requires depth <= Height(v) && (!op.Read? ==> depth < Height(v))
    decreases depth
  {
    if depth > 0 then v.(base := Deep(size, v.base, op, depth - 1))
    else
      match op
      case Read(_, t) => Fetch(size, v, t)
      case Drop(_, t) => Uncache(size, v, t)
      case FlushOp(_) => Flush(size, v)
  }

  ghost function Step(size: CoinRecord -> nat, v: View, op: Op): View
    requires Enabled(v, op)
  {
    match op
    case Read(depth, _) => Deep(size, v, op, depth)
    case Drop(depth, _) => Deep(size, v, op, depth)
    case FlushOp(depth) => Deep(size, v, op, depth)
    case Begin(t) => Modify(size, v, t)
    case BeginNew(t, coinbase) => ModifyNew(v, t, coinbase)
    case Change(_, c) => Write(v, c)
    case End => Release(size, v)
    case Push => Cached(v, map[], 0, NULL_HASH, None)
    case Pop => v.base
  }

  // ----- the plain maps ------------------------------------------------------

  predicate ShowsAt(v: View, m: Plain, t: Txid) {
    Get(v, t) == if t in m then Some(m[t]) else None
  }

  function Last(maps: seq<Plain>): Plain
    requires maps != []
  {
    maps[|maps| - 1]
  }

  /** The last map is what the view shows, the others what the views below it show. */
  ghost predicate Refines(v: View, maps: seq<Plain>)
    decreases v
  {
    && |maps| == Height(v) + 1
    && (forall t {:trigger ShowsAt(v, Last(maps), t)} :: ShowsAt(v, Last(maps), t))
    && (v.Cached? ==> Refines(v.base, maps[..|maps| - 1]))
  }

  function Top(maps: seq<Plain>, m: Plain): seq<Plain>
    requires maps != []
  {
    maps[..|maps| - 1] + [m]
  }

  function PlainFlush(maps: seq<Plain>, depth: nat): seq<Plain>
    requires depth + 2 <= |maps|
  {
    maps[|maps| - 2 - depth := maps[|maps| - 1 - depth]]
  }

  function PlainStep(maps: seq<Plain>, op: Op): seq<Plain>
    requires maps != [] && (op.FlushOp? ==> op.depth + 2 <= |maps|)
  {
    var top := Last(maps);
    match op
    case FlushOp(depth) => PlainFlush(maps, depth)
    case BeginNew(t, _) => Top(maps, top - {t})
    case Change(t, c) => Top(maps, if IsPruned(c) then top - {t} else top[t := Trim(c)])
    case Push => maps + [top]
    case Pop => maps[..|maps| - 1]
    case _ => maps
  }

  // ----- refinement ----------------------------------------------------------

  /** A cache does not notice a change below it that keeps the view of its parent. */
  lemma Rebase(v: View, b: View)
    requires Ok(v) && v.Cached? && Ok(b) && Quiet(b)
    requires forall t :: SameView(b, v.base, t)
    ensures Ok(v.(base := b))
    ensures forall t :: SameView(v.(base := b), v, t)
  {
    var w := v.(base := b);
    forall t ensures EntryOk(w, t) && SameView(w, v, t) {
      assert EntryOk(v, t) && SameView(b, v.base, t);
    }
  }

  lemma {:induction false} FetchHeight(size: CoinRecord -> nat, v: View, t: Txid)
    ensures Height(Fetch(size, v, t)) == Height(v)
  {
    if v.Cached? { FetchHeight(size, v.base, t); }
  }

  lemma {:induction false} FetchRefines(size: CoinRecord -> nat, v: View, t: Txid, maps: seq<Plain>)
    requires Refines(v, maps)
    ensures Refines(Fetch(size, v, t), maps)
  {
    var w, m := Fetch(size, v, t), Last(maps);
    FetchHeight(size, v, t);
    forall x ensures ShowsAt(w, m, x) { assert ShowsAt(v, m, x); FetchSame(size, v, t, x); }
    if v.Cached? { FetchRefines(size, v.base, t, maps[..|maps| - 1]); }
  }

  /** A change of the top cache only. */
  lemma TopRefines(v: View, w: View, maps: seq<Plain>, m: Plain)
    requires Refines(v, maps) && v.Cached? && w.Cached? && Refines(w.base, maps[..|maps| - 1])
    requires forall t :: ShowsAt(w, m, t)
    ensures Refines(w, Top(maps, m))
  {
    assert Top(maps, m)[..|maps| - 1] == maps[..|maps| - 1];
    forall t ensures ShowsAt(w, Last(Top(maps, m)), t) { assert ShowsAt(w, m, t); }
  }

  lemma SameRefines(v: View, w: View, maps: seq<Plain>)
    requires Refines(v, maps) && v.Cached? && w.Cached? && Refines(w.base, maps[..|maps| - 1])
    requires forall t :: SameView(w, v, t)
    ensures Refines(w, maps)
  {
    forall t ensures ShowsAt(w, Last(maps), t) {
      assert ShowsAt(v, Last(maps), t) && SameView(w, v, t);
    }
  }

  lemma {:induction false} DeepRefines(size: CoinRecord -> nat, v: View, op: Op, depth: nat, maps: seq<Plain>)
    requires op.Read? || op.Drop? || op.FlushOp?
    requires depth <= Height(v) && (!op.Read? ==> depth < Height(v) && Quiet(v))
    requires Ok(v) && Refines(v, maps)
    ensures Ok(Deep(size, v, op, depth)) && Quiet(Deep(size, v, op, depth)) == Quiet(v)
    ensures forall t :: SameView(Deep(size, v, op, depth), v, t)
    ensures Refines(Deep(size, v, op, depth), if op.FlushOp? then PlainFlush(maps, depth) else maps)
    decreases depth
  {
    var w, n := Deep(size, v, op, depth), |maps|;
    if depth > 0 {
      DeepRefines(size, v.base, op, depth - 1, maps[..n - 1]);
      Rebase(v, w.base);
      if op.FlushOp? {
        SameRefinesFlush(v, w, maps, depth);
      } else {
        SameRefines(v, w, maps);
      }
    } else {
      match op
      case Read(_, t) =>
        FetchOk(size, v, t);
        FetchSame(size, v, t, 0);
        FetchRefines(size, v, t, maps);
        forall x ensures SameView(w, v, x) { FetchSame(size, v, t, x); }
      case Drop(_, t) =>
        UncacheOk(size, v, t);
        SameRefines(v, w, maps);
      case FlushOp(_) =>
        FlushOk(size, v);
        FlushRefines(size, v, maps);
    }
  }

  lemma SameRefinesFlush(v: View, w: View, maps: seq<Plain>, depth: nat)
    requires Refines(v, maps) && v.Cached? && w.Cached? && 0 < depth && depth + 2 <= |maps|
    requires Refines(w.base, PlainFlush(maps[..|maps| - 1], depth - 1))
    requires forall t :: SameView(w, v, t)
    ensures Refines(w, PlainFlush(maps, depth))
  {
    var n := |maps|;
    assert PlainFlush(maps, depth)[..n - 1] == PlainFlush(maps[..n - 1], depth - 1);
    forall t ensures ShowsAt(w, Last(PlainFlush(maps, depth)), t) {
      assert ShowsAt(v, Last(maps), t) && SameView(w, v, t);
    }
  }

  lemma FlushRefines(size: CoinRecord -> nat, v: View, maps: seq<Plain>)
    requires Ok(v) && v.Cached? && v.modifier.None? && Refines(v, maps)
    ensures Refines(Flush(size, v), PlainFlush(maps, 0))
  {
    var w, n := Flush(size, v), |maps|;
    FlushOk(size, v);
    var out := PlainFlush(maps, 0);
    assert out[n - 1] == maps[n - 1] && out[n - 2] == maps[n - 1];
    assert out[..n - 1][..n - 2] == maps[..n - 1][..n - 2];
    assert Last(out) == Last(maps) && Last(out[..n - 1]) == Last(maps);
    forall t ensures ShowsAt(w.base, Last(maps), t) && ShowsAt(w, Last(maps), t) {
      assert ShowsAt(v, Last(maps), t) && SameView(w.base, v, t) && SameView(w, v, t);
    }
    assert Refines(v.base, maps[..n - 1]);
    assert Refines(w.base, out[..n - 1]);
  }

  /** Every step keeps the flags right and does to the plain maps what it should. */
  lemma StepRefines(size: CoinRecord -> nat, v: View, op: Op, maps: seq<Plain>)
    requires Ok(v) && Refines(v, maps) && Enabled(v, op)
    ensures Ok(Step(size, v, op))
    ensures Refines(Step(size, v, op), PlainStep(maps, op))
  {
    var w, n := Step(size, v, op), |maps|;
    var top := Last(maps);
    match op
    case Read(depth, _) => DeepRefines(size, v, op, depth, maps);
    case Drop(depth, _) => DeepRefines(size, v, op, depth, maps);
    case FlushOp(depth) => DeepRefines(size, v, op, depth, maps);
    case Begin(t) =>
      ModifyOk(size, v, t);
      FetchRefines(size, v.base, t, maps[..n - 1]);
      SameRefines(v, w, maps);
    case BeginNew(t, coinbase) =>
      ModifyNewOk(v, t, coinbase);
      forall x ensures ShowsAt(w, top - {t}, x) { assert ShowsAt(v, top, x); }
      TopRefines(v, w, maps, top - {t});
    case Change(t, c) =>
      WriteOk(v, c);
      var m := if IsPruned(c) then top - {t} else top[t := Trim(c)];
      forall x ensures ShowsAt(w, m, x) { assert ShowsAt(v, top, x); }
      TopRefines(v, w, maps, m);
    case End =>
      ReleaseOk(size, v);
      SameRefines(v, w, maps);
    case Push =>
      assert (maps + [top])[..n] == maps;
      forall x ensures EntryOk(w, x) && ShowsAt(w, Last(maps + [top]), x) { assert ShowsAt(v, top, x); }
    case Pop =>
  }

  // ----- runs ----------------------------------------------------------------

  ghost predicate RunEnabled(size: CoinRecord -> nat, v: View, ops: seq<Op>)
    decreases |ops|
  {
    ops != [] ==> Enabled(v, ops[0]) && RunEnabled(size, Step(size, v, ops[0]), ops[1..])
  }

  ghost function Run(size: CoinRecord -> nat, v: View, ops: seq<Op>): View
    requires RunEnabled(size, v, ops)
    decreases |ops|
  {
    if ops == [] then v else Run(size, Step(size, v, ops[0]), ops[1..])
  }

  /** The plain maps after a run, as long as no step flushes or pops more than there is. */
  function PlainRun(maps: seq<Plain>, ops: seq<Op>): seq<Plain>
    decreases |ops|
  {
    if ops == [] || maps == [] || (ops[0].FlushOp? && ops[0].depth + 2 > |maps|) then maps
    else PlainRun(PlainStep(maps, ops[0]), ops[1..])
  }

  /** Over every run, the stack of caches is the stack of plain maps. */
  lemma {:induction false} RunRefines(size: CoinRecord -> nat, v: View, ops: seq<Op>, maps: seq<Plain>)
    requires Ok(v) && Refines(v, maps) && RunEnabled(size, v, ops)
    ensures Ok(Run(size, v, ops))
    ensures Refines(Run(size, v, ops), PlainRun(maps, ops))
    decreases |ops|
  {
    if ops != [] {
      StepRefines(size, v, ops[0], maps);
      RunRefines(size, Step(size, v, ops[0]), ops[1..], PlainStep(maps, ops[0]));
    }
  }

  // ----- memory accounting ---------------------------------------------------

  /** Every cache counts just the memory that its records use. */
  ghost predicate Exact(size: CoinRecord -> nat, v: View) {
    v.Cached? ==> Drift(size, v) == 0 && Exact(size, v.base)
  }

  /** An entry that ModifyNewCoins replaces holds no storage. */
  predicate ForgetsNothing(size: CoinRecord -> nat, v: View, op: Op) {
    op.BeginNew? && v.Cached? && op.txid in v.entries ==> size(v.entries[op.txid].coins) == 0
  }

  lemma {:induction false} FetchExact(size: CoinRecord -> nat, v: View, t: Txid)
    requires Ok(v) && Exact(size, v)
    ensures Exact(size, Fetch(size, v, t))
  {
    if v.Cached? {
      FetchExact(size, v.base, t);
      FetchDrift(size, v, t);
    }
  }

  lemma {:induction false} DeepExact(size: CoinRecord -> nat, v: View, op: Op, depth: nat)
    requires op.Read? || op.Drop? || op.FlushOp?
    requires depth <= Height(v) && (!op.Read? ==> depth < Height(v) && Quiet(v))
    requires Ok(v) && Exact(size, v)
    ensures Exact(size, Deep(size, v, op, depth))
    decreases depth
  {
    if depth > 0 {
      DeepExact(size, v.base, op, depth - 1);
      DriftIsOwn(size, v, Deep(size, v, op, depth));
    } else {
      match op
      case Read(_, t) => FetchExact(size, v, t);
      case Drop(_, t) => UncacheDrift(size, v, t);
      case FlushOp(_) => FlushDrift(size, v);
    }
  }

  lemma DriftIsOwn(size: CoinRecord -> nat, v: View, w: View)
    requires v.Cached? && w.Cached? && w == v.(base := w.base)
    ensures Drift(size, w) == Drift(size, v)
  {
  }

  lemma StepExact(size: CoinRecord -> nat, v: View, op: Op)
    requires Ok(v) && Enabled(v, op) && Exact(size, v)
    ensures Exact(size, Step(size, v, op)) <==> ForgetsNothing(size, v, op)
  {
    match op
    case Read(depth, _) => DeepExact(size, v, op, depth);
    case Drop(depth, _) => DeepExact(size, v, op, depth);
    case FlushOp(depth) => DeepExact(size, v, op, depth);
    case Begin(t) =>
      FetchExact(size, v.base, t);
      ModifyDrift(size, v, t);
    case BeginNew(t, coinbase) => ModifyNewDrift(size, v, t, coinbase);
    case Change(_, c) => WriteDrift(size, v, c);
    case End => ReleaseDrift(size, v);
    case Push =>
    case Pop =>
  }

  ghost predicate StaysExact(size: CoinRecord -> nat, v: View, ops: seq<Op>)
    requires RunEnabled(size, v, ops)
    decreases |ops|
  {
    Exact(size, v) && (ops != [] ==> StaysExact(size, Step(size, v, ops[0]), ops[1..]))
  }

  ghost predicate NeverForgets(size: CoinRecord -> nat, v: View, ops: seq<Op>)
    requires RunEnabled(size, v, ops)
    decreases |ops|
  {
    ops != [] ==> ForgetsNothing(size, v, ops[0]) && NeverForgets(size, Step(size, v, ops[0]), ops[1..])
  }

  /** Throughout a run the memory of every cache is counted exactly, if and only if no ModifyNewCoins of the run
      replaced an entry that held storage. */
  lemma {:induction false} RunExact(size: CoinRecord -> nat, v: View, ops: seq<Op>, maps: seq<Plain>)
    requires Ok(v) && Refines(v, maps) && RunEnabled(size, v, ops) && Exact(size, v)
    ensures StaysExact(size, v, ops) <==> NeverForgets(size, v, ops)
    decreases |ops|
  {
    if ops != [] {
      var w := Step(size, v, ops[0]);
      StepExact(size, v, ops[0]);
      StepRefines(size, v, ops[0], maps);
      if Exact(size, w) { RunExact(size, w, ops[1..], PlainStep(maps, ops[0])); }
    }
  }

  const EMPTY_STACK := Cached(Root(map[], NULL_HASH), map[], 0, NULL_HASH, None)

  /** A run that goes wrong: a record with storage is created, and created again. */
  function CreatedTwice(t: Txid, c: CoinRecord): seq<Op> {
    [Begin(t), Change(t, c), End, BeginNew(t, true)]
  }

  lemma NothingThere(v: View, t: Txid)
    requires if v.Root? then v.db == map[] else v.entries == map[] && v.base.Root? && v.base.db == map[]
    ensures ShowsAt(v, map[], t)
  {
    if v.Cached? { assert Raw(v, t) == Raw(v.base, t) == None; } else { assert Raw(v, t) == None; }
  }

  lemma EmptyRoot(root: View, maps: seq<Plain>)
    requires root == Root(map[], NULL_HASH) && maps == [map[]]
    ensures Refines(root, maps)
  {
    forall t ensures ShowsAt(root, Last(maps), t) { NothingThere(root, t); }
  }

  lemma EmptyStackOk(size: CoinRecord -> nat)
    ensures Ok(EMPTY_STACK) && Refines(EMPTY_STACK, [map[], map[]]) && Exact(size, EMPTY_STACK)
  {
    var v: View, maps: seq<Plain> := EMPTY_STACK, [map[], map[]];
    EmptyRoot(v.base, maps[..1]);
    forall t ensures ShowsAt(v, Last(maps), t) { NothingThere(v, t); }
    assert Total(size, map[]) == 0;
  }

  lemma CreatedState(size: CoinRecord -> nat, t: Txid, c: CoinRecord)
    requires !IsPruned(c)
    ensures var v1 := Step(size, EMPTY_STACK, Begin(t));
            && Enabled(v1, Change(t, c)) && var v2 := Step(size, v1, Change(t, c));
            && Enabled(v2, End) && var v3 := Step(size, v2, End);
            && v3.Cached? && v3.modifier == None && t in v3.entries && v3.entries[t].coins == Trim(c)
  {
    TrimMeaning(c);
  }

  lemma StorageForgotten(size: CoinRecord -> nat, v: View, t: Txid, c: CoinRecord)
    requires v == EMPTY_STACK && !IsPruned(c) && size(Trim(c)) > 0
    ensures RunEnabled(size, v, CreatedTwice(t, c)) && !StaysExact(size, v, CreatedTwice(t, c))
  {
    var ops := CreatedTwice(t, c);
    CreatedState(size, t, c);
    var v1 := Step(size, v, ops[0]);
    var v2 := Step(size, v1, ops[1]);
    var v3 := Step(size, v2, ops[2]);
    assert ops[1..][0] == ops[1] && ops[1..][1..] == ops[2..] && ops[2..][1..] == ops[3..] && ops[3..][1..] == [];
    assert RunEnabled(size, v3, ops[3..]) && !ForgetsNothing(size, v3, ops[3]);
    assert RunEnabled(size, v2, ops[2..]) && !NeverForgets(size, v2, ops[2..]);
    assert RunEnabled(size, v1, ops[1..]) && !NeverForgets(size, v1, ops[1..]);
    EmptyStackOk(size);
    RunExact(size, v, ops, [map[], map[]]);
  }
}
