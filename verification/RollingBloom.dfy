/**
 The rolling Bloom filter over whole runs of insertions: positions carry the
 generation that set them last, and starting a generation wipes those left
 from the generation three before it.
 */
module RollingBloom {
  import opened Arithmetic

  /** A bit of the filter: a pair of words and a bit in both. */
  datatype Slot = Slot(pair: nat, bit: bv64)

  /** Generations are counted from the last reset, without wrapping around; marks holds the one that set a slot. */
  datatype Filter = Filter(perGeneration: nat, generation: nat, entries: nat, marks: map<Slot, nat>)

  function Empty(perGeneration: nat): Filter {
    Filter(perGeneration, 0, 0, map[])
  }

  /** Starts a generation when the current one is full, wiping what has its number modulo three. */
  function Rotated(f: Filter): Filter {
    if f.entries == f.perGeneration then
      Filter(f.perGeneration, f.generation + 1, 0,
             map s | s in f.marks && f.marks[s] % 3 != (f.generation + 1) % 3 :: f.marks[s])
    else f
  }

  function MarkAll(marks: map<Slot, nat>, slots: seq<Slot>, generation: nat): map<Slot, nat> {
    if slots == [] then marks else MarkAll(marks, slots[..|slots| - 1], generation)[slots[|slots| - 1] := generation]
  }

  function Insert(f: Filter, slots: seq<Slot>): Filter {
    var g := Rotated(f);
    Filter(g.perGeneration, g.generation, g.entries + 1, MarkAll(g.marks, slots, g.generation))
  }

  predicate Contains(f: Filter, slots: seq<Slot>) {
    forall s :: s in slots ==> s in f.marks
  }

  /** A run of insertions, each given by the slots of its key. */
  function Run(perGeneration: nat, keys: seq<seq<Slot>>): Filter {
    if keys == [] then Empty(perGeneration)
    else Insert(Run(perGeneration, keys[..|keys| - 1]), keys[|keys| - 1])
  }

  lemma {:induction false} MarkedAt(marks: map<Slot, nat>, slots: seq<Slot>, generation: nat, s: Slot)
    ensures var m := MarkAll(marks, slots, generation);
            && (s in m <==> s in slots || s in marks)
            && (s in m ==> m[s] == if s in slots then generation else marks[s])
  {
    if slots != [] {
      var n := |slots| - 1;
      MarkedAt(marks, slots[..n], generation, s);
      assert s in slots <==> s in slots[..n] || s == slots[n];
    }
  }

  /** Only the last three generations are marked. */
  ghost predicate Recent(f: Filter, s: Slot) {
    s in f.marks ==> f.generation - 2 <= f.marks[s] <= f.generation
  }

  /** A slot set for a key is still set, by its generation or a later one. */
  ghost predicate Held(f: Filter, s: Slot, since: nat) {
    s in f.marks && f.marks[s] >= since
  }

  /** Each kept key's slots are set. */
  ghost predicate Kept(f: Filter, keys: seq<seq<Slot>>, i: nat)
    requires f.perGeneration > 0 && i < |keys|
  {
    i / f.perGeneration >= f.generation - 2 ==> forall s :: s in keys[i] ==> Held(f, s, i / f.perGeneration)
  }

  ghost predicate Inv(f: Filter, keys: seq<seq<Slot>>)
    requires f.perGeneration > 0
  {
    && f.entries <= f.perGeneration
    && |keys| == f.generation * f.perGeneration + f.entries
    && (forall s: Slot :: Recent(f, s))
    && (forall i: nat :: i < |keys| ==> Kept(f, keys, i))
  }

  lemma RotatedHolds(f: Filter, s: Slot, since: nat)
    requires Recent(f, s)
    ensures Recent(Rotated(f), s)
    ensures Held(f, s, since) && since >= Rotated(f).generation - 2 ==> Held(Rotated(f), s, since)
  {
  }

  lemma InsertHolds(f: Filter, slots: seq<Slot>, s: Slot, since: nat)
    requires Recent(f, s)
    ensures Recent(Insert(f, slots), s)
    ensures Held(f, s, since) && since >= Insert(f, slots).generation - 2 && since <= f.generation ==> Held(Insert(f, slots), s, since)
    ensures s in slots ==> Held(Insert(f, slots), s, Rotated(f).generation)
  {
    RotatedHolds(f, s, since);
    MarkedAt(Rotated(f).marks, slots, Rotated(f).generation, s);
  }

  lemma InsertKeeps(f: Filter, keys: seq<seq<Slot>>, slots: seq<Slot>)
    requires f.perGeneration > 0 && Inv(f, keys)
    ensures Inv(Insert(f, slots), keys + [slots])
  {
    var g, all, e := Insert(f, slots), keys + [slots], f.perGeneration;
    forall s: Slot ensures Recent(g, s) { InsertHolds(f, slots, s, 0); }
    Count(f);
    forall i: nat | i < |all| ensures Kept(g, all, i) {
      if i < |keys| {
        assert Kept(f, keys, i);
        AgeBound(i, f);
        forall s | s in all[i] && i / e >= g.generation - 2 ensures Held(g, s, i / e) {
          assert Held(f, s, i / e);
          InsertHolds(f, slots, s, i / e);
        }
      } else {
        QuotientIs(i, g.generation, e, g.entries - 1);
        forall s | s in slots ensures Held(g, s, g.generation) { InsertHolds(f, slots, s, 0); }
      }
    }
  }

  /** The count of insertions after one more. */
  lemma Count(f: Filter)
    requires f.perGeneration > 0 && f.entries <= f.perGeneration
    ensures var g := Rotated(f);
            && g.generation * g.perGeneration + g.entries == f.generation * f.perGeneration + f.entries
            && g.entries < g.perGeneration
  {
    assert (f.generation + 1) * f.perGeneration == f.generation * f.perGeneration + f.perGeneration;
  }

  /** An earlier insertion happened in this generation or an earlier one. */
  lemma AgeBound(i: nat, f: Filter)
    requires f.perGeneration > 0 && f.entries <= f.perGeneration
    requires i < f.generation * f.perGeneration + f.entries
    ensures 0 <= i / f.perGeneration <= f.generation
  {
    var e := f.perGeneration;
    assert e * (f.generation + 1) == f.generation * e + e;
    DivLess(i, e, f.generation + 1);
    DivAtLeast(i, e, 0);
  }

  lemma {:induction false} RunKeeps(perGeneration: nat, keys: seq<seq<Slot>>)
    requires perGeneration > 0
    ensures Run(perGeneration, keys).perGeneration == perGeneration && Inv(Run(perGeneration, keys), keys)
  {
    if keys != [] {
      var n := |keys| - 1;
      RunKeeps(perGeneration, keys[..n]);
      InsertKeeps(Run(perGeneration, keys[..n]), keys[..n], keys[n]);
      assert keys == keys[..n] + [keys[n]];
    }
  }

  /** Every key of the two last full generations and of the current one is contained. */
  lemma RecentContained(perGeneration: nat, keys: seq<seq<Slot>>, i: nat)
    requires perGeneration > 0 && i < |keys|
    requires |keys| - i <= 2 * perGeneration + Run(perGeneration, keys).entries
    ensures Contains(Run(perGeneration, keys), keys[i])
  {
    var f := Run(perGeneration, keys);
    RunKeeps(perGeneration, keys);
    assert Kept(f, keys, i);
    TwoFewer(perGeneration, f.generation);
    DivAtLeast(i, perGeneration, f.generation - 2);
    forall s | s in keys[i] ensures s in f.marks { assert Held(f, s, i / perGeneration); }
  }

  lemma TwoFewer(e: int, g: int)
    ensures e * (g - 2) == g * e - 2 * e
  {
  }

  /** A filter made for so many elements contains at least so many of the last ones. */
  lemma LastElementsContained(nElements: nat, keys: seq<seq<Slot>>, i: nat)
    requires nElements > 0 && i < |keys| && |keys| - i <= nElements
    ensures Contains(Run((nElements + 1) / 2, keys), keys[i])
  {
    RecentContained((nElements + 1) / 2, keys, i);
  }
}
