/** The rolling Bloom filter as an object: two bits per position, held in separate words. */
module RollingBloomFilter {
  import opened Arithmetic
  import opened RollingBloom

  predicate Bit(x: bv64, b: bv64)
    requires b < 64
  {
    (x >> b) & 1 == 1
  }

  /** A word with all bits equal. */
  function Spread(g: bool): bv64 {
    if g then 0xffff_ffff_ffff_ffff else 0
  }

  function One(g: bool): bv64 {
    if g then 1 else 0
  }

  lemma PutBit(x: bv64, b: bv64, c: bv64, g: bool)
    requires b < 64 && c < 64
    ensures Bit((x & !(1 << b)) | (One(g) << b), c) <==> if c == b then g else Bit(x, c)
  {
  }

  /** Overwrites one bit. */
  method Put(x: bv64, b: bv64, g: bool) returns (y: bv64)
    requires b < 64
    ensures forall c: bv64 | c < 64 :: Bit(y, c) <==> if c == b then g else Bit(x, c)
  {
    y := (x & !(1 << b)) | (One(g) << b);
    forall c: bv64 | c < 64 ensures Bit(y, c) <==> if c == b then g else Bit(x, c) { PutBit(x, b, c, g); }
  }

  method EitherBit(x: bv64, y: bv64, c: bv64) returns (r: bool)
    requires c < 64
    ensures r <==> Bit(x, c) || Bit(y, c)
  {
    BitOr(x, y, c);
    r := ((x | y) >> c) & 1 == 1;
  }

  lemma BitOr(x: bv64, y: bv64, c: bv64)
    requires c < 64
    ensures Bit(x | y, c) <==> Bit(x, c) || Bit(y, c)
  {
  }

  /** The generation number of a position: zero when unset, else one, two or three. */
  function Number(p1: bv64, p2: bv64, c: bv64): nat
    requires c < 64
  {
    (if Bit(p1, c) then 1 else 0) + (if Bit(p2, c) then 2 else 0)
  }

  /** Stores a generation number at one position of a pair of words. */
  method PutNumber(p1: bv64, p2: bv64, b: bv64, nGeneration: nat) returns (q1: bv64, q2: bv64)
    requires b < 64 && 1 <= nGeneration <= 3
    ensures forall c: bv64 | c < 64 :: Number(q1, q2, c) == if c == b then nGeneration else Number(p1, p2, c)
  {
    q1 := Put(p1, b, nGeneration % 2 == 1);
    q2 := Put(p2, b, nGeneration / 2 == 1);
  }

  /** Ones survive unless both words show the wiped number at their place. */
  lemma WipeFirst(p1: bv64, p2: bv64, g1: bool, g2: bool, c: bv64)
    requires c < 64
    ensures Bit(p1 & ((p1 ^ Spread(g1)) | (p2 ^ Spread(g2))), c) <==> Bit(p1, c) && !(g1 && Bit(p2, c) == g2)
  {
  }

  lemma WipeSecond(p1: bv64, p2: bv64, g1: bool, g2: bool, c: bv64)
    requires c < 64
    ensures Bit(p2 & ((p1 ^ Spread(g1)) | (p2 ^ Spread(g2))), c) <==> Bit(p2, c) && !(Bit(p1, c) == g1 && g2)
  {
  }

  /** Wipes the positions that hold a generation number from a pair of words. */
  method Wipe(p1: bv64, p2: bv64, nGeneration: nat) returns (q1: bv64, q2: bv64)
    requires 1 <= nGeneration <= 3
    ensures forall c: bv64 | c < 64 ::
              Number(q1, q2, c) == if Number(p1, p2, c) == nGeneration then 0 else Number(p1, p2, c)
  {
    var g1, g2 := nGeneration % 2 == 1, nGeneration / 2 == 1;
    q1 := FirstMasked(p1, p2, g1, g2);
    q2 := SecondMasked(p1, p2, g1, g2);
  }

  method FirstMasked(p1: bv64, p2: bv64, g1: bool, g2: bool) returns (q1: bv64)
    ensures forall c: bv64 | c < 64 :: Bit(q1, c) <==> Bit(p1, c) && !(g1 && Bit(p2, c) == g2)
  {
    q1 := p1 & ((p1 ^ Spread(g1)) | (p2 ^ Spread(g2)));
    forall c: bv64 | c < 64 ensures Bit(q1, c) <==> Bit(p1, c) && !(g1 && Bit(p2, c) == g2) {
      WipeFirst(p1, p2, g1, g2, c);
    }
  }

  method SecondMasked(p1: bv64, p2: bv64, g1: bool, g2: bool) returns (q2: bv64)
    ensures forall c: bv64 | c < 64 :: Bit(q2, c) <==> Bit(p2, c) && !(Bit(p1, c) == g1 && g2)
  {
    q2 := p2 & ((p1 ^ Spread(g1)) | (p2 ^ Spread(g2)));
    forall c: bv64 | c < 64 ensures Bit(q2, c) <==> Bit(p2, c) && !(Bit(p1, c) == g1 && g2) {
      WipeSecond(p1, p2, g1, g2, c);
    }
  }

  /** The number under which a slot's mark is stored. */
  function Stored(marks: map<Slot, nat>, s: Slot): nat {
    if s in marks then 1 + marks[s] % 3 else 0
  }

  /** A pair of words holds the numbers of its slots' marks. */
  ghost predicate PairShows(p1: bv64, p2: bv64, marks: map<Slot, nat>, w: nat) {
    forall c: bv64 | c < 64 :: Number(p1, p2, c) == Stored(marks, Slot(w, c))
  }

  lemma PairWiped(p1: bv64, p2: bv64, q1: bv64, q2: bv64, f: Filter, w: nat)
    requires PairShows(p1, p2, f.marks, w) && f.entries == f.perGeneration
    requires var n := 1 + (f.generation + 1) % 3;
             forall c: bv64 | c < 64 :: Number(q1, q2, c) == if Number(p1, p2, c) == n then 0 else Number(p1, p2, c)
    ensures PairShows(q1, q2, Rotated(f).marks, w)
  {
    forall c: bv64 | c < 64 ensures Number(q1, q2, c) == Stored(Rotated(f).marks, Slot(w, c)) {
      assert Number(p1, p2, c) == Stored(f.marks, Slot(w, c));
    }
  }

  lemma PairSet(p1: bv64, p2: bv64, q1: bv64, q2: bv64, marks: map<Slot, nat>, s: Slot, generation: nat)
    requires PairShows(p1, p2, marks, s.pair) && s.bit < 64
    requires var n := 1 + generation % 3;
             forall c: bv64 | c < 64 :: Number(q1, q2, c) == if c == s.bit then n else Number(p1, p2, c)
    ensures PairShows(q1, q2, marks[s := generation], s.pair)
  {
    forall c: bv64 | c < 64 ensures Number(q1, q2, c) == Stored(marks[s := generation], Slot(s.pair, c)) {
      assert Number(p1, p2, c) == Stored(marks, Slot(s.pair, c));
      assert Slot(s.pair, c) == s <==> c == s.bit;
    }
  }

  lemma PairUntouched(p1: bv64, p2: bv64, marks: map<Slot, nat>, s: Slot, generation: nat, w: nat)
    requires PairShows(p1, p2, marks, w) && w != s.pair
    ensures PairShows(p1, p2, marks[s := generation], w)
  {
    forall c: bv64 | c < 64 ensures Number(p1, p2, c) == Stored(marks[s := generation], Slot(w, c)) {
      assert Slot(w, c) != s;
    }
  }

  lemma MarkNext(marks: map<Slot, nat>, slots: seq<Slot>, s: Slot, generation: nat)
    ensures MarkAll(marks, slots + [s], generation) == MarkAll(marks, slots, generation)[s := generation]
  {
    assert (slots + [s])[..|slots|] == slots;
  }

  class CRollingBloomFilter<Key(==)> {
    const nHashFuncs: nat
    const nEntriesPerGeneration: nat
    /** RollingBloomHash, with the number of the hash function, the tweak and the key. */
    const hash: (nat, bv32, Key) -> bv32
    const data: array<bv64>
    var nEntriesThisGeneration: nat
    var nGeneration: nat
    var nTweak: bv32
    /** The insertions since the last reset. */
    ghost var history: seq<Key>

    /** Where a key's n-th hash points. */
    function SlotOf(n: nat, tweak: bv32, key: Key): (s: Slot)
      requires data.Length > 0
      ensures s.bit < 64 && (data.Length % 2 == 0 ==> 2 * s.pair + 1 < data.Length)
    {
      var h := hash(n, tweak, key);
      Slot(PairOf((h >> 6) as nat, data.Length), (h & 0x3f) as bv64)
    }

    /** The lowest bit of the position is ignored: both words of a pair are used. */
    static function PairOf(h: nat, size: nat): (r: nat)
      requires size > 0
      ensures size % 2 == 0 ==> 2 * r + 1 < size
    {
      DivMod(h, size);
      h % size / 2
    }

    function SlotsOf(n: nat, tweak: bv32, key: Key): (r: seq<Slot>)
      requires data.Length > 0
      ensures |r| == n && forall i :: 0 <= i < n ==> r[i] == SlotOf(i, tweak, key)
    {
      if n == 0 then [] else SlotsOf(n - 1, tweak, key) + [SlotOf(n - 1, tweak, key)]
    }

    ghost function Keys(): seq<seq<Slot>>
      requires data.Length > 0
      reads this
    {
      seq(|history|, i requires 0 <= i < |history| reads this => SlotsOf(nHashFuncs, nTweak, history[i]))
    }

    /** The filter that the insertions make. */
    ghost function State(): Filter
      requires data.Length > 0
      reads this
    {
      Run(nEntriesPerGeneration, Keys())
    }

    ghost predicate Shows(marks: map<Slot, nat>, w: nat)
      reads data
    {
      2 * w + 1 < data.Length ==> PairShows(data[2 * w], data[2 * w + 1], marks, w)
    }

    ghost predicate ShowsAll(marks: map<Slot, nat>)
      reads data
    {
      forall w: nat :: Shows(marks, w)
    }

    ghost predicate Valid()
      reads this, data
    {
      && data.Length > 0 && data.Length % 2 == 0 && nEntriesPerGeneration > 0
      && nEntriesThisGeneration == State().entries
      && nGeneration == 1 + State().generation % 3
      && ShowsAll(State().marks)
    }

    /** Sizes from the wanted number of elements; the numbers of bits and hash functions come from the wanted
        rate of false positives. */
    constructor (nElements: nat, nFilterBits: nat, nHashFuncs: nat, hash: (nat, bv32, Key) -> bv32, tweak: bv32)
      requires nElements > 0 && nFilterBits > 0
      ensures Valid() && history == [] && nEntriesPerGeneration == (nElements + 1) / 2
      ensures fresh(data) && this.hash == hash && this.nHashFuncs == nHashFuncs
    {
      this.nHashFuncs, this.hash := nHashFuncs, hash;
      nEntriesPerGeneration := (nElements + 1) / 2;
      data := new bv64[(nFilterBits + 63) / 64 * 2](_ => 0);
      nEntriesThisGeneration, nGeneration, nTweak := 0, 1, tweak;
      history := [];
      new;
      ZeroPairs();
    }

    lemma ZeroPairs()
      requires forall k :: 0 <= k < data.Length ==> data[k] == 0
      ensures ShowsAll(map[])
    {
      forall c: bv64 | c < 64 ensures !Bit(0, c) { ZeroBit(c); }
    }

    static lemma ZeroBit(c: bv64)
      requires c < 64
      ensures !Bit(0, c)
    {
    }

    method Reset(tweak: bv32)
      requires Valid()
      modifies this, data
      ensures Valid() && history == [] && nTweak == tweak
    {
      nTweak := tweak;
      nEntriesThisGeneration := 0;
      nGeneration := 1;
      history := [];
      for i := 0 to data.Length
        invariant forall k :: 0 <= k < i ==> data[k] == 0
        invariant nTweak == tweak && nEntriesThisGeneration == 0 && nGeneration == 1 && history == []
      {
        data[i] := 0;
      }
      ZeroPairs();
    }
  
    /** Wipes what is left of the generation number that is about to be used again. */
    method WipeOld(ghost f: Filter)
      requires data.Length % 2 == 0 && ShowsAll(f.marks) && f.entries == f.perGeneration
      requires nGeneration == 1 + (f.generation + 1) % 3
      modifies data
      ensures ShowsAll(Rotated(f).marks)
    {
      var p := 0;
      while p < data.Length
        invariant 0 <= p <= data.Length && p % 2 == 0
        invariant forall w: nat | w < p / 2 :: Shows(Rotated(f).marks, w)
        invariant forall w: nat | w >= p / 2 :: Shows(f.marks, w)
      {
        WipePair(p / 2, f);
        p := p + 2;
      }
    }

    method WipePair(i: nat, ghost f: Filter)
      requires 2 * i + 1 < data.Length && Shows(f.marks, i) && f.entries == f.perGeneration
      requires nGeneration == 1 + (f.generation + 1) % 3
      modifies data
      ensures Shows(Rotated(f).marks, i)
      ensures forall w: nat | w != i :: Shows(f.marks, w) == old(Shows(f.marks, w))
      ensures forall w: nat | w != i :: Shows(Rotated(f).marks, w) == old(Shows(Rotated(f).marks, w))
    {
      var p := 2 * i;
      var q1, q2 := Wipe(data[p], data[p + 1], nGeneration);
      PairWiped(data[p], data[p + 1], q1, q2, f, i);
      data[p], data[p + 1] := q1, q2;
    }

    /** Sets a slot for the current generation. */
    method SetSlot(s: Slot, ghost marks: map<Slot, nat>, ghost generation: nat)
      requires s.bit < 64 && 2 * s.pair + 1 < data.Length && ShowsAll(marks)
      requires nGeneration == 1 + generation % 3
      modifies data
      ensures ShowsAll(marks[s := generation])
    {
      var i := 2 * s.pair;
      var q1, q2 := PutNumber(data[i], data[i + 1], s.bit, nGeneration);
      assert Shows(marks, s.pair);
      PairSet(data[i], data[i + 1], q1, q2, marks, s, generation);
      data[i], data[i + 1] := q1, q2;
      ghost var next := marks[s := generation];
      forall w: nat ensures Shows(next, w) {
        assert old(Shows(marks, w));
        if w != s.pair && 2 * w + 1 < data.Length {
          PairUntouched(data[2 * w], data[2 * w + 1], marks, s, generation, w);
        }
      }
    }

    method Insert(key: Key)
      requires Valid()
      modifies this, data
      ensures Valid() && history == old(history) + [key] && nTweak == old(nTweak)
    {
      ghost var f, keys := State(), Keys();
      RunKeeps(nEntriesPerGeneration, keys);
      StartGeneration(f);
      ghost var g := Rotated(f);
      nEntriesThisGeneration := nEntriesThisGeneration + 1;
      MarkKey(key, g);
      history := history + [key];
      ghost var slots := SlotsOf(nHashFuncs, nTweak, key);
      assert Keys() == keys + [slots];
      assert Keys()[..|keys|] == keys;
    }

    method StartGeneration(ghost f: Filter)
      requires data.Length % 2 == 0 && ShowsAll(f.marks) && f.perGeneration == nEntriesPerGeneration
      requires nEntriesThisGeneration == f.entries && nGeneration == 1 + f.generation % 3
      modifies this`nEntriesThisGeneration, this`nGeneration, data
      ensures nEntriesThisGeneration == Rotated(f).entries && nGeneration == 1 + Rotated(f).generation % 3
      ensures ShowsAll(Rotated(f).marks)
    {
      if nEntriesThisGeneration == nEntriesPerGeneration {
        nEntriesThisGeneration := 0;
        nGeneration := nGeneration + 1;
        if nGeneration == 4 {
          nGeneration := 1;
        }
        WipeOld(f);
      }
    }

    method MarkKey(key: Key, ghost g: Filter)
      requires data.Length > 0 && data.Length % 2 == 0 && ShowsAll(g.marks)
      requires nGeneration == 1 + g.generation % 3
      modifies data
      ensures ShowsAll(MarkAll(g.marks, SlotsOf(nHashFuncs, nTweak, key), g.generation))
    {
      for n := 0 to nHashFuncs
        invariant ShowsAll(MarkAll(g.marks, SlotsOf(n, nTweak, key), g.generation))
      {
        var s := SlotOf(n, nTweak, key);
        ghost var marks := MarkAll(g.marks, SlotsOf(n, nTweak, key), g.generation);
        MarkNext(g.marks, SlotsOf(n, nTweak, key), s, g.generation);
        SetSlot(s, marks, g.generation);
      }
    }

    /** Whether every bit of a key is set; so it is for each of the last keys inserted. */
    method Contains(key: Key) returns (r: bool)
      requires Valid()
      ensures r <==> RollingBloom.Contains(State(), SlotsOf(nHashFuncs, nTweak, key))
      ensures (exists i :: |history| - 2 * nEntriesPerGeneration <= i < |history| && 0 <= i && history[i] == key) ==> r
    {
      ghost var slots, marks := SlotsOf(nHashFuncs, nTweak, key), State().marks;
      r := true;
      for n := 0 to nHashFuncs
        invariant r && forall k :: 0 <= k < n ==> slots[k] in marks
      {
        var s := SlotOf(n, nTweak, key);
        assert slots[n] == s && Shows(marks, s.pair);
        var isSet := EitherBit(data[2 * s.pair], data[2 * s.pair + 1], s.bit);
        assert Number(data[2 * s.pair], data[2 * s.pair + 1], s.bit) == Stored(marks, Slot(s.pair, s.bit));
        if !isSet {
          assert s in slots && s !in marks;
          AbsentNotRecent(key);
          return false;
        }
      }
    }

    /** A key that is not contained is not among the last ones. */
    lemma AbsentNotRecent(key: Key)
      requires Valid() && !RollingBloom.Contains(State(), SlotsOf(nHashFuncs, nTweak, key))
      ensures forall i :: |history| - 2 * nEntriesPerGeneration <= i < |history| && 0 <= i ==> history[i] != key
    {
      forall i | |history| - 2 * nEntriesPerGeneration <= i < |history| && 0 <= i ensures history[i] != key {
        assert Keys()[i] == SlotsOf(nHashFuncs, nTweak, history[i]);
        RecentContained(nEntriesPerGeneration, Keys(), i);
      }
    }
  }
}
