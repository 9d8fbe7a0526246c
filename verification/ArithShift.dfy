/** Shifts over the words of an unsigned integer, by any number of bits. */
module ArithShift {
  import opened Arithmetic
  import opened Limbs
  import opened Arith256

  /** A word times a power of two, as two words. */
  lemma SplitShift(w: Word, u: nat)
    requires u <= 32
    ensures var hi, lo := w / Pow2(32 - u), Low(w * Pow2(u));
            && w * Pow2(u) == hi * BASE + lo
            && 0 <= hi < BASE && hi < Pow2(u) && lo % Pow2(u) == 0
  {
    Pow2Word();
    Pow2Add(u, 32 - u);
    SplitByFactor(w, Pow2(u), Pow2(32 - u));
  }

  lemma SplitByFactor(w: int, p: int, d: int)
    requires p * d == BASE && p >= 1 && d >= 1 && 0 <= w < BASE
    ensures var hi, lo := w / d, (w * p) % BASE;
            && w * p == hi * BASE + lo
            && 0 <= hi <= w && hi < p && lo % p == 0
  {
    var hi, r := w / d, w % d;
    DivLess(w, d, p);
    SplitNumbers(w, d, p, hi, r);
    DivUnique(w * p, BASE, hi, r * p);
    DivUnique(r * p, p, r, 0);
    MulMonotone(hi, 1, d);
  }

  lemma SplitNumbers(w: int, d: int, p: int, hi: int, r: int)
    requires w == d * hi + r && p * d == BASE && 0 <= r < d && p >= 1
    ensures w * p == BASE * hi + r * p && 0 <= r * p < BASE
  {
    Distributes(d * hi, r, p);
    Reorder(d, hi, p);
    assert (hi * p) * d == hi * (p * d);
    MulMonotone(p, r, d - 1);
    assert p * (d - 1) == BASE - p;
  }

  /** Adding to a word, or losing what would go above the top one. */
  function Store(s: seq<Word>, m: nat, v: Word): seq<Word>
    requires m < |s| ==> s[m] + v < BASE
  {
    if m < |s| then s[m := s[m] + v] else s
  }

  lemma StoreVal(s: seq<Word>, m: nat, v: Word) returns (lost: int)
    requires m < |s| ==> s[m] + v < BASE
    ensures Val(Store(s, m, v)) + lost * Power(|s|) == Val(s) + v * Power(m)
  {
    if m < |s| {
      ValUpdate(s, m, s[m] + v);
      lost := 0;
    } else {
      PowerAdd(m - |s|, |s|);
      lost := v * Power(m - |s|);
      Associates(v, Power(m - |s|), Power(|s|));
    }
  }

  /** The words that the left shift has filled so far. */
  ghost predicate Filled(s: seq<Word>, top: nat, t: nat) {
    && (forall m :: top < m < |s| ==> s[m] == 0)
    && (top < |s| ==> s[top] < Pow2(t))
  }

  method ShiftLeftAssign(pn: array<Word>, nShift: nat)
    modifies pn
    ensures Val(pn[..]) == (old(Val(pn[..])) * Pow2(nShift)) % Power(pn.Length)
  {
    var a := Copy(pn);
    ghost var x := a[..];
    SetZero(pn);
    var k, shift := nShift / 32, nShift % 32;
    ghost var q, f := 0, Pow2(shift) * Power(k);
    assert Val(x[..0]) * f == 0;
    for i := 0 to pn.Length
      invariant a[..] == x
      invariant Filled(pn[..], i + k, shift)
      invariant Val(pn[..]) + q * Power(pn.Length) == Val(x[..i]) * f
    {
      ghost var s', lost := LeftStep(pn[..], x, i, k, shift, q);
      LeftWord(pn, i + k, shift, a[i]);
      q := lost;
    }
    assert x[..pn.Length] == x;
    ShiftFactor(nShift);
    DropCarry(pn[..], q, Val(x) * f);
  }

  /** Where the two halves of a word go; ones are never set twice. */
  ghost function Placed(s: seq<Word>, m: nat, t: nat, w: Word): (r: seq<Word>)
    requires t < 32 && Filled(s, m, t)
    ensures |r| == |s| && Filled(r, m + 1, t)
  {
    SplitShift(w, t);
    var hi, lo := w / Pow2(32 - t), Low(w * Pow2(t));
    assert m < |s| ==> s[m] + lo < BASE by { if m < |s| { LowRoom(s[m], lo, t); } }
    Store(Store(s, m + 1, hi), m, lo)
  }

  method LeftWord(pn: array<Word>, m: nat, shift: nat, w: Word)
    requires shift < 32 && Filled(pn[..], m, shift)
    modifies pn
    ensures pn[..] == Placed(old(pn[..]), m, shift, w)
  {
    SplitShift(w, shift);
    if m + 1 < pn.Length && shift != 0 {
      pn[m + 1] := Or(pn[m + 1], w / Pow2(32 - shift));
    }
    if m < pn.Length {
      LowRoom(pn[m], Low(w * Pow2(shift)), shift);
      OrAdds(pn[m], Low(w * Pow2(shift)), shift);
      pn[m] := Or(pn[m], Low(w * Pow2(shift)));
    }
  }

  lemma ShiftFactor(nShift: nat)
    ensures Pow2(nShift) == Pow2(nShift % 32) * Power(nShift / 32)
  {
    PowerPow2(nShift / 32);
    Pow2Add(nShift % 32, 32 * (nShift / 32));
  }

  /** One word of the left shift: its halves go to two neighbouring words. */
  lemma LeftStep(s: seq<Word>, x: seq<Word>, i: nat, k: nat, t: nat, q: int) returns (s': seq<Word>, q': int)
    requires |s| == |x| && i < |x| && t < 32 && Filled(s, i + k, t)
    requires Val(s) + q * Power(|s|) == Val(x[..i]) * (Pow2(t) * Power(k))
    ensures s' == Placed(s, i + k, t, x[i])
    ensures Val(s') + q' * Power(|s|) == Val(x[..i + 1]) * (Pow2(t) * Power(k))
  {
    SplitShift(x[i], t);
    var hi, lo := x[i] / Pow2(32 - t), Low(x[i] * Pow2(t));
    s' := Placed(s, i + k, t, x[i]);
    if i + k < |s| { LowRoom(s[i + k], lo, t); }
    var s1 := Store(s, i + k + 1, hi);
    var d1 := StoreVal(s, i + k + 1, hi);
    var d2 := StoreVal(s1, i + k, lo);
    q' := q + d1 + d2;
    Distributes(q + d1, d2, Power(|s|));
    Distributes(q, d1, Power(|s|));
    ValPrefix(x, i);
    PowerAdd(i, k);
    LeftNumbers(Val(x[..i]), x[i], Power(i), Pow2(t), Power(k), hi, lo);
  }

  lemma LowRoom(v: Word, lo: Word, t: nat)
    requires t <= 32 && v < Pow2(t) && lo % Pow2(t) == 0
    ensures v + lo < BASE
  {
    Pow2Word();
    Pow2Add(t, 32 - t);
    RoomNumbers(lo, Pow2(t), Pow2(32 - t));
  }

  lemma RoomNumbers(lo: int, p: int, d: int)
    requires p * d == BASE && p >= 1 && 0 <= lo < BASE && lo % p == 0
    ensures lo <= BASE - p
  {
    var j := lo / p;
    assert lo == p * j;
    if d <= j { MulMonotone(p, d, j); }
    MulMonotone(p, j, d - 1);
    assert p * (d - 1) == p * d - p;
  }

  lemma LeftNumbers(v: int, w: int, pi: int, two: int, pk: int, hi: int, lo: int)
    requires w * two == hi * BASE + lo
    ensures (v + w * pi) * (two * pk) == v * (two * pk) + hi * (BASE * (pi * pk)) + lo * (pi * pk)
  {
    Distributes(v, w * pi, two * pk);
    var p := pi * pk;
    assert (w * pi) * (two * pk) == (w * two) * p by {
      Associates(w, pi, two * pk);
      assert pi * (two * pk) == two * (pi * pk);
      Associates(w, two, p);
    }
    Distributes(hi * BASE, lo, p);
    Associates(hi, BASE, p);
  }

  /** The words that the right shift has filled so far. */
  ghost predicate FilledBelow(s: seq<Word>, j: int, t: nat)
    requires t <= 32
  {
    && (forall m :: 0 <= m < |s| && j <= m ==> s[m] == 0)
    && (0 < j <= |s| ==> s[j - 1] < Pow2(32 - t))
  }

  ghost function PlacedBelow(s: seq<Word>, j: nat, t: nat, w: Word): (r: seq<Word>)
    requires t < 32 && j < |s| && FilledBelow(s, j, t)
    ensures |r| == |s| && FilledBelow(r, j + 1, t)
  {
    SplitShift(w, 32 - t);
    var hi, lo := w / Pow2(t), Low(w * Pow2(32 - t));
    assert j > 0 ==> s[j - 1] + lo < BASE by { if j > 0 { LowRoom(s[j - 1], lo, 32 - t); } }
    Store(if j > 0 then Store(s, j - 1, lo) else s, j, hi)
  }

  method RightWord(pn: array<Word>, j: nat, shift: nat, w: Word)
    requires shift < 32 && j < pn.Length && FilledBelow(pn[..], j, shift)
    modifies pn
    ensures pn[..] == PlacedBelow(old(pn[..]), j, shift, w)
  {
    SplitShift(w, 32 - shift);
    if j - 1 >= 0 && shift != 0 {
      LowRoom(pn[j - 1], Low(w * Pow2(32 - shift)), 32 - shift);
      OrAdds(pn[j - 1], Low(w * Pow2(32 - shift)), 32 - shift);
      pn[j - 1] := Or(pn[j - 1], Low(w * Pow2(32 - shift)));
    } else if j - 1 >= 0 {
      Pow2Word();
      DivUnique(w * BASE, BASE, w, 0);
    }
    pn[j] := Or(pn[j], w / Pow2(shift));
  }

  /** What the words seen so far can leave over at most. */
  ghost function Slack(i: nat, k: nat, t: nat): nat {
    if i <= k then Power(i) else Pow2(t) * Power(k)
  }

  method ShiftRightAssign(pn: array<Word>, nShift: nat)
    modifies pn
    ensures Val(pn[..]) == old(Val(pn[..])) / Pow2(nShift)
  {
    var a := Copy(pn);
    ghost var x := a[..];
    SetZero(pn);
    var k, shift := nShift / 32, nShift % 32;
    ghost var r, f := 0, Pow2(shift) * Power(k);
    for i := 0 to pn.Length
      invariant a[..] == x
      invariant FilledBelow(pn[..], i - k, shift)
      invariant 0 <= r < Slack(i, k, shift) && Val(x[..i]) == Val(pn[..]) * f + r
    {
      r := RightStep(pn[..], x, i, k, shift, r);
      if i - k >= 0 {
        RightWord(pn, i - k, shift, a[i]);
      }
    }
    assert x[..pn.Length] == x;
    ShiftFactor(nShift);
    SlackBound(pn.Length, k, shift);
    QuotientIs(Val(x), Val(pn[..]), f, r);
  }

  lemma SlackBound(i: nat, k: nat, t: nat)
    ensures Slack(i, k, t) <= Pow2(t) * Power(k)
  {
    if i <= k {
      PowerAdd(i, k - i);
      MulMonotone(Power(i), 1, Power(k - i));
      MulMonotone(Power(k), 1, Pow2(t));
    }
  }

  lemma RightStep(s: seq<Word>, x: seq<Word>, i: nat, k: nat, t: nat, r: int) returns (r': int)
    requires |s| == |x| && i < |x| && t < 32 && FilledBelow(s, i - k, t)
    requires 0 <= r < Slack(i, k, t) && Val(x[..i]) == Val(s) * (Pow2(t) * Power(k)) + r
    ensures 0 <= r' < Slack(i + 1, k, t)
    ensures var s' := if i < k then s else PlacedBelow(s, i - k, t, x[i]);
            Val(x[..i + 1]) == Val(s') * (Pow2(t) * Power(k)) + r'
  {
    ValPrefix(x, i);
    if i <= k {
      ValZero(s);
      assert Val(s) * (Pow2(t) * Power(k)) == 0;
      ValBound(x[..i]);
      ValBound(x[..i + 1]);
      r' := Val(x[..i + 1]);
      if i == k { r' := FirstWord(s, x, k, t, r); }
    } else {
      r' := r;
      LaterWord(s, x[i], i, k, t);
      Distributes(Val(PlacedBelow(s, i - k, t, x[i])) - Val(s), Val(s), Pow2(t) * Power(k));
    }
  }

  lemma FirstWord(s: seq<Word>, x: seq<Word>, k: nat, t: nat, r: int) returns (r': int)
    requires |s| == |x| && k < |x| && t < 32 && FilledBelow(s, 0, t) && 0 <= r < Power(k)
    ensures 0 <= r' < Pow2(t) * Power(k)
    ensures r + x[k] * Power(k) == Val(PlacedBelow(s, 0, t, x[k])) * (Pow2(t) * Power(k)) + r'
  {
    SplitShift(x[k], 32 - t);
    var w, p, two := x[k], Power(k), Pow2(t);
    var hi, rem := w / two, w % two;
    DivMod(w, two);
    ValZero(s);
    ValUpdate(s, 0, hi);
    r' := r + rem * p;
    FirstNumbers(w, p, two, hi, rem, r);
  }

  lemma FirstNumbers(w: int, p: int, two: int, hi: int, rem: int, r: int)
    requires w == two * hi + rem && 0 <= rem < two && p >= 1 && 0 <= r < p
    ensures r + w * p == hi * (two * p) + r + rem * p && 0 <= r + rem * p < two * p
  {
    Distributes(two * hi, rem, p);
    Associates(hi, two, p);
    MulMonotone(p, rem, two - 1);
    MulMonotone(p, 0, rem);
    Distributes(two, -1, p);
  }

  lemma LaterWord(s: seq<Word>, w: Word, i: nat, k: nat, t: nat)
    requires k < i < |s| && t < 32 && FilledBelow(s, i - k, t)
    ensures (Val(PlacedBelow(s, i - k, t, w)) - Val(s)) * (Pow2(t) * Power(k)) == w * Power(i)
  {
    var j := i - k;
    PlacedVal(s, j, t, w);
    SplitShift(w, 32 - t);
    PowerAdd(j, k);
    Pow2Word();
    Pow2Add(32 - t, t);
    LaterNumbers(w, Pow2(32 - t), Pow2(t), Power(j - 1), Power(k), w / Pow2(t), Low(w * Pow2(32 - t)));
  }

  lemma PlacedVal(s: seq<Word>, j: nat, t: nat, w: Word)
    requires 0 < j < |s| && t < 32 && FilledBelow(s, j, t)
    ensures Val(PlacedBelow(s, j, t, w)) - Val(s)
         == Low(w * Pow2(32 - t)) * Power(j - 1) + (w / Pow2(t)) * Power(j)
  {
    SplitShift(w, 32 - t);
    var hi, lo := w / Pow2(t), Low(w * Pow2(32 - t));
    LowRoom(s[j - 1], lo, 32 - t);
    StoreBoth(s, j, lo, hi);
  }

  lemma StoreBoth(s: seq<Word>, j: nat, lo: Word, hi: Word)
    requires 0 < j < |s| && s[j] == 0 && s[j - 1] + lo < BASE
    ensures Val(Store(Store(s, j - 1, lo), j, hi)) - Val(s) == lo * Power(j - 1) + hi * Power(j)
  {
    ValUpdate(s, j - 1, s[j - 1] + lo);
    ValUpdate(Store(s, j - 1, lo), j, hi);
  }

  lemma LaterNumbers(w: int, u: int, two: int, p: int, pk: int, hi: int, lo: int)
    requires w * u == hi * BASE + lo && u * two == BASE
    ensures (lo * p + hi * (BASE * p)) * (two * pk) == w * ((BASE * p) * pk)
  {
    assert lo * p + hi * (BASE * p) == (w * u) * p by {
      Distributes(hi * BASE, lo, p);
      Associates(hi, BASE, p);
    }
    Associates(w, u, p);
    Associates(w, u * p, two * pk);
    assert (u * p) * (two * pk) == (u * two) * (p * pk) by {
      Associates(u, p, two * pk);
      Associates(u, two, p * pk);
      assert p * (two * pk) == two * (p * pk);
    }
    Associates(BASE, p, pk);
  }
}
