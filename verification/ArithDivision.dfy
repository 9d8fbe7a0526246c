/** Comparison, bit length and shift-subtract division of unsigned integers held in words. */
module ArithDivision {
  import opened Arithmetic
  import opened Limbs
  import opened Arith256
  import opened ArithShift

  method CompareTo(pn: array<Word>, b: array<Word>) returns (c: int)
    requires pn.Length == b.Length
    ensures c == if Val(pn[..]) < Val(b[..]) then -1 else if Val(pn[..]) > Val(b[..]) then 1 else 0
  {
    for i := pn.Length downto 0
      invariant forall k :: i <= k < pn.Length ==> pn[k] == b[k]
    {
      if pn[i] < b[i] {
        TopDiffers(pn[..], b[..], i);
        return -1;
      }
      if pn[i] > b[i] {
        TopDiffers(b[..], pn[..], i);
        return 1;
      }
    }
    assert pn[..] == b[..];
    return 0;
  }

  /** The highest word in which two numbers differ decides their order. */
  lemma TopDiffers(s: seq<Word>, t: seq<Word>, i: nat)
    requires |s| == |t| && i < |s| && s[i] < t[i]
    requires forall k :: i < k < |s| ==> s[k] == t[k]
    ensures Val(s) < Val(t)
  {
    assert s[i + 1..] == t[i + 1..];
    ValSplit(s, i + 1);
    ValSplit(t, i + 1);
    ValPrefix(s, i);
    ValPrefix(t, i);
    ValBound(s[..i]);
    BelowMultiple(Val(s[..i]), s[i], t[i], Power(i));
  }

  lemma BelowMultiple(v: int, x: int, y: int, p: int)
    requires 0 <= v < p && x < y
    ensures x * p <= v + x * p < y * p
  {
    MulMonotone(p, x + 1, y);
    Distributes(x, 1, p);
  }

  predicate BitSet(w: Word, bit: nat) {
    (w / Pow2(bit)) % 2 == 1
  }

  lemma TopBit(w: Word, bit: nat)
    requires w < Pow2(bit + 1)
    ensures BitSet(w, bit) <==> Pow2(bit) <= w
  {
    QuotientBit(w, Pow2(bit));
  }

  lemma QuotientBit(w: int, p: int)
    requires p > 0 && 0 <= w < 2 * p
    ensures (w / p) % 2 == 1 <==> p <= w
  {
    DivLess(w, p, 2);
    DivAtLeast(w, p, 0);
    if p <= w { DivAtLeast(w, p, 1); } else { DivLess(w, p, 1); }
  }

  /** The position of the highest one plus one, or zero for zero. */
  method Bits(pn: array<Word>) returns (n: nat)
    ensures n <= 32 * pn.Length
    ensures n == 0 <==> Val(pn[..]) == 0
    ensures n > 0 ==> Pow2(n - 1) <= Val(pn[..]) < Pow2(n)
  {
    for pos := pn.Length downto 0
      invariant forall k :: pos <= k < pn.Length ==> pn[k] == 0
    {
      if pn[pos] != 0 {
        var bit := WordBits(pn[pos]);
        TopWord(pn[..], pos, bit);
        return 32 * pos + bit + 1;
      }
    }
    ValZero(pn[..]);
    return 0;
  }

  method WordBits(w: Word) returns (bit: nat)
    requires w != 0
    ensures bit < 32 && Pow2(bit) <= w < Pow2(bit + 1)
  {
    bit := 31;
    Pow2Word();
    while bit > 0
      invariant bit < 32 && w < Pow2(bit + 1)
    {
      TopBit(w, bit);
      if BitSet(w, bit) { return; }
      bit := bit - 1;
    }
  }

  lemma TopWord(s: seq<Word>, pos: nat, bit: nat)
    requires pos < |s| && Pow2(bit) <= s[pos] < Pow2(bit + 1)
    requires forall k :: pos < k < |s| ==> s[k] == 0
    ensures Pow2(32 * pos + bit) <= Val(s) < Pow2(32 * pos + bit + 1)
  {
    var v, p := Val(s[..pos]), Power(pos);
    assert Val(s) == v + s[pos] * p by {
      ValSplit(s, pos + 1);
      ValZero(s[pos + 1..]);
      ValPrefix(s, pos);
    }
    ValBound(s[..pos]);
    BelowMultiple(v, s[pos], Pow2(bit + 1), p);
    BelowOrEqual(Pow2(bit), s[pos], p);
    assert Pow2(32 * pos + bit) == Pow2(bit) * p && Pow2(32 * pos + bit + 1) == Pow2(bit + 1) * p by {
      PowerPow2(pos);
      Pow2Add(bit, 32 * pos);
      Pow2Add(bit + 1, 32 * pos);
    }
  }

  lemma BelowOrEqual(x: int, y: int, p: int)
    requires x <= y && p >= 0
    ensures x * p <= y * p
  {
    MulMonotone(p, x, y);
  }

  /** The lowest e bits are zero. */
  ghost predicate LowClear(s: seq<Word>, e: nat) {
    && (forall m :: 0 <= m < |s| && m < e / 32 ==> s[m] == 0)
    && (e / 32 < |s| ==> s[e / 32] % Pow2(e % 32) == 0)
  }

  /** Sets a bit below which all are zero. */
  method SetBit(pn: array<Word>, e: nat)
    requires e / 32 < pn.Length && LowClear(pn[..], e + 1)
    modifies pn
    ensures Val(pn[..]) == old(Val(pn[..])) + Pow2(e) && LowClear(pn[..], e)
  {
    var m, bit := e / 32, e % 32;
    ghost var s := pn[..];
    BitAdded(s, e);
    pn[m] := Or(pn[m], Pow2(bit));
    assert pn[..] == s[m := s[m] + Pow2Bit(bit)];
  }

  /** Setting a bit of a word in which it and the lower ones are zero. */
  lemma OrBit(w: Word, bit: nat)
    requires bit < 32 && w % Pow2(bit + 1) == 0
    ensures Or(w, Pow2(bit)) == w + Pow2(bit) < BASE
  {
    Pow2Add(1, bit);
    LowRoom(Pow2Bit(bit), w, bit + 1);
    OrSymmetric(w, Pow2(bit));
    OrAdds(Pow2(bit), w, bit + 1);
  }

  lemma BitAdded(s: seq<Word>, e: nat)
    requires e / 32 < |s| && LowClear(s, e + 1)
    ensures var m, bit := e / 32, e % 32;
            && Or(s[m], Pow2(bit)) == s[m] + Pow2(bit) < BASE
            && Val(s[m := s[m] + Pow2Bit(bit)]) == Val(s) + Pow2(e)
            && LowClear(s[m := s[m] + Pow2Bit(bit)], e)
  {
    var m, bit := e / 32, e % 32;
    ClearWord(s, e);
    OrBit(s[m], bit);
    ValUpdate(s, m, s[m] + Pow2Bit(bit));
    ShiftFactor(e);
  }

  function Pow2Bit(bit: nat): Word
    requires bit < 32
  {
    Pow2Word();
    Pow2Add(bit, 31 - bit);
    MulMonotone(Pow2(bit), 1, Pow2(31 - bit));
    Pow2(bit)
  }

  lemma ClearWord(s: seq<Word>, e: nat)
    requires e / 32 < |s| && LowClear(s, e + 1)
    ensures s[e / 32] % Pow2(e % 32 + 1) == 0 && LowClear(s, e)
    ensures (s[e / 32] + Pow2(e % 32)) % Pow2(e % 32) == 0
  {
    var m, bit := e / 32, e % 32;
    if bit == 31 {
      assert (e + 1) / 32 == m + 1 && s[m] == 0;
      DivUnique(0, Pow2(bit + 1), 0, 0);
    } else {
      assert (e + 1) / 32 == m && (e + 1) % 32 == bit + 1;
    }
    var p, q := Pow2(bit), s[m] / (2 * Pow2(bit));
    DivMod(s[m], 2 * p);
    assert s[m] == p * (2 * q) by { Associates(2, p, q); Associates(p, 2, q); }
    DivUnique(s[m], p, 2 * q, 0);
    Distributes(2 * q, 1, p);
    DivUnique(s[m] + p, p, 2 * q + 1, 0);
  }

  /** What holds before the quotient bit at a position is decided: the bits above it are right. */
  ghost predicate Dividing(q: int, num: int, x: int, y: int, bound: int) {
    x == q * y + num && 0 <= num < bound
  }

  /** Subtracts the aligned divisor where it fits. */
  method DivStep(pn: array<Word>, num: array<Word>, div: array<Word>, shift: nat, ghost x: int, ghost y: int)
    requires pn.Length == num.Length == div.Length && pn != num && pn != div && num != div
    requires shift / 32 < pn.Length && LowClear(pn[..], shift + 1)
    requires y > 0 && Val(div[..]) == y * Pow2(shift)
    requires Dividing(Val(pn[..]), Val(num[..]), x, y, y * Pow2(shift + 1))
    modifies pn, num
    ensures LowClear(pn[..], shift)
    ensures Dividing(Val(pn[..]), Val(num[..]), x, y, y * Pow2(shift))
    ensures old(Val(num[..]) >= Val(div[..])) ==> Val(pn[..]) == old(Val(pn[..])) + Pow2(shift)
    ensures old(Val(num[..]) < Val(div[..])) ==> pn[..] == old(pn[..])
  {
    ghost var q, n, d := Val(pn[..]), Val(num[..]), Val(div[..]);
    var c := CompareTo(num, div);
    if c >= 0 {
      StepNumbers(q, n, y, Pow2(shift));
      ValBound(num[..]);
      DivUnique(n - d, Power(num.Length), 0, n - d);
      SubAssign(num, div);
      SetBit(pn, shift);
    } else {
      ClearWord(pn[..], shift);
    }
  }

  lemma StepNumbers(q: int, n: int, y: int, p: int)
    ensures q * y + n == (q + p) * y + (n - y * p)
    ensures y * (2 * p) == y * p + y * p
  {
    Distributes(q, p, y);
    Associates(y, p, 2);
  }

  /** The exact quotient, with the remainder in num; division by zero fails with the quotient zeroed. */
  method DivAssign(pn: array<Word>, b: array<Word>) returns (ok: bool, num: array<Word>)
    requires pn.Length == b.Length > 0
    modifies pn
    ensures ok <==> old(Val(b[..])) != 0
    ensures ok ==> Val(pn[..]) == old(Val(pn[..]) / Val(b[..]))
    ensures ok ==> Val(num[..]) == old(Val(pn[..]) % Val(b[..]))
    ensures !ok ==> Val(pn[..]) == 0
  {
    var div := Copy(b);
    num := Copy(pn);
    ghost var x, y := Val(pn[..]), Val(b[..]);
    SetZero(pn);
    var numBits := Bits(num);
    var divBits := Bits(div);
    if divBits == 0 { return false, num; }
    ok := true;
    if divBits > numBits {
      SmallQuotient(x, y, numBits, divBits);
      return;
    }
    Align(x, y, numBits, divBits, pn.Length);
    ShiftLeftAssign(div, numBits - divBits);
    DivLoop(pn, num, div, numBits - divBits, x, y);
    QuotientIs(x, Val(pn[..]), y, Val(num[..]));
  }

  lemma SmallQuotient(x: nat, y: nat, numBits: nat, divBits: nat)
    requires divBits > numBits && y >= Pow2(divBits - 1) && (numBits == 0 <==> x == 0)
    requires numBits > 0 ==> x < Pow2(numBits)
    ensures x / y == 0 && x % y == x
  {
    Pow2Add(numBits, divBits - 1 - numBits);
    MulMonotone(Pow2(numBits), 1, Pow2(divBits - 1 - numBits));
    QuotientIs(x, 0, y, x);
  }

  /** Shifting the divisor up to the dividend's length loses nothing. */
  lemma Align(x: nat, y: nat, numBits: nat, divBits: nat, width: nat)
    requires 0 < divBits <= numBits <= 32 * width
    requires x < Pow2(numBits) && Pow2(divBits - 1) <= y < Pow2(divBits)
    ensures var shift := numBits - divBits;
            && x < y * Pow2(shift + 1)
            && (y * Pow2(shift)) % Power(width) == y * Pow2(shift)
  {
    var shift := numBits - divBits;
    Pow2Add(divBits - 1, shift + 1);
    BelowOrEqual(Pow2(divBits - 1), y, Pow2(shift + 1));
    Pow2Add(divBits, shift);
    BelowMultiple(0, y, Pow2(divBits), Pow2(shift));
    PowerPow2(width);
    Pow2Add(numBits, 32 * width - numBits);
    MulMonotone(Pow2(numBits), 1, Pow2(32 * width - numBits));
    MulMonotone(y, 0, Pow2(shift));
    DivUnique(y * Pow2(shift), Power(width), 0, y * Pow2(shift));
  }

  method DivLoop(pn: array<Word>, num: array<Word>, div: array<Word>, top: nat, ghost x: int, ghost y: int)
    requires pn.Length == num.Length == div.Length && pn != num && pn != div && num != div
    requires top / 32 < pn.Length && (forall m :: 0 <= m < pn.Length ==> pn[m] == 0)
    requires y > 0 && Val(div[..]) == y * Pow2(top)
    requires Val(num[..]) == x < y * Pow2(top + 1)
    modifies pn, num, div
    ensures x == Val(pn[..]) * y + Val(num[..]) && 0 <= Val(num[..]) < y
  {
    var shift := top;
    ZeroClear(pn[..], top + 1);
    while shift >= 0
      invariant -1 <= shift <= top
      invariant LowClear(pn[..], shift + 1)
      invariant shift >= 0 ==> Val(div[..]) == y * Pow2(shift)
      invariant Dividing(Val(pn[..]), Val(num[..]), x, y, y * Pow2(shift + 1))
    {
      DivStep(pn, num, div, shift, x, y);
      Halve(div, shift, y);
      shift := shift - 1;
    }
  }

  lemma ZeroClear(s: seq<Word>, e: nat)
    requires forall m :: 0 <= m < |s| ==> s[m] == 0
    ensures LowClear(s, e) && Val(s) == 0
  {
    ValZero(s);
    DivUnique(0, Pow2(e % 32), 0, 0);
  }

  method Halve(div: array<Word>, shift: nat, ghost y: int)
    requires Val(div[..]) == y * Pow2(shift)
    modifies div
    ensures shift >= 1 ==> Val(div[..]) == y * Pow2(shift - 1)
  {
    if shift >= 1 { HalfExact(y, shift); }
    ShiftRightAssign(div, 1);
  }

  lemma HalfExact(y: int, shift: nat)
    requires shift >= 1
    ensures y * Pow2(shift) / Pow2(1) == y * Pow2(shift - 1)
  {
    StepNumbers(0, 0, y, Pow2(shift - 1));
    assert Pow2(1) == 2;
  }
}
