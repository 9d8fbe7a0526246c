/** Little-endian sequences of 32-bit words and the numbers they stand for. */
module Limbs {
  import opened Arithmetic

  const BASE := 0x1_0000_0000

  type Word = x: int | 0 <= x < BASE

  function Power(k: nat): (r: nat)
    ensures r >= 1
  {
    if k == 0 then 1 else BASE * Power(k - 1)
  }

  /** The number that a sequence of words, lowest first, stands for. */
  function Val(s: seq<Word>): nat {
    if s == [] then 0
    else
      assert s[|s| - 1] * Power(|s| - 1) >= 0;
      Val(s[..|s| - 1]) + s[|s| - 1] * Power(|s| - 1)
  }

  lemma {:induction false} PowerAdd(i: nat, j: nat)
    ensures Power(i + j) == Power(i) * Power(j)
  {
    if i > 0 {
      PowerAdd(i - 1, j);
      assert BASE * (Power(i - 1) * Power(j)) == (BASE * Power(i - 1)) * Power(j);
    }
  }

  lemma {:induction false} Pow2Add(i: nat, j: nat)
    ensures Pow2(i + j) == Pow2(i) * Pow2(j)
  {
    if i > 0 {
      Pow2Add(i - 1, j);
      assert 2 * (Pow2(i - 1) * Pow2(j)) == (2 * Pow2(i - 1)) * Pow2(j);
    }
  }

  lemma Pow2Word()
    ensures Pow2(8) == 256 && Pow2(31) == BASE / 2 && Pow2(32) == BASE
  {
    assert Pow2(4) == 16;
    Pow2Add(4, 4);
    Pow2Add(8, 8);
    Pow2Add(16, 16);
  }

  lemma {:induction false} PowerPow2(k: nat)
    ensures Power(k) == Pow2(32 * k)
  {
    if k > 0 {
      Pow2Word();
      PowerPow2(k - 1);
      Pow2Add(32, 32 * (k - 1));
    }
  }

  lemma {:induction false} ValBound(s: seq<Word>)
    ensures Val(s) < Power(|s|)
  {
    if s != [] {
      ValBound(s[..|s| - 1]);
      MulMonotone(Power(|s| - 1), s[|s| - 1], BASE - 1);
      assert s[|s| - 1] * Power(|s| - 1) <= (BASE - 1) * Power(|s| - 1);
    }
  }

  lemma ValPrefix(s: seq<Word>, i: nat)
    requires i < |s|
    ensures Val(s[..i + 1]) == Val(s[..i]) + s[i] * Power(i)
  {
    assert s[..i + 1][..i] == s[..i];
  }

  lemma {:induction false} ValUpdate(s: seq<Word>, k: nat, y: Word)
    requires k < |s|
    ensures Val(s[k := y]) == Val(s) + (y - s[k]) * Power(k)
  {
    var t := s[k := y];
    var n := |s| - 1;
    if k == n {
      assert t[..n] == s[..n];
      assert (y - s[k]) * Power(k) == y * Power(k) - s[k] * Power(k);
    } else {
      assert t[..n] == s[..n][k := y];
      ValUpdate(s[..n], k, y);
    }
  }

  lemma {:induction false} ValZero(s: seq<Word>)
    requires forall i :: 0 <= i < |s| ==> s[i] == 0
    ensures Val(s) == 0
  {
    if s != [] { ValZero(s[..|s| - 1]); }
  }

  lemma {:induction false} ValSplit(s: seq<Word>, i: nat)
    requires i <= |s|
    ensures Val(s) == Val(s[..i]) + Power(i) * Val(s[i..])
  {
    var n := |s| - 1;
    if i == |s| {
      assert s[..i] == s;
    } else {
      ValSplit(s[..n], i);
      assert s[..n][..i] == s[..i] && s[i..][..n - i] == s[..n][i..];
      PowerAdd(i, n - i);
      var x, p, q := s[n], Power(i), Power(n - i);
      Distribute(p, Val(s[..n][i..]), x, q);
    }
  }

  lemma Distribute(p: int, v: int, x: int, q: int)
    ensures p * (v + x * q) == p * v + x * (p * q)
  {
    assert p * (x * q) == x * (p * q);
  }

  /** Bitwise or. */
  function Or(x: nat, y: nat): nat {
    if x == 0 then y else (if x % 2 == 1 || y % 2 == 1 then 1 else 0) + 2 * Or(x / 2, y / 2)
  }

  /** Ones that are not set twice are added. */
  lemma {:induction false} OrAdds(x: nat, y: nat, k: nat)
    requires x < Pow2(k) && y % Pow2(k) == 0
    ensures Or(x, y) == x + y
    decreases k
  {
    if k > 0 && x > 0 {
      HalfMultiple(y, Pow2(k - 1));
      OrAdds(x / 2, y / 2, k - 1);
    }
  }

  lemma HalfMultiple(y: nat, d: nat)
    requires d >= 1 && y % (2 * d) == 0
    ensures y % 2 == 0 && (y / 2) % d == 0
  {
    var q := y / (2 * d);
    assert y == 2 * (d * q);
    DivUnique(y / 2, d, q, 0);
  }

  lemma {:induction false} OrSymmetric(x: nat, y: nat)
    ensures Or(x, y) == Or(y, x)
  {
    if x == 0 {
      OrZero(y);
    } else if y == 0 {
      OrZero(x);
    } else {
      OrSymmetric(x / 2, y / 2);
    }
  }

  lemma {:induction false} OrZero(x: nat)
    ensures Or(x, 0) == x
  {
    if x > 0 { OrZero(x / 2); }
  }
}
