/** Numbers written in a base, most significant digit first. */
module Radix {
  import opened Arithmetic

  function Pow(b: nat, e: nat): nat {
    if e == 0 then 1 else b * Pow(b, e - 1)
  }

  ghost predicate AreDigits(s: seq<nat>, base: nat) {
    forall i :: 0 <= i < |s| ==> s[i] < base
  }

  function Val(s: seq<nat>, base: nat): nat {
    if s == [] then 0 else Val(s[..|s| - 1], base) * base + s[|s| - 1]
  }

  /** The digits of a number, without leading zeroes. */
  function Digits(n: nat, base: nat): seq<nat>
    requires base >= 2
    decreases n
  {
    if n == 0 then [] else QuotientSmaller(n, base); Digits(n / base, base) + [n % base]
  }

  lemma QuotientSmaller(n: nat, base: nat)
    requires base >= 2 && n > 0
    ensures 0 <= n / base < n && 0 <= n % base < base
  {
    DivAtLeast(n, base, 0);
    MulMonotone(n, 2, base);
    DivLess(n, base, n);
    DivMod(n, base);
  }

  function StripZeroes(s: seq<nat>): seq<nat> {
    if s != [] && s[0] == 0 then StripZeroes(s[1..]) else s
  }

  function LeadingZeroes(s: seq<nat>): (z: nat)
    ensures z <= |s|
  {
    if s != [] && s[0] == 0 then 1 + LeadingZeroes(s[1..]) else 0
  }

  lemma {:induction false} PowPositive(b: nat, e: nat)
    requires b >= 1
    ensures Pow(b, e) >= 1
  {
    if e > 0 {
      PowPositive(b, e - 1);
      MulMonotone(b, 1, Pow(b, e - 1));
    }
  }

  lemma {:induction false} PowAdd(b: nat, i: nat, j: nat)
    ensures Pow(b, i + j) == Pow(b, i) * Pow(b, j)
  {
    if i > 0 {
      PowAdd(b, i - 1, j);
      Assoc(b, Pow(b, i - 1), Pow(b, j));
    }
  }

  lemma Assoc(x: int, y: int, z: int)
    ensures x * (y * z) == (x * y) * z
  {
  }

  lemma {:induction false} PowMul(b: nat, i: nat, j: nat)
    ensures Pow(Pow(b, i), j) == Pow(b, i * j)
  {
    if j > 0 {
      PowMul(b, i, j - 1);
      PowAdd(b, i, i * (j - 1));
      assert i + i * (j - 1) == i * j;
    } else {
      assert i * j == 0;
    }
  }

  lemma {:induction false} PowMonotone(a: nat, b: nat, e: nat)
    requires a <= b
    ensures Pow(a, e) <= Pow(b, e)
  {
    if e > 0 {
      PowMonotone(a, b, e - 1);
      MulMonotone(a, Pow(a, e - 1), Pow(b, e - 1));
      Times(Pow(b, e - 1), a, b);
    }
  }

  lemma Times(d: int, x: int, y: int)
    requires 0 <= d && x <= y
    ensures x * d <= y * d
  {
    MulMonotone(d, x, y);
  }

  lemma {:induction false} PowStrict(a: nat, b: nat, e: nat)
    requires a < b && e > 0
    ensures Pow(a, e) < Pow(b, e)
  {
    PowMonotone(a, b, e - 1);
    PowPositive(b, e - 1);
    MulMonotone(a, Pow(a, e - 1), Pow(b, e - 1));
    Times(Pow(b, e - 1), a + 1, b);
    assert (a + 1) * Pow(b, e - 1) == a * Pow(b, e - 1) + Pow(b, e - 1);
  }

  lemma PowExponent(b: nat, i: nat, j: nat)
    requires i <= j && b >= 1
    ensures Pow(b, i) <= Pow(b, j)
  {
    PowAdd(b, i, j - i);
    PowPositive(b, j - i);
    MulMonotone(Pow(b, i), 1, Pow(b, j - i));
  }

  /** One comparison of powers gives all those with a larger ratio of exponents. */
  lemma PowRatio(a: nat, b: nat, p: nat, q: nat, k: nat, m: nat)
    requires b >= 1 && p > 0 && Pow(a, p) <= Pow(b, q) && q * k <= p * m
    ensures Pow(a, k) <= Pow(b, m)
  {
    MulMonotone(q, 0, k);
    MulMonotone(p, 0, m);
    var x: nat, y: nat := q * k, p * m;
    RaisedBound(a, b, p, q, k);
    RaisedTo(b, p, m);
    PowExponent(b, x, y);
    AtMost(Pow(b, m), Pow(a, k), p);
  }

  lemma AtMost(a: nat, b: nat, p: nat)
    requires p > 0 && Pow(b, p) <= Pow(a, p)
    ensures b <= a
  {
    if a < b { PowStrict(a, b, p); }
  }

  lemma RaisedBound(a: nat, b: nat, p: nat, q: nat, k: nat)
    requires Pow(a, p) <= Pow(b, q)
    ensures Pow(Pow(a, k), p) <= Pow(b, q * k)
  {
    PowCommutes(a, k, p);
    PowMonotone(Pow(a, p), Pow(b, q), k);
    PowMul(b, q, k);
  }

  lemma RaisedTo(b: nat, p: nat, m: nat)
    ensures Pow(Pow(b, m), p) == Pow(b, p * m)
  {
    PowMul(b, p, m);
    PowCommutes(b, p, m);
  }

  lemma PowCommutes(b: nat, i: nat, j: nat)
    ensures Pow(Pow(b, i), j) == Pow(Pow(b, j), i)
  {
    PowMul(b, i, j);
    PowMul(b, j, i);
    assert i * j == j * i;
  }

  lemma {:induction false} ValBound(s: seq<nat>, base: nat)
    requires AreDigits(s, base)
    ensures Val(s, base) < Pow(base, |s|)
  {
    if s != [] {
      var n := |s| - 1;
      ValBound(s[..n], base);
      Times(base, Val(s[..n], base) + 1, Pow(base, n));
      assert (Val(s[..n], base) + 1) * base == Val(s[..n], base) * base + base;
    }
  }

  /** A digit in front counts with the place it is in. */
  lemma {:induction false} ValCons(d: nat, s: seq<nat>, base: nat)
    ensures Val([d] + s, base) == d * Pow(base, |s|) + Val(s, base)
  {
    var t := [d] + s;
    if s == [] {
      assert t[..0] == [];
      assert Val(t, base) == Val([], base) * base + d;
    } else {
      var n := |s| - 1;
      assert t[..|t| - 1] == [d] + s[..n];
      ValCons(d, s[..n], base);
      Carry(d, Pow(base, n), Val(s[..n], base), base);
    }
  }

  lemma Carry(d: int, p: int, v: int, base: int)
    ensures (d * p + v) * base == d * (base * p) + v * base
  {
    assert (d * p) * base == d * (base * p);
  }

  lemma {:induction false} StripValue(s: seq<nat>, base: nat)
    ensures Val(StripZeroes(s), base) == Val(s, base)
  {
    if s != [] && s[0] == 0 {
      StripValue(s[1..], base);
      assert s == [0] + s[1..];
      ValCons(0, s[1..], base);
    }
  }

  /** Without leading zeroes, the digits are determined by the number. */
  lemma {:induction false} DigitsOfVal(s: seq<nat>, base: nat)
    requires base >= 2 && AreDigits(s, base) && (s != [] ==> s[0] != 0)
    ensures Digits(Val(s, base), base) == s
  {
    if s != [] {
      var n := |s| - 1;
      var v, d := Val(s[..n], base), s[n];
      DigitsOfVal(s[..n], base);
      QuotientIs(v * base + d, v, base, d);
      NonZeroVal(s, base);
    }
  }

  lemma {:induction false} NonZeroVal(s: seq<nat>, base: nat)
    requires base >= 2 && s != [] && s[0] != 0
    ensures Val(s, base) > 0
  {
    assert s == [s[0]] + s[1..];
    ValCons(s[0], s[1..], base);
    PowPositive(base, |s| - 1);
    Times(Pow(base, |s| - 1), 1, s[0]);
  }

  lemma {:induction false} ValOfDigits(n: nat, base: nat)
    requires base >= 2
    ensures Val(Digits(n, base), base) == n && AreDigits(Digits(n, base), base)
    ensures Digits(n, base) != [] ==> Digits(n, base)[0] != 0
    decreases n
  {
    if n > 0 {
      QuotientSmaller(n, base);
      ValOfDigits(n / base, base);
      DivMod(n, base);
      var s := Digits(n / base, base);
      assert (s + [n % base])[..|s|] == s;
      if s == [] { assert n / base == 0 by { if n / base > 0 { assert false; } } }
    }
  }

  /** Dropping leading zeroes leaves the digits of the number. */
  lemma StripIsDigits(s: seq<nat>, base: nat)
    requires base >= 2 && AreDigits(s, base)
    ensures StripZeroes(s) == Digits(Val(s, base), base)
  {
    StripValue(s, base);
    StripShape(s, base);
    DigitsOfVal(StripZeroes(s), base);
  }

  lemma {:induction false} StripShape(s: seq<nat>, base: nat)
    requires AreDigits(s, base)
    ensures var t := StripZeroes(s); AreDigits(t, base) && (t != [] ==> t[0] != 0)
    ensures s == Zeroes(LeadingZeroes(s)) + StripZeroes(s)
  {
    if s != [] && s[0] == 0 {
      StripShape(s[1..], base);
      assert s == [0] + s[1..];
      assert Zeroes(LeadingZeroes(s)) == [0] + Zeroes(LeadingZeroes(s[1..]));
    }
  }

  function Zeroes(n: nat): seq<nat> {
    seq(n, _ => 0)
  }
}
