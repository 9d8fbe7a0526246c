/**
 The compact form of a target: three bytes of mantissa and one byte of
 exponent to base 256. What GetCompact keeps of a number, when SetCompact
 overflows, and the work that a target stands for.
 */
module CompactTarget {
  import opened Arithmetic
  import opened Limbs

  function Pow256(k: nat): (r: nat)
    ensures r >= 1
  {
    if k == 0 then 1 else 256 * Pow256(k - 1)
  }

  /** The number of bytes that a number takes. */
  function ByteSize(x: nat): nat {
    if x == 0 then 0 else 1 + ByteSize(x / 256)
  }

  /** The three leading bytes of a number that takes so many. */
  function Leading(x: nat, size: nat): nat {
    if size <= 3 then
      MulMonotone(x, 0, Pow256(3 - size));
      x * Pow256(3 - size)
    else
      DivAtLeast(x, Pow256(size - 3), 0);
      x / Pow256(size - 3)
  }

  datatype Compact = Compact(size: nat, word: nat)

  /** The magnitude that a size and a mantissa denote, as a number of any size. */
  function Denoted(c: Compact): nat {
    if c.size <= 3 then c.word / Pow256(3 - c.size) else c.word * Pow256(c.size - 3)
  }

  /** Size and mantissa; a mantissa whose top bit would read as the sign is shortened by one byte. */
  function Shorten(x: nat): Compact {
    var n := ByteSize(x);
    if Leading(x, n) >= 0x80_0000 then Compact(n + 1, Leading(x, n) / 256) else Compact(n, Leading(x, n))
  }

  lemma {:induction false} Pow256Add(i: nat, j: nat)
    ensures Pow256(i + j) == Pow256(i) * Pow256(j)
  {
    if i > 0 {
      Pow256Add(i - 1, j);
      assert 256 * (Pow256(i - 1) * Pow256(j)) == (256 * Pow256(i - 1)) * Pow256(j);
    }
  }

  lemma {:induction false} Pow256Pow2(k: nat)
    ensures Pow256(k) == Pow2(8 * k)
  {
    if k > 0 {
      Pow2Word();
      Pow256Pow2(k - 1);
      Pow2Add(8, 8 * (k - 1));
    }
  }

  lemma Pow256Monotone(i: nat, j: nat)
    requires i <= j
    ensures Pow256(i) <= Pow256(j)
  {
    Pow256Add(i, j - i);
    MulMonotone(Pow256(i), 1, Pow256(j - i));
  }

  lemma {:induction false} ByteSizeBounds(x: nat)
    ensures x < Pow256(ByteSize(x))
    ensures x > 0 ==> Pow256(ByteSize(x) - 1) <= x
  {
    if x > 0 { ByteSizeBounds(x / 256); }
  }

  /** The bounds determine the size. */
  lemma ByteSizeIs(x: nat, k: nat)
    requires x < Pow256(k) && (k > 0 ==> Pow256(k - 1) <= x)
    ensures ByteSize(x) == k
  {
    var n := ByteSize(x);
    ByteSizeBounds(x);
    if n < k {
      Pow256Monotone(n, k - 1);
    } else if k < n {
      Pow256Monotone(k, n - 1);
    }
  }

  lemma {:induction false} ByteSizeMonotone(x: nat, y: nat)
    requires x <= y
    ensures ByteSize(x) <= ByteSize(y)
  {
    if x > 0 { ByteSizeMonotone(x / 256, y / 256); }
  }

  /** The leading bytes fill three bytes, unless there is nothing to lead. */
  lemma LeadingBounds(x: nat)
    ensures Leading(x, ByteSize(x)) < 0x100_0000
    ensures x > 0 ==> 0x1_0000 <= Leading(x, ByteSize(x))
  {
    var n := ByteSize(x);
    ByteSizeBounds(x);
    assert Pow256(2) == 0x1_0000 && Pow256(3) == 0x100_0000;
    if n <= 3 {
      var p := Pow256(3 - n);
      Pow256Add(n, 3 - n);
      Scaled(x, Pow256(n), p);
      if x > 0 {
        Pow256Add(n - 1, 3 - n);
        BelowScaled(Pow256(n - 1), x, p);
      }
    } else {
      var p := Pow256(n - 3);
      Pow256Add(3, n - 3);
      DivLess(x, p, 0x100_0000);
      Pow256Add(2, n - 3);
      DivAtLeast(x, p, 0x1_0000);
    }
  }

  lemma Scaled(x: int, y: int, p: int)
    requires x < y && p >= 1
    ensures x * p < y * p
  {
    MulMonotone(p, x + 1, y);
    assert (x + 1) * p == x * p + p;
  }

  lemma BelowScaled(x: int, y: int, p: int)
    requires x <= y && p >= 0
    ensures x * p <= y * p
  {
    MulMonotone(p, x, y);
  }

  /** A shortened form is exact, or holds the digits above its unit with at least fifteen bits. */
  lemma ShortenShape(x: nat)
    ensures var c := Shorten(x);
            && c.word < 0x80_0000
            && (Denoted(c) == x || (c.size >= 4 && c.word == x / Pow256(c.size - 3) && c.word >= 0x8000))
  {
    var n, m := ByteSize(x), Leading(x, ByteSize(x));
    LeadingBounds(x);
    if n <= 3 {
      var p := Pow256(3 - n);
      QuotientIs(x * p, x, p, 0);
      if m >= 0x80_0000 && n <= 2 {
        assert p == 256 * Pow256(2 - n);
        assert m == 256 * (x * Pow256(2 - n));
        QuotientIs(x * Pow256(2 - n), x, Pow256(2 - n), 0);
      }
    } else {
      DivTwice(x, Pow256(n - 3));
    }
  }

  lemma DivTwice(x: nat, p: nat)
    requires p >= 1
    ensures x / p / 256 == x / (256 * p)
  {
    var q, r := x / p, x % p;
    DivMod(x, p);
    var q', r' := q / 256, q % 256;
    assert p * q == p * (256 * q') + p * r';
    assert p * (256 * q') == (256 * p) * q';
    MulMonotone(p, r', 255);
    MulMonotone(p, 0, r');
    DivUnique(x, 256 * p, q', p * r' + r);
  }

  /** Whatever a compact form can denote below a number, the number's own form denotes at least as much. */
  lemma Greatest(x: nat, c: Compact)
    requires c.word < 0x80_0000
    ensures Denoted(Shorten(x)) <= x
    ensures Denoted(c) <= x ==> Denoted(c) <= Denoted(Shorten(x))
  {
    var s := Shorten(x);
    ShortenShape(x);
    if Denoted(s) != x {
      var u := Pow256(s.size - 3);
      DivBounds(x, u);
      assert Denoted(s) == u * (x / u);
      if Denoted(c) > x {
      } else if c.size >= s.size {
        MultipleBelow(x, c, s.size);
      } else {
        BelowFifteenBits(c, s.size);
        BelowScaled(0x8000, s.word, u);
      }
    }
  }

  lemma MultipleBelow(x: nat, c: Compact, size: nat)
    requires 4 <= size <= c.size && Denoted(c) <= x
    ensures Denoted(c) <= Pow256(size - 3) * (x / Pow256(size - 3))
  {
    var u, k := Pow256(size - 3), Pow256(c.size - size);
    Pow256Add(c.size - size, size - 3);
    assert Denoted(c) == u * (c.word * k);
    DivAtLeast(x, u, c.word * k);
    MulMonotone(u, c.word * k, x / u);
  }

  lemma BelowFifteenBits(c: Compact, size: nat)
    requires c.word < 0x80_0000 && c.size < size && size >= 4
    ensures Denoted(c) < 0x8000 * Pow256(size - 3)
  {
    var p := Pow256(size - 4);
    assert 0x8000 * Pow256(size - 3) == 0x80_0000 * p;
    if c.size <= 3 {
      DivLess(c.word, Pow256(3 - c.size), c.word + 1) by {
        MulMonotone(c.word + 1, 1, Pow256(3 - c.size));
      }
    } else {
      Pow256Monotone(c.size - 3, size - 4);
      MulMonotone(c.word, Pow256(c.size - 3), p);
      Scaled(c.word, 0x80_0000, p);
    }
  }

  /** Nothing more is lost the second time. */
  lemma Idempotent(x: nat)
    ensures Shorten(Denoted(Shorten(x))) == Shorten(x)
  {
    var s := Shorten(x);
    var n, v := ByteSize(x), Denoted(s);
    ShortenShape(x);
    LeadingBounds(x);
    if v != x {
      var u := Pow256(s.size - 3);
      Greatest(x, s);
      ByteSizeBounds(x);
      assert v == s.word * u;
      QuotientIs(v, s.word, u, 0);
      if s.size == n {
        Pow256Add(2, n - 3);
        BelowScaled(0x1_0000, s.word, u);
        ByteSizeIs(v, n);
      } else {
        Pow256Add(1, n - 2);
        BelowScaled(0x8000, s.word, u);
        ByteSizeIs(v, n);
        LeadingShifted(s.word, n);
      }
    }
  }

  lemma LeadingShifted(word: nat, n: nat)
    requires n >= 3
    ensures Leading(word * Pow256(n - 2), n) == 256 * word
  {
    var p := Pow256(n - 3);
    assert word * Pow256(n - 2) == (256 * word) * p;
    QuotientIs((256 * word) * p, 256 * word, p, 0);
  }

  /** Size in the top byte, mantissa in the low 23 bits; the bit between is the sign. */
  function Split(nCompact: Word): Compact {
    Compact(nCompact / 0x100_0000, nCompact % 0x80_0000)
  }

  predicate SignBit(nCompact: Word) {
    (nCompact / 0x80_0000) % 2 == 1
  }

  function Join(c: Compact, negative: bool): (r: Word)
    requires c.size < 256 && c.word < 0x80_0000
    ensures Split(r) == c && (SignBit(r) <==> negative)
  {
    c.size * 0x100_0000 + (if negative then 0x80_0000 else 0) + c.word
  }

  /** Two to the power of 256. */
  const UINT256 := 0x1_0000_0000_0000_0000_0000_0000_0000_0000_0000_0000_0000_0000_0000_0000_0000_0000

  lemma Width256()
    ensures Power(8) == UINT256
  {
  }

  lemma Bytes256()
    ensures Pow256(32) == UINT256
  {
    Pow256Pow2(32);
    PowerPow2(8);
  }

  /** The size of a number that 256 bits can hold leaves room for the exponent byte. */
  lemma SizeFits(x: nat)
    requires x < UINT256
    ensures Shorten(x).size <= 33 && Shorten(x).word < 0x80_0000
  {
    Bytes256();
    ByteSizeBounds(x);
    if ByteSize(x) > 32 { Pow256Monotone(32, ByteSize(x) - 1); }
    ShortenShape(x);
  }

  /** The compact form of a number, as GetCompact gives it for a non-negative one. */
  function ToCompact(x: nat): Word
    requires x < UINT256
  {
    SizeFits(x);
    Join(Shorten(x), false)
  }

  /** Of all values that compact forms denote, the form of a number has the greatest not above it. */
  lemma CompactGreatest(x: nat, nCompact: Word)
    requires x < UINT256
    ensures Denoted(Split(ToCompact(x))) <= x
    ensures Denoted(Split(nCompact)) <= x ==> Denoted(Split(nCompact)) <= Denoted(Split(ToCompact(x)))
  {
    SizeFits(x);
    Greatest(x, Split(nCompact));
  }

  lemma CompactIdempotent(x: nat)
    requires x < UINT256
    ensures Denoted(Split(ToCompact(x))) < UINT256
    ensures ToCompact(Denoted(Split(ToCompact(x)))) == ToCompact(x)
  {
    SizeFits(x);
    Greatest(x, Shorten(x));
    Idempotent(x);
  }

  lemma CompactMonotone(x: nat, y: nat)
    requires x <= y < UINT256
    ensures ToCompact(x) <= ToCompact(y)
  {
    SizeFits(x);
    SizeFits(y);
    ByteSizeMonotone(x, y);
    LeadingBounds(x);
    LeadingBounds(y);
    var n := ByteSize(x);
    if n == ByteSize(y) {
      if n <= 3 { BelowScaled(x, y, Pow256(3 - n)); } else { DivMonotone(x, y, Pow256(n - 3)); }
    }
  }

  lemma DivMonotone(x: int, y: int, d: int)
    requires x <= y && d > 0
    ensures x / d <= y / d
  {
    DivBounds(x, d);
    DivAtLeast(y, d, x / d);
  }

  /** SetCompact's test for a value that 256 bits cannot hold, on the mantissa as shifted. */
  predicate Overflows(size: nat, word: nat) {
    word != 0 && (size > 34 || (word > 0xff && size > 33) || (word > 0xffff && size > 32))
  }

  lemma OverflowExact(c: Compact)
    requires c.word < 0x80_0000
    ensures c.size >= 3 ==> (Overflows(c.size, c.word) <==> Denoted(c) >= UINT256)
    ensures c.size <= 3 ==> Denoted(c) < 0x80_0000 && !Overflows(c.size, Denoted(c)) && Denoted(c) < UINT256
  {
    Bytes256();
    if c.size <= 3 {
      BelowFifteenBits(c, 4);
      assert Pow256(3) == 0x100_0000;
      Pow256Monotone(3, 32);
    } else if c.size <= 32 {
      ThreeBytes(c, 32);
    } else {
      Edge(c);
    }
  }

  lemma ThreeBytes(c: Compact, k: nat)
    requires c.word < 0x80_0000 && 3 < c.size <= k
    ensures Denoted(c) < Pow256(k)
  {
    Pow256Monotone(c.size - 3, k - 3);
    MulMonotone(c.word, Pow256(c.size - 3), Pow256(k - 3));
    Scaled(c.word, 0x100_0000, Pow256(k - 3));
    Pow256Add(3, k - 3);
  }

  lemma Edge(c: Compact)
    requires c.word < 0x80_0000 && c.size > 32
    ensures Overflows(c.size, c.word) <==> Denoted(c) >= Pow256(32)
  {
    if c.size == 33 {
      Pow256Add(2, 30);
      Compare(c.word, 0x1_0000, Pow256(30));
    } else if c.size == 34 {
      Pow256Add(1, 31);
      Compare(c.word, 256, Pow256(31));
    } else {
      Pow256Monotone(32, c.size - 3);
      Compare(c.word, 1, Pow256(c.size - 3));
    }
  }

  lemma Compare(x: int, y: int, p: int)
    requires p >= 1
    ensures x * p >= y * p <==> x >= y
  {
    if x < y { Scaled(x, y, p); } else { BelowScaled(y, x, p); }
  }

  /** A target that does not overflow is never the largest number, so adding one to it does not wrap. */
  lemma TargetNotMax(c: Compact)
    requires c.word < 0x80_0000 && Denoted(c) < UINT256
    ensures Denoted(c) + 1 < UINT256
  {
    Bytes256();
    NotMax(c, 32);
  }

  lemma NotMax(c: Compact, k: nat)
    requires c.word < 0x80_0000 && Denoted(c) < Pow256(k) && k >= 3
    ensures Denoted(c) + 1 < Pow256(k)
  {
    if c.size <= 3 {
      BelowFifteenBits(c, 4);
      Pow256Monotone(3, k);
      assert Pow256(1) == 256 && Pow256(3) == 0x100_0000;
    } else {
      Reorganize(c.word, Pow256(c.size - 4));
    }
  }

  lemma Reorganize(x: int, p: int)
    ensures x * (256 * p) == 256 * (x * p)
  {
  }
}
