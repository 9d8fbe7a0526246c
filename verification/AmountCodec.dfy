/** Amounts with trailing decimal zeroes written as small numbers. */
module AmountCodec {
  import opened Arithmetic

  const COIN := 100000000
  const MAX_MONEY := 21625000 * COIN

  function Pow10(e: nat): nat {
    if e == 0 then 1 else 10 * Pow10(e - 1)
  }

  /** A number without trailing zeroes, at most nine of them dropped, and how many were. */
  function Strip(n: nat, e: nat): (nat, nat)
    decreases n
  {
    if n > 0 && n % 10 == 0 && e < 9 then Strip(n / 10, e + 1) else (n, e)
  }

  function Compress(n: nat): nat {
    if n == 0 then 0
    else
      StripIs(n, 0);
      CodeOf(Strip(n, 0).0, Strip(n, 0).1)
  }

  /** The code, by the number without its trailing zeroes and how many of them there were. */
  function CodeOf(m: nat, e: nat): nat
    requires m > 0
  {
    if e < 9 then 1 + (m / 10 * 9 + m % 10 - 1) * 10 + e else 1 + (m - 1) * 10 + 9
  }

  function Decompress(x: nat): nat {
    if x == 0 then 0
    else
      var e := (x - 1) % 10;
      var y := (x - 1) / 10;
      (if e < 9 then y / 9 * 10 + y % 9 + 1 else y + 1) * Pow10(e)
  }

  lemma {:induction false} StripIs(n: nat, e: nat)
    requires n > 0 && e <= 9
    ensures var (m, k) := Strip(n, e);
            e <= k <= 9 && m > 0 && n == m * Pow10(k - e) && (k < 9 ==> m % 10 != 0)
    decreases n
  {
    if n % 10 == 0 && e < 9 {
      StripIs(n / 10, e + 1);
      var (m, k) := Strip(n, e);
      assert m * Pow10(k - e) == 10 * (m * Pow10(k - e - 1));
    }
  }

  lemma {:induction false} StripOf(m: nat, k: nat, e: nat)
    requires m > 0 && e + k <= 9 && (e + k < 9 ==> m % 10 != 0)
    ensures Strip(m * Pow10(k), e) == (m, e + k)
    decreases k
  {
    if k > 0 {
      var n := m * Pow10(k - 1);
      assert m * Pow10(k) == 10 * n;
      Positive(m, k - 1);
      StripOf(m, k - 1, e + 1);
    }
  }

  lemma {:induction false} Positive(m: nat, k: nat)
    requires m > 0
    ensures m * Pow10(k) > 0
  {
    if k > 0 {
      Positive(m, k - 1);
      assert m * Pow10(k) == 10 * (m * Pow10(k - 1));
    }
  }

  lemma DecompressCompress(n: nat)
    ensures Decompress(Compress(n)) == n
  {
    if n > 0 {
      StripIs(n, 0);
      var (m, e) := Strip(n, 0);
      if e < 9 {
        LastDigit(m);
        TenSplit(m / 10 * 9 + m % 10 - 1, e);
      } else {
        TenSplit(m - 1, 9);
      }
    }
  }

  lemma TenSplit(y: nat, e: nat)
    requires e < 10
    ensures (y * 10 + e) / 10 == y && (y * 10 + e) % 10 == e
  {
  }

  lemma LastDigit(m: nat)
    requires m % 10 != 0
    ensures var y := m / 10 * 9 + m % 10 - 1; y / 9 == m / 10 && y % 9 == m % 10 - 1
  {
  }

  lemma CompressOf(m: nat, e: nat)
    requires m > 0 && e <= 9 && (e < 9 ==> m % 10 != 0)
    ensures Compress(m * Pow10(e)) == CodeOf(m, e)
  {
    Positive(m, e);
    StripOf(m, e, 0);
  }

  lemma CompressDecompress(x: nat)
    ensures Compress(Decompress(x)) == x
  {
    if x > 0 {
      var e, y := (x - 1) % 10, (x - 1) / 10;
      NineSplit(y);
      CompressOf(if e < 9 then y / 9 * 10 + y % 9 + 1 else y + 1, e);
      assert CodeOf(if e < 9 then y / 9 * 10 + y % 9 + 1 else y + 1, e) == x by { CodeBack(y, e); }
    }
  }

  lemma CodeBack(y: nat, e: nat)
    requires e <= 9
    ensures CodeOf(if e < 9 then y / 9 * 10 + y % 9 + 1 else y + 1, e) == 1 + y * 10 + e
  {
    NineSplit(y);
  }

  lemma NineSplit(y: nat)
    ensures var m := y / 9 * 10 + y % 9 + 1; m / 10 == y / 9 && m % 10 == y % 9 + 1
  {
    TenSplit(y / 9, y % 9 + 1);
  }

  /** Compression does not overflow for any amount of money. */
  lemma CompressFits(n: nat)
    requires n <= MAX_MONEY
    ensures Compress(n) <= 9 * n + 10 < UINT64
  {
    if n > 0 {
      StripIs(n, 0);
      var (m, e) := Strip(n, 0);
      AtLeast(m, e, n);
    }
  }

  lemma AtLeast(m: nat, e: nat, n: nat)
    requires n == m * Pow10(e)
    ensures m <= n && (e >= 9 ==> 2 * m <= n)
  {
    if e >= 9 {
      Pow10AtLeast(e);
      MulMonotone(m, 2, Pow10(e));
    } else {
      Positive(1, e);
      MulMonotone(m, 1, Pow10(e));
    }
  }

  lemma {:induction false} Pow10AtLeast(e: nat)
    requires e >= 1
    ensures Pow10(e) >= 10
  {
    if e > 1 { Pow10AtLeast(e - 1); }
  }

  /** In 64 bits the code of an amount of money is right, and that of any other is reduced to them. */
  method CompressAmount(amount: nat) returns (x: nat)
    requires amount < UINT64
    ensures x == Compress(amount) % UINT64
    ensures amount <= MAX_MONEY ==> x == Compress(amount)
  {
    if amount <= MAX_MONEY { CompressFits(amount); }
    if amount == 0 { return 0; }
    var n, e := StripZeroes(amount);
    StripIs(amount, 0);
    return CodeOf(n, e) % UINT64;
  }

  method StripZeroes(amount: nat) returns (n: nat, e: nat)
    requires amount > 0
    ensures (n, e) == Strip(amount, 0)
  {
    n, e := amount, 0;
    while n % 10 == 0 && e < 9
      invariant n > 0 && e <= 9 && Strip(n, e) == Strip(amount, 0)
    {
      n := n / 10;
      e := e + 1;
    }
  }

  lemma MoveTen(n: int, p: int)
    ensures (n * 10) * p == n * (10 * p)
  {
  }

  lemma TenTimes(n: int, e: nat, m: int)
    requires e > 0 && m > 0
    ensures ((n * 10 % m) * Pow10(e - 1)) % m == (n * Pow10(e)) % m
  {
    ModTimesPlus(n * 10, Pow10(e - 1), 0, m);
    MoveTen(n, Pow10(e - 1));
  }

  method DecompressAmount(code: nat) returns (n: nat)
    requires code < UINT64
    ensures n == Decompress(code) % UINT64
  {
    if code == 0 { return 0; }
    var x := code - 1;
    var e := x % 10;
    x := x / 10;
    if e < 9 {
      var d := x % 9 + 1;
      x := x / 9;
      n := x * 10 + d;
    } else {
      n := x + 1;
    }
    n := TimesTen(n, e);
  }

  method TimesTen(start: nat, zeroes: nat) returns (n: nat)
    requires start < UINT64
    ensures n == start * Pow10(zeroes) % UINT64
  {
    n := start;
    var e := zeroes;
    while e != 0
      invariant e >= 0 && 0 <= n < UINT64 && n * Pow10(e) % UINT64 == start * Pow10(zeroes) % UINT64
    {
      TenTimes(n, e, UINT64);
      n := n * 10 % UINT64;
      e := e - 1;
    }
  }
}
