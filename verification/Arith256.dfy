/**
 Unsigned integers of a fixed number of 32-bit words, updated in place. Each
 operator is proved to compute the mathematical result modulo the width; the
 64-bit intermediate results are shown not to wrap around.
 */
module Arith256 {
  import opened Arithmetic
  import opened Limbs


  /** The lowest 32 bits. */
  function Low(n: int): Word {
    n % BASE
  }

  /** Storing the low word of an intermediate result and carrying the high one loses nothing. */
  lemma PutWord(s: seq<Word>, k: nat, n: nat)
    requires k < |s|
    ensures Val(s[k := Low(n)]) + (n / BASE) * Power(k + 1) == Val(s) + (n - s[k]) * Power(k)
  {
    ValUpdate(s, k, Low(n));
    SplitProduct(n, s[k], Power(k));
  }

  lemma SplitProduct(n: nat, x: int, p: nat)
    ensures (n % BASE - x) * p + (n / BASE) * (BASE * p) == (n - x) * p
  {
    var q, r := n / BASE, n % BASE;
    assert n == BASE * q + r;
    assert q * (BASE * p) == (BASE * q) * p;
    assert (BASE * q) * p + (r - x) * p == (BASE * q + r - x) * p;
  }

  lemma Distributes(x: int, y: int, p: int)
    ensures (x + y) * p == x * p + y * p
  {
  }

  /** What a computation leaves in the words when the carry out of the top word is dropped. */
  lemma DropCarry(s: seq<Word>, q: int, x: int)
    requires Val(s) + q * Power(|s|) == x
    ensures Val(s) == x % Power(|s|)
  {
    ValBound(s);
    DivUnique(x, Power(|s|), q, Val(s));
  }

  method Copy(b: array<Word>) returns (a: array<Word>)
    ensures fresh(a) && a[..] == b[..]
  {
    a := new Word[b.Length](i requires 0 <= i < b.Length reads b => b[i]);
  }

  method SetZero(pn: array<Word>)
    modifies pn
    ensures forall i :: 0 <= i < pn.Length ==> pn[i] == 0
    ensures Val(pn[..]) == 0
  {
    for i := 0 to pn.Length
      invariant forall k :: 0 <= k < i ==> pn[k] == 0
    {
      pn[i] := 0;
    }
    ValZero(pn[..]);
  }

  method AddAssign(pn: array<Word>, b: array<Word>)
    requires pn.Length == b.Length
    modifies pn
    ensures Val(pn[..]) == old(Val(pn[..]) + Val(b[..])) % Power(pn.Length)
  {
    ghost var x, y := pn[..], b[..];
    var carry: nat := 0;
    for i := 0 to pn.Length
      invariant carry <= 1
      invariant forall k :: i <= k < pn.Length ==> pn[k] == x[k] && b[k] == y[k]
      invariant Val(pn[..]) + carry * Power(i) == Val(x) + Val(y[..i])
    {
      var n := carry + pn[i] + b[i];
      PutWord(pn[..], i, n);
      ValPrefix(y, i);
      Distributes(carry, b[i], Power(i));
      ghost var was := pn[..];
      pn[i] := Low(n);
      assert pn[..] == was[i := Low(n)];
      carry := n / BASE;
    }
    assert y[..pn.Length] == y;
    DropCarry(pn[..], carry, Val(x) + Val(y));
  }

  method Increment(pn: array<Word>)
    requires pn.Length > 0
    modifies pn
    ensures Val(pn[..]) == (old(Val(pn[..])) + 1) % Power(pn.Length)
  {
    ghost var x := pn[..];
    ghost var was := x;
    CarryOne(was, 0);
    var i := 0;
    pn[i] := Low(pn[i] as int + 1);
    assert pn[..] == was[0 := Low(was[0] as int + 1)];
    while pn[i] == 0 && i < pn.Length - 1
      invariant 0 <= i < pn.Length
      invariant forall k :: i < k < pn.Length ==> pn[k] == x[k]
      invariant Val(pn[..]) + (if pn[i] == 0 then Power(i + 1) else 0) == Val(x) + 1
      decreases pn.Length - i
    {
      i := i + 1;
      was := pn[..];
      CarryOne(was, i);
      pn[i] := Low(pn[i] as int + 1);
      assert pn[..] == was[i := Low(was[i] as int + 1)];
    }
    DropCarry(pn[..], if pn[i] == 0 then 1 else 0, Val(x) + 1);
  }

  lemma CarryOne(s: seq<Word>, k: nat)
    requires k < |s|
    ensures var y := Low(s[k] as int + 1);
            Val(s[k := y]) + (if y == 0 then Power(k + 1) else 0) == Val(s) + Power(k)
  {
    var y := Low(s[k] as int + 1);
    ValUpdate(s, k, y);
    OneUp(s[k], Power(k));
  }

  lemma OneUp(x: Word, p: nat)
    ensures var y := Low(x as int + 1); (y - x) * p + (if y == 0 then BASE * p else 0) == p
  {
    if x < BASE - 1 { assert Low(x as int + 1) == x + 1; }
  }

  lemma OneDown(x: Word, p: nat)
    ensures var y := Low(x as int - 1); (y - x) * p - (if y == BASE - 1 then BASE * p else 0) == 0 - p
  {
    if x > 0 { assert Low(x as int - 1) == x - 1; }
  }

  method Decrement(pn: array<Word>)
    requires pn.Length > 0
    modifies pn
    ensures Val(pn[..]) == (old(Val(pn[..])) - 1) % Power(pn.Length)
  {
    ghost var x := pn[..];
    ghost var was := x;
    var i := 0;
    pn[i] := Low(pn[i] as int - 1);
    Borrow(was, 0);
    assert pn[..] == was[0 := Low(was[0] as int - 1)];
    while pn[i] == BASE - 1 && i < pn.Length - 1
      invariant 0 <= i < pn.Length
      invariant forall k :: i < k < pn.Length ==> pn[k] == x[k]
      invariant Val(pn[..]) - (if pn[i] == BASE - 1 then Power(i + 1) else 0) == Val(x) - 1
      decreases pn.Length - i
    {
      i := i + 1;
      was := pn[..];
      Borrow(was, i);
      pn[i] := Low(pn[i] as int - 1);
      assert pn[..] == was[i := Low(was[i] as int - 1)];
    }
    DropCarry(pn[..], if pn[i] == BASE - 1 then -1 else 0, Val(x) - 1);
  }

  lemma Borrow(s: seq<Word>, k: nat)
    requires k < |s|
    ensures var y := Low(s[k] as int - 1);
            Val(s[k := y]) - (if y == BASE - 1 then Power(k + 1) else 0) == Val(s) - Power(k)
  {
    ValUpdate(s, k, Low(s[k] as int - 1));
    OneDown(s[k], Power(k));
  }

  /** Bitwise complement of every word. */
  method Complement(pn: array<Word>) returns (ret: array<Word>)
    ensures fresh(ret) && ret.Length == pn.Length
    ensures Val(ret[..]) == Power(pn.Length) - 1 - Val(pn[..])
  {
    ret := new Word[pn.Length](_ => 0);
    for i := 0 to pn.Length
      invariant forall k :: 0 <= k < i ==> ret[k] == BASE - 1 - pn[k]
    {
      ret[i] := BASE - 1 - pn[i];
    }
    ValComplement(ret[..], pn[..]);
  }

  lemma {:induction false} ValComplement(s: seq<Word>, t: seq<Word>)
    requires |s| == |t| && forall k :: 0 <= k < |s| ==> s[k] == BASE - 1 - t[k]
    ensures Val(s) + Val(t) == Power(|s|) - 1
  {
    if s != [] {
      var n := |s| - 1;
      ValComplement(s[..n], t[..n]);
      assert s[n] * Power(n) + t[n] * Power(n) == (BASE - 1) * Power(n);
    }
  }

  method Negate(pn: array<Word>) returns (ret: array<Word>)
    requires pn.Length > 0
    ensures fresh(ret) && ret.Length == pn.Length
    ensures Val(ret[..]) == (0 - Val(pn[..])) % Power(pn.Length)
  {
    ret := Complement(pn);
    Increment(ret);
    ModShift(0 - Val(pn[..]), Power(pn.Length), 1);
  }

  lemma ModShift(x: int, m: int, k: int)
    requires m > 0
    ensures (x + k * m) % m == x % m
  {
    assert x + k * m == m * (x / m + k) + x % m;
    DivUnique(x + k * m, m, x / m + k, x % m);
  }

  lemma ModOfMod(x: int, y: int, m: int)
    requires m > 0
    ensures (x + y % m) % m == (x + y) % m
  {
    var k := y / m;
    assert y % m == y + (0 - k) * m;
    ModShift(x + y, m, 0 - k);
  }

  method SubAssign(pn: array<Word>, b: array<Word>)
    requires pn.Length == b.Length > 0
    modifies pn
    ensures Val(pn[..]) == old(Val(pn[..]) - Val(b[..])) % Power(pn.Length)
  {
    var m := Negate(b);
    ModOfMod(Val(pn[..]), 0 - Val(b[..]), Power(pn.Length));
    AddAssign(pn, m);
  }

  method MulWordAssign(pn: array<Word>, b32: Word)
    modifies pn
    ensures Val(pn[..]) == (old(Val(pn[..])) * b32) % Power(pn.Length)
  {
    ghost var x := pn[..];
    var carry: Word := 0;
    for i := 0 to pn.Length
      invariant forall k :: i <= k < pn.Length ==> pn[k] == x[k]
      invariant Val(pn[..]) + carry * Power(i) == Val(x) - Val(x[..i]) + Val(x[..i]) * b32
    {
      var n := WideProduct(carry, b32, pn[i], 0);
      ghost var was := pn[..];
      MulWordStep(was, i, carry, b32, x);
      pn[i] := Low(n);
      assert pn[..] == was[i := Low(n)];
      carry := n / BASE;
    }
    assert x[..pn.Length] == x;
    DropCarry(pn[..], carry, Val(x) * b32);
  }

  /** The 64-bit accumulator holds a carry, a word and a product without wrapping around. */
  function WideProduct(carry: Word, x: Word, y: Word, z: Word): (n: nat)
    ensures n < UINT64 && n / BASE < BASE
    ensures n == carry + z + x * y
  {
    assert x * y <= (BASE - 1) * (BASE - 1) by {
      MulMonotone(x, y, BASE - 1);
      MulMonotone(BASE - 1, x, BASE - 1);
    }
    carry as int + z as int + x as int * y as int
  }

  lemma MulWordStep(s: seq<Word>, i: nat, carry: Word, b32: Word, x: seq<Word>)
    requires |s| == |x| && i < |s| && s[i] == x[i]
    requires Val(s) + carry * Power(i) == Val(x) - Val(x[..i]) + Val(x[..i]) * b32
    ensures var n := WideProduct(carry, b32, s[i], 0);
            Val(s[i := Low(n)]) + (n / BASE) * Power(i + 1) == Val(x) - Val(x[..i + 1]) + Val(x[..i + 1]) * b32
  {
    var n := WideProduct(carry, b32, s[i], 0);
    PutWord(s, i, n);
    ValPrefix(x, i);
    MulWordNumbers(Val(s), carry, Power(i), Val(x), Val(x[..i]), b32, s[i]);
  }

  lemma MulWordNumbers(vs: int, carry: int, p: int, vx: int, v: int, b: int, w: int)
    requires vs + carry * p == vx - v + v * b
    ensures vs + (carry + b * w - w) * p == vx - (v + w * p) + (v + w * p) * b
  {
    Distributes(carry, b * w - w, p);
    Distributes(b * w, 0 - w, p);
    Distributes(v, w * p, b);
    Reorder(b, w, p);
  }

  lemma Reorder(x: int, y: int, z: int)
    ensures (x * y) * z == (y * z) * x
  {
  }

  /** Adds a multiple of the words of b, shifted up by j words and cut off at the top. */
  method AddRow(pn: array<Word>, aj: Word, b: array<Word>, j: nat) returns (carry: Word)
    requires pn.Length == b.Length && j < pn.Length
    requires b == pn ==> forall k :: 0 <= k < pn.Length ==> pn[k] == 0
    modifies pn
    ensures b[..] == old(b[..])
    ensures Val(pn[..]) + carry * Power(pn.Length) == old(Val(pn[..]) + aj * (Power(j) * Val(b[..b.Length - j])))
  {
    ghost var x, y := pn[..], b[..];
    carry := 0;
    for i := 0 to pn.Length - j
      invariant b[..] == y
      invariant b == pn ==> carry == 0 && forall k :: 0 <= k < pn.Length ==> pn[k] == 0
      invariant Val(pn[..]) + carry * Power(i + j) == Val(x) + aj * (Power(j) * Val(y[..i]))
    {
      var n := WideProduct(carry, aj, b[i], pn[i + j]);
      ghost var was := pn[..];
      RowStep(was, i, j, carry, aj, y, Val(x));
      pn[i + j] := Low(n);
      assert pn[..] == was[i + j := Low(n)];
      carry := n / BASE;
    }
  }

  lemma RowStep(s: seq<Word>, i: nat, j: nat, carry: Word, aj: Word, y: seq<Word>, v: int)
    requires i + j < |s| && i < |y|
    requires Val(s) + carry * Power(i + j) == v + aj * (Power(j) * Val(y[..i]))
    ensures var n := WideProduct(carry, aj, y[i], s[i + j]);
            Val(s[i + j := Low(n)]) + (n / BASE) * Power(i + j + 1) == v + aj * (Power(j) * Val(y[..i + 1]))
  {
    var n := WideProduct(carry, aj, y[i], s[i + j]);
    PutWord(s, i + j, n);
    ValPrefix(y, i);
    Distributes(carry, aj * y[i], Power(i + j));
    PowerAdd(i, j);
    RowTerm(aj, Power(j), Val(y[..i]), y[i], Power(i));
  }

  lemma RowTerm(a: int, p: int, v: int, y: int, q: int)
    ensures a * (p * (v + y * q)) == a * (p * v) + (a * y) * (q * p)
  {
    assert p * (v + y * q) == p * v + p * (y * q);
    assert a * (p * v + p * (y * q)) == a * (p * v) + a * (p * (y * q));
    assert a * (p * (y * q)) == (a * y) * (q * p);
  }

  /** What the rows add up to: the product, apart from multiples of the modulus. */
  lemma RowSum(x: seq<Word>, y: seq<Word>, j: nat, q: int, carry: int, before: int, after: int) returns (q': int)
    requires |x| == |y| && j < |x|
    requires before + q * Power(|x|) == Val(x[..j]) * Val(y)
    requires after + carry * Power(|x|) == before + x[j] * (Power(j) * Val(y[..|y| - j]))
    ensures after + q' * Power(|x|) == Val(x[..j + 1]) * Val(y)
  {
    var n := |x|;
    var hi := Val(y[n - j..]);
    q' := q + carry + x[j] * hi;
    ValPrefix(x, j);
    ValSplit(y, n - j);
    PowerAdd(n - j, j);
    RowNumbers(Val(x[..j]), x[j], Power(j), Val(y[..n - j]), hi, Power(n - j), q, carry, before, after);
  }

  lemma RowNumbers(vx: int, xj: int, pj: int, lo: int, hi: int, ph: int, q: int, carry: int, before: int, after: int)
    requires before + q * (ph * pj) == vx * (lo + ph * hi)
    requires after + carry * (ph * pj) == before + xj * (pj * lo)
    ensures after + (q + carry + xj * hi) * (ph * pj) == (vx + xj * pj) * (lo + ph * hi)
  {
    var p, y := ph * pj, lo + ph * hi;
    Distributes(vx, xj * pj, y);
    Associates(xj, pj, y);
    RowTerm(xj, pj, lo, hi, ph);
    Distributes(q + carry, xj * hi, p);
    Distributes(q, carry, p);
  }

  lemma Associates(x: int, y: int, z: int)
    ensures (x * y) * z == x * (y * z)
  {
  }

  /** The words of the product; a number multiplied by itself in place comes out as zero. */
  method MulAssign(pn: array<Word>, b: array<Word>)
    requires pn.Length == b.Length
    modifies pn
    ensures Val(pn[..]) == if b == pn then 0 else old(Val(pn[..]) * Val(b[..])) % Power(pn.Length)
  {
    var a := Copy(pn);
    SetZero(pn);
    ghost var x, y, q := a[..], b[..], 0;
    assert Val(x[..0]) * Val(y) == 0;
    for j := 0 to pn.Length
      invariant a[..] == x && b[..] == y
      invariant b == pn ==> forall k :: 0 <= k < pn.Length ==> pn[k] == 0
      invariant Val(pn[..]) + q * Power(pn.Length) == Val(x[..j]) * Val(y)
    {
      ghost var before := Val(pn[..]);
      var carry := AddRow(pn, a[j], b, j);
      q := RowSum(x, y, j, q, carry, before, Val(pn[..]));
    }
    assert x[..pn.Length] == x;
    if b == pn {
      ValZero(pn[..]);
    } else {
      DropCarry(pn[..], q, Val(x) * Val(y));
    }
  }
}
