/** Compact targets over the words of a 256-bit number, and the work of a block. */
module BlockProof {
  import opened Arithmetic
  import opened Limbs
  import opened Arith256
  import opened ArithShift
  import opened ArithDivision
  import opened CompactTarget

  const WIDTH := 8

  lemma LowWords(s: seq<Word>)
    requires |s| >= 2
    ensures Val(s) == s[0] + BASE * s[1] + BASE * BASE * Val(s[2..])
  {
    ValSplit(s, 2);
    ValPrefix(s, 0);
    ValPrefix(s, 1);
    assert Power(1) == BASE && Power(2) == BASE * BASE;
  }

  /** Assigns a 64-bit number. */
  method Assign(pn: array<Word>, b: nat)
    requires pn.Length >= 2 && b < UINT64
    modifies pn
    ensures Val(pn[..]) == b
  {
    pn[0], pn[1] := Low(b), b / BASE;
    for i := 2 to pn.Length
      invariant pn[0] == Low(b) && pn[1] == b / BASE
      invariant forall k :: 2 <= k < i ==> pn[k] == 0
    {
      pn[i] := 0;
    }
    LowWords(pn[..]);
    ValZero(pn[2..]);
    assert pn[..][2..] == pn[2..];
  }

  method EqualTo(pn: array<Word>, b: nat) returns (r: bool)
    requires pn.Length >= 2 && b < UINT64
    ensures r <==> Val(pn[..]) == b
  {
    LowWords(pn[..]);
    ghost var high := pn[..][2..];
    for i := pn.Length downto 2
      invariant forall k :: i <= k < pn.Length ==> pn[k] == 0
    {
      if pn[i] != 0 {
        NonZero(high, i - 2);
        return false;
      }
    }
    ValZero(high);
    return pn[1] == b / BASE && pn[0] == Low(b);
  }

  lemma NonZero(s: seq<Word>, i: nat)
    requires i < |s| && s[i] != 0
    ensures Val(s) > 0
  {
    ValUpdate(s, i, 0);
    MulMonotone(Power(i), 1, s[i]);
  }

  /** The lowest 64 bits. */
  function GetLow64(s: seq<Word>): nat
    requires |s| >= 2
  {
    Or(s[0], s[1] * BASE)
  }

  lemma Low64Is(s: seq<Word>)
    requires |s| >= 2 && Val(s) < UINT64
    ensures GetLow64(s) == Val(s)
  {
    Pow2Word();
    OrAdds(s[0], s[1] * BASE, 32);
    LowWords(s);
  }

  /** The value, reduced to the width; the overflow flag tells exactly when that loses something. */
  method SetCompact(pn: array<Word>, nCompact: Word) returns (fNegative: bool, fOverflow: bool)
    requires pn.Length == WIDTH
    modifies pn
    ensures Val(pn[..]) == Denoted(Split(nCompact)) % UINT256
    ensures fNegative <==> SignBit(nCompact) && Denoted(Split(nCompact)) != 0
    ensures fOverflow <==> Denoted(Split(nCompact)) >= UINT256
  {
    ghost var c := Split(nCompact);
    var nSize, nWord := nCompact / 0x100_0000, nCompact % 0x80_0000;
    OverflowExact(c);
    Width256();
    if nSize <= 3 {
      Pow256Pow2(3 - nSize);
      nWord := nWord / Pow2(8 * (3 - nSize));
      Assign(pn, nWord);
      DivUnique(nWord, UINT256, 0, nWord);
    } else {
      Assign(pn, nWord);
      Pow256Pow2(nSize - 3);
      ShiftLeftAssign(pn, 8 * (nSize - 3));
      MulMonotone(nWord, 1, Pow256(nSize - 3));
    }
    fNegative := nWord != 0 && SignBit(nCompact);
    fOverflow := Overflows(nSize, nWord);
  }

  /** The bit length rounded up to bytes. */
  lemma BytesOfBits(x: nat, n: nat)
    requires n == 0 <==> x == 0
    requires n > 0 ==> Pow2(n - 1) <= x < Pow2(n)
    ensures ByteSize(x) == (n + 7) / 8
  {
    var k := (n + 7) / 8;
    Pow256Pow2(k);
    if k > 0 {
      Pow2Monotone(n, 8 * k);
      Pow256Pow2(k - 1);
      Pow2Monotone(8 * (k - 1), n - 1);
    }
    ByteSizeIs(x, k);
  }

  lemma Pow2Monotone(i: nat, j: nat)
    requires i <= j
    ensures Pow2(i) <= Pow2(j)
  {
    Pow2Add(i, j - i);
    MulMonotone(Pow2(i), 1, Pow2(j - i));
  }

  /** Setting a bit between the mantissa and the exponent. */
  lemma {:induction false} OrMiddle(low: nat, high: nat, k: nat)
    requires low < Pow2(k) && high % Pow2(k + 1) == 0
    ensures Or(low + high, Pow2(k)) == low + high + Pow2(k)
  {
    HalfMultiple(high, Pow2(k));
    if k > 0 {
      OrMiddle(low / 2, high / 2, k - 1);
    } else {
      OrZero(high / 2);
    }
  }

  /** The compact form, with the sign bit set for a negative number whose mantissa is not zero. */
  method GetCompact(pn: array<Word>, fNegative: bool) returns (nCompact: Word)
    requires pn.Length == WIDTH
    ensures Val(pn[..]) < UINT256
    ensures Split(nCompact) == Split(ToCompact(Val(pn[..])))
    ensures SignBit(nCompact) <==> fNegative && Split(nCompact).word != 0
  {
    Width256();
    ValBound(pn[..]);
    var nBits := Bits(pn);
    BytesOfBits(Val(pn[..]), nBits);
    var nSize := (nBits + 7) / 8;
    var nWord := LeadingWord(pn, nSize);
    nSize, nWord := ClearSign(Val(pn[..]), nSize, nWord);
    assert nWord < 0x80_0000;
    assert nSize < 256;
    nCompact := Pack(nSize, nWord, fNegative);
  }

  /** The top bit of the mantissa denotes the sign: a mantissa that has it set gives up a byte. */
  method ClearSign(ghost x: nat, nSize: nat, nWord: nat) returns (size: nat, word: nat)
    requires x < UINT256 && nSize == ByteSize(x) && nWord == Leading(x, nSize)
    ensures size < 256 && word < 0x80_0000
    ensures Compact(size, word) == Split(ToCompact(x))
  {
    SizeFits(x);
    LeadingBounds(x);
    size, word := nSize, nWord;
    if word / 0x80_0000 % 2 == 1 {
      word := word / 256;
      size := size + 1;
    }
  }

  method LeadingWord(pn: array<Word>, nSize: nat) returns (nWord: nat)
    requires pn.Length == WIDTH && nSize == ByteSize(Val(pn[..]))
    ensures nWord == Leading(Val(pn[..]), nSize)
  {
    ByteSizeBounds(Val(pn[..]));
    LeadingBounds(Val(pn[..]));
    if nSize <= 3 {
      Pow256Monotone(nSize, 3);
      assert Pow256(3) == 0x100_0000;
      Low64Is(pn[..]);
      Pow256Pow2(3 - nSize);
      nWord := GetLow64(pn[..]) * Pow2(8 * (3 - nSize));
    } else {
      var bn := Copy(pn);
      Pow256Pow2(nSize - 3);
      ShiftRightAssign(bn, 8 * (nSize - 3));
      Low64Is(bn[..]);
      nWord := GetLow64(bn[..]);
    }
  }

  method Pack(nSize: nat, nWord: nat, fNegative: bool) returns (nCompact: Word)
    requires nSize < 256 && nWord < 0x80_0000
    ensures nCompact == Join(Compact(nSize, nWord), fNegative && nWord != 0)
  {
    assert Pow2(23) == 0x80_0000 && Pow2(24) == 0x100_0000 by {
      Pow2Word();
      Pow2Add(8, 8);
      Pow2Add(16, 7);
    }
    OrAdds(nWord, nSize * 0x100_0000, 24);
    var n := Or(nWord, nSize * 0x100_0000);
    OrMiddle(nWord, nSize * 0x100_0000, 23);
    OrZero(n);
    n := Or(n, if fNegative && n % 0x80_0000 != 0 then 0x80_0000 else 0);
    nCompact := n;
  }

  /** The expected number of hashes for a block: the quotient of 2^256 by the target plus one. */
  method GetBlockProof(nBits: Word) returns (work: array<Word>)
    ensures work.Length == WIDTH
    ensures var target := Denoted(Split(nBits));
            Val(work[..]) == if SignBit(nBits) || target >= UINT256 || target == 0 then 0
                             else UINT256 / (target + 1)
  {
    var bnTarget := new Word[WIDTH](_ => 0);
    var fNegative, fOverflow := SetCompact(bnTarget, nBits);
    var isZero := EqualTo(bnTarget, 0);
    if fNegative || fOverflow || isZero {
      work := new Word[WIDTH](_ => 0);
      ValZero(work[..]);
      ghost var target := Denoted(Split(nBits));
      if target < UINT256 { DivUnique(target, UINT256, 0, target); }
      return;
    }
    work := Quotient(bnTarget, Denoted(Split(nBits)));
  }

  method Quotient(bnTarget: array<Word>, ghost target: nat) returns (work: array<Word>)
    requires bnTarget.Length == WIDTH && 0 < target < UINT256
    requires Val(bnTarget[..]) == target % UINT256
    requires exists c: Compact :: c.word < 0x80_0000 && Denoted(c) == target
    ensures work.Length == WIDTH && Val(work[..]) == UINT256 / (target + 1)
  {
    Width256();
    ghost var c: Compact :| c.word < 0x80_0000 && Denoted(c) == target;
    TargetNotMax(c);
    DivUnique(target, UINT256, 0, target);
    work := Complement(bnTarget);
    var d := Copy(bnTarget);
    Increment(d);
    DivUnique(target + 1, UINT256, 0, target + 1);
    ProofNumbers(target, UINT256);
    var ok, num := DivAssign(work, d);
    Increment(work);
  }

  lemma ProofNumbers(target: nat, m: nat)
    requires 0 < target < m
    ensures var q := (m - 1 - target) / (target + 1);
            (q + 1) % m == q + 1 == m / (target + 1)
  {
    var d := target + 1;
    var q, r := (m - 1 - target) / d, (m - 1 - target) % d;
    DivMod(m - 1 - target, d);
    assert m == d * (q + 1) + r;
    DivUnique(m, d, q + 1, r);
    DivAtLeast(m - 1 - target, d, 0);
    MulMonotone(q + 1, 2, d);
    DivUnique(q + 1, m, 0, q + 1);
  }
}
