/**
 Base58 conversion as it is computed: digit by digit in a buffer whose size is
 estimated beforehand. The estimates are proved to suffice, and the results to
 be what the codec says.
 */
module Base58 {
  import opened Arithmetic
  import opened Radix
  import opened Wrappers
  import opened Base58Codec

  /** 138/100 digits of base 58 per byte, and one more, are enough. */
  lemma EncodeRoom(n: nat)
    ensures Pow(256, n) <= Pow(58, n * 138 / 100 + 1)
  {
    assert Pow(256, 8) <= Pow(58, 11);
    PowRatio(256, 58, 8, 11, n, n * 138 / 100 + 1);
  }

  /** 733/1000 bytes per digit of base 58, and one more, are enough. */
  lemma DecodeRoom(n: nat)
    ensures Pow(58, n) <= Pow(256, n * 733 / 1000 + 1)
  {
    SeventyOne();
    PowRatio(58, 256, 71, 52, n, n * 733 / 1000 + 1);
  }

  lemma SeventyOne()
    ensures Pow(58, 71) <= Pow(256, 52)
  {
    Pow58();
    Pow256();
  }

  const POW58 := 159730386663078066345306447337161584696769904898410078913243029577507397293846405390982563136983769384625594118558891106107392

  lemma Pow58()
    ensures Pow(58, 71) == POW58
  {
    assert Pow(58, 7) == 2207984167552;
    PowAdd(58, 7, 1);
    PowSquare(58, 8);
    PowSquare(58, 16);
    PowSquare(58, 32);
    PowAdd(58, 64, 7);
  }

  lemma PowSquare(b: nat, n: nat)
    ensures Pow(b, 2 * n) == Pow(b, n) * Pow(b, n)
  {
    PowAdd(b, n, n);
  }

  lemma Pow256()
    ensures Pow(256, 52) >= POW58
  {
    assert Pow(256, 13) == 20282409603651670423947251286016;
    PowSquare(256, 13);
    PowSquare(256, 26);
  }

  lemma {:induction false} SkipZeroes(s: seq<nat>, k: nat, base: nat)
    requires k <= |s| && forall i :: 0 <= i < k ==> s[i] == 0
    ensures Val(s, base) == Val(s[k..], base) && StripZeroes(s) == StripZeroes(s[k..])
  {
    if k == 0 {
      assert s[0..] == s;
    } else {
      SkipZeroes(s[1..], k - 1, base);
      assert s[1..][k - 1..] == s[k..] && s == [0] + s[1..];
      ValCons(0, s[1..], base);
    }
  }

  /** One digit of a multiplication: what is carried is what is missing. */
  lemma DigitStep(low: int, low': int, p: int, d: int, carry: int, base: int, mul: int, ch: int)
    requires base > 0 && low' + carry * p == low * mul + ch
    ensures var c := carry + mul * d;
            (c % base) * p + low' + (c / base) * (base * p) == (d * p + low) * mul + ch
  {
    var c := carry + mul * d;
    DivMod(c, base);
    Product(c / base, c % base, base, p);
    assert c * p == carry * p + (mul * d) * p;
    assert (mul * d) * p == (d * p) * mul;
    assert (d * p + low) * mul == (d * p) * mul + low * mul;
  }

  lemma Product(q: int, r: int, base: int, p: int)
    ensures (base * q + r) * p == r * p + q * (base * p)
  {
    assert (base * q) * p == q * (base * p);
  }

  /** What the low digits hold while a buffer is multiplied and added to. */
  ghost predicate Halfway(was: seq<nat>, now: seq<nat>, i: nat, carry: nat, base: nat, mul: nat, ch: nat) {
    && |was| == |now| && i <= |now| && AreDigits(now, base)
    && (forall k :: 0 <= k < |now| - i ==> now[k] == was[k])
    && Val(now[|now| - i..], base) + carry * Pow(base, i) == Val(was[|was| - i..], base) * mul + ch
  }

  lemma HalfwayStep(was: seq<nat>, now: seq<nat>, i: nat, carry: nat, base: nat, mul: nat, ch: nat)
    requires Halfway(was, now, i, carry, base, mul, ch) && i < |now| && base >= 2
    ensures var c := carry + mul * now[|now| - 1 - i];
            && 0 <= c % base < base && 0 <= c / base
            && Halfway(was, now[|now| - 1 - i := c % base], i + 1, c / base, base, mul, ch)
  {
    var k := |now| - 1 - i;
    var c := carry + mul * now[k];
    MulMonotone(mul, 0, now[k]);
    DivMod(c, base);
    DivAtLeast(c, base, 0);
    var next := now[k := c % base];
    assert was[k..] == [was[k]] + was[k + 1..];
    assert next[k..] == [c % base] + now[k + 1..];
    ValCons(was[k], was[k + 1..], base);
    ValCons(c % base, now[k + 1..], base);
    DigitStep(Val(was[k + 1..], base), Val(now[k + 1..], base), Pow(base, i), was[k], carry, base, mul, ch);
  }

  /** Stopping early is right when nothing is carried and the digits above are zero; the end, when the room suffices. */
  lemma HalfwayDone(was: seq<nat>, now: seq<nat>, i: nat, carry: nat, base: nat, mul: nat, ch: nat)
    requires Halfway(was, now, i, carry, base, mul, ch) && base >= 2
    requires Val(was, base) * mul + ch < Pow(base, |now|)
    requires i == |now| || (carry == 0 && forall k :: 0 <= k < |now| - i ==> was[k] == 0)
    ensures carry == 0 && Val(now, base) == Val(was, base) * mul + ch
  {
    if i == |now| {
      assert now[0..] == now && was[0..] == was;
      NoCarry(Val(now, base), carry, Pow(base, i));
    } else {
      SkipZeroes(was, |now| - i, base);
      SkipZeroes(now, |now| - i, base);
      assert carry * Pow(base, i) == 0;
    }
  }

  lemma NoCarry(v: nat, carry: nat, p: nat)
    requires v + carry * p < p
    ensures carry == 0 && carry * p == 0
  {
    if carry > 0 { Times(p, 1, carry); }
  }

  /** Multiplies one digit, adds the carry, keeps the digit and returns what is carried on. */
  method PutDigit(b: array<nat>, i: nat, carry: nat, base: nat, mul: nat, ghost was: seq<nat>, ghost ch: nat)
    returns (carry': nat)
    requires Halfway(was, b[..], i, carry, base, mul, ch) && i < b.Length && base >= 2 && carry < mul
    modifies b
    ensures Halfway(was, b[..], i + 1, carry', base, mul, ch) && carry' < mul
  {
    var k := b.Length - 1 - i;
    ghost var now := b[..];
    HalfwayStep(was, now, i, carry, base, mul, ch);
    var c := carry + mul * b[k];
    CarryBound(carry, b[k], base, mul);
    var digit: nat := c % base;
    b[k] := digit;
    assert b[..] == now[k := digit];
    carry' := c / base;
  }

  lemma CarryBound(carry: nat, d: nat, base: nat, mul: nat)
    requires carry < mul && d < base
    ensures (carry + mul * d) / base < mul
  {
    MulMonotone(mul, d + 1, base);
    assert mul * (d + 1) == mul * d + mul;
    DivLess(carry + mul * d, base, mul);
  }

  /** b58 = b58 * 256 + ch, over the digits in use and those that the carry reaches. */
  method MulAdd256(b58: array<nat>, length: nat, ch: Byte) returns (len: nat)
    requires length <= b58.Length && AreDigits(b58[..], 58)
    requires forall k :: 0 <= k < b58.Length - length ==> b58[k] == 0
    requires Val(b58[..], 58) * 256 + ch < Pow(58, b58.Length)
    modifies b58
    ensures AreDigits(b58[..], 58) && Val(b58[..], 58) == old(Val(b58[..], 58)) * 256 + ch
    ensures length <= len <= b58.Length && forall k :: 0 <= k < b58.Length - len ==> b58[k] == 0
  {
    var carry: nat, i := ch, 0;
    ghost var was := b58[..];
    assert Pow(58, 0) == 1;
    while (carry != 0 || i < length) && i < b58.Length
      invariant 0 <= i <= b58.Length && 0 <= carry < 256
      invariant Halfway(was, b58[..], i, carry, 58, 256, ch)
      decreases b58.Length - i
    {
      carry := PutDigit(b58, i, carry, 58, 256, was, ch);
      i := i + 1;
    }
    HalfwayDone(was, b58[..], i, carry, 58, 256, ch);
    assert carry == 0;
    len := i;
  }

  /** b256 = b256 * 58 + ch, over the whole buffer. */
  method MulAdd58(b256: array<nat>, ch: nat)
    requires AreDigits(b256[..], 256) && ch < 58
    requires Val(b256[..], 256) * 58 + ch < Pow(256, b256.Length)
    modifies b256
    ensures AreDigits(b256[..], 256) && Val(b256[..], 256) == old(Val(b256[..], 256)) * 58 + ch
  {
    var carry := ch;
    ghost var was := b256[..];
    assert Pow(256, 0) == 1;
    for i := 0 to b256.Length
      invariant 0 <= carry < 58
      invariant Halfway(was, b256[..], i, carry, 256, 58, ch)
    {
      carry := PutDigit(b256, i, carry, 256, 58, was, ch);
    }
    HalfwayDone(was, b256[..], b256.Length, carry, 256, 58, ch);
    assert carry == 0;
  }

  /** The digits from a position on, without leading zeroes. */
  method SkipLeading(b: array<nat>, start: nat) returns (it: nat)
    requires start <= b.Length && forall k :: 0 <= k < start ==> b[k] == 0
    ensures start <= it <= b.Length && b[it..] == StripZeroes(b[..])
  {
    it := start;
    while it < b.Length && b[it] == 0
      invariant start <= it <= b.Length && forall k :: 0 <= k < it ==> b[k] == 0
    {
      it := it + 1;
    }
    SkipZeroes(b[..], it, 2);
    assert b[..][it..] == b[it..];
  }

  method EncodeBase58(v: seq<Byte>) returns (str: string)
    ensures str == Encode(v)
  {
    var zeroes := 0;
    while zeroes < |v| && v[zeroes] == 0
      invariant zeroes <= |v| && forall k :: 0 <= k < zeroes ==> v[k] == 0
    {
      zeroes := zeroes + 1;
    }
    ZeroesCounted(v, zeroes);
    SkipZeroes(v, zeroes, 256);
    var b58, length := Convert256(v[zeroes..]);
    StripIsDigits(b58[..], 58);
    var it := SkipLeading(b58, b58.Length - length);
    DigitsBelow(Val(v, 256), 58);
    AlphabetIs();
    str := ToChars(b58, it, Ones(zeroes));
  }

  method ToChars(b58: array<nat>, first: nat, prefix: string) returns (str: string)
    requires first <= b58.Length && AreDigits(b58[first..], 58)
    ensures str == prefix + Chars(b58[first..])
  {
    AlphabetIs();
    ghost var all := Chars(b58[first..]);
    str := prefix;
    var it := first;
    while it < b58.Length
      invariant first <= it <= b58.Length && str == prefix + all[..it - first]
    {
      assert b58[first..][it - first] == b58[it];
      str := str + [ALPHABET[b58[it]]];
      it := it + 1;
    }
    assert all[..|all|] == all;
  }

  lemma {:induction false} ZeroesCounted(s: seq<nat>, k: nat)
    requires k <= |s| && (forall i :: 0 <= i < k ==> s[i] == 0) && (k < |s| ==> s[k] != 0)
    ensures LeadingZeroes(s) == k
  {
    if k > 0 { ZeroesCounted(s[1..], k - 1); }
  }

  /** Fills a buffer with the base 58 digits of a byte vector; only the last length ones can be non-zero. */
  method Convert256(v: seq<Byte>) returns (b58: array<nat>, length: nat)
    ensures AreDigits(b58[..], 58) && Val(b58[..], 58) == Val(v, 256)
    ensures length <= b58.Length && forall k :: 0 <= k < b58.Length - length ==> b58[k] == 0
  {
    var size := |v| * 138 / 100 + 1;
    b58 := new nat[size](_ => 0);
    length := 0;
    SkipZeroes(b58[..], size, 58);
    for j := 0 to |v|
      invariant AreDigits(b58[..], 58) && Val(b58[..], 58) == Val(v[..j], 256)
      invariant length <= b58.Length == size && forall k :: 0 <= k < b58.Length - length ==> b58[k] == 0
    {
      assert v[..j + 1][..j] == v[..j];
      EncodeFits(v, j + 1);
      length := MulAdd256(b58, length, v[j]);
    }
    assert v[..|v|] == v;
  }

  lemma EncodeFits(v: seq<Byte>, j: nat)
    requires j <= |v|
    ensures Val(v[..j], 256) < Pow(58, |v| * 138 / 100 + 1)
  {
    ValBound(v[..j], 256);
    PowExponent(256, j, |v|);
    EncodeRoom(|v|);
  }

  /** What a C string holds: the characters before the first zero. */
  function CString(s: string): string {
    if s == [] || s[0] == 0 as char then [] else [s[0]] + CString(s[1..])
  }

  method PastSpaces(s: string, start: nat) returns (p: nat)
    requires start <= |s|
    ensures start <= p <= |s| && (forall k :: start <= k < p ==> IsSpace(s[k])) && (p < |s| ==> !IsSpace(s[p]))
  {
    p := start;
    while p < |s| && IsSpace(s[p])
      invariant start <= p <= |s| && forall k :: start <= k < p ==> IsSpace(s[k])
    {
      p := p + 1;
    }
  }

  method PastOnes(s: string, start: nat) returns (p: nat)
    requires start <= |s|
    ensures start <= p <= |s| && (forall k :: start <= k < p ==> s[k] == '1') && (p < |s| ==> s[p] != '1')
  {
    p := start;
    while p < |s| && s[p] == '1'
      invariant start <= p <= |s| && forall k :: start <= k < p ==> s[k] == '1'
    {
      p := p + 1;
    }
  }

  method DecodeBase58(str: string) returns (r: Option<seq<nat>>)
    ensures r == Decode(CString(str))
  {
    var s := CString(str);
    var start := PastSpaces(s, 0);
    var psz := PastOnes(s, start);
    DecodeBy(s, start, psz);
    var ok, b256, read := Convert58(s[psz..]);
    if !ok { return None; }
    r := Finish(s, psz + read, psz - start, b256);
  }

  /** Skips trailing white space and copies the result. */
  method Finish(s: string, after: nat, zeroes: nat, b256: array<nat>) returns (r: Option<seq<nat>>)
    requires after <= |s| && AreDigits(b256[..], 256)
    ensures r == if !AllSpaces(s[after..]) then None else Some(Zeroes(zeroes) + Digits(Val(b256[..], 256), 256))
  {
    var end := PastSpaces(s, after);
    if end != |s| {
      assert !IsSpace(s[after..][end - after]);
      return None;
    }
    assert AllSpaces(s[after..]);
    StripIsDigits(b256[..], 256);
    var it := SkipLeading(b256, 0);
    r := Some(Zeroes(zeroes) + b256[it..]);
  }

  /** What a string decodes to, in terms of where its word starts and the ones at its front end. */
  lemma DecodeBy(s: string, start: nat, psz: nat)
    requires start <= psz <= |s|
    requires (forall k :: 0 <= k < start ==> IsSpace(s[k])) && (start < |s| ==> !IsSpace(s[start]))
    requires (forall k :: start <= k < psz ==> s[k] == '1') && (psz < |s| ==> s[psz] != '1')
    ensures var u := s[psz..];
            var ds := Indices(u[..WordLength(u)]);
            Decode(s) == if !AllSpaces(s[psz + WordLength(u)..]) || ds.None? then None
                         else Some(Zeroes(psz - start) + Digits(Val(ds.value, 58), 256))
  {
    var t, z := s[start..], psz - start;
    SpaceCountIs(s, start);
    assert forall k :: 0 <= k < z ==> t[k] == '1';
    Parts(t, z);
    assert t[z..] == s[psz..];
    assert t[WordLength(t)..] == s[psz + WordLength(s[psz..])..];
    DecodeFront(s, t, z);
  }

  lemma DecodeFront(s: string, t: string, z: nat)
    requires t == s[SpaceCount(s)..] && z <= WordLength(t) && CountOnes(t[..WordLength(t)]) == z
    ensures var ds := Indices(t[..WordLength(t)][z..]);
            Decode(s) == if !AllSpaces(t[WordLength(t)..]) || ds.None? then None
                         else Some(Zeroes(z) + Digits(Val(ds.value, 58), 256))
  {
    assert FirstWord(s) == t[..WordLength(t)];
    assert OneWord(s) <==> AllSpaces(t[WordLength(t)..]);
  }

  /** The word at the front of a string, and its digits after so many ones. */
  lemma Parts(t: string, z: nat)
    requires z <= |t| && (forall k :: 0 <= k < z ==> t[k] == '1') && (z < |t| ==> t[z] != '1')
    ensures var w, u := t[..WordLength(t)], t[z..];
            && CountOnes(w) == z <= |w|
            && w[z..] == u[..WordLength(u)]
            && t[WordLength(t)..] == t[z + WordLength(u)..]
  {
    OnesInWord(t, z);
    WordAfter(t, z);
  }

  lemma OnesInWord(t: string, z: nat)
    requires z <= |t| && (forall k :: 0 <= k < z ==> t[k] == '1') && (z < |t| ==> t[z] != '1')
    ensures z <= WordLength(t) && CountOnes(t[..WordLength(t)]) == z
  {
    var n := WordLength(t);
    WordLengthMeans(t);
    assert z <= n;
    OnesAre(t[..n], z);
  }

  lemma {:induction false} OnesAre(w: string, z: nat)
    requires z <= |w| && (forall k :: 0 <= k < z ==> w[k] == '1') && (z < |w| ==> w[z] != '1')
    ensures CountOnes(w) == z
  {
    if z > 0 { OnesAre(w[1..], z - 1); }
  }

  lemma WordAfter(t: string, z: nat)
    requires z <= WordLength(t)
    ensures WordLength(t[z..]) == WordLength(t) - z
  {
    WordLengthMeans(t);
    WordLengthIs(t[z..], WordLength(t) - z);
  }

  /** Fills a buffer with the bytes that the leading word of a string stands for, or fails on a foreign character. */
  method Convert58(u: string) returns (ok: bool, b256: array<nat>, read: nat)
    ensures ok <==> Indices(u[..WordLength(u)]).Some?
    ensures ok ==> read == WordLength(u)
    ensures AreDigits(b256[..], 256)
    ensures ok ==> Val(b256[..], 256) == Val(Indices(u[..WordLength(u)]).value, 58)
  {
    b256 := new nat[|u| * 733 / 1000 + 1](_ => 0);
    SkipZeroes(b256[..], b256.Length, 256);
    read := 0;
    ghost var n := WordLength(u);
    WordLengthMeans(u);
    while read < |u| && !IsSpace(u[read])
      invariant read <= n && b256.Length == |u| * 733 / 1000 + 1 && Holds58(b256[..], u, read)
    {
      assert read < n;
      var ch := FindDigit(u[read]);
      if ch.None? {
        ForeignCharacter(u[..n], read);
        return false, b256, read;
      }
      ReadMore(b256[..], u, read);
      MulAdd58(b256, ch.value);
      read := read + 1;
    }
    assert read == n && u[..read] == u[..n];
    ok := true;
  }

  /** The first place of a character in the alphabet. */
  method FindDigit(c: char) returns (r: Option<nat>)
    ensures r == DigitOf(c)
  {
    AlphabetIs();
    for d := 0 to |ALPHABET|
      invariant forall k :: 0 <= k < d ==> DigitChar(k) != c
    {
      if ALPHABET[d] == c { return Some(d); }
    }
    return None;
  }

  /** A buffer holds the number that the first characters stand for. */
  ghost predicate Holds58(b: seq<nat>, u: string, read: nat) {
    && read <= |u| && AreDigits(b, 256) && Indices(u[..read]).Some?
    && Val(b, 256) == Val(Indices(u[..read]).value, 58)
  }

  lemma ReadMore(b: seq<nat>, u: string, read: nat)
    requires Holds58(b, u, read) && read < |u| && DigitOf(u[read]).Some? && |b| == |u| * 733 / 1000 + 1
    ensures Val(b, 256) * 58 + DigitOf(u[read]).value < Pow(256, |b|)
    ensures Indices(u[..read + 1]).Some?
    ensures Val(Indices(u[..read + 1]).value, 58) == Val(b, 256) * 58 + DigitOf(u[read]).value
  {
    ReadDigit(u, read);
    DecodeFits(Indices(u[..read + 1]).value, |u|);
  }

  lemma ReadDigit(u: string, read: nat)
    requires read < |u| && Indices(u[..read]).Some? && DigitOf(u[read]).Some?
    ensures Indices(u[..read + 1]).Some?
    ensures Val(Indices(u[..read + 1]).value, 58) == Val(Indices(u[..read]).value, 58) * 58 + DigitOf(u[read]).value
  {
    var next, ds, d := u[..read + 1], Indices(u[..read]).value, DigitOf(u[read]).value;
    assert next[..read] == u[..read] && next[read] == u[read];
    assert Indices(next) == Some(ds + [d]);
    assert (ds + [d])[..read] == ds;
  }

  lemma {:induction false} ForeignCharacter(s: string, k: nat)
    requires k < |s| && DigitOf(s[k]).None?
    ensures Indices(s).None?
  {
    if k < |s| - 1 { ForeignCharacter(s[..|s| - 1], k); }
  }

  lemma DecodeFits(ds: seq<nat>, n: nat)
    requires |ds| <= n && AreDigits(ds, 58)
    ensures Val(ds, 58) < Pow(256, n * 733 / 1000 + 1)
  {
    ValBound(ds, 58);
    PowExponent(58, |ds|, n);
    DecodeRoom(n);
  }
}
