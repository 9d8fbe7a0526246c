/** Numbers of variable length: seven bits to a byte, most significant first, all but the last byte with the top bit
    set and one subtracted, so that a number has one encoding only. */
module VarInts {
  import opened Arithmetic
  import opened Coins

  type Stream = seq<Byte>

  /** A value read from the front of a stream, and what is left. */
  datatype Reading<+T> = End | Got(value: T, rest: Stream)

  /** A negative number, which the type admits, takes the path of the small ones: its low seven bits are written. */
  function VarInt(n: int): Stream {
    if n <= 0x7f then [n % 128] else Continued(n / 128 - 1) + [n % 128]
  }

  /** All bytes but the last have the top bit set. */
  function Continued(n: nat): Stream
    decreases n
  {
    if n <= 0x7f then [0x80 + n] else Continued(n / 128 - 1) + [0x80 + n % 128]
  }

  function ReadFrom(s: Stream, n: nat): Reading<nat>
    decreases |s|
  {
    if s == [] then End
    else if s[0] >= 0x80 then ReadFrom(s[1..], n * 128 + (s[0] - 0x80) + 1)
    else Got(n * 128 + s[0], s[1..])
  }

  function ReadVarInt(s: Stream): Reading<nat> {
    ReadFrom(s, 0)
  }

  lemma {:induction false} ReadContinued(n: nat, rest: Stream)
    ensures ReadFrom(Continued(n) + rest, 0) == ReadFrom(rest, n + 1)
    decreases n
  {
    var s := Continued(n) + rest;
    if n <= 0x7f {
      assert s[1..] == rest;
    } else {
      var last: Byte := 0x80 + n % 128;
      assert s == Continued(n / 128 - 1) + ([last] + rest);
      ReadContinued(n / 128 - 1, [last] + rest);
      assert ([last] + rest)[1..] == rest;
    }
  }

  /** What a number comes back as. */
  function Stored(n: int): nat {
    if n >= 0 then n else n % 128
  }

  /** Reading takes writing back exactly when the number is not negative. */
  lemma ReadVarIntBack(n: int, rest: Stream)
    ensures ReadVarInt(VarInt(n) + rest) == Got(Stored(n), rest)
    ensures ReadVarInt(VarInt(n) + rest) == Got(n, rest) <==> n >= 0
  {
    var s := VarInt(n) + rest;
    if n <= 0x7f {
      assert s[1..] == rest;
    } else {
      var last: Byte := n % 128;
      assert s == Continued(n / 128 - 1) + ([last] + rest);
      ReadContinued(n / 128 - 1, [last] + rest);
      assert ([last] + rest)[1..] == rest;
    }
  }

  /** Minus one is written as one byte and comes back as 127. */
  lemma MinusOne()
    ensures VarInt(-1) == [0x7f] && ReadVarInt(VarInt(-1)) == Got(127, [])
  {
    ReadVarIntBack(-1, []);
    assert VarInt(-1) + [] == VarInt(-1);
  }

  // ---------- the loops ----------

  function Reversed(s: Stream): Stream {
    if s == [] then [] else [s[|s| - 1]] + Reversed(s[..|s| - 1])
  }

  lemma SevenBits(n: nat, k: nat)
    requires FitsIn(n, k) && n > 0x7f
    ensures k >= 2 && FitsIn(n / 128 - 1, k - 1)
  {
    assert Pow2(7) == 128;
    if k < 2 {
      Pow2Grows(7 * k, 7);
    } else {
      var p := 7 * (k - 1);
      assert Pow2(p + 7) == 128 * Pow2(p) by {
        assert Pow2(p + 7) == 2 * Pow2(p + 6) && Pow2(p + 6) == 2 * Pow2(p + 5) && Pow2(p + 5) == 2 * Pow2(p + 4);
        assert Pow2(p + 4) == 2 * Pow2(p + 3) && Pow2(p + 3) == 2 * Pow2(p + 2) && Pow2(p + 2) == 2 * Pow2(p + 1);
      }
    }
  }

  lemma {:induction false} Pow2Grows(a: nat, b: nat)
    requires a <= b
    ensures Pow2(a) <= Pow2(b)
    decreases b - a
  {
    if a < b { Pow2Grows(a + 1, b); }
  }

  function Digit(n: int, len: nat): Byte {
    n % 128 + if len > 0 then 0x80 else 0
  }

  /** The bytes in the order in which they are found, the last one first. */
  function Digits(n: int, len: nat): Stream
    decreases n
  {
    [Digit(n, len)] + if n <= 0x7f then [] else Digits(n / 128 - 1, len + 1)
  }

  lemma {:induction false} ReversedCons(x: Byte, s: Stream)
    ensures Reversed([x] + s) == Reversed(s) + [x]
  {
    if s == [] {
      assert [x] + s == [x];
    } else {
      ReversedCons(x, s[..|s| - 1]);
      assert ([x] + s)[..|s|] == [x] + s[..|s| - 1];
    }
  }

  lemma ContinuedStep(n: nat, higher: nat, len: nat)
    requires n > 0x7f && higher == n / 128 - 1 && len > 0 && Reversed(Digits(higher, len + 1)) == Continued(higher)
    ensures Reversed(Digits(n, len)) == Continued(n)
  {
    ReversedCons(Digit(n, len), Digits(higher, len + 1));
  }

  lemma ContinuedEnd(n: nat, len: nat)
    requires n <= 0x7f && len > 0
    ensures Reversed(Digits(n, len)) == Continued(n)
  {
    assert [Digit(n, len)][..0] == [];
  }

  lemma {:induction false} DigitsContinued(n: nat, len: nat)
    requires len > 0
    ensures Reversed(Digits(n, len)) == Continued(n)
    decreases n
  {
    if n > 0x7f {
      var higher := n / 128 - 1;
      DigitsContinued(higher, len + 1);
      ContinuedStep(n, higher, len);
    } else {
      ContinuedEnd(n, len);
    }
  }

  lemma VarIntStep(n: nat, higher: nat)
    requires n > 0x7f && higher == n / 128 - 1 && Reversed(Digits(higher, 1)) == Continued(higher)
    ensures Reversed(Digits(n, 0)) == VarInt(n)
  {
    ReversedCons(Digit(n, 0), Digits(higher, 1));
  }

  lemma DigitsAre(n: int)
    ensures Reversed(Digits(n, 0)) == VarInt(n)
  {
    if n > 0x7f {
      DigitsContinued(n / 128 - 1, 1);
      VarIntStep(n, n / 128 - 1);
    } else {
      assert [Digit(n, 0)][..0] == [];
    }
  }

  lemma Regroup(a: Stream, x: Byte, b: Stream)
    ensures a + [x] + b == a + ([x] + b)
  {
  }

  /** The number has at most so many bytes. */
  ghost predicate FitsIn(n: int, k: nat) {
    n < Pow2(7 * k)
  }

  lemma {:induction false} DigitsFit(n: int, len: nat, k: nat)
    requires FitsIn(n, k) && k > 0
    ensures |Digits(n, len)| <= k
    decreases n
  {
    if n > 0x7f {
      SevenBits(n, k);
      DigitsFit(n / 128 - 1, len + 1, k - 1);
    }
  }

  lemma BufferFits(w: nat, n: int)
    requires w > 0 && n < Pow2(w)
    ensures |Digits(n, 0)| <= (w + 6) / 7
  {
    Pow2Grows(w, 7 * ((w + 6) / 7));
    DigitsFit(n, 0, (w + 6) / 7);
  }

  /** Writes a number of a type with w bits, collecting the bytes in a buffer of just enough of them. */
  method WriteVarInt(w: nat, number: int) returns (os: Stream)
    requires w > 0 && number < Pow2(w)
    ensures os == VarInt(number)
  {
    BufferFits(w, number);
    var tmp := new Byte[(w + 6) / 7];
    var len := Collect(tmp, number);
    DigitsAre(number);
    os := FromLast(tmp, len);
  }

  method Collect(tmp: array<Byte>, number: int) returns (len: nat)
    requires |Digits(number, 0)| <= tmp.Length
    modifies tmp
    ensures len <= tmp.Length && tmp[..len] == Digits(number, 0)
  {
    var n := number;
    len := 0;
    while n > 0x7f
      invariant len + |Digits(n, len)| <= tmp.Length && Digits(number, 0) == tmp[..len] + Digits(n, len)
      decreases n
    {
      PutNext(tmp, len, n);
      n := n / 128 - 1;
      len := len + 1;
    }
    PutNext(tmp, len, n);
    len := len + 1;
  }

  method PutNext(tmp: array<Byte>, len: nat, n: int)
    requires len < tmp.Length
    modifies tmp
    ensures tmp[..len + 1] == old(tmp[..len]) + [Digit(n, len)]
    ensures old(tmp[..len]) + Digits(n, len) == tmp[..len + 1] + if n <= 0x7f then [] else Digits(n / 128 - 1, len + 1)
  {
    tmp[len] := Digit(n, len);
    assert tmp[..len + 1] == old(tmp[..len]) + [Digit(n, len)];
    Regroup(old(tmp[..len]), Digit(n, len), if n <= 0x7f then [] else Digits(n / 128 - 1, len + 1));
  }

  method FromLast(tmp: array<Byte>, len: nat) returns (os: Stream)
    requires len <= tmp.Length
    ensures os == Reversed(tmp[..len])
  {
    os := [];
    var k := len;
    while k > 0
      invariant 0 <= k <= len && Reversed(tmp[..len]) == os + Reversed(tmp[..k])
    {
      assert tmp[..k][..k - 1] == tmp[..k - 1];
      k := k - 1;
      os := os + [tmp[k]];
    }
  }

  /** The number as a type with w bits holds it. */
  function Reduced(r: Reading<nat>, w: nat): Reading<nat> {
    match r
    case End => End
    case Got(n, rest) => Got(n % Pow2(w), rest)
  }

  lemma ReadStep(whole: nat, n: nat, c: nat, m: nat)
    requires m > 0 && n == whole % m
    ensures ((n * 128 + c) % m + 1) % m == (whole * 128 + c + 1) % m
  {
    ModTimesPlus(whole, 128, c, m);
    ModTimesPlus(whole * 128 + c, 1, 1, m);
  }

  /** Reads into an unsigned type with w bits: the loop wraps around where the number does not fit. */
  method ReadNumber(w: nat, s: Stream) returns (r: Reading<nat>)
    requires w >= 7
    ensures r == Reduced(ReadVarInt(s), w)
  {
    var n: nat, pos: nat := 0, 0;
    ghost var whole: nat := 0;
    var m := Pow2(w);
    assert s[0..] == s;
    while true
      invariant pos <= |s| && ReadVarInt(s) == ReadFrom(s[pos..], whole) && n == whole % m
      decreases |s| - pos
    {
      if pos == |s| { return End; }
      var chData: int := s[pos];
      assert s[pos..][0] == chData && s[pos..][1..] == s[pos + 1..];
      pos := pos + 1;
      if chData < 0x80 {
        ModTimesPlus(whole, 128, chData, m);
        return Got((n * 128 + chData) % m, s[pos..]);
      }
      ReadStep(whole, n, chData - 0x80, m);
      n := (n * 128 + (chData - 0x80)) % m;
      n := (n + 1) % m;
      whole := whole * 128 + (chData - 0x80) + 1;
    }
  }
}
