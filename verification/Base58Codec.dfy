/** What the Base58 encoding of a byte vector is, and what a string decodes to. */
module Base58Codec {
  import opened Arithmetic
  import opened Radix
  import opened Wrappers

  const ALPHABET := "123456789" + "ABCDEFGH" + "JKLMN" + "PQRSTUVWXYZ" + "abcdefghijk" + "mnopqrstuvwxyz"

  /** Where the runs of consecutive characters in the alphabet start. */
  function DigitChar(d: int): char
    requires 0 <= d < 58
  {
    (d + if d < 9 then 49 else if d < 17 then 56 else if d < 22 then 57 else if d < 33 then 58 else if d < 44 then 64 else 65) as char
  }

  lemma AlphabetIs()
    ensures |ALPHABET| == 58
    ensures forall i :: 0 <= i < 58 ==> ALPHABET[i] == DigitChar(i)
  {
  }

  /** The place of a character in the alphabet. */
  function DigitOf(c: char): (r: Option<nat>)
    ensures r.Some? ==> r.value < 58 && DigitChar(r.value) == c
    ensures r.None? ==> forall d :: 0 <= d < 58 ==> DigitChar(d) != c
  {
    var n := c as int;
    if 49 <= n < 58 then Some(n - 49)
    else if 65 <= n < 73 then Some(n - 56)
    else if 74 <= n < 79 then Some(n - 57)
    else if 80 <= n < 91 then Some(n - 58)
    else if 97 <= n < 108 then Some(n - 64)
    else if 109 <= n < 123 then Some(n - 65)
    else None
  }

  function Chars(ds: seq<nat>): (r: string)
    requires AreDigits(ds, 58)
    ensures |r| == |ds|
  {
    seq(|ds|, i requires 0 <= i < |ds| => DigitChar(ds[i]))
  }

  /** The digits of a string of alphabet characters. */
  function Indices(s: string): (r: Option<seq<nat>>)
    ensures r.Some? ==> |r.value| == |s| && AreDigits(r.value, 58)
  {
    if s == [] then Some([])
    else
      match (Indices(s[..|s| - 1]), DigitOf(s[|s| - 1]))
      case (Some(ds), Some(d)) => Some(ds + [d])
      case _ => None
  }

  lemma {:induction false} IndicesOfChars(ds: seq<nat>)
    requires AreDigits(ds, 58)
    ensures Indices(Chars(ds)) == Some(ds)
  {
    if ds == [] {
      assert Chars(ds) == [];
    } else {
      var n := |ds| - 1;
      IndicesOfChars(ds[..n]);
      assert Chars(ds)[..n] == Chars(ds[..n]);
      assert Chars(ds)[n] == DigitChar(ds[n]) && ds[..n] + [ds[n]] == ds;
    }
  }

  lemma {:induction false} CharsOfIndices(s: string)
    requires Indices(s).Some?
    ensures Chars(Indices(s).value) == s
  {
    if s != [] {
      var n := |s| - 1;
      CharsOfIndices(s[..n]);
      assert s == s[..n] + [s[n]];
      assert Chars(Indices(s).value) == Chars(Indices(s[..n]).value) + [s[n]];
    }
  }

  function Ones(n: nat): string {
    seq(n, _ => '1')
  }

  function CountOnes(s: string): (z: nat)
    ensures z <= |s|
  {
    if s != [] && s[0] == '1' then 1 + CountOnes(s[1..]) else 0
  }

  lemma {:induction false} OnesPrefix(s: string)
    ensures s == Ones(CountOnes(s)) + s[CountOnes(s)..]
    ensures CountOnes(s) < |s| ==> s[CountOnes(s)] != '1'
  {
    if s != [] && s[0] == '1' {
      OnesPrefix(s[1..]);
      var z := CountOnes(s[1..]);
      assert s == ['1'] + s[1..] && s[1..][z..] == s[z + 1..];
      assert Ones(z + 1) == ['1'] + Ones(z);
    }
  }

  lemma {:induction false} CountOnesOf(z: nat, t: string)
    requires t != [] ==> t[0] != '1'
    ensures CountOnes(Ones(z) + t) == z
  {
    if z > 0 {
      CountOnesOf(z - 1, t);
      assert (Ones(z) + t)[1..] == Ones(z - 1) + t;
    } else {
      assert Ones(z) + t == t;
    }
  }

  lemma ZeroInFront(s: seq<nat>, base: nat)
    ensures LeadingZeroes([0] + s) == LeadingZeroes(s) + 1 && Val([0] + s, base) == Val(s, base)
  {
    assert ([0] + s)[1..] == s;
    ValCons(0, s, base);
  }

  lemma {:induction false} ZeroesPrefix(z: nat, s: seq<nat>, base: nat)
    requires s != [] ==> s[0] != 0
    ensures LeadingZeroes(Zeroes(z) + s) == z && Val(Zeroes(z) + s, base) == Val(s, base)
  {
    if z > 0 {
      ZeroesPrefix(z - 1, s, base);
      assert Zeroes(z) + s == [0] + (Zeroes(z - 1) + s);
      ZeroInFront(Zeroes(z - 1) + s, base);
    } else {
      assert Zeroes(z) + s == s;
    }
  }

  lemma DigitsBelow(n: nat, base: nat)
    requires base >= 2
    ensures AreDigits(Digits(n, base), base)
  {
    ValOfDigits(n, base);
  }

  function Encode(v: seq<Byte>): string {
    DigitsBelow(Val(v, 256), 58);
    Ones(LeadingZeroes(v)) + Chars(Digits(Val(v, 256), 58))
  }

  predicate IsSpace(c: char) {
    c == ' ' || 9 <= c as int <= 13
  }

  ghost predicate AllSpaces(s: string) {
    forall i :: 0 <= i < |s| ==> IsSpace(s[i])
  }

  function SpaceCount(s: string): (n: nat)
    ensures n <= |s|
  {
    if s != [] && IsSpace(s[0]) then 1 + SpaceCount(s[1..]) else 0
  }

  function WordLength(s: string): (n: nat)
    ensures n <= |s|
  {
    if s != [] && !IsSpace(s[0]) then 1 + WordLength(s[1..]) else 0
  }

  lemma {:induction false} SpaceCountIs(s: string, n: nat)
    requires n <= |s| && (forall k :: 0 <= k < n ==> IsSpace(s[k])) && (n < |s| ==> !IsSpace(s[n]))
    ensures SpaceCount(s) == n
  {
    if n > 0 { SpaceCountIs(s[1..], n - 1); }
  }

  lemma {:induction false} WordLengthIs(s: string, n: nat)
    requires n <= |s| && (forall k :: 0 <= k < n ==> !IsSpace(s[k])) && (n < |s| ==> IsSpace(s[n]))
    ensures WordLength(s) == n
  {
    if n > 0 { WordLengthIs(s[1..], n - 1); }
  }

  lemma {:induction false} WordLengthMeans(s: string)
    ensures forall k :: 0 <= k < WordLength(s) ==> !IsSpace(s[k])
    ensures WordLength(s) < |s| ==> IsSpace(s[WordLength(s)])
  {
    if s != [] && !IsSpace(s[0]) {
      WordLengthMeans(s[1..]);
      forall k | 0 <= k < WordLength(s) ensures !IsSpace(s[k]) {
        if k > 0 { assert s[k] == s[1..][k - 1]; }
      }
    }
  }

  /** The string without the white space around its first word. */
  function FirstWord(s: string): string {
    var t := s[SpaceCount(s)..];
    t[..WordLength(t)]
  }

  ghost predicate OneWord(s: string) {
    var t := s[SpaceCount(s)..];
    AllSpaces(t[WordLength(t)..])
  }

  function DecodeWord(w: string): Option<seq<nat>> {
    var z := CountOnes(w);
    match Indices(w[z..])
    case None => None
    case Some(ds) => Some(Zeroes(z) + Digits(Val(ds, 58), 256))
  }

  /** The bytes that a string stands for: one word of alphabet characters, with white space around it. */
  ghost function Decode(s: string): Option<seq<nat>> {
    if OneWord(s) then DecodeWord(FirstWord(s)) else None
  }

  lemma {:induction false} NoSpaces(v: seq<Byte>)
    ensures forall i :: 0 <= i < |Encode(v)| ==> !IsSpace(Encode(v)[i])
  {
    DigitsBelow(Val(v, 256), 58);
    var ds, z := Digits(Val(v, 256), 58), LeadingZeroes(v);
    forall i | 0 <= i < |Encode(v)| ensures !IsSpace(Encode(v)[i]) {
      if i >= z { assert Encode(v)[i] == DigitChar(ds[i - z]); }
    }
  }

  lemma WholeWord(s: string)
    requires forall i :: 0 <= i < |s| ==> !IsSpace(s[i])
    ensures OneWord(s) && FirstWord(s) == s
  {
    SpaceCountIs(s, 0);
    assert s[0..] == s;
    WordLengthIs(s, |s|);
  }

  lemma SameWord(s: string)
    requires OneWord(s) && forall i :: 0 <= i < |FirstWord(s)| ==> !IsSpace(FirstWord(s)[i])
    ensures Decode(s) == Decode(FirstWord(s))
  {
    WholeWord(FirstWord(s));
  }

  /** Decoding takes back encoding, for every byte vector. */
  lemma DecodeEncode(v: seq<Byte>)
    ensures Decode(Encode(v)) == Some(v)
  {
    var z, n := LeadingZeroes(v), Val(v, 256);
    var ds := Digits(n, 58);
    ValOfDigits(n, 58);
    NoSpaces(v);
    WholeWord(Encode(v));
    var t := Chars(ds);
    assert t != [] ==> t[0] != '1' by { if t != [] { assert t[0] == DigitChar(ds[0]); } }
    CountOnesOf(z, t);
    assert Encode(v)[z..] == t;
    IndicesOfChars(ds);
    StripIsDigits(v, 256);
    StripShape(v, 256);
  }

  /** Encoding what a string decodes to gives the string back, without the white space around it. */
  lemma EncodeDecode(s: string)
    requires Decode(s).Some?
    ensures var v := Decode(s).value; AreDigits(v, 256) && Encode(v) == FirstWord(s)
  {
    var w := FirstWord(s);
    var z := CountOnes(w);
    OnesPrefix(w);
    var ds := Indices(w[z..]).value;
    CharsOfIndices(w[z..]);
    var n := Val(ds, 58);
    ValOfDigits(n, 256);
    ZeroesPrefix(z, Digits(n, 256), 256);
    assert ds != [] ==> ds[0] != 0 by { if ds != [] { assert w[z] == DigitChar(ds[0]); } }
    DigitsOfVal(ds, 58);
  }

  /** The first four bytes of the hash of a vector. */
  type Checksum = f: seq<nat> -> seq<nat> | forall v :: |f(v)| == 4 && AreDigits(f(v), 256)
    ghost witness _ => [0, 0, 0, 0]

  ghost function EncodeCheck(checksum: Checksum, v: seq<Byte>): string {
    Encode(v + checksum(v))
  }

  ghost function DecodeCheck(checksum: Checksum, s: string): Option<seq<nat>> {
    match Decode(s)
    case None => None
    case Some(v) =>
      if |v| < 4 then None
      else if checksum(v[..|v| - 4]) != v[|v| - 4..] then None
      else Some(v[..|v| - 4])
  }

  /** The strings that pass the check for a vector are its encoding, with any white space around it. */
  lemma CheckRoundTrip(checksum: Checksum, v: seq<Byte>, s: string)
    ensures DecodeCheck(checksum, EncodeCheck(checksum, v)) == Some(v)
    ensures DecodeCheck(checksum, s) == Some(v) <==> OneWord(s) && FirstWord(s) == EncodeCheck(checksum, v)
  {
    CheckedBack(checksum, v);
    if DecodeCheck(checksum, s) == Some(v) { OnlyEncoding(checksum, v, s); }
    if OneWord(s) && FirstWord(s) == EncodeCheck(checksum, v) { EncodingPasses(checksum, v, s); }
  }

  lemma EncodingPasses(checksum: Checksum, v: seq<Byte>, s: string)
    requires OneWord(s) && FirstWord(s) == EncodeCheck(checksum, v)
    ensures DecodeCheck(checksum, s) == Some(v)
  {
    CheckedBack(checksum, v);
    NoSpaces(v + checksum(v));
    SameWord(s);
  }

  lemma CheckedBack(checksum: Checksum, v: seq<Byte>)
    ensures DecodeCheck(checksum, EncodeCheck(checksum, v)) == Some(v)
  {
    var c := v + checksum(v);
    DecodeEncode(c);
    assert c[..|c| - 4] == v && c[|c| - 4..] == checksum(v);
  }

  lemma OnlyEncoding(checksum: Checksum, v: seq<Byte>, s: string)
    requires DecodeCheck(checksum, s) == Some(v)
    ensures OneWord(s) && FirstWord(s) == EncodeCheck(checksum, v)
  {
    EncodeDecode(s);
    var d := Decode(s).value;
    assert d == v + checksum(v);
  }
}
