/** The list of wanted transactions, sent as the differences between their 16-bit indexes. */
module DifferentialIndexes {
  import opened Arithmetic
  import opened Wrappers

  ghost predicate StrictlyIncreasing(s: seq<nat>) {
    forall i, j :: 0 <= i < j < |s| ==> s[i] < s[j]
  }

  ghost predicate Fits(s: seq<nat>) {
    forall i :: 0 <= i < |s| ==> s[i] <= UINT16_MAX
  }

  /** A difference as an unsigned 64-bit number. */
  function Difference(indexes: seq<nat>, i: nat): nat
    requires i < |indexes|
  {
    (indexes[i] - if i == 0 then 0 else indexes[i - 1] + 1) % UINT64
  }

  function Encode(indexes: seq<nat>): (r: seq<nat>)
    ensures |r| == |indexes|
  {
    seq(|indexes|, i requires 0 <= i < |indexes| => Difference(indexes, i))
  }

  /** What is added to the next difference; a 16-bit number, so it wraps around after the largest index. */
  function Offset(indexes: seq<nat>): nat {
    if indexes == [] then 0 else (indexes[|indexes| - 1] + 1) % 0x1_0000
  }

  function Decode(differences: seq<nat>): (r: Option<seq<nat>>)
    ensures r.Some? ==> |r.value| == |differences|
  {
    if differences == [] then Some([])
    else
      var d := differences[|differences| - 1];
      match Decode(differences[..|differences| - 1])
      case None => None
      case Some(s) => if d > UINT16_MAX || d + Offset(s) > UINT16_MAX then None else Some(s + [d + Offset(s)])
  }

  /** Below the limits, the last difference and the offset take each other back. */
  lemma LastDifference(t: seq<nat>, x: nat, d: nat)
    requires x <= UINT16_MAX && d <= UINT16_MAX && (t != [] ==> t[|t| - 1] < x)
    ensures Difference(t + [x], |t|) == x - Offset(t)
    ensures d + Offset(t) == x ==> Difference(t + [x], |t|) == d
  {
    var s := t + [x];
    if t != [] { assert s[|t| - 1] == t[|t| - 1]; }
  }

  lemma EncodePrefix(s: seq<nat>, n: nat)
    requires n <= |s|
    ensures Encode(s)[..n] == Encode(s[..n])
  {
    forall i | 0 <= i < n ensures Encode(s)[i] == Encode(s[..n])[i] { assert Difference(s, i) == Difference(s[..n], i); }
  }

  lemma {:induction false} DecodeLast(differences: seq<nat>, t: seq<nat>, x: nat)
    requires differences != [] && Decode(differences[..|differences| - 1]) == Some(t) && x <= UINT16_MAX
    requires differences[|differences| - 1] == x - Offset(t)
    ensures Decode(differences) == Some(t + [x])
  {
  }

  /** Every increasing list of indexes is read back as it was written. */
  lemma {:induction false} RoundTrip(indexes: seq<nat>)
    requires StrictlyIncreasing(indexes) && Fits(indexes)
    ensures Decode(Encode(indexes)) == Some(indexes)
  {
    if indexes == [] {
      assert Encode(indexes) == [];
    } else {
      var n := |indexes| - 1;
      RoundTrip(indexes[..n]);
      EncodePrefix(indexes, n);
      assert indexes == indexes[..n] + [indexes[n]];
      LastDifference(indexes[..n], indexes[n], 0);
      DecodeLast(Encode(indexes), indexes[..n], indexes[n]);
    }
  }

  lemma {:induction false} Decoded(differences: seq<nat>)
    requires Decode(differences).Some?
    ensures Fits(Decode(differences).value)
  {
    if differences != [] { Decoded(differences[..|differences| - 1]); }
  }

  function Sum(differences: seq<nat>): nat {
    if differences == [] then 0 else Sum(differences[..|differences| - 1]) + differences[|differences| - 1]
  }

  /** The index that so many differences reach when nothing wraps around, plus one. */
  function Reach(differences: seq<nat>, k: nat): nat
    requires k <= |differences|
  {
    Sum(differences[..k]) + k
  }

  lemma {:induction false} ReachGrows(differences: seq<nat>, j: nat, k: nat)
    requires j < k <= |differences|
    ensures Reach(differences, j) < Reach(differences, k)
  {
    assert differences[..k][..k - 1] == differences[..k - 1];
    if j < k - 1 { ReachGrows(differences, j, k - 1); }
  }

  /** Differences that stay in range are read as an increasing list, up to the index they reach. */
  lemma {:induction false} ReadInRange(differences: seq<nat>)
    requires Sum(differences) + |differences| <= 0x1_0000
    ensures Decode(differences).Some? && StrictlyIncreasing(Decode(differences).value)
    ensures var s := Decode(differences).value; s != [] ==> s[|s| - 1] + 1 == Sum(differences) + |differences|
  {
    if differences != [] {
      var n := |differences| - 1;
      ReadInRange(differences[..n]);
      var t := Decode(differences[..n]).value;
      assert Decode(differences).value[..n] == t;
    }
  }

  /** Differences that go out of range are refused, or read as a list that is not increasing. */
  lemma {:induction false} ReadOutOfRange(differences: seq<nat>)
    requires Sum(differences) + |differences| > 0x1_0000 && Decode(differences).Some?
    ensures !StrictlyIncreasing(Decode(differences).value)
  {
    var n := |differences| - 1;
    var s, t := Decode(differences).value, Decode(differences[..n]).value;
    Decoded(differences);
    assert s[..n] == t;
    if Sum(differences[..n]) + n > 0x1_0000 {
      ReadOutOfRange(differences[..n]);
      var i, j :| 0 <= i < j < |t| && t[i] >= t[j];
      assert s[i] >= s[j];
    } else {
      ReadInRange(differences[..n]);
      assert n > 0 && s[n - 1] == UINT16_MAX;
      assert s[n - 1] >= s[n];
    }
  }

  /** A list is read, and is increasing, exactly when the differences and the gaps between them add up to a 16-bit
      index; and a list that is read is increasing exactly when no index before the last is the largest one. */
  lemma DecodedIncreasing(differences: seq<nat>)
    ensures Decode(differences).Some? && StrictlyIncreasing(Decode(differences).value)
            <==> Sum(differences) + |differences| <= 0x1_0000
    ensures Decode(differences).Some? ==>
              (StrictlyIncreasing(Decode(differences).value)
               <==> forall k :: 0 < k < |differences| ==> Reach(differences, k) != 0x1_0000)
  {
    var n := |differences|;
    assert differences[..n] == differences;
    if Sum(differences) + n <= 0x1_0000 {
      ReadInRange(differences);
      forall k | 0 < k < n ensures Reach(differences, k) != 0x1_0000 { ReachGrows(differences, k, n); }
    } else if Decode(differences).Some? {
      ReadOutOfRange(differences);
      WrapsSomewhere(differences);
    }
  }

  lemma {:induction false} WrapsSomewhere(differences: seq<nat>)
    requires Sum(differences) + |differences| > 0x1_0000 && Decode(differences).Some?
    ensures exists k :: 0 < k < |differences| && Reach(differences, k) == 0x1_0000
  {
    var n := |differences| - 1;
    var d := differences[..n];
    if Sum(d) + n > 0x1_0000 {
      WrapsSomewhere(d);
      var k :| 0 < k < n && Reach(d, k) == 0x1_0000;
      assert d[..k] == differences[..k];
      assert Reach(differences, k) == 0x1_0000;
    } else {
      ReadInRange(d);
      assert Reach(differences, n) == 0x1_0000;
    }
  }

  /** The offset wraps around after the largest index, so a list that is not increasing can be read. */
  lemma WrapsAround()
    ensures Decode([UINT16_MAX, 0]) == Some([UINT16_MAX, 0])
  {
    var one, two: seq<nat> := [UINT16_MAX], [UINT16_MAX, 0];
    assert one[..0] == [] && two[..1] == one;
    assert Decode(one[..0]) == Some([]);
    assert [] + [UINT16_MAX + 0] == one && one + [0 + Offset(one)] == two;
    assert Decode(one) == Some(one);
    assert Decode(two) == Some(two);
  }

  /** Then nothing but its encoding is read as an increasing list. */
  lemma {:induction false} EncodeDecode(differences: seq<nat>)
    requires Decode(differences).Some? && StrictlyIncreasing(Decode(differences).value)
    ensures Encode(Decode(differences).value) == differences
  {
    var s := Decode(differences).value;
    Decoded(differences);
    if differences != [] {
      var n := |differences| - 1;
      var t := Decode(differences[..n]).value;
      assert s[..n] == t;
      assert StrictlyIncreasing(t) by {
        forall i, j | 0 <= i < j < |t| ensures t[i] < t[j] { assert s[i] < s[j]; }
      }
      EncodeDecode(differences[..n]);
      EncodePrefix(s, n);
      assert s == t + [s[n]];
      LastDifference(t, s[n], differences[n]);
      assert Encode(s) == Encode(s)[..n] + [Encode(s)[n]];
    }
  }

  method WriteIndexes(indexes: seq<nat>) returns (stream: seq<nat>)
    ensures stream == Encode(indexes)
  {
    stream := [];
    for i := 0 to |indexes|
      invariant stream == Encode(indexes)[..i]
    {
      stream := stream + [(indexes[i] - if i == 0 then 0 else indexes[i - 1] + 1) % UINT64];
    }
  }

  /** Reads the differences first, then adds them up in place. */
  method ReadIndexes(stream: seq<nat>) returns (r: Option<seq<nat>>)
    ensures r == Decode(stream)
  {
    var indexes: seq<nat> := [];
    for i := 0 to |stream|
      invariant indexes == stream[..i] && Fits(indexes)
    {
      if stream[i] > UINT16_MAX {
        TooLarge(stream, i);
        return None;
      }
      indexes := indexes + [stream[i]];
    }
    assert indexes == stream;
    r := AddUp(indexes);
  }

  /** Adds the differences up in place; the running offset is a 16-bit number. */
  method AddUp(stream: seq<nat>) returns (r: Option<seq<nat>>)
    requires Fits(stream)
    ensures r == Decode(stream)
  {
    var indexes := stream;
    var offset := 0;
    assert stream[..0] == [];
    for i := 0 to |stream|
      invariant |indexes| == |stream| && (forall k :: i <= k < |stream| ==> indexes[k] == stream[k])
      invariant Decode(stream[..i]) == Some(indexes[..i]) && offset == Offset(indexes[..i])
    {
      DecodeNext(stream, i);
      if indexes[i] + offset > UINT16_MAX {
        FailsEarly(stream, i + 1);
        return None;
      }
      ghost var before := indexes[..i];
      indexes := indexes[i := indexes[i] + offset];
      assert indexes[..i + 1] == before + [indexes[i]];
      offset := (indexes[i] + 1) % 0x1_0000;
    }
    assert stream[..|stream|] == stream && indexes[..|indexes|] == indexes;
    r := Some(indexes);
  }

  lemma {:induction false} DecodeNext(stream: seq<nat>, i: nat)
    requires i < |stream| && Decode(stream[..i]).Some? && stream[i] <= UINT16_MAX
    ensures var t := Decode(stream[..i]).value;
            Decode(stream[..i + 1])
            == if stream[i] + Offset(t) > UINT16_MAX then None else Some(t + [stream[i] + Offset(t)])
  {
    assert stream[..i + 1][..i] == stream[..i];
  }

  lemma {:induction false} FailsEarly(stream: seq<nat>, k: nat)
    requires k <= |stream| && Decode(stream[..k]).None?
    ensures Decode(stream).None?
  {
    if k == |stream| {
      assert stream[..k] == stream;
    } else {
      var n := |stream| - 1;
      assert stream[..n][..k] == stream[..k];
      FailsEarly(stream[..n], k);
    }
  }

  lemma TooLarge(stream: seq<nat>, i: nat)
    requires i < |stream| && stream[i] > UINT16_MAX
    ensures Decode(stream).None?
  {
    assert stream[..i + 1][i] == stream[i];
    FailsEarly(stream, i + 1);
  }
}
