/**
 The stored form of a coin record: a code that also counts the non-zero bytes
 of the mask of unspent outputs, the mask without trailing zero bytes, and the
 unspent outputs themselves.
 */
module CoinsCodec {
  import opened Arithmetic
  import opened Coins
  import opened AmountCodec
  import opened VarInts
  import opened ScriptCompressor

  // ---------- outputs ----------

  /** How scripts are written and read. */
  datatype ScriptCodec = ScriptCodec(write: seq<Byte> -> Stream, read: Stream -> Reading<seq<Byte>>) {
    /** What was written is read as a script of at most the limit, and what follows it is left. */
    ghost predicate Lawful() {
      forall script, rest :: read(write(script) + rest) == Got(StoredScript(script), rest)
    }
  }

  /** The short forms are such a codec. */
  function ShortForms(cv: Curve): ScriptCodec {
    ScriptCodec((script: seq<Byte>) => WriteScript(cv, script), (s: Stream) => ReadScript(cv, s))
  }

  lemma ShortFormsLawful(cv: Curve)
    requires cv.Lawful()
    ensures ShortForms(cv).Lawful()
  {
    var k := ShortForms(cv);
    forall script, rest ensures k.read(k.write(script) + rest) == Got(StoredScript(script), rest) {
      ReadScriptBack(cv, script, rest);
    }
  }

  /** An amount of money; the compressed form of such an amount fits in 64 bits. */
  predicate IsMoney(value: Amount) {
    0 <= value <= MAX_MONEY
  }

  function WriteOut(k: ScriptCodec, o: TxOut): Stream
    requires IsMoney(o.value)
  {
    VarInt(Compress(o.value)) + k.write(o.script)
  }

  function ReadOut(k: ScriptCodec, s: Stream): Reading<TxOut> {
    match ReadVarInt(s)
    case End => End
    case Got(x, s') =>
      match k.read(s')
      case End => End
      case Got(script, rest) => Got(TxOut(Decompress(x), script), rest)
  }

  /** What an output comes back as. */
  function StoredOut(o: TxOut): TxOut {
    o.(script := StoredScript(o.script))
  }

  lemma ReadOutBack(k: ScriptCodec, o: TxOut, rest: Stream)
    requires k.Lawful() && IsMoney(o.value)
    ensures ReadOut(k, WriteOut(k, o) + rest) == Got(StoredOut(o), rest)
  {
    assert WriteOut(k, o) + rest == VarInt(Compress(o.value)) + (k.write(o.script) + rest);
    ReadVarIntBack(Compress(o.value), k.write(o.script) + rest);
    DecompressCompress(o.value);
  }

  /** Outputs as they can be in a record: null ones are all alike, others hold an amount of money. */
  ghost predicate Storable(vout: seq<TxOut>) {
    forall i :: 0 <= i < |vout| ==> vout[i] == NULL_OUT || IsMoney(vout[i].value)
  }

  function StoredOuts(vout: seq<TxOut>): (r: seq<TxOut>)
    ensures |r| == |vout| && forall i :: 0 <= i < |r| ==> r[i] == StoredOut(vout[i])
  {
    seq(|vout|, i requires 0 <= i < |vout| => StoredOut(vout[i]))
  }

  function WriteOuts(k: ScriptCodec, vout: seq<TxOut>): Stream
    requires Storable(vout)
  {
    if vout == [] then []
    else (if IsNull(vout[0]) then [] else WriteOut(k, vout[0])) + WriteOuts(k, vout[1..])
  }

  function ReadOuts(k: ScriptCodec, s: Stream, avail: seq<bool>): Reading<seq<TxOut>>
    decreases |avail|
  {
    if avail == [] then Got([], s)
    else if !avail[0] then Prepend(NULL_OUT, ReadOuts(k, s, avail[1..]))
    else
      match ReadOut(k, s)
      case End => End
      case Got(o, rest) => Prepend(o, ReadOuts(k, rest, avail[1..]))
  }

  function Prepend(o: TxOut, r: Reading<seq<TxOut>>): Reading<seq<TxOut>> {
    match r
    case End => End
    case Got(vout, rest) => Got([o] + vout, rest)
  }

  function Nulls(n: nat): seq<TxOut> {
    seq(n, _ => NULL_OUT)
  }

  lemma {:induction false} ReadNulls(k: ScriptCodec, s: Stream, n: nat)
    ensures ReadOuts(k, s, seq(n, _ => false)) == Got(Nulls(n), s)
  {
    if n > 0 {
      ReadNulls(k, s, n - 1);
      assert seq(n, _ => false)[1..] == seq(n - 1, _ => false);
      assert Nulls(n) == [NULL_OUT] + Nulls(n - 1);
    } else {
      assert seq(n, _ => false) == [] && Nulls(n) == [];
    }
  }

  lemma ReadNothing(k: ScriptCodec, avail: seq<bool>, rest: Stream)
    requires Shows(avail, [], 0)
    ensures ReadOuts(k, WriteOuts(k, []) + rest, avail) == Got(Nulls(|avail|), rest)
  {
    assert avail == seq(|avail|, _ => false);
    assert WriteOuts(k, []) + rest == rest;
    ReadNulls(k, rest, |avail|);
  }

  lemma StoredFirst(vout: seq<TxOut>, padding: seq<TxOut>)
    requires vout != []
    ensures [StoredOut(vout[0])] + (StoredOuts(vout[1..]) + padding) == StoredOuts(vout) + padding
  {
    assert [StoredOut(vout[0])] + StoredOuts(vout[1..]) == StoredOuts(vout);
  }

  lemma StoredNone(n: nat)
    ensures StoredOuts([]) + Nulls(n) == Nulls(n)
  {
  }

  lemma ShowsRest(vout: seq<TxOut>, avail: seq<bool>)
    requires vout != [] && avail != [] && Shows(avail, vout, 0)
    ensures Shows(avail[1..], vout[1..], 0) && (avail[0] <==> !IsNull(vout[0]))
  {
    forall i | 0 <= i < |avail| - 1 ensures avail[1..][i] <==> Unspent(vout[1..], i) {
      assert avail[1..][i] == avail[i + 1];
    }
  }

  /** Reading as many outputs as the mask has bits gives the outputs back, followed by null ones. */
  lemma {:induction false} ReadOutsBack(k: ScriptCodec, vout: seq<TxOut>, avail: seq<bool>, rest: Stream)
    requires k.Lawful() && Storable(vout) && |vout| <= |avail|
    requires Shows(avail, vout, 0)
    ensures ReadOuts(k, WriteOuts(k, vout) + rest, avail) == Got(StoredOuts(vout) + Nulls(|avail| - |vout|), rest)
  {
    if vout == [] {
      ReadNothing(k, avail, rest);
      StoredNone(|avail|);
    } else {
      ShowsRest(vout, avail);
      ReadOutsBack(k, vout[1..], avail[1..], rest);
      ReadFirstOut(k, vout, avail, rest, |avail| - |vout|);
    }
  }

  lemma ReadFirstOut(k: ScriptCodec, vout: seq<TxOut>, avail: seq<bool>, rest: Stream, n: nat)
    requires k.Lawful() && Storable(vout) && vout != [] && avail != [] && (avail[0] <==> !IsNull(vout[0]))
    requires ReadOuts(k, WriteOuts(k, vout[1..]) + rest, avail[1..]) == Got(StoredOuts(vout[1..]) + Nulls(n), rest)
    ensures ReadOuts(k, WriteOuts(k, vout) + rest, avail) == Got(StoredOuts(vout) + Nulls(n), rest)
  {
    var tail := WriteOuts(k, vout[1..]) + rest;
    StoredFirst(vout, Nulls(n));
    assert vout[0] == NULL_OUT || IsMoney(vout[0].value);
    if IsNull(vout[0]) {
      assert WriteOuts(k, vout) == [] + WriteOuts(k, vout[1..]) == WriteOuts(k, vout[1..]);
    } else {
      var first := WriteOut(k, vout[0]);
      assert WriteOuts(k, vout) == first + WriteOuts(k, vout[1..]);
      Appended(first, WriteOuts(k, vout[1..]), rest);
      ReadOutBack(k, vout[0], tail);
      assert ReadOut(k, WriteOuts(k, vout) + rest) == Got(StoredOut(vout[0]), tail);
    }
  }

  lemma Appended<T>(a: seq<T>, b: seq<T>, c: seq<T>)
    ensures (a + b) + c == a + (b + c)
  {
  }

  // ---------- the mask of unspent outputs ----------

  /** Eight bits, lowest first. */
  function ByteOf(bits: seq<bool>): nat {
    if bits == [] then 0 else (if bits[0] then 1 else 0) + 2 * ByteOf(bits[1..])
  }

  function BitsOf(n: nat, k: nat): (r: seq<bool>)
    ensures |r| == k
    decreases k
  {
    if k == 0 then [] else [n % 2 == 1] + BitsOf(n / 2, k - 1)
  }

  lemma {:induction false} ByteBits(bits: seq<bool>)
    ensures BitsOf(ByteOf(bits), |bits|) == bits
  {
    if bits != [] {
      ByteBits(bits[1..]);
      assert bits == [bits[0]] + bits[1..];
      var n := ByteOf(bits[1..]);
      assert ((if bits[0] then 1 else 0) + 2 * n) / 2 == n;
    }
  }

  lemma {:induction false} ByteZero(bits: seq<bool>)
    ensures ByteOf(bits) == 0 <==> forall i :: 0 <= i < |bits| ==> !bits[i]
  {
    if bits != [] {
      ByteZero(bits[1..]);
      assert forall i :: 0 < i < |bits| ==> bits[i] == bits[1..][i - 1];
      assert forall i :: 0 <= i < |bits| - 1 ==> bits[1..][i] == bits[i + 1];
    }
  }

  lemma ByteFits(bits: seq<bool>)
    requires |bits| == 8
    ensures ByteOf(bits) < 256
  {
    ByteBound(bits);
    assert Pow2(8) == 256;
  }

  lemma {:induction false} ByteBound(bits: seq<bool>)
    ensures ByteOf(bits) < Pow2(|bits|)
  {
    if bits != [] { ByteBound(bits[1..]); }
  }

  predicate Unspent(vout: seq<TxOut>, i: nat) {
    i < |vout| && !IsNull(vout[i])
  }

  /** The availabilities of eight outputs; the first two outputs are not in the mask. */
  function MaskBits(vout: seq<TxOut>, b: nat): (r: seq<bool>)
    ensures |r| == 8 && forall i :: 0 <= i < 8 ==> r[i] == Unspent(vout, 2 + 8 * b + i)
  {
    seq(8, i requires 0 <= i < 8 => Unspent(vout, 2 + 8 * b + i))
  }

  function MaskByte(vout: seq<TxOut>, b: nat): Byte {
    ByteFits(MaskBits(vout, b));
    ByteOf(MaskBits(vout, b))
  }

  /** The bytes up to the last that is not zero. */
  function MaskSize(vout: seq<TxOut>, b: nat): nat {
    if b == 0 then 0 else if MaskByte(vout, b - 1) != 0 then b else MaskSize(vout, b - 1)
  }

  function NonZeroes(bytes: Stream): nat {
    if bytes == [] then 0 else (if bytes[0] != 0 then 1 else 0) + NonZeroes(bytes[1..])
  }

  /** The number of bytes that the outputs after the first two take. */
  function MaskRoom(vout: seq<TxOut>): nat {
    if |vout| <= 2 then 0 else (|vout| - 3) / 8 + 1
  }

  function MaskBytes(vout: seq<TxOut>, start: nat, n: nat): (r: Stream)
    ensures |r| == n && forall b :: 0 <= b < n ==> r[b] == MaskByte(vout, start + b)
    decreases n
  {
    if n == 0 then [] else [MaskByte(vout, start)] + MaskBytes(vout, start + 1, n - 1)
  }

  function Mask(vout: seq<TxOut>): Stream {
    MaskBytes(vout, 0, MaskSize(vout, MaskRoom(vout)))
  }

  lemma {:induction false} MaskEnds(vout: seq<TxOut>, room: nat)
    ensures var n := MaskSize(vout, room);
            && n <= room && (n > 0 ==> MaskByte(vout, n - 1) != 0)
            && forall b: nat :: n <= b < room ==> MaskByte(vout, b) == 0
  {
    if room > 0 { MaskEnds(vout, room - 1); }
  }

  /** Without null outputs at the end, the mask reaches as far as the outputs do. */
  lemma MaskCovers(vout: seq<TxOut>)
    requires vout != [] ==> !IsNull(vout[|vout| - 1])
    ensures |Mask(vout)| == MaskRoom(vout)
    ensures |vout| <= 2 + 8 * |Mask(vout)|
    ensures Mask(vout) != [] ==> Mask(vout)[|Mask(vout)| - 1] != 0
  {
    var room := MaskRoom(vout);
    MaskEnds(vout, room);
    if room > 0 {
      var b := room - 1;
      ByteZero(MaskBits(vout, b));
      var i := |vout| - 1 - 2 - 8 * b;
      assert 0 <= i < 8 && 2 + 8 * b + i == |vout| - 1;
      assert MaskBits(vout, b)[i];
    }
  }

  function AllBits(bytes: Stream): (r: seq<bool>)
    ensures |r| == 8 * |bytes|
  {
    if bytes == [] then [] else BitsOf(bytes[0], 8) + AllBits(bytes[1..])
  }

  /** Bits that tell which of the outputs from one on are unspent. */
  ghost predicate Shows(bits: seq<bool>, vout: seq<TxOut>, start: nat) {
    forall i :: 0 <= i < |bits| ==> (bits[i] <==> Unspent(vout, start + i))
  }

  lemma ShowsJoined(a: seq<bool>, b: seq<bool>, vout: seq<TxOut>, start: nat)
    requires Shows(a, vout, start) && Shows(b, vout, start + |a|)
    ensures Shows(a + b, vout, start)
  {
    forall i | 0 <= i < |a + b| ensures (a + b)[i] <==> Unspent(vout, start + i) {
      if i >= |a| { assert (a + b)[i] == b[i - |a|]; }
    }
  }

  lemma {:induction false} BitsOfMask(vout: seq<TxOut>, start: nat, n: nat)
    ensures Shows(AllBits(MaskBytes(vout, start, n)), vout, 2 + 8 * start)
    decreases n
  {
    if n > 0 {
      BitsOfMask(vout, start + 1, n - 1);
      ByteBits(MaskBits(vout, start));
      ShowsJoined(MaskBits(vout, start), AllBits(MaskBytes(vout, start + 1, n - 1)), vout, 2 + 8 * start);
      assert MaskBytes(vout, start, n)[1..] == MaskBytes(vout, start + 1, n - 1);
    }
  }

  lemma FirstOf<T>(a: seq<T>, b: seq<T>)
    requires a != []
    ensures (a + b)[0] == a[0] && (a + b)[1..] == a[1..] + b
  {
  }

  /** Reads bytes until so many of them were not zero. */
  function ReadMask(s: Stream, need: nat): Reading<seq<bool>> {
    if need == 0 then Got([], s)
    else if s == [] then End
    else
      match ReadMask(s[1..], if s[0] != 0 then need - 1 else need)
      case End => End
      case Got(bits, rest) => Got(BitsOf(s[0], 8) + bits, rest)
  }

  lemma {:induction false} ReadMaskBack(bytes: Stream, rest: Stream)
    requires bytes != [] ==> bytes[|bytes| - 1] != 0
    ensures (NonZeroes(bytes) == 0 <==> bytes == []) && ReadMask(bytes + rest, NonZeroes(bytes)) == Got(AllBits(bytes), rest)
  {
    if bytes == [] {
      assert bytes + rest == rest;
    } else {
      var s, need := bytes + rest, NonZeroes(bytes);
      ReadMaskBack(bytes[1..], rest);
      FirstOf(bytes, rest);
      assert need > 0;
      assert ReadMask(s[1..], if s[0] != 0 then need - 1 else need) == Got(AllBits(bytes[1..]), rest);
    }
  }

  // ---------- records ----------

  /** A record that the codec is for: storable outputs, not all of them null, and none of them null at the end. */
  ghost predicate CanStore(c: CoinRecord) {
    Storable(c.vout) && IsTrimmed(c) && !IsPruned(c)
  }

  /** What a record comes back as. */
  function StoredRecord(c: CoinRecord): CoinRecord {
    CoinRecord(c.coinBase, StoredOuts(c.vout), Stored(c.height), Stored(c.version))
  }

  /** Numbers that are not negative and scripts within the limit. */
  predicate Faithful(c: CoinRecord) {
    c.version >= 0 && c.height >= 0 && forall i :: 0 <= i < |c.vout| ==> |c.vout[i].script| <= MAX_SCRIPT_SIZE
  }

  lemma StoredSame(c: CoinRecord)
    ensures StoredRecord(c) == c <==> Faithful(c)
  {
    var r := StoredRecord(c);
    if Faithful(c) {
      assert r.vout == c.vout;
    }
    if r == c {
      forall i | 0 <= i < |c.vout| ensures |c.vout[i].script| <= MAX_SCRIPT_SIZE { assert r.vout[i] == c.vout[i]; }
    }
  }

  /** The flags in the low bits; the rest counts the non-zero mask bytes, less one without either first output. */
  function CodeOf(n: nat, coinBase: bool, first: bool, second: bool): int {
    8 * (n - if first || second then 0 else 1)
    + (if coinBase then 1 else 0) + (if first then 2 else 0) + (if second then 4 else 0)
  }

  function Code(c: CoinRecord): int {
    CodeOf(NonZeroes(Mask(c.vout)), c.coinBase, Unspent(c.vout, 0), Unspent(c.vout, 1))
  }

  lemma CodeParts(n: nat, coinBase: bool, first: bool, second: bool)
    requires first || second || n > 0
    ensures var code := CodeOf(n, coinBase, first, second);
            && code >= 0
            && (code % 2 == 1 <==> coinBase) && Flags(code) == [first, second] && MaskNeed(code) == n
  {
  }

  /** A record without either of the first outputs has a byte in its mask. */
  lemma SomethingUnspent(c: CoinRecord)
    requires CanStore(c)
    ensures Unspent(c.vout, 0) || Unspent(c.vout, 1) || NonZeroes(Mask(c.vout)) > 0
  {
    MaskCovers(c.vout);
    ReadMaskBack(Mask(c.vout), []);
    assert c.vout != [] && Unspent(c.vout, |c.vout| - 1);
  }

  lemma CodeIs(c: CoinRecord)
    requires CanStore(c)
    ensures Code(c) >= 0 && (Code(c) % 2 == 1 <==> c.coinBase)
    ensures Flags(Code(c)) == [Unspent(c.vout, 0), Unspent(c.vout, 1)] && MaskNeed(Code(c)) == NonZeroes(Mask(c.vout))
  {
    SomethingUnspent(c);
    CodeParts(NonZeroes(Mask(c.vout)), c.coinBase, Unspent(c.vout, 0), Unspent(c.vout, 1));
  }

  function Serialize(k: ScriptCodec, c: CoinRecord): Stream
    requires CanStore(c)
  {
    CodeIs(c);
    VarInt(c.version) + (VarInt(Code(c)) + (Mask(c.vout) + (WriteOuts(k, c.vout) + VarInt(c.height))))
  }

  function Unserialize(k: ScriptCodec, s: Stream): Reading<CoinRecord> {
    match ReadVarInt(s)
    case End => End
    case Got(version, s1) =>
      match ReadVarInt(s1)
      case End => End
      case Got(code, s2) => ReadBody(k, s2, version, code)
  }

  /** Whether the first two outputs are unspent. */
  function Flags(code: nat): (r: seq<bool>)
    ensures |r| == 2
  {
    [code / 2 % 2 == 1, code / 4 % 2 == 1]
  }

  /** The number of non-zero mask bytes. */
  function MaskNeed(code: nat): nat {
    code / 8 + if code / 2 % 2 == 1 || code / 4 % 2 == 1 then 0 else 1
  }

  function ReadBody(k: ScriptCodec, s: Stream, version: nat, code: nat): Reading<CoinRecord> {
    match ReadMask(s, MaskNeed(code))
    case End => End
    case Got(bits, s') => ReadTail(k, s', version, code % 2 == 1, Flags(code) + bits)
  }

  function ReadTail(k: ScriptCodec, s: Stream, version: nat, coinBase: bool, avail: seq<bool>): Reading<CoinRecord> {
    match ReadOuts(k, s, avail)
    case End => End
    case Got(vout, s') =>
      match ReadVarInt(s')
      case End => End
      case Got(height, rest) => Got(Trim(CoinRecord(coinBase, vout, height, version)), rest)
  }

  lemma FirstTwo(vout: seq<TxOut>, bits: seq<bool>)
    requires Shows(bits, vout, 2)
    ensures Shows([Unspent(vout, 0), Unspent(vout, 1)] + bits, vout, 0)
  {
    ShowsJoined([Unspent(vout, 0), Unspent(vout, 1)], bits, vout, 0);
  }

  lemma MaskShows(vout: seq<TxOut>)
    requires vout != [] ==> !IsNull(vout[|vout| - 1])
    ensures var avail := [Unspent(vout, 0), Unspent(vout, 1)] + AllBits(Mask(vout));
            |vout| <= |avail| && Shows(avail, vout, 0)
  {
    MaskCovers(vout);
    BitsOfMask(vout, 0, |Mask(vout)|);
    FirstTwo(vout, AllBits(Mask(vout)));
  }

  lemma {:induction false} TrimPadded(vout: seq<TxOut>, n: nat)
    requires vout != [] ==> !IsNull(vout[|vout| - 1])
    ensures TrimOuts(vout + Nulls(n)) == vout
  {
    if n == 0 {
      assert vout + Nulls(n) == vout;
    } else {
      var all := vout + Nulls(n);
      assert all[|all| - 1] == NULL_OUT && all[..|all| - 1] == vout + Nulls(n - 1);
      TrimPadded(vout, n - 1);
    }
  }

  lemma ReadTailBack(k: ScriptCodec, c: CoinRecord, avail: seq<bool>, rest: Stream)
    requires k.Lawful() && CanStore(c) && |c.vout| <= |avail| && Shows(avail, c.vout, 0)
    ensures ReadTail(k, WriteOuts(k, c.vout) + (VarInt(c.height) + rest), Stored(c.version), c.coinBase, avail)
         == Got(StoredRecord(c), rest)
  {
    ReadOutsBack(k, c.vout, avail, VarInt(c.height) + rest);
    ReadVarIntBack(c.height, rest);
    TrimPadded(StoredOuts(c.vout), |avail| - |c.vout|);
  }

  lemma ReadBodyBack(k: ScriptCodec, c: CoinRecord, mask: Stream, code: nat, rest: Stream)
    requires k.Lawful() && CanStore(c) && (mask != [] ==> mask[|mask| - 1] != 0)
    requires MaskNeed(code) == NonZeroes(mask) && (code % 2 == 1 <==> c.coinBase)
    requires |c.vout| <= 2 + 8 * |mask| && Shows(Flags(code) + AllBits(mask), c.vout, 0)
    ensures ReadBody(k, mask + (WriteOuts(k, c.vout) + (VarInt(c.height) + rest)), Stored(c.version), code)
         == Got(StoredRecord(c), rest)
  {
    ReadMaskBack(mask, WriteOuts(k, c.vout) + (VarInt(c.height) + rest));
    ReadTailBack(k, c, Flags(code) + AllBits(mask), rest);
  }

  /** Every record is read back, and what follows it is left; it is the record that was written exactly when its
      numbers are not negative and its scripts are within the limit. */
  lemma RoundTrip(k: ScriptCodec, c: CoinRecord, rest: Stream)
    requires k.Lawful() && CanStore(c)
    ensures Unserialize(k, Serialize(k, c) + rest) == Got(StoredRecord(c), rest)
    ensures Unserialize(k, Serialize(k, c) + rest) == Got(c, rest) <==> Faithful(c)
  {
    CodeIs(c);
    MaskCovers(c.vout);
    MaskShows(c.vout);
    ReadBodyBack(k, c, Mask(c.vout), Code(c), rest);
    var s2 := Mask(c.vout) + (WriteOuts(k, c.vout) + (VarInt(c.height) + rest));
    HeaderBack(k, c.version, Code(c), s2);
    Regroup(VarInt(c.version), VarInt(Code(c)), Mask(c.vout), WriteOuts(k, c.vout), VarInt(c.height), rest);
    StoredSame(c);
  }

  predicate IsUnspendable(script: seq<Byte>) {
    (script != [] && script[0] == OP_RETURN) || |script| > MAX_SCRIPT_SIZE
  }

  /** The record of a transaction's outputs without those that can never be spent. */
  function FromTx(coinBase: bool, outs: seq<TxOut>, height: int, version: int): CoinRecord {
    var vout := seq(|outs|, i requires 0 <= i < |outs| => if IsUnspendable(outs[i].script) then NULL_OUT else outs[i]);
    Trim(CoinRecord(coinBase, vout, height, version))
  }

  /** The record of a transaction whose outputs pay money can be stored when it is not empty, and is read back as it
      was exactly when the transaction's version and the height are not negative. */
  lemma FromTxRoundTrip(cv: Curve, coinBase: bool, outs: seq<TxOut>, height: int, version: int, rest: Stream)
    requires cv.Lawful() && forall i :: 0 <= i < |outs| ==> IsMoney(outs[i].value)
    ensures var c := FromTx(coinBase, outs, height, version);
            !IsPruned(c) ==>
              CanStore(c) && (Unserialize(ShortForms(cv), Serialize(ShortForms(cv), c) + rest) == Got(c, rest) <==> version >= 0 && height >= 0)
  {
    var c := FromTx(coinBase, outs, height, version);
    forall i | 0 <= i < |c.vout|
      ensures (c.vout[i] == NULL_OUT || IsMoney(c.vout[i].value)) && |c.vout[i].script| <= MAX_SCRIPT_SIZE
    {
      assert c.vout[i] == NULL_OUT || (c.vout[i] == outs[i] && !IsUnspendable(outs[i].script));
    }
    if !IsPruned(c) {
      ShortFormsLawful(cv);
      RoundTrip(ShortForms(cv), c, rest);
    }
  }

  /** A negative version, which a transaction may have, is not read back. */
  lemma NegativeVersionLost(k: ScriptCodec, c: CoinRecord, rest: Stream)
    requires k.Lawful() && CanStore(c) && c.version < 0
    ensures var r := Unserialize(k, Serialize(k, c) + rest);
            r.Got? && r.rest == rest && r.value.version == c.version % 128 != c.version
  {
    RoundTrip(k, c, rest);
  }

  /** Such a record: of one output, with version -1, which becomes 127. */
  lemma NegativeVersionExample()
    ensures var c := CoinRecord(false, [TxOut(COIN, [])], 0, -1);
            CanStore(c) && StoredRecord(c) == c.(version := 127)
  {
    var c := CoinRecord(false, [TxOut(COIN, [])], 0, -1);
    assert !IsNull(c.vout[0]) && IsMoney(c.vout[0].value);
    assert StoredOuts(c.vout) == c.vout;
  }

  lemma HeaderBack(k: ScriptCodec, version: int, code: nat, s: Stream)
    ensures Unserialize(k, VarInt(version) + (VarInt(code) + s)) == ReadBody(k, s, Stored(version), code)
  {
    ReadVarIntBack(version, VarInt(code) + s);
    ReadVarIntBack(code, s);
  }

  lemma Regroup<T>(a: seq<T>, b: seq<T>, c: seq<T>, d: seq<T>, e: seq<T>, rest: seq<T>)
    ensures (a + (b + (c + (d + e)))) + rest == a + (b + (c + (d + (e + rest))))
  {
  }

  lemma {:induction false} NonZeroesAppend(vout: seq<TxOut>, start: nat, n: nat)
    ensures NonZeroes(MaskBytes(vout, start, n + 1))
         == NonZeroes(MaskBytes(vout, start, n)) + if MaskByte(vout, start + n) != 0 then 1 else 0
    decreases n
  {
    assert MaskBytes(vout, start, n + 1)[1..] == MaskBytes(vout, start + 1, n);
    if n > 0 {
      NonZeroesAppend(vout, start + 1, n - 1);
      assert MaskBytes(vout, start, n)[1..] == MaskBytes(vout, start + 1, n - 1);
    }
  }

  lemma {:induction false} ZeroesAtEnd(vout: seq<TxOut>, n: nat, room: nat)
    requires n <= room && forall b: nat :: n <= b < room ==> MaskByte(vout, b) == 0
    ensures NonZeroes(MaskBytes(vout, 0, room)) == NonZeroes(MaskBytes(vout, 0, n))
    decreases room
  {
    if n < room {
      NonZeroesAppend(vout, 0, room - 1);
      ZeroesAtEnd(vout, n, room - 1);
    }
  }

  method IsZeroByte(vout: seq<TxOut>, b: nat) returns (fZero: bool)
    ensures fZero <==> MaskByte(vout, b) == 0
  {
    ghost var bits := MaskBits(vout, b);
    ByteZero(bits);
    fZero := true;
    var i := 0;
    while i < 8 && 2 + b * 8 + i < |vout|
      invariant 0 <= i <= 8 && (fZero <==> forall k :: 0 <= k < i ==> !bits[k])
    {
      if !IsNull(vout[2 + b * 8 + i]) {
        assert bits[i];
        fZero := false;
      }
      i := i + 1;
    }
    assert forall k :: i <= k < 8 ==> !bits[k];
  }

  /** The size of the mask and the number of its bytes that are not zero. */
  method CalcMaskSize(vout: seq<TxOut>) returns (nBytes: nat, nNonzeroBytes: nat)
    ensures nBytes == |Mask(vout)| && nNonzeroBytes == NonZeroes(Mask(vout))
  {
    nBytes, nNonzeroBytes := 0, 0;
    var b := 0;
    while 2 + b * 8 < |vout|
      invariant b <= MaskRoom(vout)
      invariant nBytes == MaskSize(vout, b) && nNonzeroBytes == NonZeroes(MaskBytes(vout, 0, b))
      decreases |vout| - b * 8
    {
      var fZero := IsZeroByte(vout, b);
      NonZeroesAppend(vout, 0, b);
      if !fZero {
        nBytes := b + 1;
        nNonzeroBytes := nNonzeroBytes + 1;
      }
      b := b + 1;
    }
    MaskEnds(vout, b);
    ZeroesAtEnd(vout, nBytes, b);
  }

  /** Reads mask bytes until enough of them were not zero. */
  method ReadMaskBytes(s: Stream, nMaskCode: nat) returns (r: Reading<seq<bool>>)
    ensures r == ReadMask(s, nMaskCode)
  {
    var vAvail: seq<bool>, need, pos := [], nMaskCode, 0;
    assert s[0..] == s;
    if ReadMask(s, nMaskCode).Got? { assert [] + ReadMask(s, nMaskCode).value == ReadMask(s, nMaskCode).value; }
    while need > 0
      invariant pos <= |s|
      invariant ReadMask(s, nMaskCode) == After(vAvail, ReadMask(s[pos..], need))
      decreases |s| - pos
    {
      if pos == |s| { return End; }
      var chAvail := s[pos];
      assert s[pos..][0] == chAvail && s[pos..][1..] == s[pos + 1..];
      AfterBoth(vAvail, BitsOf(chAvail, 8), ReadMask(s[pos + 1..], if chAvail != 0 then need - 1 else need));
      vAvail := vAvail + BitsOf(chAvail, 8);
      if chAvail != 0 {
        need := need - 1;
      }
      pos := pos + 1;
    }
    assert vAvail + [] == vAvail;
    r := Got(vAvail, s[pos..]);
  }

  function After(bits: seq<bool>, r: Reading<seq<bool>>): Reading<seq<bool>> {
    match r
    case End => End
    case Got(more, rest) => Got(bits + more, rest)
  }

  lemma AfterBoth(a: seq<bool>, b: seq<bool>, r: Reading<seq<bool>>)
    ensures After(a, After(b, r)) == After(a + b, r)
  {
    if r.Got? { assert a + (b + r.value) == a + b + r.value; }
  }
}
