/** The short forms in which output scripts are stored. */
module ScriptCompressor {
  import opened Arithmetic
  import opened Wrappers
  import opened VarInts

  const SPECIAL_SCRIPTS := 6
  const MAX_SCRIPT_SIZE := 10000

  const OP_RETURN: Byte := 0x6a
  const OP_DUP: Byte := 0x76
  const OP_EQUAL: Byte := 0x87
  const OP_EQUALVERIFY: Byte := 0x88
  const OP_HASH160: Byte := 0xa9
  const OP_CHECKSIG: Byte := 0xac

  /** The operations on public keys: which uncompressed keys are points, and the point of a compressed one. */
  datatype Curve = Curve(isPoint: seq<Byte> -> bool, decompress: seq<Byte> -> Option<seq<Byte>>) {
    /** A point is given by its first coordinate and the parity of its second. */
    ghost predicate Lawful() {
      forall key :: |key| == 65 && key[0] == 4 && isPoint(key) ==> decompress(Compressed(key)) == Some(key)
    }
  }

  function Compressed(key: seq<Byte>): seq<Byte>
    requires |key| == 65
  {
    [2 + key[64] % 2] + key[1..33]
  }

  predicate IsToKeyID(script: seq<Byte>) {
    && |script| == 25 && script[0] == OP_DUP && script[1] == OP_HASH160 && script[2] == 20
    && script[23] == OP_EQUALVERIFY && script[24] == OP_CHECKSIG
  }

  predicate IsToScriptID(script: seq<Byte>) {
    |script| == 23 && script[0] == OP_HASH160 && script[1] == 20 && script[22] == OP_EQUAL
  }

  predicate IsToShortKey(script: seq<Byte>) {
    |script| == 35 && script[0] == 33 && script[34] == OP_CHECKSIG && (script[1] == 2 || script[1] == 3)
  }

  predicate IsToLongKey(cv: Curve, script: seq<Byte>) {
    && |script| == 67 && script[0] == 65 && script[66] == OP_CHECKSIG && script[1] == 4
    && cv.isPoint(script[1..66])
  }

  function WriteScript(cv: Curve, script: seq<Byte>): Stream {
    if IsToKeyID(script) then [0] + script[3..23]
    else if IsToScriptID(script) then [1] + script[2..22]
    else if IsToShortKey(script) then [script[1]] + script[2..34]
    else if IsToLongKey(cv, script) then [4 + script[65] % 2] + script[2..34]
    else VarInt(|script| + SPECIAL_SCRIPTS) + script
  }

  function SpecialSize(kind: nat): nat {
    if kind < 2 then 20 else 32
  }

  /** A key that is no point leaves the script empty. */
  function Expand(cv: Curve, kind: nat, data: seq<Byte>): seq<Byte>
    requires kind < SPECIAL_SCRIPTS
  {
    if kind == 0 then [OP_DUP, OP_HASH160, 20] + data + [OP_EQUALVERIFY, OP_CHECKSIG]
    else if kind == 1 then [OP_HASH160, 20] + data + [OP_EQUAL]
    else if kind < 4 then [33, kind] + data + [OP_CHECKSIG]
    else
      match cv.decompress([kind - 2] + data)
      case None => []
      case Some(key) => [65] + key + [OP_CHECKSIG]
  }

  /** A script over the limit is skipped and becomes a short one that cannot be spent. */
  function ReadScript(cv: Curve, s: Stream): Reading<seq<Byte>> {
    match ReadVarInt(s)
    case End => End
    case Got(n, s') =>
      var size := if n < SPECIAL_SCRIPTS then SpecialSize(n) else n - SPECIAL_SCRIPTS;
      if |s'| < size then End
      else Got(if n < SPECIAL_SCRIPTS then Expand(cv, n, s'[..size])
               else if size > MAX_SCRIPT_SIZE then [OP_RETURN] else s'[..size], s'[size..])
  }

  /** What a script comes back as. */
  function StoredScript(script: seq<Byte>): seq<Byte> {
    if |script| <= MAX_SCRIPT_SIZE then script else [OP_RETURN]
  }

  lemma SplitAt<T>(a: seq<T>, b: seq<T>)
    ensures (a + b)[..|a|] == a && (a + b)[|a|..] == b
  {
  }

  lemma ReadSpecial(cv: Curve, kind: Byte, data: seq<Byte>, rest: Stream)
    requires kind < SPECIAL_SCRIPTS && |data| == SpecialSize(kind)
    ensures ReadScript(cv, [kind] + data + rest) == Got(Expand(cv, kind, data), rest)
  {
    assert [kind] + data + rest == VarInt(kind) + (data + rest);
    ReadVarIntBack(kind, data + rest);
    SplitAt(data, rest);
  }

  lemma ReadPlain(cv: Curve, script: seq<Byte>, rest: Stream)
    ensures ReadScript(cv, VarInt(|script| + SPECIAL_SCRIPTS) + script + rest) == Got(StoredScript(script), rest)
  {
    var head := VarInt(|script| + SPECIAL_SCRIPTS);
    assert head + script + rest == head + (script + rest);
    ReadVarIntBack(|script| + SPECIAL_SCRIPTS, script + rest);
    SplitAt(script, rest);
  }

  lemma LongKeyBack(cv: Curve, script: seq<Byte>)
    requires cv.Lawful() && IsToLongKey(cv, script)
    ensures Expand(cv, 4 + script[65] % 2, script[2..34]) == script
  {
    var key := script[1..66];
    assert key[64] == script[65] && key[1..33] == script[2..34];
    assert [4 + script[65] % 2 - 2] + script[2..34] == Compressed(key);
    assert script == [65] + key + [OP_CHECKSIG];
  }

  /** Reading takes writing back exactly when the script is within the limit. */
  lemma ReadScriptBack(cv: Curve, script: seq<Byte>, rest: Stream)
    requires cv.Lawful()
    ensures ReadScript(cv, WriteScript(cv, script) + rest) == Got(StoredScript(script), rest)
    ensures ReadScript(cv, WriteScript(cv, script) + rest) == Got(script, rest) <==> |script| <= MAX_SCRIPT_SIZE
  {
    if IsToKeyID(script) {
      ReadSpecial(cv, 0, script[3..23], rest);
      assert Expand(cv, 0, script[3..23]) == script;
    } else if IsToScriptID(script) {
      ReadSpecial(cv, 1, script[2..22], rest);
      assert Expand(cv, 1, script[2..22]) == script;
    } else if IsToShortKey(script) {
      ReadSpecial(cv, script[1], script[2..34], rest);
      assert Expand(cv, script[1], script[2..34]) == script;
    } else if IsToLongKey(cv, script) {
      ReadSpecial(cv, 4 + script[65] % 2, script[2..34], rest);
      LongKeyBack(cv, script);
    } else {
      ReadPlain(cv, script, rest);
    }
  }
}
