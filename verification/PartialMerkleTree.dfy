/**
 The partial Merkle tree as an object: the two recursive traversals that append to
 or consume its vectors, and the packing of the flag bits into bytes.
 */
module PartialMerkleTree {
  import opened Arithmetic
  import opened MerkleTree

  class PartialTree {
    const H: Hasher
    var nTransactions: nat
    var vBits: seq<bool>
    var vHash: seq<Hash>
    var fBad: bool

    constructor (H: Hasher, vTxid: seq<Hash>, vMatch: seq<bool>)
      requires |vMatch| == |vTxid| && vTxid != []
      ensures this.H == H && nTransactions == |vTxid| && !fBad
      ensures Built(vBits, vHash) == BuildTree(H, vTxid, vMatch)
    {
      this.H := H;
      nTransactions, fBad, vBits, vHash := |vTxid|, false, [], [];
      new;
      var nHeight := ComputeHeight();
      WidthPositive(|vTxid|, nHeight);
      TraverseAndBuild(nHeight, 0, vTxid, vMatch);
      assert Concat(Built([], []), BuildTree(H, vTxid, vMatch)) == BuildTree(H, vTxid, vMatch);
    }

    constructor Default(H: Hasher)
      ensures this.H == H && nTransactions == 0 && fBad && vBits == [] && vHash == []
    {
      this.H := H;
      nTransactions, fBad, vBits, vHash := 0, true, [], [];
    }

    method TreeWidth(height: nat) returns (width: nat)
      ensures width == Width(nTransactions, height)
    {
      WidthFormula(nTransactions, height);
      width := CalcTreeWidth(nTransactions, height);
    }

    method ComputeHeight() returns (nHeight: nat)
      ensures nHeight == TreeHeight(nTransactions)
    {
      nHeight := 0;
      var width := TreeWidth(0);
      while width > 1
        invariant width == Width(nTransactions, nHeight)
        invariant nHeight <= TreeHeight(nTransactions)
        decreases width
      {
        nHeight := nHeight + 1;
        width := TreeWidth(nHeight);
      }
    }

    /** The loop over the leaves of a node. */
    method ParentOfMatch(height: nat, pos: nat, vMatch: seq<bool>) returns (fParentOfMatch: bool)
      requires |vMatch| == nTransactions && pos < Width(nTransactions, height)
      ensures Fits(|vMatch|, Shape(nTransactions, height, pos))
      ensures fParentOfMatch == HasMatch(vMatch, Shape(nTransactions, height, pos))
    {
      ghost var ids: seq<Hash> := seq(|vMatch|, _ => 0);
      Covers(ids, vMatch, height, pos);
      SelectedFlag(ids, vMatch, Lo(height, pos), Hi(nTransactions, height, pos));
      fParentOfMatch := false;
      var p := pos * Pow2(height);
      while p < (pos + 1) * Pow2(height) && p < nTransactions
        invariant Lo(height, pos) <= p
        invariant p <= Hi(nTransactions, height, pos) || p == Lo(height, pos)
        invariant fParentOfMatch <==> exists q :: Lo(height, pos) <= q < p && q < |vMatch| && vMatch[q]
      {
        fParentOfMatch := fParentOfMatch || vMatch[p];
        p := p + 1;
      }
    }

    method TraverseAndBuild(height: nat, pos: nat, vTxid: seq<Hash>, vMatch: seq<bool>)
      requires |vMatch| == |vTxid| == nTransactions && pos < Width(nTransactions, height)
      modifies this`vBits, this`vHash
      ensures Fits(nTransactions, Shape(nTransactions, height, pos))
      ensures Built(vBits, vHash) == Concat(old(Built(vBits, vHash)), Build(H, vTxid, vMatch, Shape(nTransactions, height, pos)))
      decreases height, 1
    {
      ghost var b := Built(vBits, vHash);
      var fParentOfMatch := ParentOfMatch(height, pos, vMatch);
      vBits := vBits + [fParentOfMatch];
      if height == 0 || !fParentOfMatch {
        CalcHashOfShape(H, vTxid, height, pos);
        vHash := vHash + [CalcHash(H, vTxid, height, pos)];
      } else {
        BuildChildren(height, pos, vTxid, vMatch);
        ConcatAssoc(b, Built([true], []), Children(H, vTxid, vMatch, height, pos));
      }
    }

    /** The part of the traversal that descends into the subtrees. */
    method BuildChildren(height: nat, pos: nat, vTxid: seq<Hash>, vMatch: seq<bool>)
      requires |vMatch| == |vTxid| == nTransactions && height > 0 && pos < Width(nTransactions, height)
      modifies this`vBits, this`vHash
      ensures Built(vBits, vHash) == Concat(old(Built(vBits, vHash)), Children(H, vTxid, vMatch, height, pos))
      decreases height, 0
    {
      ghost var b := Built(vBits, vHash);
      TraverseAndBuild(height - 1, pos * 2, vTxid, vMatch);
      var width := TreeWidth(height - 1);
      if pos * 2 + 1 < width {
        TraverseAndBuild(height - 1, pos * 2 + 1, vTxid, vMatch);
        ConcatAssoc(b, Build(H, vTxid, vMatch, Shape(nTransactions, height - 1, pos * 2)),
                    Build(H, vTxid, vMatch, Shape(nTransactions, height - 1, pos * 2 + 1)));
      }
    }

    /** Returns the node's hash, the counters advanced, and the matched ids below the node. */
    method TraverseAndExtract(height: nat, pos: nat, nBitsUsed: nat, nHashUsed: nat) returns (x: Extraction)
      modifies this`fBad
      ensures x == Extract(H, vBits, vHash, Shape(nTransactions, height, pos), nBitsUsed, nHashUsed)
      ensures fBad == (old(fBad) || x.bad)
      decreases height
    {
      if nBitsUsed >= |vBits| {
        fBad := true;
        return Extraction(true, NULL_HASH, nBitsUsed, nHashUsed, []);
      }
      var fParentOfMatch := vBits[nBitsUsed];
      if height == 0 || !fParentOfMatch {
        if nHashUsed >= |vHash| {
          fBad := true;
          return Extraction(true, NULL_HASH, nBitsUsed + 1, nHashUsed, []);
        }
        var hash := vHash[nHashUsed];
        var vMatch := [];
        if height == 0 && fParentOfMatch {
          vMatch := [Match(hash, pos)];
        }
        return Extraction(false, hash, nBitsUsed + 1, nHashUsed + 1, vMatch);
      }
      var left := TraverseAndExtract(height - 1, pos * 2, nBitsUsed + 1, nHashUsed);
      var width := TreeWidth(height - 1);
      if pos * 2 + 1 < width {
        var right := TraverseAndExtract(height - 1, pos * 2 + 1, left.bitsUsed, left.hashesUsed);
        if right.hash == left.hash {
          fBad := true;
        }
        x := Pair(H, left, right);
      } else {
        x := Single(H, left);
      }
    }

    /** Returns the Merkle root, or the null hash on failure. */
    method ExtractAll() returns (root: Hash, vMatch: seq<Match>)
      requires !fBad
      modifies this`fBad
      ensures var x := ExtractMatches(H, nTransactions, vBits, vHash);
              if x.Ok? then root == x.root && vMatch == x.matches else root == NULL_HASH
    {
      vMatch := [];
      root := NULL_HASH;
      if nTransactions == 0 || nTransactions > MAX_TRANSACTIONS || |vHash| > nTransactions || |vBits| < |vHash| { return; }
      var nHeight := ComputeHeight();
      var x := TraverseAndExtract(nHeight, 0, 0, 0);
      vMatch := x.matches;
      if fBad || (x.bitsUsed + 7) / 8 != (|vBits| + 7) / 8 || x.hashesUsed != |vHash| { return; }
      root := x.hash;
    }
  }

  /** What the subtrees of an inner node contribute. */
  function Children(H: Hasher, txids: seq<Hash>, mask: seq<bool>, height: nat, pos: nat): (c: Built)
    requires |mask| == |txids| && height > 0 && pos < Width(|txids|, height)
    ensures Fits(|mask|, Shape(|txids|, height, pos))
    ensures HasMatch(mask, Shape(|txids|, height, pos)) ==>
              Build(H, txids, mask, Shape(|txids|, height, pos)) == Concat(Built([true], []), c)
  {
    ShapeFits(|txids|, height, pos);
    ShapeFits(|txids|, height - 1, 2 * pos);
    var l := Build(H, txids, mask, Shape(|txids|, height - 1, 2 * pos));
    if 2 * pos + 1 < Width(|txids|, height - 1) then
      ShapeFits(|txids|, height - 1, 2 * pos + 1);
      Concat(l, Build(H, txids, mask, Shape(|txids|, height - 1, 2 * pos + 1)))
    else l
  }

  lemma ConcatAssoc(a: Built, b: Built, c: Built)
    ensures Concat(Concat(a, b), c) == Concat(a, Concat(b, c))
  {
  }

  // ----- flag bits as bytes, least significant bit first ---------------------

  function Mask(k: nat): bv8
    requires k < 8
  {
    match k
    case 0 => 1 case 1 => 2 case 2 => 4 case 3 => 8 case 4 => 16 case 5 => 32 case 6 => 64 case _ => 128
  }

  predicate Bit(b: bv8, k: nat)
    requires k < 8
  {
    b & Mask(k) != 0
  }

  lemma BitOr(b: bv8, k: nat, j: nat)
    requires k < 8 && j < 8
    ensures Bit(b | Mask(k), j) <==> j == k || Bit(b, j)
    ensures !Bit(0, j)
  {
  }

  method Pack(vBits: seq<bool>) returns (vBytes: seq<bv8>)
    ensures |vBytes| == (|vBits| + 7) / 8
    ensures forall p :: 0 <= p < |vBytes| * 8 ==> (Bit(vBytes[p / 8], p % 8) <==> p < |vBits| && vBits[p])
  {
    vBytes := seq((|vBits| + 7) / 8, _ => 0);
    forall p | 0 <= p < |vBytes| * 8 ensures !Bit(vBytes[p / 8], p % 8) { BitOr(0, 0, p % 8); }
    for p := 0 to |vBits|
      invariant |vBytes| == (|vBits| + 7) / 8
      invariant forall q :: 0 <= q < |vBytes| * 8 ==> (Bit(vBytes[q / 8], q % 8) <==> q < p && vBits[q])
    {
      var before := vBytes;
      if vBits[p] {
        vBytes := vBytes[p / 8 := vBytes[p / 8] | Mask(p % 8)];
      }
      forall q | 0 <= q < |vBytes| * 8 ensures Bit(vBytes[q / 8], q % 8) <==> q < p + 1 && vBits[q] {
        assert Bit(before[q / 8], q % 8) <==> q < p && vBits[q];
        if q / 8 == p / 8 { BitOr(before[p / 8], p % 8, q % 8); }
      }
    }
  }

  method Unpack(vBytes: seq<bv8>) returns (vBits: seq<bool>)
    ensures |vBits| == |vBytes| * 8
    ensures forall p :: 0 <= p < |vBits| ==> vBits[p] == Bit(vBytes[p / 8], p % 8)
  {
    vBits := [];
    for p := 0 to |vBytes| * 8
      invariant |vBits| == p
      invariant forall q :: 0 <= q < p ==> vBits[q] == Bit(vBytes[q / 8], q % 8)
    {
      vBits := vBits + [Bit(vBytes[p / 8], p % 8)];
    }
  }

  /** From a block's ids and a mask, over the bytes of a message, to the matched ids. */
  method Transmit(H: Hasher, vTxid: seq<Hash>, vMatch: seq<bool>) returns (root: Hash, matches: seq<Match>)
    requires |vMatch| == |vTxid| && 0 < |vTxid| <= MAX_TRANSACTIONS && Distinct(vTxid)
    ensures || Collide(H, Preimages(H, vTxid, Whole(|vTxid|)), Preimages(H, vTxid, Whole(|vTxid|)))
            || (root == MerkleRoot(H, vTxid) && matches == Selected(vTxid, vMatch, 0, |vTxid|))
  {
    var sent := new PartialTree(H, vTxid, vMatch);
    var vBytes := Pack(sent.vBits);
    var received := new PartialTree.Default(H);
    received.vBits := Unpack(vBytes);
    received.vHash, received.nTransactions, received.fBad := sent.vHash, sent.nTransactions, false;
    ghost var bits := sent.vBits;
    ghost var padding := seq(|vBytes| * 8 - |bits|, _ => false);
    assert received.vBits == bits + padding;
    RoundTrip(H, vTxid, vMatch, padding);
    root, matches := received.ExtractAll();
  }
}
