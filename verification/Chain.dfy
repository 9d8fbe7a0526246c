/**
 The tree of block index entries with its skip pointers, and the vector of the
 active chain. Fast ancestor lookup is proved to agree with walking the parent
 pointers, and the vector to be exactly the path from genesis to its tip.
 */
module Chain {
  import opened Arithmetic

  type Hash = nat

  /** Turns the lowest one in the binary representation into a zero. */
  function InvertLowestOne(n: nat): nat {
    if n == 0 then 0 else if n % 2 == 1 then n - 1 else 2 * InvertLowestOne(n / 2)
  }

  lemma {:induction false} LowestOneInverted(n: nat) returns (m: nat, k: nat)
    requires n > 0
    ensures n == (2 * m + 1) * Pow2(k)
    ensures InvertLowestOne(n) == 2 * m * Pow2(k) < n
  {
    if n % 2 == 1 {
      m, k := n / 2, 0;
    } else {
      m, k := LowestOneInverted(n / 2);
      assert 2 * ((2 * m + 1) * Pow2(k)) == (2 * m + 1) * (2 * Pow2(k));
      assert 2 * (2 * m * Pow2(k)) == 2 * m * (2 * Pow2(k));
      k := k + 1;
    }
  }

  lemma InvertLess(n: nat)
    ensures n > 0 ==> InvertLowestOne(n) < n
  {
    if n > 0 { var m, k := LowestOneInverted(n); }
  }

  /** The height to jump back to: any lower height would do, this one performs well. */
  function GetSkipHeight(height: int): (r: nat)
    ensures height >= 1 ==> r < height
  {
    if height < 2 then 0
    else
      InvertLess(height);
      InvertLess(height - 1);
      InvertLess(InvertLowestOne(height - 1));
      if height % 2 == 1 then InvertLowestOne(InvertLowestOne(height - 1)) + 1 else InvertLowestOne(height)
  }

  class BlockIndex {
    const pprev: BlockIndex?
    const nHeight: int
    const hash: Hash
    /** The blocks from genesis to this one. */
    ghost const path: seq<BlockIndex>
    var pskip: BlockIndex?

    /** Every block on the path ends its own initial part of the path. */
    ghost predicate Linked() {
      && |path| == nHeight + 1 && nHeight >= 0
      && forall i :: 0 <= i <= nHeight ==> OnPath(i)
    }

    ghost predicate OnPath(i: int)
      requires |path| == nHeight + 1 && 0 <= i <= nHeight
    {
      && path[i].nHeight == i && path[i].path == path[..i + 1]
      && path[i].pprev == (if i == 0 then null else path[i - 1])
      && (i == nHeight ==> path[i] == this)
    }

    ghost predicate SkipOk()
      reads this
    {
      pskip == null || (nHeight > 0 && GetSkipHeight(nHeight) < |path| && pskip == path[GetSkipHeight(nHeight)])
    }

    /** The skip pointers on the way down are unset or as BuildSkip sets them. */
    ghost predicate SkipsOk()
      reads path
    {
      forall i :: 0 <= i < |path| ==> path[i].SkipOk()
    }

    constructor (prev: BlockIndex?, hash: Hash)
      requires prev != null ==> prev.Linked()
      ensures Linked() && pprev == prev && this.hash == hash && pskip == null
      ensures path == (if prev == null then [] else prev.path) + [this]
    {
      pprev, this.hash, pskip := prev, hash, null;
      nHeight := if prev == null then 0 else prev.nHeight + 1;
      path := (if prev == null then [] else prev.path) + [this];
      new;
      forall i | 0 <= i <= nHeight ensures OnPath(i) {
        if i < nHeight { assert prev.OnPath(i); assert path[..i + 1] == prev.path[..i + 1]; }
        if i == nHeight && prev != null { assert prev.OnPath(nHeight - 1); }
      }
    }

    /** The ancestor so many steps up the parent pointers. */
    ghost function Walk(steps: nat): BlockIndex?
      decreases steps
    {
      if steps == 0 then this else if pprev == null then null else pprev.Walk(steps - 1)
    }

    lemma {:induction false} LinkedBelow(i: int)
      requires Linked() && 0 <= i <= nHeight
      ensures path[i].Linked()
    {
      var b := path[i];
      assert OnPath(i);
      forall k | 0 <= k <= i ensures b.OnPath(k) {
        assert OnPath(k);
        assert b.path[..k + 1] == path[..k + 1];
      }
    }

    lemma {:induction false} WalkIsPath(steps: nat)
      requires Linked()
      ensures Walk(steps) == if steps <= nHeight then path[nHeight - steps] else null
      decreases steps
    {
      assert OnPath(nHeight);
      if steps > 0 && nHeight > 0 {
        assert OnPath(nHeight - 1);
        LinkedBelow(nHeight - 1);
        pprev.WalkIsPath(steps - 1);
      }
    }

    /** The ancestor at a height, or null when there is none. */
    method GetAncestor(height: int) returns (r: BlockIndex?)
      requires Linked() && SkipsOk()
      ensures if 0 <= height <= nHeight then r == Walk(nHeight - height) == path[height] else r == null
    {
      if height > nHeight || height < 0 { return null; }
      WalkIsPath(nHeight - height);
      assert OnPath(nHeight);
      var pindexWalk, heightWalk := this, nHeight;
      while heightWalk > height
        invariant height <= heightWalk <= nHeight && pindexWalk == path[heightWalk]
        decreases heightWalk
      {
        var heightSkip := GetSkipHeight(heightWalk);
        var heightSkipPrev := GetSkipHeight(heightWalk - 1);
        assert OnPath(heightWalk) && path[heightWalk].SkipOk();
        if pindexWalk.pskip != null &&
           (heightSkip == height ||
            (heightSkip > height && !(heightSkipPrev < heightSkip - 2 && heightSkipPrev >= height)))
        {
          pindexWalk := pindexWalk.pskip;
          heightWalk := heightSkip;
        } else {
          assert pindexWalk.pprev != null;
          pindexWalk := pindexWalk.pprev;
          heightWalk := heightWalk - 1;
        }
      }
      r := pindexWalk;
    }

    method BuildSkip()
      requires Linked() && SkipsOk()
      modifies this`pskip
      ensures pprev != null ==> pskip == path[GetSkipHeight(nHeight)]
      ensures pprev == null ==> pskip == old(pskip)
      ensures SkipsOk()
    {
      assert OnPath(nHeight) && path[nHeight].SkipOk();
      if pprev != null {
        assert OnPath(nHeight - 1);
        LinkedBelow(nHeight - 1);
        assert forall i :: 0 <= i < |pprev.path| ==> pprev.path[i] == path[i];
        pskip := pprev.GetAncestor(GetSkipHeight(nHeight));
        forall i | 0 <= i < |path| ensures path[i].SkipOk() {
          assert OnPath(i);
        }
      }
    }
  }

  /** The heights at which a locator stops: ten single steps, then doubling ones, down to genesis. */
  function LocatorHeights(height: nat, step: nat, have: nat): seq<int>
    requires step >= 1
    decreases height
  {
    if height == 0 then [0]
    else [height] + LocatorHeights(Below(height, step), NextStep(step, have), have + 1)
  }

  function Below(height: nat, step: nat): (r: nat)
    requires step >= 1
    ensures height > 0 ==> r < height
  {
    if height > step then height - step else 0
  }

  function NextStep(step: nat, have: nat): nat {
    if have + 1 > 10 then 2 * step else step
  }

  lemma {:induction false} LocatorDescends(height: nat, step: nat, have: nat)
    requires step >= 1
    ensures var r := LocatorHeights(height, step, have);
            && r != [] && r[0] == height && r[|r| - 1] == 0
            && (forall i, j :: 0 <= i < j < |r| ==> r[i] > r[j])
    decreases height
  {
    if height > 0 {
      LocatorDescends(Below(height, step), NextStep(step, have), have + 1);
    }
  }

  class ActiveChain {
    var vChain: seq<BlockIndex?>

    /** The vector is the path of its last block. */
    ghost predicate Valid()
      reads this
    {
      vChain != [] ==>
        && vChain[|vChain| - 1] != null
        && vChain[|vChain| - 1].Linked()
        && IsPath(vChain[|vChain| - 1])
    }

    ghost predicate IsPath(tip: BlockIndex)
      reads this
    {
      |vChain| == |tip.path| && forall i :: 0 <= i < |vChain| ==> vChain[i] == tip.path[i]
    }

    constructor ()
      ensures Valid() && vChain == []
    {
      vChain := [];
    }

    function At(nHeight: int): BlockIndex?
      reads this
    {
      if nHeight < 0 || nHeight >= |vChain| then null else vChain[nHeight]
    }

    predicate Contains(pindex: BlockIndex)
      reads this
    {
      At(pindex.nHeight) == pindex
    }

    method SetTip(tip: BlockIndex?)
      requires Valid() && (tip != null ==> tip.Linked())
      modifies this
      ensures Valid()
      ensures if tip == null then vChain == [] else IsPath(tip)
    {
      if tip == null {
        vChain := [];
        return;
      }
      ghost var was := vChain;
      vChain := if tip.nHeight + 1 <= |vChain| then vChain[..tip.nHeight + 1]
                else vChain + seq(tip.nHeight + 1 - |vChain|, _ => null);
      assert tip.OnPath(tip.nHeight);
      var pindex: BlockIndex? := tip;
      ghost var h := tip.nHeight;
      while pindex != null && vChain[pindex.nHeight] != pindex
        invariant -1 <= h <= tip.nHeight && |vChain| == tip.nHeight + 1
        invariant pindex == (if h < 0 then null else tip.path[h])
        invariant pindex != null ==> pindex.nHeight == h
        invariant forall i :: h < i <= tip.nHeight ==> vChain[i] == tip.path[i]
        invariant forall i :: 0 <= i <= h ==> vChain[i] == if i < |was| then was[i] else null
        decreases h
      {
        assert tip.OnPath(h);
        vChain := vChain[pindex.nHeight := pindex];
        pindex := pindex.pprev;
        h := h - 1;
        if h >= 0 { assert tip.OnPath(h); }
      }
      if h >= 0 {
        ghost var oldTip: BlockIndex := was[|was| - 1];
        assert tip.OnPath(h) && oldTip.OnPath(h);
        assert oldTip.path[h] == tip.path[h];
        forall i | 0 <= i <= h ensures vChain[i] == tip.path[i] {
          assert oldTip.path[..h + 1][i] == tip.path[..h + 1][i];
        }
      }
    }

    /** Two chains that meet at a height agree below it. */
    lemma AgreeBelow(a: BlockIndex, b: BlockIndex, h: int)
      requires a.Linked() && b.Linked() && 0 <= h <= a.nHeight && h <= b.nHeight && a.path[h] == b.path[h]
      ensures forall i :: 0 <= i <= h ==> a.path[i] == b.path[i]
    {
      assert a.OnPath(h) && b.OnPath(h);
      forall i | 0 <= i <= h ensures a.path[i] == b.path[i] {
        assert a.path[..h + 1][i] == b.path[..h + 1][i];
      }
    }

    /** Whether a block of a branch is in the active chain at its height. */
    lemma ContainsAt(pindex: BlockIndex, i: int)
      requires Valid() && pindex.Linked() && 0 <= i <= pindex.nHeight
      ensures Contains(pindex.path[i]) <==> i < |vChain| && vChain[i] == pindex.path[i]
    {
      assert pindex.OnPath(i);
    }

    lemma AllBelowContained(pindex: BlockIndex, h: int)
      requires Valid() && pindex.Linked() && 0 <= h <= pindex.nHeight && Contains(pindex.path[h])
      ensures forall i :: 0 <= i <= h ==> Contains(pindex.path[i])
    {
      ContainsAt(pindex, h);
      var tip: BlockIndex := vChain[|vChain| - 1];
      AgreeBelow(tip, pindex, h);
      forall i | 0 <= i <= h ensures Contains(pindex.path[i]) {
        ContainsAt(pindex, i);
        assert vChain[i] == tip.path[i];
      }
    }

    /** The last block that a branch and the chain have in common; null when they have none. */
    method FindFork(pindex: BlockIndex?) returns (r: BlockIndex?)
      requires Valid() && (pindex != null ==> pindex.Linked() && pindex.SkipsOk())
      ensures pindex == null ==> r == null
      ensures pindex != null && r == null ==> forall i :: 0 <= i <= pindex.nHeight ==> !Contains(pindex.path[i])
      ensures pindex != null && r != null ==>
                && 0 <= r.nHeight <= pindex.nHeight && r == pindex.path[r.nHeight]
                && (forall i :: 0 <= i <= r.nHeight ==> Contains(pindex.path[i]))
                && (forall i :: r.nHeight < i <= pindex.nHeight ==> !Contains(pindex.path[i]))
    {
      if pindex == null { return null; }
      r := pindex;
      ghost var h := pindex.nHeight;
      assert pindex.OnPath(h);
      if pindex.nHeight > |vChain| - 1 {
        r := pindex.GetAncestor(|vChain| - 1);
        h := |vChain| - 1;
        forall i | h < i <= pindex.nHeight ensures !Contains(pindex.path[i]) { ContainsAt(pindex, i); }
      }
      while r != null && !Contains(r)
        invariant -1 <= h <= pindex.nHeight
        invariant r == (if h < 0 then null else pindex.path[h])
        invariant forall i :: h < i <= pindex.nHeight ==> !Contains(pindex.path[i])
        decreases h
      {
        assert pindex.OnPath(h);
        r := r.pprev;
        h := h - 1;
      }
      if r != null {
        assert pindex.OnPath(h);
        AllBelowContained(pindex, h);
      }
    }

    function Tip(): BlockIndex?
      reads this
    {
      if |vChain| > 0 then vChain[|vChain| - 1] else null
    }

    /** The successor of a block in the chain; null for the tip and for blocks of other branches. */
    function Next(pindex: BlockIndex): (r: BlockIndex?)
      requires Valid() && pindex.nHeight >= 0
      reads this
      ensures r != null <==> Contains(pindex) && pindex != Tip()
      ensures r != null ==> r.pprev == pindex && Contains(r)
    {
      if Contains(pindex) then
        var tip: BlockIndex := vChain[|vChain| - 1];
        assert tip.OnPath(pindex.nHeight);
        assert pindex.nHeight + 1 < |vChain| ==> tip.OnPath(pindex.nHeight + 1);
        At(pindex.nHeight + 1)
      else null
    }

    /** The hashes at the locator's heights below a block, by default the tip, found by the vector or the
        skip pointers alike. */
    method GetLocator(from: BlockIndex?) returns (vHave: seq<Hash>)
      requires Valid() && (from != null ==> from.Linked() && from.SkipsOk())
      requires from == null && Tip() != null ==> Tip().SkipsOk()
      ensures var start := if from == null then Tip() else from;
              if start == null then vHave == []
              else start.nHeight >= 0 && Located(start, LocatorHeights(start.nHeight, 1, 0), vHave)
    {
      var start := if from == null then Tip() else from;
      if start == null { return []; }
      vHave := LocatorFrom(start);
    }

    method LocatorFrom(pindex: BlockIndex) returns (vHave: seq<Hash>)
      requires Valid() && pindex.Linked() && pindex.SkipsOk()
      ensures Located(pindex, LocatorHeights(pindex.nHeight, 1, 0), vHave)
    {
      assert pindex.OnPath(pindex.nHeight);
      ghost var hs, all := [], LocatorHeights(pindex.nHeight, 1, 0);
      var nStep := 1;
      vHave := [];
      var walk := pindex;
      while true
        invariant nStep >= 1 && 0 <= walk.nHeight <= pindex.nHeight && walk == pindex.path[walk.nHeight]
        invariant all == hs + LocatorHeights(walk.nHeight, nStep, |vHave|)
        invariant Located(pindex, hs, vHave)
        decreases walk.nHeight
      {
        Unfold(hs, walk.nHeight, nStep, |vHave|);
        hs := hs + [walk.nHeight];
        vHave := vHave + [walk.hash];
        if walk.nHeight == 0 { break; }
        var nHeight := Below(walk.nHeight, nStep);
        walk := Ancestor(pindex, walk, nHeight);
        if |vHave| > 10 {
          nStep := nStep * 2;
        }
      }
    }

    static lemma Unfold(hs: seq<int>, height: nat, step: nat, have: nat)
      requires step >= 1
      ensures hs + LocatorHeights(height, step, have)
           == hs + [height] + if height == 0 then [] else LocatorHeights(Below(height, step), NextStep(step, have), have + 1)
    {
      assert height > 0 ==>
        hs + ([height] + LocatorHeights(Below(height, step), NextStep(step, have), have + 1))
        == hs + [height] + LocatorHeights(Below(height, step), NextStep(step, have), have + 1);
    }

    static ghost predicate Located(pindex: BlockIndex, hs: seq<int>, vHave: seq<Hash>) {
      && |vHave| == |hs|
      && forall i :: 0 <= i < |hs| ==> 0 <= hs[i] < |pindex.path| && vHave[i] == pindex.path[hs[i]].hash
    }

    /** One step of the locator. */
    method Ancestor(pindex: BlockIndex, walk: BlockIndex, nHeight: nat) returns (r: BlockIndex)
      requires Valid() && pindex.Linked() && pindex.SkipsOk()
      requires 0 <= nHeight <= walk.nHeight <= pindex.nHeight && walk == pindex.path[walk.nHeight]
      ensures r == pindex.path[nHeight] && r.nHeight == nHeight
    {
      assert pindex.OnPath(walk.nHeight) && pindex.OnPath(nHeight);
      pindex.LinkedBelow(walk.nHeight);
      if Contains(walk) {
        var tip: BlockIndex := vChain[|vChain| - 1];
        AgreeBelow(tip, pindex, walk.nHeight);
        r := vChain[nHeight];
      } else {
        forall i | 0 <= i < |walk.path| ensures walk.path[i].SkipOk() { assert walk.path[i] == pindex.path[i]; }
        r := walk.GetAncestor(nHeight);
      }
    }
  }
}
