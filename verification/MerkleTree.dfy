/**
 Partial Merkle trees (the "Partial Merkle branch format" of BIP 37): building one
 from a list of transaction ids and a mask, extracting the matched ids again, and
 what an extracted id is worth to somebody who only trusts the Merkle root.
 */
module MerkleTree {
  import opened Arithmetic

  type Hash = nat
  const NULL_HASH: Hash := 0

  /** The hash of two hashes; nothing is known about it. */
  type Hasher = (Hash, Hash) -> Hash

  /** What is fed to the hash function at an inner node. */
  type Preimage = (Hash, Hash)

  predicate Clash(H: Hasher, x: Preimage, y: Preimage) {
    x != y && H(x.0, x.1) == H(y.0, y.1)
  }

  /** Two inputs, one from each of two finite sets, that differ and have one hash. */
  ghost predicate Collide(H: Hasher, a: set<Preimage>, b: set<Preimage>) {
    exists x, y :: x in a && y in b && Clash(H, x, y)
  }

  lemma EqualOrCollide(H: Hasher, x: Preimage, y: Preimage, a: set<Preimage>, b: set<Preimage>)
    requires H(x.0, x.1) == H(y.0, y.1) && x in a && y in b
    ensures Collide(H, a, b) || x == y
  {
    if x != y { assert Clash(H, x, y); }
  }

  // ----- the shape of the tree -----------------------------------------------

  /** The number of nodes at a height of the tree over n leaves: half of the level below, rounded up. */
  function Width(n: nat, height: nat): nat {
    if height == 0 then n else (Width(n, height - 1) + 1) / 2
  }

  /** The width as it is computed, without a loop. */
  function CalcTreeWidth(n: nat, height: nat): nat {
    (n + Pow2(height) - 1) / Pow2(height)
  }

  lemma {:induction false} WidthFormula(n: nat, height: nat)
    ensures CalcTreeWidth(n, height) == Width(n, height)
  {
    if height > 0 {
      WidthFormula(n, height - 1);
      HalveCeiling(n, Pow2(height - 1));
    }
  }

  lemma HalveCeiling(n: nat, m: nat)
    requires m >= 1
    ensures (n + 2 * m - 1) / (2 * m) == ((n + m - 1) / m + 1) / 2
  {
    var q, r := (n + m - 1) / m, (n + m - 1) % m;
    var a, b := (q + 1) / 2, (q + 1) % 2;
    assert n + m - 1 == q * m + r;
    assert n + 2 * m - 1 == (q + 1) * m + r;
    assert (q + 1) * m == (2 * a + b) * m == 2 * m * a + b * m;
    assert 0 <= b * m + r < 2 * m;
    DivUnique(n + 2 * m - 1, 2 * m, a, b * m + r);
  }

  /** A node with what is below it; the last node of a level may have one child only. */
  datatype Tree = Leaf(pos: nat) | One(child: Tree) | Two(left: Tree, right: Tree)

  function Shape(n: nat, height: nat, pos: nat): Tree {
    if height == 0 then Leaf(pos)
    else if 2 * pos + 1 < Width(n, height - 1)
    then Two(Shape(n, height - 1, 2 * pos), Shape(n, height - 1, 2 * pos + 1))
    else One(Shape(n, height - 1, 2 * pos))
  }

  predicate Fits(n: nat, t: Tree) {
    match t
    case Leaf(pos) => pos < n
    case One(c) => Fits(n, c)
    case Two(l, r) => Fits(n, l) && Fits(n, r)
  }

  lemma {:induction false} ShapeFits(n: nat, height: nat, pos: nat)
    requires pos < Width(n, height)
    ensures Fits(n, Shape(n, height, pos))
  {
    if height > 0 {
      ShapeFits(n, height - 1, 2 * pos);
      if 2 * pos + 1 < Width(n, height - 1) { ShapeFits(n, height - 1, 2 * pos + 1); }
    }
  }

  function HashOf(H: Hasher, txids: seq<Hash>, t: Tree): Hash
    requires Fits(|txids|, t)
  {
    match t
    case Leaf(pos) => txids[pos]
    case One(c) => H(HashOf(H, txids, c), HashOf(H, txids, c))
    case Two(l, r) => H(HashOf(H, txids, l), HashOf(H, txids, r))
  }

  /** All that is hashed on the way to the hash of a node. */
  function Preimages(H: Hasher, txids: seq<Hash>, t: Tree): set<Preimage>
    requires Fits(|txids|, t)
  {
    match t
    case Leaf(_) => {}
    case One(c) => Preimages(H, txids, c) + {(HashOf(H, txids, c), HashOf(H, txids, c))}
    case Two(l, r) => Preimages(H, txids, l) + Preimages(H, txids, r) + {(HashOf(H, txids, l), HashOf(H, txids, r))}
  }

  /** The hash of a node by height and position, as the program computes it. */
  function CalcHash(H: Hasher, txids: seq<Hash>, height: nat, pos: nat): Hash
    requires pos < Width(|txids|, height)
  {
    if height == 0 then txids[pos]
    else
      var left := CalcHash(H, txids, height - 1, 2 * pos);
      var right := if 2 * pos + 1 < Width(|txids|, height - 1)
                   then CalcHash(H, txids, height - 1, 2 * pos + 1) else left;
      H(left, right)
  }

  lemma {:induction false} CalcHashOfShape(H: Hasher, txids: seq<Hash>, height: nat, pos: nat)
    requires pos < Width(|txids|, height)
    ensures Fits(|txids|, Shape(|txids|, height, pos))
    ensures CalcHash(H, txids, height, pos) == HashOf(H, txids, Shape(|txids|, height, pos))
  {
    ShapeFits(|txids|, height, pos);
    if height > 0 {
      CalcHashOfShape(H, txids, height - 1, 2 * pos);
      if 2 * pos + 1 < Width(|txids|, height - 1) { CalcHashOfShape(H, txids, height - 1, 2 * pos + 1); }
    }
  }

  predicate Distinct(txids: seq<Hash>) {
    forall i, j :: 0 <= i < j < |txids| ==> txids[i] != txids[j]
  }

  function PreimagesAt(H: Hasher, txids: seq<Hash>, height: nat, pos: nat): set<Preimage>
    requires pos < Width(|txids|, height)
  {
    ShapeFits(|txids|, height, pos);
    Preimages(H, txids, Shape(|txids|, height, pos))
  }

  lemma ChildPreimages(H: Hasher, txids: seq<Hash>, height: nat, pos: nat)
    requires height > 0 && pos < Width(|txids|, height)
    ensures 2 * pos < Width(|txids|, height - 1)
    ensures PreimagesAt(H, txids, height - 1, 2 * pos) <= PreimagesAt(H, txids, height, pos)
    ensures 2 * pos + 1 < Width(|txids|, height - 1) ==>
              PreimagesAt(H, txids, height - 1, 2 * pos + 1) <= PreimagesAt(H, txids, height, pos)
  {
    ShapeFits(|txids|, height, pos);
  }

  /** The input of the hash of a node is among what is hashed below it. */
  lemma TopPreimage(H: Hasher, txids: seq<Hash>, height: nat, pos: nat) returns (x: Preimage)
    requires height > 0 && pos < Width(|txids|, height)
    ensures 2 * pos < Width(|txids|, height - 1)
    ensures x in PreimagesAt(H, txids, height, pos)
    ensures x.0 == CalcHash(H, txids, height - 1, 2 * pos) && CalcHash(H, txids, height, pos) == H(x.0, x.1)
  {
    ShapeFits(|txids|, height, pos);
    CalcHashOfShape(H, txids, height - 1, 2 * pos);
    var left := CalcHash(H, txids, height - 1, 2 * pos);
    if 2 * pos + 1 < Width(|txids|, height - 1) {
      CalcHashOfShape(H, txids, height - 1, 2 * pos + 1);
      x := (left, CalcHash(H, txids, height - 1, 2 * pos + 1));
    } else {
      x := (left, left);
    }
  }

  /** Equal hashes come from a collision here or from equal hashes of the left children. */
  lemma SameHashBelow(H: Hasher, txids: seq<Hash>, height: nat, p: nat, q: nat, a: set<Preimage>, b: set<Preimage>)
    requires height > 0 && p < Width(|txids|, height) && q < Width(|txids|, height)
    requires CalcHash(H, txids, height, p) == CalcHash(H, txids, height, q)
    requires PreimagesAt(H, txids, height, p) <= a && PreimagesAt(H, txids, height, q) <= b
    ensures 2 * p < Width(|txids|, height - 1) && 2 * q < Width(|txids|, height - 1)
    ensures PreimagesAt(H, txids, height - 1, 2 * p) <= a && PreimagesAt(H, txids, height - 1, 2 * q) <= b
    ensures Collide(H, a, b) || CalcHash(H, txids, height - 1, 2 * p) == CalcHash(H, txids, height - 1, 2 * q)
  {
    var x := TopPreimage(H, txids, height, p);
    var y := TopPreimage(H, txids, height, q);
    ChildPreimages(H, txids, height, p);
    ChildPreimages(H, txids, height, q);
    EqualOrCollide(H, x, y, a, b);
  }

  /** Two different nodes of one level with the same hash, over distinct leaves, have a collision below them. */
  lemma {:induction false} SameHashCollides(H: Hasher, txids: seq<Hash>, height: nat, p: nat, q: nat,
                                            a: set<Preimage>, b: set<Preimage>)
    requires Distinct(txids)
    requires p < Width(|txids|, height) && q < Width(|txids|, height) && p != q
    requires CalcHash(H, txids, height, p) == CalcHash(H, txids, height, q)
    requires PreimagesAt(H, txids, height, p) <= a && PreimagesAt(H, txids, height, q) <= b
    ensures Collide(H, a, b)
  {
    if height > 0 {
      SameHashBelow(H, txids, height, p, q, a, b);
      if !Collide(H, a, b) { SameHashCollides(H, txids, height - 1, 2 * p, 2 * q, a, b); }
    }
  }

  /** Two siblings somewhere in the tree have the same hash. */
  predicate HasTwins(H: Hasher, txids: seq<Hash>, t: Tree)
    requires Fits(|txids|, t)
  {
    match t
    case Leaf(_) => false
    case One(c) => HasTwins(H, txids, c)
    case Two(l, r) => HasTwins(H, txids, l) || HasTwins(H, txids, r) || HashOf(H, txids, l) == HashOf(H, txids, r)
  }

  lemma {:induction false} TwinsCollide(H: Hasher, txids: seq<Hash>, height: nat, pos: nat, all: set<Preimage>)
    requires pos < Width(|txids|, height) && Distinct(txids)
    requires Fits(|txids|, Shape(|txids|, height, pos)) && HasTwins(H, txids, Shape(|txids|, height, pos))
    requires PreimagesAt(H, txids, height, pos) <= all
    ensures Collide(H, all, all)
  {
    if height > 0 { ChildPreimages(H, txids, height, pos); }
    match Shape(|txids|, height, pos)
    case One(c) =>
      TwinsCollide(H, txids, height - 1, 2 * pos, all);
    case Two(l, r) =>
      if HasTwins(H, txids, l) {
        TwinsCollide(H, txids, height - 1, 2 * pos, all);
      } else if HasTwins(H, txids, r) {
        TwinsCollide(H, txids, height - 1, 2 * pos + 1, all);
      } else {
        CalcHashOfShape(H, txids, height - 1, 2 * pos);
        CalcHashOfShape(H, txids, height - 1, 2 * pos + 1);
        SameHashCollides(H, txids, height - 1, 2 * pos, 2 * pos + 1, all, all);
      }
  }

  // ----- building ------------------------------------------------------------

  /** Some matched leaf is below the node. */
  predicate HasMatch(mask: seq<bool>, t: Tree)
    requires Fits(|mask|, t)
  {
    match t
    case Leaf(pos) => mask[pos]
    case One(c) => HasMatch(mask, c)
    case Two(l, r) => HasMatch(mask, l) || HasMatch(mask, r)
  }

  datatype Match = Match(txid: Hash, index: nat)

  /** The matched leaves below the node, from left to right. */
  function Matched(txids: seq<Hash>, mask: seq<bool>, t: Tree): (r: seq<Match>)
    requires |mask| == |txids| && Fits(|mask|, t)
    ensures HasMatch(mask, t) <==> r != []
  {
    match t
    case Leaf(pos) => if mask[pos] then [Match(txids[pos], pos)] else []
    case One(c) => Matched(txids, mask, c)
    case Two(l, r) => Matched(txids, mask, l) + Matched(txids, mask, r)
  }

  datatype Built = Built(bits: seq<bool>, hashes: seq<Hash>)

  function Concat(a: Built, b: Built): Built {
    Built(a.bits + b.bits, a.hashes + b.hashes)
  }

  function Build(H: Hasher, txids: seq<Hash>, mask: seq<bool>, t: Tree): Built
    requires |mask| == |txids| && Fits(|mask|, t)
  {
    if t.Leaf? || !HasMatch(mask, t) then Built([HasMatch(mask, t)], [HashOf(H, txids, t)])
    else
      match t
      case One(c) => Concat(Built([true], []), Build(H, txids, mask, c))
      case Two(l, r) => Concat(Built([true], []), Concat(Build(H, txids, mask, l), Build(H, txids, mask, r)))
  }

  // ----- extracting ----------------------------------------------------------

  datatype Extraction = Extraction(bad: bool, hash: Hash, bitsUsed: nat, hashesUsed: nat, matches: seq<Match>)

  function Pair(H: Hasher, l: Extraction, r: Extraction): Extraction {
    Extraction(l.bad || r.bad || r.hash == l.hash, H(l.hash, r.hash), r.bitsUsed, r.hashesUsed, l.matches + r.matches)
  }

  function Single(H: Hasher, l: Extraction): Extraction {
    Extraction(l.bad, H(l.hash, l.hash), l.bitsUsed, l.hashesUsed, l.matches)
  }

  /** The traversal from bit i and hash j on. */
  function Extract(H: Hasher, bits: seq<bool>, hashes: seq<Hash>, t: Tree, i: nat, j: nat): Extraction {
    if i >= |bits| then Extraction(true, NULL_HASH, i, j, [])
    else if t.Leaf? || !bits[i] then
      if j >= |hashes| then Extraction(true, NULL_HASH, i + 1, j, [])
      else Extraction(false, hashes[j], i + 1, j + 1, if t.Leaf? && bits[i] then [Match(hashes[j], t.pos)] else [])
    else
      match t
      case One(c) => Single(H, Extract(H, bits, hashes, c, i + 1, j))
      case Two(left, right) =>
        var l := Extract(H, bits, hashes, left, i + 1, j);
        Pair(H, l, Extract(H, bits, hashes, right, l.bitsUsed, l.hashesUsed))
  }

  /** All that the traversal hashes. */
  function ExtractPreimages(H: Hasher, bits: seq<bool>, hashes: seq<Hash>, t: Tree, i: nat, j: nat): set<Preimage> {
    if i >= |bits| || t.Leaf? || !bits[i] then {}
    else
      match t
      case One(c) =>
        var l := Extract(H, bits, hashes, c, i + 1, j);
        ExtractPreimages(H, bits, hashes, c, i + 1, j) + {(l.hash, l.hash)}
      case Two(left, right) =>
        var l := Extract(H, bits, hashes, left, i + 1, j);
        var r := Extract(H, bits, hashes, right, l.bitsUsed, l.hashesUsed);
        ExtractPreimages(H, bits, hashes, left, i + 1, j)
        + ExtractPreimages(H, bits, hashes, right, l.bitsUsed, l.hashesUsed) + {(l.hash, r.hash)}
  }

  // ----- soundness -----------------------------------------------------------

  predicate Genuine(txids: seq<Hash>, m: Match) {
    m.index < |txids| && txids[m.index] == m.txid
  }

  predicate AllGenuine(txids: seq<Hash>, ms: seq<Match>) {
    forall k :: 0 <= k < |ms| ==> Genuine(txids, ms[k])
  }

  /** Whatever bits and hashes were supplied: if the extraction arrives at the true hash of a node, every id it
      reports is the one at that index, or an input that it hashed collides with one of the true tree's. */
  lemma {:induction false} ExtractSound(H: Hasher, txids: seq<Hash>, bits: seq<bool>, hashes: seq<Hash>, t: Tree, i: nat, j: nat,
                                        a: set<Preimage>, b: set<Preimage>)
    requires Fits(|txids|, t)
    requires !Extract(H, bits, hashes, t, i, j).bad
    requires Extract(H, bits, hashes, t, i, j).hash == HashOf(H, txids, t)
    requires ExtractPreimages(H, bits, hashes, t, i, j) <= a && Preimages(H, txids, t) <= b
    ensures Collide(H, a, b) || AllGenuine(txids, Extract(H, bits, hashes, t, i, j).matches)
  {
    if !t.Leaf? && bits[i] {
      match t
      case One(c) =>
        var l, true_ := Extract(H, bits, hashes, c, i + 1, j), HashOf(H, txids, c);
        EqualOrCollide(H, (l.hash, l.hash), (true_, true_), a, b);
        if l.hash == true_ { ExtractSound(H, txids, bits, hashes, c, i + 1, j, a, b); }
      case Two(left, right) =>
        var l := Extract(H, bits, hashes, left, i + 1, j);
        var r := Extract(H, bits, hashes, right, l.bitsUsed, l.hashesUsed);
        EqualOrCollide(H, (l.hash, r.hash), (HashOf(H, txids, left), HashOf(H, txids, right)), a, b);
        if l.hash == HashOf(H, txids, left) && r.hash == HashOf(H, txids, right) {
          ExtractSound(H, txids, bits, hashes, left, i + 1, j, a, b);
          ExtractSound(H, txids, bits, hashes, right, l.bitsUsed, l.hashesUsed, a, b);
        }
    }
  }

  // ----- round trip ----------------------------------------------------------

  predicate Holds<T(==)>(all: seq<T>, at: nat, part: seq<T>) {
    at + |part| <= |all| && all[at..at + |part|] == part
  }

  lemma HoldsParts<T>(all: seq<T>, at: nat, a: seq<T>, b: seq<T>)
    requires Holds(all, at, a + b)
    ensures Holds(all, at, a) && Holds(all, at + |a|, b)
  {
    assert all[at..at + |a|] == (a + b)[..|a|];
    assert all[at + |a|..at + |a| + |b|] == (a + b)[|a|..];
  }

  predicate HoldsBuilt(bits: seq<bool>, hashes: seq<Hash>, i: nat, j: nat, b: Built) {
    Holds(bits, i, b.bits) && Holds(hashes, j, b.hashes)
  }

  lemma HoldsBoth(bits: seq<bool>, hashes: seq<Hash>, i: nat, j: nat, a: Built, b: Built)
    requires HoldsBuilt(bits, hashes, i, j, Concat(a, b))
    ensures HoldsBuilt(bits, hashes, i, j, a) && HoldsBuilt(bits, hashes, i + |a.bits|, j + |a.hashes|, b)
  {
    HoldsParts(bits, i, a.bits, b.bits);
    HoldsParts(hashes, j, a.hashes, b.hashes);
  }

  /** What an extraction should yield for a node. */
  predicate Yields(x: Extraction, b: Built, hash: Hash, matches: seq<Match>, i: nat, j: nat) {
    x.hash == hash && x.matches == matches && x.bitsUsed == i + |b.bits| && x.hashesUsed == j + |b.hashes|
  }

  /** Extracting what was built, inside any larger vectors, consumes exactly it, and gives the
      node's hash and the matched ids below it in order; it only fails when two siblings have one hash. */
  lemma {:induction false} ExtractBuilt(H: Hasher, txids: seq<Hash>, mask: seq<bool>, t: Tree,
                                        bits: seq<bool>, hashes: seq<Hash>, i: nat, j: nat)
    requires |mask| == |txids| && Fits(|mask|, t)
    requires HoldsBuilt(bits, hashes, i, j, Build(H, txids, mask, t))
    ensures Yields(Extract(H, bits, hashes, t, i, j), Build(H, txids, mask, t), HashOf(H, txids, t), Matched(txids, mask, t), i, j)
    ensures Extract(H, bits, hashes, t, i, j).bad ==> HasTwins(H, txids, t)
    decreases t, 1
  {
    FirstBit(H, txids, mask, t, bits, hashes, i, j);
    if !t.Leaf? && HasMatch(mask, t) {
      match t
      case One(c) =>
        HoldsBoth(bits, hashes, i, j, Built([true], []), Build(H, txids, mask, c));
        ExtractBuilt(H, txids, mask, c, bits, hashes, i + 1, j);
      case Two(left, right) => ExtractBuiltTwo(H, txids, mask, left, right, bits, hashes, i, j);
    }
  }

  /** The case of a node with two children. */
  lemma {:induction false} ExtractBuiltTwo(H: Hasher, txids: seq<Hash>, mask: seq<bool>, left: Tree, right: Tree,
                                           bits: seq<bool>, hashes: seq<Hash>, i: nat, j: nat)
    requires |mask| == |txids| && Fits(|mask|, left) && Fits(|mask|, right) && HasMatch(mask, Two(left, right))
    requires HoldsBuilt(bits, hashes, i, j, Build(H, txids, mask, Two(left, right))) && bits[i]
    ensures Yields(Extract(H, bits, hashes, Two(left, right), i, j), Build(H, txids, mask, Two(left, right)),
                   HashOf(H, txids, Two(left, right)), Matched(txids, mask, Two(left, right)), i, j)
    ensures Extract(H, bits, hashes, Two(left, right), i, j).bad ==> HasTwins(H, txids, Two(left, right))
    decreases Two(left, right), 0
  {
    var l := Build(H, txids, mask, left);
    HoldsTwo(H, txids, mask, left, right, bits, hashes, i, j);
    ExtractBuilt(H, txids, mask, left, bits, hashes, i + 1, j);
    ExtractBuilt(H, txids, mask, right, bits, hashes, i + 1 + |l.bits|, j + |l.hashes|);
    CombineTwo(H, txids, mask, left, right, bits, hashes, i, j);
  }

  /** The node's own bit, and its hash if it stores one. */
  lemma FirstBit(H: Hasher, txids: seq<Hash>, mask: seq<bool>, t: Tree, bits: seq<bool>, hashes: seq<Hash>, i: nat, j: nat)
    requires |mask| == |txids| && Fits(|mask|, t)
    requires HoldsBuilt(bits, hashes, i, j, Build(H, txids, mask, t))
    ensures i < |bits| && bits[i] == HasMatch(mask, t)
    ensures t.Leaf? || !HasMatch(mask, t) ==> j < |hashes| && hashes[j] == HashOf(H, txids, t)
  {
    var b := Build(H, txids, mask, t);
    assert bits[i] == bits[i..i + |b.bits|][0];
    if t.Leaf? || !HasMatch(mask, t) {
      assert hashes[j] == hashes[j..j + 1][0];
    }
  }

  lemma HoldsTwo(H: Hasher, txids: seq<Hash>, mask: seq<bool>, left: Tree, right: Tree,
                 bits: seq<bool>, hashes: seq<Hash>, i: nat, j: nat)
    requires |mask| == |txids| && Fits(|mask|, left) && Fits(|mask|, right) && HasMatch(mask, Two(left, right))
    requires HoldsBuilt(bits, hashes, i, j, Build(H, txids, mask, Two(left, right)))
    ensures var l := Build(H, txids, mask, left);
            && HoldsBuilt(bits, hashes, i + 1, j, l)
            && HoldsBuilt(bits, hashes, i + 1 + |l.bits|, j + |l.hashes|, Build(H, txids, mask, right))
  {
    var l, r := Build(H, txids, mask, left), Build(H, txids, mask, right);
    HoldsBoth(bits, hashes, i, j, Built([true], []), Concat(l, r));
    HoldsBoth(bits, hashes, i + 1, j, l, r);
  }

  lemma CombineTwo(H: Hasher, txids: seq<Hash>, mask: seq<bool>, left: Tree, right: Tree,
                   bits: seq<bool>, hashes: seq<Hash>, i: nat, j: nat)
    requires |mask| == |txids| && Fits(|mask|, left) && Fits(|mask|, right)
    requires HasMatch(mask, Two(left, right)) && i < |bits| && bits[i]
    requires Yields(Extract(H, bits, hashes, left, i + 1, j), Build(H, txids, mask, left),
                    HashOf(H, txids, left), Matched(txids, mask, left), i + 1, j)
    requires var l := Build(H, txids, mask, left);
             Yields(Extract(H, bits, hashes, right, i + 1 + |l.bits|, j + |l.hashes|), Build(H, txids, mask, right),
                    HashOf(H, txids, right), Matched(txids, mask, right), i + 1 + |l.bits|, j + |l.hashes|)
    requires Extract(H, bits, hashes, left, i + 1, j).bad ==> HasTwins(H, txids, left)
    requires var l := Build(H, txids, mask, left);
             Extract(H, bits, hashes, right, i + 1 + |l.bits|, j + |l.hashes|).bad ==> HasTwins(H, txids, right)
    ensures Yields(Extract(H, bits, hashes, Two(left, right), i, j), Build(H, txids, mask, Two(left, right)),
                   HashOf(H, txids, Two(left, right)), Matched(txids, mask, Two(left, right)), i, j)
    ensures Extract(H, bits, hashes, Two(left, right), i, j).bad ==> HasTwins(H, txids, Two(left, right))
  {
    var l := Build(H, txids, mask, left);
    var xl := Extract(H, bits, hashes, left, i + 1, j);
    var xr := Extract(H, bits, hashes, right, i + 1 + |l.bits|, j + |l.hashes|);
    assert Extract(H, bits, hashes, Two(left, right), i, j) == Pair(H, xl, xr);
  }

  // ----- sizes ---------------------------------------------------------------

  function Leaves(t: Tree): nat {
    match t
    case Leaf(_) => 1
    case One(c) => Leaves(c)
    case Two(l, r) => Leaves(l) + Leaves(r)
  }

  function Depth(t: Tree): nat {
    match t
    case Leaf(_) => 0
    case One(c) => 1 + Depth(c)
    case Two(l, r) => 1 + if Depth(l) < Depth(r) then Depth(r) else Depth(l)
  }

  /** A node stores at most one hash per leaf below it, at most one per level and matched leaf
      besides one, and never more hashes than bits. */
  lemma {:induction false} BuildSize(H: Hasher, txids: seq<Hash>, mask: seq<bool>, t: Tree)
    requires |mask| == |txids| && Fits(|mask|, t)
    ensures var b := Build(H, txids, mask, t);
            && 1 <= |b.hashes| <= |b.bits|
            && |b.hashes| <= Leaves(t)
            && |b.hashes| <= 1 + |Matched(txids, mask, t)| * Depth(t)
  {
    match t
    case Leaf(_) =>
    case One(c) =>
      BuildSize(H, txids, mask, c);
      MulMonotone(|Matched(txids, mask, c)|, Depth(c), Depth(t));
    case Two(l, r) =>
      BuildSize(H, txids, mask, l);
      BuildSize(H, txids, mask, r);
      TwoSizes(|Matched(txids, mask, l)|, |Matched(txids, mask, r)|, Depth(l), Depth(r), Depth(t));
  }

  lemma TwoSizes(a: nat, b: nat, dl: nat, dr: nat, d: nat)
    requires dl < d && dr < d
    ensures a + b >= 1 ==> (1 + a * dl) + (1 + b * dr) <= 1 + (a + b) * d
  {
    MulMonotone(a, dl, d - 1);
    MulMonotone(b, dr, d - 1);
    assert a * (d - 1) + b * (d - 1) == (a + b) * d - (a + b);
  }

  // ----- a node's place in the row of leaves ---------------------------------

  /** The matched ids with their indices, from `lo` up to but not including `hi`. */
  function Selected(txids: seq<Hash>, mask: seq<bool>, lo: nat, hi: nat): seq<Match>
    requires |mask| == |txids| && hi <= |txids|
    decreases hi
  {
    if hi <= lo then []
    else Selected(txids, mask, lo, hi - 1) + (if mask[hi - 1] then [Match(txids[hi - 1], hi - 1)] else [])
  }

  lemma {:induction false} SelectedSplit(txids: seq<Hash>, mask: seq<bool>, lo: nat, mid: nat, hi: nat)
    requires |mask| == |txids| && lo <= mid <= hi <= |txids|
    ensures Selected(txids, mask, lo, hi) == Selected(txids, mask, lo, mid) + Selected(txids, mask, mid, hi)
    decreases hi
  {
    if mid < hi { SelectedSplit(txids, mask, lo, mid, hi - 1); }
  }

  function Lo(height: nat, pos: nat): nat { pos * Pow2(height) }

  function Hi(n: nat, height: nat, pos: nat): nat {
    if n < (pos + 1) * Pow2(height) then n else (pos + 1) * Pow2(height)
  }

  lemma Products(m: nat, pos: nat)
    ensures pos * (2 * m) == (2 * pos) * m
    ensures (2 * pos + 1) * m == (2 * pos) * m + m
    ensures (2 * pos + 2) * m == (2 * pos + 1) * m + m
    ensures (pos + 1) * (2 * m) == (2 * pos + 2) * m
    ensures (2 * pos + 1 + 1) * m == (2 * pos + 2) * m
    ensures (pos + 1) * m == pos * m + m
  {
  }

  lemma {:induction false} LeafInWidth(n: nat, height: nat, pos: nat, p: nat)
    requires pos * Pow2(height) <= p < n
    ensures pos < Width(n, height)
  {
    if height > 0 {
      Products(Pow2(height - 1), pos);
      LeafInWidth(n, height - 1, 2 * pos, p);
    }
  }

  lemma {:induction false} WidthHasLeaf(n: nat, height: nat, pos: nat)
    requires pos < Width(n, height)
    ensures Lo(height, pos) < Hi(n, height, pos)
  {
    Products(Pow2(height), pos);
    if height > 0 {
      Products(Pow2(height - 1), pos);
      WidthHasLeaf(n, height - 1, 2 * pos);
    }
  }

  lemma Halves(n: nat, height: nat, pos: nat)
    requires pos < Width(n, height + 1)
    ensures Lo(height, 2 * pos) == Lo(height + 1, pos)
    ensures 2 * pos + 1 < Width(n, height) ==>
              && Lo(height, 2 * pos + 1) == Hi(n, height, 2 * pos)
              && Hi(n, height, 2 * pos + 1) == Hi(n, height + 1, pos)
    ensures 2 * pos + 1 >= Width(n, height) ==> Hi(n, height, 2 * pos) == Hi(n, height + 1, pos)
  {
    var m := Pow2(height);
    Products(m, pos);
    if 2 * pos + 1 < Width(n, height) {
      WidthHasLeaf(n, height, 2 * pos + 1);
    } else if (2 * pos + 1) * m < n {
      LeafInWidth(n, height, 2 * pos + 1, (2 * pos + 1) * m);
    }
  }

  /** A node at a height covers a range of that many leaves, cut off at the end of the list. */
  lemma {:induction false} Covers(txids: seq<Hash>, mask: seq<bool>, height: nat, pos: nat)
    requires |mask| == |txids| && pos < Width(|txids|, height)
    ensures var t := Shape(|txids|, height, pos);
            && Fits(|txids|, t) && Depth(t) == height
            && Lo(height, pos) + Leaves(t) == Hi(|txids|, height, pos)
            && Matched(txids, mask, t) == Selected(txids, mask, Lo(height, pos), Hi(|txids|, height, pos))
  {
    var n := |txids|;
    ShapeFits(n, height, pos);
    if height == 0 {
      assert Pow2(0) == 1 && Lo(0, pos) == pos && Hi(n, 0, pos) == pos + 1;
      assert Selected(txids, mask, pos, pos) == [];
    } else {
      Halves(n, height - 1, pos);
      Covers(txids, mask, height - 1, 2 * pos);
      if 2 * pos + 1 < Width(n, height - 1) {
        Covers(txids, mask, height - 1, 2 * pos + 1);
        SelectedSplit(txids, mask, Lo(height, pos), Hi(n, height - 1, 2 * pos), Hi(n, height, pos));
      }
    }
  }

  lemma {:induction false} SelectedFlag(txids: seq<Hash>, mask: seq<bool>, lo: nat, hi: nat)
    requires |mask| == |txids| && hi <= |txids|
    ensures Selected(txids, mask, lo, hi) != [] <==> exists p :: lo <= p < hi && mask[p]
    decreases hi
  {
    if lo < hi {
      SelectedFlag(txids, mask, lo, hi - 1);
    }
  }

  // ----- whole trees ---------------------------------------------------------

  const MAX_TRANSACTIONS := 2000000 / 60

  /** The height at which a single node is left, found by going up level by level. */
  function TreeHeight(n: nat): (h: nat)
    ensures Width(n, h) <= 1
    ensures forall k :: 0 <= k < h ==> Width(n, k) > 1
  {
    HeightFrom(n, 0)
  }

  function HeightFrom(n: nat, h: nat): (r: nat)
    requires forall k :: 0 <= k < h ==> Width(n, k) > 1
    ensures Width(n, r) <= 1 && h <= r
    ensures forall k :: 0 <= k < r ==> Width(n, k) > 1
    decreases Width(n, h)
  {
    if Width(n, h) <= 1 then h else HeightFrom(n, h + 1)
  }

  lemma {:induction false} WidthPositive(n: nat, h: nat)
    requires n > 0
    ensures Width(n, h) > 0
  {
    if h > 0 { WidthPositive(n, h - 1); }
  }

  /** The tree over n leaves. */
  function Whole(n: nat): (t: Tree)
    requires n > 0
    ensures Fits(n, t)
  {
    WidthPositive(n, TreeHeight(n));
    ShapeFits(n, TreeHeight(n), 0);
    Shape(n, TreeHeight(n), 0)
  }

  lemma WholeCovers(txids: seq<Hash>, mask: seq<bool>)
    requires |mask| == |txids| && txids != []
    ensures Leaves(Whole(|txids|)) == |txids| && Depth(Whole(|txids|)) == TreeHeight(|txids|)
    ensures Matched(txids, mask, Whole(|txids|)) == Selected(txids, mask, 0, |txids|)
  {
    var n, h := |txids|, TreeHeight(|txids|);
    WidthPositive(n, h);
    Covers(txids, mask, h, 0);
    if Pow2(h) < n {
      LeafInWidth(n, h, 1, Pow2(h));
    }
    assert Hi(n, h, 0) == n && Lo(h, 0) == 0;
  }

  /** The Merkle root of a list of transaction ids. */
  function MerkleRoot(H: Hasher, txids: seq<Hash>): Hash
    requires txids != []
  {
    WidthPositive(|txids|, TreeHeight(|txids|));
    CalcHash(H, txids, TreeHeight(|txids|), 0)
  }

  datatype Extracted = Failed | Ok(root: Hash, matches: seq<Match>)

  /** ExtractMatches with all its checks. */
  function ExtractMatches(H: Hasher, n: nat, bits: seq<bool>, hashes: seq<Hash>): Extracted {
    if n == 0 || n > MAX_TRANSACTIONS || |hashes| > n || |bits| < |hashes| then Failed
    else
      var x := Extract(H, bits, hashes, Whole(n), 0, 0);
      if x.bad || (x.bitsUsed + 7) / 8 != (|bits| + 7) / 8 || x.hashesUsed != |hashes| then Failed
      else Ok(x.hash, x.matches)
  }

  /** If a partial tree, however it was made, gives the Merkle root of a list of as many ids,
      then every id it reports is really in that list at its index, or an input hashed on the way collides with one
      hashed for the list's own root. */
  lemma Authentic(H: Hasher, txids: seq<Hash>, bits: seq<bool>, hashes: seq<Hash>)
    requires txids != []
    requires ExtractMatches(H, |txids|, bits, hashes).Ok?
    requires ExtractMatches(H, |txids|, bits, hashes).root == MerkleRoot(H, txids)
    ensures || Collide(H, ExtractPreimages(H, bits, hashes, Whole(|txids|), 0, 0), Preimages(H, txids, Whole(|txids|)))
            || AllGenuine(txids, ExtractMatches(H, |txids|, bits, hashes).matches)
  {
    WidthPositive(|txids|, TreeHeight(|txids|));
    CalcHashOfShape(H, txids, TreeHeight(|txids|), 0);
    ExtractSound(H, txids, bits, hashes, Whole(|txids|), 0, 0,
                 ExtractPreimages(H, bits, hashes, Whole(|txids|), 0, 0), Preimages(H, txids, Whole(|txids|)));
  }

  function BuildTree(H: Hasher, txids: seq<Hash>, mask: seq<bool>): Built
    requires |mask| == |txids| && txids != []
  {
    Build(H, txids, mask, Whole(|txids|))
  }

  /** The nodes with one child that have a match below them. */
  function OneChild(mask: seq<bool>, t: Tree): nat
    requires Fits(|mask|, t)
  {
    if !HasMatch(mask, t) then 0
    else
      match t
      case Leaf(_) => 0
      case One(c) => 1 + OneChild(mask, c)
      case Two(l, r) => OneChild(mask, l) + OneChild(mask, r)
  }

  lemma {:induction false} BuildBits(H: Hasher, txids: seq<Hash>, mask: seq<bool>, t: Tree)
    requires |mask| == |txids| && Fits(|mask|, t)
    ensures var b := Build(H, txids, mask, t); |b.bits| == 2 * |b.hashes| - 1 + OneChild(mask, t)
  {
    if HasMatch(mask, t) {
      match t
      case Leaf(_) =>
      case One(c) => BuildBits(H, txids, mask, c);
      case Two(l, r) => BuildBits(H, txids, mask, l); BuildBits(H, txids, mask, r);
    }
  }

  /** The exact number of bits: the documented bound of twice the hashes less one holds if and only if no node with
      one child has a match below it. */
  lemma TreeBits(H: Hasher, txids: seq<Hash>, mask: seq<bool>)
    requires |mask| == |txids| && txids != []
    ensures var b := BuildTree(H, txids, mask);
            && |b.bits| == 2 * |b.hashes| - 1 + OneChild(mask, Whole(|txids|))
            && (|b.bits| <= 2 * |b.hashes| - 1 <==> OneChild(mask, Whole(|txids|)) == 0)
  {
    BuildBits(H, txids, mask, Whole(|txids|));
  }

  /** With three transactions of which the last is matched: four bits and two hashes. */
  lemma MoreBits(H: Hasher, x: Hash)
    ensures var b := BuildTree(H, [x, x + 1, x + 2], [false, false, true]); |b.bits| == 4 && |b.hashes| == 2
  {
    var txids, mask := [x, x + 1, x + 2], [false, false, true];
    var t := Two(Two(Leaf(0), Leaf(1)), One(Leaf(2)));
    assert Width(3, 0) == 3 && Width(3, 1) == 2 && Width(3, 2) == 1;
    assert TreeHeight(3) == 2;
    assert Shape(3, 1, 0) == Two(Leaf(0), Leaf(1)) && Shape(3, 1, 1) == One(Leaf(2));
    assert Whole(3) == t;
    var left, right := Build(H, txids, mask, Two(Leaf(0), Leaf(1))), Build(H, txids, mask, One(Leaf(2)));
    assert Build(H, txids, mask, Leaf(2)) == Built([true], [x + 2]);
    assert HasMatch(mask, One(Leaf(2))) && !HasMatch(mask, Leaf(0)) && !HasMatch(mask, Leaf(1));
    assert |left.bits| == 1 && |left.hashes| == 1 && |right.bits| == 2 && |right.hashes| == 1;
    assert BuildTree(H, txids, mask) == Concat(Built([true], []), Concat(left, right));
  }

  /** The documented bounds on the number of hashes. */
  lemma TreeSize(H: Hasher, txids: seq<Hash>, mask: seq<bool>)
    requires |mask| == |txids| && txids != []
    ensures var b := BuildTree(H, txids, mask);
            && 1 <= |b.hashes| <= |txids| && |b.hashes| <= |b.bits|
            && |b.hashes| <= 1 + |Selected(txids, mask, 0, |txids|)| * TreeHeight(|txids|)
  {
    WholeCovers(txids, mask);
    BuildSize(H, txids, mask, Whole(|txids|));
  }

  /** A tree built from distinct ids and a mask, its bits padded to whole bytes, gives the
      Merkle root and exactly the matched ids in order, or two inputs hashed for the root collide. */
  lemma RoundTrip(H: Hasher, txids: seq<Hash>, mask: seq<bool>, padding: seq<bool>)
    requires |mask| == |txids| && 0 < |txids| <= MAX_TRANSACTIONS && Distinct(txids)
    requires (|BuildTree(H, txids, mask).bits| + |padding|) % 8 == 0 && |padding| < 8
    ensures var b := BuildTree(H, txids, mask);
            || Collide(H, Preimages(H, txids, Whole(|txids|)), Preimages(H, txids, Whole(|txids|)))
            || ExtractMatches(H, |txids|, b.bits + padding, b.hashes)
                 == Ok(MerkleRoot(H, txids), Selected(txids, mask, 0, |txids|))
  {
    var n, b := |txids|, BuildTree(H, txids, mask);
    assert HoldsBuilt(b.bits + padding, b.hashes, 0, 0, b);
    ExtractBuilt(H, txids, mask, Whole(n), b.bits + padding, b.hashes, 0, 0);
    TreeSize(H, txids, mask);
    WholeCovers(txids, mask);
    WidthPositive(n, TreeHeight(n));
    CalcHashOfShape(H, txids, TreeHeight(n), 0);
    if HasTwins(H, txids, Whole(n)) {
      TwinsCollide(H, txids, TreeHeight(n), 0, Preimages(H, txids, Whole(n)));
    }
    PaddedBytes(|b.bits|, |padding|);
  }

  lemma PaddedBytes(used: nat, padding: nat)
    requires (used + padding) % 8 == 0 && padding < 8
    ensures (used + 7) / 8 == (used + padding + 7) / 8
  {
  }
}
