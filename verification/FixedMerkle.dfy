/**
 The fixed binary Merkle tree: leaves padded to a power of two with the empty leaf, hashed
 layer by layer.

 `FoldVerifiesExactly` is the central statement: it says, for an index of any size and sign and
 for any number of siblings up to the height, exactly which values a proof is accepted for.
 */
module FixedMerkle {
  import opened Wrappers
  import opened MerkleHash
  import opened Arithmetic

  /** The height of the padded tree over n leaves: the least h with n <= 2^h. */
  ghost function HeightFrom(n: nat, h: nat): (k: nat)
    ensures h <= k && n <= Pow2(k)
    ensures forall j: nat | h <= j < k :: Pow2(j) < n
    decreases n - Pow2(h)
  {
    if n <= Pow2(h) then h else HeightFrom(n, h + 1)
  }

  ghost function Height(n: nat): (h: nat)
    ensures n <= Pow2(h)
    ensures forall j: nat | j < h :: Pow2(j) < n
  {
    HeightFrom(n, 0)
  }

  /** Doubles from one until n is reached. */
  method NextPow2(n: nat) returns (p: nat)
    ensures p == Pow2(Height(n))
  {
    p := 1;
    ghost var h := 0;
    while p < n
      invariant p == Pow2(h)
      invariant h <= Height(n)
      decreases n - p
    {
      p := p * 2;
      h := h + 1;
    }
  }

  /** The leaves with empty leaves appended up to the next power of two. */
  ghost function Padded(leaves: seq<Hash>): (s: seq<Hash>)
    ensures |s| == Pow2(Height(|leaves|))
    ensures forall i | 0 <= i < |s| :: s[i] == if i < |leaves| then leaves[i] else EmptyLeaf
  {
    leaves + seq(Pow2(Height(|leaves|)) - |leaves|, _ => EmptyLeaf)
  }

  /** The layer above: adjacent pairs hashed. */
  ghost function Above(layer: seq<Hash>): (s: seq<Hash>)
    requires |layer| % 2 == 0
    ensures |s| == |layer| / 2
  {
    seq(|layer| / 2, i requires 0 <= i < |layer| / 2 => Node(layer[2 * i], layer[2 * i + 1]))
  }

  /** The single value a layer of 2^h reduces to. */
  ghost function Reduce(layer: seq<Hash>, h: nat): Hash
    requires |layer| == Pow2(h)
    decreases h
  {
    if h == 0 then layer[0] else Reduce(Above(layer), h - 1)
  }

  /** The same value read from the top: the left half and the right half, hashed. */
  ghost function TopDown(layer: seq<Hash>, h: nat): Hash
    requires |layer| == Pow2(h)
  {
    if h == 0 then layer[0]
    else Node(TopDown(layer[..Pow2(h - 1)], h - 1), TopDown(layer[Pow2(h - 1)..], h - 1))
  }

  /** Hashing layers upwards builds the balanced tree that splitting in halves describes. */
  lemma {:induction false} ReduceIsTopDown(layer: seq<Hash>, h: nat)
    requires |layer| == Pow2(h)
    ensures Reduce(layer, h) == TopDown(layer, h)
    decreases h
  {
    if h >= 2 {
      var half := Pow2(h - 1);
      var up := Above(layer);
      assert up[..Pow2(h - 2)] == Above(layer[..half]);
      assert up[Pow2(h - 2)..] == Above(layer[half..]);
      ReduceIsTopDown(up, h - 1);
      ReduceIsTopDown(layer[..half], h - 1);
      ReduceIsTopDown(layer[half..], h - 1);
      ReduceIsTopDown(Above(layer[..half]), h - 2);
      ReduceIsTopDown(Above(layer[half..]), h - 2);
    }
  }

  /** The sibling at a layer: the other half of the index's pair. */
  ghost function Buddy(i: nat): nat {
    if i % 2 == 0 then i + 1 else i - 1
  }

  /** The bottom-up siblings of an index in a layer of 2^h. */
  ghost function PathOf(layer: seq<Hash>, i: nat, h: nat): (s: seq<Hash>)
    requires |layer| == Pow2(h) && i < |layer|
    ensures |s| == h
    decreases h
  {
    if h == 0 then [] else [layer[Buddy(i)]] + PathOf(Above(layer), i / 2, h - 1)
  }

  /** What the verifier computes: the low index bit picks the side, then the index is shifted. */
  function Fold(leaf: Hash, index: int, siblings: seq<Hash>): Hash
    decreases |siblings|
  {
    if siblings == [] then leaf
    else Fold(if index % 2 == 0 then Node(leaf, siblings[0]) else Node(siblings[0], leaf), index / 2, siblings[1..])
  }

  lemma {:induction false} FoldSplit(leaf: Hash, index: int, a: seq<Hash>, b: seq<Hash>)
    ensures Fold(leaf, index, a + b) == Fold(Fold(leaf, index, a), index / Pow2(|a|), b)
    decreases |a|
  {
    if a == [] {
      assert a + b == b;
    } else {
      assert (a + b)[1..] == a[1..] + b;
      FoldSplit(if index % 2 == 0 then Node(leaf, a[0]) else Node(a[0], leaf), index / 2, a[1..], b);
      HalveThenShift(index, |a| - 1);
    }
  }

  lemma HalveThenShift(index: int, n: nat)
    ensures index / 2 / Pow2(n) == index / Pow2(n + 1)
    ensures index % Pow2(n + 1) == 2 * (index / 2 % Pow2(n)) + index % 2
  {
    var p := Pow2(n);
    var q, r := index / 2 / p, index / 2 % p;
    assert index / 2 == q * p + r;
    assert index == 2 * (index / 2) + index % 2;
    assert index == (2 * p) * q + (2 * r + index % 2) by {
      assert 2 * (q * p) == (2 * p) * q;
    }
    DivModUnique(index, 2 * p, q, 2 * r + index % 2);
  }

  lemma ConsExactly(s: seq<Hash>, head: Hash, tail: seq<Hash>)
    requires s != []
    ensures s == [head] + tail <==> s[0] == head && s[1..] == tail
  {
    assert s == [s[0]] + s[1..];
    assert ([head] + tail)[1..] == tail;
  }

  lemma Doubled(j: nat)
    ensures 2 * j / 2 == j && 2 * j % 2 == 0 && (2 * j + 1) / 2 == j && (2 * j + 1) % 2 == 1
  {
  }

  /** The first sibling of a path, and the rest of it one layer up. */
  lemma PathUnfold(layer: seq<Hash>, i: nat, j: nat, other: nat, h: nat)
    requires h > 0 && |layer| == Pow2(h) && i < |layer| && j == i / 2 && other == Buddy(i)
    ensures j < |Above(layer)| == Pow2(h - 1) && other < |layer|
    ensures PathOf(layer, i, h) == [layer[other]] + PathOf(Above(layer), j, h - 1)
  {
  }

  lemma AboveAt(layer: seq<Hash>, j: nat)
    requires |layer| % 2 == 0 && j < |layer| / 2
    ensures Above(layer)[j] == Node(layer[2 * j], layer[2 * j + 1])
  {
  }

  /** One pair: the step up lands on the layer above exactly when value and sibling are the pair's own. */
  lemma PairLeft(layer: seq<Hash>, h: nat, j: nat, leaf: Hash, siblings: seq<Hash>)
    requires h > 0 && |layer| == Pow2(h) && |siblings| == h && j < Pow2(h - 1)
    ensures Node(leaf, siblings[0]) == Above(layer)[j] && siblings[1..] == PathOf(Above(layer), j, h - 1) <==>
            leaf == layer[2 * j] && siblings == PathOf(layer, 2 * j, h)
  {
    Doubled(j);
    AboveAt(layer, j);
    PathUnfold(layer, 2 * j, j, 2 * j + 1, h);
    ConsExactly(siblings, layer[2 * j + 1], PathOf(Above(layer), j, h - 1));
  }

  lemma PairRight(layer: seq<Hash>, h: nat, j: nat, leaf: Hash, siblings: seq<Hash>)
    requires h > 0 && |layer| == Pow2(h) && |siblings| == h && j < Pow2(h - 1)
    ensures Node(siblings[0], leaf) == Above(layer)[j] && siblings[1..] == PathOf(Above(layer), j, h - 1) <==>
            leaf == layer[2 * j + 1] && siblings == PathOf(layer, 2 * j + 1, h)
  {
    Doubled(j);
    AboveAt(layer, j);
    PathUnfold(layer, 2 * j + 1, j, 2 * j, h);
    ConsExactly(siblings, layer[2 * j], PathOf(Above(layer), j, h - 1));
  }

  lemma LayerUp(layer: seq<Hash>, h: nat)
    requires |layer| == Pow2(h) && |layer| > 1
    ensures h > 0 && |layer| % 2 == 0 && |Above(layer)| == Pow2(h - 1)
    ensures Reduce(layer, h) == Reduce(Above(layer), h - 1)
  {
  }

  /** i is the number the low h bits of an index spell. */
  predicate LowBits(index: int, h: nat, i: nat)
    decreases h
  {
    if h == 0 then i == 0 else i % 2 == index % 2 && LowBits(index / 2, h - 1, i / 2)
  }

  lemma DoubleAndBit(i: nat, j: nat, bit: nat)
    requires bit < 2 && i == 2 * j + bit
    ensures i / 2 == j && i % 2 == bit
  {
  }

  lemma {:induction false} LowBitsAreRemainder(index: int, h: nat)
    ensures LowBits(index, h, index % Pow2(h))
    decreases h
  {
    if h == 0 {
      assert index % 1 == 0;
    } else {
      var j, i := index / 2 % Pow2(h - 1), index % Pow2(h);
      LowBitsAreRemainder(index / 2, h - 1);
      assert i == 2 * j + index % 2 by {
        HalveThenShift(index, h - 1);
      }
      DoubleAndBit(i, j, index % 2);
    }
  }

  lemma {:induction false} FoldAt(layer: seq<Hash>, h: nat, leaf: Hash, index: int, siblings: seq<Hash>, i: nat)
    requires |layer| == Pow2(h) && |siblings| == h && i < Pow2(h) && LowBits(index, h, i)
    ensures Fold(leaf, index, siblings) == Reduce(layer, h) <==> leaf == layer[i] && siblings == PathOf(layer, i, h)
    decreases h
  {
    if h == 0 {
    } else {
      var j := i / 2;
      LayerUp(layer, h);
      if index % 2 == 0 {
        assert i == 2 * j;
        FoldAt(Above(layer), h - 1, Node(leaf, siblings[0]), index / 2, siblings[1..], j);
        PairLeft(layer, h, j, leaf, siblings);
      } else {
        assert i == 2 * j + 1;
        FoldAt(Above(layer), h - 1, Node(siblings[0], leaf), index / 2, siblings[1..], j);
        PairRight(layer, h, j, leaf, siblings);
      }
    }
  }

  /** With exactly tree-height siblings: the value and the siblings are those at the index's low bits. */
  lemma FoldExactly(layer: seq<Hash>, h: nat, leaf: Hash, index: int, siblings: seq<Hash>)
    requires |layer| == Pow2(h) && |siblings| == h
    ensures Fold(leaf, index, siblings) == Reduce(layer, h) <==>
            leaf == layer[index % Pow2(h)] && siblings == PathOf(layer, index % Pow2(h), h)
  {
    LowBitsAreRemainder(index, h);
    FoldAt(layer, h, leaf, index, siblings, index % Pow2(h));
  }

  /** The layer k steps above. */
  ghost function LayerAt(layer: seq<Hash>, h: nat, k: nat): (s: seq<Hash>)
    requires |layer| == Pow2(h) && k <= h
    ensures |s| == Pow2(h - k)
    ensures Reduce(s, h - k) == Reduce(layer, h)
    decreases k
  {
    if k == 0 then layer else LayerAt(Above(layer), h - 1, k - 1)
  }

  ghost function RootOf(leaves: seq<Hash>): Hash {
    if leaves == [] then EmptyLeaf else Reduce(Padded(leaves), Height(|leaves|))
  }

  /**
   What a proof of any length up to the height is accepted for. The verifier does not look at the
   length: m siblings speak about the layer m below the root, at the index's low m bits.
   */
  lemma FoldVerifiesExactly(leaves: seq<Hash>, leaf: Hash, index: int, siblings: seq<Hash>)
    requires leaves != [] && |siblings| <= Height(|leaves|)
    ensures
      var h := Height(|leaves|);
      var m := |siblings|;
      var layer := LayerAt(Padded(leaves), h, h - m);
      Fold(leaf, index, siblings) == RootOf(leaves) <==>
      leaf == layer[index % Pow2(m)] && siblings == PathOf(layer, index % Pow2(m), m)
  {
    var h := Height(|leaves|);
    var layer := LayerAt(Padded(leaves), h, h - |siblings|);
    FoldExactly(layer, |siblings|, leaf, index, siblings);
  }

  /** With exactly tree-height siblings and an index in range, only the leaf at that index passes. */
  lemma FullProofExactly(leaves: seq<Hash>, leaf: Hash, index: nat, siblings: seq<Hash>)
    requires leaves != [] && |siblings| == Height(|leaves|) && index < Pow2(Height(|leaves|))
    ensures Fold(leaf, index, siblings) == RootOf(leaves) <==>
            leaf == Padded(leaves)[index] && siblings == PathOf(Padded(leaves), index, Height(|leaves|))
  {
    FoldVerifiesExactly(leaves, leaf, index, siblings);
    SmallMod(index, Pow2(Height(|leaves|)));
  }

  lemma SmallMod(i: nat, n: nat)
    requires i < n
    ensures i % n == i
  {
  }

  /** Past the height, the extra low siblings must first climb from the value to a padded leaf. */
  lemma LongProofExactly(leaves: seq<Hash>, leaf: Hash, index: int, low: seq<Hash>, high: seq<Hash>)
    requires leaves != [] && |high| == Height(|leaves|)
    ensures
      var h := Height(|leaves|);
      var i := index / Pow2(|low|) % Pow2(h);
      Fold(leaf, index, low + high) == RootOf(leaves) <==>
      Fold(leaf, index, low) == Padded(leaves)[i] && high == PathOf(Padded(leaves), i, h)
  {
    FoldSplit(leaf, index, low, high);
    FoldVerifiesExactly(leaves, Fold(leaf, index, low), index / Pow2(|low|), high);
  }

  /** A proof cut short is accepted for an inner node: the verifier's caller has to know the height. */
  lemma ShortProofAcceptsInnerNode(a: Hash, b: Hash)
    ensures Fold(Node(a, b), 0, []) == RootOf([a, b])
    ensures Node(a, b) !in Padded([a, b])
  {
    assert Pow2(1) == 2;
    assert Height(2) == 1;
    var p := Padded([a, b]);
    assert p == [a, b];
    assert Above(p) == [Node(a, b)];
    assert Reduce(p, 1) == Reduce([Node(a, b)], 0);
    assert Nodes(Node(a, b)) > Nodes(a) && Nodes(Node(a, b)) > Nodes(b);
  }

  ghost function Nodes(h: Hash): nat {
    match h
    case Node(l, r) => 1 + Nodes(l) + Nodes(r)
    case _ => 0
  }

  /** Vectors padded to one height have the same root exactly when they are equal after padding. */
  lemma RootBindsLeaves(a: seq<Hash>, b: seq<Hash>)
    requires a != [] && b != [] && Height(|a|) == Height(|b|)
    ensures RootOf(a) == RootOf(b) <==> Padded(a) == Padded(b)
  {
    if RootOf(a) == RootOf(b) {
      ReduceInjective(Padded(a), Padded(b), Height(|a|));
    }
  }

  lemma AboveInjective(a: seq<Hash>, b: seq<Hash>)
    requires |a| == |b| && |a| % 2 == 0 && Above(a) == Above(b)
    ensures a == b
  {
    forall j | 0 <= j < |a| / 2
      ensures a[2 * j] == b[2 * j] && a[2 * j + 1] == b[2 * j + 1]
    {
      assert Above(a)[j] == Above(b)[j];
    }
    forall i | 0 <= i < |a|
      ensures a[i] == b[i]
    {
      assert i == 2 * (i / 2) || i == 2 * (i / 2) + 1;
    }
  }

  lemma {:induction false} ReduceInjective(a: seq<Hash>, b: seq<Hash>, h: nat)
    requires |a| == |b| == Pow2(h) && Reduce(a, h) == Reduce(b, h)
    ensures a == b
    decreases h
  {
    if h == 0 {
      assert a == [a[0]] && b == [b[0]];
    } else {
      ReduceInjective(Above(a), Above(b), h - 1);
      AboveInjective(a, b);
    }
  }

  // ---- The loops ----

  method PadLeaves(leaves: seq<Hash>) returns (layer: seq<Hash>)
    ensures layer == Padded(leaves)
  {
    layer := leaves;
    var width := NextPow2(|leaves|);
    while |layer| < width
      invariant |leaves| <= |layer| <= width
      invariant forall i | 0 <= i < |layer| :: layer[i] == if i < |leaves| then leaves[i] else EmptyLeaf
    {
      layer := layer + [EmptyLeaf];
    }
  }

  method HashPairs(layer: seq<Hash>) returns (next: seq<Hash>)
    requires |layer| % 2 == 0
    ensures next == Above(layer)
  {
    next := [];
    var i := 0;
    while i < |layer|
      invariant 0 <= i <= |layer| && i % 2 == 0
      invariant |next| == i / 2
      invariant forall k | 0 <= k < |next| :: next[k] == Node(layer[2 * k], layer[2 * k + 1])
    {
      next := next + [Node(layer[i], layer[i + 1])];
      i := i + 2;
    }
  }

  method FixedMerkleRoot(leaves: seq<Hash>) returns (root: Hash)
    ensures root == RootOf(leaves)
  {
    if |leaves| == 0 {
      return EmptyLeaf;
    }
    var layer := PadLeaves(leaves);
    ghost var h := Height(|leaves|);
    while |layer| > 1
      invariant |layer| == Pow2(h)
      invariant Reduce(layer, h) == RootOf(leaves)
      decreases h
    {
      LayerUp(layer, h);
      layer := HashPairs(layer);
      h := h - 1;
    }
    assert h == 0;
    return layer[0];
  }

  /** One layer up, a sibling moves from the path still to go to the ones collected. */
  lemma PathStep(layer: seq<Hash>, i: nat, h: nat, collected: seq<Hash>)
    requires h > 0 && |layer| == Pow2(h) && i < |layer|
    ensures i / 2 < |Above(layer)| == Pow2(h - 1) && Buddy(i) < |layer|
    ensures collected + PathOf(layer, i, h) == collected + [layer[Buddy(i)]] + PathOf(Above(layer), i / 2, h - 1)
  {
  }

  datatype FixedProof = FixedProof(index: nat, siblings: seq<Hash>)

  /** None where the source throws. The proof verifies, and holds one sibling per level. */
  method FixedMerkleProof(leaves: seq<Hash>, index: int) returns (r: Option<FixedProof>)
    ensures r.Some? <==> 0 <= index < |leaves|
    ensures r.Some? ==>
              && r.value.index == index
              && r.value.siblings == PathOf(Padded(leaves), index, Height(|leaves|))
              && Fold(leaves[index], index, r.value.siblings) == RootOf(leaves)
  {
    if index < 0 || index >= |leaves| {
      return None;
    }
    var layer := PadLeaves(leaves);
    ghost var h := Height(|leaves|);
    ghost var whole := PathOf(layer, index, h);
    var siblings: seq<Hash> := [];
    var idx: nat := index;
    while |layer| > 1
      invariant |layer| == Pow2(h) && idx < |layer|
      invariant siblings + PathOf(layer, idx, h) == whole
      decreases h
    {
      LayerUp(layer, h);
      PathStep(layer, idx, h, siblings);
      var sibIdx := if idx % 2 == 0 then idx + 1 else idx - 1;
      siblings := siblings + [layer[sibIdx]];
      layer := HashPairs(layer);
      idx := idx / 2;
      h := h - 1;
    }
    assert h == 0;
    assert siblings == whole;
    FullProofExactly(leaves, leaves[index], index, siblings);
    return Some(FixedProof(index, siblings));
  }

  method VerifyFixedMerkleProof(root: Hash, leaf: Hash, index: int, siblings: seq<Hash>) returns (ok: bool)
    ensures ok == (Fold(leaf, index, siblings) == root)
  {
    var node := leaf;
    var idx := index;
    for k := 0 to |siblings|
      invariant Fold(node, idx, siblings[k..]) == Fold(leaf, index, siblings)
    {
      var sib := siblings[k];
      assert siblings[k..][0] == sib && siblings[k..][1..] == siblings[k + 1..];
      node := if idx % 2 == 0 then Node(node, sib) else Node(sib, node);
      idx := idx / 2;
    }
    return node == root;
  }
}
