/**
 Walking down from a hash value, whatever tree it may have come from.

 A verifier hashes upwards; `ClimbIsDescent` and `FoldIsDescent` turn what it accepts into what is
 found below the root by walking down. That holds for every root, every claim and every number of
 siblings, so several verifiers can be chained.
 */
module Descent {
  import opened Wrappers
  import opened MerkleHash
  import opened SparseMerkle
  import opened FixedMerkle

  function Half(h: Hash, right: bool): Hash
    requires h.Node?
  {
    if right then h.right else h.left
  }

  /** The value below h at the end of a path; None where the path leaves the nodes. */
  function Down(h: Hash, path: seq<bool>): Option<Hash>
    decreases |path|, h
  {
    if path == [] then Some(h)
    else if h.Node? then Down(Half(h, path[0]), path[1..])
    else None
  }

  /** The halves a path passes by, from the top. */
  function PassedBy(h: Hash, path: seq<bool>): (s: seq<Hash>)
    requires Down(h, path).Some?
    ensures |s| == |path|
    decreases |path|, h
  {
    if path == [] then [] else [Half(h, !path[0])] + PassedBy(Half(h, path[0]), path[1..])
  }

  lemma DownCons(h: Hash, bit: bool, rest: seq<bool>)
    requires h.Node?
    ensures Down(h, [bit] + rest) == Down(Half(h, bit), rest)
  {
    assert ([bit] + rest)[1..] == rest;
  }

  lemma DownTwo(h: Hash, a: bool, b: bool)
    requires h.Node? && Half(h, a).Node?
    ensures Down(h, [a, b]) == Some(Half(Half(h, a), b))
  {
    assert [a, b] == [a] + [b] && [b] == [b] + [];
    DownCons(h, a, [b]);
    DownCons(Half(h, a), b, []);
  }

  lemma {:induction false} DownAppend(h: Hash, a: seq<bool>, b: seq<bool>)
    ensures Down(h, a + b) == if Down(h, a).Some? then Down(Down(h, a).value, b) else None
    decreases |a|
  {
    if a == [] {
      assert a + b == b;
    } else if h.Node? {
      assert (a + b)[0] == a[0] && (a + b)[1..] == a[1..] + b;
      DownAppend(Half(h, a[0]), a[1..], b);
    }
  }

  lemma {:induction false} PassedBySnoc(h: Hash, a: seq<bool>, bit: bool)
    requires Down(h, a).Some? && Down(h, a).value.Node?
    ensures Down(h, a + [bit]) == Some(Half(Down(h, a).value, bit))
    ensures PassedBy(h, a + [bit]) == PassedBy(h, a) + [Half(Down(h, a).value, !bit)]
    decreases |a|
  {
    if a == [] {
      assert a + [bit] == [bit];
    } else {
      assert (a + [bit])[0] == a[0] && (a + [bit])[1..] == a[1..] + [bit];
      PassedBySnoc(Half(h, a[0]), a[1..], bit);
    }
  }

  // ---- The sparse verifier ----

  lemma HashesTo(below: Hash, sibling: Hash, bit: bool, h: Hash)
    ensures (if !bit then Node(below, sibling) else Node(sibling, below)) == h <==>
            h.Node? && below == Half(h, bit) && sibling == Half(h, !bit)
  {
  }

  lemma ConsSuffix(s: seq<Hash>, d: nat, head: Hash, tail: seq<Hash>)
    requires d < |s|
    ensures s[d..] == [head] + tail <==> s[d] == head && s[d + 1..] == tail
  {
    assert s[d..] == [s[d]] + s[d + 1..];
    ConsExactly(s[d..], head, tail);
  }

  /** Hashing up from a leaf reaches h exactly when walking down from h finds the leaf past those siblings. */
  lemma {:induction false} ClimbIsDescent(path: seq<bool>, leaf: Hash, siblings: seq<Hash>, depth: nat, h: Hash)
    requires |path| == |siblings| == SMT_DEPTH
    requires depth <= SMT_DEPTH
    ensures Climb(path, leaf, siblings, depth) == h <==>
            Down(h, path[depth..]) == Some(leaf) && PassedBy(h, path[depth..]) == siblings[depth..]
    decreases SMT_DEPTH - depth
  {
    if depth == SMT_DEPTH {
      assert path[depth..] == [] && siblings[depth..] == [];
    } else {
      var below := Climb(path, leaf, siblings, depth + 1);
      var rest := path[depth..];
      var bit := path[depth];
      assert rest[0] == bit && rest[1..] == path[depth + 1..];
      HashesTo(below, siblings[depth], bit, h);
      if h.Node? {
        ClimbIsDescent(path, leaf, siblings, depth + 1, Half(h, bit));
        if Down(Half(h, bit), path[depth + 1..]).Some? {
          ConsSuffix(siblings, depth, Half(h, !bit), PassedBy(Half(h, bit), path[depth + 1..]));
        }
      }
    }
  }

  /** The sparse verifier, for any root. */
  lemma AcceptsExactly(root: Hash, key: Key, value: Option<Hash>, siblings: seq<Hash>)
    ensures Accepts(root, key, value, siblings) <==>
            Down(root, Path(key)) == Some(Claimed(value)) && siblings == PassedBy(root, Path(key))
  {
    if |siblings| == SMT_DEPTH {
      assert Path(key)[0..] == Path(key) && siblings[0..] == siblings;
      ClimbIsDescent(Path(key), Claimed(value), siblings, 0, root);
    }
  }

  // ---- The fixed verifier ----

  /** The low n bits of an index, from the top. */
  function IndexBits(index: int, n: nat): (b: seq<bool>)
    ensures |b| == n
    decreases n
  {
    if n == 0 then [] else IndexBits(index / 2, n - 1) + [index % 2 != 0]
  }

  function Reversed<T>(s: seq<T>): (r: seq<T>)
    ensures |r| == |s|
  {
    if s == [] then [] else Reversed(s[1..]) + [s[0]]
  }

  lemma {:induction false} ReversedSnoc<T>(s: seq<T>, x: T)
    ensures Reversed(s + [x]) == [x] + Reversed(s)
  {
    if s == [] {
      assert [] + [x] == [x];
    } else {
      assert (s + [x])[1..] == s[1..] + [x];
      ReversedSnoc(s[1..], x);
    }
  }

  lemma {:induction false} ReversedTwice<T>(s: seq<T>)
    ensures Reversed(Reversed(s)) == s
  {
    if s == [] {
    } else {
      ReversedTwice(s[1..]);
      ReversedSnoc(Reversed(s[1..]), s[0]);
      assert s == [s[0]] + s[1..];
    }
  }

  lemma SnocExactly<T>(a: seq<T>, x: T, b: seq<T>, y: T)
    ensures a + [x] == b + [y] <==> a == b && x == y
  {
    if a + [x] == b + [y] {
      assert |a| == |b|;
      assert (a + [x])[..|a|] == a && (b + [y])[..|b|] == b;
      assert (a + [x])[|a|] == x && (b + [y])[|b|] == y;
    }
  }

  lemma FoldStep(h: Hash, bits: seq<bool>, bit: bool, leaf: Hash, above: seq<Hash>, sibling: Hash)
    ensures
      var step := if !bit then Node(leaf, sibling) else Node(sibling, leaf);
      Down(h, bits) == Some(step) && PassedBy(h, bits) == above <==>
      Down(h, bits + [bit]) == Some(leaf) && PassedBy(h, bits + [bit]) == above + [sibling]
  {
    var step := if !bit then Node(leaf, sibling) else Node(sibling, leaf);
    DownAppend(h, bits, [bit]);
    if Down(h, bits).Some? && Down(h, bits).value.Node? {
      var node := Down(h, bits).value;
      PassedBySnoc(h, bits, bit);
      HashesTo(leaf, sibling, bit, node);
      SnocExactly(PassedBy(h, bits), Half(node, !bit), above, sibling);
    } else if Down(h, bits).Some? {
      assert Down(Down(h, bits).value, [bit]) == None;
    }
  }

  /** Folding siblings by an index's bits, for any root, index and number of siblings. */
  lemma {:induction false} FoldIsDescent(leaf: Hash, index: int, siblings: seq<Hash>, h: Hash)
    ensures
      var bits := IndexBits(index, |siblings|);
      Fold(leaf, index, siblings) == h <==> Down(h, bits) == Some(leaf) && PassedBy(h, bits) == Reversed(siblings)
    decreases |siblings|
  {
    if siblings == [] {
      assert Down(h, []) == Some(h);
    } else {
      var bit := index % 2 != 0;
      var step := if !bit then Node(leaf, siblings[0]) else Node(siblings[0], leaf);
      FoldIsDescent(step, index / 2, siblings[1..], h);
      FoldStep(h, IndexBits(index / 2, |siblings| - 1), bit, leaf, Reversed(siblings[1..]), siblings[0]);
    }
  }

  // ---- Trees of one depth ----

  /** Every path of length n from h ends on a value that is no node, and none ends before. */
  predicate Uniform(h: Hash, n: nat)
    decreases n, h
  {
    if n == 0 then !h.Node? else h.Node? && Uniform(h.left, n - 1) && Uniform(h.right, n - 1)
  }

  /** Where a path in such a tree ends depends on its length alone. */
  lemma {:induction false} UniformDown(h: Hash, n: nat, path: seq<bool>)
    requires Uniform(h, n)
    ensures |path| < n <==> Down(h, path).Some? && Down(h, path).value.Node?
    ensures |path| == n <==> Down(h, path).Some? && !Down(h, path).value.Node?
    decreases n
  {
    if path == [] {
    } else if n > 0 {
      UniformDown(Half(h, path[0]), n - 1, path[1..]);
    }
  }

  /** No stored value is a node hash of two values. */
  predicate NoNodeLeaf(entries: seq<Entry>) {
    forall e | e in entries :: !e.leaf.Node?
  }

  lemma {:induction false} LeafIsNoNode(entries: seq<Entry>, path: seq<bool>)
    requires NoNodeLeaf(entries)
    ensures !LeafOf(entries, path).Node?
  {
    if entries == [] {
    } else {
      LeafIsNoNode(entries[1..], path);
    }
  }

  lemma {:induction false} TreeIsUniform(entries: seq<Entry>, prefix: seq<bool>)
    requires |prefix| <= SMT_DEPTH && NoNodeLeaf(entries)
    ensures Uniform(FullTree(entries, prefix), SMT_DEPTH - |prefix|)
    decreases SMT_DEPTH - |prefix|
  {
    if |prefix| == SMT_DEPTH {
      LeafIsNoNode(entries, prefix);
    } else {
      TreeIsUniform(entries, prefix + [false]);
      TreeIsUniform(entries, prefix + [true]);
    }
  }

  /** A sparse tree's root is such a tree of depth 256. */
  lemma RootIsUniform(entries: seq<Entry>)
    requires NoNodeLeaf(entries)
    ensures Uniform(SmtNode(entries, 0), SMT_DEPTH)
  {
    RootIsFullTree(entries);
    TreeIsUniform(entries, []);
  }
}
