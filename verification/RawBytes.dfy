/**
 The verifiers over byte strings of any length, as they are given them.

 A byte is a given byte or one of the 32 bytes of a digest, named by what was hashed; so the hash is
 collision free, and a digest can still be cut up and joined to other bytes. The verifiers check no
 lengths. `RawVerifyExactly` says what that lets through: everything above the last pair is forced,
 and of the last pair only the 64 joined bytes.
 */
module RawBytes {
  import opened Arithmetic
  import opened Wrappers
  import opened MerkleHash
  import opened CompressedProof
  import opened SparseMerkle
  import opened FixedMerkle
  import opened Descent
  import opened StateCommitment

  /** A character of a hashed text counts as one byte. */
  datatype Byte = Given(c: char) | OfDigest(preimage: seq<Byte>, i: nat)

  type Bytes = seq<Byte>

  function Digest(preimage: Bytes): (d: Bytes)
    ensures |d| == 32
  {
    seq(32, i requires 0 <= i < 32 => OfDigest(preimage, i))
  }

  lemma DigestInjective(a: Bytes, b: Bytes)
    ensures Digest(a) == Digest(b) <==> a == b
  {
    assert Digest(a)[0] == OfDigest(a, 0) && Digest(b)[0] == OfDigest(b, 0);
  }

  function TextBytes(s: string): (b: Bytes)
    ensures |b| == |s|
  {
    seq(|s|, i requires 0 <= i < |s| => Given(s[i]))
  }

  const LEAF_PREFIX: Byte := Given(0 as char)
  const NODE_PREFIX: Byte := Given(1 as char)
  const EMPTY_PREFIX: Byte := Given(2 as char)

  function NodeHash(left: Bytes, right: Bytes): (d: Bytes)
    ensures |d| == 32
  {
    Digest([NODE_PREFIX] + (left + right))
  }

  /** The bytes a hash term stands for. */
  function BytesOf(h: Hash): (b: Bytes)
    ensures |b| == 32
  {
    match h
    case EmptyLeaf => Digest([EMPTY_PREFIX] + TextBytes("XCHAIN_EMPTY_LEAF"))
    case Leaf(preimage) => Digest([LEAF_PREFIX] + TextBytes(preimage))
    case Node(left, right) => NodeHash(BytesOf(left), BytesOf(right))
    case Foreign(bytes) => seq(32, i requires 0 <= i < 32 => Given(bytes[i] as int as char))
  }

  /** What each kind of value is the digest of: its tag first, then the text or the two digests. */
  lemma TagsInFull(preimage: string, left: Hash, right: Hash)
    ensures BytesOf(Leaf(preimage)) == Digest([Given('\U{0}')] + TextBytes(preimage))
    ensures BytesOf(Node(left, right)) == Digest([Given('\U{1}')] + (BytesOf(left) + BytesOf(right)))
    ensures BytesOf(EmptyLeaf) == Digest([Given('\U{2}')] + TextBytes("XCHAIN_EMPTY_LEAF"))
  {
  }

  function AllBytes(s: seq<Hash>): (b: seq<Bytes>)
    ensures |b| == |s|
    ensures forall i | 0 <= i < |s| :: b[i] == BytesOf(s[i])
  {
    seq(|s|, i requires 0 <= i < |s| => BytesOf(s[i]))
  }

  // ---- Terms and their bytes ----

  /** A join of two strings can only be cut where the lengths say. */
  lemma SameCut(a: Bytes, b: Bytes, c: Bytes, d: Bytes)
    requires |a| == |c| || |b| == |d|
    ensures a + b == c + d <==> a == c && b == d
  {
    if a + b == c + d {
      assert |a + b| == |c + d|;
      assert a == (a + b)[..|a|] && c == (c + d)[..|c|];
      assert b == (a + b)[|a|..] && d == (c + d)[|c|..];
    }
  }

  lemma TaggedExactly(s: Byte, a: Bytes, t: Byte, b: Bytes)
    ensures Digest([s] + a) == Digest([t] + b) <==> s == t && a == b
  {
    DigestInjective([s] + a, [t] + b);
    assert ([s] + a)[0] == s && ([t] + b)[0] == t;
    SameCut([s], a, [t], b);
  }

  lemma TextInjective(s: string, t: string)
    ensures TextBytes(s) == TextBytes(t) <==> s == t
  {
    if TextBytes(s) == TextBytes(t) {
      assert |s| == |t|;
      forall i | 0 <= i < |s|
        ensures s[i] == t[i]
      {
        assert TextBytes(s)[i] == TextBytes(t)[i];
      }
    }
  }

  lemma DigestIsNotGiven(preimage: Bytes, h: Hash)
    requires h.Foreign?
    ensures Digest(preimage) != BytesOf(h)
  {
    assert Digest(preimage)[0].OfDigest? && BytesOf(h)[0].Given?;
  }

  /** Only a node has the bytes of a node hash, and only of the joined bytes of its halves. */
  lemma NodeHashExactly(x: Bytes, y: Bytes, h: Hash)
    ensures NodeHash(x, y) == BytesOf(h) <==> h.Node? && x + y == BytesOf(h.left) + BytesOf(h.right)
  {
    match h
    case EmptyLeaf => TaggedExactly(NODE_PREFIX, x + y, EMPTY_PREFIX, TextBytes("XCHAIN_EMPTY_LEAF"));
    case Leaf(preimage) => TaggedExactly(NODE_PREFIX, x + y, LEAF_PREFIX, TextBytes(preimage));
    case Node(left, right) => TaggedExactly(NODE_PREFIX, x + y, NODE_PREFIX, BytesOf(left) + BytesOf(right));
    case Foreign(_) => DigestIsNotGiven([NODE_PREFIX] + (x + y), h);
  }

  lemma LeafHashExactly(preimage: string, h: Hash)
    ensures BytesOf(Leaf(preimage)) == BytesOf(h) <==> h == Leaf(preimage)
  {
    match h
    case EmptyLeaf => TaggedExactly(LEAF_PREFIX, TextBytes(preimage), EMPTY_PREFIX, TextBytes("XCHAIN_EMPTY_LEAF"));
    case Leaf(p) => TaggedExactly(LEAF_PREFIX, TextBytes(preimage), LEAF_PREFIX, TextBytes(p)); TextInjective(preimage, p);
    case Node(l, r) => NodeHashExactly(BytesOf(l), BytesOf(r), Leaf(preimage));
    case Foreign(_) => DigestIsNotGiven([LEAF_PREFIX] + TextBytes(preimage), h);
  }

  lemma ForeignExactly(a: Hash, b: Hash)
    requires a.Foreign? && b.Foreign? && BytesOf(a) == BytesOf(b)
    ensures a == b
  {
    forall i | 0 <= i < 32
      ensures a.bytes[i] == b.bytes[i]
    {
      assert BytesOf(a)[i] == BytesOf(b)[i];
    }
  }

  /** Terms are told apart by their bytes: the tags separate the kinds, and nothing collides. */
  lemma {:induction false} BytesExactly(a: Hash, b: Hash)
    ensures BytesOf(a) == BytesOf(b) <==> a == b
    decreases a
  {
    if a.Node? {
      NodeHashExactly(BytesOf(a.left), BytesOf(a.right), b);
      if b.Node? {
        SameCut(BytesOf(a.left), BytesOf(a.right), BytesOf(b.left), BytesOf(b.right));
        BytesExactly(a.left, b.left);
        BytesExactly(a.right, b.right);
      }
    } else if b.Node? {
      NodeHashExactly(BytesOf(b.left), BytesOf(b.right), a);
    } else if a.Leaf? {
      LeafHashExactly(a.preimage, b);
    } else if b.Leaf? {
      LeafHashExactly(b.preimage, a);
    } else if a.Foreign? && b.Foreign? {
      if BytesOf(a) == BytesOf(b) {
        ForeignExactly(a, b);
      }
    } else if a.Foreign? {
      DigestIsNotGiven([EMPTY_PREFIX] + TextBytes("XCHAIN_EMPTY_LEAF"), a);
    } else if b.Foreign? {
      DigestIsNotGiven([EMPTY_PREFIX] + TextBytes("XCHAIN_EMPTY_LEAF"), b);
    }
  }

  // ---- The sparse verifier on bytes ----

  /** A pair in the order a key bit asks for. */
  function Joined(own: Bytes, sibling: Bytes, bit: bool): (j: Bytes)
    ensures |j| == |own| + |sibling|
  {
    if !bit then own + sibling else sibling + own
  }

  function Up(own: Bytes, sibling: Bytes, bit: bool): (d: Bytes)
    ensures |d| == 32
  {
    if !bit then NodeHash(own, sibling) else NodeHash(sibling, own)
  }

  function RawClimb(path: seq<bool>, claim: Bytes, siblings: seq<Bytes>, depth: nat): (node: Bytes)
    requires |path| == |siblings| == SMT_DEPTH && depth <= SMT_DEPTH
    ensures depth < SMT_DEPTH ==> |node| == 32
    decreases SMT_DEPTH - depth, path, claim, siblings
  {
    if depth == SMT_DEPTH then claim
    else Up(RawClimb(path, claim, siblings, depth + 1), siblings[depth], path[depth])
  }

  function RawClaimed(value: Option<Bytes>): Bytes {
    match value
    case None => BytesOf(EmptyLeaf)
    case Some(bytes) => bytes
  }

  predicate RawAccepts(root: Bytes, key: Key, value: Option<Bytes>, siblings: seq<Bytes>) {
    |siblings| == SMT_DEPTH && RawClimb(Path(key), RawClaimed(value), siblings, 0) == root
  }

  /** The source's loop: it looks at the number of siblings and at no length. */
  method RawVerifySmtProof(root: Bytes, key: Key, value: Option<Bytes>, siblings: seq<Bytes>) returns (ok: bool)
    ensures ok == RawAccepts(root, key, value, siblings)
  {
    if |siblings| != SMT_DEPTH {
      return false;
    }
    var node := RawClaimed(value);
    for depth := SMT_DEPTH downto 0
      invariant node == RawClimb(Path(key), RawClaimed(value), siblings, depth)
    {
      var sib := siblings[depth];
      node := if !BitAt(key, depth) then NodeHash(node, sib) else NodeHash(sib, node);
    }
    return node == root;
  }

  lemma UpExactly(own: Bytes, sibling: Bytes, bit: bool, h: Hash)
    ensures Up(own, sibling, bit) == BytesOf(h) <==>
            h.Node? && Joined(own, sibling, bit) == Joined(BytesOf(Half(h, bit)), BytesOf(Half(h, !bit)), bit)
  {
    if bit {
      NodeHashExactly(sibling, own, h);
    } else {
      NodeHashExactly(own, sibling, h);
    }
  }

  lemma JoinedExactly(own: Bytes, sibling: Bytes, bit: bool, a: Bytes, b: Bytes)
    requires |own| == |a|
    ensures Joined(own, sibling, bit) == Joined(a, b, bit) <==> own == a && sibling == b
  {
    if bit {
      SameCut(sibling, own, b, a);
    } else {
      SameCut(own, sibling, a, b);
    }
  }

  lemma RawConsSuffix(s: seq<Bytes>, d: nat, e: nat, head: Hash, tail: seq<Hash>)
    requires d < e <= |s|
    ensures s[d..e] == AllBytes([head] + tail) <==> s[d] == BytesOf(head) && s[d + 1..e] == AllBytes(tail)
  {
    assert AllBytes([head] + tail) == [BytesOf(head)] + AllBytes(tail);
    assert s[d..e] == [s[d]] + s[d + 1..e];
    if s[d..e] == AllBytes([head] + tail) {
      assert s[d] == s[d..e][0] && s[d + 1..e] == s[d..e][1..];
      assert AllBytes(tail) == ([BytesOf(head)] + AllBytes(tail))[1..];
    }
  }

  /** The last pair, as it is hashed: the claim and its sibling against the halves of a node. */
  predicate LastPair(claim: Bytes, sibling: Bytes, bit: bool, node: Option<Hash>) {
    && node.Some? && node.value.Node?
    && Joined(claim, sibling, bit) == Joined(BytesOf(Half(node.value, bit)), BytesOf(Half(node.value, !bit)), bit)
  }

  /** What the hashing is accepted for, lengths and all: the walk is forced down to the last pair. */
  lemma {:induction false} RawClimbExactly(path: seq<bool>, claim: Bytes, siblings: seq<Bytes>, depth: nat, h: Hash)
    requires |path| == |siblings| == SMT_DEPTH && depth < SMT_DEPTH
    ensures
      var last := SMT_DEPTH - 1;
      var walk := path[depth..last];
      RawClimb(path, claim, siblings, depth) == BytesOf(h) <==>
      && Down(h, walk).Some?
      && siblings[depth..last] == AllBytes(PassedBy(h, walk))
      && LastPair(claim, siblings[last], path[last], Down(h, walk))
    decreases SMT_DEPTH - depth
  {
    var last := SMT_DEPTH - 1;
    var bit := path[depth];
    UpExactly(RawClimb(path, claim, siblings, depth + 1), siblings[depth], bit, h);
    if depth == last {
      assert path[depth..last] == [] && siblings[depth..last] == [] == AllBytes([]);
    } else {
      var rest := path[depth + 1..last];
      assert path[depth..last] == [bit] + rest;
      if h.Node? {
        DownCons(h, bit, rest);
        JoinedExactly(RawClimb(path, claim, siblings, depth + 1), siblings[depth], bit, BytesOf(Half(h, bit)),
                      BytesOf(Half(h, !bit)));
        RawClimbExactly(path, claim, siblings, depth + 1, Half(h, bit));
        if Down(Half(h, bit), rest).Some? {
          assert ([bit] + rest)[1..] == rest;
          RawConsSuffix(siblings, depth, last, Half(h, !bit), PassedBy(Half(h, bit), rest));
        }
      }
    }
  }

  /** With 32 bytes claimed nothing is left open: the claim and every sibling are the bytes found below the root. */
  lemma RawAcceptsExactly(root: Hash, key: Key, value: Option<Bytes>, siblings: seq<Bytes>)
    requires |RawClaimed(value)| == 32
    ensures RawAccepts(BytesOf(root), key, value, siblings) <==>
            && Down(root, Path(key)).Some? && RawClaimed(value) == BytesOf(Down(root, Path(key)).value)
            && siblings == AllBytes(PassedBy(root, Path(key)))
  {
    if |siblings| == SMT_DEPTH {
      var path, last, claim := Path(key), SMT_DEPTH - 1, RawClaimed(value);
      var walk, bit := path[..last], path[last];
      assert path[0..last] == walk && siblings[0..last] == siblings[..last] && path == walk + [bit];
      RawClimbExactly(path, claim, siblings, 0, root);
      DownAppend(root, walk, [bit]);
      if Down(root, walk).Some? && Down(root, walk).value.Node? {
        var node := Down(root, walk).value;
        PassedBySnoc(root, walk, bit);
        JoinedExactly(claim, siblings[last], bit, BytesOf(Half(node, bit)), BytesOf(Half(node, !bit)));
        RawSnoc(siblings, PassedBy(root, walk), Half(node, !bit));
      } else if Down(root, walk).Some? {
        assert Down(Down(root, walk).value, [bit]) == None;
      }
    }
  }

  lemma RawSnoc(s: seq<Bytes>, init: seq<Hash>, last: Hash)
    requires s != []
    ensures s == AllBytes(init + [last]) <==> s[..|s| - 1] == AllBytes(init) && s[|s| - 1] == BytesOf(last)
  {
    assert AllBytes(init + [last]) == AllBytes(init) + [BytesOf(last)];
    assert s == s[..|s| - 1] + [s[|s| - 1]];
    SnocExactly(s[..|s| - 1], s[|s| - 1], AllBytes(init), BytesOf(last));
  }

  // ---- Against a tree ----

  /** Where a key's path runs in a tree. */
  lemma TreeWalk(entries: seq<Entry>, key: Key)
    ensures Down(SmtNode(entries, 0), Path(key)) == Some(LeafOf(entries, Path(key)))
    ensures PassedBy(SmtNode(entries, 0), Path(key)) == Siblings(entries, Path(key))
  {
    var leaf := LeafOf(entries, Path(key));
    VerifyExactly(entries, key, Some(leaf), Siblings(entries, Path(key)));
    AcceptsExactly(SmtNode(entries, 0), key, Some(leaf), Siblings(entries, Path(key)));
  }

  /**
   Against a tree's root, for claims and siblings of any length: all siblings but the last are the
   tree's, and the claim joined to the last one is the last pair's 64 bytes.
   */
  lemma RawVerifyExactly(entries: seq<Entry>, key: Key, value: Option<Bytes>, siblings: seq<Bytes>)
    ensures
      var own, sibs, last := LeafOf(entries, Path(key)), Siblings(entries, Path(key)), SMT_DEPTH - 1;
      RawAccepts(BytesOf(SmtNode(entries, 0)), key, value, siblings) <==>
      && |siblings| == SMT_DEPTH && siblings[..last] == AllBytes(sibs[..last])
      && Joined(RawClaimed(value), siblings[last], Path(key)[last]) == Joined(BytesOf(own), BytesOf(sibs[last]), Path(key)[last])
  {
    var root, path, last := SmtNode(entries, 0), Path(key), SMT_DEPTH - 1;
    var walk, bit := path[..last], path[last];
    TreeWalk(entries, key);
    assert path == walk + [bit];
    DownAppend(root, walk, [bit]);
    LastStep(Down(root, walk).value, bit);
    PassedBySnoc(root, walk, bit);
    assert Siblings(entries, path)[..last] == PassedBy(root, walk);
    if |siblings| == SMT_DEPTH {
      assert path[0..last] == walk && siblings[0..last] == siblings[..last];
      RawClimbExactly(path, RawClaimed(value), siblings, 0, root);
    }
  }

  lemma LastStep(h: Hash, bit: bool)
    requires Down(h, [bit]).Some?
    ensures h.Node?
  {
  }

  /** An accepted claim is the tree's value exactly when it is 32 bytes long. */
  lemma RawSoundness(entries: seq<Entry>, key: Key, value: Option<Bytes>, siblings: seq<Bytes>)
    requires RawAccepts(BytesOf(SmtNode(entries, 0)), key, value, siblings)
    ensures RawClaimed(value) == BytesOf(ValueAt(Contents(entries), key)) <==> |RawClaimed(value)| == 32
  {
    RawVerifyExactly(entries, key, value, siblings);
    LeafOfKey(entries, key);
    if |RawClaimed(value)| == 32 {
      var last := SMT_DEPTH - 1;
      JoinedExactly(RawClaimed(value), siblings[last], Path(key)[last], BytesOf(LeafOf(entries, Path(key))),
                    BytesOf(Siblings(entries, Path(key))[last]));
    }
  }

  /** The last pair cut anywhere: a claim of any length up to 64 that starts, or ends, the pair's bytes. */
  function CutPair(own: Bytes, sibling: Bytes, bit: bool, n: nat): (claim: Bytes)
    requires |own| == |sibling| == 32 && n <= 64
    ensures |claim| == n
  {
    if !bit then (own + sibling)[..n] else (sibling + own)[64 - n..]
  }

  function CutRest(own: Bytes, sibling: Bytes, bit: bool, n: nat): (rest: Bytes)
    requires |own| == |sibling| == 32 && n <= 64
    ensures Joined(CutPair(own, sibling, bit, n), rest, bit) == Joined(own, sibling, bit)
  {
    if !bit then
      assert (own + sibling)[..n] + (own + sibling)[n..] == own + sibling;
      (own + sibling)[n..]
    else
      assert (sibling + own)[..64 - n] + (sibling + own)[64 - n..] == sibling + own;
      (sibling + own)[..64 - n]
  }

  /** So for every tree, key and length n up to 64 other than 32 a claim the tree does not hold is accepted. */
  lemma ResizedClaimIsAccepted(entries: seq<Entry>, key: Key, n: nat) returns (claim: Bytes, siblings: seq<Bytes>)
    requires n <= 64 && n != 32
    ensures |claim| == n && claim != BytesOf(ValueAt(Contents(entries), key))
    ensures RawAccepts(BytesOf(SmtNode(entries, 0)), key, Some(claim), siblings)
  {
    var last, bit := SMT_DEPTH - 1, Path(key)[SMT_DEPTH - 1];
    var own, sib := BytesOf(LeafOf(entries, Path(key))), BytesOf(Siblings(entries, Path(key))[last]);
    claim := CutPair(own, sib, bit, n);
    siblings := AllBytes(Siblings(entries, Path(key))[..last]) + [CutRest(own, sib, bit, n)];
    assert siblings[..last] == AllBytes(Siblings(entries, Path(key))[..last]);
    RawVerifyExactly(entries, key, Some(claim), siblings);
  }

  // ---- The fixed verifier on bytes ----

  function RawFold(leaf: Bytes, index: int, siblings: seq<Bytes>): Bytes
    decreases |siblings|
  {
    if siblings == [] then leaf
    else RawFold(Up(leaf, siblings[0], index % 2 != 0), index / 2, siblings[1..])
  }

  method RawVerifyFixedMerkleProof(root: Bytes, leaf: Bytes, index: int, siblings: seq<Bytes>) returns (ok: bool)
    ensures ok == (RawFold(leaf, index, siblings) == root)
  {
    var node := leaf;
    var idx := index;
    for k := 0 to |siblings|
      invariant RawFold(node, idx, siblings[k..]) == RawFold(leaf, index, siblings)
    {
      var sib := siblings[k];
      assert siblings[k..][0] == sib && siblings[k..][1..] == siblings[k + 1..];
      node := if idx % 2 == 0 then NodeHash(node, sib) else NodeHash(sib, node);
      idx := idx / 2;
    }
    return node == root;
  }

  lemma RawFoldStep(h: Hash, bits: seq<bool>, bit: bool, leaf: Bytes, above: seq<Bytes>, sibling: Bytes)
    requires |leaf| == 32
    ensures
      && Down(h, bits).Some? && Up(leaf, sibling, bit) == BytesOf(Down(h, bits).value)
      && above == AllBytes(PassedBy(h, bits)) <==>
      && Down(h, bits + [bit]).Some? && leaf == BytesOf(Down(h, bits + [bit]).value)
      && above + [sibling] == AllBytes(PassedBy(h, bits + [bit]))
  {
    DownAppend(h, bits, [bit]);
    if Down(h, bits).Some? {
      var node := Down(h, bits).value;
      UpExactly(leaf, sibling, bit, node);
      if node.Node? {
        PassedBySnoc(h, bits, bit);
        JoinedExactly(leaf, sibling, bit, BytesOf(Half(node, bit)), BytesOf(Half(node, !bit)));
        RawSnoc(above + [sibling], PassedBy(h, bits), Half(node, !bit));
        assert (above + [sibling])[..|above|] == above;
      } else {
        assert Down(node, [bit]) == None;
      }
    }
  }

  /** With a 32-byte value, any index and any number of siblings: the value and siblings found below the root. */
  lemma {:induction false} RawFoldExactly(leaf: Bytes, index: int, siblings: seq<Bytes>, h: Hash)
    requires |leaf| == 32
    ensures
      var bits := IndexBits(index, |siblings|);
      RawFold(leaf, index, siblings) == BytesOf(h) <==>
      && Down(h, bits).Some? && leaf == BytesOf(Down(h, bits).value)
      && Reversed(siblings) == AllBytes(PassedBy(h, bits))
    decreases |siblings|
  {
    if siblings == [] {
      assert Down(h, []) == Some(h) && AllBytes([]) == [];
    } else {
      var bit := index % 2 != 0;
      RawFoldExactly(Up(leaf, siblings[0], bit), index / 2, siblings[1..], h);
      RawFoldStep(h, IndexBits(index / 2, |siblings| - 1), bit, leaf, Reversed(siblings[1..]), siblings[0]);
    }
  }

  lemma {:induction false} ReversedBytes(s: seq<Hash>)
    ensures Reversed(AllBytes(s)) == AllBytes(Reversed(s))
  {
    if s == [] {
      assert Reversed(AllBytes([])) == [];
    } else {
      assert AllBytes(s)[1..] == AllBytes(s[1..]);
      ReversedBytes(s[1..]);
      assert AllBytes(Reversed(s[1..]) + [s[0]]) == AllBytes(Reversed(s[1..])) + [BytesOf(s[0])];
    }
  }

  lemma SamePathReversed(path: seq<Bytes>, passed: seq<Hash>)
    ensures Reversed(path) == AllBytes(passed) <==> path == AllBytes(Reversed(passed))
  {
    ReversedTwice(path);
    ReversedTwice(AllBytes(passed));
    ReversedBytes(passed);
  }

  /**
   With a value of any length and at least one sibling: everything above the last pair is forced, and
   of the last pair only the joined bytes.
   */
  lemma RawFoldAnyLength(leaf: Bytes, index: int, siblings: seq<Bytes>, h: Hash)
    requires siblings != []
    ensures
      var above := IndexBits(index / 2, |siblings| - 1);
      RawFold(leaf, index, siblings) == BytesOf(h) <==>
      && Down(h, above).Some? && Reversed(siblings[1..]) == AllBytes(PassedBy(h, above))
      && LastPair(leaf, siblings[0], index % 2 != 0, Down(h, above))
  {
    var above, bit := IndexBits(index / 2, |siblings| - 1), index % 2 != 0;
    RawFoldExactly(Up(leaf, siblings[0], bit), index / 2, siblings[1..], h);
    if Down(h, above).Some? {
      UpExactly(leaf, siblings[0], bit, Down(h, above).value);
    }
  }

  /** Where an index's own path runs in a fixed tree. */
  lemma FixedWalk(leaves: seq<Hash>, index: nat)
    requires leaves != [] && index < Pow2(Height(|leaves|))
    ensures
      var h := Height(|leaves|);
      && Down(RootOf(leaves), IndexBits(index, h)) == Some(Padded(leaves)[index])
      && PassedBy(RootOf(leaves), IndexBits(index, h)) == Reversed(PathOf(Padded(leaves), index, h))
  {
    var h := Height(|leaves|);
    var path := PathOf(Padded(leaves), index, h);
    FullProofExactly(leaves, Padded(leaves)[index], index, path);
    FoldIsDescent(Padded(leaves)[index], index, path, RootOf(leaves));
  }

  /** The pair an index belongs to, one step above the leaves. */
  lemma FixedPair(leaves: seq<Hash>, index: nat)
    requires leaves != [] && Height(|leaves|) > 0 && index < Pow2(Height(|leaves|))
    ensures
      var h := Height(|leaves|);
      var path, above, bit := PathOf(Padded(leaves), index, h), IndexBits(index / 2, h - 1), index % 2 != 0;
      && Down(RootOf(leaves), above).Some? && Down(RootOf(leaves), above).value.Node?
      && Half(Down(RootOf(leaves), above).value, bit) == Padded(leaves)[index]
      && Half(Down(RootOf(leaves), above).value, !bit) == path[0]
      && PassedBy(RootOf(leaves), above) == Reversed(path[1..])
  {
    var h := Height(|leaves|);
    var path, above, bit := PathOf(Padded(leaves), index, h), IndexBits(index / 2, h - 1), index % 2 != 0;
    FixedWalk(leaves, index);
    DownAppend(RootOf(leaves), above, [bit]);
    LastStep(Down(RootOf(leaves), above).value, bit);
    PassedBySnoc(RootOf(leaves), above, bit);
    SnocExactly(PassedBy(RootOf(leaves), above), Half(Down(RootOf(leaves), above).value, !bit), Reversed(path[1..]), path[0]);
  }

  /**
   At the height of the tree and an index in range, for values and siblings of any length: all
   siblings but the first are the path's, and value and first sibling join to the pair's 64 bytes.
   */
  lemma RawFixedExactly(leaves: seq<Hash>, leaf: Bytes, index: nat, siblings: seq<Bytes>)
    requires leaves != [] && Height(|leaves|) > 0 && index < Pow2(Height(|leaves|)) && |siblings| == Height(|leaves|)
    ensures
      var path, bit := PathOf(Padded(leaves), index, Height(|leaves|)), index % 2 != 0;
      RawFold(leaf, index, siblings) == BytesOf(RootOf(leaves)) <==>
      && siblings[1..] == AllBytes(path[1..])
      && Joined(leaf, siblings[0], bit) == Joined(BytesOf(Padded(leaves)[index]), BytesOf(path[0]), bit)
  {
    var path := PathOf(Padded(leaves), index, Height(|leaves|));
    FixedPair(leaves, index);
    RawFoldAnyLength(leaf, index, siblings, RootOf(leaves));
    SamePathReversed(siblings[1..], Reversed(path[1..]));
    ReversedTwice(path[1..]);
  }

  /** There an accepted value is the padded leaf exactly when it is 32 bytes long. */
  lemma RawFixedSoundness(leaves: seq<Hash>, leaf: Bytes, index: nat, siblings: seq<Bytes>)
    requires leaves != [] && index < Pow2(Height(|leaves|)) && |siblings| == Height(|leaves|)
    requires RawFold(leaf, index, siblings) == BytesOf(RootOf(leaves))
    ensures leaf == BytesOf(Padded(leaves)[index]) <==> |leaf| == 32
  {
    if |leaf| == 32 {
      FixedWalk(leaves, index);
      RawFoldExactly(leaf, index, siblings, RootOf(leaves));
    }
  }

  /** And for every tree with a level, index and length n up to 64 other than 32, a value it does not hold is accepted. */
  lemma ResizedLeafIsAccepted(leaves: seq<Hash>, index: nat, n: nat) returns (leaf: Bytes, siblings: seq<Bytes>)
    requires leaves != [] && Height(|leaves|) > 0 && index < Pow2(Height(|leaves|)) && n <= 64 && n != 32
    ensures |leaf| == n && leaf != BytesOf(Padded(leaves)[index]) && |siblings| == Height(|leaves|)
    ensures RawFold(leaf, index, siblings) == BytesOf(RootOf(leaves))
  {
    var path, bit := PathOf(Padded(leaves), index, Height(|leaves|)), index % 2 != 0;
    var own, sib := BytesOf(Padded(leaves)[index]), BytesOf(path[0]);
    leaf := CutPair(own, sib, bit, n);
    siblings := [CutRest(own, sib, bit, n)] + AllBytes(path[1..]);
    assert siblings[1..] == AllBytes(path[1..]);
    RawFixedExactly(leaves, leaf, index, siblings);
  }

  // ---- A client on bytes ----

  /** The two checks of a served proof, on the bytes it arrives in. */
  predicate RawClientAccepts(root: Bytes, name: string, subRoot: Bytes, path: seq<Bytes>, key: Key, value: Option<Bytes>,
                             siblings: seq<Bytes>)
  {
    RawFold(subRoot, SlotOf(name), path) == root && RawAccepts(subRoot, key, value, siblings)
  }

  /** Both checks together, for any root: one walk down, whatever lengths the sub-root and the siblings have. */
  lemma RawClientIsDescent(root: Hash, name: string, subRoot: Bytes, path: seq<Bytes>, key: Key, value: Option<Bytes>,
                           siblings: seq<Bytes>)
    requires |RawClaimed(value)| == 32
    ensures
      var bits := IndexBits(SlotOf(name), |path|);
      RawClientAccepts(BytesOf(root), name, subRoot, path, key, value, siblings) <==>
      && Down(root, bits).Some?
      && var top := Down(root, bits).value;
         && subRoot == BytesOf(top) && path == AllBytes(Reversed(PassedBy(root, bits)))
         && Down(top, Path(key)).Some? && RawClaimed(value) == BytesOf(Down(top, Path(key)).value)
         && siblings == AllBytes(PassedBy(top, Path(key)))
  {
    var bits := IndexBits(SlotOf(name), |path|);
    if |subRoot| == 32 {
      RawFoldExactly(subRoot, SlotOf(name), path, root);
      if Down(root, bits).Some? {
        SamePathReversed(path, PassedBy(root, bits));
        RawAcceptsExactly(Down(root, bits).value, key, value, siblings);
      }
    }
  }

  ghost predicate IsNodeHash(b: Bytes) {
    exists h: Hash :: h.Node? && b == BytesOf(h)
  }

  lemma HashPathExactly(state: State, name: string, subRoot: Hash, path: seq<Hash>)
    requires name in STATE_SUBTREES && |path| == 3
    ensures
      var bits := IndexBits(SlotOf(name), 3);
      Down(RootOfState(state), bits) == Some(subRoot) && path == Reversed(PassedBy(RootOfState(state), bits)) <==>
      subRoot == SubRoot(SubRoots(state), name)
      && path == PathOf(Padded(StateLeaves(SubRoots(state))), SlotOf(name), Height(5))
  {
    var root, bits := RootOfState(state), IndexBits(SlotOf(name), 3);
    StateProofExactly(SubRoots(state), name, subRoot, path);
    FoldIsDescent(subRoot, SlotOf(name), path, root);
    ReversedTwice(path);
    if Down(root, bits).Some? {
      ReversedTwice(PassedBy(root, bits));
    }
  }

  lemma RawPathHasThree(state: State, bits: seq<bool>, key: Key, value: Option<Bytes>)
    requires NoNodeLeaves(state) && Down(RootOfState(state), bits).Some?
    requires
      var top := Down(RootOfState(state), bits).value;
      Down(top, Path(key)).Some? && RawClaimed(value) == BytesOf(Down(top, Path(key)).value)
    requires !IsNodeHash(RawClaimed(value))
    ensures |bits| == 3
  {
    DownAppend(RootOfState(state), bits, Path(key));
    StateDown(state, bits + Path(key));
  }

  /**
   Against a state's root a client accepts 32 bytes that are no node hash exactly when they are the
   tree's value at the key; sub-root, path and siblings are then forced to the byte, though no length
   of theirs is checked.
   */
  lemma RawClientExactly(state: State, name: string, subRoot: Bytes, path: seq<Bytes>, key: Key, value: Option<Bytes>,
                         siblings: seq<Bytes>)
    requires name in STATE_SUBTREES && NoNodeLeaves(state)
    requires |RawClaimed(value)| == 32 && !IsNodeHash(RawClaimed(value))
    ensures
      var entries := TreeOf(state, name);
      RawClientAccepts(BytesOf(RootOfState(state)), name, subRoot, path, key, value, siblings) <==>
      && subRoot == BytesOf(SmtNode(entries, 0))
      && path == AllBytes(PathOf(Padded(StateLeaves(SubRoots(state))), SlotOf(name), Height(5)))
      && siblings == AllBytes(Siblings(entries, Path(key)))
      && RawClaimed(value) == BytesOf(ValueAt(Contents(entries), key))
  {
    var entries, root := TreeOf(state, name), RootOfState(state);
    var bits := IndexBits(SlotOf(name), |path|);
    HeightOfFive();
    SubRootIsTree(state, name);
    TreeWalk(entries, key);
    LeafOfKey(entries, key);
    RawClientIsDescent(root, name, subRoot, path, key, value, siblings);
    if RawClientAccepts(BytesOf(root), name, subRoot, path, key, value, siblings) {
      RawPathHasThree(state, bits, key, value);
      HashPathExactly(state, name, Down(root, bits).value, Reversed(PassedBy(root, bits)));
    }
    if path == AllBytes(PathOf(Padded(StateLeaves(SubRoots(state))), SlotOf(name), Height(5))) {
      HashPathExactly(state, name, SmtNode(entries, 0), PathOf(Padded(StateLeaves(SubRoots(state))), SlotOf(name), Height(5)));
    }
  }

  /**
   What claims of any other length get, for any root: sub-root, path and all siblings but the last
   are forced, and the claim joins with the last sibling to the last pair.
   */
  lemma RawClientAnyLength(root: Hash, name: string, subRoot: Bytes, path: seq<Bytes>, key: Key, value: Option<Bytes>,
                           siblings: seq<Bytes>)
    ensures
      var bits, last := IndexBits(SlotOf(name), |path|), SMT_DEPTH - 1;
      RawClientAccepts(BytesOf(root), name, subRoot, path, key, value, siblings) <==>
      && |siblings| == SMT_DEPTH && Down(root, bits).Some?
      && var top, walk := Down(root, bits).value, Path(key)[..last];
         && subRoot == BytesOf(top) && path == AllBytes(Reversed(PassedBy(root, bits)))
         && Down(top, walk).Some? && siblings[..last] == AllBytes(PassedBy(top, walk))
         && LastPair(RawClaimed(value), siblings[last], Path(key)[last], Down(top, walk))
  {
    var bits, last := IndexBits(SlotOf(name), |path|), SMT_DEPTH - 1;
    if |subRoot| == 32 && |siblings| == SMT_DEPTH {
      RawFoldExactly(subRoot, SlotOf(name), path, root);
      if Down(root, bits).Some? {
        SamePathReversed(path, PassedBy(root, bits));
        assert Path(key)[0..last] == Path(key)[..last] && siblings[0..last] == siblings[..last];
        RawClimbExactly(Path(key), RawClaimed(value), siblings, 0, Down(root, bits).value);
      }
    }
  }

  /** On a path of three, against a state's root: everything but the cut of the last pair is the tree's. */
  lemma RawClientOnFullPath(state: State, name: string, subRoot: Bytes, path: seq<Bytes>, key: Key, value: Option<Bytes>,
                            siblings: seq<Bytes>)
    requires name in STATE_SUBTREES && |path| == 3
    requires RawClientAccepts(BytesOf(RootOfState(state)), name, subRoot, path, key, value, siblings)
    ensures
      var entries, last := TreeOf(state, name), SMT_DEPTH - 1;
      var own, sibs := BytesOf(ValueAt(Contents(entries), key)), Siblings(entries, Path(key));
      && subRoot == BytesOf(SmtNode(entries, 0)) && siblings[..last] == AllBytes(sibs[..last])
      && Joined(RawClaimed(value), siblings[last], Path(key)[last]) == Joined(own, BytesOf(sibs[last]), Path(key)[last])
      && (RawClaimed(value) == own <==> |RawClaimed(value)| == 32)
  {
    var entries, root, bits := TreeOf(state, name), RootOfState(state), IndexBits(SlotOf(name), |path|);
    RawClientAnyLength(root, name, subRoot, path, key, value, siblings);
    HashPathExactly(state, name, Down(root, bits).value, Reversed(PassedBy(root, bits)));
    SubRootIsTree(state, name);
    RawVerifyExactly(entries, key, value, siblings);
    RawSoundness(entries, key, value, siblings);
    LeafOfKey(entries, key);
  }

  // ---- The compressed form on bytes ----

  datatype RawCompressed = RawCompressed(bitmap: seq<bv8>, siblings: seq<Bytes>)

  function RawSlot(bits: seq<bool>, listed: seq<Bytes>, d: nat): Bytes
    requires d < |bits| <= SMT_DEPTH
  {
    if !bits[d] then BytesOf(Default(d))
    else if SetBits(bits, d) < |listed| then listed[SetBits(bits, d)]
    else []
  }

  /** None where the reader throws; no listed sibling's length is looked at. */
  function RawDecompress(c: RawCompressed): Option<seq<Bytes>> {
    var bits := Bits(c.bitmap);
    if SetBits(bits, SMT_DEPTH) == |c.siblings| then
      Some(seq(SMT_DEPTH, d requires 0 <= d < SMT_DEPTH => RawSlot(bits, c.siblings, d)))
    else None
  }

  /** A proof on terms reads the same on bytes. */
  lemma RawDecompressIsBytes(c: Compressed)
    ensures RawDecompress(RawCompressed(c.bitmap, AllBytes(c.siblings))) ==
            match Decompress(c) case None => None case Some(s) => Some(AllBytes(s))
  {
    var bits, listed := Bits(c.bitmap), AllBytes(c.siblings);
    if SetBits(bits, SMT_DEPTH) == |c.siblings| {
      var s := Decompress(c).value;
      forall d | 0 <= d < SMT_DEPTH
        ensures RawSlot(bits, listed, d) == BytesOf(s[d])
      {
        if bits[d] {
          SetBitsBelow(bits, d, SMT_DEPTH);
        }
      }
      assert seq(SMT_DEPTH, d requires 0 <= d < SMT_DEPTH => RawSlot(bits, listed, d)) == AllBytes(s);
    }
  }

  lemma {:induction false} SetBitsBelow(bits: seq<bool>, d: nat, n: nat)
    requires d < n <= |bits| && bits[d]
    ensures SetBits(bits, d) < SetBits(bits, n)
  {
    if n == d + 1 {
    } else {
      SetBitsBelow(bits, d, n - 1);
    }
  }

  /** The client on the compressed form: what is forced is what the form expands to. */
  lemma RawClientCompressedExactly(state: State, name: string, subRoot: Bytes, path: seq<Bytes>, key: Key,
                                   value: Option<Bytes>, c: RawCompressed)
    requires name in STATE_SUBTREES && NoNodeLeaves(state)
    requires |RawClaimed(value)| == 32 && !IsNodeHash(RawClaimed(value))
    ensures
      var entries := TreeOf(state, name);
      RawDecompress(c).Some?
      && RawClientAccepts(BytesOf(RootOfState(state)), name, subRoot, path, key, value, RawDecompress(c).value) <==>
      && subRoot == BytesOf(SmtNode(entries, 0))
      && path == AllBytes(PathOf(Padded(StateLeaves(SubRoots(state))), SlotOf(name), Height(5)))
      && RawDecompress(c) == Some(AllBytes(Siblings(entries, Path(key))))
      && RawClaimed(value) == BytesOf(ValueAt(Contents(entries), key))
  {
    if RawDecompress(c).Some? {
      RawClientExactly(state, name, subRoot, path, key, value, RawDecompress(c).value);
    }
  }
}
