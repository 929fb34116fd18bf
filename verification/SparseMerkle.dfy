/**
 The sparse Merkle tree: its root, its proofs and their verifier.

 `SmtNode` is the shortcut form (an entry list, split bit by bit, cut off at an empty list).
 `FullTree` is what it stands for: the uncut binary tree of depth 256 with a value at every
 path. Everything the tree promises is proved through that refinement.
 */
module SparseMerkle {
  import opened Wrappers
  import opened MerkleHash
  import opened CompressedProof

  datatype Entry = Entry(key: Key, leaf: Hash)

  /** The entries that go to one side at a depth, in order. */
  function Side(entries: seq<Entry>, depth: nat, right: bool): seq<Entry>
    requires depth < SMT_DEPTH
  {
    if entries == [] then []
    else (if BitAt(entries[0].key, depth) == right then [entries[0]] else []) + Side(entries[1..], depth, right)
  }

  // Here and below the measure names every argument, so that the verifier does not unfold a
  // recursion just because it starts at a constant depth.
  function SmtNode(entries: seq<Entry>, depth: nat): Hash
    requires depth <= SMT_DEPTH
    decreases SMT_DEPTH - depth, entries
  {
    if |entries| == 0 then Empty(SMT_DEPTH - depth)
    else if depth == SMT_DEPTH then entries[0].leaf
    else Node(SmtNode(Side(entries, depth, false), depth + 1), SmtNode(Side(entries, depth, true), depth + 1))
  }

  // ---- The uncut tree ----

  /** The value at a path: the entry's leaf, or the empty leaf where there is none. */
  function LeafOf(entries: seq<Entry>, path: seq<bool>): Hash {
    if entries == [] then EmptyLeaf
    else if Path(entries[0].key) == path then entries[0].leaf
    else LeafOf(entries[1..], path)
  }

  /** The subtree under a prefix, without any shortcut. */
  ghost function FullTree(entries: seq<Entry>, prefix: seq<bool>): Hash
    requires |prefix| <= SMT_DEPTH
    decreases SMT_DEPTH - |prefix|, entries
  {
    if |prefix| == SMT_DEPTH then LeafOf(entries, prefix)
    else Node(FullTree(entries, prefix + [false]), FullTree(entries, prefix + [true]))
  }

  /** The entries whose key starts with a prefix, in order. */
  function Under(entries: seq<Entry>, prefix: seq<bool>): seq<Entry> {
    if entries == [] then []
    else (if prefix <= Path(entries[0].key) then [entries[0]] else []) + Under(entries[1..], prefix)
  }

  lemma {:induction false} UnderNothing(entries: seq<Entry>)
    ensures Under(entries, []) == entries
  {
    if entries == [] {
    } else {
      UnderNothing(entries[1..]);
      assert [] <= Path(entries[0].key);
    }
  }

  lemma {:induction false} SideOfUnder(entries: seq<Entry>, prefix: seq<bool>, right: bool)
    requires |prefix| < SMT_DEPTH
    ensures Side(Under(entries, prefix), |prefix|, right) == Under(entries, prefix + [right])
  {
    if entries == [] {
    } else {
      SideOfUnder(entries[1..], prefix, right);
      var path := Path(entries[0].key);
      assert path[|prefix|] == BitAt(entries[0].key, |prefix|);
      assert prefix + [right] <= path <==> prefix <= path && path[|prefix|] == right;
      var tail := Under(entries[1..], prefix);
      if prefix <= path {
        assert Under(entries, prefix) == [entries[0]] + tail;
        assert ([entries[0]] + tail)[1..] == tail;
      } else {
        assert Under(entries, prefix) == tail;
      }
    }
  }

  lemma {:induction false} LeafUnder(entries: seq<Entry>, path: seq<bool>)
    requires |path| == SMT_DEPTH
    ensures LeafOf(entries, path) == (if Under(entries, path) == [] then EmptyLeaf else Under(entries, path)[0].leaf)
  {
    if entries == [] {
    } else {
      LeafUnder(entries[1..], path);
      assert path <= Path(entries[0].key) <==> path == Path(entries[0].key);
    }
  }

  lemma {:induction false} NothingUnderLonger(entries: seq<Entry>, prefix: seq<bool>, bit: bool)
    requires Under(entries, prefix) == []
    ensures Under(entries, prefix + [bit]) == []
  {
    if entries == [] {
    } else {
      NothingUnderLonger(entries[1..], prefix, bit);
    }
  }

  lemma {:induction false} EmptySubtree(entries: seq<Entry>, prefix: seq<bool>)
    requires |prefix| <= SMT_DEPTH
    requires Under(entries, prefix) == []
    ensures FullTree(entries, prefix) == Empty(SMT_DEPTH - |prefix|)
    decreases SMT_DEPTH - |prefix|
  {
    if |prefix| == SMT_DEPTH {
      LeafUnder(entries, prefix);
    } else {
      NothingUnderLonger(entries, prefix, false);
      NothingUnderLonger(entries, prefix, true);
      EmptySubtree(entries, prefix + [false]);
      EmptySubtree(entries, prefix + [true]);
    }
  }

  /** The shortcut tree is the uncut tree, at every node. */
  lemma {:induction false} NodeIsFullTree(entries: seq<Entry>, prefix: seq<bool>)
    requires |prefix| <= SMT_DEPTH
    ensures SmtNode(Under(entries, prefix), |prefix|) == FullTree(entries, prefix)
    decreases SMT_DEPTH - |prefix|
  {
    if Under(entries, prefix) == [] {
      EmptySubtree(entries, prefix);
    } else if |prefix| == SMT_DEPTH {
      LeafUnder(entries, prefix);
    } else {
      SideOfUnder(entries, prefix, false);
      SideOfUnder(entries, prefix, true);
      NodeIsFullTree(entries, prefix + [false]);
      NodeIsFullTree(entries, prefix + [true]);
    }
  }

  /** Root of an entry list: the shortcut and the full depth-256 tree agree. */
  lemma RootIsFullTree(entries: seq<Entry>)
    ensures SmtNode(entries, 0) == FullTree(entries, [])
  {
    UnderNothing(entries);
    NodeIsFullTree(entries, []);
  }

  // ---- Proofs ----

  /** The subtree a path does not enter at a depth. */
  ghost function OffPath(entries: seq<Entry>, path: seq<bool>, depth: nat): Hash
    requires depth < |path| <= SMT_DEPTH
  {
    FullTree(entries, path[..depth] + [!path[depth]])
  }

  /** What a proof for a path must hold: at each depth, the subtree the path does not enter. */
  ghost function Siblings(entries: seq<Entry>, path: seq<bool>): (s: seq<Hash>)
    requires |path| == SMT_DEPTH
    ensures |s| == SMT_DEPTH
  {
    seq(SMT_DEPTH, d requires 0 <= d < SMT_DEPTH => OffPath(entries, path, d))
  }

  /** The value a verifier reaches at a depth, hashing up from a leaf along a path. */
  function Climb(path: seq<bool>, leaf: Hash, siblings: seq<Hash>, depth: nat): Hash
    requires |path| == |siblings| == SMT_DEPTH
    requires depth <= SMT_DEPTH
    decreases SMT_DEPTH - depth, path, leaf, siblings
  {
    if depth == SMT_DEPTH then leaf
    else
      var below := Climb(path, leaf, siblings, depth + 1);
      if !path[depth] then Node(below, siblings[depth]) else Node(siblings[depth], below)
  }

  /** The verifier puts the empty leaf where no value is claimed. */
  function Claimed(value: Option<Hash>): Hash {
    match value
    case None => EmptyLeaf
    case Some(leaf) => leaf
  }

  predicate Accepts(root: Hash, key: Key, value: Option<Hash>, siblings: seq<Hash>) {
    |siblings| == SMT_DEPTH && Climb(Path(key), Claimed(value), siblings, 0) == root
  }

  lemma SuffixStep(a: seq<Hash>, b: seq<Hash>, d: nat)
    requires d < |a| == |b|
    ensures a[d..] == b[d..] <==> a[d] == b[d] && a[d + 1..] == b[d + 1..]
  {
    assert a[d..] == [a[d]] + a[d + 1..] && b[d..] == [b[d]] + b[d + 1..];
    assert a[d] == a[d..][0] && b[d] == b[d..][0] && a[d + 1..] == a[d..][1..] && b[d + 1..] == b[d..][1..];
  }

  lemma {:induction false} ClimbExactly(entries: seq<Entry>, path: seq<bool>, leaf: Hash, siblings: seq<Hash>, depth: nat)
    requires |path| == |siblings| == SMT_DEPTH
    requires depth <= SMT_DEPTH
    ensures Climb(path, leaf, siblings, depth) == FullTree(entries, path[..depth]) <==>
            leaf == LeafOf(entries, path) && siblings[depth..] == Siblings(entries, path)[depth..]
    decreases SMT_DEPTH - depth
  {
    if depth == SMT_DEPTH {
      assert path[..depth] == path;
    } else {
      ClimbExactly(entries, path, leaf, siblings, depth + 1);
      var here := path[..depth];
      assert path[..depth + 1] == here + [path[depth]];
      var sib := Siblings(entries, path);
      assert sib[depth] == OffPath(entries, path, depth);
      SuffixStep(siblings, sib, depth);
    }
  }

  /**
   The verifier accepts against a tree's root exactly when the claim is the tree's value at the
   key and the siblings are the one proof the tree has for it. Left to right this is soundness
   (and uniqueness of proofs), right to left completeness.
   */
  lemma VerifyExactly(entries: seq<Entry>, key: Key, value: Option<Hash>, siblings: seq<Hash>)
    ensures Accepts(SmtNode(entries, 0), key, value, siblings) <==>
            siblings == Siblings(entries, Path(key)) && Claimed(value) == LeafOf(entries, Path(key))
  {
    RootIsFullTree(entries);
    if |siblings| == SMT_DEPTH {
      ClimbExactly(entries, Path(key), Claimed(value), siblings, 0);
      assert Path(key)[..0] == [];
      assert siblings[0..] == siblings;
      assert Siblings(entries, Path(key))[0..] == Siblings(entries, Path(key));
    }
  }

  // ---- The tree as a map ----

  function Contents(entries: seq<Entry>): map<Key, Hash> {
    if entries == [] then map[] else Contents(entries[1..])[entries[0].key := entries[0].leaf]
  }

  /** No key occurs twice, as in a Map. */
  predicate KeysOnce(entries: seq<Entry>) {
    entries == [] || (entries[0].key !in Contents(entries[1..]) && KeysOnce(entries[1..]))
  }

  /** A key's value once absence and a stored empty leaf are read alike. */
  function ValueAt(m: map<Key, Hash>, key: Key): Hash {
    if key in m then m[key] else EmptyLeaf
  }

  /** No stored leaf is the empty-leaf constant: what delete-on-zero asks of callers. */
  predicate NoEmptyLeaf(m: map<Key, Hash>) {
    forall k | k in m :: m[k] != EmptyLeaf
  }

  lemma {:induction false} LeafOfKey(entries: seq<Entry>, key: Key)
    ensures LeafOf(entries, Path(key)) == ValueAt(Contents(entries), key)
  {
    if entries == [] {
    } else {
      LeafOfKey(entries[1..], key);
      PathInjective(entries[0].key, key);
    }
  }

  /** Soundness of membership and of absence, for any siblings a prover might send. */
  lemma Soundness(entries: seq<Entry>, key: Key, value: Option<Hash>, siblings: seq<Hash>)
    requires Accepts(SmtNode(entries, 0), key, value, siblings)
    ensures value.Some? && value != Some(EmptyLeaf) ==>
              key in Contents(entries) && Contents(entries)[key] == value.value
    ensures value.None? && NoEmptyLeaf(Contents(entries)) ==> key !in Contents(entries)
    ensures value == Some(EmptyLeaf) ==> ValueAt(Contents(entries), key) == EmptyLeaf
  {
    VerifyExactly(entries, key, value, siblings);
    LeafOfKey(entries, key);
  }

  /**
   The verifier does not refuse the empty-leaf constant as a claimed value: on the empty tree it
   takes it for membership of a key the tree does not hold.
   */
  lemma EmptyLeafClaimIsAccepted(key: Key)
    ensures Accepts(SmtNode([], 0), key, Some(EmptyLeaf), Siblings([], Path(key)))
    ensures key !in Contents([])
  {
    VerifyExactly([], key, Some(EmptyLeaf), Siblings([], Path(key)));
  }

  lemma {:induction false} FullTreeExactly(a: seq<Entry>, b: seq<Entry>, prefix: seq<bool>)
    requires |prefix| <= SMT_DEPTH
    ensures FullTree(a, prefix) == FullTree(b, prefix) <==>
            forall p | |p| == SMT_DEPTH && prefix <= p :: LeafOf(a, p) == LeafOf(b, p)
    decreases SMT_DEPTH - |prefix|
  {
    if |prefix| == SMT_DEPTH {
      assert forall p | |p| == SMT_DEPTH && prefix <= p :: p == prefix;
      assert prefix <= prefix;
    } else {
      FullTreeExactly(a, b, prefix + [false]);
      FullTreeExactly(a, b, prefix + [true]);
      forall p: seq<bool> | |p| == SMT_DEPTH
        ensures prefix <= p <==> prefix + [false] <= p || prefix + [true] <= p
      {
        if prefix <= p {
          assert p[..|prefix| + 1] == prefix + [p[|prefix|]];
          assert p[|prefix|] == false || p[|prefix|] == true;
        }
        assert prefix <= prefix + [false] && prefix <= prefix + [true];
      }
    }
  }

  lemma {:induction false} LeafHasEntry(entries: seq<Entry>, path: seq<bool>) returns (key: Key)
    requires LeafOf(entries, path) != EmptyLeaf
    ensures Path(key) == path
  {
    if Path(entries[0].key) == path {
      key := entries[0].key;
    } else {
      key := LeafHasEntry(entries[1..], path);
    }
  }

  ghost predicate SameValues(a: seq<Entry>, b: seq<Entry>) {
    forall k: Key :: ValueAt(Contents(a), k) == ValueAt(Contents(b), k)
  }

  lemma SameRootSameValues(a: seq<Entry>, b: seq<Entry>)
    requires SmtNode(a, 0) == SmtNode(b, 0)
    ensures SameValues(a, b)
  {
    RootIsFullTree(a);
    RootIsFullTree(b);
    FullTreeExactly(a, b, []);
    forall k: Key
      ensures ValueAt(Contents(a), k) == ValueAt(Contents(b), k)
    {
      LeafOfKey(a, k);
      LeafOfKey(b, k);
      assert [] <= Path(k);
    }
  }

  lemma SameValuesSameLeaf(a: seq<Entry>, b: seq<Entry>, path: seq<bool>)
    requires SameValues(a, b)
    ensures LeafOf(a, path) == LeafOf(b, path)
  {
    if LeafOf(a, path) != EmptyLeaf || LeafOf(b, path) != EmptyLeaf {
      var k := LeafHasEntry(if LeafOf(a, path) != EmptyLeaf then a else b, path);
      LeafOfKey(a, k);
      LeafOfKey(b, k);
    }
  }

  /**
   Two trees have the same root exactly when they hold the same value at every key: the root
   depends on nothing else (not on insertion order, not on history) and commits to all of it.
   */
  lemma RootExactly(a: seq<Entry>, b: seq<Entry>)
    ensures SmtNode(a, 0) == SmtNode(b, 0) <==> SameValues(a, b)
  {
    if SmtNode(a, 0) == SmtNode(b, 0) {
      SameRootSameValues(a, b);
    }
    if SameValues(a, b) {
      RootIsFullTree(a);
      RootIsFullTree(b);
      forall p: seq<bool> | |p| == SMT_DEPTH && [] <= p
        ensures LeafOf(a, p) == LeafOf(b, p)
      {
        SameValuesSameLeaf(a, b, p);
      }
      FullTreeExactly(a, b, []);
    }
  }

  lemma SameValuesSameMap(ma: map<Key, Hash>, mb: map<Key, Hash>)
    requires NoEmptyLeaf(ma) && NoEmptyLeaf(mb)
    requires forall k: Key :: ValueAt(ma, k) == ValueAt(mb, k)
    ensures ma == mb
  {
    forall k: Key
      ensures k in ma <==> k in mb
      ensures k in ma ==> ma[k] == mb[k]
    {
      assert ValueAt(ma, k) == ValueAt(mb, k);
    }
  }

  /** Binding: where no empty leaf is stored, equal roots mean equal maps, and conversely. */
  lemma RootBindsMap(a: seq<Entry>, b: seq<Entry>)
    requires NoEmptyLeaf(Contents(a)) && NoEmptyLeaf(Contents(b))
    ensures SmtNode(a, 0) == SmtNode(b, 0) <==> Contents(a) == Contents(b)
  {
    RootExactly(a, b);
    if SameValues(a, b) {
      SameValuesSameMap(Contents(a), Contents(b));
    }
  }

  // ---- Runs of updates ----

  /** set with a leaf, set with null, and delete. The last two are the same operation. */
  datatype Update = Set(key: Key, leaf: Option<Hash>) | Delete(key: Key)

  /** A Map keeps a present key where it is and appends a new one. */
  function Put(entries: seq<Entry>, key: Key, leaf: Hash): seq<Entry> {
    if entries == [] then [Entry(key, leaf)]
    else if entries[0].key == key then [Entry(key, leaf)] + entries[1..]
    else [entries[0]] + Put(entries[1..], key, leaf)
  }

  function Remove(entries: seq<Entry>, key: Key): seq<Entry> {
    if entries == [] then []
    else if entries[0].key == key then entries[1..]
    else [entries[0]] + Remove(entries[1..], key)
  }

  function Apply(entries: seq<Entry>, u: Update): seq<Entry> {
    match u
    case Set(key, Some(leaf)) => Put(entries, key, leaf)
    case Set(key, None) => Remove(entries, key)
    case Delete(key) => Remove(entries, key)
  }

  function ApplyAll(updates: seq<Update>): seq<Entry> {
    if updates == [] then [] else Apply(ApplyAll(updates[..|updates| - 1]), updates[|updates| - 1])
  }

  /** What a run of updates leaves at a key: its last update there decides. */
  function LastWrite(updates: seq<Update>, key: Key): Option<Hash> {
    if updates == [] then None
    else
      var u := updates[|updates| - 1];
      if u.key != key then LastWrite(updates[..|updates| - 1], key)
      else if u.Set? then u.leaf
      else None
  }

  lemma ContentsCons(e: Entry, tail: seq<Entry>)
    ensures Contents([e] + tail) == Contents(tail)[e.key := e.leaf]
    ensures KeysOnce([e] + tail) <==> e.key !in Contents(tail) && KeysOnce(tail)
  {
    assert ([e] + tail)[1..] == tail;
  }

  lemma PutHere(e: Entry, tail: seq<Entry>, leaf: Hash)
    requires KeysOnce([e] + tail)
    ensures Contents(Put([e] + tail, e.key, leaf)) == Contents([e] + tail)[e.key := leaf]
    ensures KeysOnce(Put([e] + tail, e.key, leaf))
  {
    ContentsCons(e, tail);
    ContentsCons(Entry(e.key, leaf), tail);
    assert ([e] + tail)[1..] == tail;
  }

  lemma PutLater(e: Entry, tail: seq<Entry>, key: Key, leaf: Hash)
    requires KeysOnce([e] + tail) && e.key != key && KeysOnce(Put(tail, key, leaf))
    requires Contents(Put(tail, key, leaf)) == Contents(tail)[key := leaf]
    ensures Contents(Put([e] + tail, key, leaf)) == Contents([e] + tail)[key := leaf]
    ensures KeysOnce(Put([e] + tail, key, leaf))
  {
    ContentsCons(e, tail);
    ContentsCons(e, Put(tail, key, leaf));
    assert ([e] + tail)[1..] == tail;
  }

  lemma {:induction false} PutContents(entries: seq<Entry>, key: Key, leaf: Hash)
    requires KeysOnce(entries)
    ensures Contents(Put(entries, key, leaf)) == Contents(entries)[key := leaf]
    ensures KeysOnce(Put(entries, key, leaf))
  {
    if entries == [] {
      ContentsCons(Entry(key, leaf), []);
      assert [Entry(key, leaf)] + [] == [Entry(key, leaf)];
    } else {
      var e, tail := entries[0], entries[1..];
      assert entries == [e] + tail;
      if e.key == key {
        PutHere(e, tail, leaf);
      } else {
        PutContents(tail, key, leaf);
        PutLater(e, tail, key, leaf);
      }
    }
  }

  lemma {:induction false} RemoveContents(entries: seq<Entry>, key: Key)
    requires KeysOnce(entries)
    ensures Contents(Remove(entries, key)) == Contents(entries) - {key}
    ensures KeysOnce(Remove(entries, key))
  {
    if entries != [] && entries[0].key != key {
      var tail := entries[1..];
      RemoveContents(tail, key);
      ContentsCons(entries[0], Remove(tail, key));
    }
  }

  /** After any run of updates, the tree holds at each key what the last update there left. */
  lemma {:induction false} RunContents(updates: seq<Update>)
    ensures KeysOnce(ApplyAll(updates))
    ensures forall k: Key :: k in Contents(ApplyAll(updates)) <==> LastWrite(updates, k).Some?
    ensures forall k: Key | k in Contents(ApplyAll(updates)) ::
              LastWrite(updates, k) == Some(Contents(ApplyAll(updates))[k])
  {
    if updates == [] {
    } else {
      var before, u := updates[..|updates| - 1], updates[|updates| - 1];
      RunContents(before);
      if u.Set? && u.leaf.Some? {
        PutContents(ApplyAll(before), u.key, u.leaf.value);
      } else {
        RemoveContents(ApplyAll(before), u.key);
      }
    }
  }

  /** The root forgets the run: two runs that leave the same last writes have the same root. */
  lemma RootForgetsHistory(a: seq<Update>, b: seq<Update>)
    requires forall k: Key :: LastWrite(a, k) == LastWrite(b, k)
    ensures SmtNode(ApplyAll(a), 0) == SmtNode(ApplyAll(b), 0)
  {
    RunContents(a);
    RunContents(b);
    RootExactly(ApplyAll(a), ApplyAll(b));
  }

  /** Where updates never store the empty leaf, equal roots force equal last writes. */
  lemma RootRecallsLastWrites(a: seq<Update>, b: seq<Update>, key: Key)
    requires forall u | u in a || u in b :: !(u.Set? && u.leaf == Some(EmptyLeaf))
    requires SmtNode(ApplyAll(a), 0) == SmtNode(ApplyAll(b), 0)
    ensures LastWrite(a, key) == LastWrite(b, key)
  {
    RunContents(a);
    RunContents(b);
    forall k: Key
      ensures LastWrite(a, k) != Some(EmptyLeaf) && LastWrite(b, k) != Some(EmptyLeaf)
    {
      LastWriteWasWritten(a, k);
      LastWriteWasWritten(b, k);
    }
    RootBindsMap(ApplyAll(a), ApplyAll(b));
  }

  lemma {:induction false} LastWriteWasWritten(updates: seq<Update>, key: Key)
    ensures LastWrite(updates, key).Some? ==> Set(key, LastWrite(updates, key)) in updates
  {
    if updates != [] && updates[|updates| - 1].key != key {
      LastWriteWasWritten(updates[..|updates| - 1], key);
    }
  }

  // ---- The tree object ----

  /** One step of a descent: the half the path enters, and the half it leaves behind. */
  lemma DescendStep(entries: seq<Entry>, here: seq<bool>, bit: bool)
    requires |here| < SMT_DEPTH
    ensures
      var level := Under(entries, here);
      && Side(level, |here|, bit) == Under(entries, here + [bit])
      && SmtNode(Side(level, |here|, !bit), |here| + 1) == FullTree(entries, here + [!bit])
  {
    SideOfUnder(entries, here, bit);
    SideOfUnder(entries, here, !bit);
    NodeIsFullTree(entries, here + [!bit]);
  }

  lemma SiblingIsRoot(entries: seq<Entry>, path: seq<bool>, depth: nat, bit: bool, level: seq<Entry>)
    requires |path| == SMT_DEPTH && depth < SMT_DEPTH && bit == path[depth]
    requires level == Under(entries, path[..depth])
    ensures Side(level, depth, bit) == Under(entries, path[..depth] + [bit])
    ensures OffPath(entries, path, depth) == SmtNode(Side(level, depth, !bit), depth + 1)
  {
    DescendStep(entries, path[..depth], bit);
  }

  /** The same step along a path: one more sibling, and the level below. */
  lemma SiblingsGrow(entries: seq<Entry>, path: seq<bool>, depth: nat, bit: bool, level: seq<Entry>)
    requires |path| == SMT_DEPTH && depth < SMT_DEPTH && bit == path[depth]
    requires level == Under(entries, path[..depth])
    ensures Side(level, depth, bit) == Under(entries, path[..depth + 1])
    ensures Siblings(entries, path)[..depth + 1] ==
            Siblings(entries, path)[..depth] + [SmtNode(Side(level, depth, !bit), depth + 1)]
  {
    SiblingIsRoot(entries, path, depth, bit, level);
    assert path[..depth + 1] == path[..depth] + [bit];
    var s := Siblings(entries, path);
    assert s[depth] == OffPath(entries, path, depth);
  }

  datatype SmtProof = SmtProof(key: Key, leafValue: Option<Hash>, siblings: seq<Hash>, compressed: Compressed)

  lemma SideStep(level: seq<Entry>, i: nat, depth: nat, right: bool)
    requires i < |level| && depth < SMT_DEPTH
    ensures Side(level[i..], depth, right) ==
            (if BitAt(level[i].key, depth) == right then [level[i]] else []) + Side(level[i + 1..], depth, right)
  {
    assert level[i..][1..] == level[i + 1..];
  }

  lemma AppendOne(a: seq<Entry>, e: Entry, b: seq<Entry>)
    ensures a + ([e] + b) == a + [e] + b
  {
  }

  /** Splits a level by one key bit, keeping order. */
  method Partition(level: seq<Entry>, depth: nat) returns (left: seq<Entry>, right: seq<Entry>)
    requires depth < SMT_DEPTH
    ensures left == Side(level, depth, false) && right == Side(level, depth, true)
  {
    left, right := [], [];
    for i := 0 to |level|
      invariant left + Side(level[i..], depth, false) == Side(level, depth, false)
      invariant right + Side(level[i..], depth, true) == Side(level, depth, true)
    {
      var e := level[i];
      ghost var restLeft, restRight := Side(level[i + 1..], depth, false), Side(level[i + 1..], depth, true);
      SideStep(level, i, depth, false);
      SideStep(level, i, depth, true);
      if !BitAt(e.key, depth) {
        AppendOne(left, e, restLeft);
        assert [] + restRight == restRight;
        left := left + [e];
      } else {
        AppendOne(right, e, restRight);
        assert [] + restLeft == restLeft;
        right := right + [e];
      }
    }
  }

  /** Splits a level and hashes the half not taken. */
  method Descend(level: seq<Entry>, depth: nat, goRight: bool) returns (sibling: Hash, next: seq<Entry>)
    requires depth < SMT_DEPTH
    ensures next == Side(level, depth, goRight) && sibling == SmtNode(Side(level, depth, !goRight), depth + 1)
  {
    var left, right := Partition(level, depth);
    if goRight {
      return SmtNode(left, depth + 1), right;
    } else {
      return SmtNode(right, depth + 1), left;
    }
  }

  class SparseMerkleTree {
    // The Map's entries, in the order it iterates them.
    var leaves: seq<Entry>

    ghost predicate Valid()
      reads this
    {
      KeysOnce(leaves)
    }

    constructor ()
      ensures Valid() && leaves == []
    {
      leaves := [];
    }

    method SetLeaf(key: Key, leaf: Option<Hash>)
      requires Valid()
      modifies this
      ensures Valid()
      ensures leaves == Apply(old(leaves), Set(key, leaf))
      ensures Contents(leaves) ==
              match leaf case Some(h) => old(Contents(leaves))[key := h] case None => old(Contents(leaves)) - {key}
    {
      match leaf
      case None =>
        DeleteLeaf(key);
      case Some(h) =>
        PutContents(leaves, key, h);
        leaves := Put(leaves, key, h);
    }

    method DeleteLeaf(key: Key)
      requires Valid()
      modifies this
      ensures Valid()
      ensures leaves == Apply(old(leaves), Delete(key))
      ensures Contents(leaves) == old(Contents(leaves)) - {key}
    {
      RemoveContents(leaves, key);
      leaves := Remove(leaves, key);
    }

    method Root() returns (root: Hash)
      ensures root == SmtNode(leaves, 0) == FullTree(leaves, [])
    {
      RootIsFullTree(leaves);
      root := SmtNode(leaves, 0);
    }

    /** Walks the key's path down, collecting at each depth the subtree not taken. */
    method CollectSiblings(key: Key) returns (siblings: seq<Hash>)
      ensures siblings == Siblings(leaves, Path(key))
    {
      ghost var path := Path(key);
      siblings := [];
      var level := leaves;
      UnderNothing(leaves);
      assert path[..0] == [];
      for depth := 0 to SMT_DEPTH
        invariant level == Under(leaves, path[..depth])
        invariant siblings == Siblings(leaves, path)[..depth]
      {
        var goRight := BitAt(key, depth);
        SiblingsGrow(leaves, path, depth, goRight, level);
        var sibling, next := Descend(level, depth, goRight);
        siblings := siblings + [sibling];
        level := next;
      }
    }

    /** The proof verifies against the root, and carries the tree's own value for the key. */
    method Prove(key: Key) returns (proof: SmtProof)
      ensures proof.key == key
      ensures proof.leafValue == if key in Contents(leaves) then Some(Contents(leaves)[key]) else None
      ensures proof.siblings == Siblings(leaves, Path(key))
      ensures Represents(proof.compressed, proof.siblings)
      ensures Accepts(SmtNode(leaves, 0), key, proof.leafValue, proof.siblings)
    {
      var siblings := CollectSiblings(key);
      var m := Contents(leaves);
      var leafValue := if key in m then Some(m[key]) else None;
      LeafOfKey(leaves, key);
      VerifyExactly(leaves, key, leafValue, siblings);
      var compressed := Compress(siblings);
      proof := SmtProof(key, leafValue, siblings, compressed.value);
    }
  }

  /** Hashes up from the claimed value and compares with the root. */
  method VerifySmtProof(root: Hash, key: Key, value: Option<Hash>, siblings: seq<Hash>) returns (ok: bool)
    ensures ok == Accepts(root, key, value, siblings)
  {
    if |siblings| != SMT_DEPTH {
      return false;
    }
    var node := Claimed(value);
    for depth := SMT_DEPTH downto 0
      invariant node == Climb(Path(key), Claimed(value), siblings, depth)
    {
      var sib := siblings[depth];
      node := if !BitAt(key, depth) then Node(node, sib) else Node(sib, node);
    }
    return node == root;
  }

  // ---- Compressed verification ----

  /** The verdict on a compressed proof; None where decompressing it throws. */
  function CompressedVerdict(root: Hash, key: Key, value: Option<Hash>, c: Compressed): Option<bool> {
    match Decompress(c)
    case None => None
    case Some(siblings) => Some(Accepts(root, key, value, siblings))
  }

  method VerifyCompressedSmtProof(root: Hash, key: Key, value: Option<Hash>, c: Compressed)
    returns (verdict: Option<bool>)
    ensures verdict == CompressedVerdict(root, key, value, c)
  {
    var siblings := DecompressProof(c);
    match siblings
    case None =>
      verdict := None;
    case Some(s) =>
      var ok := VerifySmtProof(root, key, value, s);
      verdict := Some(ok);
  }

  /** A proof and its encoding get the same verdict, against any root. */
  lemma CompressedAgrees(root: Hash, key: Key, value: Option<Hash>, siblings: seq<Hash>, c: Compressed)
    requires |siblings| == SMT_DEPTH && Represents(c, siblings)
    ensures CompressedVerdict(root, key, value, c) == Some(Accepts(root, key, value, siblings))
  {
    DecompressInvertsCompress(c, siblings);
    assert siblings[..SMT_DEPTH] == siblings;
  }

  /** A compressed proof is accepted exactly when it reads as the tree's proof of the claimed value. */
  lemma CompressedVerifyExactly(entries: seq<Entry>, key: Key, value: Option<Hash>, c: Compressed)
    ensures CompressedVerdict(SmtNode(entries, 0), key, value, c) == Some(true) <==>
            Decompress(c) == Some(Siblings(entries, Path(key))) && Claimed(value) == ValueAt(Contents(entries), key)
  {
    LeafOfKey(entries, key);
    if Decompress(c).Some? {
      VerifyExactly(entries, key, value, Decompress(c).value);
    }
  }
}
