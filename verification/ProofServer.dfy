/**
 Serving proofs from the content-addressed node store instead of the entry list.

 The store maps an inner node's hash to its two children. Descending it reads one row a level and
 takes a missing row for an empty subtree. `ServedProofExactly` says when that is right: the
 served proof verifies exactly when no row of a non-empty node on the path is missing.
 */
module ProofServer {
  import opened Wrappers
  import opened MerkleHash
  import opened CompressedProof
  import opened SparseMerkle

  datatype NodeRow = NodeRow(left: Hash, right: Hash)

  type Store = map<Hash, NodeRow>

  /** Rows are kept under the hash of what they hold. */
  ghost predicate ContentAddressed(store: Store) {
    forall h | h in store :: h == Node(store[h].left, store[h].right)
  }

  function Child(row: NodeRow, right: bool): Hash {
    if right then row.right else row.left
  }

  /** The node the descent stands on at a depth; None once it has met a missing row. */
  function NodeAt(store: Store, root: Hash, path: seq<bool>, depth: nat): Option<Hash>
    requires depth <= |path|
  {
    if depth == 0 then Some(root)
    else
      match NodeAt(store, root, path, depth - 1)
      case None => None
      case Some(h) => if h in store then Some(Child(store[h], path[depth - 1])) else None
  }

  /** The sibling it collects there. */
  function ServedSibling(store: Store, root: Hash, path: seq<bool>, depth: nat): Hash
    requires depth < |path| == SMT_DEPTH
  {
    match NodeAt(store, root, path, depth)
    case None => Default(depth)
    case Some(h) => if h in store then Child(store[h], !path[depth]) else Default(depth)
  }

  function ServedSiblings(store: Store, root: Hash, path: seq<bool>): (s: seq<Hash>)
    requires |path| == SMT_DEPTH
    ensures |s| == SMT_DEPTH
  {
    seq(SMT_DEPTH, d requires 0 <= d < SMT_DEPTH => ServedSibling(store, root, path, d))
  }

  /** The leaf it ends on, the empty leaf below a missing row. */
  function ServedLeaf(store: Store, root: Hash, path: seq<bool>): Hash
    requires |path| == SMT_DEPTH
  {
    match NodeAt(store, root, path, SMT_DEPTH)
    case None => EmptyLeaf
    case Some(h) => h
  }

  /** The empty leaf is reported as no value. */
  function ServedValue(store: Store, root: Hash, path: seq<bool>): (v: Option<Hash>)
    requires |path| == SMT_DEPTH
    ensures Claimed(v) == ServedLeaf(store, root, path) && v != Some(EmptyLeaf)
  {
    if ServedLeaf(store, root, path) == EmptyLeaf then None else Some(ServedLeaf(store, root, path))
  }

  method DescendStore(store: Store, root: Hash, key: Key) returns (siblings: seq<Hash>, oldLeaf: Hash)
    ensures siblings == ServedSiblings(store, root, Path(key))
    ensures oldLeaf == ServedLeaf(store, root, Path(key))
  {
    ghost var path := Path(key);
    var out := new Hash[SMT_DEPTH](_ => EmptyLeaf);
    var cur := root;
    var empty := false;
    for d := 0 to SMT_DEPTH
      invariant NodeAt(store, root, path, d) == if empty then None else Some(cur)
      invariant forall e | 0 <= e < d :: out[e] == ServedSibling(store, root, path, e)
    {
      if empty {
        out[d] := Default(d);
      } else if cur !in store {
        empty := true;
        out[d] := Default(d);
      } else {
        var row := store[cur];
        var bit := BitAt(key, d);
        assert bit == path[d];
        out[d] := if !bit then row.right else row.left;
        cur := if !bit then row.left else row.right;
      }
    }
    assert out[..] == ServedSiblings(store, root, path);
    return out[..], if empty then EmptyLeaf else cur;
  }

  method ServeProof(store: Store, root: Hash, key: Key) returns (proof: SmtProof)
    ensures proof.key == key && proof.leafValue == ServedValue(store, root, Path(key))
    ensures proof.siblings == ServedSiblings(store, root, Path(key))
    ensures Represents(proof.compressed, proof.siblings)
  {
    var siblings, oldLeaf := DescendStore(store, root, key);
    var compressed := Compress(siblings);
    return SmtProof(key, if oldLeaf == EmptyLeaf then None else Some(oldLeaf), siblings, compressed.value);
  }

  // ---- When a served proof is right ----

  /** The row the descent needs at a depth is there, or the node is the empty subtree. */
  ghost predicate RowFound(store: Store, root: Hash, path: seq<bool>, depth: nat)
    requires depth < |path| == SMT_DEPTH
  {
    match NodeAt(store, root, path, depth)
    case None => true
    case Some(h) => h in store || h == Empty(SMT_DEPTH - depth)
  }

  /** No row of a non-empty node is missing from a depth on down. */
  ghost predicate CompleteFrom(store: Store, root: Hash, path: seq<bool>, depth: nat)
    requires |path| == SMT_DEPTH
  {
    forall d | depth <= d < SMT_DEPTH :: RowFound(store, root, path, d)
  }

  lemma {:induction false} StaysEmpty(store: Store, root: Hash, path: seq<bool>, depth: nat, later: nat)
    requires depth <= later <= |path| == SMT_DEPTH && NodeAt(store, root, path, depth).None?
    ensures NodeAt(store, root, path, later).None?
    decreases later - depth
  {
    if depth < later {
      StaysEmpty(store, root, path, depth + 1, later);
    }
  }

  /** Below a missing row, the served siblings hash up to the empty subtree. */
  lemma {:induction false} ClimbEmpty(store: Store, root: Hash, path: seq<bool>, depth: nat)
    requires depth <= |path| == SMT_DEPTH && NodeAt(store, root, path, depth).None?
    ensures Climb(path, ServedLeaf(store, root, path), ServedSiblings(store, root, path), depth) == Empty(SMT_DEPTH - depth)
    decreases SMT_DEPTH - depth
  {
    if depth == SMT_DEPTH {
    } else {
      StaysEmpty(store, root, path, depth, depth + 1);
      ClimbEmpty(store, root, path, depth + 1);
    }
  }

  /** From a node the descent stands on, they hash up to that node exactly when no row is missing. */
  lemma {:induction false} ClimbServed(store: Store, root: Hash, path: seq<bool>, depth: nat)
    requires ContentAddressed(store)
    requires depth <= |path| == SMT_DEPTH && NodeAt(store, root, path, depth).Some?
    ensures
      var served := Climb(path, ServedLeaf(store, root, path), ServedSiblings(store, root, path), depth);
      served == NodeAt(store, root, path, depth).value <==> CompleteFrom(store, root, path, depth)
    decreases SMT_DEPTH - depth
  {
    if depth == SMT_DEPTH {
    } else {
      var h := NodeAt(store, root, path, depth).value;
      assert ServedSiblings(store, root, path)[depth] == ServedSibling(store, root, path, depth);
      if h in store {
        ClimbServed(store, root, path, depth + 1);
        CompleteStep(store, root, path, depth);
      } else {
        ClimbEmpty(store, root, path, depth + 1);
        CompleteBelowMissing(store, root, path, depth);
      }
    }
  }

  lemma CompleteStep(store: Store, root: Hash, path: seq<bool>, depth: nat)
    requires depth < |path| == SMT_DEPTH && RowFound(store, root, path, depth)
    ensures CompleteFrom(store, root, path, depth) <==> CompleteFrom(store, root, path, depth + 1)
  {
  }

  lemma CompleteBelowMissing(store: Store, root: Hash, path: seq<bool>, depth: nat)
    requires depth < |path| == SMT_DEPTH && NodeAt(store, root, path, depth + 1).None?
    ensures CompleteFrom(store, root, path, depth) <==> RowFound(store, root, path, depth)
  {
    forall d | depth < d < SMT_DEPTH
      ensures RowFound(store, root, path, d)
    {
      StaysEmpty(store, root, path, depth + 1, d);
    }
  }

  /** Against any root, the served proof verifies exactly when no row it needed was missing. */
  lemma ServedProofExactly(store: Store, root: Hash, key: Key)
    requires ContentAddressed(store)
    ensures Accepts(root, key, ServedValue(store, root, Path(key)), ServedSiblings(store, root, Path(key))) <==>
            CompleteFrom(store, root, Path(key), 0)
  {
    ClimbServed(store, root, Path(key), 0);
  }

  /** Against a tree's root it then is the tree's own proof, value and siblings, and otherwise it is not. */
  lemma ServedProofIsTheTrees(store: Store, entries: seq<Entry>, key: Key)
    requires ContentAddressed(store)
    ensures
      var root := SmtNode(entries, 0);
      CompleteFrom(store, root, Path(key), 0) <==>
      && ServedSiblings(store, root, Path(key)) == Siblings(entries, Path(key))
      && Claimed(ServedValue(store, root, Path(key))) == ValueAt(Contents(entries), key)
  {
    var root := SmtNode(entries, 0);
    ServedProofExactly(store, root, key);
    VerifyExactly(entries, key, ServedValue(store, root, Path(key)), ServedSiblings(store, root, Path(key)));
    LeafOfKey(entries, key);
  }

  /** Every inner node of the tree that is not an empty subtree has its row. */
  ghost predicate Holds(store: Store, entries: seq<Entry>) {
    forall prefix: seq<bool> | |prefix| < SMT_DEPTH ::
      FullTree(entries, prefix) in store || FullTree(entries, prefix) == Empty(SMT_DEPTH - |prefix|)
  }

  lemma ChildIsSubtree(entries: seq<Entry>, here: seq<bool>, row: NodeRow, bit: bool)
    requires |here| < SMT_DEPTH && FullTree(entries, here) == Node(row.left, row.right)
    ensures Child(row, bit) == FullTree(entries, here + [bit])
  {
    if bit {} else {}
  }

  lemma {:induction false} DescentFollowsTree(store: Store, entries: seq<Entry>, root: Hash, path: seq<bool>, depth: nat)
    requires ContentAddressed(store) && depth <= |path| == SMT_DEPTH && root == FullTree(entries, [])
    requires NodeAt(store, root, path, depth).Some?
    ensures NodeAt(store, root, path, depth).value == FullTree(entries, path[..depth])
  {
    if depth == 0 {
      assert path[..0] == [];
    } else {
      var above := NodeAt(store, root, path, depth - 1).value;
      DescentFollowsTree(store, entries, root, path, depth - 1);
      var bit := path[depth - 1];
      ChildIsSubtree(entries, path[..depth - 1], store[above], bit);
      assert path[..depth] == path[..depth - 1] + [bit];
    }
  }

  lemma FullStoreIsComplete(store: Store, entries: seq<Entry>, root: Hash, path: seq<bool>)
    requires ContentAddressed(store) && Holds(store, entries)
    requires |path| == SMT_DEPTH && root == FullTree(entries, [])
    ensures CompleteFrom(store, root, path, 0)
  {
    forall d | 0 <= d < SMT_DEPTH
      ensures RowFound(store, root, path, d)
    {
      if NodeAt(store, root, path, d).Some? {
        DescentFollowsTree(store, entries, root, path, d);
        assert |path[..d]| == d;
      }
    }
  }

  /** A store that holds the tree serves, for every key, the proof the in-memory tree gives. */
  lemma FullStoreServesTheTree(store: Store, entries: seq<Entry>, key: Key)
    requires ContentAddressed(store) && Holds(store, entries)
    ensures
      var root := SmtNode(entries, 0);
      && ServedSiblings(store, root, Path(key)) == Siblings(entries, Path(key))
      && Claimed(ServedValue(store, root, Path(key))) == ValueAt(Contents(entries), key)
      && Accepts(root, key, ServedValue(store, root, Path(key)), ServedSiblings(store, root, Path(key)))
  {
    RootIsFullTree(entries);
    FullStoreIsComplete(store, entries, SmtNode(entries, 0), Path(key));
    ServedProofExactly(store, SmtNode(entries, 0), key);
    ServedProofIsTheTrees(store, entries, key);
  }

  /** A store without the root's row serves absence for every key; the proof fails unless the tree is empty. */
  lemma MissingRootReadsAsAbsence(store: Store, entries: seq<Entry>, key: Key)
    requires ContentAddressed(store) && SmtNode(entries, 0) !in store
    ensures ServedValue(store, SmtNode(entries, 0), Path(key)) == None
    ensures Accepts(SmtNode(entries, 0), key, None, ServedSiblings(store, SmtNode(entries, 0), Path(key))) <==>
            SmtNode(entries, 0) == Empty(SMT_DEPTH)
  {
    var root, path := SmtNode(entries, 0), Path(key);
    assert NodeAt(store, root, path, 0) == Some(root);
    assert NodeAt(store, root, path, 1) == None;
    StaysEmpty(store, root, path, 1, SMT_DEPTH);
    CompleteBelowMissing(store, root, path, 0);
    ServedProofExactly(store, root, key);
  }
}
