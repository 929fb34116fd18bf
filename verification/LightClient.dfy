/**
 From a proof to the validators who signed for it.

 A client takes a state root from a signed checkpoint and checks a proof against it. Two clients
 that were shown different values for one key, each under a verified checkpoint of the same round,
 hold between them signatures on two different texts by more than a third of the stake.
 */
module LightClient {
  import opened Wrappers
  import opened MerkleHash
  import opened CompressedProof
  import opened SparseMerkle
  import opened Descent
  import opened SigningString
  import opened StakeQuorum
  import opened Checkpoint
  import StateCommitment
  import Text

  /** How a root is written in a checkpoint. */
  type Hex = Hash -> string

  /** The text determines the root, in either letter case. */
  ghost predicate TellsApart(hex: Hex) {
    forall a, b :: Text.Lower(hex(a)) == Text.Lower(hex(b)) ==> a == b
  }

  /** What a client was shown for a key under a named sub-tree, and the proof of it. */
  datatype Shown = Shown(value: Option<Hash>, subRoot: Hash, path: seq<Hash>, proof: Compressed)

  predicate Accepted(root: Hash, name: string, key: Key, shown: Shown) {
    StateCommitment.ClientAccepts(root, name, shown.subRoot, shown.path, key, shown.value, shown.proof)
  }

  /** Any root, honest or not, binds: on paths of one length it has one value for a key under a name. */
  lemma RootBindsValue(root: Hash, name: string, key: Key, a: Shown, b: Shown)
    requires Accepted(root, name, key, a) && Accepted(root, name, key, b) && |a.path| == |b.path|
    ensures Claimed(a.value) == Claimed(b.value) && a.subRoot == b.subRoot && a.path == b.path
    ensures Decompress(a.proof) == Decompress(b.proof)
  {
    StateCommitment.ClientIsDescent(root, name, a.subRoot, a.path, key, a.value, a.proof);
    StateCommitment.ClientIsDescent(root, name, b.subRoot, b.path, key, b.value, b.proof);
    ReversedTwice(a.path);
    ReversedTwice(b.path);
  }

  /** A state's root binds at any path lengths, where neither value is a node hash. */
  lemma StateRootBindsValue(state: StateCommitment.State, name: string, key: Key, a: Shown, b: Shown)
    requires StateCommitment.NoNodeLeaves(state) && !Claimed(a.value).Node? && !Claimed(b.value).Node?
    requires Accepted(StateCommitment.RootOfState(state), name, key, a)
    requires Accepted(StateCommitment.RootOfState(state), name, key, b)
    ensures Claimed(a.value) == Claimed(b.value)
  {
    StateCommitment.PathHasThree(state, name, a.subRoot, a.path, key, a.value, a.proof);
    StateCommitment.PathHasThree(state, name, b.subRoot, b.path, key, b.value, b.proof);
    RootBindsValue(StateCommitment.RootOfState(state), name, key, a, b);
  }

  /** A verified checkpoint past the commitment flag day signs for its state root. */
  lemma SignsForItsRoot(cp: CheckpointRow, g: Gates)
    requires g.commitment(cp.snapshotBlock, cp.network) && !CommitmentMissing(cp, g)
    ensures RootFields(cp, g) != [] && RootFields(cp, g)[0] == Text.Lower(cp.stateRoot.value)
  {
  }

  /**
   Different values for one key, under two verified checkpoints of one round: sources with more than
   a third of the stake have validly signed two different texts under one equivocation prefix.
   */
  lemma DifferentValuesAreProvable(cp1: CheckpointRow, column1: SigColumn, root1: Hash, shown1: Shown,
                                   cp2: CheckpointRow, column2: SigColumn, root2: Hash, shown2: Shown,
                                   name: string, key: Key, hex: Hex, validators: seq<CapabilityRow>, g: Gates,
                                   valid: Verifier)
    requires Accepted(root1, name, key, shown1) && Accepted(root2, name, key, shown2)
    requires Claimed(shown1.value) != Claimed(shown2.value) && (root1 != root2 || |shown1.path| == |shown2.path|)
    requires TellsApart(hex) && cp1.stateRoot == Some(hex(root1)) && cp2.stateRoot == Some(hex(root2))
    requires g.commitment(cp1.snapshotBlock, cp1.network) && g.commitment(cp2.snapshotBlock, cp2.network)
    requires PipeFree(cp1) && PipeFree(cp2) && CheckpointKey(cp1) == CheckpointKey(cp2)
    requires Wrapped(cp1, g) && Wrapped(cp2, g)
    requires CanonicalCheckpointString(cp1, g).Ok? && CanonicalCheckpointString(cp2, g).Ok?
    requires g.weightedQuorum(cp1.snapshotBlock, cp1.network) && g.weightedQuorum(cp2.snapshotBlock, cp2.network)
    requires Verified(cp1, column1, CanonicalCheckpointString(cp1, g).value, validators, g, valid)
    requires Verified(cp2, column2, CanonicalCheckpointString(cp2, g).value, validators, g, valid)
    ensures
      var text1, text2 := CanonicalCheckpointString(cp1, g).value, CanonicalCheckpointString(cp2, g).value;
      var both := SigningSources(column1, text1, validators, valid) * SigningSources(column2, text2, validators, valid);
      && text1 != text2
      && EquivPrefix(CheckpointKey(cp1)) <= text1 && EquivPrefix(CheckpointKey(cp1)) <= text2
      && TotalStakeOf(ServedSnapshot(validators)).Some?
      && 3.0 * StakeHeld(both, validators) > TotalStakeOf(ServedSnapshot(validators)).value
  {
    if root1 == root2 {
      RootBindsValue(root1, name, key, shown1, shown2);
    }
    SignsForItsRoot(cp1, g);
    SignsForItsRoot(cp2, g);
    assert RootFields(cp1, g) != RootFields(cp2, g);
    ConflictingCheckpointsAreProvable(cp1, column1, cp2, column2, validators, g, valid);
  }
}
