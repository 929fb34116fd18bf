/**
 A light client that re-derives the stake quorum from proven leaves.

 The stakes tree holds a member leaf (source and weight) under every signing key of a snapshot and
 one leaf with the total. A client that proves the leaves of some signers and the total leaf, counts
 each source once and compares, reaches the snapshot's own verdict on those signers, whatever other
 validators the server leaves out.
 */
module StakeClient {
  import opened Wrappers
  import opened MerkleHash
  import opened CompressedProof
  import opened SparseMerkle
  import opened StakeQuorum
  import opened StateCommitment
  import Amounts
  import StakeTotal
  import Text

  const STAKE_TOTAL_PUBKEY: string := "__total__"

  /** The tree position of a key under the capability at hand. */
  type KeyDigest = string -> Key

  // ---- What the stakes tree commits to ----

  ghost predicate HoldsAmount(tree: seq<Entry>, key: Key, content: LeafContent, stake: real) {
    && LeafFor(content).Some? && ValueAt(Contents(tree), key) == LeafFor(content).value
    && Amounts.CanonicalAmount(AmountText(content)).Some?
    && Amounts.Value(AmountText(content)) as real == stake * StakeTotal.UNITS
  }

  ghost predicate HoldsMember(tree: seq<Entry>, key: Key, source: string, stake: real) {
    exists weight :: HoldsAmount(tree, key, StakeMember(source, weight), stake)
  }

  ghost predicate HoldsTotal(tree: seq<Entry>, key: Key, stake: real) {
    exists total :: HoldsAmount(tree, key, LeafContent.StakeTotal(total), stake)
  }

  /**
   A member leaf for each key of the snapshot, and none for any of the other keys asked about; the
   total, left out when it is zero.
   */
  ghost predicate Commits(tree: seq<Entry>, s: Snapshot, digest: KeyDigest, asked: set<string>) {
    && TotalStakeOf(s).Some?
    && var idx := IndexOf(ReadAll(s.rows)).value;
       && (forall pk | pk in idx.pubkeyToSource :: idx.pubkeyToSource[pk] in idx.weightBySource)
       && (forall pk | pk in idx.pubkeyToSource.Keys + asked && pk != STAKE_TOTAL_PUBKEY ::
             if pk in idx.pubkeyToSource then
               HoldsMember(tree, digest(pk), idx.pubkeyToSource[pk], idx.weightBySource[idx.pubkeyToSource[pk]])
             else ValueAt(Contents(tree), digest(pk)) == EmptyLeaf)
       && if TotalStakeOf(s).value > 0.0 then HoldsTotal(tree, digest(STAKE_TOTAL_PUBKEY), TotalStakeOf(s).value)
          else ValueAt(Contents(tree), digest(STAKE_TOTAL_PUBKEY)) == EmptyLeaf
  }

  // ---- What the client checks ----

  /** Some proof of the leaf passes the client's checks against the state root. */
  ghost predicate Proven(state: State, key: Key, content: LeafContent) {
    && LeafFor(content).Some?
    && exists subRoot, path, c :: ClientAccepts(RootOfState(state), "stakes_root", subRoot, path, key, LeafFor(content), c)
  }

  /** A signer with the source and weight the server names for it. */
  datatype Claim = Claim(pubkey: string, source: string, weight: string)

  ghost predicate AllProven(state: State, digest: KeyDigest, claims: seq<Claim>) {
    forall i | 0 <= i < |claims| ::
      Proven(state, digest(claims[i].pubkey), StakeMember(claims[i].source, claims[i].weight))
  }

  function SourcesOf(claims: seq<Claim>): set<string> {
    set i | 0 <= i < |claims| :: claims[i].source
  }

  /** The claimed weights, each source once. */
  function Tally(claims: seq<Claim>): nat {
    if claims == [] then 0
    else
      var before, last := claims[..|claims| - 1], claims[|claims| - 1];
      Tally(before) + if last.source in SourcesOf(before) then 0 else Amounts.ValueOrZero(last.weight)
  }

  function Pubkeys(claims: seq<Claim>): (p: seq<string>)
    ensures |p| == |claims|
  {
    seq(|claims|, i requires 0 <= i < |claims| => claims[i].pubkey)
  }

  /** The keys the client was shown leaves for. */
  function Asked(claims: seq<Claim>): set<string> {
    set i | 0 <= i < |claims| :: claims[i].pubkey
  }

  // ---- Proven leaves are the committed ones ----

  /** What is proven under a key is stored there. */
  lemma ProvenIsStored(state: State, key: Key, content: LeafContent)
    requires NoNodeLeaves(state) && Proven(state, key, content)
    ensures ValueAt(Contents(TreeOf(state, "stakes_root")), key) == LeafFor(content).value
  {
    var subRoot, path, c :| ClientAccepts(RootOfState(state), "stakes_root", subRoot, path, key, LeafFor(content), c);
    ClientExactly(state, "stakes_root", subRoot, path, key, LeafFor(content), c);
  }

  /** A proven signer has the source and the weight the snapshot gives it. */
  lemma ProvenMember(state: State, s: Snapshot, digest: KeyDigest, asked: set<string>, claim: Claim)
    requires NoNodeLeaves(state) && Commits(TreeOf(state, "stakes_root"), s, digest, asked) && claim.pubkey in asked
    requires Proven(state, digest(claim.pubkey), StakeMember(claim.source, claim.weight))
    ensures
      var idx := IndexOf(ReadAll(s.rows)).value;
      && claim.pubkey in idx.pubkeyToSource && idx.pubkeyToSource[claim.pubkey] == claim.source
      && claim.source in idx.weightBySource
      && Amounts.ValueOrZero(claim.weight) as real == idx.weightBySource[claim.source] * StakeTotal.UNITS
  {
    var tree, key, content := TreeOf(state, "stakes_root"), digest(claim.pubkey), StakeMember(claim.source, claim.weight);
    var idx := IndexOf(ReadAll(s.rows)).value;
    ProvenIsStored(state, key, content);
    assert ValueAt(Contents(tree), key).Leaf?;
    if claim.pubkey == STAKE_TOTAL_PUBKEY {
      var total :| HoldsAmount(tree, key, LeafContent.StakeTotal(total), TotalStakeOf(s).value);
      LeafExactly(content, LeafContent.StakeTotal(total));
      assert false;
    } else {
      var source := idx.pubkeyToSource[claim.pubkey];
      var weight :| HoldsAmount(tree, key, StakeMember(source, weight), idx.weightBySource[source]);
      LeafExactly(content, StakeMember(source, weight));
    }
  }

  /** A proven total is the snapshot's, and positive. */
  lemma ProvenTotal(state: State, s: Snapshot, digest: KeyDigest, asked: set<string>, total: string)
    requires NoNodeLeaves(state) && Commits(TreeOf(state, "stakes_root"), s, digest, asked)
    requires Proven(state, digest("__total__"), LeafContent.StakeTotal(total))
    ensures TotalStakeOf(s).value > 0.0
    ensures Amounts.ValueOrZero(total) as real == TotalStakeOf(s).value * StakeTotal.UNITS
  {
    var tree, key := TreeOf(state, "stakes_root"), digest(STAKE_TOTAL_PUBKEY);
    ProvenIsStored(state, key, LeafContent.StakeTotal(total));
    assert ValueAt(Contents(tree), key).Leaf?;
    var stored :| HoldsAmount(tree, key, LeafContent.StakeTotal(stored), TotalStakeOf(s).value);
    LeafExactly(LeafContent.StakeTotal(total), LeafContent.StakeTotal(stored));
  }

  // ---- The verdict ----

  lemma SourcesSnoc(claims: seq<Claim>)
    requires claims != []
    ensures SourcesOf(claims) == SourcesOf(claims[..|claims| - 1]) + {claims[|claims| - 1].source}
  {
    var n := |claims| - 1;
    forall i | 0 <= i < |claims|
      ensures claims[i].source in SourcesOf(claims[..n]) + {claims[n].source}
    {
      assert i < n ==> claims[i] == claims[..n][i];
    }
    forall i | 0 <= i < n
      ensures claims[..n][i].source in SourcesOf(claims)
    {
      assert claims[..n][i] == claims[i];
    }
  }

  lemma AddedUnits(stake: real, w: real, before: nat, value: nat)
    requires before as real == stake * StakeTotal.UNITS && value as real == w * StakeTotal.UNITS
    ensures (before + value) as real == (stake + w) * StakeTotal.UNITS
  {
  }

  /** A claim's weight is its source's in a map of weights. */
  predicate WeighedIn(m: map<string, real>, claim: Claim) {
    && claim.source in m
    && Amounts.ValueOrZero(claim.weight) as real == m[claim.source] * StakeTotal.UNITS
  }

  /** The client's tally is the stake of the sources it names. */
  lemma {:induction false} TallyIsStake(claims: seq<Claim>, m: map<string, real>)
    requires forall i | 0 <= i < |claims| :: WeighedIn(m, claims[i])
    ensures Tally(claims) as real == StakeQuorum.Stake(SourcesOf(claims), m) * StakeTotal.UNITS
  {
    if claims == [] {
      assert SourcesOf(claims) == {};
    } else {
      var before, last := claims[..|claims| - 1], claims[|claims| - 1];
      TallyIsStake(before, m);
      SourcesSnoc(claims);
      if last.source in SourcesOf(before) {
        assert SourcesOf(claims) == SourcesOf(before);
      } else {
        StakeAdd(SourcesOf(before), m, last.source);
        AddedUnits(StakeQuorum.Stake(SourcesOf(before), m), m[last.source], Tally(before), Amounts.ValueOrZero(last.weight));
      }
    }
  }

  /** Every key of an index is in lower case. */
  lemma KeysAreLower(rows: seq<Option<Validator>>, pk: string)
    requires IndexOf(ReadAll(rows)).Some? && pk in IndexOf(ReadAll(rows)).value.pubkeyToSource
    ensures Text.Lower(pk) == pk
  {
    IndexNames(ReadAll(rows));
    var i :| 0 <= i < |ReadAll(rows)| && ReadAll(rows)[i].Row? && ReadAll(rows)[i].key == pk;
    Text.LowerTwice(rows[i].value.pubkey);
  }

  /** The sources the client counts are those the quorum counts for the same signers. */
  lemma SameSources(state: State, s: Snapshot, digest: KeyDigest, claims: seq<Claim>)
    requires NoNodeLeaves(state) && AllProven(state, digest, claims)
    requires Commits(TreeOf(state, "stakes_root"), s, digest, Asked(claims))
    ensures SourcesOf(claims) == SignedSources(IndexOf(ReadAll(s.rows)).value, Pubkeys(claims))
  {
    var idx := IndexOf(ReadAll(s.rows)).value;
    forall i | 0 <= i < |claims|
      ensures Text.Lower(claims[i].pubkey) in idx.pubkeyToSource
      ensures idx.pubkeyToSource[Text.Lower(claims[i].pubkey)] == claims[i].source
      ensures claims[i].pubkey in Pubkeys(claims)
    {
      ProvenMember(state, s, digest, Asked(claims), claims[i]);
      KeysAreLower(s.rows, claims[i].pubkey);
      assert Pubkeys(claims)[i] == claims[i].pubkey;
    }
  }

  lemma CompareInUnits(tally: nat, total: nat, signed: real, whole: real)
    requires tally as real == signed * StakeTotal.UNITS && total as real == whole * StakeTotal.UNITS
    ensures 3 * tally > 2 * total <==> 3.0 * signed > 2.0 * whole
  {
    assert (3 * tally) as real == 3.0 * signed * StakeTotal.UNITS;
    assert (2 * total) as real == 2.0 * whole * StakeTotal.UNITS;
  }

  /**
   With the claimed signers and the total proven against the state root, the client's comparison is
   the committed snapshot's own verdict on those signers. The server's choice of whom to list does
   not enter: leaving signers out can only lose the quorum, never make one.
   */
  lemma ClientQuorumExactly(state: State, s: Snapshot, digest: KeyDigest, claims: seq<Claim>, total: string)
    requires NoNodeLeaves(state) && AllProven(state, digest, claims)
    requires Commits(TreeOf(state, "stakes_root"), s, digest, Asked(claims))
    requires Proven(state, digest("__total__"), LeafContent.StakeTotal(total))
    ensures 3 * Tally(claims) > 2 * Amounts.ValueOrZero(total) <==> Clears(s, Pubkeys(claims))
  {
    var m := IndexOf(ReadAll(s.rows)).value.weightBySource;
    forall i | 0 <= i < |claims|
      ensures WeighedIn(m, claims[i])
    {
      ProvenMember(state, s, digest, Asked(claims), claims[i]);
    }
    TallyIsStake(claims, m);
    SameSources(state, s, digest, claims);
    ProvenTotal(state, s, digest, Asked(claims), total);
    CompareInUnits(Tally(claims), Amounts.ValueOrZero(total), StakeQuorum.Stake(SourcesOf(claims), m), TotalStakeOf(s).value);
  }

  /** A quorum the client finds holds for every list of signers that includes the proven ones. */
  lemma ClientQuorumHolds(state: State, s: Snapshot, digest: KeyDigest, claims: seq<Claim>, total: string,
                          signers: seq<string>)
    requires NoNodeLeaves(state) && AllProven(state, digest, claims)
    requires Commits(TreeOf(state, "stakes_root"), s, digest, Asked(claims))
    requires Proven(state, digest("__total__"), LeafContent.StakeTotal(total))
    requires 3 * Tally(claims) > 2 * Amounts.ValueOrZero(total)
    requires forall pk | pk in Pubkeys(claims) :: pk in signers
    ensures Clears(s, signers)
  {
    ClientQuorumExactly(state, s, digest, claims, total);
    SignersUpToCase(IndexOf(ReadAll(s.rows)).value, Pubkeys(claims), signers);
    ClearsIsMonotone(s, Pubkeys(claims), signers);
  }
}
