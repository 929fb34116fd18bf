# XChain Explorer: verified model of the light-client stack

This project states and proves what the explorer's consensus code promises to a light client, and
what its concurrent plumbing promises to its callers. It has two halves.

**What a client may believe.** A balance proof reaches a state root through a sparse Merkle tree
of depth 256 and a fixed tree over five named sub-roots; the state root is part of a text that
validators sign; a count or stake quorum over a capability snapshot decides whether enough of them
did. The modules `MerkleHash`, `SparseMerkle`, `CompressedProof`, `ProofServer`, `FixedMerkle`,
`Descent`, `RawBytes`, `Amounts`, `StateCommitment`, `SigningString`, `StakeQuorum`, `StakeTotal`,
`StakeClient`, `Checkpoint` and `LightClient` follow that chain. The main statements are exact (an
if-and-only-if wherever the code meets one): a verifier accepts exactly the tree's own value with
the tree's one proof; a root determines the map and nothing else; a served proof verifies exactly
when no node row was missing; two signed texts are equal exactly when every field they carry is; a
client that re-derives the stake quorum from proven leaves reaches the snapshot's own verdict; two
verified checkpoints over one snapshot share signers with more than a third of the stake, or at
least one signing key. `LightClient` joins the two ends: if two clients accept different values for
one key, each under a verified weighted checkpoint of the same round, then sources with more than a
third of the stake have validly signed two different texts under one prefix. `JsonValue`, `CanonicalJson` and `ConsensusPin` do the same for the pin over
a coin bundle: the printed text loses key order and, but for the cases listed below, nothing else.

**What runs keep.** `PooledQuery`, `SimulationSlots`, `BatchReads` and `HubConnector` are step
machines over every interleaving or every sequence of answers; `AnchorPages` is a paged walk;
`LedgerEffects` compares a page-wide read with the per-action reads it replaces.

Code that updates objects or arrays is modelled by classes and loops (`SparseMerkleTree`,
`SlotPool`, `DeadlineRace`, `Connector`, the bitmap buffer, the tally loops), each proved against a
function; the laws are proved about the functions. `Text`, `StringOrder`, `Sequences`,
`Arithmetic`, `Sums` and `Wrappers` are shared helpers.

## Assumptions

- SHA-256 is collision free. The trees are stated over terms: a 32-byte value is the empty-leaf
  constant (tag 0x02), a leaf hash (0x00), a node hash (0x01), or a foreign value that is none of
  them. `RawBytes` states the verifiers over byte strings of any length, in which a digest is 32
  bytes named by what was hashed; that terms are told apart by their bytes is proved there.
- Values stored in a tree are 32 bytes, as every leaf builder of the source makes them.
- Ed25519 is an arbitrary predicate of text, signature and key. Where columns are built
  (`Checkpoint.FaultyKeysMaySignBoth`), every key can sign.
- The hex text of a root tells roots apart, in either letter case (`LightClient`).
- The stakes tree holds a member leaf under each key of the snapshot, the total under its own key, and
  nothing under the other keys a client asks about (`StakeClient`); no other key is spoken of.
- Every flag day is an arbitrary predicate of snapshot block and network, and one set of gates is
  used for both sides of a comparison unless a lemma says otherwise.
- Stake weights are exact reals. The source computes with 64 significant digits.
- A SQL read returns some listing of the selected rows that its ORDER BY allows, and no more is
  assumed of it. The collation, and what a cast makes of a text that is no plain decimal, are
  arbitrary functions.
- What endpoints, the pool, timers and the event loop do next is chosen by the environment.

## Where the code gives less than a reader may expect

Each item names the lemma that shows the failing input and the one that says exactly when it
cannot occur.

- `verifySmtProof` does not refuse the empty-leaf constant as a claimed value, so it accepts it as
  membership of an absent key (`SparseMerkle.EmptyLeafClaimIsAccepted`; `VerifyExactly`).
- Neither verifier checks the length of a claimed value or of a sibling. Over byte strings the last
  pair can be cut elsewhere: for every tree, key and length up to 64 other than 32 a claim the tree
  does not hold is accepted (`RawBytes.ResizedClaimIsAccepted`). An accepted claim is the tree's
  value exactly when it is 32 bytes long (`RawBytes.RawSoundness`); `RawVerifyExactly` says what
  each length gets. The fixed verifier is the same for every tree of two leaves or more
  (`ResizedLeafIsAccepted`, `RawFixedSoundness`, `RawFixedExactly`; `RawFoldAnyLength` for any root,
  index and number of siblings), and so is a client that makes both checks (`RawClientAnyLength`,
  `RawClientOnFullPath`). The rows on terms below are about 32-byte claims and siblings.
- `verifyFixedMerkleProof` does not look at the number of siblings: a shorter proof is accepted for
  an inner node (`FixedMerkle.ShortProofAcceptsInnerNode`; `FoldVerifiesExactly` and
  `LongProofExactly` say what each length is accepted for). In a served proof this lets a node hash
  pass for a value on a shortened sub-root path (`StateCommitment.InnerNodeClaimIsAccepted`); no
  other kind of value does, whatever the path's length (`PathHasThree`, `ClientExactly`).
- The proof server reads a missing node row as an empty subtree. The proof it then serves never
  verifies (`ProofServer.ServedProofExactly`), but its `leaf_value` reads as absence
  (`ProofServer.MissingRootReadsAsAbsence`).
- The stake index can depend on the order of the rows, and with it the verdict
  (`StakeQuorum.InconsistentRowsDisagree`). It does not exactly when each key has one source and
  each source one weight, or when every order is refused anyway (`OrderFreeExactly`).
- A `|` inside a checkpoint column lets two rows share a text (`SigningString.BarInColumnCollides`).
  Below every flag day a row's text is no other row's exactly when its own columns hold none
  (`BareTextExactly`). A clean row is safe against any other row, clean or not, exactly while it
  carries no root and no supersession field (`OneSidedExactly`; `FoldedTextIsSame` is the input).
  With such fields both rows have to be clean (`TextExactly`).
- A key with a double bar, or with a bar at its end, shares its prefix with another key
  (`SigningString.DoubleBarBreaksPrefix`, `TrailingBarBreaksPrefix`); the prefix names the key
  exactly when it has neither (`ClearKeysExactly`).
- Two count quorums among n keys are bound to share an honest key exactly when n is 1 modulo 3, or 2,
  3 or 6 (`Checkpoint.QuorumIntersection`). For every other n, any two texts can both be verified over
  one snapshot while the keys that signed both are few enough to be all faulty
  (`Checkpoint.FaultyKeysMaySignBoth` builds the two columns).
- The canonical printer gives `[undefined]` and `[]` the same text
  (`CanonicalJson.UndefinedLeavesNoTrace`), and NaN and the infinities that of null
  (`CanonicalJson.NonFiniteReadsAsNull`); "the same up to key order" reads those alike, and
  `CanonicalJson.TextExactly` says there is nothing else. On values that hold neither, two texts are
  equal exactly when the values are, but for key order (`CanonicalJson.PlainTextExactly`).
- Rows of one action past the page limit are never delivered by the page walk
  (`AnchorPages.WalkIsComplete` says when that cannot happen, `WalkDelivers` what is delivered otherwise).
- The page-wide ledger read has the order of the per-action read exactly when no two different rows
  of the action have equal tick, equal decimal amount and equal address
  (`LedgerEffects.LedgerReadsAgreeExactly`). One amount written twice ties
  (`OneAmountTies`, `TiedRowsMayDisagree`).
- A hub connector without endpoints reports that every endpoint answered
  (`HubConnector.NoEndpointsCountAsAnswered`); with endpoints it does exactly when all gave a
  protocol error (`PassExactly`).

## Model

| member | source | states |
|---|---|---|
| `MerkleHash.PathInjective` | src/consensus/merkle.js:81-83 | the 256 bits read from a key, most significant first, tell any two 32-byte keys apart |
| `MerkleHash.PathOrder` | src/consensus/merkle.js:81-83 | paths run left to right in the order of the keys read as big-endian numbers, and only one reading of the bits keeps that order |
| `SparseMerkle.RootIsFullTree` | src/consensus/merkle.js:90-96 | the node recursion with its empty-subtree shortcut gives the root of the uncut depth-256 tree |
| `SparseMerkle.NodeIsFullTree` | src/consensus/merkle.js:90-96 | the same at every inner node, under every key prefix |
| `SparseMerkle.Partition` | src/consensus/merkle.js:93-94 | the loop splits a level by one key bit and keeps the order of both halves |
| `SparseMerkle.SparseMerkleTree.constructor` | src/consensus/merkle.js:99-99 | a new tree holds no leaf |
| `SparseMerkle.SparseMerkleTree.SetLeaf` | src/consensus/merkle.js:104-108 | set changes the map at one key, and with null removes the key |
| `SparseMerkle.SparseMerkleTree.DeleteLeaf` | src/consensus/merkle.js:109-109 | delete removes one key and nothing else |
| `SparseMerkle.SparseMerkleTree.Root` | src/consensus/merkle.js:119-119 | root is the root of the full tree over the current leaves |
| `SparseMerkle.SparseMerkleTree.CollectSiblings` | src/consensus/merkle.js:125-136 | the descent collects, at each depth, the root of the half the key's path does not enter |
| `SparseMerkle.SparseMerkleTree.Prove` | src/consensus/merkle.js:125-140 | a proof carries the tree's value for the key or null, verifies against the root for members and non-members, and its compressed form encodes the same siblings |
| `SparseMerkle.VerifySmtProof` | src/consensus/merkle.js:145-154 | for 32-byte values, the loop accepts exactly when 256 siblings hash up to the root along the key, null standing for the empty leaf; any byte lengths are `RawBytes.RawVerifySmtProof` |
| `SparseMerkle.VerifyExactly` | src/consensus/merkle.js:90-154 | for 32-byte values, the verifier accepts against a tree's root exactly the tree's value at the key with the one sibling list the tree has for it (soundness, completeness, uniqueness of proofs); any byte lengths are `RawBytes.RawVerifyExactly` |
| `SparseMerkle.Soundness` | src/consensus/merkle.js:143-154 | for 32-byte values, an accepted value is stored at the key, and accepted absence means absence when no empty leaf is stored; any byte lengths are `RawBytes.RawSoundness` |
| `SparseMerkle.EmptyLeafClaimIsAccepted` | src/consensus/merkle.js:145-154 | the empty-leaf constant is accepted as a value of an absent key |
| `RawBytes.BytesExactly` | src/consensus/merkle/primitives.js:47-76 | terms are told apart by their bytes: the tags separate leaf, node and empty leaf, and nothing collides |
| `RawBytes.TagsInFull` | src/consensus/merkle/primitives.js:47-76 | what each kind of value is the digest of, tag first |
| `RawBytes.RawVerifySmtProof` | src/consensus/merkle.js:145-154 | over byte strings of any length, the loop accepts exactly when 256 siblings hash up to the root, no length checked |
| `RawBytes.RawVerifyExactly` | src/consensus/merkle.js:143-154 | for claims and siblings of any length: accepted exactly when all siblings but the last are the tree's and claim and last sibling join to the last pair's 64 bytes |
| `RawBytes.RawSoundness` | src/consensus/merkle.js:143-154 | an accepted claim is the tree's value exactly when it is 32 bytes long, whatever siblings a prover sends |
| `RawBytes.ResizedClaimIsAccepted` | src/consensus/merkle.js:145-154 | for every tree, key and length up to 64 other than 32, a claim the tree does not hold is accepted |
| `RawBytes.RawAcceptsExactly` | src/consensus/merkle.js:145-154 | for any root and 32 bytes claimed, the claim and every sibling are the bytes found below the root |
| `RawBytes.RawVerifyFixedMerkleProof` | src/consensus/merkle.js:226-234 | over byte strings of any length, the fixed verifier's loop folds the siblings by the index bits |
| `RawBytes.RawFoldExactly` | src/consensus/merkle.js:226-234 | for any root, index and number of siblings, a 32-byte value is accepted exactly when it and the siblings are the bytes found below the root; other lengths are `RawBytes.RawFoldAnyLength` |
| `RawBytes.RawFoldAnyLength` | src/consensus/merkle.js:226-234 | for a value of any length and at least one sibling: accepted exactly when the siblings above the first are those found below the root and value and first sibling join to the last pair's 64 bytes |
| `RawBytes.RawFixedExactly` | src/consensus/merkle.js:195-234 | with tree-height siblings and an index in range, values and siblings of any length: all siblings but the first are the path's, the first pair is fixed as 64 joined bytes |
| `RawBytes.RawFixedSoundness` | src/consensus/merkle.js:195-234 | there an accepted value is the padded leaf at the index exactly when it is 32 bytes long |
| `RawBytes.ResizedLeafIsAccepted` | src/consensus/merkle.js:226-234 | for every tree with a level, every index and length up to 64 other than 32, a value the tree does not hold is accepted |
| `RawBytes.RawClientExactly` | src/http/proof_server.js:15-21 | on bytes, the two checks of a served proof accept 32 bytes that are no node hash exactly when they are the stored value, with sub-root, path and siblings forced; other lengths are `RawBytes.RawClientAnyLength` |
| `RawBytes.RawClientAnyLength` | src/http/proof_server.js:15-21 | for any root, path length and length of the claim: accepted exactly when sub-root, path and all siblings but the last are what is found below the root and the claim joins with the last sibling to the last pair |
| `RawBytes.RawClientOnFullPath` | src/http/proof_server.js:15-21 | on a path of three against a state's root, an accepted claim is the stored value exactly when it is 32 bytes long, and otherwise another cut of the stored pair |
| `RawBytes.RawDecompressIsBytes` | src/consensus/merkle.js:173-184 | expanding a compressed proof on bytes, with no length looked at, agrees with expanding it on terms, and throws alike |
| `RawBytes.RawClientCompressedExactly` | src/http/proof_server.js:15-21 | the client on the compressed form accepts 32 bytes that are no node hash exactly when the form expands to the tree's siblings and the rest is the tree's |
| `Descent.AcceptsExactly` | src/consensus/merkle.js:145-154 | for any root, the sparse verifier accepts exactly what walking down along the key finds |
| `Descent.FoldIsDescent` | src/consensus/merkle.js:226-234 | for any root, index and number of siblings, the fixed verifier accepts exactly what walking down by the index's low bits finds |
| `SparseMerkle.PutContents` | src/consensus/merkle.js:107-107 | a Map write replaces the value at its key, keeps all others and keeps keys distinct |
| `SparseMerkle.RemoveContents` | src/consensus/merkle.js:106-109 | a Map delete drops its key, keeps all others and keeps keys distinct |
| `SparseMerkle.RunContents` | src/consensus/merkle.js:98-117 | after any run of set and delete each key holds what its last update left |
| `SparseMerkle.RootExactly` | src/consensus/merkle.js:90-120 | two trees have one root exactly when they have the same value at every key |
| `SparseMerkle.RootBindsMap` | src/consensus/merkle.js:90-120 | where no empty leaf is stored, equal roots mean equal maps and conversely |
| `SparseMerkle.RootForgetsHistory` | src/consensus/merkle.js:98-120 | two runs that leave the same last writes have the same root, whatever their order and deletions |
| `SparseMerkle.RootRecallsLastWrites` | src/consensus/merkle.js:98-120 | runs that never store the empty leaf and reach one root agree on every key's last write |
| `SparseMerkle.VerifyCompressedSmtProof` | src/consensus/merkle.js:185-187 | the compressed verifier gives the verdict on the expanded proof, or throws where expanding throws |
| `SparseMerkle.CompressedAgrees` | src/consensus/merkle.js:161-187 | a proof and its encoding get the same verdict against any root |
| `SparseMerkle.CompressedVerifyExactly` | src/consensus/merkle.js:173-187 | a compressed proof is accepted exactly when it expands to the tree's proof and claims the tree's value |
| `CompressedProof.Compress` | src/consensus/merkle.js:161-172 | the bitmap buffer ends up marking exactly the non-empty siblings, listed in order; it throws exactly on fewer than 256 siblings |
| `CompressedProof.OrBitMarks` | src/consensus/merkle.js:166-167 | or-ing one mask into the bitmap sets that bit of the 256 and no other |
| `CompressedProof.BitsReadAsPath` | src/consensus/merkle.js:173-182 | a bitmap's bits are read as a key's are, most significant first, and as zero past its end |
| `CompressedProof.DecompressProof` | src/consensus/merkle.js:173-184 | the reader fills all 256 slots from the bitmap, and throws exactly when marked and listed siblings differ in number |
| `CompressedProof.DecompressInvertsCompress` | src/consensus/merkle.js:161-184 | decompressing an encoding gives the sibling list back |
| `CompressedProof.EncodingUnique` | src/consensus/merkle.js:161-172 | a sibling list has one encoding |
| `CompressedProof.CompressInvertsDecompress` | src/consensus/merkle.js:161-184 | re-encoding a readable compressed proof gives it back exactly when its bitmap has 32 bytes and it lists no sibling a clear bit would have given |
| `ProofServer.DescendStore` | src/http/proof_server.js:66-80 | one row per level gives the siblings and the end node of the walk, empty constants below a missing row |
| `ProofServer.ServeProof` | src/http/proof_server.js:85-94 | the served proof carries the walk's siblings and their encoding, and null where the walk ends on the empty leaf |
| `ProofServer.ServedProofExactly` | src/http/proof_server.js:66-94 | the served proof verifies against the root exactly when no row of a non-empty node on the path was missing |
| `ProofServer.ServedProofIsTheTrees` | src/http/proof_server.js:82-94 | against a tree's root it is the tree's own proof in exactly those cases |
| `ProofServer.FullStoreServesTheTree` | src/http/proof_server.js:64-94 | a store with every non-empty inner node serves every key the proof and value of the in-memory tree |
| `ProofServer.MissingRootReadsAsAbsence` | src/http/proof_server.js:73-79 | without the root's row every key is served as absent, and the proof fails unless the tree is empty |
| `FixedMerkle.NextPow2` | src/consensus/merkle.js:193-193 | the least power of two that is at least n |
| `FixedMerkle.FixedMerkleRoot` | src/consensus/merkle.js:195-206 | the loops compute the root of the leaves padded with the empty leaf, and the empty leaf for no leaves |
| `FixedMerkle.ReduceIsTopDown` | src/consensus/merkle.js:200-205 | hashing layer by layer builds the balanced tree that halving describes |
| `FixedMerkle.FixedMerkleProof` | src/consensus/merkle.js:209-225 | it throws exactly on an index out of range, and otherwise its proof holds one sibling a level and verifies |
| `FixedMerkle.VerifyFixedMerkleProof` | src/consensus/merkle.js:226-234 | the loop accepts exactly when folding the siblings by the index bits reaches the root |
| `FixedMerkle.FoldVerifiesExactly` | src/consensus/merkle.js:195-234 | for any index and any number of siblings up to the height, which value and siblings are accepted: those of the node at the index's low bits in the layer that far below the root |
| `FixedMerkle.FullProofExactly` | src/consensus/merkle.js:195-234 | with tree-height siblings and an index in range, only the padded leaf at that index with its own path is accepted |
| `FixedMerkle.LongProofExactly` | src/consensus/merkle.js:226-234 | with more siblings, accepted exactly when the low ones climb to a padded leaf and the rest are its path |
| `FixedMerkle.ShortProofAcceptsInnerNode` | src/consensus/merkle.js:226-234 | a proof cut short is accepted for an inner node that is no leaf |
| `FixedMerkle.RootBindsLeaves` | src/consensus/merkle.js:195-206 | vectors of one padded width have the same root exactly when they are equal after padding |
| `Amounts.CanonicalKeepsValue` | src/consensus/merkle/primitives.js:86-94 | an accepted amount's text has no redundant leading zero and exactly eighteen digits, and keeps the value |
| `Amounts.AcceptedExactly` | src/consensus/merkle/primitives.js:86-89 | accepted are exactly digits, or digits, a point and one to eighteen digits, with blanks around |
| `Amounts.SpelledIsAccepted` | src/consensus/merkle/primitives.js:86-94 | and such a text is worth what it spells |
| `Amounts.CanonicalUnique` | src/consensus/merkle/primitives.js:86-94 | one value has one canonical text |
| `Amounts.CanonicalTwice` | src/consensus/merkle/primitives.js:86-94 | canonical text is accepted and is a fixed point |
| `Amounts.FormatIsCanonical` | src/consensus/merkle.js:73-77 | the text a running total is given is the canonical text of exactly that total |
| `Amounts.SumCanonicalAmounts` | src/consensus/merkle.js:67-78 | it throws exactly when an amount is refused, and otherwise gives the canonical text of the true sum |
| `Amounts.SumForgetsOrder` | src/consensus/merkle.js:64-78 | the outcome does not depend on the order of the list |
| `StateCommitment.JoinFieldsExactly` | src/consensus/merkle/primitives.js:100-109 | the 0x00 join tells accepted field lists apart, but for no field and one empty field |
| `StateCommitment.KeyPreimageExactly` | src/consensus/merkle/primitives.js:114-147 | keys have one digest input exactly when they are the same key of the same kind |
| `StateCommitment.KeyInFull` | src/consensus/merkle/primitives.js:114-147 | the digest input of each kind of key written out, tag and fields in their order |
| `StateCommitment.LeafInFull` | src/consensus/merkle.js:58-63 | the bytes under each kind of leaf written out |
| `StateCommitment.LeafExactly` | src/consensus/merkle.js:58-63 | leaves are equal exactly when kind, amount as a number and stake source are |
| `StateCommitment.StateRoot` | src/consensus/merkle.js:243-246 | the state root is the fixed root over five named sub-roots, the empty tree's root for an absent one |
| `StateCommitment.StateRootInFull` | src/consensus/merkle.js:241-246 | the state root as a term over the five sub-roots in their order and three empty leaves |
| `StateCommitment.StateRootProof` | src/consensus/merkle.js:248-253 | it throws exactly on an unknown name, and otherwise the three-sibling path verifies at the name's slot |
| `StateCommitment.StateProofExactly` | src/consensus/merkle.js:241-253 | at a name's slot, three siblings reach the state root for that sub-root and no other value |
| `StateCommitment.ClientIsDescent` | src/http/proof_server.js:15-21 | for any root and any path length, the two checks of a served proof together walk down by the slot's bits and then by the key's |
| `StateCommitment.PathHasThree` | src/http/proof_server.js:15-21 | against a state whose trees store no node hash, an accepted value that is no node hash came with exactly three path siblings, and none came with more |
| `StateCommitment.ClientExactly` | src/http/proof_server.js:15-21 | the two checks, with no check of the path's length, accept a value that is no node hash exactly when it is the sub-tree's own at the key, with its one path and one sibling list |
| `StateCommitment.NodeClaimOnlyOnShortPath` | src/consensus/merkle.js:226-234 | a node hash is accepted as a value only on a path cut short, and is never the stored one |
| `StateCommitment.InnerNodeClaimIsAccepted` | src/consensus/merkle.js:226-234 | under balances and stakes, for every state and key, such a claim is accepted |
| `StateCommitment.ClientLearnsTheAmount` | src/http/proof_server/proofs.js:109-141 | a client that accepts a leaf built from an amount, on a path of any length, has the stored amount, kind and source |
| `StakeQuorum.IndexStakeSources` | src/consensus/stake_weighted_quorum.js:103-127 | the loop builds the index of the row list, or refuses it |
| `StakeQuorum.WeightExactly` | src/consensus/stake_weighted_quorum.js:121-123 | a weight is exactly blanks, an optional sign, digits with at most one point and at least one digit, blanks |
| `StakeQuorum.SpelledIsWeight` | src/consensus/stake_weighted_quorum.js:56-60 | such a text is worth its digits as one number over ten to the number of fraction digits, under its sign |
| `StakeQuorum.IndexDefined` | src/consensus/stake_weighted_quorum.js:103-127 | a snapshot is refused exactly when a row has no source or a source's first weight is missing or no number |
| `StakeQuorum.IndexWeight` | src/consensus/stake_weighted_quorum.js:115-124 | a source weighs what the first row that names it says |
| `StakeQuorum.IndexKey` | src/consensus/stake_weighted_quorum.js:112-114 | a key belongs to the source of the last row that carries it |
| `StakeQuorum.SumStakeWeights` | src/consensus/stake_weighted_quorum.js:130-142 | the total over distinct sources, refused on a negative weight or a total that is not positive |
| `StakeQuorum.TotalExactly` | src/consensus/stake_weighted_quorum.js:130-199 | a total is refused exactly on a truncated or malformed snapshot or a negative weight; zero is no such weight |
| `StakeQuorum.SumSignerStake` | src/consensus/stake_weighted_quorum.js:144-160 | the tally is the stake of the set of sources with a key among the signers, each once |
| `StakeQuorum.MeetsStakeThreshold` | src/consensus/stake_weighted_quorum.js:178-199 | true exactly when every guard passes and three times the signing sources' stake exceeds twice the total |
| `StakeQuorum.TotalStake` | src/consensus/stake_weighted_quorum.js:62-99 | the published total is the threshold's total, and it throws in exactly the malformed cases |
| `StakeQuorum.StakeUnion` | src/consensus/stake_weighted_quorum.js:144-160 | stake obeys inclusion and exclusion over sets of sources |
| `StakeQuorum.ClearsIsMonotone` | src/consensus/stake_weighted_quorum.js:162-199 | only the set of signing sources matters, and more of them never hurts |
| `StakeQuorum.SignersUpToCase` | src/consensus/stake_weighted_quorum.js:149-155 | signers matter only as a set of keys up to letter case |
| `StakeQuorum.NoSourceNeverClears` | src/consensus/stake_weighted_quorum.js:162-199 | signers with no source in the snapshot never clear it |
| `StakeQuorum.QuorumsOverlap` | src/consensus/stake_weighted_quorum.js:162-199 | two signer lists that clear one snapshot share sources with more than a third of its stake |
| `StakeQuorum.IndexForgetsOrder` | src/consensus/stake_weighted_quorum.js:103-127 | with one source a key and one weight a source, the index depends only on the set of rows |
| `StakeQuorum.ClearsForgetsRowOrder` | src/consensus/stake_weighted_quorum.js:162-199 | and so does the verdict, for every signer list |
| `StakeQuorum.OrderFreeExactly` | src/consensus/stake_weighted_quorum.js:103-127 | the index does not depend on the order of the rows exactly when they are consistent, or every order is refused |
| `StakeQuorum.InconsistentRowsDisagree` | src/consensus/stake_weighted_quorum.js:103-127 | a source under two weights: reordering the rows changes the verdict |
| `StakeTotal.WeightOfAmount` | src/http/proof_server/proofs.js:35-49 | a weight text that is also an accepted amount is worth the same read as a weight and as an amount |
| `StakeTotal.ExactStakeTotal` | src/http/proof_server/proofs.js:41-49 | the served total throws exactly where the quorum's total does or a first weight is no plain amount, and otherwise is the canonical text of the quorum's total |
| `StakeTotal.SumIsStake` | src/http/proof_server/proofs.js:43-48 | the true sum of each source's first weight is the stake of all sources |
| `StakeTotal.TotalsAgree` | src/http/proof_server/proofs.js:35-49 | two snapshots are served one total text exactly when the quorum divides by one total |
| `StakeClient.ProvenMember` | src/consensus/merkle.js:49-60 | a member leaf proven against the state root has the source and the weight the snapshot gives that key; of the tree only the leaves under the snapshot's keys, the total and the keys asked about are spoken of |
| `StakeClient.ProvenTotal` | src/consensus/merkle.js:55-63 | a proven total leaf is the snapshot's total stake, and positive |
| `StakeClient.TallyIsStake` | src/consensus/merkle.js:50-53 | weights counted once a source add up to the stake of the sources |
| `StakeClient.SameSources` | src/consensus/merkle.js:50-55 | the sources named by proven leaves are those the quorum counts for the same signers |
| `StakeClient.ClientQuorumExactly` | src/consensus/merkle.js:49-56 | 3 times the proven tally exceeds twice the proven total exactly when the committed snapshot clears for those signers, whatever validators are left out |
| `StakeClient.ClientQuorumHolds` | src/consensus/merkle.js:49-56 | and then it clears for every signer list that includes them |
| `SigningString.PrefixNamesKey` | src/consensus/equivocation_header.js:67-85 | a wrapped text starts with a clear key's prefix exactly when it was built for that key |
| `SigningString.TrailingBarBreaksPrefix` | src/consensus/equivocation_header.js:73-78 | a key that ends in a bar shares the prefix of a shorter key |
| `SigningString.DoubleBarBreaksPrefix` | src/consensus/equivocation_header.js:73-78 | a key with a double bar inside shares the prefix of a text built for the clear key cut there |
| `SigningString.ClearKeysExactly` | src/consensus/equivocation_header.js:67-85 | matching by prefix names the key, over all clear keys and contents, exactly when the key has no double bar and no bar at its end |
| `SigningString.SupersedeSuffix` | src/explorer/supersede_suffix.js:25-40 | it throws exactly unless no field is there, or both are, a non-negative safe integer and 64 hex characters |
| `SigningString.SupersedeExactly` | src/explorer/supersede_suffix.js:25-40 | the same in plain terms: no field, or a number below 2^53 and 64 characters among the hex digits |
| `SigningString.TextIsJoin` | src/explorer/proofs.js:335-350 | in every shape the text is the bar join of its header, base, root and supersession fields |
| `SigningString.TextInFull` | src/explorer/proofs.js:335-350 | the text written out: header, ten columns, roots and supersession, each where its flag day and the row have them |
| `SigningString.TextExactly` | src/explorer/proofs.js:335-350 | over bar-free columns two texts are equal exactly when shape, all ten base fields, roots and supersession fields are |
| `SigningString.SameTextSameColumns` | src/explorer/proofs.js:335-350 | equal texts agree on every column the gates append, digests up to letter case |
| `SigningString.OneSidedFields` | src/explorer/proofs.js:335-350 | a clean row's text, read as at least as many fields by any other row, is the same fields |
| `SigningString.OneSidedExactly` | src/explorer/proofs.js:335-350 | a clean row's text is no other row's, clean or not, exactly when it carries no root and no supersession field |
| `SigningString.FoldedTextIsSame` | src/explorer/proofs.js:339-345 | appended fields read the same as bars in the snapshot column of a row without them |
| `SigningString.BareTextExactly` | src/explorer/proofs.js:335-338 | below every flag day a row's text is no other row's exactly when no column of it holds a bar |
| `SigningString.BarInColumnCollides` | src/explorer/proofs.js:336-338 | a bar in a column gives two different rows one text |
| `SigningString.CheckpointKeyIsClear` | src/explorer/proofs.js:346-348 | a round with non-empty bar-free columns has a key the prefix test can tell apart |
| `SigningString.TextNamesRound` | src/explorer/proofs.js:346-349 | a wrapped text starts with the prefix of its own round and of no other |
| `Checkpoint.CountCheckpointSignatures` | src/explorer/proofs.js:206-227 | counts, without repeats, exactly the qualified keys with some entry that verifies, whatever the order and the bad entries before it |
| `Checkpoint.SignerExactly` | src/explorer/proofs.js:215-226 | a key counts exactly where it is qualified and some entry of a readable column holds a signature that verifies under it |
| `Checkpoint.CheckpointVerifyResult` | src/explorer/proofs.js:157-200 | verified exactly when no committed field is missing, no supersession is early and the regime's quorum is met; the served fields agree |
| `Checkpoint.VerifiedExactly` | src/explorer/proofs.js:170-182 | a row is verified exactly when enough signed its text and the text changes if the roots are taken out (past their flag day, and no root empty) and if any supersession field is |
| `Checkpoint.CommitmentMissingExactly` | src/explorer/proofs.js:174-176 | a commitment is missing exactly past the flag day, where the text has no roots or an empty one |
| `Checkpoint.LegacyRowsIgnoreRoots` | src/explorer/proofs.js:174-182 | below it the four committed columns change neither text nor verdict, and a row without supersession fields is verified exactly when enough signed |
| `Checkpoint.VerifiedTextCommits` | src/explorer/proofs.js:174-182 | past it a verified row's text carries both roots, neither empty, and both versions |
| `Checkpoint.CountVerdictExactly` | src/explorer/proofs.js:158-182 | in the count regime enough means more than half of the qualified keys and more than twice a third of all but one |
| `Checkpoint.WeightedVerdictExactly` | src/explorer/proofs.js:180-182 | in the weighted regime enough means that the rows have an index, no weight is negative and the sources that validly signed hold more than two thirds of a positive total |
| `Checkpoint.QuorumIsLeast` | src/explorer/proofs.js:159-159 | the quorum is the least number of keys that is more than half and more than twice the faulty ones |
| `Checkpoint.ClearsSetMeans` | src/explorer/proofs.js:180-182 | the stake verdict is one of the set of signers, not of their listing |
| `Checkpoint.ValidatorSet` | src/explorer/proofs.js:240-246 | one entry a row: the key in lower case, the amount as it is and missing where it is missing, a missing source blank |
| `Checkpoint.MissingAmountFailsClosed` | src/explorer/proofs.js:229-246 | where a source is first listed without an amount, nothing verifies by weight |
| `Checkpoint.QuorumReachable` | src/explorer/proofs.js:159-159 | the count quorum never exceeds the keys left when a third are faulty |
| `Checkpoint.QuorumIntersection` | src/explorer/proofs.js:159-159 | over sets of keys: any two count quorums share a key, and all of them share more than the faulty number exactly when n is 1 modulo 3 or 2, 3 or 6 |
| `Checkpoint.CountedSafety` | src/explorer/proofs.js:157-227 | two texts verified over one snapshot in the count regime: a qualified key validly signed both, and at least 2q-n did |
| `Checkpoint.FaultyKeysMaySignBoth` | src/explorer/proofs.js:157-227 | for every other n, and any two texts, two signature columns that are both verified over one snapshot and share no more signers than may be faulty |
| `Checkpoint.WeightedSafety` | src/explorer/proofs.js:157-227 | in the weighted regime the sources that validly signed both hold more than a third of all stake |
| `Checkpoint.SignersHaveSources` | src/explorer/proofs.js:158-182 | every counted signer has a source in the served snapshot |
| `Checkpoint.ConflictingCheckpointsAreProvable` | src/explorer/proofs.js:157-350 | two verified checkpoints of one round that differ in anything they sign leave more than a third of the stake with valid signatures on two different texts under one prefix |
| `LightClient.RootBindsValue` | src/http/proof_server.js:15-21 | any root, honest or not, has at most one value for a key under a name on paths of one length, with one path and one sibling list |
| `LightClient.StateRootBindsValue` | src/http/proof_server.js:15-21 | a state's root has at most one on paths of any lengths, among values that are no node hash |
| `LightClient.DifferentValuesAreProvable` | src/explorer/proofs.js:157-350 | two accepted proofs of different values for one key, against the state roots of two verified weighted checkpoints of one round, leave more than a third of the stake with valid signatures on two different texts under one prefix |
| `JsonValue.SortedUnique` | src/coins/index.js:278-278 | sorting by distinct keys leaves one order |
| `JsonValue.SameExactly` | src/coins/index.js:275-280 | sameness up to key order is equality of normal forms |
| `CanonicalJson.NormText` | src/coins/index.js:275-280 | a value prints as its normal form does |
| `JsonValue.NumberIsValid` | src/coins/index.js:276-276 | every number text, with or without sign, fraction and exponent, is one the printer's laws cover |
| `CanonicalJson.EscapeInFull` | src/coins/index.js:276-279 | one character inside a string: quote and backslash behind a backslash, five control characters by letter, the others by four small hex digits, the rest as they are |
| `CanonicalJson.ReadBack` | src/coins/index.js:275-280 | a reader of RFC 8259 text recovers every printed value up to key order |
| `CanonicalJson.PrintedKeysAscend` | src/coins/index.js:278-279 | in the printed text the keys of every object ascend, at every depth: where two first differ the earlier ends or has the lower character |
| `StringOrder.LessExactly` | src/coins/index.js:278-278 | the order of the keys, character by character |
| `CanonicalJson.TextExactly` | src/coins/index.js:273-280 | two values print alike exactly when they are the same up to key order |
| `CanonicalJson.PlainTextExactly` | src/coins/index.js:273-280 | two values without a non-finite number and without an array of one undefined print alike exactly when they are equal but for the order of object keys |
| `JsonValue.PlainExactly` | src/coins/index.js:275-280 | a value is plain exactly when it holds no non-finite number and no array of one undefined, at any depth |
| `CanonicalJson.UndefinedLeavesNoTrace` | src/coins/index.js:277-277 | an array of one undefined prints as the empty array |
| `CanonicalJson.NonFiniteReadsAsNull` | src/coins/index.js:276-276 | NaN and the infinities print as null does, wherever they stand in an array |
| `ConsensusPin.CollectAddresses` | src/coins/index.js:299-302 | the loop computes the consensus addresses that `ConsensusPin.AddressesKept` describes |
| `ConsensusPin.AddressesKept` | src/coins/index.js:299-302 | kept are, in order and each once, exactly the entries under no display-only role |
| `ConsensusPin.CollectPlain` | src/coins/index.js:84-89 | the loop computes the plain fields that `ConsensusPin.PlainFieldsKept` describes |
| `ConsensusPin.PlainFieldsKept` | src/coins/index.js:84-89 | kept are, in order and each once, exactly the fields whose name has no dollar sign in front |
| `ConsensusPin.SubsetNamesDistinct` | src/coins/index.js:304-336 | the subset never lists a name twice, whatever the file holds |
| `ConsensusPin.PinExactly` | src/coins/index.js:287-343 | two bundles have the same pin input exactly when they agree, up to key order, on the network's parameters, the address under every role not shown only, every named property, the slash block and the full-node block but for its descriptors |
| `ConsensusPin.AddressPinExactly` | src/coins/index.js:293-302 | under one bundle two address lists pin alike exactly when they differ in nothing but roles shown only |
| `AnchorPages.CutOnActionBoundary` | src/federation/anchor_confirmations.js:86-98 | the cut page ends before the probe's action, or is kept whole where it is all one action |
| `AnchorPages.BuildResponse` | src/federation/anchor_confirmations.js:104-118 | the response holds the kept rows, reports truncation exactly past the limit, and names the last kept action |
| `AnchorPages.CursorAdvances` | src/federation/anchor_confirmations.js:104-118 | the cursor strictly increases and fewer rows are left, so the walk ends |
| `AnchorPages.PageDelivers` | src/federation/anchor_confirmations.js:83-118 | a page and what lies past its cursor together are the rows within the first twenty of their action |
| `AnchorPages.WalkDelivers` | src/db/federation_sql.js:130-143 | following the cursor delivers, once each and in order, exactly those rows |
| `AnchorPages.WalkIsComplete` | src/federation/anchor_confirmations.js:83-118 | the walk delivers every row exactly when no action has more rows than the limit |
| `AnchorPages.PagesSeparateActions` | src/federation/anchor_confirmations.js:83-98 | no action is split: a row of a page is of an earlier action than any row of a later page |
| `PooledQuery.WaitKept` | src/db/connection.js:90-115 | a race once settled keeps its outcome whatever happens next |
| `PooledQuery.DeadlineRace.constructor` | src/db/connection.js:91-99 | a new race is unsettled with its timer armed |
| `PooledQuery.DeadlineRace.Timer` | src/db/connection.js:94-99 | the timer settles only an unsettled race, and only then runs its hook |
| `PooledQuery.DeadlineRace.WorkResolved` | src/db/connection.js:100-107 | a value settles only an unsettled race and disarms the timer; a late one runs the late hook |
| `PooledQuery.DeadlineRace.WorkRejected` | src/db/connection.js:108-113 | a rejection settles only an unsettled race and disarms the timer |
| `PooledQuery.RunInv` | src/db/connection.js:242-292 | every state of every interleaving keeps control and conservation |
| `PooledQuery.NoConnectionLeaks` | src/db/connection.js:242-292 | once a call has ended, each connection ever handed to it is released or destroyed exactly once; released exactly when it ran the query and the query was not cut off |
| `PooledQuery.EveryWaitSettlesOnce` | src/db/connection.js:90-115 | each race is settled exactly once as soon as one side has acted |
| `PooledQuery.AtMostFiveAttempts` | src/db/connection.js:251-274 | a connection is asked for at most five times |
| `PooledQuery.AcquireExactly` | src/db/connection.js:251-274 | an answered request leads to the query, to a sleep, or to failure: to failure exactly on the deadline or the fifth rejection |
| `PooledQuery.EndsExactly` | src/db/connection.js:251-292 | a call ends with a result exactly when its query answered in time, and without a connection exactly on the deadline or the fifth rejection |
| `PooledQuery.NeverStuck` | src/db/connection.js:242-292 | a call that has not ended always has a next step |
| `SimulationSlots.SlotPool.constructor` | src/contract/vm_query.js:280-302 | at first nothing is outstanding and the books are empty |
| `SimulationSlots.SlotPool.ReserveSlot` | src/contract/vm_query.js:282-292 | takes one slot of each kind or refuses and takes none; caps stay kept |
| `SimulationSlots.SlotPool.ReleaseSlot` | src/contract/vm_query.js:295-302 | gives back exactly one reservation, dropping a client's entry at its last |
| `SimulationSlots.ReserveBalances` | src/contract/vm_query.js:282-292 | a granted reserve keeps the books equal to the reservations and within both caps |
| `SimulationSlots.ReleaseBalances` | src/contract/vm_query.js:295-302 | a release keeps the books equal to the reservations left |
| `SimulationSlots.RunBalances` | src/contract/vm_query.js:349-387 | in every reachable state the counts are the running simulations' reservations, entries absent at zero, no cap exceeded |
| `SimulationSlots.SharesAreKept` | src/contract/vm_query.js:282-292 | in every run no address has more simulations running than its share, and all together no more than the pool |
| `SimulationSlots.AdmittedExactly` | src/contract/vm_query.js:282-292 | in every reachable state a simulation is admitted exactly when the pool has a slot left and, if it came with an address, that address has one of its share left |
| `SimulationSlots.UnsetLimits` | src/contract/vm_query.js:198-208 | with neither limit set: four at once, two of one address |
| `SimulationSlots.LimitsExactly` | src/contract/vm_query.js:198-208 | the pool is four unless set to a number other than zero, the share half the pool and at least one unless set to a positive number |
| `SimulationSlots.NoClientHoldsThePool` | src/contract/vm_query.js:202-208 | with the default share and a pool of two or more, the simulations one address began are fewer than the pool |
| `SimulationSlots.PoolOfOneIsOneClients` | src/contract/vm_query.js:198-208 | with a pool of one the default share is the pool |
| `SimulationSlots.NothingHeldBack` | src/contract/vm_query.js:354-386 | when all have ended the books are empty again |
| `BatchReads.DedupMeaning` | src/explorer/batch.js:139-146 | deduplication loses and adds nothing, repeats nothing, and orders by first occurrence |
| `BatchReads.ParseBatchAddresses` | src/explorer/batch.js:131-147 | which bodies are refused and how, in the order of the checks, the cap counted before deduplication and the first bad entry echoed |
| `BatchReads.AddressLikeExactly` | src/lib/utility.js:315-319 | accepted are letters and digits, or C:, letters and digits, a colon and digits; 128 characters at most |
| `BatchReads.BatchEntry` | src/explorer/batch.js:166-190 | each part's value or null, and the first failure in part order |
| `BatchReads.StepInv` | src/explorer/batch.js:232-243 | every step keeps each index below the cursor finished or in flight exactly once |
| `BatchReads.RunInv` | src/explorer/batch.js:232-248 | and so does every interleaving of the workers |
| `BatchReads.NeverTwice` | src/explorer/batch.js:232-248 | at most min(8, n) reads in flight; no index twice, none outside the list |
| `BatchReads.AllDoneOnce` | src/explorer/batch.js:232-248 | when all workers have returned every index was finished exactly once |
| `BatchReads.PoolTerminates` | src/explorer/batch.js:235-248 | until then some worker can go on, and no run exceeds two steps an index and one a worker |
| `BatchReads.BodyForgetsInterleaving` | src/explorer/batch.js:241-255 | the body lists the addresses in the caller's order, each with the answer of the one read made for it, whatever order the reads complete in and whatever each comes back with |
| `BatchReads.SameBody` | src/explorer/batch.js:250-255 | where answers depend on the address alone, any two runs give one body |
| `LedgerEffects.GroupRows` | src/action-detail/shared.js:179-184 | grouping gives each action its rows in order and no entry where it has none |
| `LedgerEffects.SliceIsRead` | src/db/action_detail/shared_sql.js:62-81 | a grouped slice of the page read is an answer the single read could have given |
| `LedgerEffects.BatchEqualsSingle` | src/db/action_detail/shared_sql.js:41-81 | without ties it is the answer, rows and order |
| `LedgerEffects.ReadsAgreeExactly` | src/action-detail/shared.js:163-167 | under any transitive order the two reads are bound to agree exactly when it ties no two different rows of the action |
| `LedgerEffects.TiedExactly` | src/db/action_detail/shared_sql.js:54-57 | the code's ORDER BY ranks two effects alike exactly on equal tick, equal decimal amount and equal address, nulls included |
| `LedgerEffects.LedgerLeExactly` | src/db/action_detail/shared_sql.js:54-57 | the ORDER BY lists the lower tick first, of one tick the larger amount, of both the lower address, nulls lowest |
| `LedgerEffects.CastMeaning` | src/db/action_detail/shared_sql.js:56-56 | up to 46 digits, and after a point up to eighteen more, are cast to the number they spell, and with a minus before them to its negative |
| `LedgerEffects.CastOtherwise` | src/db/action_detail/shared_sql.js:56-56 | of any other text nothing is assumed |
| `LedgerEffects.LedgerReadsAgreeExactly` | src/db/action_detail/shared_sql.js:41-81 | under it the two reads are bound to agree exactly when no two different effects of the action are equal in those three |
| `LedgerEffects.OneAmountTies` | src/db/action_detail/shared_sql.js:54-57 | an amount written 1.0 and 1.00 ties, whatever the collation |
| `LedgerEffects.TiedRowsMayDisagree` | src/db/action_detail/shared_sql.js:41-81 | two different tied rows may come back one way in the page read and the other way in the single read |
| `LedgerEffects.PrefetchLedgerEffects` | src/action-detail/shared.js:170-187 | each table's map holds the grouped rows of its one read, and no read is made for an empty index set |
| `LedgerEffects.AttachLedgerEffects` | src/action-detail/shared.js:136-155 | each wanted table gets its preloaded rows, or its own query's where there is no preload |
| `LedgerEffects.AttachedMeaning` | src/action-detail/shared.js:136-155 | what is left under every key: the table's rows where wanted and non-empty, else what was there |
| `LedgerEffects.AttachedInFull` | src/action-detail/shared.js:130-155 | the whole attach: the credits, debits and escrows listings that no flag refuses and that are not empty, and nothing else changed |
| `LedgerEffects.PreloadExactly` | src/action-detail/shared.js:140-149 | a preloaded table equals its query exactly when the prefetch covered the action or there is nothing to find |
| `LedgerEffects.PreloadChangesNothing` | src/action-detail/shared.js:130-187 | for every covered action the data come out the same with and without the preload |
| `HubConnector.RotationIsPermutation` | src/connectors/hub.js:95-96 | a pass starts at the last good endpoint and tries none twice |
| `HubConnector.OffsetOf` | src/connectors/hub.js:95-96 | a full pass reaches every endpoint |
| `HubConnector.Connector.constructor` | src/connectors/hub.js:145-170 | a new connector starts at its first endpoint |
| `HubConnector.Connector.EndpointPass` | src/connectors/hub.js:89-143 | stops at the first healthy result and remembers its endpoint, or records every failure of the pass |
| `HubConnector.Connector.Call` | src/connectors/hub.js:220-260 | result, sticky index, diagnostics and time slept of a whole call |
| `HubConnector.PassExactly` | src/connectors/hub.js:89-113 | a pass answers exactly when some endpoint does, and is definitive exactly when all give a protocol error |
| `HubConnector.CallEndsWhere` | src/connectors/hub.js:231-255 | a call ends in the first pass that answers or is definitive, or the last; after k-1 failed passes it has slept delay times 2^(k-1) less one delay |
| `HubConnector.FallbackExactly` | src/connectors/hub.js:221-259 | when every pass fails, a degraded body is returned exactly when some endpoint gave one |
| `HubConnector.DegradedExactly` | src/connectors/hub.js:221-259 | however a call without a healthy result ends, it returns a degraded body exactly when some endpoint gave one in a pass that was made |
| `HubConnector.LatestDegradedWins` | src/connectors/hub.js:135-143 | and the body is the latest one: of the last pass with any, the one furthest along the rotation |
| `HubConnector.FailuresAreTheLastPass` | src/connectors/hub.js:89-143 | a call leaves the failure lines of its last pass, in rotation order: of all endpoints, or of those before the healthy one |
| `HubConnector.NoAttempts` | src/connectors/hub.js:231-260 | a call with no attempt to make returns nothing and counts no endpoint as answered |
| `HubConnector.NoEndpointsCountAsAnswered` | src/connectors/hub.js:244-247 | with no endpoint the first pass counts as answered by all |

## Left out

- Hex and Buffer conversion: the letter case of a hex string, and strings that are no hex, are not modelled.
- UTF-8 and UTF-16: text is a sequence of characters; lone surrogates, the UTF-16 order of astral object keys, and `toLowerCase` beyond ASCII are not captured.
- `-0`, BigInt and cyclic values in `canonicalJson`, and objects with a `toJSON` method.
- FixedMerkle.NextPow2: does not model the 32-bit shift of `p <<= 1`, which would not end past 2^30 leaves.
- FixedMerkle.VerifyFixedMerkleProof: the index is unbounded; the 32-bit shift of the source differs only for indexes of 2^31 and more with over 32 siblings.
- SparseMerkle.SparseMerkleTree.SetLeaf: the Map is a sequence of entries in insertion order, and its hex strings are the values they spell.
- StakeQuorum.MeetsStakeThreshold: does not model rounding at 64 significant digits.
- Checkpoint.CheckpointVerifyResult: a `validator_signatures` text that parses to something other than a list is not modelled, nor are the row and text echoed in the body.
- AnchorPages.BuildResponse: null action indexes and the mapping of a row to its response fields are not modelled; neither is the logged warning.
- PooledQuery.RunInv: `doQuery` is a machine over values whose events the runtime delivers; only `settleByDeadline` is a class. Clock readings and the length of the sleep are not modelled.
- PooledQuery.NoConnectionLeaks: a pool that hands one call the same connection twice is not modelled.
- SimulationSlots.RunBalances: the limits do not change during a run.
- LedgerEffects.AttachLedgerEffects: `data` is a value returned, not an object updated in place, and rows lose the deletion of their grouping column.
- LedgerEffects.PreloadChangesNothing: the three tables do not change between the two reads.
- BatchReads.BodyForgetsInterleaving: an object's reordering of integer-like keys, the coin gate probe, the seeded first read and the canonical form of an address are not modelled.
- HubConnector.Connector.Call: one call at a time; overlapping calls re-read the sticky index during a pass. An `error` field of null, which the source reports as an unreachable endpoint, is not modelled.
- ConsensusPin.PinExactly: the two bundles are compared on one network; the hash over the text is taken to be collision free.
- StateCommitment.ClientExactly: the client is the two checks the proof server names, at the name's own slot; the SDK's verifier is not part of this model.
- RawBytes.BytesExactly: a character of a hashed text counts as one byte.
- LightClient.DifferentValuesAreProvable: the checkpoints are of the weighted regime past the commitment flag day, and where both roots are one the two paths have one length; in the count regime `Checkpoint.CountedSafety` is what is left.
- StakeClient.ClientQuorumExactly: the tree is taken to hold the leaves the comments of the merkle module describe, under lower-cased keys; the indexer that writes it is not part of this model.
- Block-content leaves, replay finality, the supersession response body and the assembly of a validator-set answer: they would add easy members or only repeat the ones here.
- SQL text other than the order and limit of the reads above, HTTP routes, headers, rate limits, websockets, the VM, configuration and logging: foreign calls and presentation.
