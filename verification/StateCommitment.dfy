/**
 What the state root commits to: keys and leaves as encoded fields, named sub-trees under one
 fixed tree, and what a light client learns from a proof that reaches the root.
 */
module StateCommitment {
  import opened Arithmetic
  import opened Wrappers
  import opened Text
  import opened MerkleHash
  import opened CompressedProof
  import opened SparseMerkle
  import opened FixedMerkle
  import opened Descent
  import Amounts

  const NUL: char := '\0'

  // ---- Encodings ----

  /** Fields joined by 0x00; None where the source throws on a field that contains one. */
  function JoinFields(parts: seq<string>): Option<string> {
    if Free(parts, NUL) then Some(Join(parts, NUL)) else None
  }

  /** The join tells any two field lists apart, except the empty list and the list of one empty field. */
  lemma JoinFieldsExactly(a: seq<string>, b: seq<string>)
    requires JoinFields(a).Some? && JoinFields(b).Some?
    ensures JoinFields(a) == JoinFields(b) <==> a == b || (a in {[], [""]} && b in {[], [""]})
  {
    var a', b' := if a == [] then [""] else a, if b == [] then [""] else b;
    assert Join([""], NUL) == "" == Join([], NUL);
    JoinInjective(a', b', NUL);
  }

  datatype StateKey =
    | Balance(chain: string, network: string, address: string, tick: string)
    | Escrow(chain: string, network: string, address: string, tick: string)
    | Stake(pubkey: string, capability: string)
    | ContractState(chain: string, network: string, contractIndex: nat, stateKey: string)

  /** The fields a key digest is taken over, its domain tag first. */
  function KeyFields(k: StateKey): seq<string> {
    match k
    case Balance(chain, network, address, tick) => ["XCHAIN_BAL", chain, network, address, tick]
    case Escrow(chain, network, address, tick) => ["XCHAIN_ESC", chain, network, address, tick]
    case Stake(pubkey, capability) => ["XCHAIN_STK", pubkey, capability]
    case ContractState(chain, network, index, stateKey) => ["XCHAIN_CST", chain, network, Decimal(index), stateKey]
  }

  lemma JoinPair(a: string, b: string)
    ensures Join([a, b], NUL) == a + "\0" + b
  {
    assert [a, b][1..] == [b];
  }

  lemma JoinTriple(a: string, b: string, c: string)
    ensures Join([a, b, c], NUL) == a + "\0" + (b + "\0" + c)
  {
    JoinPair(b, c);
    assert [a, b, c][1..] == [b, c];
  }

  lemma JoinFive(a: string, b: string, c: string, d: string, e: string)
    ensures Join([a, b, c, d, e], NUL) == a + "\0" + (b + "\0" + (c + "\0" + (d + "\0" + e)))
  {
    JoinTriple(c, d, e);
    assert [b, c, d, e][1..] == [c, d, e] && [a, b, c, d, e][1..] == [b, c, d, e];
  }

  /** The digest input of a key in full. */
  lemma KeyInFull(k: StateKey)
    requires JoinFields(KeyFields(k)).Some?
    ensures JoinFields(KeyFields(k)).value ==
            match k
            case Balance(chain, network, address, tick) =>
              "XCHAIN_BAL" + "\0" + (chain + "\0" + (network + "\0" + (address + "\0" + tick)))
            case Escrow(chain, network, address, tick) =>
              "XCHAIN_ESC" + "\0" + (chain + "\0" + (network + "\0" + (address + "\0" + tick)))
            case Stake(pubkey, capability) => "XCHAIN_STK" + "\0" + (pubkey + "\0" + capability)
            case ContractState(chain, network, index, stateKey) =>
              "XCHAIN_CST" + "\0" + (chain + "\0" + (network + "\0" + (Decimal(index) + "\0" + stateKey)))
  {
    match k
    case Balance(chain, network, address, tick) => JoinFive("XCHAIN_BAL", chain, network, address, tick);
    case Escrow(chain, network, address, tick) => JoinFive("XCHAIN_ESC", chain, network, address, tick);
    case Stake(pubkey, capability) => JoinTriple("XCHAIN_STK", pubkey, capability);
    case ContractState(chain, network, index, stateKey) => JoinFive("XCHAIN_CST", chain, network, Decimal(index), stateKey);
  }

  /** Two keys have the same digest input exactly when they are the same key, of the same kind. */
  lemma KeyPreimageExactly(a: StateKey, b: StateKey)
    requires JoinFields(KeyFields(a)).Some? && JoinFields(KeyFields(b)).Some?
    ensures JoinFields(KeyFields(a)) == JoinFields(KeyFields(b)) <==> a == b
  {
    var fa, fb := KeyFields(a), KeyFields(b);
    JoinFieldsExactly(fa, fb);
    if fa == fb {
      assert fa[0] == fb[0] && fa[1] == fb[1] && fa[2] == fb[2];
      assert "XCHAIN_BAL"[7] == 'B' && "XCHAIN_ESC"[7] == 'E' && "XCHAIN_STK"[7] == 'S' && "XCHAIN_CST"[7] == 'C';
      if !a.Stake? {
        assert fa[3] == fb[3] && fa[4] == fb[4];
      }
      if a.ContractState? {
        DecimalInjective(a.contractIndex, b.contractIndex);
      }
    }
  }

  /** The three kinds of value a leaf can commit to. */
  datatype LeafContent =
    | Amount(amount: string)
    | StakeMember(source: string, weight: string)
    | StakeTotal(total: string)

  function AmountText(c: LeafContent): string {
    match c
    case Amount(amount) => amount
    case StakeMember(_, weight) => weight
    case StakeTotal(total) => total
  }

  /** None where the source throws: a refused amount, or a source with a 0x00. */
  function LeafFields(c: LeafContent): Option<seq<string>> {
    match Amounts.CanonicalAmount(AmountText(c))
    case None => None
    case Some(t) =>
      match c
      case Amount(_) => Some([t])
      case StakeMember(source, _) => Some(["STK", source, t])
      case StakeTotal(_) => Some(["STKTOTAL", t])
  }

  function LeafFor(c: LeafContent): Option<Hash> {
    match LeafFields(c)
    case None => None
    case Some(fields) =>
      match JoinFields(fields)
      case None => None
      case Some(bytes) => Some(Leaf(bytes))
  }

  /** The bytes under a leaf in full, the amount in its canonical text. */
  lemma LeafInFull(c: LeafContent)
    requires LeafFor(c).Some?
    ensures Amounts.CanonicalAmount(AmountText(c)).Some?
    ensures
      var t := Amounts.CanonicalAmount(AmountText(c)).value;
      LeafFor(c).value ==
      match c
      case Amount(_) => Leaf(t)
      case StakeMember(source, _) => Leaf("STK" + "\0" + (source + "\0" + t))
      case StakeTotal(_) => Leaf("STKTOTAL" + "\0" + t)
  {
    var t := Amounts.CanonicalAmount(AmountText(c)).value;
    match c
    case Amount(_) =>
    case StakeMember(source, _) => JoinTriple("STK", source, t);
    case StakeTotal(_) => JoinPair("STKTOTAL", t);
  }

  lemma SameOne(t: string, u: string)
    ensures [t] == [u] <==> t == u
  {
    if [t] == [u] {
      assert [t][0] == [u][0];
    }
  }

  lemma SameTwo(tag: string, t: string, u: string)
    ensures [tag, t] == [tag, u] <==> t == u
  {
    if [tag, t] == [tag, u] {
      assert [tag, t][1] == [tag, u][1];
    }
  }

  lemma SameThree(tag: string, s: string, t: string, s': string, u: string)
    ensures [tag, s, t] == [tag, s', u] <==> s == s' && t == u
  {
    if [tag, s, t] == [tag, s', u] {
      assert [tag, s, t][1] == [tag, s', u][1] && [tag, s, t][2] == [tag, s', u][2];
    }
  }

  /**
   Two leaves are equal exactly when they commit to the same kind of value, the same amount as a
   number and, for a stake member, the same source.
   */
  lemma LeafExactly(a: LeafContent, b: LeafContent)
    requires LeafFor(a).Some? && LeafFor(b).Some?
    ensures LeafFor(a) == LeafFor(b) <==>
            && (a.Amount? <==> b.Amount?) && (a.StakeMember? <==> b.StakeMember?)
            && (a.StakeMember? ==> a.source == b.source)
            && Amounts.Value(AmountText(a)) == Amounts.Value(AmountText(b))
  {
    var fa, fb := LeafFields(a).value, LeafFields(b).value;
    var ta, tb := Amounts.CanonicalAmount(AmountText(a)).value, Amounts.CanonicalAmount(AmountText(b)).value;
    JoinFieldsExactly(fa, fb);
    Amounts.CanonicalKeepsValue(AmountText(a));
    Amounts.CanonicalKeepsValue(AmountText(b));
    Amounts.CanonicalUnique(ta, tb);
    if a.Amount? && b.Amount? {
      SameOne(ta, tb);
    } else if a.StakeMember? && b.StakeMember? {
      SameThree("STK", a.source, ta, b.source, tb);
    } else if a.StakeTotal? && b.StakeTotal? {
      SameTwo("STKTOTAL", ta, tb);
    } else {
      assert |fa| != |fb|;
    }
  }

  // ---- The state root ----

  const STATE_SUBTREES: seq<string> :=
    ["balances_root", "stakes_root", "ownership_root", "tokens_root", "contract_state_root"]

  /** The root of a sub-tree that holds nothing, which also stands for an absent one. */
  function EmptySmtRoot(): Hash {
    Empty(SMT_DEPTH)
  }

  function SubRoot(subRoots: map<string, Hash>, name: string): Hash {
    if name in subRoots then subRoots[name] else EmptySmtRoot()
  }

  /** The sub-roots in their frozen order. */
  function StateLeaves(subRoots: map<string, Hash>): (s: seq<Hash>)
    ensures |s| == 5
  {
    [SubRoot(subRoots, "balances_root"), SubRoot(subRoots, "stakes_root"), SubRoot(subRoots, "ownership_root"),
     SubRoot(subRoots, "tokens_root"), SubRoot(subRoots, "contract_state_root")]
  }

  /** The name's position in the frozen order, or the list's length when it has none. */
  function SlotOf(name: string): (i: nat)
    ensures i <= 5
    ensures i < 5 <==> name in STATE_SUBTREES
    ensures i < 5 ==> STATE_SUBTREES[i] == name
  {
    if name == STATE_SUBTREES[0] then 0
    else if name == STATE_SUBTREES[1] then 1
    else if name == STATE_SUBTREES[2] then 2
    else if name == STATE_SUBTREES[3] then 3
    else if name == STATE_SUBTREES[4] then 4
    else 5
  }

  method StateRoot(subRoots: map<string, Hash>) returns (root: Hash)
    ensures root == RootOf(StateLeaves(subRoots))
  {
    root := FixedMerkleRoot(StateLeaves(subRoots));
  }

  /** None where the source throws on an unknown name. */
  method StateRootProof(subRoots: map<string, Hash>, name: string) returns (r: Option<FixedProof>)
    ensures r.Some? <==> name in STATE_SUBTREES
    ensures r.Some? ==>
              && r.value.index == SlotOf(name) && |r.value.siblings| == 3
              && Fold(SubRoot(subRoots, name), r.value.index, r.value.siblings) == RootOf(StateLeaves(subRoots))
  {
    var slot := SlotOf(name);
    if slot == 5 {
      return None;
    }
    r := FixedMerkleProof(StateLeaves(subRoots), slot);
    HeightOfFive();
    assert StateLeaves(subRoots)[slot] == SubRoot(subRoots, name);
  }

  lemma HeightOfFive()
    ensures Height(5) == 3 && Pow2(3) == 8
  {
    assert Pow2(3) == 8 && Pow2(2) == 4;
  }

  lemma {:induction false} ReduceEight(s: seq<Hash>)
    requires |s| == 8
    ensures Pow2(3) == 8
    ensures Reduce(s, 3) == Node(Node(Node(s[0], s[1]), Node(s[2], s[3])), Node(Node(s[4], s[5]), Node(s[6], s[7])))
  {
    assert Pow2(3) == 8 && Pow2(2) == 4 && Pow2(1) == 2;
    var two := Above(s);
    var one := Above(two);
    assert Above(one)[0] == Node(one[0], one[1]);
    assert Reduce(s, 3) == Reduce(two, 2) == Reduce(one, 1) == Reduce(Above(one), 0);
  }

  /** The state root in full: the five sub-roots in their order, and three empty leaves. */
  lemma StateRootInFull(balances: Hash, stakes: Hash, ownership: Hash, tokens: Hash, contracts: Hash)
    ensures
      var m := map["balances_root" := balances, "stakes_root" := stakes, "ownership_root" := ownership,
                   "tokens_root" := tokens, "contract_state_root" := contracts];
      RootOf(StateLeaves(m)) ==
      Node(Node(Node(balances, stakes), Node(ownership, tokens)),
           Node(Node(contracts, EmptyLeaf), Node(EmptyLeaf, EmptyLeaf)))
  {
    var m := map["balances_root" := balances, "stakes_root" := stakes, "ownership_root" := ownership,
                 "tokens_root" := tokens, "contract_state_root" := contracts];
    HeightOfFive();
    ReduceEight(Padded(StateLeaves(m)));
  }

  /** A three-sibling path at a name's slot reaches the state root for that sub-root and no other value. */
  lemma StateProofExactly(subRoots: map<string, Hash>, name: string, claimed: Hash, siblings: seq<Hash>)
    requires name in STATE_SUBTREES && |siblings| == 3
    ensures Fold(claimed, SlotOf(name), siblings) == RootOf(StateLeaves(subRoots)) <==>
            claimed == SubRoot(subRoots, name) && siblings == PathOf(Padded(StateLeaves(subRoots)), SlotOf(name), Height(5))
  {
    HeightOfFive();
    FullProofExactly(StateLeaves(subRoots), claimed, SlotOf(name), siblings);
  }

  // ---- What a light client learns ----

  /** The checks of a proof against a state root: the sub-root is committed, and holds the claim. */
  predicate ClientAccepts(root: Hash, name: string, subRoot: Hash, path: seq<Hash>, key: Key, value: Option<Hash>,
                          c: Compressed)
  {
    Fold(subRoot, SlotOf(name), path) == root && CompressedVerdict(subRoot, key, value, c) == Some(true)
  }

  /** Both checks together walk down from the state root: by the slot's bits, then by the key's. For any root. */
  lemma ClientIsDescent(root: Hash, name: string, subRoot: Hash, path: seq<Hash>, key: Key, value: Option<Hash>,
                        c: Compressed)
    ensures
      var bits := IndexBits(SlotOf(name), |path|);
      ClientAccepts(root, name, subRoot, path, key, value, c) <==>
      && Down(root, bits) == Some(subRoot) && PassedBy(root, bits) == Reversed(path)
      && Down(subRoot, Path(key)) == Some(Claimed(value)) && Decompress(c) == Some(PassedBy(subRoot, Path(key)))
  {
    FoldIsDescent(subRoot, SlotOf(name), path, root);
    if Decompress(c).Some? {
      AcceptsExactly(subRoot, key, value, Decompress(c).value);
    }
  }

  /** A state: a sparse tree under each name, an absent one holding nothing. */
  type State = map<string, seq<Entry>>

  function TreeOf(state: State, name: string): seq<Entry> {
    if name in state then state[name] else []
  }

  function SubRoots(state: State): map<string, Hash> {
    map name | name in state :: SmtNode(state[name], 0)
  }

  ghost function RootOfState(state: State): Hash {
    RootOf(StateLeaves(SubRoots(state)))
  }

  /** No tree of the state stores a node hash as a value; leaf hashes, foreign values and the empty leaf are all fine. */
  predicate NoNodeLeaves(state: State) {
    forall name | name in state :: NoNodeLeaf(state[name])
  }

  lemma SubRootIsTree(state: State, name: string)
    ensures SubRoot(SubRoots(state), name) == SmtNode(TreeOf(state, name), 0)
    ensures NoNodeLeaves(state) ==> Uniform(SubRoot(SubRoots(state), name), SMT_DEPTH)
  {
    if NoNodeLeaves(state) {
      RootIsUniform(TreeOf(state, name));
    }
  }

  /** The fixed tree over five values, written out. */
  lemma FiveLeafTree(leaves: seq<Hash>)
    requires |leaves| == 5
    ensures RootOf(leaves) ==
            Node(Node(Node(leaves[0], leaves[1]), Node(leaves[2], leaves[3])),
                 Node(Node(leaves[4], EmptyLeaf), Node(EmptyLeaf, EmptyLeaf)))
  {
    HeightOfFive();
    var eight := Padded(leaves);
    var four := Above(eight);
    var two := Above(four);
    assert Pow2(2) == 4 && Pow2(1) == 2;
    assert Reduce(eight, 3) == Reduce(four, 2) == Reduce(two, 1) == Reduce(Above(two), 0);
  }

  /** What stands three steps below the state root: a sub-root or padding. */
  lemma ThirdLevel(leaves: seq<Hash>, a: bool, b: bool, c: bool)
    requires |leaves| == 5
    ensures Down(RootOf(leaves), [a, b, c]).Some?
    ensures Down(RootOf(leaves), [a, b, c]).value in leaves || Down(RootOf(leaves), [a, b, c]).value == EmptyLeaf
  {
    FiveLeafTree(leaves);
    var root := RootOf(leaves);
    assert [a, b, c] == [a] + [b, c];
    DownCons(root, a, [b, c]);
    DownTwo(Half(root, a), b, c);
  }

  lemma SubRootsAreUniform(state: State, h: Hash)
    requires NoNodeLeaves(state) && h in StateLeaves(SubRoots(state))
    ensures Uniform(h, SMT_DEPTH)
  {
    SubRootIsTree(state, "balances_root");
    SubRootIsTree(state, "stakes_root");
    SubRootIsTree(state, "ownership_root");
    SubRootIsTree(state, "tokens_root");
    SubRootIsTree(state, "contract_state_root");
  }

  /** Where a walk of any length past the sub-roots ends says how long it was. */
  lemma StateDown(state: State, bits: seq<bool>)
    requires NoNodeLeaves(state) && |bits| > 3 && Down(RootOfState(state), bits).Some?
    ensures |bits| <= SMT_DEPTH + 3
    ensures |bits| == SMT_DEPTH + 3 <==> !Down(RootOfState(state), bits).value.Node?
  {
    var top, rest := bits[..3], bits[3..];
    assert bits == top + rest && top == [bits[0], bits[1], bits[2]];
    DownAppend(RootOfState(state), top, rest);
    ThirdLevel(StateLeaves(SubRoots(state)), bits[0], bits[1], bits[2]);
    WalkBelow(state, Down(RootOfState(state), top).value, rest);
  }

  lemma WalkBelow(state: State, third: Hash, rest: seq<bool>)
    requires NoNodeLeaves(state) && (third in StateLeaves(SubRoots(state)) || third == EmptyLeaf)
    requires rest != [] && Down(third, rest).Some?
    ensures |rest| <= SMT_DEPTH
    ensures |rest| == SMT_DEPTH <==> !Down(third, rest).value.Node?
  {
    if third != EmptyLeaf {
      SubRootsAreUniform(state, third);
      UniformDown(third, SMT_DEPTH, rest);
    }
  }

  /** A path of any other length than three can only be accepted with a node hash as the claimed value. */
  lemma PathHasThree(state: State, name: string, subRoot: Hash, path: seq<Hash>, key: Key, value: Option<Hash>,
                     c: Compressed)
    requires NoNodeLeaves(state) && ClientAccepts(RootOfState(state), name, subRoot, path, key, value, c)
    ensures |path| <= 3
    ensures |path| == 3 <==> !Claimed(value).Node?
  {
    var bits := IndexBits(SlotOf(name), |path|);
    ClientIsDescent(RootOfState(state), name, subRoot, path, key, value, c);
    DownAppend(RootOfState(state), bits, Path(key));
    StateDown(state, bits + Path(key));
  }

  /**
   Against a state's root a client accepts a value that is no node hash exactly when it is the
   tree's own value at the key, presented with the one path and the one sibling list there is. The
   path may have any length; that it has three siblings follows.
   */
  lemma ClientExactly(state: State, name: string, subRoot: Hash, path: seq<Hash>, key: Key, value: Option<Hash>,
                      c: Compressed)
    requires name in STATE_SUBTREES && NoNodeLeaves(state) && !Claimed(value).Node?
    ensures
      var entries := TreeOf(state, name);
      ClientAccepts(RootOfState(state), name, subRoot, path, key, value, c) <==>
      && subRoot == SmtNode(entries, 0)
      && path == PathOf(Padded(StateLeaves(SubRoots(state))), SlotOf(name), Height(5))
      && Decompress(c) == Some(Siblings(entries, Path(key)))
      && Claimed(value) == ValueAt(Contents(entries), key)
  {
    HeightOfFive();
    SubRootIsTree(state, name);
    if ClientAccepts(RootOfState(state), name, subRoot, path, key, value, c) {
      PathHasThree(state, name, subRoot, path, key, value, c);
    }
    if |path| == 3 {
      StateProofExactly(SubRoots(state), name, subRoot, path);
      CompressedVerifyExactly(TreeOf(state, name), key, value, c);
    }
  }

  /** A node hash as the claim: it is accepted only on a path cut short, and is no value of the tree. */
  lemma NodeClaimOnlyOnShortPath(state: State, name: string, subRoot: Hash, path: seq<Hash>, key: Key, value: Option<Hash>,
                                 c: Compressed)
    requires NoNodeLeaves(state) && Claimed(value).Node?
    requires ClientAccepts(RootOfState(state), name, subRoot, path, key, value, c)
    ensures |path| < 3 && Claimed(value) != ValueAt(Contents(TreeOf(state, name)), key)
  {
    PathHasThree(state, name, subRoot, path, key, value, c);
    LeafOfKey(TreeOf(state, name), key);
    assert NoNodeLeaf(TreeOf(state, name));
    LeafIsNoNode(TreeOf(state, name), Path(key));
  }

  /** The node two steps below the state root that a slot cut to two bits names. */
  lemma SecondLevel(leaves: seq<Hash>, name: string)
    requires |leaves| == 5 && name in {"balances_root", "stakes_root"}
    ensures
      var node := Down(RootOf(leaves), IndexBits(SlotOf(name), 2));
      node == Some(if name == "balances_root" then Node(leaves[0], leaves[1]) else Node(leaves[2], leaves[3]))
  {
    FiveLeafTree(leaves);
    var slot := SlotOf(name);
    assert slot == if name == "balances_root" then 0 else 1;
    assert IndexBits(slot / 2 / 2, 0) == [];
    assert IndexBits(slot / 2, 1) == [false];
    assert IndexBits(slot, 2) == [false, slot % 2 != 0];
    DownTwo(RootOf(leaves), false, slot % 2 != 0);
  }

  /** From a node over two sub-roots, 256 steps of a key end one level above the values. */
  lemma OneLevelUp(state: State, node: Hash, path: seq<bool>)
    requires NoNodeLeaves(state) && |path| == SMT_DEPTH && node.Node?
    requires node.left in StateLeaves(SubRoots(state)) && node.right in StateLeaves(SubRoots(state))
    ensures Down(node, path).Some? && Down(node, path).value.Node?
  {
    var rest := path[1..];
    assert path == [path[0]] + rest;
    DownCons(node, path[0], rest);
    SubRootsAreUniform(state, Half(node, path[0]));
    UniformDown(Half(node, path[0]), SMT_DEPTH, rest);
  }

  /** And on such a path it is: under balances and stakes, for every key, one level up passes for a value. */
  lemma InnerNodeClaimIsAccepted(state: State, name: string, key: Key)
    returns (subRoot: Hash, path: seq<Hash>, claim: Hash, siblings: seq<Hash>)
    requires NoNodeLeaves(state) && name in {"balances_root", "stakes_root"}
    ensures claim.Node? && |siblings| == SMT_DEPTH
    ensures forall c | Represents(c, siblings) ::
              ClientAccepts(RootOfState(state), name, subRoot, path, key, Some(claim), c)
  {
    var root, bits := RootOfState(state), IndexBits(SlotOf(name), 2);
    SecondLevel(StateLeaves(SubRoots(state)), name);
    subRoot := Down(root, bits).value;
    path := Reversed(PassedBy(root, bits));
    ReversedTwice(PassedBy(root, bits));
    OneLevelUp(state, subRoot, Path(key));
    claim := Down(subRoot, Path(key)).value;
    siblings := PassedBy(subRoot, Path(key));
    forall c | Represents(c, siblings)
      ensures ClientAccepts(root, name, subRoot, path, key, Some(claim), c)
    {
      DecompressInvertsCompress(c, siblings);
      assert siblings[..SMT_DEPTH] == siblings;
      ClientIsDescent(root, name, subRoot, path, key, Some(claim), c);
    }
  }

  /** A client that accepts a leaf hash has what is stored; one that accepts absence, absence. */
  lemma ClientLearnsTheAmount(state: State, name: string, subRoot: Hash, path: seq<Hash>, key: Key, value: Option<Hash>,
                              c: Compressed, stored: LeafContent)
    requires name in STATE_SUBTREES && NoNodeLeaves(state) && !Claimed(value).Node?
    requires LeafFor(stored).Some? && ValueAt(Contents(TreeOf(state, name)), key) == LeafFor(stored).value
    requires ClientAccepts(RootOfState(state), name, subRoot, path, key, value, c)
    ensures value == LeafFor(stored)
    ensures forall claim | LeafFor(claim) == value ::
              && (claim.Amount? <==> stored.Amount?) && (claim.StakeMember? <==> stored.StakeMember?)
              && (claim.StakeMember? ==> claim.source == stored.source)
              && Amounts.Value(AmountText(claim)) == Amounts.Value(AmountText(stored))
  {
    ClientExactly(state, name, subRoot, path, key, value, c);
    forall claim | LeafFor(claim) == value
      ensures (claim.Amount? <==> stored.Amount?) && (claim.StakeMember? <==> stored.StakeMember?)
      ensures claim.StakeMember? ==> claim.source == stored.source
      ensures Amounts.Value(AmountText(claim)) == Amounts.Value(AmountText(stored))
    {
      LeafExactly(claim, stored);
    }
  }
}
