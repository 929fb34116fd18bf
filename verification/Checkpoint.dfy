/**
 Verifying a signed checkpoint against a capability snapshot, and what two verified checkpoints
 prove about their signers.

 `valid` stands for the Ed25519 check of a signature by a key over a text; nothing is assumed of
 it. The flag days come in as `Gates`.
 */
module Checkpoint {
  import opened Sequences
  import opened Wrappers
  import opened Text
  import opened SigningString
  import opened StakeQuorum

  /** One signature entry as the column holds it; an entry can be null. */
  datatype SigEntry = NullEntry | SigEntry(pubkey: string, sig: string)

  /** The signature column: a list, or text that does not parse. */
  datatype SigColumn = Parsed(entries: seq<SigEntry>) | Unparseable

  datatype CapabilityRow = CapabilityRow(signingPubkey: string, amount: Option<string>, source: Option<string>)

  type Verifier = (string, string, string) -> bool

  // ---- Signatures ----

  function Entries(column: SigColumn): seq<SigEntry> {
    match column
    case Parsed(entries) => entries
    case Unparseable => []
  }

  /** Some entry holds a signature over the text that verifies under the key. */
  ghost predicate Signed(entries: seq<SigEntry>, text: string, key: string, valid: Verifier) {
    exists e | e in entries :: e.SigEntry? && Lower(e.pubkey) == key && valid(text, e.sig, key)
  }

  /** The qualified keys with a valid signature. */
  ghost function ValidSigners(column: SigColumn, text: string, qualified: set<string>, valid: Verifier): set<string> {
    set key | key in qualified && key != "" && Signed(Entries(column), text, key, valid)
  }

  /** A key counts exactly where it is qualified and an entry of a readable column holds a signature that verifies under it. */
  lemma SignerExactly(column: SigColumn, text: string, qualified: set<string>, valid: Verifier, key: string)
    ensures key in ValidSigners(column, text, qualified, valid) <==>
            && key in qualified && key != "" && column.Parsed?
            && exists i | 0 <= i < |column.entries| ::
                 var e := column.entries[i];
                 e.SigEntry? && Lower(e.pubkey) == key && valid(text, e.sig, key)
  {
    if key in ValidSigners(column, text, qualified, valid) {
      var e :| e in Entries(column) && e.SigEntry? && Lower(e.pubkey) == key && valid(text, e.sig, key);
      var i :| 0 <= i < |Entries(column)| && Entries(column)[i] == e;
    }
  }

  datatype Counted = Counted(validSigs: nat, validSigners: seq<string>, sigsParseFailed: bool)

  /**
   Counts each qualified key once if any of its entries verifies, whatever the order of the
   entries and whatever bad entries for the same key come first.
   */
  method CountCheckpointSignatures(column: SigColumn, text: string, qualified: set<string>, valid: Verifier)
    returns (r: Counted)
    ensures r.validSigs == |r.validSigners| && NoRepeats(r.validSigners)
    ensures Members(r.validSigners) == ValidSigners(column, text, qualified, valid)
    ensures r.sigsParseFailed == column.Unparseable?
  {
    var sigs := Entries(column);
    var seen: set<string> := {};
    var validSigs := 0;
    var validSigners: seq<string> := [];
    for i := 0 to |sigs|
      invariant validSigs == |validSigners| && NoRepeats(validSigners)
      invariant seen == Members(validSigners)
      invariant forall k :: k in seen <==> k in qualified && k != "" && Signed(sigs[..i], text, k, valid)
    {
      var pk := if sigs[i].SigEntry? then Lower(sigs[i].pubkey) else "";
      var sig := if sigs[i].SigEntry? then sigs[i].sig else "";
      assert sigs[..i + 1] == sigs[..i] + [sigs[i]];
      if pk != "" && pk !in seen && pk in qualified && valid(text, sig, pk) {
        assert sigs[i] in sigs[..i + 1];
        seen := seen + {pk};
        validSigs := validSigs + 1;
        validSigners := validSigners + [pk];
      }
      forall k | k in seen
        ensures Signed(sigs[..i + 1], text, k, valid)
      {
        if Signed(sigs[..i], text, k, valid) {
          var e :| e in sigs[..i] && e.SigEntry? && Lower(e.pubkey) == k && valid(text, e.sig, k);
          assert e in sigs[..i + 1];
        }
      }
    }
    assert sigs[..|sigs|] == sigs;
    return Counted(validSigs, validSigners, column.Unparseable?);
  }

  // ---- The count quorum ----

  /** ceil((n + 1) / 2), and at least two thirds by thirds of n - 1. */
  function Quorum(n: nat): (q: nat) {
    if n <= 1 then 1
    else
      var byThirds := 2 * ((n - 1) / 3) + 1;
      var majority := (n + 2) / 2;
      if byThirds >= majority then byThirds else majority
  }

  /** The keys that may be faulty in a set of n. */
  function Faulty(n: nat): nat
    requires n >= 1
  {
    (n - 1) / 3
  }

  /** The least number of keys that is more than half of them and more than twice the faulty ones. */
  lemma QuorumIsLeast(n: nat, q: nat)
    requires n >= 1
    ensures q >= Quorum(n) <==> 2 * q > n && q > 2 * Faulty(n)
  {
  }

  /** The honest keys alone can reach the quorum. */
  lemma QuorumReachable(n: nat)
    requires n >= 1
    ensures Quorum(n) <= n - Faulty(n)
  {
  }

  /** Two quorums of n keys have at least this many in common, and more than the faulty ones only for some n. */
  lemma QuorumOverlap(n: nat)
    requires n >= 1
    ensures 1 <= 2 * Quorum(n) - n
    ensures Quorum(n) <= n <= 2 * Quorum(n)
    ensures 2 * Quorum(n) - n > Faulty(n) <==> n % 3 == 1 || n in {2, 3, 6}
  {
  }

  /** Any two quorums among the keys have more keys in common than may be faulty. */
  ghost predicate QuorumsShareHonest(keys: set<string>)
    requires keys != {}
  {
    forall a, b | a <= keys && b <= keys && |a| >= Quorum(|keys|) && |b| >= Quorum(|keys|) :: |a * b| > Faulty(|keys|)
  }

  /** Two quorums always share a key; they are bound to share an honest one exactly for these sizes. */
  lemma QuorumIntersection(keys: set<string>)
    requires keys != {}
    ensures forall a, b | a <= keys && b <= keys && |a| >= Quorum(|keys|) && |b| >= Quorum(|keys|) :: a * b != {}
    ensures QuorumsShareHonest(keys) <==> |keys| % 3 == 1 || |keys| in {2, 3, 6}
  {
    var n := |keys|;
    QuorumOverlap(n);
    forall a, b | a <= keys && b <= keys && |a| >= Quorum(n) && |b| >= Quorum(n)
      ensures |a * b| >= 2 * Quorum(n) - n && a * b != {}
    {
      CardinalityOverlap(a, b, keys);
    }
    if 2 * Quorum(n) - n <= Faulty(n) {
      var a, b := LeastOverlap(keys, Quorum(n));
      assert |a * b| <= Faulty(n);
    }
  }

  // ---- The verdict ----

  function Qualified(validators: seq<CapabilityRow>): set<string> {
    set v | v in validators :: Lower(v.signingPubkey)
  }

  /** The served set: a missing amount stays missing, a missing source becomes blank. */
  function ValidatorSet(validators: seq<CapabilityRow>): (s: seq<Option<Validator>>)
    ensures |s| == |validators|
    ensures forall i | 0 <= i < |s| ::
              && s[i].Some? && s[i].value.pubkey == Lower(validators[i].signingPubkey)
              && s[i].value.weight == validators[i].amount
              && s[i].value.source == Some(if validators[i].source.Some? then validators[i].source.value else "")
  {
    seq(|validators|, i requires 0 <= i < |validators| =>
      var v := validators[i];
      Some(Validator(Lower(v.signingPubkey), Some(if v.source.Some? then v.source.value else ""), v.amount)))
  }

  predicate Truthy(o: Option<string>) {
    o.Some? && o.value != ""
  }

  /** Past the commitment flag day, a row without all four committed fields. */
  predicate CommitmentMissing(cp: CheckpointRow, g: Gates) {
    && g.commitment(cp.snapshotBlock, cp.network)
    && !(Truthy(cp.stateRoot) && Truthy(cp.blockMerkleRoot) && cp.stateRootVersion.Some? && cp.blockMerkleVersion.Some?)
  }

  predicate SupersedeBelowGate(cp: CheckpointRow, g: Gates) {
    HasSupersedeFields(cp) && !g.supersede(cp.snapshotBlock, cp.network)
  }

  /** The served validators as a snapshot; a plain list is never marked truncated. */
  function ServedSnapshot(validators: seq<CapabilityRow>): Snapshot {
    Snapshot(ValidatorSet(validators), false)
  }

  /** Enough of the snapshot signed the text, in the regime the row's flag day selects. */
  ghost predicate Quorate(cp: CheckpointRow, column: SigColumn, text: string, validators: seq<CapabilityRow>, g: Gates,
                          valid: Verifier)
  {
    var qualified := Qualified(validators);
    var signers := ValidSigners(column, text, qualified, valid);
    && qualified != {}
    && if g.weightedQuorum(cp.snapshotBlock, cp.network) then ClearsSet(ServedSnapshot(validators), signers)
       else |signers| >= Quorum(|qualified|)
  }

  /** The stake test on a set of keys: some listing of it passes (all listings agree). */
  ghost predicate ClearsSet(s: Snapshot, keys: set<string>) {
    exists list: seq<string> :: Members(list) == keys && Clears(s, list)
  }

  lemma ClearsSetMeans(s: Snapshot, list: seq<string>)
    ensures ClearsSet(s, Members(list)) <==> Clears(s, list)
  {
    if ClearsSet(s, Members(list)) {
      var other: seq<string> :| Members(other) == Members(list) && Clears(s, other);
      var idx := IndexOf(ReadAll(s.rows)).value;
      assert forall x :: x in other <==> x in Members(other);
      assert forall x :: x in list <==> x in Members(list);
      assert SignedSources(idx, other) == SignedSources(idx, list);
      ClearsIsMonotone(s, other, list);
    }
  }

  ghost predicate Verified(cp: CheckpointRow, column: SigColumn, text: string, validators: seq<CapabilityRow>, g: Gates,
                           valid: Verifier)
  {
    !CommitmentMissing(cp, g) && !SupersedeBelowGate(cp, g) && Quorate(cp, column, text, validators, g, valid)
  }

  datatype VerifyResult = VerifyResult(
    validators: seq<Option<Validator>>, isWeighted: bool, quorum: nat, validSigs: nat, validSigners: seq<string>,
    verified: bool, commitmentMissing: bool, snapshotAvailable: bool, signaturesUnparseable: bool)

  method CheckpointVerifyResult(cp: CheckpointRow, column: SigColumn, text: string, validators: seq<CapabilityRow>,
                                g: Gates, valid: Verifier)
    returns (r: VerifyResult)
    ensures r.verified == Verified(cp, column, text, validators, g, valid)
    ensures NoRepeats(r.validSigners) && r.validSigs == |r.validSigners|
    ensures Members(r.validSigners) == ValidSigners(column, text, Qualified(validators), valid)
    ensures r.quorum == Quorum(|Qualified(validators)|) && r.validators == ValidatorSet(validators)
    ensures r.isWeighted == g.weightedQuorum(cp.snapshotBlock, cp.network)
    ensures r.commitmentMissing == CommitmentMissing(cp, g)
    ensures r.snapshotAvailable <==> validators != []
    ensures r.signaturesUnparseable == column.Unparseable?
  {
    var qualified := Qualified(validators);
    var quorum := Quorum(|qualified|);
    var isWeighted := g.weightedQuorum(cp.snapshotBlock, cp.network);
    var counted := CountCheckpointSignatures(column, text, qualified, valid);
    NoRepeatsCount(counted.validSigners);
    var validatorSet := ValidatorSet(validators);
    var commitmentMissing := CommitmentMissing(cp, g);
    var supersedeBelowGate := SupersedeBelowGate(cp, g);
    ClearsSetMeans(ServedSnapshot(validators), counted.validSigners);
    assert |qualified| > 0 <==> qualified != {};
    assert validators != [] ==> Lower(validators[0].signingPubkey) in qualified;
    var enough := false;
    if isWeighted {
      if |qualified| > 0 {
        enough := MeetsStakeThreshold(ServedSnapshot(validators), counted.validSigners);
      }
    } else {
      enough := |qualified| > 0 && counted.validSigs >= quorum;
    }
    var verified := !commitmentMissing && !supersedeBelowGate && enough;
    return VerifyResult(validatorSet, isWeighted, quorum, counted.validSigs, counted.validSigners, verified,
                        commitmentMissing, |qualified| > 0, counted.sigsParseFailed);
  }

  // ---- What the two structural refusals mean for the signed text ----

  function WithoutRoots(cp: CheckpointRow): CheckpointRow {
    cp.(stateRoot := None, stateRootVersion := None, blockMerkleRoot := None, blockMerkleVersion := None)
  }

  function WithoutSupersession(cp: CheckpointRow): CheckpointRow {
    cp.(supersedesFrom := None, rulesDigest := None)
  }

  lemma LongerInside(before: string, base: string, part: string, after: string)
    ensures before + (base + part + after) == before + (base + "" + after) <==> part == ""
  {
    assert |before + (base + part + after)| == |before + (base + "" + after)| + |part|;
  }

  lemma LongerAtEnd(before: string, base: string, part: string)
    ensures before + (base + part) == before + (base + "") <==> part == ""
  {
    assert |before + (base + part)| == |before + (base + "")| + |part|;
  }

  lemma RootsTextIsThere(cp: CheckpointRow, g: Gates)
    ensures RootsText(cp, g) != "" <==> g.commitment(cp.snapshotBlock, cp.network) && HasRoots(cp)
  {
  }

  lemma SupersedeTextIsThere(cp: CheckpointRow, g: Gates)
    requires CanonicalCheckpointString(cp, g).Ok?
    ensures SupersedeText(cp, g) != "" <==> HasSupersedeFields(cp) && g.supersede(cp.snapshotBlock, cp.network)
  {
  }

  lemma TextWithoutRoots(cp: CheckpointRow, g: Gates)
    ensures HeaderText(WithoutRoots(cp), g) == HeaderText(cp, g) && BaseText(WithoutRoots(cp)) == BaseText(cp)
    ensures SupersedeText(WithoutRoots(cp), g) == SupersedeText(cp, g) && RootsText(WithoutRoots(cp), g) == ""
    ensures CanonicalCheckpointString(WithoutRoots(cp), g).Ok? <==> CanonicalCheckpointString(cp, g).Ok?
  {
    assert SupersedeSuffix(WithoutRoots(cp)) == SupersedeSuffix(cp);
  }

  lemma TextWithoutSupersession(cp: CheckpointRow, g: Gates)
    ensures HeaderText(WithoutSupersession(cp), g) == HeaderText(cp, g) && BaseText(WithoutSupersession(cp)) == BaseText(cp)
    ensures RootsText(WithoutSupersession(cp), g) == RootsText(cp, g) && SupersedeText(WithoutSupersession(cp), g) == ""
    ensures CanonicalCheckpointString(WithoutSupersession(cp), g).Ok?
  {
  }

  /** Taking the roots out of a row changes its text exactly when the text carries them. */
  lemma RootsShow(cp: CheckpointRow, g: Gates)
    requires CanonicalCheckpointString(cp, g).Ok?
    ensures CanonicalCheckpointString(cp, g) != CanonicalCheckpointString(WithoutRoots(cp), g) <==>
            g.commitment(cp.snapshotBlock, cp.network) && HasRoots(cp)
  {
    TextWithoutRoots(cp, g);
    TextInFull(cp, g);
    TextInFull(WithoutRoots(cp), g);
    LongerInside(HeaderText(cp, g), BaseText(cp), RootsText(cp, g), SupersedeText(cp, g));
    RootsTextIsThere(cp, g);
  }

  lemma SupersessionShows(cp: CheckpointRow, g: Gates)
    requires CanonicalCheckpointString(cp, g).Ok?
    ensures CanonicalCheckpointString(cp, g) != CanonicalCheckpointString(WithoutSupersession(cp), g) <==>
            HasSupersedeFields(cp) && g.supersede(cp.snapshotBlock, cp.network)
  {
    TextWithoutSupersession(cp, g);
    TextInFull(cp, g);
    TextInFull(WithoutSupersession(cp), g);
    LongerAtEnd(HeaderText(cp, g), BaseText(cp) + RootsText(cp, g), SupersedeText(cp, g));
    SupersedeTextIsThere(cp, g);
  }

  /** A commitment is missing exactly past its flag day, where the text has no roots or an empty one. */
  lemma CommitmentMissingExactly(cp: CheckpointRow, g: Gates)
    ensures
      var bare := WithoutSupersession(cp);
      CommitmentMissing(cp, g) <==>
      && g.commitment(cp.snapshotBlock, cp.network)
      && (|| CanonicalCheckpointString(bare, g) == CanonicalCheckpointString(WithoutRoots(bare), g)
          || cp.stateRoot == Some("") || cp.blockMerkleRoot == Some(""))
  {
    RootsShow(WithoutSupersession(cp), g);
  }

  /**
   A row is verified exactly when enough of the snapshot signed its text and the text commits to
   all it must: past the commitment flag day to two non-empty roots, and to the supersession where
   the row has any field of one.
   */
  lemma VerifiedExactly(cp: CheckpointRow, column: SigColumn, validators: seq<CapabilityRow>, g: Gates, valid: Verifier)
    requires CanonicalCheckpointString(cp, g).Ok?
    ensures
      var text := CanonicalCheckpointString(cp, g);
      Verified(cp, column, text.value, validators, g, valid) <==>
      && Quorate(cp, column, text.value, validators, g, valid)
      && (g.commitment(cp.snapshotBlock, cp.network) ==>
            && text != CanonicalCheckpointString(WithoutRoots(cp), g)
            && cp.stateRoot != Some("") && cp.blockMerkleRoot != Some(""))
      && (cp.supersedesFrom.Some? || cp.rulesDigest.Some? ==>
            text != CanonicalCheckpointString(WithoutSupersession(cp), g))
  {
    RootsShow(cp, g);
    SupersessionShows(cp, g);
  }

  lemma LegacyText(cp: CheckpointRow, g: Gates)
    requires !g.commitment(cp.snapshotBlock, cp.network)
    ensures CanonicalCheckpointString(cp, g) == CanonicalCheckpointString(WithoutRoots(cp), g)
  {
    assert SupersedeSuffix(WithoutRoots(cp)) == SupersedeSuffix(cp);
  }

  /** Below the commitment flag day the four committed columns change neither text nor verdict. */
  lemma LegacyRowsIgnoreRoots(cp: CheckpointRow, column: SigColumn, text: string, validators: seq<CapabilityRow>,
                              g: Gates, valid: Verifier)
    requires !g.commitment(cp.snapshotBlock, cp.network)
    ensures CanonicalCheckpointString(cp, g) == CanonicalCheckpointString(WithoutRoots(cp), g)
    ensures Verified(cp, column, text, validators, g, valid) <==>
            Verified(WithoutRoots(cp), column, text, validators, g, valid)
    ensures cp.supersedesFrom.None? && cp.rulesDigest.None? ==>
              (Verified(cp, column, text, validators, g, valid) <==> Quorate(cp, column, text, validators, g, valid))
  {
    LegacyText(cp, g);
  }

  /** Past it, the text of a verified row carries both roots, neither empty, and both versions. */
  lemma VerifiedTextCommits(cp: CheckpointRow, column: SigColumn, validators: seq<CapabilityRow>, g: Gates, valid: Verifier)
    requires CanonicalCheckpointString(cp, g).Ok? && g.commitment(cp.snapshotBlock, cp.network)
    requires Verified(cp, column, CanonicalCheckpointString(cp, g).value, validators, g, valid)
    ensures
      && cp.stateRoot.Some? && cp.stateRootVersion.Some? && cp.blockMerkleRoot.Some? && cp.blockMerkleVersion.Some?
      && cp.stateRoot.value != "" && cp.blockMerkleRoot.value != ""
      && var roots := Lower(cp.stateRoot.value) + "|" + cp.stateRootVersion.value + "|" +
                      Lower(cp.blockMerkleRoot.value) + "|" + cp.blockMerkleVersion.value;
         CanonicalCheckpointString(cp, g).value ==
         HeaderText(cp, g) + (BaseText(cp) + ("|" + roots) + SupersedeText(cp, g))
  {
    TextInFull(cp, g);
  }

  /** In the count regime: more than half of the qualified keys signed, and more than twice the faulty number. */
  lemma CountVerdictExactly(cp: CheckpointRow, column: SigColumn, text: string, validators: seq<CapabilityRow>, g: Gates,
                            valid: Verifier)
    requires !g.weightedQuorum(cp.snapshotBlock, cp.network) && validators != []
    ensures
      var n, k := |Qualified(validators)|, |ValidSigners(column, text, Qualified(validators), valid)|;
      n > 0 && (Quorate(cp, column, text, validators, g, valid) <==> 2 * k > n && k > 2 * ((n - 1) / 3))
  {
    assert Lower(validators[0].signingPubkey) in Qualified(validators);
    QuorumIsLeast(|Qualified(validators)|, |ValidSigners(column, text, Qualified(validators), valid)|);
  }

  /** A missing amount fails closed: where a source is first listed without one, nothing verifies by weight. */
  lemma MissingAmountFailsClosed(cp: CheckpointRow, column: SigColumn, text: string, validators: seq<CapabilityRow>,
                                 g: Gates, valid: Verifier, i: nat)
    requires i < |validators| && validators[i].amount.None?
    requires forall j | 0 <= j < i :: validators[j].source != validators[i].source
    requires g.weightedQuorum(cp.snapshotBlock, cp.network)
    ensures !Verified(cp, column, text, validators, g, valid)
  {
    var rows := ReadAll(ValidatorSet(validators));
    IndexDefined(rows);
    if validators[i].source.Some? && rows[i].Row? {
      forall j | 0 <= j < i && rows[..i][j].Row?
        ensures rows[..i][j].source != rows[i].source
      {
        assert rows[j].Row?;
        BlankIsRefused("");
      }
      assert FirstForSource(rows, i);
    } else {
      BlankIsRefused("");
    }
  }

  lemma BlankIsRefused(blank: string)
    requires blank == ""
    ensures Trim(blank) == ""
  {
  }

  // ---- Accountable safety ----

  /** The sources of the snapshot with a key that validly signed a text. */
  ghost function SigningSources(column: SigColumn, text: string, validators: seq<CapabilityRow>, valid: Verifier):
    set<string>
  {
    match IndexOf(ReadAll(ValidatorSet(validators)))
    case None => {}
    case Some(idx) =>
      set key | key in ValidSigners(column, text, Qualified(validators), valid) && Lower(key) in idx.pubkeyToSource ::
        idx.pubkeyToSource[Lower(key)]
  }

  ghost function StakeHeld(sources: set<string>, validators: seq<CapabilityRow>): real {
    match IndexOf(ReadAll(ValidatorSet(validators)))
    case None => 0.0
    case Some(idx) => Stake(sources, idx.weightBySource)
  }

  /**
   Two texts verified over one snapshot in the count regime: at least one qualified key validly
   signed both, and at least 2q - n of them did.
   */
  lemma CountedSafety(cp1: CheckpointRow, column1: SigColumn, text1: string, cp2: CheckpointRow, column2: SigColumn,
                      text2: string, validators: seq<CapabilityRow>, g: Gates, valid: Verifier)
    requires Verified(cp1, column1, text1, validators, g, valid) && Verified(cp2, column2, text2, validators, g, valid)
    requires !g.weightedQuorum(cp1.snapshotBlock, cp1.network) && !g.weightedQuorum(cp2.snapshotBlock, cp2.network)
    ensures
      var q := Qualified(validators);
      var both := ValidSigners(column1, text1, q, valid) * ValidSigners(column2, text2, q, valid);
      |both| >= 2 * Quorum(|q|) - |q| && |both| >= 1
  {
    var q := Qualified(validators);
    CardinalityOverlap(ValidSigners(column1, text1, q, valid), ValidSigners(column2, text2, q, valid), q);
    QuorumOverlap(|q|);
  }

  function SignedBy(keys: seq<string>, text: string, sign: (string, string) -> string): seq<SigEntry> {
    seq(|keys|, i requires 0 <= i < |keys| => SigEntry(keys[i], sign(text, keys[i])))
  }

  /** A column of valid signatures by any set of qualified keys. */
  lemma ColumnOf(keys: set<string>, text: string, qualified: set<string>, valid: Verifier,
                 sign: (string, string) -> string) returns (column: SigColumn)
    requires keys <= qualified && "" !in qualified && forall k | k in qualified :: Lower(k) == k
    requires forall k | k in qualified :: valid(text, sign(text, k), k)
    ensures ValidSigners(column, text, qualified, valid) == keys
  {
    var list := Listing(keys);
    var entries := SignedBy(list, text, sign);
    column := Parsed(entries);
    forall k | k in keys
      ensures Signed(entries, text, k, valid)
    {
      assert k in Members(list);
      var i :| 0 <= i < |list| && list[i] == k;
      assert entries[i] in entries && entries[i] == SigEntry(k, sign(text, k));
    }
    forall k | k in qualified && Signed(entries, text, k, valid)
      ensures k in keys
    {
      var e :| e in entries && e.SigEntry? && Lower(e.pubkey) == k && valid(text, e.sig, k);
      var i :| 0 <= i < |entries| && entries[i] == e;
      assert list[i] in Members(list);
    }
  }

  lemma QualifiedAreLower(validators: seq<CapabilityRow>, key: string)
    requires key in Qualified(validators)
    ensures Lower(key) == key
  {
    var v :| v in validators && Lower(v.signingPubkey) == key;
    LowerTwice(v.signingPubkey);
  }

  /**
   For every other size the count regime can verify any two texts over one snapshot with no honest
   signer in common: two columns whose shared signers are few enough to be all faulty.
   */
  lemma FaultyKeysMaySignBoth(cp1: CheckpointRow, text1: string, cp2: CheckpointRow, text2: string,
                              validators: seq<CapabilityRow>, g: Gates, valid: Verifier, sign: (string, string) -> string)
    returns (column1: SigColumn, column2: SigColumn)
    requires Qualified(validators) != {} && "" !in Qualified(validators)
    requires !(|Qualified(validators)| % 3 == 1 || |Qualified(validators)| in {2, 3, 6})
    requires !CommitmentMissing(cp1, g) && !SupersedeBelowGate(cp1, g) && !g.weightedQuorum(cp1.snapshotBlock, cp1.network)
    requires !CommitmentMissing(cp2, g) && !SupersedeBelowGate(cp2, g) && !g.weightedQuorum(cp2.snapshotBlock, cp2.network)
    requires forall t, k :: valid(t, sign(t, k), k)
    ensures Verified(cp1, column1, text1, validators, g, valid) && Verified(cp2, column2, text2, validators, g, valid)
    ensures
      var q := Qualified(validators);
      |ValidSigners(column1, text1, q, valid) * ValidSigners(column2, text2, q, valid)| <= Faulty(|q|)
  {
    var q := Qualified(validators);
    QuorumOverlap(|q|);
    var a, b := LeastOverlap(q, Quorum(|q|));
    forall k | k in q
      ensures Lower(k) == k
    {
      QualifiedAreLower(validators, k);
    }
    column1 := ColumnOf(a, text1, q, valid, sign);
    column2 := ColumnOf(b, text2, q, valid, sign);
  }

  lemma ListingOfSigners(column: SigColumn, text: string, validators: seq<CapabilityRow>, valid: Verifier, list: seq<string>)
    requires Members(list) == ValidSigners(column, text, Qualified(validators), valid)
    requires IndexOf(ReadAll(ServedSnapshot(validators).rows)).Some?
    ensures SignedSources(IndexOf(ReadAll(ServedSnapshot(validators).rows)).value, list) ==
            SigningSources(column, text, validators, valid)
  {
    assert forall x :: x in list <==> x in Members(list);
  }

  /**
   In the weighted regime enough signed exactly when the rows have an index, no weight is negative,
   and the sources that validly signed hold more than two thirds of a positive total.
   */
  lemma WeightedVerdictExactly(cp: CheckpointRow, column: SigColumn, text: string, validators: seq<CapabilityRow>,
                               g: Gates, valid: Verifier)
    requires g.weightedQuorum(cp.snapshotBlock, cp.network)
    ensures Quorate(cp, column, text, validators, g, valid) <==>
            && IndexOf(ReadAll(ValidatorSet(validators))).Some?
            && var weights := IndexOf(ReadAll(ValidatorSet(validators))).value.weightBySource;
               var total := Stake(weights.Keys, weights);
               && (forall source | source in weights :: weights[source] >= 0.0)
               && total > 0.0
               && 3.0 * StakeHeld(SigningSources(column, text, validators, valid), validators) > 2.0 * total
  {
    var s := ServedSnapshot(validators);
    var signers := ValidSigners(column, text, Qualified(validators), valid);
    var list := Listing(signers);
    ClearsSetMeans(s, list);
    if IndexOf(ReadAll(s.rows)).Some? {
      ListingOfSigners(column, text, validators, valid, list);
      var weights := IndexOf(ReadAll(s.rows)).value.weightBySource;
      if validators == [] {
        assert ReadAll(s.rows) == [] && weights.Keys == {};
      } else {
        assert Lower(validators[0].signingPubkey) in Qualified(validators);
      }
    }
  }

  /** In the weighted regime: the sources that validly signed both hold more than a third of all stake. */
  lemma WeightedSafety(cp1: CheckpointRow, column1: SigColumn, text1: string, cp2: CheckpointRow, column2: SigColumn,
                       text2: string, validators: seq<CapabilityRow>, g: Gates, valid: Verifier)
    requires Verified(cp1, column1, text1, validators, g, valid) && Verified(cp2, column2, text2, validators, g, valid)
    requires g.weightedQuorum(cp1.snapshotBlock, cp1.network) && g.weightedQuorum(cp2.snapshotBlock, cp2.network)
    ensures
      var both := SigningSources(column1, text1, validators, valid) * SigningSources(column2, text2, validators, valid);
      var total := TotalStakeOf(ServedSnapshot(validators));
      total.Some? && total.value > 0.0 && 3.0 * StakeHeld(both, validators) > total.value
  {
    var s := ServedSnapshot(validators);
    var q := Qualified(validators);
    var a: seq<string> :| Members(a) == ValidSigners(column1, text1, q, valid) && Clears(s, a);
    var b: seq<string> :| Members(b) == ValidSigners(column2, text2, q, valid) && Clears(s, b);
    QuorumsOverlap(s, a, b);
    ListingOfSigners(column1, text1, validators, valid, a);
    ListingOfSigners(column2, text2, validators, valid, b);
  }

  /** A row of the snapshot is signed by the key it names: every counted signer has a source there. */
  lemma SignersHaveSources(column: SigColumn, text: string, validators: seq<CapabilityRow>, valid: Verifier, key: string)
    requires IndexOf(ReadAll(ValidatorSet(validators))).Some?
    requires key in ValidSigners(column, text, Qualified(validators), valid)
    ensures key in IndexOf(ReadAll(ValidatorSet(validators))).value.pubkeyToSource
  {
    var rows := ReadAll(ValidatorSet(validators));
    IndexNames(rows);
    var v :| v in validators && Lower(v.signingPubkey) == key;
    var i :| 0 <= i < |validators| && validators[i] == v;
    LowerTwice(v.signingPubkey);
    assert rows[i].Row? && rows[i].key == key;
    assert HasKey(rows, key);
  }

  /**
   End to end, past the header's flag day: two rows of one round that differ in anything their
   texts carry, both verified over one weighted snapshot, leave sources with more than a third of
   the stake having validly signed two different texts under one equivocation prefix.
   */
  lemma ConflictingCheckpointsAreProvable(cp1: CheckpointRow, column1: SigColumn, cp2: CheckpointRow,
                                          column2: SigColumn, validators: seq<CapabilityRow>, g: Gates, valid: Verifier)
    requires PipeFree(cp1) && PipeFree(cp2) && CheckpointKey(cp1) == CheckpointKey(cp2)
    requires Wrapped(cp1, g) && Wrapped(cp2, g)
    requires CanonicalCheckpointString(cp1, g).Ok? && CanonicalCheckpointString(cp2, g).Ok?
    requires BaseFields(cp1) != BaseFields(cp2) || RootFields(cp1, g) != RootFields(cp2, g)
          || SupersedeFields(cp1, g) != SupersedeFields(cp2, g)
    requires g.weightedQuorum(cp1.snapshotBlock, cp1.network) && g.weightedQuorum(cp2.snapshotBlock, cp2.network)
    requires Verified(cp1, column1, CanonicalCheckpointString(cp1, g).value, validators, g, valid)
    requires Verified(cp2, column2, CanonicalCheckpointString(cp2, g).value, validators, g, valid)
    ensures
      var text1, text2 := CanonicalCheckpointString(cp1, g).value, CanonicalCheckpointString(cp2, g).value;
      var both := SigningSources(column1, text1, validators, valid) * SigningSources(column2, text2, validators, valid);
      && text1 != text2
      && EquivPrefix(CheckpointKey(cp1)) <= text1 && EquivPrefix(CheckpointKey(cp1)) <= text2
      && TotalStakeOf(ServedSnapshot(validators)).Some?
      && 3.0 * StakeHeld(both, validators) > TotalStakeOf(ServedSnapshot(validators)).value
  {
    var text1, text2 := CanonicalCheckpointString(cp1, g).value, CanonicalCheckpointString(cp2, g).value;
    TextExactly(cp1, g, cp2, g);
    assert text1 == EquivPrefix(CheckpointKey(cp1)) + CanonRaw(cp1, g).value;
    assert text2 == EquivPrefix(CheckpointKey(cp2)) + CanonRaw(cp2, g).value;
    WeightedSafety(cp1, column1, text1, cp2, column2, text2, validators, g, valid);
  }
}
