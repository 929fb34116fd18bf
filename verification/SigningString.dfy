/**
 The text validators sign for a checkpoint, in all its shapes: bare, with the committed roots,
 with the supersession suffix, and wrapped in the equivocation header.

 `CanonicalCheckpointString` builds it the way the source concatenates it. `AllFields` is the
 field list it stands for; that the one is the join of the other is what makes it readable back.
 */
module SigningString {
  import opened Wrappers
  import opened Text

  const BAR: char := '|'
  const MAX_SAFE_INTEGER: int := 9007199254740991

  /** A column read with Number(): an integer, or something that is none. */
  datatype Numeric = NotAnInteger | Integer(value: int)

  datatype CheckpointRow = CheckpointRow(
    chain: string, network: string, blockIndex: string, blockHash: string, ledgerHash: string,
    actionsHash: string, contractHash: string, checkpointSeq: string, snapshotBlock: string,
    stateRoot: Option<string>, stateRootVersion: Option<string>,
    blockMerkleRoot: Option<string>, blockMerkleVersion: Option<string>,
    supersedesFrom: Option<Numeric>, rulesDigest: Option<string>)

  /** The flag days, each decided by a row's snapshot block and network. */
  datatype Gates = Gates(commitment: (string, string) -> bool, supersede: (string, string) -> bool,
                         equivHeader: (string, string) -> bool, weightedQuorum: (string, string) -> bool)

  // ---- The equivocation header ----

  function EquivKey(tag: string, roundId: string, view: string): string {
    tag + "|" + roundId + "|" + view
  }

  function EquivPrefix(key: string): string {
    "EQUIV|" + key + "||"
  }

  function BuildEquivCanonical(tag: string, roundId: string, view: string, content: string): string {
    EquivPrefix(EquivKey(tag, roundId, view)) + content
  }

  /** The key holds no double bar and does not end in a bar. */
  predicate KeyIsClear(key: string) {
    && (forall i | 0 <= i < |key| - 1 :: !(key[i] == BAR && key[i + 1] == BAR))
    && (key != "" ==> key[|key| - 1] != BAR)
  }

  /** A wrapped text starts with a clear key's prefix exactly when it was built for that key. */
  lemma PrefixNamesKey(key: string, built: string, content: string)
    requires KeyIsClear(key) && KeyIsClear(built)
    ensures EquivPrefix(key) <= EquivPrefix(built) + content <==> key == built
  {
    var p, text := EquivPrefix(key), EquivPrefix(built) + content;
    if p <= text {
      var m, n := |key|, |built|;
      forall i | 0 <= i < |p|
        ensures text[i] == p[i]
      {
        assert text[..|p|][i] == p[i];
      }
      forall i | 0 <= i < m
        ensures p[6 + i] == key[i]
      {
      }
      forall i | 0 <= i < n
        ensures text[6 + i] == built[i]
      {
      }
      assert p[6 + m] == BAR && p[7 + m] == BAR && text[6 + n] == BAR && text[7 + n] == BAR;
      assert m == n ==> key == built;
    }
  }

  /** A key that ends in a bar breaks this: its texts also start with the prefix of a shorter key. */
  lemma TrailingBarBreaksPrefix(key: string, content: string)
    ensures EquivPrefix(key) <= EquivPrefix(key + "|") + content
    ensures key != key + "|"
  {
    assert EquivPrefix(key + "|") + content == EquivPrefix(key) + "|" + content;
  }

  /** A double bar inside a key breaks it too: the key cut there is clear, and its texts can start alike. */
  lemma DoubleBarBreaksPrefix(key: string, i: nat)
    requires i < |key| - 1 && key[i] == BAR && key[i + 1] == BAR
    requires forall j | 0 <= j < i :: !(key[j] == BAR && key[j + 1] == BAR)
    ensures KeyIsClear(key[..i]) && key != key[..i]
    ensures EquivPrefix(key) <= EquivPrefix(key[..i]) + (key[i + 2..] + "||")
  {
    assert i > 0 ==> key[i - 1] != BAR;
    assert key == key[..i] + "||" + key[i + 2..];
    assert EquivPrefix(key[..i]) + (key[i + 2..] + "||") == EquivPrefix(key);
  }

  lemma {:induction false} FirstDoubleBar(key: string, n: nat) returns (i: nat)
    requires n < |key| - 1 && key[n] == BAR && key[n + 1] == BAR
    ensures i < |key| - 1 && key[i] == BAR && key[i + 1] == BAR
    ensures forall j | 0 <= j < i :: !(key[j] == BAR && key[j + 1] == BAR)
    decreases n
  {
    if m :| 0 <= m < n && key[m] == BAR && key[m + 1] == BAR {
      i := FirstDoubleBar(key, m);
    } else {
      i := n;
    }
  }

  /** A clear key other than the one given, and content that makes its text start with the given key's prefix. */
  lemma UnclearKeyIsShared(key: string) returns (built: string, content: string)
    requires !KeyIsClear(key)
    ensures KeyIsClear(built) && built != key && EquivPrefix(key) <= EquivPrefix(built) + content
  {
    if n :| 0 <= n < |key| - 1 && key[n] == BAR && key[n + 1] == BAR {
      var i := FirstDoubleBar(key, n);
      DoubleBarBreaksPrefix(key, i);
      built, content := key[..i], key[i + 2..] + "||";
    } else {
      built, content := key[..|key| - 1], "|";
      assert key == built + "|";
      TrailingBarBreaksPrefix(built, "");
      assert EquivPrefix(key) == EquivPrefix(built) + "|";
    }
  }

  /** Matching by prefix names the round, for every clear round built, exactly when the key is clear. */
  lemma ClearKeysExactly(key: string)
    ensures KeyIsClear(key) <==>
            forall built, content | KeyIsClear(built) && EquivPrefix(key) <= EquivPrefix(built) + content :: key == built
  {
    if KeyIsClear(key) {
      forall built, content | KeyIsClear(built) && EquivPrefix(key) <= EquivPrefix(built) + content
        ensures key == built
      {
        PrefixNamesKey(key, built, content);
      }
    } else {
      var built, content := UnclearKeyIsShared(key);
    }
  }

  // ---- The supersession suffix ----

  predicate HasSupersedeFields(cp: CheckpointRow) {
    cp.supersedesFrom.Some? || cp.rulesDigest.Some?
  }

  predicate IsHex(c: char) {
    IsDigit(c) || 'a' <= c <= 'f' || 'A' <= c <= 'F'
  }

  /** Both fields present, a non-negative safe integer and 64 hex characters. */
  predicate SupersedeFieldsValid(cp: CheckpointRow) {
    && cp.supersedesFrom.Some? && cp.rulesDigest.Some?
    && cp.supersedesFrom.value.Integer? && 0 <= cp.supersedesFrom.value.value <= MAX_SAFE_INTEGER
    && |cp.rulesDigest.value| == 64 && forall c | c in cp.rulesDigest.value :: IsHex(c)
  }

  /** Err where the source throws: on anything but no field at all or two valid ones. */
  function SupersedeSuffix(cp: CheckpointRow): (r: Result<string, string>)
    ensures r.Ok? <==> !HasSupersedeFields(cp) || SupersedeFieldsValid(cp)
  {
    if !HasSupersedeFields(cp) then Ok("")
    else if cp.supersedesFrom.None? || cp.rulesDigest.None? then
      Err("checkpoint supersession requires supersedes_from and rules_digest")
    else if cp.supersedesFrom.value.NotAnInteger? || !(0 <= cp.supersedesFrom.value.value <= MAX_SAFE_INTEGER) then
      Err("supersedes_from must be a non-negative safe integer")
    else if |cp.rulesDigest.value| != 64 || exists c :: c in cp.rulesDigest.value && !IsHex(c) then
      Err("rules_digest must be 64 hexadecimal characters")
    else
      Ok("|SUPERSEDE|" + Decimal(cp.supersedesFrom.value.value) + "|" + Lower(cp.rulesDigest.value))
  }

  /** When the suffix throws, told without the predicates above: on a single field, or one out of range. */
  lemma SupersedeExactly(cp: CheckpointRow)
    ensures SupersedeSuffix(cp).Ok? <==>
            match (cp.supersedesFrom, cp.rulesDigest)
            case (None, None) => true
            case (Some(Integer(from)), Some(digest)) =>
              && 0 <= from < 0x20_0000_0000_0000 && |digest| == 64
              && forall i | 0 <= i < 64 :: digest[i] in "0123456789abcdefABCDEF"
            case _ => false
  {
    match (cp.supersedesFrom, cp.rulesDigest)
    case (Some(Integer(from)), Some(digest)) =>
      forall i | 0 <= i < |digest|
        ensures digest[i] in digest && (IsHex(digest[i]) <==> digest[i] in "0123456789abcdefABCDEF")
      {
        HexExactly(digest[i]);
      }
    case _ =>
  }

  lemma HexExactly(c: char)
    ensures IsHex(c) <==> c in "0123456789abcdefABCDEF"
  {
    var all := "0123456789abcdefABCDEF";
    if '0' <= c <= '9' {
      assert all[c as int - '0' as int] == c;
    } else if 'a' <= c <= 'f' {
      assert all[c as int - 'a' as int + 10] == c;
    } else if 'A' <= c <= 'F' {
      assert all[c as int - 'A' as int + 16] == c;
    }
  }

  // ---- The signed text ----

  function BaseFields(cp: CheckpointRow): seq<string> {
    ["XCHECKPOINT", cp.chain, cp.network, cp.blockIndex, cp.blockHash, cp.ledgerHash, cp.actionsHash, cp.contractHash,
     cp.checkpointSeq, cp.snapshotBlock]
  }

  predicate HasRoots(cp: CheckpointRow) {
    cp.stateRoot.Some? && cp.blockMerkleRoot.Some? && cp.stateRootVersion.Some? && cp.blockMerkleVersion.Some?
  }

  function RootFields(cp: CheckpointRow, g: Gates): seq<string> {
    if g.commitment(cp.snapshotBlock, cp.network) && HasRoots(cp) then
      [Lower(cp.stateRoot.value), cp.stateRootVersion.value, Lower(cp.blockMerkleRoot.value), cp.blockMerkleVersion.value]
    else []
  }

  function RoundId(cp: CheckpointRow): string {
    cp.chain + "|" + cp.network + "|" + cp.blockIndex + "|" + cp.checkpointSeq
  }

  function CheckpointKey(cp: CheckpointRow): string {
    EquivKey("XCHECKPOINT", RoundId(cp), "0")
  }

  function RootedText(cp: CheckpointRow, g: Gates): string {
    var raw := Join(BaseFields(cp), BAR);
    var roots := RootFields(cp, g);
    if roots == [] then raw else raw + "|" + Join(roots, BAR)
  }

  /** The text before any header; Err where the source throws. */
  function CanonRaw(cp: CheckpointRow, g: Gates): Result<string, string> {
    if g.supersede(cp.snapshotBlock, cp.network) then
      match SupersedeSuffix(cp)
      case Err(e) => Err(e)
      case Ok(suffix) => Ok(RootedText(cp, g) + suffix)
    else Ok(RootedText(cp, g))
  }

  function CanonicalCheckpointString(cp: CheckpointRow, g: Gates): Result<string, string> {
    match CanonRaw(cp, g)
    case Err(e) => Err(e)
    case Ok(raw) =>
      if g.equivHeader(cp.snapshotBlock, cp.network) then
        Ok(BuildEquivCanonical("XCHECKPOINT", RoundId(cp), "0", raw))
      else Ok(raw)
  }

  // ---- The fields it stands for ----

  ghost predicate Wrapped(cp: CheckpointRow, g: Gates) {
    g.equivHeader(cp.snapshotBlock, cp.network)
  }

  ghost function HeaderFields(cp: CheckpointRow): seq<string> {
    ["EQUIV", "XCHECKPOINT", cp.chain, cp.network, cp.blockIndex, cp.checkpointSeq, "0", ""]
  }

  /** The supersession fields the row's text carries under the gates. */
  ghost function SupersedeFields(cp: CheckpointRow, g: Gates): seq<string> {
    if g.supersede(cp.snapshotBlock, cp.network) && SupersedeFieldsValid(cp) then
      ["SUPERSEDE", Decimal(cp.supersedesFrom.value.value), Lower(cp.rulesDigest.value)]
    else []
  }

  ghost function ContentFields(cp: CheckpointRow, g: Gates): seq<string> {
    BaseFields(cp) + RootFields(cp, g) + SupersedeFields(cp, g)
  }

  ghost function AllFields(cp: CheckpointRow, g: Gates): seq<string> {
    if Wrapped(cp, g) then HeaderFields(cp) + ContentFields(cp, g) else ContentFields(cp, g)
  }

  ghost function RoundFields(cp: CheckpointRow): seq<string> {
    [cp.chain, cp.network, cp.blockIndex, cp.checkpointSeq]
  }

  ghost function KeyFields(cp: CheckpointRow): seq<string> {
    ["XCHECKPOINT"] + RoundFields(cp) + ["0"]
  }

  lemma KeyJoin(cp: CheckpointRow)
    ensures Join(KeyFields(cp), BAR) == CheckpointKey(cp)
  {
    var c, n, b, s := [cp.chain], [cp.network], [cp.blockIndex], [cp.checkpointSeq];
    JoinAppend(c, n, BAR);
    JoinAppend(c + n, b, BAR);
    JoinAppend(c + n + b, s, BAR);
    assert RoundFields(cp) == c + n + b + s;
    JoinAppend(["XCHECKPOINT"], RoundFields(cp), BAR);
    JoinAppend(["XCHECKPOINT"] + RoundFields(cp), ["0"], BAR);
  }

  lemma HeaderJoin(cp: CheckpointRow)
    ensures Join(HeaderFields(cp), BAR) + "|" == EquivPrefix(CheckpointKey(cp))
  {
    assert HeaderFields(cp) == ["EQUIV"] + KeyFields(cp) + [""];
    KeyJoin(cp);
    JoinAppend(["EQUIV"], KeyFields(cp), BAR);
    JoinAppend(["EQUIV"] + KeyFields(cp), [""], BAR);
    var k := CheckpointKey(cp);
    assert "EQUIV" + [BAR] + k + [BAR] + "" + "|" == "EQUIV|" + k + "||";
  }

  lemma SupersedeJoin(cp: CheckpointRow, g: Gates)
    requires SupersedeSuffix(cp).Ok? && g.supersede(cp.snapshotBlock, cp.network)
    ensures SupersedeFields(cp, g) == [] ==> SupersedeSuffix(cp).value == ""
    ensures SupersedeFields(cp, g) != [] ==> SupersedeSuffix(cp).value == "|" + Join(SupersedeFields(cp, g), BAR)
  {
    var f := SupersedeFields(cp, g);
    if f != [] {
      JoinAppend(["SUPERSEDE"], [f[1]], BAR);
      JoinAppend(["SUPERSEDE", f[1]], [f[2]], BAR);
      assert ["SUPERSEDE"] + [f[1]] == ["SUPERSEDE", f[1]] && ["SUPERSEDE", f[1]] + [f[2]] == f;
      assert "|" + ("SUPERSEDE" + [BAR] + f[1] + [BAR] + f[2]) == "|SUPERSEDE|" + f[1] + "|" + f[2];
    }
  }

  lemma JoinMore(text: string, fields: seq<string>, more: seq<string>)
    requires fields != [] && text == Join(fields, BAR)
    ensures Join(fields + more, BAR) == if more == [] then text else text + "|" + Join(more, BAR)
  {
    if more == [] {
      assert fields + more == fields;
    } else {
      JoinAppend(fields, more, BAR);
    }
  }

  lemma RootedIsJoin(cp: CheckpointRow, g: Gates)
    ensures RootedText(cp, g) == Join(BaseFields(cp) + RootFields(cp, g), BAR)
  {
    JoinMore(Join(BaseFields(cp), BAR), BaseFields(cp), RootFields(cp, g));
  }

  lemma SuffixIsJoin(text: string, fields: seq<string>, suffix: string, more: seq<string>)
    requires fields != [] && text == Join(fields, BAR)
    requires suffix == if more == [] then "" else "|" + Join(more, BAR)
    ensures text + suffix == Join(fields + more, BAR)
  {
    JoinMore(text, fields, more);
    if more == [] {
      assert text + "" == text;
    } else {
      assert text + ("|" + Join(more, BAR)) == text + "|" + Join(more, BAR);
    }
  }

  lemma RawIsJoin(cp: CheckpointRow, g: Gates)
    requires CanonRaw(cp, g).Ok?
    ensures CanonRaw(cp, g) == Ok(Join(ContentFields(cp, g), BAR))
  {
    RootedIsJoin(cp, g);
    if g.supersede(cp.snapshotBlock, cp.network) {
      SupersedeJoin(cp, g);
      SuffixIsJoin(RootedText(cp, g), BaseFields(cp) + RootFields(cp, g), SupersedeSuffix(cp).value, SupersedeFields(cp, g));
    } else {
      assert ContentFields(cp, g) == BaseFields(cp) + RootFields(cp, g);
    }
  }

  /** The signed text is the join of its fields, in every shape. */
  lemma TextIsJoin(cp: CheckpointRow, g: Gates)
    requires CanonicalCheckpointString(cp, g).Ok?
    ensures CanonicalCheckpointString(cp, g) == Ok(Join(AllFields(cp, g), BAR))
  {
    RawIsJoin(cp, g);
    if Wrapped(cp, g) {
      HeaderJoin(cp);
      JoinAppend(HeaderFields(cp), ContentFields(cp, g), BAR);
    }
  }

  lemma {:induction false} JoinThree(a: string, b: string, c: string, rest: seq<string>)
    requires rest != []
    ensures Join([a, b, c] + rest, BAR) == a + "|" + b + "|" + c + "|" + Join(rest, BAR)
  {
    JoinAppend([a], [b, c] + rest, BAR);
    JoinAppend([b], [c] + rest, BAR);
    JoinAppend([c], rest, BAR);
    assert [a, b, c] + rest == [a] + ([b, c] + rest) && [b, c] + rest == [b] + ([c] + rest);
    assert a + [BAR] + (b + [BAR] + (c + [BAR] + Join(rest, BAR))) == a + "|" + b + "|" + c + "|" + Join(rest, BAR);
  }

  // ---- The text in full ----

  ghost function HeaderText(cp: CheckpointRow, g: Gates): string {
    if g.equivHeader(cp.snapshotBlock, cp.network) then
      "EQUIV|" + ("XCHECKPOINT" + "|" + (cp.chain + "|" + cp.network + "|" + cp.blockIndex + "|" + cp.checkpointSeq) +
                  "|" + "0") + "||"
    else ""
  }

  ghost function BaseText(cp: CheckpointRow): string {
    "XCHECKPOINT" + "|" + cp.chain + "|" + cp.network + "|" +
    (cp.blockIndex + "|" + cp.blockHash + "|" + cp.ledgerHash + "|" +
     (cp.actionsHash + "|" + cp.contractHash + "|" + cp.checkpointSeq + "|" + cp.snapshotBlock))
  }

  ghost function RootsText(cp: CheckpointRow, g: Gates): string {
    match (cp.stateRoot, cp.stateRootVersion, cp.blockMerkleRoot, cp.blockMerkleVersion)
    case (Some(state), Some(stateVersion), Some(blocks), Some(blocksVersion)) =>
      if g.commitment(cp.snapshotBlock, cp.network) then
        "|" + (Lower(state) + "|" + stateVersion + "|" + Lower(blocks) + "|" + blocksVersion)
      else ""
    case _ => ""
  }

  ghost function SupersedeText(cp: CheckpointRow, g: Gates): string {
    match (cp.supersedesFrom, cp.rulesDigest)
    case (Some(Integer(from)), Some(digest)) =>
      if g.supersede(cp.snapshotBlock, cp.network) && from >= 0 then "|SUPERSEDE|" + Decimal(from) + "|" + Lower(digest)
      else ""
    case _ => ""
  }

  lemma BaseInFull(cp: CheckpointRow)
    ensures Join(BaseFields(cp), BAR) == BaseText(cp)
  {
    var three, six := [cp.actionsHash, cp.contractHash, cp.checkpointSeq] + [cp.snapshotBlock],
                      [cp.blockIndex, cp.blockHash, cp.ledgerHash];
    JoinThree("XCHECKPOINT", cp.chain, cp.network, six + three);
    JoinThree(cp.blockIndex, cp.blockHash, cp.ledgerHash, three);
    JoinThree(cp.actionsHash, cp.contractHash, cp.checkpointSeq, [cp.snapshotBlock]);
    assert BaseFields(cp) == ["XCHECKPOINT", cp.chain, cp.network] + (six + three);
  }

  lemma RootedInFull(cp: CheckpointRow, g: Gates)
    ensures RootedText(cp, g) == BaseText(cp) + RootsText(cp, g)
  {
    BaseInFull(cp);
    var f := RootFields(cp, g);
    if f == [] {
      assert BaseText(cp) + "" == BaseText(cp);
    } else {
      JoinThree(f[0], f[1], f[2], [f[3]]);
      assert f == [f[0], f[1], f[2]] + [f[3]];
    }
  }

  lemma RawInFull(cp: CheckpointRow, g: Gates)
    requires CanonRaw(cp, g).Ok?
    ensures CanonRaw(cp, g).value == BaseText(cp) + RootsText(cp, g) + SupersedeText(cp, g)
  {
    RootedInFull(cp, g);
    var rooted := RootedText(cp, g);
    assert rooted + "" == rooted;
  }

  /**
   The signed text in full: the header, the ten columns, the roots and the supersession, each
   where its flag day and the row have them.
   */
  lemma TextInFull(cp: CheckpointRow, g: Gates)
    requires CanonicalCheckpointString(cp, g).Ok?
    ensures CanonicalCheckpointString(cp, g) ==
            Ok(HeaderText(cp, g) + (BaseText(cp) + RootsText(cp, g) + SupersedeText(cp, g)))
  {
    RawInFull(cp, g);
    var raw := CanonRaw(cp, g).value;
    assert "" + raw == raw;
  }

  // ---- Reading it back ----

  ghost predicate OptFree(o: Option<string>) {
    o.Some? ==> BAR !in o.value
  }

  /** No column of the row contains a bar. */
  ghost predicate PipeFree(cp: CheckpointRow) {
    && Free(BaseFields(cp), BAR)
    && OptFree(cp.stateRoot) && OptFree(cp.stateRootVersion) && OptFree(cp.blockMerkleRoot)
    && OptFree(cp.blockMerkleVersion)
  }

  lemma AllFieldsFree(cp: CheckpointRow, g: Gates)
    requires PipeFree(cp)
    ensures Free(AllFields(cp, g), BAR)
  {
    var base := BaseFields(cp);
    assert cp.chain == base[1] && cp.network == base[2] && cp.blockIndex == base[3] && cp.checkpointSeq == base[8];
    if RootFields(cp, g) != [] {
      LowerKeepsFree(cp.stateRoot.value, BAR);
      LowerKeepsFree(cp.blockMerkleRoot.value, BAR);
    }
    if SupersedeFields(cp, g) != [] {
      LowerKeepsFree(cp.rulesDigest.value, BAR);
    }
    forall f | f in AllFields(cp, g)
      ensures BAR !in f
    {
      assert f in HeaderFields(cp) || f in base || f in RootFields(cp, g) || f in SupersedeFields(cp, g);
    }
  }

  /**
   Two texts are equal exactly when they have the same shape and the same fields: all ten base
   fields, the roots (hex up to case) and the supersession fields the gates append. The gates
   need not be the same on the two sides.
   */
  lemma TextExactly(a: CheckpointRow, ga: Gates, b: CheckpointRow, gb: Gates)
    requires PipeFree(a) && PipeFree(b)
    requires CanonicalCheckpointString(a, ga).Ok? && CanonicalCheckpointString(b, gb).Ok?
    ensures CanonicalCheckpointString(a, ga) == CanonicalCheckpointString(b, gb) <==>
            && (Wrapped(a, ga) <==> Wrapped(b, gb))
            && BaseFields(a) == BaseFields(b)
            && RootFields(a, ga) == RootFields(b, gb)
            && SupersedeFields(a, ga) == SupersedeFields(b, gb)
  {
    TextIsJoin(a, ga);
    TextIsJoin(b, gb);
    AllFieldsFree(a, ga);
    AllFieldsFree(b, gb);
    JoinInjective(AllFields(a, ga), AllFields(b, gb), BAR);
    if AllFields(a, ga) == AllFields(b, gb) {
      FieldsSplit(a, ga, b, gb);
    } else if (Wrapped(a, ga) <==> Wrapped(b, gb)) && BaseFields(a) == BaseFields(b) {
      SameBase(a, b);
    }
  }

  lemma SameBase(a: CheckpointRow, b: CheckpointRow)
    requires BaseFields(a) == BaseFields(b)
    ensures a.chain == b.chain && a.network == b.network && a.blockIndex == b.blockIndex && a.blockHash == b.blockHash
    ensures a.ledgerHash == b.ledgerHash && a.actionsHash == b.actionsHash && a.contractHash == b.contractHash
    ensures a.checkpointSeq == b.checkpointSeq && a.snapshotBlock == b.snapshotBlock
    ensures HeaderFields(a) == HeaderFields(b)
  {
    var f, h := BaseFields(a), BaseFields(b);
    assert f[1] == h[1] && f[2] == h[2] && f[3] == h[3] && f[4] == h[4] && f[5] == h[5];
    assert f[6] == h[6] && f[7] == h[7] && f[8] == h[8] && f[9] == h[9];
  }

  lemma Cancel(a: seq<string>, b: seq<string>, c: seq<string>, d: seq<string>)
    requires a + b == c + d && |a| == |c|
    ensures a == c && b == d
  {
    assert a == (a + b)[..|a|] && c == (c + d)[..|a|];
    assert b == (a + b)[|a|..] && d == (c + d)[|a|..];
  }

  /** The lengths alone tell roots from supersession fields. */
  lemma OptionalSplit(ra: seq<string>, sa: seq<string>, rb: seq<string>, sb: seq<string>)
    requires |ra| in {0, 4} && |rb| in {0, 4} && |sa| in {0, 3} && |sb| in {0, 3}
    requires ra + sa == rb + sb
    ensures ra == rb && sa == sb
  {
    assert |ra| + |sa| == |ra + sa| == |rb + sb| == |rb| + |sb|;
    Cancel(ra, sa, rb, sb);
  }

  lemma ContentSplit(a: CheckpointRow, ga: Gates, b: CheckpointRow, gb: Gates)
    requires ContentFields(a, ga) == ContentFields(b, gb)
    ensures BaseFields(a) == BaseFields(b)
    ensures RootFields(a, ga) == RootFields(b, gb) && SupersedeFields(a, ga) == SupersedeFields(b, gb)
  {
    var ra, rb, sa, sb := RootFields(a, ga), RootFields(b, gb), SupersedeFields(a, ga), SupersedeFields(b, gb);
    assert ContentFields(a, ga) == BaseFields(a) + (ra + sa);
    assert ContentFields(b, gb) == BaseFields(b) + (rb + sb);
    Cancel(BaseFields(a), ra + sa, BaseFields(b), rb + sb);
    OptionalSplit(ra, sa, rb, sb);
  }

  lemma FieldsSplit(a: CheckpointRow, ga: Gates, b: CheckpointRow, gb: Gates)
    requires AllFields(a, ga) == AllFields(b, gb)
    ensures Wrapped(a, ga) <==> Wrapped(b, gb)
    ensures BaseFields(a) == BaseFields(b)
    ensures RootFields(a, ga) == RootFields(b, gb) && SupersedeFields(a, ga) == SupersedeFields(b, gb)
  {
    assert AllFields(a, ga)[0] == if Wrapped(a, ga) then "EQUIV" else "XCHECKPOINT";
    assert AllFields(b, gb)[0] == if Wrapped(b, gb) then "EQUIV" else "XCHECKPOINT";
    assert |"EQUIV"| != |"XCHECKPOINT"|;
    if Wrapped(a, ga) {
      Cancel(HeaderFields(a), ContentFields(a, ga), HeaderFields(b), ContentFields(b, gb));
    }
    ContentSplit(a, ga, b, gb);
  }

  /** In columns: equal texts agree on every one they carry, the digests up to letter case. */
  lemma SameTextSameColumns(a: CheckpointRow, b: CheckpointRow, g: Gates)
    requires PipeFree(a) && PipeFree(b)
    requires CanonicalCheckpointString(a, g).Ok? && CanonicalCheckpointString(a, g) == CanonicalCheckpointString(b, g)
    ensures BaseFields(a) == BaseFields(b)
    ensures g.commitment(a.snapshotBlock, a.network) ==>
              && (HasRoots(a) <==> HasRoots(b))
              && (HasRoots(a) ==>
                    && Lower(a.stateRoot.value) == Lower(b.stateRoot.value)
                    && Lower(a.blockMerkleRoot.value) == Lower(b.blockMerkleRoot.value)
                    && a.stateRootVersion == b.stateRootVersion && a.blockMerkleVersion == b.blockMerkleVersion)
    ensures g.supersede(a.snapshotBlock, a.network) ==>
              && (HasSupersedeFields(a) <==> HasSupersedeFields(b))
              && (HasSupersedeFields(a) ==>
                    && a.supersedesFrom == b.supersedesFrom
                    && Lower(a.rulesDigest.value) == Lower(b.rulesDigest.value))
  {
    TextExactly(a, g, b, g);
    SameBase(a, b);
    var ra, rb := RootFields(a, g), RootFields(b, g);
    if ra != [] {
      assert ra[0] == rb[0] && ra[1] == rb[1] && ra[2] == rb[2] && ra[3] == rb[3];
    }
    var sa, sb := SupersedeFields(a, g), SupersedeFields(b, g);
    if sa != [] {
      assert sa[1] == sb[1] && sa[2] == sb[2];
      DecimalInjective(a.supersedesFrom.value.value, b.supersedesFrom.value.value);
    }
  }

  // ---- When only one row is known to be clean ----

  /** A text read as at least as many fields as a clean row has is that row's text field by field. */
  lemma OneSidedFields(a: CheckpointRow, ga: Gates, b: CheckpointRow, gb: Gates)
    requires PipeFree(a) && |AllFields(b, gb)| >= |AllFields(a, ga)|
    requires CanonicalCheckpointString(a, ga).Ok? && CanonicalCheckpointString(a, ga) == CanonicalCheckpointString(b, gb)
    ensures AllFields(a, ga) == AllFields(b, gb)
  {
    TextIsJoin(a, ga);
    TextIsJoin(b, gb);
    AllFieldsFree(a, ga);
    JoinSeparators(AllFields(a, ga), BAR);
    JoinSeparators(AllFields(b, gb), BAR);
    JoinInjective(AllFields(a, ga), AllFields(b, gb), BAR);
  }

  lemma SameTextSameWrap(a: CheckpointRow, ga: Gates, b: CheckpointRow, gb: Gates)
    requires CanonicalCheckpointString(a, ga).Ok? && CanonicalCheckpointString(a, ga) == CanonicalCheckpointString(b, gb)
    ensures Wrapped(a, ga) <==> Wrapped(b, gb)
  {
    TextIsJoin(a, ga);
    TextIsJoin(b, gb);
    FirstLetter(a, ga);
    FirstLetter(b, gb);
  }

  lemma FirstLetter(cp: CheckpointRow, g: Gates)
    ensures Join(AllFields(cp, g), BAR) != ""
    ensures Join(AllFields(cp, g), BAR)[0] == if Wrapped(cp, g) then 'E' else 'X'
  {
    var f := AllFields(cp, g);
    assert f[0] == if Wrapped(cp, g) then "EQUIV" else "XCHECKPOINT";
    assert |f| > 1;
  }

  ghost predicate SameFields(a: CheckpointRow, b: CheckpointRow, g: Gates) {
    && BaseFields(a) == BaseFields(b) && RootFields(a, g) == RootFields(b, g)
    && SupersedeFields(a, g) == SupersedeFields(b, g)
  }

  /** The row with its appended fields written into the snapshot column instead. */
  function Folded(cp: CheckpointRow, appended: seq<string>): CheckpointRow {
    cp.(snapshotBlock := cp.snapshotBlock + "|" + Join(appended, BAR), stateRoot := None, blockMerkleRoot := None,
        stateRootVersion := None, blockMerkleVersion := None, supersedesFrom := None, rulesDigest := None)
  }

  lemma JoinLastWith(init: seq<string>, last: string, more: seq<string>)
    requires init != [] && more != []
    ensures Join(init + [last] + more, BAR) == Join(init + [last + "|" + Join(more, BAR)], BAR)
  {
    JoinAppend(init + [last], more, BAR);
    JoinAppend(init, [last], BAR);
    JoinAppend(init, [last + "|" + Join(more, BAR)], BAR);
    assert Join(init, BAR) + [BAR] + last + [BAR] + Join(more, BAR) ==
           Join(init, BAR) + [BAR] + (last + "|" + Join(more, BAR));
  }

  /** Appended fields read the same as a bar in the snapshot column of a row without them. */
  lemma FoldedTextIsSame(a: CheckpointRow, g: Gates)
    requires CanonicalCheckpointString(a, g).Ok? && RootFields(a, g) + SupersedeFields(a, g) != []
    requires Wrapped(Folded(a, RootFields(a, g) + SupersedeFields(a, g)), g) <==> Wrapped(a, g)
    ensures CanonicalCheckpointString(Folded(a, RootFields(a, g) + SupersedeFields(a, g)), g) == CanonicalCheckpointString(a, g)
    ensures BaseFields(Folded(a, RootFields(a, g) + SupersedeFields(a, g))) != BaseFields(a)
  {
    var appended := RootFields(a, g) + SupersedeFields(a, g);
    var b := Folded(a, appended);
    var init := BaseFields(a)[..9];
    assert BaseFields(a) == init + [a.snapshotBlock] && BaseFields(b) == init + [b.snapshotBlock];
    assert |b.snapshotBlock| > |a.snapshotBlock| && BaseFields(b)[9] != BaseFields(a)[9];
    JoinLastWith(init, a.snapshotBlock, appended);
    RawIsJoin(a, g);
    assert ContentFields(a, g) == BaseFields(a) + appended;
    assert RootFields(b, g) == [] && CanonRaw(b, g) == Ok(RootedText(b, g) + "") == Ok(Join(BaseFields(b), BAR)) by {
      assert RootedText(b, g) + "" == RootedText(b, g);
    }
  }

  /**
   A clean row's text is no other row's, clean or not, exactly when it carries no root and no
   supersession field. The gates read the leading number of the snapshot column, as parseInt does.
   */
  lemma OneSidedExactly(a: CheckpointRow, g: Gates)
    requires PipeFree(a) && CanonicalCheckpointString(a, g).Ok?
    requires forall t: string :: g.equivHeader(a.snapshotBlock + "|" + t, a.network) == g.equivHeader(a.snapshotBlock, a.network)
    ensures (forall b | CanonicalCheckpointString(b, g) == CanonicalCheckpointString(a, g) :: SameFields(a, b, g)) <==>
            RootFields(a, g) == [] && SupersedeFields(a, g) == []
  {
    var appended := RootFields(a, g) + SupersedeFields(a, g);
    if appended == [] {
      forall b | CanonicalCheckpointString(b, g) == CanonicalCheckpointString(a, g)
        ensures SameFields(a, b, g)
      {
        SameTextSameWrap(a, g, b, g);
        OneSidedFields(a, g, b, g);
        FieldsSplit(a, g, b, g);
      }
    } else {
      FoldedTextIsSame(a, g);
      assert !SameFields(a, Folded(a, appended), g);
    }
  }

  // ---- The bare shape ----

  /** Below every flag day. */
  ghost predicate Bare(g: Gates) {
    forall x, y :: !g.commitment(x, y) && !g.supersede(x, y) && !g.equivHeader(x, y)
  }

  lemma BareText(cp: CheckpointRow, g: Gates)
    requires Bare(g)
    ensures CanonicalCheckpointString(cp, g) == Ok(Join(BaseFields(cp), BAR)) && AllFields(cp, g) == BaseFields(cp)
  {
    assert RootFields(cp, g) == [] && SupersedeFields(cp, g) == [];
  }

  /** The row with other base columns. */
  function WithBase(cp: CheckpointRow, f: seq<string>): (r: CheckpointRow)
    requires |f| == 10 && f[0] == "XCHECKPOINT"
    ensures BaseFields(r) == f
  {
    cp.(chain := f[1], network := f[2], blockIndex := f[3], blockHash := f[4], ledgerHash := f[5], actionsHash := f[6],
        contractHash := f[7], checkpointSeq := f[8], snapshotBlock := f[9])
  }

  /** Two neighbours replaced by two others that join to the same text. */
  lemma JoinNeighbours(f: seq<string>, j: nat, x: string, y: string)
    requires 0 < j < |f| - 1 && f[j] + "|" + f[j + 1] == x + "|" + y
    ensures Join(f[j := x][j + 1 := y], BAR) == Join(f, BAR)
  {
    var pre, post := f[..j], f[j + 2..];
    assert f == pre + ([f[j], f[j + 1]] + post);
    assert f[j := x][j + 1 := y] == pre + ([x, y] + post);
    JoinPair(f[j], f[j + 1], post);
    JoinPair(x, y, post);
    JoinAppend(pre, [f[j], f[j + 1]] + post, BAR);
    JoinAppend(pre, [x, y] + post, BAR);
  }

  lemma JoinPair(x: string, y: string, post: seq<string>)
    ensures Join([x, y] + post, BAR) == if post == [] then x + "|" + y else x + "|" + y + "|" + Join(post, BAR)
  {
    assert [x, y] == [x] + [y];
    JoinAppend([x], [y], BAR);
    JoinMore(x + "|" + y, [x, y], post);
  }

  /** A bar in a column can be moved to the column beside it. */
  lemma ShiftBar(a: CheckpointRow, i: nat) returns (b: CheckpointRow)
    requires 0 < i < 10 && BAR in BaseFields(a)[i]
    ensures Join(BaseFields(b), BAR) == Join(BaseFields(a), BAR) && BaseFields(b) != BaseFields(a)
  {
    var f := BaseFields(a);
    var k :| 0 <= k < |f[i]| && f[i][k] == BAR;
    var x, y := f[i][..k], f[i][k + 1..];
    assert f[i] == x + "|" + y;
    if i < 9 {
      assert x + "|" + (y + "|" + f[i + 1]) == f[i] + "|" + f[i + 1];
      JoinNeighbours(f, i, x, y + "|" + f[i + 1]);
      b := WithBase(a, f[i := x][i + 1 := y + "|" + f[i + 1]]);
    } else {
      assert f[8] + "|" + x + "|" + y == f[8] + "|" + f[9];
      JoinNeighbours(f, 8, f[8] + "|" + x, y);
      b := WithBase(a, f[8 := f[8] + "|" + x][9 := y]);
    }
    assert |BaseFields(b)[i]| < |f[i]|;
  }

  /** Below every flag day a row's text is no other row's exactly when no column of it holds a bar. */
  lemma BareTextExactly(a: CheckpointRow, g: Gates)
    requires Bare(g)
    ensures (forall b | CanonicalCheckpointString(b, g) == CanonicalCheckpointString(a, g) :: BaseFields(b) == BaseFields(a))
            <==> Free(BaseFields(a), BAR)
  {
    BareText(a, g);
    if Free(BaseFields(a), BAR) {
      forall b | CanonicalCheckpointString(b, g) == CanonicalCheckpointString(a, g)
        ensures BaseFields(b) == BaseFields(a)
      {
        BareText(b, g);
        JoinSeparators(BaseFields(a), BAR);
        JoinSeparators(BaseFields(b), BAR);
        JoinInjective(BaseFields(a), BaseFields(b), BAR);
      }
    } else {
      var f :| f in BaseFields(a) && BAR in f;
      var i :| 0 <= i < 10 && BaseFields(a)[i] == f;
      assert i > 0;
      var b := ShiftBar(a, i);
      BareText(b, g);
    }
  }

  /** A bar inside a column breaks this: two different rows, one text. */
  lemma BarInColumnCollides(a: CheckpointRow, g: Gates)
    requires a.chain == "A|B" && a.network == "C"
    requires forall x, y :: !g.commitment(x, y) && !g.supersede(x, y) && !g.equivHeader(x, y)
    ensures CanonicalCheckpointString(a, g) == CanonicalCheckpointString(a.(chain := "A", network := "B|C"), g)
  {
    var b := a.(chain := "A", network := "B|C");
    var rest := [a.blockIndex, a.blockHash, a.ledgerHash, a.actionsHash, a.contractHash, a.checkpointSeq, a.snapshotBlock];
    assert BaseFields(a) == ["XCHECKPOINT", "A|B", "C"] + rest;
    assert BaseFields(b) == ["XCHECKPOINT", "A", "B|C"] + rest;
    JoinAppend(["XCHECKPOINT", "A|B", "C"], rest, BAR);
    JoinAppend(["XCHECKPOINT", "A", "B|C"], rest, BAR);
    assert ["XCHECKPOINT", "A|B", "C"][1..] == ["A|B", "C"] && ["A|B", "C"][1..] == ["C"];
    assert ["XCHECKPOINT", "A", "B|C"][1..] == ["A", "B|C"] && ["A", "B|C"][1..] == ["B|C"];
    assert Join(["XCHECKPOINT", "A|B", "C"], BAR) == "XCHECKPOINT|A|B|C" == Join(["XCHECKPOINT", "A", "B|C"], BAR);
  }

  // ---- The key of a checkpoint ----

  /** The columns of the round id, none empty and none with a bar. */
  predicate RoundIsClear(cp: CheckpointRow) {
    && cp.chain != "" && cp.network != "" && cp.blockIndex != "" && cp.checkpointSeq != ""
    && Free([cp.chain, cp.network, cp.blockIndex, cp.checkpointSeq], BAR)
  }

  lemma {:induction false} JoinIsClear(parts: seq<string>)
    requires parts != [] && Free(parts, BAR) && "" !in parts
    ensures KeyIsClear(Join(parts, BAR)) && Join(parts, BAR) != "" && Join(parts, BAR)[0] != BAR
  {
    var head := parts[0];
    assert head in parts && head[0] in head && head[|head| - 1] in head;
    if |parts| > 1 {
      var tail := Join(parts[1..], BAR);
      JoinIsClear(parts[1..]);
      var s := Join(parts, BAR);
      assert s == head + [BAR] + tail;
      forall i | 0 <= i < |s| - 1
        ensures !(s[i] == BAR && s[i + 1] == BAR)
      {
        if i < |head| {
          assert s[i] in head;
        } else if i > |head| {
          var j := i - |head| - 1;
          assert s[i] == tail[j] && s[i + 1] == tail[j + 1];
        } else {
          assert s[i + 1] == tail[0];
        }
      }
    } else {
      forall i | 0 <= i < |head|
        ensures head[i] != BAR
      {
        assert head[i] in head;
      }
    }
  }

  lemma CheckpointKeyIsClear(cp: CheckpointRow)
    requires RoundIsClear(cp)
    ensures KeyIsClear(CheckpointKey(cp))
  {
    KeyJoin(cp);
    forall p | p in KeyFields(cp)
      ensures p != "" && BAR !in p
    {
      assert p in RoundFields(cp) || p in ["XCHECKPOINT", "0"];
    }
    JoinIsClear(KeyFields(cp));
  }

  /** A wrapped checkpoint text starts with the prefix of its own round and of no other checkpoint's. */
  lemma TextNamesRound(cp: CheckpointRow, g: Gates, other: CheckpointRow)
    requires RoundIsClear(cp) && RoundIsClear(other) && Wrapped(cp, g) && CanonicalCheckpointString(cp, g).Ok?
    ensures EquivPrefix(CheckpointKey(other)) <= CanonicalCheckpointString(cp, g).value <==>
            CheckpointKey(other) == CheckpointKey(cp)
  {
    CheckpointKeyIsClear(cp);
    CheckpointKeyIsClear(other);
    var text := CanonicalCheckpointString(cp, g).value;
    var content := text[|EquivPrefix(CheckpointKey(cp))|..];
    assert text == EquivPrefix(CheckpointKey(cp)) + content;
    PrefixNamesKey(CheckpointKey(other), CheckpointKey(cp), content);
  }
}
