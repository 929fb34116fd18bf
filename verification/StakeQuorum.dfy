/**
 The stake-weighted quorum test, source by source.

 Weights are exact reals: the source works in 64-digit decimals, wide enough for every stake it
 meets. `Clears` is the test said over sets of sources; the methods are the loops that decide it.
 */
module StakeQuorum {
  import opened Sequences
  import opened Wrappers
  import opened Text

  datatype Validator = Validator(pubkey: string, source: Option<string>, weight: Option<string>)

  /** A row of the list can itself be null. */
  datatype Snapshot = Snapshot(rows: seq<Option<Validator>>, truncated: bool)

  // ---- Weights as text ----

  /** Digits with at most one point and at least one digit. */
  predicate IsUnsigned(s: string) {
    AllDigits(IntPart(s)) && AllDigits(FracPart(s)) && (IntPart(s) != "" || FracPart(s) != "")
  }

  /** Its digits as a number, the point then moved back over the fraction. */
  function Unsigned(s: string): real
    requires IsUnsigned(s)
  {
    var f := FracPart(s);
    (Shift(Numeral(IntPart(s)), |f|) + Numeral(f)) as real / Shift(1, |f|) as real
  }

  /** A decimal with an optional sign, blanks around it allowed; None where it is refused. */
  function Weight(text: string): Option<real> {
    var s := Trim(text);
    var signed := s != "" && s[0] in {'+', '-'};
    var body := if signed then s[1..] else s;
    if !IsUnsigned(body) then None
    else if signed && s[0] == '-' then Some(-Unsigned(body))
    else Some(Unsigned(body))
  }

  /**
   Blanks, an optional sign, digits with at most one point and at least one digit, blanks: `i` and
   `f` are the digits before and after the point.
   */
  ghost predicate SpellsWeight(text: string, before: string, sign: string, i: string, point: string, f: string, after: string) {
    && AllBlank(before) && AllBlank(after) && sign in {"", "+", "-"} && point in {"", "."}
    && AllDigits(i) && AllDigits(f) && (i != "" || f != "") && (f != "" ==> point == ".")
    && text == before + (sign + (i + point + f)) + after
  }

  lemma UnsignedSpelled(i: string, point: string, f: string)
    requires AllDigits(i) && AllDigits(f) && (i != "" || f != "") && point in {"", "."} && (f != "" ==> point == ".")
    ensures IsUnsigned(i + point + f) && IntPart(i + point + f) == i && FracPart(i + point + f) == f
    ensures Tight(i + point + f)
    ensures (i + point + f)[0] !in {'+', '-'}
  {
    var body := i + point + f;
    forall c | c in i || c in f
      ensures !IsBlank(c) && c != '.' && c !in {'+', '-'}
    {
    }
    if point == "." {
      PointAfterDigits(i, f);
      assert body == i + "." + f;
    } else {
      assert body == i && '.' !in i;
    }
    assert body[0] in i || body[0] == '.';
    assert body[|body| - 1] in i || body[|body| - 1] in f || body[|body| - 1] == '.';
  }

  /** All digits as one number, over ten to the number of those after the point. */
  ghost function DigitsWorth(i: string, f: string): real
    requires AllDigits(i) && AllDigits(f)
  {
    assert forall c | c in i + f :: c in i || c in f;
    Numeral(i + f) as real / Shift(1, |f|) as real
  }

  lemma UnsignedValue(body: string, i: string, f: string)
    requires AllDigits(i) && AllDigits(f) && IsUnsigned(body) && IntPart(body) == i && FracPart(body) == f
    ensures Unsigned(body) == DigitsWorth(i, f)
  {
    NumeralConcat(i, f);
  }

  lemma WeightOfSigned(text: string, sign: string, body: string)
    requires sign in {"", "+", "-"} && body != "" && body[0] !in {'+', '-'} && Trim(text) == sign + body
    ensures Weight(text) ==
            if !IsUnsigned(body) then None else if sign == "-" then Some(-Unsigned(body)) else Some(Unsigned(body))
  {
    var s := sign + body;
    if sign == "" {
      assert s == body;
    } else {
      assert s[0] == sign[0] && s[1..] == body;
    }
  }

  lemma TightSigned(sign: string, body: string)
    requires sign in {"", "+", "-"} && body != "" && Tight(body)
    ensures Tight(sign + body)
  {
    if sign == "" {
      assert sign + body == body;
    } else {
      assert (sign + body)[0] == sign[0] && (sign + body)[|sign + body| - 1] == body[|body| - 1];
    }
  }

  lemma SpelledWeight(text: string, before: string, sign: string, i: string, point: string, f: string, after: string)
    returns (body: string)
    requires SpellsWeight(text, before, sign, i, point, f, after)
    ensures IsUnsigned(body) && IntPart(body) == i && FracPart(body) == f
    ensures Weight(text) == Some(if sign == "-" then -Unsigned(body) else Unsigned(body))
  {
    body := i + point + f;
    UnsignedSpelled(i, point, f);
    TightSigned(sign, body);
    TrimOf(before, sign + body, after);
    WeightOfSigned(text, sign, body);
  }

  /** Such a text is a weight: what its digits are worth, under its sign. */
  lemma SpelledIsWeight(text: string, before: string, sign: string, i: string, point: string, f: string, after: string)
    requires SpellsWeight(text, before, sign, i, point, f, after)
    ensures Weight(text) == Some(if sign == "-" then -DigitsWorth(i, f) else DigitsWorth(i, f))
  {
    var body := SpelledWeight(text, before, sign, i, point, f, after);
    UnsignedValue(body, i, f);
  }

  lemma PartsOf(body: string)
    ensures body == IntPart(body) + (if Point(body) == |body| then "" else ".") + FracPart(body)
  {
    var k := Point(body);
    if k < |body| {
      CutAt(body, k);
    } else {
      assert body[..k] + "" + "" == body;
    }
  }

  lemma CutAt(s: string, k: nat)
    requires k < |s|
    ensures s == s[..k] + [s[k]] + s[k + 1..]
  {
  }

  lemma WeightIsSpelled(text: string) returns (before: string, sign: string, i: string, point: string, f: string, after: string)
    requires Weight(text).Some?
    ensures SpellsWeight(text, before, sign, i, point, f, after)
  {
    var s := Trim(text);
    before, after := TrimParts(text);
    sign := if s != "" && s[0] in {'+', '-'} then [s[0]] else "";
    var body := s[|sign|..];
    i, f := IntPart(body), FracPart(body);
    point := if Point(body) == |body| then "" else ".";
    PartsOf(body);
    assert s == sign + body;
  }

  /** And no other text is. */
  lemma WeightExactly(text: string)
    ensures Weight(text).Some? <==>
            exists before, sign, i, point, f, after :: SpellsWeight(text, before, sign, i, point, f, after)
  {
    if Weight(text).Some? {
      var before, sign, i, point, f, after := WeightIsSpelled(text);
    }
    forall before, sign, i, point, f, after | SpellsWeight(text, before, sign, i, point, f, after)
      ensures Weight(text).Some?
    {
      SpelledIsWeight(text, before, sign, i, point, f, after);
    }
  }

  // ---- What a row says ----

  /** A row as the tally reads it: refused for want of a source, or its key, source and weight. */
  datatype Reading = Refused | Row(key: string, source: string, weight: Option<real>)

  function Read(row: Option<Validator>): Reading {
    if row.None? || row.value.source.None? || Trim(row.value.source.value) == "" then Refused
    else
      var w := if row.value.weight.None? then None else Weight(row.value.weight.value);
      Row(Lower(row.value.pubkey), row.value.source.value, w)
  }

  function ReadAll(rows: seq<Option<Validator>>): (r: seq<Reading>)
    ensures |r| == |rows|
  {
    seq(|rows|, i requires 0 <= i < |rows| => Read(rows[i]))
  }

  // ---- The index ----

  datatype Index = Index(weightBySource: map<string, real>, pubkeyToSource: map<string, string>)

  /** One row's effect on the index: the last source of a key stays, the first weight of a source stays. */
  function AddRow(idx: Option<Index>, row: Reading): Option<Index> {
    if idx.None? || row.Refused? then None
    else
      var keys := idx.value.pubkeyToSource[row.key := row.source];
      if row.source in idx.value.weightBySource then Some(Index(idx.value.weightBySource, keys))
      else if row.weight.None? then None
      else Some(Index(idx.value.weightBySource[row.source := row.weight.value], keys))
  }

  /** None where the snapshot is malformed: a blank source, or a source whose first weight is refused. */
  function IndexOf(rows: seq<Reading>): Option<Index> {
    if rows == [] then Some(Index(map[], map[]))
    else AddRow(IndexOf(rows[..|rows| - 1]), rows[|rows| - 1])
  }

  ghost predicate HasSource(rows: seq<Reading>, s: string) {
    exists i | 0 <= i < |rows| :: rows[i].Row? && rows[i].source == s
  }

  ghost predicate HasKey(rows: seq<Reading>, k: string) {
    exists i | 0 <= i < |rows| :: rows[i].Row? && rows[i].key == k
  }

  /** Row i is the first that names its source. */
  ghost predicate FirstForSource(rows: seq<Reading>, i: nat)
    requires i < |rows|
  {
    rows[i].Row? && !HasSource(rows[..i], rows[i].source)
  }

  /** Row i is the last that carries its key. */
  ghost predicate LastForKey(rows: seq<Reading>, i: nat)
    requires i < |rows|
  {
    rows[i].Row? && !HasKey(rows[i + 1..], rows[i].key)
  }

  lemma {:induction false} IndexNames(rows: seq<Reading>)
    requires IndexOf(rows).Some?
    ensures forall i | 0 <= i < |rows| :: rows[i].Row?
    ensures forall s :: s in IndexOf(rows).value.weightBySource <==> HasSource(rows, s)
    ensures forall k :: k in IndexOf(rows).value.pubkeyToSource <==> HasKey(rows, k)
  {
    if rows == [] {
    } else {
      var n := |rows| - 1;
      IndexNames(rows[..n]);
      forall s
        ensures HasSource(rows, s) <==> HasSource(rows[..n], s) || rows[n].source == s
      {
        if HasSource(rows[..n], s) {
          var i :| 0 <= i < n && rows[..n][i].Row? && rows[..n][i].source == s;
          assert rows[i].source == s;
        }
      }
      forall k
        ensures HasKey(rows, k) <==> HasKey(rows[..n], k) || rows[n].key == k
      {
        if HasKey(rows[..n], k) {
          var i :| 0 <= i < n && rows[..n][i].Row? && rows[..n][i].key == k;
          assert rows[i].key == k;
        }
      }
    }
  }

  lemma FirstStaysFirst(rows: seq<Reading>, n: nat, i: nat)
    requires i < n <= |rows|
    ensures FirstForSource(rows, i) <==> FirstForSource(rows[..n], i)
  {
    assert rows[..n][..i] == rows[..i];
  }

  lemma LastRowAdds(rows: seq<Reading>, n: nat)
    requires n == |rows| - 1 && IndexOf(rows[..n]).Some?
    ensures IndexOf(rows).Some? <==> rows[n].Row? && (FirstForSource(rows, n) ==> rows[n].weight.Some?)
  {
    IndexNames(rows[..n]);
  }

  /** The index exists exactly when every row names a source and every first weight is a number. */
  lemma {:induction false} IndexDefined(rows: seq<Reading>)
    ensures IndexOf(rows).Some? <==>
            && (forall i | 0 <= i < |rows| :: rows[i].Row?)
            && (forall i | 0 <= i < |rows| && FirstForSource(rows, i) :: rows[i].weight.Some?)
  {
    if rows == [] {
    } else {
      var n := |rows| - 1;
      IndexDefined(rows[..n]);
      forall i | 0 <= i < n
        ensures FirstForSource(rows, i) <==> FirstForSource(rows[..n], i)
      {
        FirstStaysFirst(rows, n, i);
      }
      if IndexOf(rows[..n]).Some? {
        LastRowAdds(rows, n);
      }
    }
  }

  /** A source's weight is the weight of the first row that names it. */
  lemma {:induction false} IndexWeight(rows: seq<Reading>, i: nat)
    requires IndexOf(rows).Some? && i < |rows| && FirstForSource(rows, i)
    ensures rows[i].source in IndexOf(rows).value.weightBySource
    ensures rows[i].weight == Some(IndexOf(rows).value.weightBySource[rows[i].source])
  {
    var n := |rows| - 1;
    IndexNames(rows[..n]);
    if i < n {
      assert rows[..n][..i] == rows[..i];
      IndexWeight(rows[..n], i);
    }
  }

  /** A key's source is the source of the last row that carries it. */
  lemma {:induction false} IndexKey(rows: seq<Reading>, i: nat)
    requires IndexOf(rows).Some? && i < |rows| && LastForKey(rows, i)
    ensures rows[i].key in IndexOf(rows).value.pubkeyToSource
    ensures IndexOf(rows).value.pubkeyToSource[rows[i].key] == rows[i].source
  {
    var n := |rows| - 1;
    if i < n {
      var later := rows[i + 1..];
      assert later[n - i - 1] == rows[n];
      assert rows[..n][i + 1..] == later[..n - i - 1];
      IndexKey(rows[..n], i);
    }
  }

  // ---- Stake of a set of sources ----

  function WeightAt(m: map<string, real>, s: string): real {
    if s in m then m[s] else 0.0
  }

  ghost function Stake(sources: set<string>, m: map<string, real>): real {
    if sources == {} then 0.0
    else
      var s :| s in sources;
      WeightAt(m, s) + Stake(sources - {s}, m)
  }

  lemma {:induction false} StakePick(sources: set<string>, m: map<string, real>, s: string)
    requires s in sources
    ensures Stake(sources, m) == WeightAt(m, s) + Stake(sources - {s}, m)
    decreases |sources|
  {
    var t :| t in sources && Stake(sources, m) == WeightAt(m, t) + Stake(sources - {t}, m);
    if t != s {
      StakePick(sources - {t}, m, s);
      StakePick(sources - {s}, m, t);
      assert sources - {t} - {s} == sources - {s} - {t};
    }
  }

  lemma StakeAdd(sources: set<string>, m: map<string, real>, s: string)
    requires s !in sources
    ensures Stake(sources + {s}, m) == Stake(sources, m) + WeightAt(m, s)
  {
    StakePick(sources + {s}, m, s);
    assert sources + {s} - {s} == sources;
  }

  predicate NonNegative(m: map<string, real>) {
    forall s | s in m :: m[s] >= 0.0
  }

  lemma {:induction false} StakeGrows(a: set<string>, b: set<string>, m: map<string, real>)
    requires a <= b && NonNegative(m)
    ensures Stake(a, m) <= Stake(b, m)
    decreases |b - a|
  {
    if s :| s in b && s !in a {
      StakeAdd(a, m, s);
      assert b - (a + {s}) == b - a - {s};
      StakeGrows(a + {s}, b, m);
    } else {
      assert a == b;
    }
  }

  lemma StakeUnionShared(a: set<string>, b: set<string>, m: map<string, real>, s: string)
    requires s !in a && s in b
    requires Stake(a, m) + Stake(b, m) == Stake(a + b, m) + Stake(a * b, m)
    ensures Stake(a + {s}, m) + Stake(b, m) == Stake(a + {s} + b, m) + Stake((a + {s}) * b, m)
  {
    StakeAdd(a, m, s);
    StakeAdd(a * b, m, s);
    assert a + {s} + b == a + b;
    assert (a + {s}) * b == a * b + {s};
  }

  lemma StakeUnionFresh(a: set<string>, b: set<string>, m: map<string, real>, s: string)
    requires s !in a && s !in b
    requires Stake(a, m) + Stake(b, m) == Stake(a + b, m) + Stake(a * b, m)
    ensures Stake(a + {s}, m) + Stake(b, m) == Stake(a + {s} + b, m) + Stake((a + {s}) * b, m)
  {
    StakeAdd(a, m, s);
    StakeAdd(a + b, m, s);
    assert a + {s} + b == a + b + {s};
    assert (a + {s}) * b == a * b;
  }

  /** Inclusion and exclusion. */
  lemma {:induction false} StakeUnion(a: set<string>, b: set<string>, m: map<string, real>)
    ensures Stake(a, m) + Stake(b, m) == Stake(a + b, m) + Stake(a * b, m)
    decreases |a|
  {
    if a == {} {
      assert a + b == b && a * b == {};
    } else {
      var s :| s in a;
      var rest := a - {s};
      StakeUnion(rest, b, m);
      if s in b {
        StakeUnionShared(rest, b, m, s);
      } else {
        StakeUnionFresh(rest, b, m, s);
      }
      assert rest + {s} == a;
    }
  }

  // ---- The test ----

  /** The sources that have at least one of their keys among the signers. */
  ghost function SignedSources(idx: Index, signers: seq<string>): set<string> {
    set pk | pk in signers && Lower(pk) in idx.pubkeyToSource :: idx.pubkeyToSource[Lower(pk)]
  }

  /** The total stake of a snapshot that passes every guard; None where the tally fails closed. */
  ghost function TotalStakeOf(s: Snapshot): Option<real> {
    if s.truncated then None
    else
      match IndexOf(ReadAll(s.rows))
      case None => None
      case Some(idx) =>
        if NonNegative(idx.weightBySource) then Some(Stake(idx.weightBySource.Keys, idx.weightBySource)) else None
  }

  /** A total is refused exactly on a truncated or malformed snapshot or a negative weight; a weight of zero is none. */
  lemma TotalExactly(s: Snapshot)
    ensures TotalStakeOf(s).Some? <==>
            && !s.truncated && IndexOf(ReadAll(s.rows)).Some?
            && forall source | source in IndexOf(ReadAll(s.rows)).value.weightBySource ::
                 !(IndexOf(ReadAll(s.rows)).value.weightBySource[source] < 0.0)
  {
  }

  /** The distinct sources that signed hold more than two thirds of a positive total stake. */
  ghost predicate Clears(s: Snapshot, signers: seq<string>) {
    && TotalStakeOf(s).Some?
    && TotalStakeOf(s).value > 0.0
    && var idx := IndexOf(ReadAll(s.rows)).value;
       3.0 * Stake(SignedSources(idx, signers), idx.weightBySource) > 2.0 * TotalStakeOf(s).value
  }

  lemma IndexStep(rows: seq<Reading>, i: nat)
    requires i < |rows|
    ensures IndexOf(rows[..i + 1]) == AddRow(IndexOf(rows[..i]), rows[i])
  {
    assert rows[..i + 1][..i] == rows[..i];
  }

  method IndexStakeSources(rows: seq<Option<Validator>>) returns (r: Option<Index>)
    ensures r == IndexOf(ReadAll(rows))
  {
    var weightBySource: map<string, real> := map[];
    var pubkeyToSource: map<string, string> := map[];
    ghost var all := ReadAll(rows);
    for i := 0 to |rows|
      invariant IndexOf(all[..i]) == Some(Index(weightBySource, pubkeyToSource))
    {
      var row := Read(rows[i]);
      assert all[i] == row;
      IndexStep(all, i);
      if row.Refused? {
        RefusedPrefix(all, i + 1);
        return None;
      }
      pubkeyToSource := pubkeyToSource[row.key := row.source];
      if row.source !in weightBySource {
        if row.weight.None? {
          RefusedPrefix(all, i + 1);
          return None;
        }
        weightBySource := weightBySource[row.source := row.weight.value];
      }
    }
    assert all[..|rows|] == all;
    return Some(Index(weightBySource, pubkeyToSource));
  }

  /** Once refused, a snapshot stays refused whatever rows follow. */
  lemma {:induction false} RefusedPrefix(rows: seq<Reading>, n: nat)
    requires n <= |rows| && IndexOf(rows[..n]).None?
    ensures IndexOf(rows).None?
    decreases |rows| - n
  {
    if n == |rows| {
      assert rows[..n] == rows;
    } else {
      assert rows[..n + 1][..n] == rows[..n];
      RefusedPrefix(rows, n + 1);
    }
  }

  /** Adds the weights up in any order; None on a negative weight or a total that is not positive. */
  method SumStakeWeights(weightBySource: map<string, real>) returns (r: Option<real>)
    ensures r == if NonNegative(weightBySource) && Stake(weightBySource.Keys, weightBySource) > 0.0
                 then Some(Stake(weightBySource.Keys, weightBySource)) else None
  {
    var total := 0.0;
    var left := weightBySource.Keys;
    ghost var done: set<string> := {};
    while left != {}
      invariant done !! left && done + left == weightBySource.Keys
      invariant forall s | s in done :: weightBySource[s] >= 0.0
      invariant total == Stake(done, weightBySource)
      decreases left
    {
      var s :| s in left;
      if weightBySource[s] < 0.0 {
        return None;
      }
      StakeAdd(done, weightBySource, s);
      total := total + weightBySource[s];
      left, done := left - {s}, done + {s};
    }
    assert done == weightBySource.Keys;
    return if total <= 0.0 then None else Some(total);
  }

  method SumSignerStake(idx: Index, signers: seq<string>) returns (tally: real)
    ensures tally == Stake(SignedSources(idx, signers), idx.weightBySource)
  {
    var countedSources: set<string> := {};
    var seenPubkeys: set<string> := {};
    tally := 0.0;
    for i := 0 to |signers|
      invariant seenPubkeys == set pk | pk in signers[..i] :: Lower(pk)
      invariant countedSources == SignedSources(idx, signers[..i])
      invariant tally == Stake(countedSources, idx.weightBySource)
    {
      var lpk := Lower(signers[i]);
      assert signers[..i + 1] == signers[..i] + [signers[i]];
      if lpk !in seenPubkeys {
        seenPubkeys := seenPubkeys + {lpk};
        if lpk in idx.pubkeyToSource && idx.pubkeyToSource[lpk] !in countedSources {
          var src := idx.pubkeyToSource[lpk];
          StakeAdd(countedSources, idx.weightBySource, src);
          countedSources := countedSources + {src};
          tally := tally + WeightAt(idx.weightBySource, src);
        }
      }
    }
    assert signers[..|signers|] == signers;
  }

  method MeetsStakeThreshold(s: Snapshot, signers: seq<string>) returns (ok: bool)
    ensures ok == Clears(s, signers)
  {
    if s.truncated {
      return false;
    }
    var index := IndexStakeSources(s.rows);
    if index.None? {
      return false;
    }
    var total := SumStakeWeights(index.value.weightBySource);
    if total.None? {
      return false;
    }
    var tally := SumSignerStake(index.value, signers);
    return tally * 3.0 > total.value * 2.0;
  }

  /** The published total: the same sum under the same guards, a total of zero included. None where it throws. */
  method TotalStake(s: Snapshot) returns (r: Option<real>)
    ensures r == TotalStakeOf(s)
  {
    if s.truncated {
      return None;
    }
    var index := IndexStakeSources(s.rows);
    if index.None? {
      return None;
    }
    var weightBySource := index.value.weightBySource;
    var total := 0.0;
    var left := weightBySource.Keys;
    ghost var done: set<string> := {};
    while left != {}
      invariant done !! left && done + left == weightBySource.Keys
      invariant forall s | s in done :: weightBySource[s] >= 0.0
      invariant total == Stake(done, weightBySource)
      decreases left
    {
      var s :| s in left;
      if weightBySource[s] < 0.0 {
        return None;
      }
      StakeAdd(done, weightBySource, s);
      total := total + weightBySource[s];
      left, done := left - {s}, done + {s};
    }
    assert done == weightBySource.Keys;
    return Some(total);
  }

  // ---- Laws of the test ----

  lemma {:induction false} KeysNameWeighed(rows: seq<Reading>)
    requires IndexOf(rows).Some?
    ensures forall k | k in IndexOf(rows).value.pubkeyToSource ::
              IndexOf(rows).value.pubkeyToSource[k] in IndexOf(rows).value.weightBySource
  {
    if rows == [] {
    } else {
      KeysNameWeighed(rows[..|rows| - 1]);
    }
  }

  /**
   Only the set of signing sources matters, and more of them never hurts: so the order of the
   signers, repeats, letter case and further keys of a source already counted change nothing.
   */
  lemma ClearsIsMonotone(s: Snapshot, a: seq<string>, b: seq<string>)
    requires Clears(s, a)
    requires SignedSources(IndexOf(ReadAll(s.rows)).value, a) <= SignedSources(IndexOf(ReadAll(s.rows)).value, b)
    ensures Clears(s, b)
  {
    var idx := IndexOf(ReadAll(s.rows)).value;
    StakeGrows(SignedSources(idx, a), SignedSources(idx, b), idx.weightBySource);
  }

  lemma SignersUpToCase(idx: Index, a: seq<string>, b: seq<string>)
    requires forall x | x in a :: exists y | y in b :: Lower(x) == Lower(y)
    ensures SignedSources(idx, a) <= SignedSources(idx, b)
  {
  }

  /** Signers none of which is in the snapshot never clear it, nor does an empty list. */
  lemma NoSourceNeverClears(s: Snapshot, signers: seq<string>)
    requires IndexOf(ReadAll(s.rows)).Some?
    requires SignedSources(IndexOf(ReadAll(s.rows)).value, signers) == {}
    ensures !Clears(s, signers)
  {
  }

  /** Any two signer lists that clear one snapshot share sources holding more than a third of its stake. */
  lemma QuorumsOverlap(s: Snapshot, a: seq<string>, b: seq<string>)
    requires Clears(s, a) && Clears(s, b)
    ensures
      var idx := IndexOf(ReadAll(s.rows)).value;
      3.0 * Stake(SignedSources(idx, a) * SignedSources(idx, b), idx.weightBySource) > TotalStakeOf(s).value
  {
    var rows := ReadAll(s.rows);
    var idx := IndexOf(rows).value;
    var sa, sb := SignedSources(idx, a), SignedSources(idx, b);
    KeysNameWeighed(rows);
    assert sa + sb <= idx.weightBySource.Keys;
    StakeUnion(sa, sb, idx.weightBySource);
    StakeGrows(sa + sb, idx.weightBySource.Keys, idx.weightBySource);
  }

  // ---- Row order ----

  /** Every key has one source and every source one weight, as the snapshot's producer promises. */
  ghost predicate Consistent(rows: seq<Reading>) {
    && (forall r | r in rows :: r.Row?)
    && (forall r, q | r in rows && q in rows && r.key == q.key :: r.source == q.source)
    && (forall r, q | r in rows && q in rows && r.source == q.source :: r.weight == q.weight)
  }

  lemma {:induction false} FirstRow(rows: seq<Reading>, i: nat) returns (f: nat)
    requires i < |rows| && rows[i].Row?
    ensures f <= i && rows[f].Row? && rows[f].source == rows[i].source && FirstForSource(rows, f)
    decreases i
  {
    if HasSource(rows[..i], rows[i].source) {
      var j :| 0 <= j < i && rows[..i][j].Row? && rows[..i][j].source == rows[i].source;
      f := FirstRow(rows, j);
    } else {
      f := i;
    }
  }

  lemma {:induction false} LastRow(rows: seq<Reading>, i: nat) returns (l: nat)
    requires i < |rows| && rows[i].Row?
    ensures i <= l < |rows| && rows[l].Row? && rows[l].key == rows[i].key && LastForKey(rows, l)
    decreases |rows| - i
  {
    var later := rows[i + 1..];
    if HasKey(later, rows[i].key) {
      var j :| 0 <= j < |later| && later[j].Row? && later[j].key == rows[i].key;
      l := LastRow(rows, i + 1 + j);
    } else {
      l := i;
    }
  }

  lemma ConsistentRow(rows: seq<Reading>, i: nat)
    requires Consistent(rows) && IndexOf(rows).Some? && i < |rows|
    ensures rows[i].source in IndexOf(rows).value.weightBySource && rows[i].key in IndexOf(rows).value.pubkeyToSource
    ensures rows[i].weight == Some(IndexOf(rows).value.weightBySource[rows[i].source])
    ensures IndexOf(rows).value.pubkeyToSource[rows[i].key] == rows[i].source
  {
    assert rows[i] in rows;
    var f := FirstRow(rows, i);
    assert rows[f] in rows;
    IndexWeight(rows, f);
    var l := LastRow(rows, i);
    assert rows[l] in rows;
    IndexKey(rows, l);
  }

  lemma ConsistentDefined(rows: seq<Reading>)
    requires Consistent(rows)
    ensures IndexOf(rows).Some? <==> forall r | r in rows :: r.weight.Some?
  {
    IndexDefined(rows);
    if IndexOf(rows).Some? {
      forall r | r in rows
        ensures r.weight.Some?
      {
        var i :| 0 <= i < |rows| && rows[i] == r;
        ConsistentRow(rows, i);
      }
    }
  }

  /** A consistent snapshot may list its rows in any order and repeat them: the index is the same. */
  lemma IndexForgetsOrder(a: seq<Reading>, b: seq<Reading>)
    requires Consistent(a) && forall r :: r in a <==> r in b
    ensures IndexOf(a) == IndexOf(b)
  {
    assert Consistent(b);
    ConsistentDefined(a);
    ConsistentDefined(b);
    if IndexOf(a).Some? {
      IndexCovers(a, b);
      IndexCovers(b, a);
      assert IndexOf(a).value.weightBySource == IndexOf(b).value.weightBySource;
      assert IndexOf(a).value.pubkeyToSource == IndexOf(b).value.pubkeyToSource;
    }
  }

  lemma IndexCovers(a: seq<Reading>, b: seq<Reading>)
    requires Consistent(a) && Consistent(b) && forall r | r in a :: r in b
    requires IndexOf(a).Some? && IndexOf(b).Some?
    ensures forall s | s in IndexOf(a).value.weightBySource ::
              s in IndexOf(b).value.weightBySource &&
              IndexOf(b).value.weightBySource[s] == IndexOf(a).value.weightBySource[s]
    ensures forall k | k in IndexOf(a).value.pubkeyToSource ::
              k in IndexOf(b).value.pubkeyToSource &&
              IndexOf(b).value.pubkeyToSource[k] == IndexOf(a).value.pubkeyToSource[k]
  {
    var ia, ib := IndexOf(a).value, IndexOf(b).value;
    IndexNames(a);
    forall s | s in ia.weightBySource
      ensures s in ib.weightBySource && ib.weightBySource[s] == ia.weightBySource[s]
    {
      var i :| 0 <= i < |a| && a[i].Row? && a[i].source == s;
      assert a[i] in a;
      var j :| 0 <= j < |b| && b[j] == a[i];
      ConsistentRow(a, i);
      ConsistentRow(b, j);
    }
    forall k | k in ia.pubkeyToSource
      ensures k in ib.pubkeyToSource && ib.pubkeyToSource[k] == ia.pubkeyToSource[k]
    {
      var i :| 0 <= i < |a| && a[i].Row? && a[i].key == k;
      assert a[i] in a;
      var j :| 0 <= j < |b| && b[j] == a[i];
      ConsistentRow(a, i);
      ConsistentRow(b, j);
    }
  }

  /** So is the verdict, for every list of signers. */
  lemma ClearsForgetsRowOrder(a: Snapshot, b: Snapshot, signers: seq<string>)
    requires Consistent(ReadAll(a.rows)) && a.truncated == b.truncated
    requires forall r :: r in ReadAll(a.rows) <==> r in ReadAll(b.rows)
    ensures Clears(a, signers) <==> Clears(b, signers)
  {
    IndexForgetsOrder(ReadAll(a.rows), ReadAll(b.rows));
  }

  // ---- When the order of the rows matters ----

  predicate HasWeight(row: Reading) {
    row.Row? && row.weight.Some?
  }

  /** No row of a source has a weight. */
  ghost predicate Unweighed(rows: seq<Reading>, source: string) {
    forall q | q in rows && q.Row? && q.source == source :: q.weight.None?
  }

  /** A row is refused, or a source has no weight at all: no order of the rows passes the guards. */
  ghost predicate RefusedInAnyOrder(rows: seq<Reading>) {
    exists r | r in rows :: r.Refused? || Unweighed(rows, r.source)
  }

  ghost predicate OrderFree(rows: seq<Reading>) {
    forall other: seq<Reading> | multiset(other) == multiset(rows) :: IndexOf(other) == IndexOf(rows)
  }

  lemma RefusedHasNoIndex(rows: seq<Reading>)
    requires RefusedInAnyOrder(rows)
    ensures IndexOf(rows).None?
  {
    IndexDefined(rows);
    var r :| r in rows && (r.Refused? || Unweighed(rows, r.source));
    var i :| 0 <= i < |rows| && rows[i] == r;
    if r.Row? {
      var f := FirstRow(rows, i);
      assert rows[f] in rows;
    }
  }

  /** The rows with a weight, or those without one, in order. */
  function Filtered(rows: seq<Reading>, weighed: bool): (f: seq<Reading>)
    ensures forall r | r in f :: r in rows && HasWeight(r) == weighed
    ensures forall r | r in rows && HasWeight(r) == weighed :: r in f
  {
    if rows == [] then []
    else
      var before, last := Filtered(rows[..|rows| - 1], weighed), rows[|rows| - 1];
      assert rows == rows[..|rows| - 1] + [last];
      if HasWeight(last) == weighed then before + [last] else before
  }

  lemma {:induction false} FilteredSplits(rows: seq<Reading>)
    ensures multiset(Filtered(rows, true) + Filtered(rows, false)) == multiset(rows)
  {
    if rows == [] {
    } else {
      var before, last := rows[..|rows| - 1], rows[|rows| - 1];
      FilteredSplits(before);
      assert rows == before + [last];
    }
  }

  /** With the weighed rows first, every source's first row has its weight. */
  lemma WeighedFirst(rows: seq<Reading>)
    requires !RefusedInAnyOrder(rows)
    ensures IndexOf(Filtered(rows, true) + Filtered(rows, false)).Some?
  {
    var front, back := Filtered(rows, true), Filtered(rows, false);
    var all := front + back;
    forall i | 0 <= i < |all|
      ensures all[i].Row? && all[i] in rows
    {
      assert all[i] in front || all[i] in back;
    }
    forall i | |front| <= i < |all|
      ensures !FirstForSource(all, i)
    {
      assert !Unweighed(rows, all[i].source);
      var q :| q in rows && q.Row? && q.source == all[i].source && q.weight.Some?;
      var j :| 0 <= j < |front| && front[j] == q;
      assert all[..i][j] == q;
    }
    forall i | 0 <= i < |front|
      ensures all[i].weight.Some?
    {
      assert all[i] == front[i] && front[i] in front;
    }
    IndexDefined(all);
  }

  /** Row i moved to the front decides its source's weight, or that there is no index. */
  lemma MovedToFront(rows: seq<Reading>, i: nat) returns (other: seq<Reading>)
    requires i < |rows| && rows[i].Row?
    ensures multiset(other) == multiset(rows)
    ensures rows[i].weight.None? ==> IndexOf(other).None?
    ensures IndexOf(other).Some? ==> rows[i].source in IndexOf(other).value.weightBySource
    ensures IndexOf(other).Some? ==> rows[i].weight == Some(IndexOf(other).value.weightBySource[rows[i].source])
  {
    other := [rows[i]] + Without(rows, i);
    MultisetWithout(rows, i);
    assert other[..0] == [];
    assert FirstForSource(other, 0);
    IndexDefined(other);
    if IndexOf(other).Some? {
      IndexWeight(other, 0);
    }
  }

  /** Row i moved to the back decides its key's source. */
  lemma MovedToBack(rows: seq<Reading>, i: nat) returns (other: seq<Reading>)
    requires i < |rows| && rows[i].Row?
    ensures multiset(other) == multiset(rows)
    ensures IndexOf(other).Some? ==> rows[i].key in IndexOf(other).value.pubkeyToSource
    ensures IndexOf(other).Some? ==> IndexOf(other).value.pubkeyToSource[rows[i].key] == rows[i].source
  {
    var rest := Without(rows, i);
    other := rest + [rows[i]];
    MultisetWithout(rows, i);
    assert other[|rest| + 1..] == [];
    assert LastForKey(other, |rest|);
    if IndexOf(other).Some? {
      IndexKey(other, |rest|);
    }
  }

  lemma OrderFreeIsConsistent(rows: seq<Reading>)
    requires OrderFree(rows) && !RefusedInAnyOrder(rows)
    ensures Consistent(rows)
  {
    FilteredSplits(rows);
    WeighedFirst(rows);
    assert IndexOf(rows).Some?;
    forall r, q | r in rows && q in rows && r.source == q.source
      ensures r.weight == q.weight
    {
      var i :| 0 <= i < |rows| && rows[i] == r;
      var j :| 0 <= j < |rows| && rows[j] == q;
      var a := MovedToFront(rows, i);
      var b := MovedToFront(rows, j);
      assert IndexOf(a) == IndexOf(rows) == IndexOf(b);
    }
    forall r, q | r in rows && q in rows && r.key == q.key
      ensures r.source == q.source
    {
      var i :| 0 <= i < |rows| && rows[i] == r;
      var j :| 0 <= j < |rows| && rows[j] == q;
      var a := MovedToBack(rows, i);
      var b := MovedToBack(rows, j);
      assert IndexOf(a) == IndexOf(rows) == IndexOf(b);
    }
  }

  /**
   The index does not depend on the order of the rows exactly when each key has one source and each
   source one weight, or when no order of the rows has an index at all.
   */
  lemma OrderFreeExactly(rows: seq<Reading>)
    ensures OrderFree(rows) <==> RefusedInAnyOrder(rows) || Consistent(rows)
  {
    if OrderFree(rows) && !RefusedInAnyOrder(rows) {
      OrderFreeIsConsistent(rows);
    }
    if RefusedInAnyOrder(rows) || Consistent(rows) {
      forall other: seq<Reading> | multiset(other) == multiset(rows)
        ensures IndexOf(other) == IndexOf(rows)
      {
        SameMembers(other, rows);
        if Consistent(rows) {
          IndexForgetsOrder(rows, other);
        } else {
          RefusedHasNoIndex(rows);
          RefusedStays(rows, other);
          RefusedHasNoIndex(other);
        }
      }
    }
  }

  lemma RefusedStays(rows: seq<Reading>, other: seq<Reading>)
    requires RefusedInAnyOrder(rows) && forall r :: r in rows <==> r in other
    ensures RefusedInAnyOrder(other)
  {
    var r :| r in rows && (r.Refused? || Unweighed(rows, r.source));
    assert r in other && (r.Refused? || Unweighed(other, r.source));
  }

  function PlainRow(key: string, source: string, weight: string): Option<Validator> {
    Some(Validator(key, Some(source), Some(weight)))
  }

  lemma WeightOfDigit(t: string)
    requires |t| == 1 && IsDigit(t[0])
    ensures Weight(t) == Some(Digit(t[0]) as real)
  {
    assert Trim(t) == t;
    assert t[1..] == "" && t[..0] == "";
    assert Point(t) == 1 && IntPart(t) == t && FracPart(t) == "";
    assert Numeral(t) == Digit(t[0]) && Numeral("") == 0;
    assert Shift(Numeral(t), 0) == Numeral(t) && Shift(1, 0) == 1;
    assert Unsigned(t) == Digit(t[0]) as real / 1.0;
  }

  lemma ReadDigit(key: string, source: string, t: string, d: nat)
    requires |key| == |source| == |t| == 1 && LowerChar(key[0]) == key[0] && !IsBlank(source[0])
    requires IsDigit(t[0]) && Digit(t[0]) == d
    ensures Read(PlainRow(key, source, t)) == Row(key, source, Some(d as real))
  {
    WeightOfDigit(t);
    assert Lower(key) == key;
  }

  /** Without consistency the order decides: one source listed under two weights, in both orders. */
  lemma InconsistentRowsDisagree()
    ensures
      var one, five, other := PlainRow("x", "A", "1"), PlainRow("y", "A", "5"), PlainRow("z", "B", "2");
      !Clears(Snapshot([one, five, other], false), ["x"]) && Clears(Snapshot([five, one, other], false), ["x"])
  {
    var one, five, other := PlainRow("x", "A", "1"), PlainRow("y", "A", "5"), PlainRow("z", "B", "2");
    ReadDigit("x", "A", "1", 1);
    ReadDigit("y", "A", "5", 5);
    ReadDigit("z", "B", "2", 2);
    SmallSnapshot(one, five, other, "x", "y", 1.0, 5.0);
    SmallSnapshot(five, one, other, "y", "x", 5.0, 1.0);
  }

  /** The index of two rows of source A and one of source B. */
  lemma SmallIndex(rows: seq<Reading>, kp: string, kq: string, wp: real, wq: real)
    requires rows == [Row(kp, "A", Some(wp)), Row(kq, "A", Some(wq)), Row("z", "B", Some(2.0))]
    ensures IndexOf(rows) == Some(Index(map["A" := wp]["B" := 2.0], map[kp := "A"][kq := "A"]["z" := "B"]))
  {
    var one := [rows[0]];
    var two := [rows[0], rows[1]];
    assert one[..0] == [] && two[..1] == one && rows[..2] == two;
    assert IndexOf(one) == Some(Index(map["A" := wp], map[kp := "A"]));
    assert IndexOf(two) == Some(Index(map["A" := wp], map[kp := "A"][kq := "A"]));
  }

  lemma SmallStake(wp: real)
    ensures
      var m: map<string, real> := map["A" := wp]["B" := 2.0];
      Stake({"A"}, m) == wp && Stake(m.Keys, m) == wp + 2.0
  {
    var m: map<string, real> := map["A" := wp]["B" := 2.0];
    StakeAdd({}, m, "A");
    StakeAdd({"A"}, m, "B");
    assert {} + {"A"} == {"A"} && {"A"} + {"B"} == m.Keys;
  }

  lemma SmallSigned(kp: string, kq: string, m: map<string, real>)
    requires kp == "x" || kq == "x"
    ensures SignedSources(Index(m, map[kp := "A"][kq := "A"]["z" := "B"]), ["x"]) == {"A"}
  {
    assert Lower("x") == "x";
    assert "x" in ["x"];
  }

  lemma SmallSnapshot(p: Option<Validator>, q: Option<Validator>, r: Option<Validator>, kp: string, kq: string, wp: real,
                      wq: real)
    requires (kp == "x" || kq == "x") && wp > 0.0
    requires Read(p) == Row(kp, "A", Some(wp)) && Read(q) == Row(kq, "A", Some(wq)) && Read(r) == Row("z", "B", Some(2.0))
    ensures Clears(Snapshot([p, q, r], false), ["x"]) <==> 3.0 * wp > 2.0 * (wp + 2.0)
  {
    var m: map<string, real> := map["A" := wp]["B" := 2.0];
    assert ReadAll([p, q, r]) == [Read(p), Read(q), Read(r)];
    SmallIndex(ReadAll([p, q, r]), kp, kq, wp, wq);
    SmallStake(wp);
    SmallSigned(kp, kq, m);
  }
}
