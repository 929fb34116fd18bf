/**
 The stake total served beside a validator set, summed as text, and the total the quorum divides
 by, summed as numbers.

 The two are computed from the same snapshot along different routes: `TotalsAgree` says they are
 one number whenever the text route has an answer.
 */
module StakeTotal {
  import opened Wrappers
  import opened Text
  import opened StakeQuorum
  import Amounts

  const UNITS: real := 1000000000000000000.0

  // ---- One weight, read both ways ----

  /** u times 10^k. */
  function Scaled(u: real, k: nat): real {
    if k == 0 then u else 10.0 * Scaled(u, k - 1)
  }

  lemma {:induction false} ScaledNat(n: nat, k: nat)
    ensures Scaled(n as real, k) == Shift(n, k) as real
  {
    if k == 0 {
    } else {
      ScaledNat(n, k - 1);
    }
  }

  lemma {:induction false} ScaledTwice(u: real, j: nat, k: nat)
    ensures Scaled(Scaled(u, j), k) == Scaled(u, j + k)
  {
    if k == 0 {
    } else {
      ScaledTwice(u, j, k - 1);
    }
  }

  lemma {:induction false} ScaledIsTimes(u: real, k: nat)
    ensures Scaled(u, k) == u * Scaled(1.0, k)
  {
    if k == 0 {
    } else {
      ScaledIsTimes(u, k - 1);
      assert 10.0 * (u * Scaled(1.0, k - 1)) == u * (10.0 * Scaled(1.0, k - 1));
    }
  }

  lemma ScaledPlaces(u: real)
    ensures Scaled(u, Amounts.PLACES) == u * UNITS
  {
    ScaledIsTimes(u, Amounts.PLACES);
    ScaledNat(1, Amounts.PLACES);
    Amounts.ShiftPlaces(1);
  }

  lemma {:induction false} ShiftAdd(m: nat, n: nat, k: nat)
    ensures Shift(m + n, k) == Shift(m, k) + Shift(n, k)
  {
    if k == 0 {
    } else {
      ShiftAdd(m, n, k - 1);
    }
  }

  lemma {:induction false} ShiftTwice(n: nat, j: nat, k: nat)
    ensures Shift(Shift(n, j), k) == Shift(n, j + k)
  {
    if k == 0 {
    } else {
      ShiftTwice(n, j, k - 1);
    }
  }

  /** All digits of a plain decimal as one number. */
  function Digits(s: string): nat
    requires IsUnsigned(s)
  {
    Shift(Numeral(IntPart(s)), |FracPart(s)|) + Numeral(FracPart(s))
  }

  lemma QuotientBack(n: real, r: real)
    requires r > 0.0
    ensures n / r * r == n
  {
  }

  /** Moving the point over the whole fraction leaves the digits. */
  lemma UnsignedScaled(s: string)
    requires IsUnsigned(s)
    ensures Scaled(Unsigned(s), |FracPart(s)|) == Digits(s) as real
  {
    var r := Shift(1, |FracPart(s)|) as real;
    QuotientBack(Digits(s) as real, r);
    ScaledIsTimes(Unsigned(s), |FracPart(s)|);
    ScaledNat(1, |FracPart(s)|);
  }

  lemma UnsignedInUnits(s: string, p: nat)
    requires IsUnsigned(s) && |FracPart(s)| <= p
    ensures Scaled(Unsigned(s), p) ==
            (Shift(Numeral(IntPart(s)), p) + Shift(Numeral(FracPart(s)), p - |FracPart(s)|)) as real
  {
    var a, b, j := Numeral(IntPart(s)), Numeral(FracPart(s)), |FracPart(s)|;
    UnsignedScaled(s);
    ScaledTwice(Unsigned(s), j, p - j);
    ScaledNat(Digits(s), p - j);
    ShiftAdd(Shift(a, j), b, p - j);
    ShiftTwice(a, j, p - j);
  }

  /** A weight that is also an accepted amount is worth that amount. */
  lemma WeightOfAmount(text: string)
    requires Amounts.CanonicalAmount(text).Some?
    ensures Weight(text).Some? && Weight(text).value * UNITS == Amounts.Value(text) as real
  {
    var s := Trim(text);
    assert IntPart(s)[0] in IntPart(s) && IntPart(s)[0] == s[0];
    UnsignedInUnits(s, Amounts.PLACES);
    ScaledPlaces(Unsigned(s));
  }

  // ---- The weights that are summed ----

  /** A source and the text of the weight it is first listed under. */
  datatype Listed = Listed(source: string, text: string)

  ghost predicate Lists(list: seq<Listed>, source: string) {
    exists i | 0 <= i < |list| :: list[i].source == source
  }

  function TextOf(row: Option<Validator>): string {
    if row.Some? && row.value.weight.Some? then row.value.weight.value else ""
  }

  function SourceOf(row: Option<Validator>): string {
    if row.Some? && row.value.source.Some? then row.value.source.value else ""
  }

  /** The first weight of each source, in the order the sources first appear. */
  ghost function FirstWeights(rows: seq<Option<Validator>>): seq<Listed> {
    if rows == [] then []
    else
      var before, last := FirstWeights(rows[..|rows| - 1]), rows[|rows| - 1];
      if Lists(before, SourceOf(last)) then before else before + [Listed(SourceOf(last), TextOf(last))]
  }

  function Texts(list: seq<Listed>): (t: seq<string>)
    ensures |t| == |list|
  {
    seq(|list|, i requires 0 <= i < |list| => list[i].text)
  }

  lemma ReadAllSnoc(rows: seq<Option<Validator>>)
    requires rows != []
    ensures ReadAll(rows)[..|rows| - 1] == ReadAll(rows[..|rows| - 1])
    ensures ReadAll(rows)[|rows| - 1] == Read(rows[|rows| - 1])
  {
  }

  lemma {:induction false} ListedAreWeighed(rows: seq<Option<Validator>>)
    requires IndexOf(ReadAll(rows)).Some?
    ensures forall s :: Lists(FirstWeights(rows), s) <==> s in IndexOf(ReadAll(rows)).value.weightBySource
  {
    if rows == [] {
    } else {
      var n := |rows| - 1;
      ReadAllSnoc(rows);
      ListedAreWeighed(rows[..n]);
      var before := FirstWeights(rows[..n]);
      var e := Listed(SourceOf(rows[n]), TextOf(rows[n]));
      ListsOneMore(before, e);
    }
  }

  lemma ListsSnoc(list: seq<Listed>, e: Listed, s: string)
    ensures Lists(list + [e], s) <==> Lists(list, s) || s == e.source
  {
    if Lists(list, s) {
      var i :| 0 <= i < |list| && list[i].source == s;
      assert (list + [e])[i].source == s;
    }
    assert (list + [e])[|list|] == e;
  }

  lemma {:induction false} StakeAgrees(sources: set<string>, a: map<string, real>, b: map<string, real>)
    requires forall s | s in sources :: WeightAt(a, s) == WeightAt(b, s)
    ensures Stake(sources, a) == Stake(sources, b)
    decreases |sources|
  {
    if sources == {} {
    } else {
      var s :| s in sources;
      StakePick(sources, a, s);
      StakePick(sources, b, s);
      StakeAgrees(sources - {s}, a, b);
    }
  }

  /** A newly weighed source adds its weight to the total. */
  lemma TotalGrows(m: map<string, real>, s: string, w: real)
    requires s !in m
    ensures Stake(m[s := w].Keys, m[s := w]) == Stake(m.Keys, m) + w
  {
    var more := m[s := w];
    assert more.Keys == m.Keys + {s};
    StakeAdd(m.Keys, more, s);
    StakeAgrees(m.Keys, more, m);
  }

  lemma TotalSnoc(list: seq<Listed>, e: Listed)
    requires Amounts.AllAmounts(Texts(list + [e]))
    ensures Amounts.AllAmounts(Texts(list)) && Amounts.CanonicalAmount(e.text).Some?
    ensures Amounts.Total(Texts(list + [e])) == Amounts.Total(Texts(list)) + Amounts.Value(e.text)
  {
    var t := Texts(list + [e]);
    assert t == Texts(list) + [e.text];
    assert e.text in t;
    forall a | a in Texts(list)
      ensures Amounts.CanonicalAmount(a).Some?
    {
      assert a in t;
    }
    Amounts.TotalSnoc(t, |list|);
    assert t[..|list|] == Texts(list) && t[..|list| + 1] == t;
  }

  /** One more source: both sums grow by its weight. */
  lemma SumsGrow(list: seq<Listed>, m: map<string, real>, e: Listed)
    requires e.source !in m && Amounts.AllAmounts(Texts(list + [e]))
    requires Stake(m.Keys, m) * UNITS == Amounts.Total(Texts(list)) as real
    ensures Weight(e.text).Some?
    ensures
      var more := m[e.source := Weight(e.text).value];
      Stake(more.Keys, more) * UNITS == Amounts.Total(Texts(list + [e])) as real
  {
    TotalSnoc(list, e);
    WeightOfAmount(e.text);
    var w := Weight(e.text).value;
    TotalGrows(m, e.source, w);
    assert (Stake(m.Keys, m) + w) * UNITS == Stake(m.Keys, m) * UNITS + w * UNITS;
  }

  /** What one row adds to an index: nothing, or its source with its weight. */
  lemma RowAdds(idx: Option<Index>, row: Option<Validator>)
    requires AddRow(idx, Read(row)).Some?
    ensures
      && idx.Some?
      && var m := idx.value.weightBySource;
         AddRow(idx, Read(row)).value.weightBySource ==
         if SourceOf(row) in m then m
         else if Weight(TextOf(row)).Some? then m[SourceOf(row) := Weight(TextOf(row)).value]
         else m
  {
    assert Read(row).source == SourceOf(row);
    assert Read(row).weight.Some? ==> Read(row).weight == Weight(TextOf(row));
  }

  lemma IndexGrows(rows: seq<Option<Validator>>)
    requires rows != [] && IndexOf(ReadAll(rows)).Some?
    ensures
      var before, last := rows[..|rows| - 1], rows[|rows| - 1];
      && IndexOf(ReadAll(before)).Some?
      && var m := IndexOf(ReadAll(before)).value.weightBySource;
         IndexOf(ReadAll(rows)).value.weightBySource ==
         if SourceOf(last) in m then m
         else if Weight(TextOf(last)).Some? then m[SourceOf(last) := Weight(TextOf(last)).value]
         else m
  {
    ReadAllSnoc(rows);
    RowAdds(IndexOf(ReadAll(rows[..|rows| - 1])), rows[|rows| - 1]);
  }

  /** The true sum of the first weights is the total stake, in units. */
  lemma {:induction false} SumIsStake(rows: seq<Option<Validator>>)
    requires IndexOf(ReadAll(rows)).Some? && Amounts.AllAmounts(Texts(FirstWeights(rows)))
    ensures
      var m := IndexOf(ReadAll(rows)).value.weightBySource;
      Stake(m.Keys, m) * UNITS == Amounts.Total(Texts(FirstWeights(rows))) as real
  {
    if rows == [] {
    } else {
      var n := |rows| - 1;
      var before := rows[..n];
      var e := Listed(SourceOf(rows[n]), TextOf(rows[n]));
      IndexGrows(rows);
      ListedAreWeighed(before);
      var m := IndexOf(ReadAll(before)).value.weightBySource;
      if Lists(FirstWeights(before), e.source) {
        SumIsStake(before);
      } else {
        TotalSnoc(FirstWeights(before), e);
        SumIsStake(before);
        SumsGrow(FirstWeights(before), m, e);
      }
    }
  }

  lemma FirstWeightsSnoc(rows: seq<Option<Validator>>, i: nat)
    requires i < |rows|
    ensures
      var before, e := FirstWeights(rows[..i]), Listed(SourceOf(rows[i]), TextOf(rows[i]));
      FirstWeights(rows[..i + 1]) == if Lists(before, e.source) then before else before + [e]
  {
    assert rows[..i + 1][..i] == rows[..i];
  }

  lemma ListsOneMore(list: seq<Listed>, e: Listed)
    ensures forall x :: Lists(list + [e], x) <==> Lists(list, x) || x == e.source
  {
    forall x
      ensures Lists(list + [e], x) <==> Lists(list, x) || x == e.source
    {
      ListsSnoc(list, e, x);
    }
  }

  /** The served total runs the quorum's own guards first, then sums the first weights as texts. */
  method ExactStakeTotal(s: Snapshot) returns (r: Option<string>)
    ensures r.Some? <==> TotalStakeOf(s).Some? && Amounts.AllAmounts(Texts(FirstWeights(s.rows)))
    ensures r.Some? ==> Amounts.IsCanonical(r.value)
    ensures r.Some? ==> Amounts.Units(r.value) as real == TotalStakeOf(s).value * UNITS
  {
    var total := TotalStake(s);
    if total.None? {
      return None;
    }
    var seen: set<string> := {};
    var list: seq<Listed> := [];
    for i := 0 to |s.rows|
      invariant list == FirstWeights(s.rows[..i])
      invariant forall x :: x in seen <==> Lists(list, x)
    {
      FirstWeightsSnoc(s.rows, i);
      var src := SourceOf(s.rows[i]);
      if src !in seen {
        var e := Listed(src, TextOf(s.rows[i]));
        ListsOneMore(list, e);
        seen, list := seen + {src}, list + [e];
      }
    }
    assert s.rows[..|s.rows|] == s.rows;
    r := Amounts.SumCanonicalAmounts(Texts(list));
    if r.Some? {
      SumIsStake(s.rows);
    }
  }

  lemma SameInUnits(x: real, y: real)
    ensures x * UNITS == y * UNITS <==> x == y
  {
  }

  /**
   The served total and the quorum's denominator are one number, and the text is the only canonical
   text of it: two snapshots are served the same total exactly when the quorum divides by the same.
   */
  lemma TotalsAgree(a: Snapshot, b: Snapshot, ta: string, tb: string)
    requires TotalStakeOf(a).Some? && TotalStakeOf(b).Some? && Amounts.IsCanonical(ta) && Amounts.IsCanonical(tb)
    requires Amounts.Units(ta) as real == TotalStakeOf(a).value * UNITS
    requires Amounts.Units(tb) as real == TotalStakeOf(b).value * UNITS
    ensures ta == tb <==> TotalStakeOf(a) == TotalStakeOf(b)
  {
    Amounts.CanonicalUnique(ta, tb);
    SameInUnits(TotalStakeOf(a).value, TotalStakeOf(b).value);
  }
}
