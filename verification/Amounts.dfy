/**
 Canonical 18-decimal amounts and their exact sum.

 `Value` reads an accepted amount as a whole number of 10^-18 units, straight from its grammar.
 The canonical text is proved to be the one text of that value, so sums are compared as numbers.
 */
module Amounts {
  import opened Wrappers
  import opened Text
  import opened Arithmetic
  import opened Sums

  const PLACES: nat := 18

  /** Digits, and optionally a point with one to eighteen digits. */
  predicate WellFormed(s: string) {
    && IntPart(s) != "" && AllDigits(IntPart(s))
    && AllDigits(FracPart(s)) && |FracPart(s)| <= PLACES
    && (Point(s) < |s| ==> FracPart(s) != "")
  }

  /** Drops leading zeros while a digit follows. */
  function StripZeros(s: string): (t: string)
    requires AllDigits(s)
    ensures AllDigits(t) && |t| <= |s|
  {
    if |s| > 1 && s[0] == '0' then StripZeros(s[1..]) else s
  }

  /** None where the source throws. */
  function CanonicalAmount(input: string): Option<string> {
    var s := Trim(input);
    if !WellFormed(s) then None
    else Some(StripZeros(IntPart(s)) + "." + FracPart(s) + Zeros(PLACES - |FracPart(s)|))
  }

  // ---- What an amount means ----

  /** An integer part and up to eighteen fraction digits, in units of 10^-18. */
  function InUnits(i: string, f: string): nat
    requires AllDigits(i) && AllDigits(f) && |f| <= PLACES
  {
    Shift(Numeral(i), PLACES) + Shift(Numeral(f), PLACES - |f|)
  }

  /** An accepted amount in units of 10^-18. */
  function Value(input: string): nat
    requires CanonicalAmount(input).Some?
  {
    var s := Trim(input);
    InUnits(IntPart(s), FracPart(s))
  }

  /** Digits without a redundant leading zero, a point, exactly eighteen digits. */
  predicate IsCanonical(t: string) {
    && |t| >= PLACES + 2
    && t[|t| - PLACES - 1] == '.'
    && AllDigits(t[..|t| - PLACES - 1]) && NoLeadingZero(t[..|t| - PLACES - 1])
    && AllDigits(t[|t| - PLACES..])
  }

  function Units(t: string): nat
    requires IsCanonical(t)
  {
    Shift(Numeral(t[..|t| - PLACES - 1]), PLACES) + Numeral(t[|t| - PLACES..])
  }

  lemma ZeroNumeral()
    ensures Numeral("0") == 0
  {
    assert "0"[..0] == "";
  }

  lemma ShiftPlaces(n: nat)
    ensures Shift(n, PLACES) == n * 1000000000000000000
  {
    ShiftIsTimes(n, PLACES);
    assert Shift(1, 6) == 1000000;
    assert Shift(1, 12) == 1000000000000;
    assert Shift(1, PLACES) == 1000000000000000000;
  }

  lemma {:induction false} StripKeepsNumeral(s: string)
    requires AllDigits(s) && s != ""
    ensures StripZeros(s) != "" && NoLeadingZero(StripZeros(s))
    ensures Numeral(StripZeros(s)) == Numeral(s)
  {
    if |s| > 1 && s[0] == '0' {
      StripKeepsNumeral(s[1..]);
      NumeralConcat("0", s[1..]);
      assert "0" + s[1..] == s;
      ZeroNumeral();
      ShiftIsTimes(0, |s| - 1);
    }
  }

  /** What the parts of a canonical text are, and what it is worth. */
  lemma CanonicalOf(i: string, f: string)
    requires i != "" && AllDigits(i) && NoLeadingZero(i) && AllDigits(f) && |f| == PLACES
    ensures IsCanonical(i + "." + f) && Units(i + "." + f) == Shift(Numeral(i), PLACES) + Numeral(f)
    ensures IntPart(i + "." + f) == i && FracPart(i + "." + f) == f
  {
    var t := i + "." + f;
    assert t[..|t| - PLACES - 1] == i && t[|t| - PLACES..] == f && t[|i|] == '.';
    PointAfterDigits(i, f);
  }

  /** Padding a fraction with zeros scales it. */
  lemma Padded(f: string, n: nat)
    requires AllDigits(f)
    ensures AllDigits(f + Zeros(n)) && Numeral(f + Zeros(n)) == Shift(Numeral(f), n)
  {
    NumeralConcat(f, Zeros(n));
    NumeralZeros(n);
  }

  /** Digits, or digits, a point and up to eighteen more digits, with blanks around. */
  ghost predicate Spells(input: string, before: string, i: string, f: string, after: string) {
    && AllBlank(before) && AllBlank(after) && i != "" && AllDigits(i) && AllDigits(f) && |f| <= PLACES
    && input == before + (if f == "" then i else i + "." + f) + after
  }

  lemma DigitIsNoBlank(c: char)
    requires IsDigit(c)
    ensures !IsBlank(c) && c != '.'
  {
  }

  lemma {:induction false} NoPoint(s: string)
    requires '.' !in s
    ensures IntPart(s) == s && FracPart(s) == ""
  {
  }

  /** Every such text is accepted, and is worth what it spells. */
  lemma SpelledIsAccepted(input: string, before: string, i: string, f: string, after: string)
    requires Spells(input, before, i, f, after)
    ensures CanonicalAmount(input).Some? && Value(input) == InUnits(i, f)
  {
    var body := if f == "" then i else i + "." + f;
    DigitIsNoBlank(i[0]);
    DigitIsNoBlank(body[|body| - 1]);
    TrimOf(before, body, after);
    if f == "" {
      forall c | c in i
        ensures c != '.'
      {
        DigitIsNoBlank(c);
      }
      NoPoint(i);
    } else {
      PointAfterDigits(i, f);
    }
  }

  /** And no other text is: exactly what the grammar spells is accepted. */
  lemma AcceptedExactly(input: string)
    ensures CanonicalAmount(input).Some? <==> exists before, i, f, after :: Spells(input, before, i, f, after)
  {
    if CanonicalAmount(input).Some? {
      var s := Trim(input);
      var before, after := TrimParts(input);
      assert s == if Point(s) == |s| then IntPart(s) else IntPart(s) + "." + FracPart(s);
      assert Spells(input, before, IntPart(s), FracPart(s), after);
    }
    forall before, i, f, after | Spells(input, before, i, f, after)
      ensures CanonicalAmount(input).Some?
    {
      SpelledIsAccepted(input, before, i, f, after);
    }
  }

  /** The canonical text of an accepted amount, in parts. */
  lemma CanonicalParts(input: string) returns (i: string, f: string)
    requires CanonicalAmount(input).Some?
    ensures i != "" && AllDigits(i) && NoLeadingZero(i) && AllDigits(f) && |f| == PLACES
    ensures CanonicalAmount(input) == Some(i + "." + f)
    ensures Value(input) == Shift(Numeral(i), PLACES) + Numeral(f)
  {
    var s := Trim(input);
    var pad := Zeros(PLACES - |FracPart(s)|);
    i, f := StripZeros(IntPart(s)), FracPart(s) + pad;
    StripKeepsNumeral(IntPart(s));
    Padded(FracPart(s), |pad|);
    assert i + "." + FracPart(s) + pad == i + "." + f;
  }

  /** The canonical text of an accepted amount is canonical and has the amount's value. */
  lemma CanonicalKeepsValue(input: string)
    requires CanonicalAmount(input).Some?
    ensures IsCanonical(CanonicalAmount(input).value)
    ensures Units(CanonicalAmount(input).value) == Value(input)
  {
    var i, f := CanonicalParts(input);
    CanonicalOf(i, f);
  }

  /** One value, one canonical text. */
  lemma CanonicalUnique(a: string, b: string)
    requires IsCanonical(a) && IsCanonical(b)
    ensures a == b <==> Units(a) == Units(b)
  {
    if Units(a) == Units(b) {
      var ai, af := a[..|a| - PLACES - 1], a[|a| - PLACES..];
      var bi, bf := b[..|b| - PLACES - 1], b[|b| - PLACES..];
      NumeralBound(af);
      NumeralBound(bf);
      ShiftPlaces(Numeral(ai));
      ShiftPlaces(Numeral(bi));
      ShiftPlaces(1);
      QuotientUnique(1000000000000000000, Numeral(ai), Numeral(af), Numeral(bi), Numeral(bf));
      NumeralUnique(ai, bi);
      SameLengthNumerals(af, bf);
      assert a == ai + "." + af && b == bi + "." + bf;
    }
  }

  /** Canonical text is a fixed point. */
  lemma CanonicalTwice(t: string)
    requires IsCanonical(t)
    ensures CanonicalAmount(t) == Some(t)
    ensures Value(t) == Units(t)
  {
    var i, f := t[..|t| - PLACES - 1], t[|t| - PLACES..];
    assert t == i + "." + f;
    forall c | c in t
      ensures !IsBlank(c)
    {
      assert c in i || c == '.' || c in f;
    }
    TrimDigits(t);
    PointAfterDigits(i, f);
    assert StripZeros(i) == i;
    assert f + Zeros(0) == f;
    assert i + "." + f + Zeros(0) == t;
  }

  // ---- The sum ----

  predicate AllAmounts(amounts: seq<string>) {
    forall a | a in amounts :: CanonicalAmount(a).Some?
  }

  function ValueOrZero(a: string): nat {
    if CanonicalAmount(a).Some? then Value(a) else 0
  }

  /** The true sum, in units. */
  function Total(amounts: seq<string>): nat {
    SumBy(amounts, ValueOrZero)
  }

  function WholeDigits(s: string): string {
    if |s| > PLACES then s[..|s| - PLACES] else "0"
  }

  function FractionDigits(s: string): string {
    if |s| > PLACES then s[|s| - PLACES..] else Zeros(PLACES - |s|) + s
  }

  /** The text a running total in units is given. */
  function Format(acc: nat): string {
    var s := Decimal(acc);
    StripZeros(WholeDigits(s)) + "." + FractionDigits(s)
  }

  /** Eighteen fraction digits, taken from the end or padded with zeros, and the digits before them. */
  lemma FormatParts(s: string)
    requires AllDigits(s)
    ensures WholeDigits(s) != "" && AllDigits(WholeDigits(s))
    ensures |FractionDigits(s)| == PLACES && AllDigits(FractionDigits(s))
    ensures Shift(Numeral(WholeDigits(s)), PLACES) + Numeral(FractionDigits(s)) == Numeral(s)
  {
    if |s| > PLACES {
      assert s == WholeDigits(s) + FractionDigits(s);
      NumeralConcat(WholeDigits(s), FractionDigits(s));
    } else {
      NumeralConcat(Zeros(PLACES - |s|), s);
      NumeralZeros(PLACES - |s|);
      ShiftIsTimes(0, |s|);
      ZeroNumeral();
      ShiftIsTimes(0, PLACES);
    }
  }

  /** It is the canonical text of that many units. */
  lemma FormatIsCanonical(acc: nat)
    ensures IsCanonical(Format(acc)) && Units(Format(acc)) == acc
  {
    DecimalNumeral(acc);
    var s := Decimal(acc);
    FormatParts(s);
    StripKeepsNumeral(WholeDigits(s));
    CanonicalOf(StripZeros(WholeDigits(s)), FractionDigits(s));
  }

  /** What the loop adds for one amount is its value in units. */
  lemma TermIsValue(input: string)
    requires CanonicalAmount(input).Some?
    ensures
      var t := CanonicalAmount(input).value;
      && AllDigits(IntPart(t)) && AllDigits(FracPart(t))
      && Numeral(IntPart(t)) * 1000000000000000000 + Numeral(FracPart(t)) == Value(input)
  {
    var i, f := CanonicalParts(input);
    CanonicalOf(i, f);
    ShiftPlaces(Numeral(i));
  }

  lemma {:induction false} TotalSnoc(amounts: seq<string>, k: nat)
    requires k < |amounts|
    ensures Total(amounts[..k + 1]) == Total(amounts[..k]) + ValueOrZero(amounts[k])
  {
    assert amounts[..k + 1][..k] == amounts[..k];
  }

  /**
   The exact sum. It throws exactly when some amount is not accepted; otherwise it gives the one
   canonical text whose value is the sum of the values.
   */
  method SumCanonicalAmounts(amounts: seq<string>) returns (r: Option<string>)
    ensures r.Some? <==> AllAmounts(amounts)
    ensures r.Some? ==> IsCanonical(r.value) && Units(r.value) == Total(amounts)
  {
    var acc: nat := 0;
    for k := 0 to |amounts|
      invariant AllAmounts(amounts[..k])
      invariant acc == Total(amounts[..k])
    {
      TotalSnoc(amounts, k);
      assert amounts[..k + 1] == amounts[..k] + [amounts[k]];
      var c := CanonicalAmount(amounts[k]);
      match c
      case None =>
        assert amounts[k] in amounts;
        return None;
      case Some(t) =>
        TermIsValue(amounts[k]);
        var i, f := IntPart(t), FracPart(t);
        acc := acc + (Numeral(i) * 1000000000000000000 + Numeral(f));
    }
    assert amounts[..|amounts|] == amounts;
    FormatIsCanonical(acc);
    return Some(Format(acc));
  }

  /**
   The sum's outcome does not depend on the order of the list: both orders throw, or both give
   the same text.
   */
  lemma SumForgetsOrder(a: seq<string>, b: seq<string>)
    requires multiset(a) == multiset(b)
    ensures AllAmounts(a) <==> AllAmounts(b)
    ensures forall s, t | IsCanonical(s) && IsCanonical(t) && Units(s) == Total(a) && Units(t) == Total(b) :: s == t
  {
    assert forall x :: x in a <==> x in multiset(a);
    assert forall x :: x in b <==> x in multiset(b);
    Sums.SumForgetsOrder(a, b, ValueOrZero);
    forall s, t | IsCanonical(s) && IsCanonical(t) && Units(s) == Total(a) && Units(t) == Total(b)
      ensures s == t
    {
      CanonicalUnique(s, t);
    }
  }
}
