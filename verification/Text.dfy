/** Characters and strings: separators, digits, decimal numerals, case and blanks. */
module Text {

  // ---- Joining and splitting ----

  function Join(parts: seq<string>, sep: char): string {
    if |parts| == 0 then ""
    else if |parts| == 1 then parts[0]
    else parts[0] + [sep] + Join(parts[1..], sep)
  }

  ghost function Split(s: string, sep: char): (parts: seq<string>)
    ensures parts != []
  {
    if s == "" then [""]
    else
      var rest := Split(s[1..], sep);
      if s[0] == sep then [""] + rest else [[s[0]] + rest[0]] + rest[1..]
  }

  /** No part contains the separator. */
  predicate Free(parts: seq<string>, sep: char) {
    forall p | p in parts :: sep !in p
  }

  lemma {:induction false} SplitField(field: string, sep: char)
    requires sep !in field
    ensures Split(field, sep) == [field]
  {
    if field == "" {
    } else {
      assert field[0] in field && sep !in field[1..];
      SplitField(field[1..], sep);
      assert [field[0]] + field[1..] == field;
    }
  }

  lemma {:induction false} SplitFirst(field: string, rest: string, sep: char)
    requires sep !in field
    ensures Split(field + [sep] + rest, sep) == [field] + Split(rest, sep)
  {
    var s := field + [sep] + rest;
    if field == "" {
      assert s[1..] == rest;
    } else {
      assert field[0] in field && sep !in field[1..];
      SplitFirst(field[1..], rest, sep);
      assert s[1..] == field[1..] + [sep] + rest;
      assert [field[0]] + field[1..] == field;
    }
  }

  lemma {:induction false} SplitJoin(parts: seq<string>, sep: char)
    requires parts != [] && Free(parts, sep)
    ensures Split(Join(parts, sep), sep) == parts
  {
    assert parts[0] in parts;
    if |parts| == 1 {
      SplitField(parts[0], sep);
    } else {
      SplitFirst(parts[0], Join(parts[1..], sep), sep);
      SplitJoin(parts[1..], sep);
    }
  }

  /** Separator-free lists join to the same string exactly when they are equal. */
  lemma JoinInjective(a: seq<string>, b: seq<string>, sep: char)
    requires a != [] && b != [] && Free(a, sep) && Free(b, sep)
    ensures Join(a, sep) == Join(b, sep) <==> a == b
  {
    SplitJoin(a, sep);
    SplitJoin(b, sep);
  }

  lemma {:induction false} JoinAppend(a: seq<string>, b: seq<string>, sep: char)
    requires a != [] && b != []
    ensures Join(a + b, sep) == Join(a, sep) + [sep] + Join(b, sep)
  {
    if |a| == 1 {
      assert (a + b)[1..] == b;
    } else {
      assert (a + b)[1..] == a[1..] + b;
      JoinAppend(a[1..], b, sep);
    }
  }

  /** How often a character occurs. */
  function Occurrences(s: string, c: char): nat {
    if s == "" then 0 else Occurrences(s[..|s| - 1], c) + if s[|s| - 1] == c then 1 else 0
  }

  lemma {:induction false} OccurrencesConcat(a: string, b: string, c: char)
    ensures Occurrences(a + b, c) == Occurrences(a, c) + Occurrences(b, c)
    decreases |b|
  {
    if b == "" {
      assert a + b == a;
    } else {
      OccurrencesConcat(a, b[..|b| - 1], c);
      assert (a + b)[..|a + b| - 1] == a + b[..|b| - 1];
    }
  }

  lemma {:induction false} OccurrencesNone(s: string, c: char)
    ensures Occurrences(s, c) == 0 <==> c !in s
  {
    if s == "" {
    } else {
      OccurrencesNone(s[..|s| - 1], c);
      assert s == s[..|s| - 1] + [s[|s| - 1]];
    }
  }

  /** A join holds a separator between any two parts, and no other exactly when the parts hold none. */
  lemma {:induction false} JoinSeparators(parts: seq<string>, sep: char)
    requires parts != []
    ensures Occurrences(Join(parts, sep), sep) >= |parts| - 1
    ensures Occurrences(Join(parts, sep), sep) == |parts| - 1 <==> Free(parts, sep)
  {
    OccurrencesNone(parts[0], sep);
    assert parts == [parts[0]] + parts[1..];
    if |parts| > 1 {
      var rest := Join(parts[1..], sep);
      OccurrencesConcat(parts[0] + [sep], rest, sep);
      OccurrencesConcat(parts[0], [sep], sep);
      assert [sep][..0] == "" && Occurrences([sep], sep) == 1;
      JoinSeparators(parts[1..], sep);
    }
  }

  // ---- Digits and numerals ----

  predicate IsDigit(c: char) {
    '0' <= c <= '9'
  }

  predicate AllDigits(s: string) {
    forall c | c in s :: IsDigit(c)
  }

  function Digit(c: char): (d: nat)
    requires IsDigit(c)
    ensures d < 10
  {
    c as int - '0' as int
  }

  function DigitChar(d: nat): (c: char)
    requires d < 10
    ensures IsDigit(c) && Digit(c) == d
  {
    ('0' as int + d) as char
  }

  /** n times 10^k. */
  function Shift(n: nat, k: nat): (p: nat)
    ensures p >= n
  {
    if k == 0 then n else 10 * Shift(n, k - 1)
  }

  /** The number a run of digits spells. */
  function Numeral(s: string): nat
    requires AllDigits(s)
  {
    if s == "" then 0 else 10 * Numeral(s[..|s| - 1]) + Digit(s[|s| - 1])
  }

  /** A number in decimal, as BigInt prints it. */
  function Decimal(n: nat): (s: string)
    ensures s != "" && AllDigits(s)
  {
    if n < 10 then [DigitChar(n)] else Decimal(n / 10) + [DigitChar(n % 10)]
  }

  function Zeros(n: nat): (s: string)
    ensures |s| == n && AllDigits(s)
  {
    seq(n, _ => '0')
  }

  predicate NoLeadingZero(s: string) {
    |s| > 1 ==> s[0] != '0'
  }

  lemma {:induction false} NumeralConcat(a: string, b: string)
    requires AllDigits(a) && AllDigits(b)
    ensures AllDigits(a + b)
    ensures Numeral(a + b) == Shift(Numeral(a), |b|) + Numeral(b)
    decreases |b|
  {
    if b == "" {
      assert a + b == a;
    } else {
      NumeralConcat(a, b[..|b| - 1]);
      assert (a + b)[..|a + b| - 1] == a + b[..|b| - 1];
    }
  }

  lemma {:induction false} NumeralBound(s: string)
    requires AllDigits(s)
    ensures Numeral(s) < Shift(1, |s|)
    ensures s != "" && s[0] != '0' ==> Numeral(s) >= Shift(1, |s| - 1)
  {
    if s == "" {
    } else {
      NumeralBound(s[..|s| - 1]);
    }
  }

  lemma {:induction false} ShiftIsTimes(n: nat, k: nat)
    ensures Shift(n, k) == n * Shift(1, k)
  {
    if k == 0 {
    } else {
      ShiftIsTimes(n, k - 1);
      assert 10 * (n * Shift(1, k - 1)) == n * (10 * Shift(1, k - 1));
    }
  }

  lemma {:induction false} NumeralZeros(n: nat)
    ensures Numeral(Zeros(n)) == 0
  {
    if n == 0 {
    } else {
      assert Zeros(n)[..n - 1] == Zeros(n - 1);
      NumeralZeros(n - 1);
    }
  }

  lemma {:induction false} DecimalNumeral(n: nat)
    ensures Numeral(Decimal(n)) == n && NoLeadingZero(Decimal(n))
  {
    if n >= 10 {
      DecimalNumeral(n / 10);
      var s := Decimal(n);
      assert s[..|s| - 1] == Decimal(n / 10);
      DecimalFirst(n / 10);
    } else {
      assert [DigitChar(n)][..0] == "";
    }
  }

  lemma {:induction false} DecimalFirst(n: nat)
    ensures n > 0 ==> Decimal(n)[0] != '0'
  {
    if n >= 10 {
      DecimalFirst(n / 10);
    }
  }

  lemma {:induction false} ShiftGrows(m: nat, n: nat)
    requires m <= n
    ensures Shift(1, m) <= Shift(1, n)
  {
    if m < n {
      ShiftGrows(m, n - 1);
    }
  }

  lemma {:induction false} SameLengthNumerals(a: string, b: string)
    requires AllDigits(a) && AllDigits(b) && |a| == |b| && Numeral(a) == Numeral(b)
    ensures a == b
  {
    if a == "" {
    } else {
      SameLengthNumerals(a[..|a| - 1], b[..|b| - 1]);
      assert a == a[..|a| - 1] + [a[|a| - 1]] && b == b[..|b| - 1] + [b[|b| - 1]];
    }
  }

  /** Without redundant leading zeros, a number has one numeral. */
  lemma {:induction false} NumeralUnique(a: string, b: string)
    requires AllDigits(a) && AllDigits(b) && a != "" && b != ""
    requires NoLeadingZero(a) && NoLeadingZero(b) && Numeral(a) == Numeral(b)
    ensures a == b
  {
    NumeralBound(a);
    NumeralBound(b);
    if |a| < |b| {
      ShiftGrows(|a|, |b| - 1);
    } else if |b| < |a| {
      ShiftGrows(|b|, |a| - 1);
    }
    SameLengthNumerals(a, b);
  }

  lemma DecimalInjective(m: nat, n: nat)
    ensures Decimal(m) == Decimal(n) <==> m == n
  {
    DecimalNumeral(m);
    DecimalNumeral(n);
  }

  // ---- Decimal points ----

  /** Position of the first point, or the length when there is none. */
  function Point(s: string): (k: nat)
    ensures k <= |s|
    ensures '.' !in s[..k]
    ensures k < |s| ==> s[k] == '.'
  {
    if s == "" then 0
    else if s[0] == '.' then 0
    else
      var k := Point(s[1..]);
      assert s[..1 + k] == [s[0]] + s[1..][..k];
      1 + k
  }

  function IntPart(s: string): string {
    s[..Point(s)]
  }

  function FracPart(s: string): string {
    if Point(s) == |s| then "" else s[Point(s) + 1..]
  }

  lemma {:induction false} PointAfterDigits(a: string, b: string)
    requires AllDigits(a)
    ensures Point(a + "." + b) == |a|
    ensures IntPart(a + "." + b) == a && FracPart(a + "." + b) == b
  {
    var s := a + "." + b;
    if a == "" {
    } else {
      PointAfterDigits(a[1..], b);
      assert s[1..] == a[1..] + "." + b;
      assert s[0] == a[0] && a[0] in a;
    }
  }

  // ---- Case and blanks ----

  /** ASCII lower case. */
  function LowerChar(c: char): char {
    if 'A' <= c <= 'Z' then (c as int + 32) as char else c
  }

  function Lower(s: string): (l: string)
    ensures |l| == |s|
  {
    seq(|s|, i requires 0 <= i < |s| => LowerChar(s[i]))
  }

  /** Capital letters become the small ones in their place, and nothing else changes. */
  lemma LowerMeaning(s: string, i: nat)
    requires i < |s|
    ensures 'A' <= s[i] <= 'Z' ==> 'a' <= Lower(s)[i] <= 'z' && Lower(s)[i] as int - 'a' as int == s[i] as int - 'A' as int
    ensures !('A' <= s[i] <= 'Z') ==> Lower(s)[i] == s[i]
  {
  }

  lemma LowerTwice(s: string)
    ensures Lower(Lower(s)) == Lower(s)
  {
  }

  lemma LowerKeepsFree(s: string, sep: char)
    requires sep !in s && !('A' <= sep <= 'Z') && !('a' <= sep <= 'z')
    ensures sep !in Lower(s)
  {
  }

  predicate IsBlank(c: char) {
    c in {' ', '\t', '\n', '\r', 0x0B as char, 0x0C as char, 0xA0 as char, 0x1680 as char, 0x2028 as char, 0x2029 as char,
          0x202F as char, 0x205F as char, 0x3000 as char, 0xFEFF as char} || 0x2000 as char <= c <= 0x200A as char
  }

  /** The white space and line terminators of ECMAScript, by code. */
  lemma BlankExactly(c: char)
    ensures
      var k := c as int;
      IsBlank(c) <==>
      || 9 <= k <= 13 || k in {0x20, 0xA0, 0x1680, 0x2028, 0x2029, 0x202F, 0x205F, 0x3000, 0xFEFF} || 0x2000 <= k <= 0x200A
  {
  }

  function Trim(s: string): string {
    if s == "" then ""
    else if IsBlank(s[0]) then Trim(s[1..])
    else if IsBlank(s[|s| - 1]) then Trim(s[..|s| - 1])
    else s
  }

  lemma {:induction false} TrimDigits(s: string)
    requires forall c | c in s :: !IsBlank(c)
    ensures Trim(s) == s
  {
    if s == "" {
    } else {
      assert s[0] in s && s[|s| - 1] in s;
    }
  }

  predicate AllBlank(s: string) {
    forall c | c in s :: IsBlank(c)
  }

  /** Neither end of the text is blank. */
  predicate Tight(s: string) {
    s != "" ==> !IsBlank(s[0]) && !IsBlank(s[|s| - 1])
  }

  /** Trimming takes blanks off both ends and nothing else. */
  lemma {:induction false} TrimParts(s: string) returns (before: string, after: string)
    ensures s == before + Trim(s) + after && AllBlank(before) && AllBlank(after) && Tight(Trim(s))
    decreases |s|
  {
    before, after := "", "";
    if s == "" {
    } else if IsBlank(s[0]) {
      before, after := TrimParts(s[1..]);
      before := [s[0]] + before;
    } else if IsBlank(s[|s| - 1]) {
      before, after := TrimParts(s[..|s| - 1]);
      after := after + [s[|s| - 1]];
    }
  }

  lemma {:induction false} TrimOf(before: string, body: string, after: string)
    requires AllBlank(before) && AllBlank(after) && Tight(body) && body != ""
    ensures Trim(before + body + after) == body
    decreases |before| + |after|
  {
    var s := before + body + after;
    if before != "" {
      assert before[0] in before && AllBlank(before[1..]);
      assert s[1..] == before[1..] + body + after;
      TrimOf(before[1..], body, after);
    } else if after != "" {
      assert after[|after| - 1] in after && AllBlank(after[..|after| - 1]);
      assert s[..|s| - 1] == before + body + after[..|after| - 1];
      TrimOf(before, body, after[..|after| - 1]);
    } else {
      assert s == body;
    }
  }
}
