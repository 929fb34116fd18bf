/**
 Ledger effects read per action, or prefetched for a page of actions in one read a table.

 A read is taken for what SQL promises and no more: some listing of the selected rows that is
 sorted by the ORDER BY. Nothing says which listing when the order leaves rows tied.
 */
module LedgerEffects {
  import opened Sequences
  import opened StringOrder
  import opened Wrappers
  import Amounts
  import Strings = Text

  /** The columns of a listing; the joins can leave the address or the tick null. */
  datatype Effect = Effect(address: Option<string>, tick: Option<string>, amount: Option<string>)

  /** A table row; `action` comes back as the grouping key. */
  datatype Row = Row(action: nat, effect: Effect)

  type Order = (Effect, Effect) -> bool

  /** An ORDER BY: it may rank different rows alike. */
  ghost predicate Transitive(leq: Order) {
    forall x, y, z :: leq(x, y) && leq(y, z) ==> leq(x, z)
  }

  /** No two different effects are ranked alike. */
  ghost predicate NoTies(s: seq<Effect>, leq: Order) {
    forall x, y | x in s && y in s && leq(x, y) && leq(y, x) :: x == y
  }

  ghost predicate SortedBy(s: seq<Effect>, leq: Order) {
    forall i, j | 0 <= i < j < |s| :: leq(s[i], s[j])
  }

  /** The effects of one action, in the order of the rows. */
  function Slice(rows: seq<Row>, action: nat): seq<Effect> {
    if rows == [] then []
    else Slice(rows[..|rows| - 1], action) + if rows[|rows| - 1].action == action then [rows[|rows| - 1].effect] else []
  }

  /** The rows an IN list selects. */
  function Where(rows: seq<Row>, idxs: seq<nat>): seq<Row> {
    if rows == [] then []
    else Where(rows[..|rows| - 1], idxs) + if rows[|rows| - 1].action in idxs then [rows[|rows| - 1]] else []
  }

  /** What the per-action query may return. */
  ghost predicate SingleRead(table: seq<Row>, action: nat, leq: Order, result: seq<Effect>) {
    multiset(result) == multiset(Slice(table, action)) && SortedBy(result, leq)
  }

  /** What the page query may return: action first, then the same order. */
  ghost predicate BatchRead(table: seq<Row>, idxs: seq<nat>, leq: Order, result: seq<Row>) {
    && multiset(result) == multiset(Where(table, idxs))
    && forall i, j | 0 <= i < j < |result| ::
         result[i].action < result[j].action
         || (result[i].action == result[j].action && leq(result[i].effect, result[j].effect))
  }

  // ---- Counting rows ----

  lemma {:induction false} SliceCount(rows: seq<Row>, action: nat, e: Effect)
    ensures multiset(Slice(rows, action))[e] == multiset(rows)[Row(action, e)]
  {
    if rows == [] {
    } else {
      var n := |rows| - 1;
      SliceCount(rows[..n], action, e);
      assert rows == rows[..n] + [rows[n]];
    }
  }

  lemma {:induction false} WhereSlice(rows: seq<Row>, idxs: seq<nat>, action: nat)
    ensures Slice(Where(rows, idxs), action) == if action in idxs then Slice(rows, action) else []
  {
    if rows == [] {
    } else {
      var n := |rows| - 1;
      WhereSlice(rows[..n], idxs, action);
      if rows[n].action in idxs {
        var w := Where(rows, idxs);
        assert w[..|w| - 1] == Where(rows[..n], idxs);
      } else {
        assert Where(rows, idxs) == Where(rows[..n], idxs);
      }
    }
  }

  /** Where the rows come from: the effect at a slice position stands at some row, and order is kept. */
  lemma {:induction false} SliceSource(rows: seq<Row>, action: nat, i: nat, j: nat) returns (p: nat, q: nat)
    requires i < j < |Slice(rows, action)|
    ensures p < q < |rows|
    ensures rows[p] == Row(action, Slice(rows, action)[i]) && rows[q] == Row(action, Slice(rows, action)[j])
  {
    var n := |rows| - 1;
    var init := Slice(rows[..n], action);
    if j < |init| {
      p, q := SliceSource(rows[..n], action, i, j);
    } else {
      p := SliceAt(rows[..n], action, i);
      q := n;
    }
  }

  lemma {:induction false} SliceAt(rows: seq<Row>, action: nat, i: nat) returns (p: nat)
    requires i < |Slice(rows, action)|
    ensures p < |rows| && rows[p] == Row(action, Slice(rows, action)[i])
  {
    var n := |rows| - 1;
    if i < |Slice(rows[..n], action)| {
      p := SliceAt(rows[..n], action, i);
    } else {
      p := n;
    }
  }

  lemma SameHead(a: seq<Effect>, b: seq<Effect>, leq: Order)
    requires NoTies(a, leq) && SortedBy(a, leq) && SortedBy(b, leq) && multiset(a) == multiset(b)
    requires a != [] && b != []
    ensures a[0] == b[0]
  {
    assert a[0] in multiset(b) && b[0] in multiset(a);
    var i :| 0 <= i < |b| && b[i] == a[0];
    var j :| 0 <= j < |a| && a[j] == b[0];
    if i > 0 && j > 0 {
      assert leq(a[0], b[0]) && leq(b[0], a[0]);
    }
  }

  /** Without ties, a sorted listing is determined by its elements. */
  lemma {:induction false} SortedUnique(a: seq<Effect>, b: seq<Effect>, leq: Order)
    requires NoTies(a, leq) && SortedBy(a, leq) && SortedBy(b, leq) && multiset(a) == multiset(b)
    ensures a == b
    decreases |a|
  {
    assert |a| == |multiset(a)| == |multiset(b)| == |b|;
    if a == [] {
    } else {
      SameHead(a, b, leq);
      MultisetTail(a);
      MultisetTail(b);
      SortedUnique(a[1..], b[1..], leq);
      assert a == [a[0]] + a[1..] && b == [b[0]] + b[1..];
    }
  }

  lemma NoTiesEither(a: seq<Effect>, b: seq<Effect>, leq: Order)
    requires multiset(a) == multiset(b) && NoTies(a, leq)
    ensures NoTies(b, leq)
  {
    SameMembers(a, b);
  }

  // ---- The page read against the single read ----

  /** Grouping the page read gives each prefetched action an answer its own query could have given. */
  lemma SliceIsRead(table: seq<Row>, idxs: seq<nat>, leq: Order, batch: seq<Row>, action: nat)
    requires BatchRead(table, idxs, leq, batch)
    ensures action in idxs ==> SingleRead(table, action, leq, Slice(batch, action))
    ensures action !in idxs ==> Slice(batch, action) == []
  {
    var mine := Slice(batch, action);
    WhereSlice(table, idxs, action);
    forall e
      ensures multiset(mine)[e] == multiset(Slice(Where(table, idxs), action))[e]
    {
      SliceCount(batch, action, e);
      SliceCount(Where(table, idxs), action, e);
    }
    assert multiset(mine) == multiset(Slice(Where(table, idxs), action));
    if action in idxs {
      forall i, j | 0 <= i < j < |mine|
        ensures leq(mine[i], mine[j])
      {
        var p, q := SliceSource(batch, action, i, j);
      }
    } else {
      assert |mine| == |multiset(mine)| == 0;
    }
  }

  /** Without ties, that answer is the one answer, in the same order. */
  lemma BatchEqualsSingle(table: seq<Row>, idxs: seq<nat>, leq: Order, batch: seq<Row>, action: nat, single: seq<Effect>)
    requires NoTies(Slice(table, action), leq)
    requires BatchRead(table, idxs, leq, batch) && SingleRead(table, action, leq, single)
    ensures action in idxs ==> Slice(batch, action) == single
  {
    SliceIsRead(table, idxs, leq, batch, action);
    if action in idxs {
      NoTiesEither(Slice(table, action), Slice(batch, action), leq);
      SortedUnique(Slice(batch, action), single, leq);
    }
  }

  function Swapped(s: seq<Effect>, i: nat, j: nat): (t: seq<Effect>)
    requires i < j < |s|
    ensures |t| == |s|
  {
    s[i := s[j]][j := s[i]]
  }

  lemma SwapOrdered(s: seq<Effect>, i: nat, j: nat, p: nat, q: nat, leq: Order)
    requires Transitive(leq) && SortedBy(s, leq) && i < j < |s| && leq(s[j], s[i]) && p < q < |s|
    ensures leq(Swapped(s, i, j)[p], Swapped(s, i, j)[q])
  {
    if p == i && q < j {
      assert leq(s[j], s[i]) && leq(s[i], s[q]);
    } else if q == j && p > i {
      assert leq(s[p], s[j]) && leq(s[j], s[i]);
    } else if p == j {
      assert leq(s[i], s[j]) && leq(s[j], s[q]);
    } else if q == i {
      assert leq(s[p], s[i]) && leq(s[i], s[j]);
    }
  }

  /** Two tied effects can trade places in any listing. */
  lemma SwapTied(s: seq<Effect>, i: nat, j: nat, leq: Order)
    requires Transitive(leq) && SortedBy(s, leq) && i < j < |s| && leq(s[j], s[i])
    ensures SortedBy(Swapped(s, i, j), leq) && multiset(Swapped(s, i, j)) == multiset(s)
  {
    forall p, q | 0 <= p < q < |s|
      ensures leq(Swapped(s, i, j)[p], Swapped(s, i, j)[q])
    {
      SwapOrdered(s, i, j, p, q, leq);
    }
  }

  lemma TiesDisagree(table: seq<Row>, leq: Order, action: nat, mine: seq<Effect>) returns (other: seq<Effect>)
    requires Transitive(leq) && SingleRead(table, action, leq, mine) && !NoTies(Slice(table, action), leq)
    ensures SingleRead(table, action, leq, other) && other != mine
  {
    var all := Slice(table, action);
    var x, y :| x in all && y in all && leq(x, y) && leq(y, x) && x != y;
    assert x in multiset(mine) && y in multiset(mine);
    var i :| 0 <= i < |mine| && mine[i] == x;
    var j :| 0 <= j < |mine| && mine[j] == y;
    if i < j {
      SwapTied(mine, i, j, leq);
      other := Swapped(mine, i, j);
    } else {
      SwapTied(mine, j, i, leq);
      other := Swapped(mine, j, i);
    }
    assert other[i] != mine[i];
  }

  /**
   The page read is bound to give a prefetched action what its own query gives exactly when the
   ORDER BY ties no two different rows of that action. The parity is no matter of structure alone.
   */
  lemma ReadsAgreeExactly(table: seq<Row>, idxs: seq<nat>, leq: Order, batch: seq<Row>, action: nat)
    requires Transitive(leq) && BatchRead(table, idxs, leq, batch) && action in idxs
    ensures (forall single | SingleRead(table, action, leq, single) :: Slice(batch, action) == single) <==>
            NoTies(Slice(table, action), leq)
  {
    SliceIsRead(table, idxs, leq, batch, action);
    if NoTies(Slice(table, action), leq) {
      forall single | SingleRead(table, action, leq, single)
        ensures Slice(batch, action) == single
      {
        BatchEqualsSingle(table, idxs, leq, batch, action, single);
      }
    } else {
      var other := TiesDisagree(table, leq, action, Slice(batch, action));
    }
  }

  // ---- The code's own ORDER BY ----

  /** The sort key a collation gives a string, and the number a cast makes of a text that is no plain decimal. */
  datatype Database = Database(fold: string -> string, castOther: string -> int)

  const MAX_INTEGER_DIGITS: nat := 46

  /** Digits with up to eighteen more after a point, within what DECIMAL(64,18) holds. */
  predicate IsPlain(s: string) {
    Amounts.WellFormed(s) && |Strings.IntPart(s)| <= MAX_INTEGER_DIGITS
  }

  /** CAST(amount AS DECIMAL(64,18)), in units of 10^-18. */
  function Cast(db: Database, text: string): int {
    if IsPlain(text) then Amounts.InUnits(Strings.IntPart(text), Strings.FracPart(text))
    else if text != "" && text[0] == '-' && IsPlain(text[1..]) then
      0 - Amounts.InUnits(Strings.IntPart(text[1..]), Strings.FracPart(text[1..]))
    else db.castOther(text)
  }

  /** Nulls first, then by sort key. */
  predicate TextLe(db: Database, a: Option<string>, b: Option<string>) {
    a.None? || (b.Some? && !Less(db.fold(b.value), db.fold(a.value)))
  }

  /** Nulls first, then by value. */
  predicate AmountLe(db: Database, a: Option<string>, b: Option<string>) {
    a.None? || (b.Some? && Cast(db, a.value) <= Cast(db, b.value))
  }

  /** By tick, then by amount from the largest, then by address. */
  predicate LedgerLe(db: Database, x: Effect, y: Effect) {
    && TextLe(db, x.tick, y.tick)
    && (TextLe(db, y.tick, x.tick) ==>
          && AmountLe(db, y.amount, x.amount)
          && (AmountLe(db, x.amount, y.amount) ==> TextLe(db, x.address, y.address)))
  }

  function LedgerOrder(db: Database): Order {
    (x, y) => LedgerLe(db, x, y)
  }

  predicate SameText(db: Database, a: Option<string>, b: Option<string>) {
    if a.None? || b.None? then a == b else db.fold(a.value) == db.fold(b.value)
  }

  predicate SameAmount(db: Database, a: Option<string>, b: Option<string>) {
    if a.None? || b.None? then a == b else Cast(db, a.value) == Cast(db, b.value)
  }

  /** Equal tick, equal decimal value and equal address: what a caller can look at. */
  predicate Tied(db: Database, x: Effect, y: Effect) {
    SameText(db, x.tick, y.tick) && SameAmount(db, x.amount, y.amount) && SameText(db, x.address, y.address)
  }

  lemma TextLeTransitive(db: Database, a: Option<string>, b: Option<string>, c: Option<string>)
    requires TextLe(db, a, b) && TextLe(db, b, c)
    ensures TextLe(db, a, c)
  {
    if a.Some? {
      var fa, fb, fc := db.fold(a.value), db.fold(b.value), db.fold(c.value);
      LessTotal(fa, fb);
      if Less(fc, fa) && fa != fb {
        LessTransitive(fc, fa, fb);
      }
    }
  }

  lemma TextLeTotal(db: Database, a: Option<string>, b: Option<string>)
    ensures TextLe(db, a, b) || TextLe(db, b, a)
    ensures TextLe(db, a, b) && TextLe(db, b, a) <==> SameText(db, a, b)
  {
    if a.Some? && b.Some? {
      LessTotal(db.fold(a.value), db.fold(b.value));
    }
  }

  lemma LedgerLeTransitive(db: Database, x: Effect, y: Effect, z: Effect)
    requires LedgerLe(db, x, y) && LedgerLe(db, y, z)
    ensures LedgerLe(db, x, z)
  {
    TextLeTransitive(db, x.tick, y.tick, z.tick);
    if TextLe(db, z.tick, x.tick) {
      TextLeTransitive(db, z.tick, x.tick, y.tick);
      TextLeTransitive(db, y.tick, z.tick, x.tick);
      if AmountLe(db, x.amount, z.amount) {
        TextLeTransitive(db, x.address, y.address, z.address);
      }
    }
  }

  /** The ORDER BY ranks two effects alike exactly when they are tied, nulls included. */
  lemma TiedExactly(db: Database, x: Effect, y: Effect)
    ensures LedgerLe(db, x, y) && LedgerLe(db, y, x) <==> Tied(db, x, y)
  {
    TextLeTotal(db, x.tick, y.tick);
    TextLeTotal(db, x.address, y.address);
  }

  ghost predicate TextBefore(db: Database, a: Option<string>, b: Option<string>) {
    b.Some? && (a.None? || ComesFirst(db.fold(a.value), db.fold(b.value)))
  }

  ghost predicate AmountAbove(db: Database, a: Option<string>, b: Option<string>) {
    a.Some? && (b.None? || Cast(db, a.value) > Cast(db, b.value))
  }

  lemma TextOrder(db: Database, a: Option<string>, b: Option<string>)
    ensures TextLe(db, a, b) <==> !TextBefore(db, b, a)
    ensures !TextBefore(db, b, a) ==> (TextLe(db, b, a) <==> SameText(db, a, b))
  {
    TextLeTotal(db, a, b);
    if a.Some? && b.Some? {
      LessExactly(db.fold(b.value), db.fold(a.value));
    }
  }

  /** Strictly before: the lower tick; of one tick the larger amount; of both the lower address. Nulls are lowest. */
  ghost predicate ListedBefore(db: Database, x: Effect, y: Effect) {
    || TextBefore(db, x.tick, y.tick)
    || (SameText(db, x.tick, y.tick) && AmountAbove(db, x.amount, y.amount))
    || (SameText(db, x.tick, y.tick) && SameAmount(db, x.amount, y.amount) && TextBefore(db, x.address, y.address))
  }

  /** The ORDER BY allows one effect ahead of another exactly when the other is not strictly before it. */
  lemma LedgerLeExactly(db: Database, x: Effect, y: Effect)
    ensures LedgerLe(db, x, y) <==> !ListedBefore(db, y, x)
  {
    TextOrder(db, x.tick, y.tick);
    TextOrder(db, x.address, y.address);
  }

  lemma MinusIsNotPlain(text: string)
    ensures !IsPlain("-" + text)
  {
    var s := "-" + text;
    if Strings.IntPart(s) != "" {
      assert Strings.IntPart(s)[0] == '-' && Strings.IntPart(s)[0] in Strings.IntPart(s);
    }
  }

  /** Up to 46 digits, and after a point up to eighteen more. */
  ghost predicate SpellsDecimal(text: string, i: string, f: string) {
    && i != "" && Strings.AllDigits(i) && |i| <= 46 && Strings.AllDigits(f) && |f| <= 18
    && text == if f == "" then i else i + "." + f
  }

  lemma SpelledIsPlain(text: string, i: string, f: string)
    requires SpellsDecimal(text, i, f)
    ensures IsPlain(text) && Strings.IntPart(text) == i && Strings.FracPart(text) == f
  {
    if f == "" {
      forall c | c in i
        ensures c != '.'
      {
        Amounts.DigitIsNoBlank(c);
      }
      Amounts.NoPoint(i);
    } else {
      Strings.PointAfterDigits(i, f);
    }
  }

  lemma PlainIsSpelled(text: string)
    requires IsPlain(text)
    ensures SpellsDecimal(text, Strings.IntPart(text), Strings.FracPart(text))
  {
  }

  /** The cast of such a text is the number it spells, and of a minus before it the negative of that. */
  lemma CastMeaning(db: Database, text: string, i: string, f: string)
    requires SpellsDecimal(text, i, f)
    ensures Cast(db, text) == Amounts.InUnits(i, f)
    ensures Cast(db, "-" + text) == 0 - Amounts.InUnits(i, f)
  {
    SpelledIsPlain(text, i, f);
    assert ("-" + text)[1..] == text && ("-" + text)[0] == '-';
    MinusIsNotPlain(text);
  }

  /** Of any other text nothing is assumed. */
  lemma CastOtherwise(db: Database, text: string)
    requires forall body, i, f | text == body || text == "-" + body :: !SpellsDecimal(body, i, f)
    ensures Cast(db, text) == db.castOther(text)
  {
    assert text != "" && text[0] == '-' ==> text == "-" + text[1..];
    if IsPlain(text) {
      PlainIsSpelled(text);
    }
    if text != "" && text[0] == '-' && IsPlain(text[1..]) {
      PlainIsSpelled(text[1..]);
    }
  }

  /**
   Under the code's ORDER BY the page read is bound to agree with the single read exactly when no
   two different effects of the action have equal tick, equal decimal amount and equal address.
   */
  lemma LedgerReadsAgreeExactly(db: Database, table: seq<Row>, idxs: seq<nat>, batch: seq<Row>, action: nat)
    requires BatchRead(table, idxs, LedgerOrder(db), batch) && action in idxs
    ensures (forall single | SingleRead(table, action, LedgerOrder(db), single) :: Slice(batch, action) == single) <==>
            forall x, y | x in Slice(table, action) && y in Slice(table, action) && Tied(db, x, y) :: x == y
  {
    var leq := LedgerOrder(db);
    forall x, y, z | leq(x, y) && leq(y, z)
      ensures leq(x, z)
    {
      LedgerLeTransitive(db, x, y, z);
    }
    forall x, y
      ensures leq(x, y) && leq(y, x) <==> Tied(db, x, y)
    {
      TiedExactly(db, x, y);
    }
    ReadsAgreeExactly(table, idxs, leq, batch, action);
  }

  /** The two rows of one action, read either way. */
  lemma TwoRows(x: Effect, y: Effect)
    ensures Slice([Row(1, x), Row(1, y)], 1) == [x, y]
    ensures Where([Row(1, x), Row(1, y)], [1]) == [Row(1, x), Row(1, y)]
  {
    var one, two := [Row(1, x)], [Row(1, x), Row(1, y)];
    assert two[..1] == one && one[..0] == [];
    assert Slice(one, 1) == [] + [x] == [x];
    assert Where(one, [1]) == [] + one == one;
  }

  /** Where the order ties two different rows, two correct reads may list them differently. */
  lemma TiesMayDisagree(x: Effect, y: Effect, leq: Order)
    requires x != y && leq(x, y) && leq(y, x)
    ensures SingleRead([Row(1, x), Row(1, y)], 1, leq, [y, x])
    ensures BatchRead([Row(1, x), Row(1, y)], [1], leq, [Row(1, x), Row(1, y)])
    ensures Slice([Row(1, x), Row(1, y)], 1) == [x, y]
  {
    TwoRows(x, y);
    assert multiset([y, x]) == multiset([x, y]);
  }

  lemma CastParts(db: Database, i: string, f: string)
    requires i != "" && Strings.AllDigits(i) && |i| <= MAX_INTEGER_DIGITS
    requires f != "" && Strings.AllDigits(f) && |f| <= Amounts.PLACES
    ensures Cast(db, i + "." + f) == Amounts.InUnits(i, f)
  {
    Strings.PointAfterDigits(i, f);
  }

  /** A fraction of zeros adds nothing, however long. */
  lemma ZeroFraction(i: string, n: nat)
    requires Strings.AllDigits(i) && n <= Amounts.PLACES
    ensures Amounts.InUnits(i, Strings.Zeros(n)) == Strings.Shift(Strings.Numeral(i), Amounts.PLACES)
  {
    Strings.NumeralZeros(n);
    Strings.ShiftIsTimes(0, Amounts.PLACES - n);
  }

  lemma CastOfOne(db: Database)
    ensures Cast(db, "1.0") == Cast(db, "1.00")
  {
    assert "1.0" == "1" + "." + "0" && "1.00" == "1" + "." + "00";
    CastParts(db, "1", "0");
    CastParts(db, "1", "00");
    assert "0" == Strings.Zeros(1) && "00" == Strings.Zeros(2);
    ZeroFraction("1", 1);
    ZeroFraction("1", 2);
  }

  /** One amount written twice ties, whatever the collation. */
  lemma OneAmountTies(db: Database, address: Option<string>, tick: Option<string>)
    ensures Tied(db, Effect(address, tick, Some("1.0")), Effect(address, tick, Some("1.00")))
    ensures Effect(address, tick, Some("1.0")) != Effect(address, tick, Some("1.00"))
  {
    CastOfOne(db);
    assert |"1.0"| != |"1.00"|;
  }

  /** Two different tied rows of an action: the page read may list them one way and the single read the other. */
  lemma TiedRowsMayDisagree(db: Database, x: Effect, y: Effect)
    requires Tied(db, x, y) && x != y
    ensures BatchRead([Row(1, x), Row(1, y)], [1], LedgerOrder(db), [Row(1, x), Row(1, y)])
    ensures Slice([Row(1, x), Row(1, y)], 1) == [x, y]
    ensures SingleRead([Row(1, x), Row(1, y)], 1, LedgerOrder(db), [y, x])
  {
    TiedExactly(db, x, y);
    TiesMayDisagree(x, y, LedgerOrder(db));
  }

  // ---- The loops ----

  /** Pushes every row's effect on its action's list. */
  method GroupRows(results: seq<Row>) returns (grouped: map<nat, seq<Effect>>)
    ensures forall k: nat :: k in grouped <==> Slice(results, k) != []
    ensures forall k | k in grouped :: grouped[k] == Slice(results, k)
  {
    grouped := map[];
    for i := 0 to |results|
      invariant forall k: nat :: k in grouped <==> Slice(results[..i], k) != []
      invariant forall k | k in grouped :: grouped[k] == Slice(results[..i], k)
    {
      var row := results[i];
      assert results[..i + 1][..i] == results[..i];
      if row.action !in grouped {
        grouped := grouped[row.action := []];
      }
      grouped := grouped[row.action := grouped[row.action] + [row.effect]];
    }
    assert results[..|results|] == results;
  }

  const EFFECT_TABLES: seq<string> := ["credits", "debits", "escrows"]

  /** The listing an action's table gets: nothing is stored for an empty one. */
  function Put(data: map<string, seq<Effect>>, key: string, rows: seq<Effect>): map<string, seq<Effect>> {
    if rows == [] then data else data[key := rows]
  }

  predicate Wants(flags: map<string, bool>, key: string) {
    !(key in flags && !flags[key])
  }

  /** The data with the first n tables' listings attached. */
  function Attached(data: map<string, seq<Effect>>, flags: map<string, bool>, listing: string -> seq<Effect>, n: nat):
    map<string, seq<Effect>>
    requires n <= |EFFECT_TABLES|
  {
    if n == 0 then data
    else
      var before := Attached(data, flags, listing, n - 1);
      var key := EFFECT_TABLES[n - 1];
      if Wants(flags, key) then Put(before, key, listing(key)) else before
  }

  /** The listing a preload holds for an action: a missing entry means no rows. */
  function Preloaded(preload: map<string, map<nat, seq<Effect>>>, action: nat, key: string): seq<Effect> {
    if key in preload && action in preload[key] then preload[key][action] else []
  }

  /** With a preload that covers a table, its listing; otherwise the table's own query. */
  method AttachLedgerEffects(action: nat, data: map<string, seq<Effect>>, flags: map<string, bool>,
                             preload: Option<map<string, map<nat, seq<Effect>>>>, query: string -> seq<Effect>)
    returns (out: map<string, seq<Effect>>)
    ensures out == Attached(data, flags,
                            key => if preload.Some? && key in preload.value then Preloaded(preload.value, action, key)
                                   else query(key),
                            |EFFECT_TABLES|)
  {
    var listing := key => if preload.Some? && key in preload.value then Preloaded(preload.value, action, key) else query(key);
    out := data;
    for n := 0 to |EFFECT_TABLES|
      invariant out == Attached(data, flags, listing, n)
    {
      var key := EFFECT_TABLES[n];
      if Wants(flags, key) {
        if preload.Some? && key in preload.value {
          if action in preload.value[key] && preload.value[key][action] != [] {
            out := out[key := preload.value[key][action]];
          }
        } else {
          var results := query(key);
          if results != [] {
            out := out[key := results];
          }
        }
      }
    }
  }

  /** The rows fetched for a table: none, and no read at all, where no action wants it. */
  function Fetched(indexes: map<string, seq<nat>>, batch: string -> seq<Row>, key: string): seq<Row> {
    if key in indexes && indexes[key] != [] then batch(key) else []
  }

  ghost predicate Groups(grouped: map<nat, seq<Effect>>, rows: seq<Row>) {
    forall action: nat :: (if action in grouped then grouped[action] else []) == Slice(rows, action)
  }

  /** One read a table over the page's indexes, grouped by action. */
  method PrefetchLedgerEffects(indexes: map<string, seq<nat>>, batch: string -> seq<Row>)
    returns (out: map<string, map<nat, seq<Effect>>>)
    ensures forall key | key in EFFECT_TABLES :: key in out && Groups(out[key], Fetched(indexes, batch, key))
  {
    out := map[];
    for n := 0 to |EFFECT_TABLES|
      invariant forall key | key in EFFECT_TABLES[..n] :: key in out && Groups(out[key], Fetched(indexes, batch, key))
    {
      var key := EFFECT_TABLES[n];
      var grouped: map<nat, seq<Effect>> := map[];
      if key in indexes && indexes[key] != [] {
        grouped := GroupRows(batch(key));
      }
      assert Groups(grouped, Fetched(indexes, batch, key));
      out := out[key := grouped];
      assert EFFECT_TABLES[..n + 1] == EFFECT_TABLES[..n] + [key];
    }
  }

  /** What attaching leaves under every key: a wanted table's rows where it has any, else what was there. */
  lemma {:induction false} AttachedMeaning(data: map<string, seq<Effect>>, flags: map<string, bool>,
                                           listing: string -> seq<Effect>, n: nat, key: string)
    requires n <= |EFFECT_TABLES|
    ensures
      var out := Attached(data, flags, listing, n);
      var found := key in EFFECT_TABLES[..n] && (key in flags ==> flags[key]) && listing(key) != [];
      && (key in out <==> found || key in data)
      && (key in out ==> out[key] == if found then listing(key) else data[key])
  {
    if n == 0 {
    } else {
      AttachedMeaning(data, flags, listing, n - 1, key);
      assert EFFECT_TABLES[..n] == EFFECT_TABLES[..n - 1] + [EFFECT_TABLES[n - 1]];
    }
  }

  /** Under every key: the rows of a credits, debits or escrows listing that is wanted and not empty, else what was there. */
  lemma AttachedInFull(data: map<string, seq<Effect>>, flags: map<string, bool>, listing: string -> seq<Effect>, key: string)
    ensures
      var out := Attached(data, flags, listing, |EFFECT_TABLES|);
      var found := key in {"credits", "debits", "escrows"} && !(key in flags && flags[key] == false) && listing(key) != [];
      && (key in out <==> found || key in data)
      && (key in out ==> out[key] == if found then listing(key) else data[key])
  {
    AttachedMeaning(data, flags, listing, |EFFECT_TABLES|, key);
    assert EFFECT_TABLES[..|EFFECT_TABLES|] == ["credits", "debits", "escrows"];
  }

  // ---- With or without the preload ----

  lemma {:induction false} AttachedAgrees(data: map<string, seq<Effect>>, flags: map<string, bool>, a: string -> seq<Effect>,
                                          b: string -> seq<Effect>, n: nat)
    requires n <= |EFFECT_TABLES|
    requires forall key | key in EFFECT_TABLES && Wants(flags, key) :: a(key) == b(key)
    ensures Attached(data, flags, a, n) == Attached(data, flags, b, n)
  {
    if n == 0 {
    } else {
      AttachedAgrees(data, flags, a, b, n - 1);
    }
  }

  /** The page prefetch covers an action for a table it wants, or the table has no row of it. */
  ghost predicate Covered(tables: string -> seq<Row>, indexes: map<string, seq<nat>>, action: nat, key: string) {
    (key in indexes && action in indexes[key]) || Slice(tables(key), action) == []
  }

  /**
   For one table, the preloaded listing is the queried one exactly when the prefetch covered the
   action (or there is nothing to find).
   */
  lemma PreloadExactly(tables: string -> seq<Row>, leq: Order, indexes: map<string, seq<nat>>, batch: seq<Row>,
                       action: nat, key: string, single: seq<Effect>)
    requires NoTies(Slice(tables(key), action), leq) && SingleRead(tables(key), action, leq, single)
    requires key in indexes && indexes[key] != [] ==> BatchRead(tables(key), indexes[key], leq, batch)
    ensures Slice(if key in indexes && indexes[key] != [] then batch else [], action) == single <==>
            Covered(tables, indexes, action, key)
  {
    assert |single| == |multiset(single)| == |multiset(Slice(tables(key), action))| == |Slice(tables(key), action)|;
    if key in indexes && indexes[key] != [] {
      SliceIsRead(tables(key), indexes[key], leq, batch, action);
      BatchEqualsSingle(tables(key), indexes[key], leq, batch, action, single);
    }
  }

  /** So the data come out the same with and without the preload, for every action the page covered. */
  lemma PreloadChangesNothing(tables: string -> seq<Row>, leq: Order, indexes: map<string, seq<nat>>,
                              batch: string -> seq<Row>, query: string -> seq<Effect>,
                              preload: map<string, map<nat, seq<Effect>>>, action: nat,
                              data: map<string, seq<Effect>>, flags: map<string, bool>)
    requires forall key | key in EFFECT_TABLES :: NoTies(Slice(tables(key), action), leq)
    requires forall key | key in EFFECT_TABLES :: SingleRead(tables(key), action, leq, query(key))
    requires forall key | key in EFFECT_TABLES && key in indexes && indexes[key] != [] ::
               BatchRead(tables(key), indexes[key], leq, batch(key))
    requires forall key | key in EFFECT_TABLES :: key in preload && Groups(preload[key], Fetched(indexes, batch, key))
    requires forall key | key in EFFECT_TABLES && (key in flags ==> flags[key]) :: Covered(tables, indexes, action, key)
    ensures Attached(data, flags, key => if key in preload then Preloaded(preload, action, key) else query(key), 3) ==
            Attached(data, flags, query, 3)
  {
    var listing := key => if key in preload then Preloaded(preload, action, key) else query(key);
    forall key | key in EFFECT_TABLES && Wants(flags, key)
      ensures listing(key) == query(key)
    {
      PreloadExactly(tables, leq, indexes, batch(key), action, key, query(key));
    }
    AttachedAgrees(data, flags, listing, query, 3);
  }
}
