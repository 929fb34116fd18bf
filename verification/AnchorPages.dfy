/**
 Walking a transaction's anchor rows page by page with an exclusive action cursor.

 The rows of one transaction are a sequence ordered by action; a read past a cursor is the rows
 with a later action, cut to one more than the page limit. `Walk` is what a client collects by
 following the cursor, and `Trim` says, row by row, what that amounts to.
 */
module AnchorPages {
  import opened Wrappers

  const LIMIT: nat := 20

  /** An anchor row: the action it belongs to and the section that orders it within the action. */
  datatype Row = Row(action: nat, section: nat, status: string)

  ghost predicate Ordered(rows: seq<Row>) {
    forall i, j | 0 <= i < j < |rows| :: rows[i].action <= rows[j].action
  }

  // ---- One page ----

  function Past(after: Option<nat>, row: Row): bool {
    after.None? || row.action > after.value
  }

  /** The rows past a cursor, in order. */
  function After(rows: seq<Row>, after: Option<nat>): seq<Row> {
    if rows == [] then []
    else (if Past(after, rows[0]) then [rows[0]] else []) + After(rows[1..], after)
  }

  /** What the query returns: a page and one probe row. */
  function Fetch(rows: seq<Row>, after: Option<nat>): seq<Row> {
    var rest := After(rows, after);
    if |rest| > LIMIT then rest[..LIMIT + 1] else rest
  }

  /** Steps back over the rows of the probe's action. */
  function CutFrom(all: seq<Row>, cut: nat): (c: nat)
    requires |all| > LIMIT && cut <= LIMIT
    ensures c <= cut
    ensures forall i | c <= i < cut :: all[i].action == all[LIMIT].action
    ensures c > 0 ==> all[c - 1].action != all[LIMIT].action
  {
    if cut > 0 && all[cut - 1].action == all[LIMIT].action then CutFrom(all, cut - 1) else cut
  }

  /** The rows a response keeps; a page made of one action only is kept whole. */
  function Kept(all: seq<Row>): (k: seq<Row>)
    ensures k <= all && |k| <= LIMIT
    ensures all != [] ==> k != []
  {
    if |all| <= LIMIT then all
    else
      var cut := CutFrom(all, LIMIT);
      if cut == 0 then all[..LIMIT] else all[..cut]
  }

  function NextAfter(all: seq<Row>): Option<nat> {
    if |all| <= LIMIT then None else Some(Kept(all)[|Kept(all)| - 1].action)
  }

  method CutOnActionBoundary(all: seq<Row>, kept: seq<Row>) returns (r: seq<Row>)
    requires |all| > LIMIT && kept == all[..LIMIT]
    ensures r == Kept(all)
  {
    var probeAction := all[LIMIT].action;
    var cut := |kept|;
    while cut > 0 && kept[cut - 1].action == probeAction
      invariant 0 <= cut <= LIMIT
      invariant CutFrom(all, cut) == CutFrom(all, LIMIT)
    {
      cut := cut - 1;
    }
    if cut == 0 {
      return kept;
    }
    return kept[..cut];
  }

  datatype Response = Response(anchors: seq<Row>, truncated: bool, nextAfter: Option<nat>)

  method BuildResponse(rows: seq<Row>) returns (r: Response)
    requires |rows| <= LIMIT + 1
    ensures r.anchors == Kept(rows) && r.nextAfter == NextAfter(rows)
    ensures r.truncated <==> |rows| == LIMIT + 1
  {
    var truncated := |rows| > LIMIT;
    var kept := if truncated then rows[..LIMIT] else rows;
    if truncated {
      kept := CutOnActionBoundary(rows, kept);
    }
    var nextAfter := if truncated && |kept| > 0 then Some(kept[|kept| - 1].action) else None;
    return Response(kept, truncated, nextAfter);
  }

  // ---- The walk ----

  lemma {:induction false} AfterAll(rows: seq<Row>, after: Option<nat>)
    requires forall r | r in rows :: Past(after, r)
    ensures After(rows, after) == rows
  {
    if rows == [] {
    } else {
      AfterAll(rows[1..], after);
      assert rows == [rows[0]] + rows[1..];
    }
  }

  /** In ordered rows, those past a cursor are a suffix. */
  lemma {:induction false} AfterSuffix(rows: seq<Row>, after: Option<nat>) returns (k: nat)
    requires Ordered(rows)
    ensures k <= |rows| && After(rows, after) == rows[k..]
    ensures forall i | 0 <= i < k :: !Past(after, rows[i])
    ensures forall i | k <= i < |rows| :: Past(after, rows[i])
  {
    if rows == [] {
      k := 0;
    } else if Past(after, rows[0]) {
      k := 0;
      AfterAll(rows, after);
    } else {
      var m := AfterSuffix(rows[1..], after);
      k := m + 1;
      assert rows[1..][m..] == rows[k..];
      assert [] + After(rows[1..], after) == After(rows[1..], after);
      forall i | 0 <= i < |rows|
        ensures Past(after, rows[i]) <==> i >= k
      {
        assert i > 0 ==> rows[i] == rows[1..][i - 1];
      }
    }
  }

  /** A later cursor can be applied to what an earlier one left. */
  lemma {:induction false} AfterTwice(rows: seq<Row>, after: Option<nat>, c: nat)
    requires after.Some? ==> after.value <= c
    ensures After(After(rows, after), Some(c)) == After(rows, Some(c))
  {
    if rows == [] {
    } else {
      AfterTwice(rows[1..], after, c);
      var tail := After(rows[1..], after);
      assert ([rows[0]] + tail)[1..] == tail && [] + tail == tail;
      assert [] + After(rows[1..], Some(c)) == After(rows[1..], Some(c));
    }
  }

  lemma {:induction false} AfterMembers(rows: seq<Row>, after: Option<nat>)
    ensures |After(rows, after)| <= |rows|
    ensures forall r | r in After(rows, after) :: r in rows && Past(after, r)
    ensures (exists r :: r in rows && !Past(after, r)) ==> |After(rows, after)| < |rows|
  {
    if rows == [] {
    } else {
      AfterMembers(rows[1..], after);
      if r :| r in rows && !Past(after, r) {
        assert r == rows[0] || r in rows[1..];
      }
    }
  }

  /** The cursor moves on, and fewer rows are left past it. */
  lemma CursorAdvances(rows: seq<Row>, after: Option<nat>)
    requires NextAfter(Fetch(rows, after)).Some?
    ensures after.Some? ==> NextAfter(Fetch(rows, after)).value > after.value
    ensures |After(rows, NextAfter(Fetch(rows, after)))| < |After(rows, after)|
  {
    var rest := After(rows, after);
    var kept := Kept(Fetch(rows, after));
    var last := kept[|kept| - 1];
    assert kept <= Fetch(rows, after) <= rest;
    assert last == rest[|kept| - 1];
    assert last in rest;
    AfterMembers(rows, after);
    AfterTwice(rows, after, last.action);
    AfterMembers(rest, Some(last.action));
    assert !Past(Some(last.action), last);
  }

  /** The pages a client collects from a cursor on, following each response's next cursor. */
  ghost function Walk(rows: seq<Row>, after: Option<nat>): seq<seq<Row>>
    decreases |After(rows, after)|
  {
    var page := Fetch(rows, after);
    match NextAfter(page)
    case None => [Kept(page)]
    case Some(c) =>
      CursorAdvances(rows, after);
      [Kept(page)] + Walk(rows, Some(c))
  }

  ghost function Flatten(pages: seq<seq<Row>>): seq<Row> {
    if pages == [] then [] else pages[0] + Flatten(pages[1..])
  }

  // ---- What the walk delivers ----

  function Count(rows: seq<Row>, action: nat): nat {
    if rows == [] then 0
    else Count(rows[..|rows| - 1], action) + if rows[|rows| - 1].action == action then 1 else 0
  }

  /** How many rows of the same action come before row i. */
  function Rank(rows: seq<Row>, i: nat): nat
    requires i < |rows|
  {
    Count(rows[..i], rows[i].action)
  }

  /** The rows that are among the first twenty of their action, in order. */
  ghost function Trim(rows: seq<Row>): seq<Row> {
    if rows == [] then []
    else
      var n := |rows| - 1;
      Trim(rows[..n]) + if Rank(rows, n) < 20 then [rows[n]] else []
  }

  lemma {:induction false} CountBounds(rows: seq<Row>, action: nat)
    ensures Count(rows, action) <= |rows|
    ensures (forall r | r in rows :: r.action == action) ==> Count(rows, action) == |rows|
    ensures (forall r | r in rows :: r.action != action) ==> Count(rows, action) == 0
  {
    if rows == [] {
    } else {
      CountBounds(rows[..|rows| - 1], action);
    }
  }

  lemma {:induction false} CountConcat(a: seq<Row>, b: seq<Row>, action: nat)
    ensures Count(a + b, action) == Count(a, action) + Count(b, action)
    decreases |b|
  {
    if b == [] {
      assert a + b == a;
    } else {
      CountConcat(a, b[..|b| - 1], action);
      assert (a + b)[..|a + b| - 1] == a + b[..|b| - 1];
    }
  }

  /** What a row adds to the trimmed rows before it. */
  ghost function Place(rows: seq<Row>, r: Row): seq<Row> {
    if Count(rows, r.action) < LIMIT then [r] else []
  }

  lemma TrimSnoc(rows: seq<Row>, r: Row)
    ensures Trim(rows + [r]) == Trim(rows) + Place(rows, r)
  {
    assert (rows + [r])[..|rows|] == rows;
  }

  lemma Assoc(a: seq<Row>, b: seq<Row>, c: seq<Row>)
    ensures a + b + c == a + (b + c)
  {
  }

  /** Rows of actions an earlier part does not have are trimmed on their own. */
  lemma {:induction false} TrimSplit(a: seq<Row>, b: seq<Row>)
    requires forall y | y in b :: Count(a, y.action) == 0
    ensures Trim(a + b) == Trim(a) + Trim(b)
    decreases |b|
  {
    if b == [] {
      assert a + b == a;
    } else {
      var init, last := b[..|b| - 1], b[|b| - 1];
      assert b == init + [last] && last in b;
      TrimSplit(a, init);
      TrimSplitSnoc(a, init, last);
    }
  }

  lemma TrimSplitSnoc(a: seq<Row>, init: seq<Row>, last: Row)
    requires Count(a, last.action) == 0
    requires Trim(a + init) == Trim(a) + Trim(init)
    ensures Trim(a + (init + [last])) == Trim(a) + Trim(init + [last])
  {
    Assoc(a, init, [last]);
    TrimSnoc(a + init, last);
    TrimSnoc(init, last);
    CountConcat(a, init, last.action);
    assert Place(a + init, last) == Place(init, last);
    Assoc(Trim(a), Trim(init), Place(init, last));
  }

  lemma {:induction false} TrimShort(rows: seq<Row>)
    requires |rows| <= LIMIT
    ensures Trim(rows) == rows
  {
    if rows == [] {
    } else {
      var init, last := rows[..|rows| - 1], rows[|rows| - 1];
      TrimShort(init);
      assert rows == init + [last];
      TrimSnoc(init, last);
      CountBounds(init, last.action);
    }
  }

  lemma {:induction false} TrimOneAction(rows: seq<Row>, action: nat)
    requires forall r | r in rows :: r.action == action
    ensures Trim(rows) == if |rows| <= LIMIT then rows else rows[..LIMIT]
  {
    if rows == [] {
    } else {
      var init, last := rows[..|rows| - 1], rows[|rows| - 1];
      assert rows == init + [last] && last in rows;
      TrimOneAction(init, action);
      TrimSnoc(init, last);
      CountBounds(init, action);
      assert Place(init, last) == if |init| < LIMIT then [last] else [];
    }
  }

  /** Past a cursor between two rows lies exactly the later part. */
  lemma AfterCut(rest: seq<Row>, c: nat, k: nat)
    requires Ordered(rest) && k <= |rest|
    requires k > 0 ==> rest[k - 1].action <= c
    requires k < |rest| ==> rest[k].action > c
    ensures After(rest, Some(c)) == rest[k..]
  {
    assert k > 0 ==> !Past(Some(c), rest[k - 1]);
    assert k < |rest| ==> Past(Some(c), rest[k]);
    var m := AfterSuffix(rest, Some(c));
    assert m == k;
  }

  lemma EarlierActions(rest: seq<Row>, cut: nat, action: nat)
    requires Ordered(rest) && 0 < cut <= |rest| && rest[cut - 1].action < action
    ensures Count(rest[..cut], action) == 0
  {
    forall x | x in rest[..cut]
      ensures x.action != action
    {
      var i :| 0 <= i < cut && rest[i] == x;
      assert rest[i].action <= rest[cut - 1].action;
    }
    CountBounds(rest[..cut], action);
  }

  /** A page cut before the probe's action holds whole actions only. */
  lemma CutPageDelivers(rest: seq<Row>, cut: nat)
    requires Ordered(rest) && |rest| > LIMIT && 0 < cut <= LIMIT
    requires rest[cut - 1].action < rest[cut].action
    ensures Trim(rest) == rest[..cut] + Trim(After(rest, Some(rest[cut - 1].action)))
  {
    AfterCut(rest, rest[cut - 1].action, cut);
    assert rest == rest[..cut] + rest[cut..];
    forall y | y in rest[cut..]
      ensures Count(rest[..cut], y.action) == 0
    {
      var j :| cut <= j < |rest| && rest[j] == y;
      assert rest[cut].action <= rest[j].action;
      EarlierActions(rest, cut, y.action);
    }
    TrimSplit(rest[..cut], rest[cut..]);
    TrimShort(rest[..cut]);
  }

  /** The first action's rows, and where they end. */
  lemma FirstAction(rest: seq<Row>) returns (k: nat)
    requires Ordered(rest) && rest != []
    ensures 0 < k <= |rest| && After(rest, Some(rest[0].action)) == rest[k..]
    ensures forall i | 0 <= i < k :: rest[i].action == rest[0].action
    ensures forall i | k <= i < |rest| :: rest[i].action > rest[0].action
  {
    k := AfterSuffix(rest, Some(rest[0].action));
    assert !Past(Some(rest[0].action), rest[0]);
    forall i | 0 <= i < k
      ensures rest[i].action == rest[0].action
    {
      assert !Past(Some(rest[0].action), rest[i]);
    }
    forall i | k <= i < |rest|
      ensures rest[i].action > rest[0].action
    {
      assert Past(Some(rest[0].action), rest[i]);
    }
  }

  lemma OverlargeFirst(group: seq<Row>, later: seq<Row>, action: nat)
    requires |group| > LIMIT
    requires (forall r | r in group :: r.action == action) && forall r | r in later :: r.action > action
    ensures Trim(group + later) == group[..LIMIT] + Trim(later)
  {
    forall y | y in later
      ensures Count(group, y.action) == 0
    {
      CountBounds(group, y.action);
    }
    TrimSplit(group, later);
    TrimOneAction(group, action);
  }

  lemma SplitAt(rest: seq<Row>, k: nat)
    requires LIMIT <= k <= |rest|
    ensures rest[..k] + rest[k..] == rest && rest[..k][..LIMIT] == rest[..LIMIT]
  {
  }

  /** A page of one action only stands for all of that action's rows. */
  lemma UncutPageDelivers(rest: seq<Row>)
    requires Ordered(rest) && |rest| > LIMIT && rest[0].action == rest[LIMIT].action
    ensures Trim(rest) == rest[..LIMIT] + Trim(After(rest, Some(rest[0].action)))
  {
    var k := FirstAction(rest);
    assert LIMIT < k;
    SplitAt(rest, k);
    OverlargeFirst(rest[..k], rest[k..], rest[0].action);
  }

  /** One page of an ordered rest delivers its share of the trimmed rows. */
  lemma PageDelivers(rest: seq<Row>)
    requires Ordered(rest) && |rest| > LIMIT
    ensures
      var kept := Kept(rest[..LIMIT + 1]);
      Trim(rest) == kept + Trim(After(rest, Some(kept[|kept| - 1].action)))
  {
    var all := rest[..LIMIT + 1];
    var cut := CutFrom(all, LIMIT);
    if cut > 0 {
      assert all[cut - 1] == rest[cut - 1] && all[cut] == rest[cut] && all[LIMIT] == rest[LIMIT];
      assert cut < LIMIT ==> all[cut].action == all[LIMIT].action;
      CutPageDelivers(rest, cut);
      assert all[..cut] == rest[..cut];
    } else {
      assert all[0].action == all[LIMIT].action;
      UncutPageDelivers(rest);
      assert all[..LIMIT] == rest[..LIMIT];
      assert rest[LIMIT - 1].action == rest[0].action;
    }
  }

  /**
   The walk from any cursor delivers, once each and in order, exactly the rows past it that are
   among the first LIMIT of their action.
   */
  lemma {:induction false} WalkDelivers(rows: seq<Row>, after: Option<nat>)
    requires Ordered(rows)
    ensures Flatten(Walk(rows, after)) == Trim(After(rows, after))
    decreases |After(rows, after)|
  {
    var rest := After(rows, after);
    if |rest| <= LIMIT {
      TrimShort(rest);
      assert Flatten([rest]) == rest + Flatten([]);
    } else {
      var kept := Kept(rest[..LIMIT + 1]);
      var c := kept[|kept| - 1].action;
      CursorAdvances(rows, after);
      WalkDelivers(rows, Some(c));
      AfterTwice(rows, after, c);
      SuffixOrdered(rows, after);
      PageDelivers(rest);
      FlattenCons(kept, Walk(rows, Some(c)));
    }
  }

  lemma SuffixOrdered(rows: seq<Row>, after: Option<nat>)
    requires Ordered(rows)
    ensures Ordered(After(rows, after))
  {
    var k := AfterSuffix(rows, after);
  }

  lemma FlattenCons(page: seq<Row>, pages: seq<seq<Row>>)
    ensures Flatten([page] + pages) == page + Flatten(pages)
  {
    assert ([page] + pages)[1..] == pages;
  }

  /** No action has more rows than a page can hold. */
  ghost predicate NoOversizedAction(rows: seq<Row>) {
    forall action :: Count(rows, action) <= 20
  }

  lemma {:induction false} TrimLength(rows: seq<Row>)
    ensures |Trim(rows)| <= |rows|
    ensures Trim(rows) == rows <==> NoOversizedAction(rows)
    ensures Trim(rows) == rows <==> |Trim(rows)| == |rows|
  {
    if rows == [] {
    } else {
      var n := |rows| - 1;
      TrimLength(rows[..n]);
      assert rows == rows[..n] + [rows[n]];
      forall action
        ensures Count(rows, action) == Count(rows[..n], action) + if rows[n].action == action then 1 else 0
      {
      }
      if NoOversizedAction(rows) {
        assert Count(rows, rows[n].action) <= LIMIT;
        forall action
          ensures Count(rows[..n], action) <= LIMIT
        {
          assert Count(rows, action) <= LIMIT;
        }
      }
      if Trim(rows) == rows {
        assert Rank(rows, n) < LIMIT;
        assert Trim(rows)[..n] == Trim(rows[..n]);
      }
    }
  }

  /** From the start, the walk delivers every row exactly when no action is over-large. */
  lemma WalkIsComplete(rows: seq<Row>)
    requires Ordered(rows)
    ensures Flatten(Walk(rows, None)) == rows <==> NoOversizedAction(rows)
  {
    WalkDelivers(rows, None);
    var k := AfterSuffix(rows, None);
    assert rows[0..] == rows;
    TrimLength(rows);
  }

  lemma {:induction false} WalkPast(rows: seq<Row>, after: Option<nat>)
    ensures forall p, r | p in Walk(rows, after) && r in p :: Past(after, r)
    decreases |After(rows, after)|
  {
    var page := Fetch(rows, after);
    AfterMembers(rows, after);
    assert Kept(page) <= page <= After(rows, after);
    if NextAfter(page).Some? {
      CursorAdvances(rows, after);
      WalkPast(rows, NextAfter(page));
    }
  }

  lemma LastRowIsLatest(rows: seq<Row>, after: Option<nat>, r: Row)
    requires Ordered(rows) && NextAfter(Fetch(rows, after)).Some? && r in Kept(Fetch(rows, after))
    ensures r.action <= NextAfter(Fetch(rows, after)).value
  {
    var kept := Kept(Fetch(rows, after));
    SuffixOrdered(rows, after);
    assert kept <= Fetch(rows, after) <= After(rows, after);
    var m :| 0 <= m < |kept| && kept[m] == r;
    assert kept[m] == After(rows, after)[m] && kept[|kept| - 1] == After(rows, after)[|kept| - 1];
  }

  lemma WalkCons(rows: seq<Row>, after: Option<nat>)
    requires NextAfter(Fetch(rows, after)).Some?
    ensures
      var c := NextAfter(Fetch(rows, after)).value;
      Walk(rows, after) == [Kept(Fetch(rows, after))] + Walk(rows, Some(c))
  {
  }

  /** Later pages are the pages past the first one's cursor. */
  lemma WalkGoesOn(rows: seq<Row>, after: Option<nat>, i: nat)
    requires 0 < i < |Walk(rows, after)|
    ensures
      var next := NextAfter(Fetch(rows, after));
      && next.Some? && i - 1 < |Walk(rows, next)| && Walk(rows, after)[i] == Walk(rows, next)[i - 1]
      && Walk(rows, after)[0] == Kept(Fetch(rows, after))
  {
    if NextAfter(Fetch(rows, after)).Some? {
      WalkCons(rows, after);
    }
  }

  lemma FirstPageIsEarlier(rows: seq<Row>, after: Option<nat>, j: nat, r: Row, q: Row)
    requires Ordered(rows) && NextAfter(Fetch(rows, after)).Some? && r in Kept(Fetch(rows, after))
    requires j < |Walk(rows, NextAfter(Fetch(rows, after)))| && q in Walk(rows, NextAfter(Fetch(rows, after)))[j]
    ensures r.action < q.action
  {
    var next := NextAfter(Fetch(rows, after));
    WalkPast(rows, next);
    assert Walk(rows, next)[j] in Walk(rows, next);
    assert Past(next, q);
    LastRowIsLatest(rows, after, r);
  }

  /** No action is split across pages: every row of a page comes before every row of a later one. */
  lemma {:induction false} PagesSeparateActions(rows: seq<Row>, after: Option<nat>, i: nat, j: nat, r: Row, q: Row)
    requires Ordered(rows) && i < j < |Walk(rows, after)|
    requires r in Walk(rows, after)[i] && q in Walk(rows, after)[j]
    ensures r.action < q.action
    decreases |After(rows, after)|
  {
    var next := NextAfter(Fetch(rows, after));
    WalkGoesOn(rows, after, j);
    CursorAdvances(rows, after);
    if i == 0 {
      FirstPageIsEarlier(rows, after, j - 1, r, q);
    } else {
      WalkGoesOn(rows, after, i);
      PagesSeparateActions(rows, next, i - 1, j - 1, r, q);
    }
  }
}
