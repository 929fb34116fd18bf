/**
 JavaScript values as the canonical printer sees them, and when two of them are the same up to
 the order of object keys.
 */
module JsonValue {
  import opened Sequences
  import opened StringOrder

  /** One field of an object, or anything else kept under a key. */
  datatype Field<T> = Field(key: string, value: T)

  /**
   An object is its own enumerable fields in insertion order. A number is the text JavaScript
   prints it as; NaN and the infinities are `NonFinite`. Functions and symbols behave as
   `Undefined` does.
   */
  datatype Json =
    | Undefined
    | Null
    | NonFinite
    | Bool(value: bool)
    | Num(text: string)
    | Str(chars: string)
    | Arr(items: seq<Json>)
    | Obj(fields: seq<Field<Json>>)

  // ---- Sorting fields by key ----

  function Insert<T>(x: Field<T>, ps: seq<Field<T>>): (r: seq<Field<T>>)
    ensures |r| == |ps| + 1
  {
    if ps == [] || !Less(ps[0].key, x.key) then [x] + ps else [ps[0]] + Insert(x, ps[1..])
  }

  function Sort<T>(ps: seq<Field<T>>): (r: seq<Field<T>>)
    ensures |r| == |ps|
  {
    if ps == [] then [] else Insert(ps[0], Sort(ps[1..]))
  }

  predicate Sorted<T>(ps: seq<Field<T>>) {
    |ps| <= 1 || (!Less(ps[1].key, ps[0].key) && Sorted(ps[1..]))
  }

  predicate DistinctKeys<T>(ps: seq<Field<T>>) {
    forall i, j | 0 <= i < j < |ps| :: ps[i].key != ps[j].key
  }

  lemma {:induction false} InsertAdds<T>(x: Field<T>, ps: seq<Field<T>>)
    ensures multiset(Insert(x, ps)) == multiset(ps) + multiset{x}
  {
    if ps == [] || !Less(ps[0].key, x.key) {
    } else {
      InsertAdds(x, ps[1..]);
      assert ps == [ps[0]] + ps[1..];
    }
  }

  lemma {:induction false} InsertSorts<T>(x: Field<T>, ps: seq<Field<T>>)
    requires Sorted(ps)
    ensures Sorted(Insert(x, ps))
    ensures Insert(x, ps)[0] == x || (ps != [] && Insert(x, ps)[0] == ps[0])
  {
    if ps == [] || !Less(ps[0].key, x.key) {
      assert ([x] + ps)[1..] == ps;
    } else {
      InsertSorts(x, ps[1..]);
      LessTotal(ps[0].key, x.key);
      assert Insert(x, ps)[1..] == Insert(x, ps[1..]);
    }
  }

  lemma {:induction false} SortSorts<T>(ps: seq<Field<T>>)
    ensures Sorted(Sort(ps)) && multiset(Sort(ps)) == multiset(ps)
  {
    if ps == [] {
    } else {
      SortSorts(ps[1..]);
      InsertSorts(ps[0], Sort(ps[1..]));
      InsertAdds(ps[0], Sort(ps[1..]));
      assert ps == [ps[0]] + ps[1..];
    }
  }

  lemma {:induction false} SortOfSorted<T>(ps: seq<Field<T>>)
    requires Sorted(ps)
    ensures Sort(ps) == ps
  {
    if ps == [] {
    } else {
      SortOfSorted(ps[1..]);
    }
  }

  lemma {:induction false} SortedHeadLeast<T>(ps: seq<Field<T>>, i: nat)
    requires Sorted(ps) && i < |ps|
    ensures !Less(ps[i].key, ps[0].key)
  {
    if i == 0 {
      LessTotal(ps[0].key, ps[0].key);
    } else {
      SortedHeadLeast(ps[1..], i - 1);
      LessTotal(ps[0].key, ps[1].key);
      if Less(ps[i].key, ps[0].key) && ps[0].key != ps[1].key {
        LessTransitive(ps[i].key, ps[0].key, ps[1].key);
      }
    }
  }

  lemma SortedSameHead<T>(p: seq<Field<T>>, q: seq<Field<T>>)
    requires Sorted(p) && Sorted(q) && multiset(p) == multiset(q) && DistinctKeys(p) && p != [] && q != []
    ensures p[0] == q[0]
  {
    assert p[0] in multiset(q) && q[0] in multiset(p);
    var i :| 0 <= i < |q| && q[i] == p[0];
    var j :| 0 <= j < |p| && p[j] == q[0];
    SortedHeadLeast(q, i);
    SortedHeadLeast(p, j);
    LessTotal(p[0].key, q[0].key);
  }

  lemma SortedTail<T>(p: seq<Field<T>>)
    requires Sorted(p) && p != []
    ensures Sorted(p[1..]) && (DistinctKeys(p) ==> DistinctKeys(p[1..]))
    ensures multiset(p[1..]) == multiset(p) - multiset{p[0]}
  {
    MultisetTail(p);
  }

  /** Sorted field lists with distinct keys and the same fields are equal. */
  lemma {:induction false} SortedUnique<T>(p: seq<Field<T>>, q: seq<Field<T>>)
    requires Sorted(p) && Sorted(q) && multiset(p) == multiset(q) && DistinctKeys(p)
    ensures p == q
    decreases |p|
  {
    assert |p| == |multiset(p)| == |multiset(q)| == |q|;
    if p == [] {
    } else {
      SortedSameHead(p, q);
      SortedTail(p);
      SortedTail(q);
      SortedUnique(p[1..], q[1..]);
      assert p == [p[0]] + p[1..] && q == [q[0]] + q[1..];
    }
  }

  // ---- Well-formed values ----

  predicate NumChar(c: char) {
    '0' <= c <= '9' || c in {'-', '+', '.', 'e', 'E'}
  }

  /** Numbers print as number tokens and object keys are distinct. */
  predicate Valid(v: Json)
    decreases v
  {
    match v
    case Num(t) => t != "" && ('0' <= t[0] <= '9' || t[0] == '-') && forall c | c in t :: NumChar(c)
    case Arr(items) => forall i | 0 <= i < |items| :: Valid(items[i])
    case Obj(fields) => DistinctKeys(fields) && forall i | 0 <= i < |fields| :: Valid(fields[i].value)
    case _ => true
  }

  predicate Digits(s: string) {
    forall c | c in s :: '0' <= c <= '9'
  }

  /** Every number text is well formed: a sign, digits, a fraction and an exponent, the last three optional. */
  lemma NumberIsValid(minus: bool, whole: string, fraction: string, exponent: string, down: bool)
    requires whole != "" && Digits(whole) && Digits(fraction) && Digits(exponent)
    ensures Valid(Num((if minus then "-" else "") + whole + (if fraction == "" then "" else "." + fraction) +
                      (if exponent == "" then "" else "e" + (if down then "-" else "+") + exponent)))
  {
    var sign, point := if minus then "-" else "", if fraction == "" then "" else "." + fraction;
    var power := if exponent == "" then "" else "e" + (if down then "-" else "+") + exponent;
    var text := sign + whole + point + power;
    assert whole[0] in whole && text[0] == if minus then '-' else whole[0];
    forall c | c in text
      ensures NumChar(c)
    {
      assert c in sign || c in whole || c in point || c in power;
    }
  }

  // ---- The same up to key order ----

  /** join() gives an array of one undefined element the text of an empty array. */
  function Visible(items: seq<Json>): (r: seq<Json>)
    ensures forall i | 0 <= i < |r| :: i < |items| && r[i] == items[i]
  {
    if items == [Undefined] then [] else items
  }

  /**
   Equal up to the order of object keys, and up to the two things JSON has no text for: a
   non-finite number reads as null, and [undefined] as [].
   */
  ghost predicate Same(v: Json, w: Json)
    decreases v
  {
    match v
    case Undefined => w.Undefined?
    case Null => w.Null? || w.NonFinite?
    case NonFinite => w.Null? || w.NonFinite?
    case Bool(b) => w == v
    case Num(t) => w == v
    case Str(s) => w == v
    case Arr(items) =>
      && w.Arr? && |Visible(items)| == |Visible(w.items)|
      && forall i | 0 <= i < |Visible(items)| :: Same(items[i], w.items[i])
    case Obj(fields) =>
      && w.Obj? && |fields| == |w.fields|
      && forall i | 0 <= i < |fields| :: HasLike(fields[i], w.fields)
  }

  ghost predicate HasLike(f: Field<Json>, fields: seq<Field<Json>>)
    decreases f
  {
    exists j | 0 <= j < |fields| :: f.key == fields[j].key && Same(f.value, fields[j].value)
  }

  // ---- Normal forms ----

  function Norm(v: Json): Json
    decreases v, 0
  {
    match v
    case NonFinite => Null
    case Arr(items) => Arr(Visible(NormAll(items)))
    case Obj(fields) => Obj(Sort(NormFields(fields)))
    case _ => v
  }

  function NormAll(items: seq<Json>): (r: seq<Json>)
    ensures |r| == |items|
    ensures forall i | 0 <= i < |r| :: r[i] == Norm(items[i])
    decreases items
  {
    if items == [] then [] else [Norm(items[0])] + NormAll(items[1..])
  }

  function NormFields(fields: seq<Field<Json>>): (r: seq<Field<Json>>)
    ensures |r| == |fields|
    ensures forall i | 0 <= i < |r| :: r[i] == Field(fields[i].key, Norm(fields[i].value))
    decreases fields
  {
    if fields == [] then [] else [Field(fields[0].key, Norm(fields[0].value))] + NormFields(fields[1..])
  }

  /** Sorted objects, no [undefined], no non-finite number, at every depth. */
  predicate Normal(v: Json)
    decreases v
  {
    match v
    case NonFinite => false
    case Arr(items) => items != [Undefined] && forall i | 0 <= i < |items| :: Normal(items[i])
    case Obj(fields) => Sorted(fields) && forall i | 0 <= i < |fields| :: Normal(fields[i].value)
    case _ => true
  }

  lemma {:induction false} NormIsNormal(v: Json)
    requires Valid(v)
    ensures Valid(Norm(v)) && Normal(Norm(v)) && (Norm(v).Undefined? <==> v.Undefined?)
    decreases v
  {
    match v
    case Arr(items) =>
      forall i | 0 <= i < |items|
        ensures Valid(Norm(items[i])) && Normal(Norm(items[i]))
      {
        NormIsNormal(items[i]);
      }
    case Obj(fields) =>
      var nf := NormFields(fields);
      forall i | 0 <= i < |fields|
        ensures Valid(nf[i].value) && Normal(nf[i].value)
      {
        NormIsNormal(fields[i].value);
      }
      SortSorts(nf);
      SortKeepsDistinct(nf);
      forall i | 0 <= i < |Sort(nf)|
        ensures Valid(Sort(nf)[i].value) && Normal(Sort(nf)[i].value)
      {
        assert Sort(nf)[i] in multiset(Sort(nf));
        var k :| 0 <= k < |nf| && nf[k] == Sort(nf)[i];
      }
    case _ =>
  }

  lemma {:induction false} InsertKeepsDistinct<T>(x: Field<T>, ps: seq<Field<T>>)
    requires DistinctKeys(ps) && forall i | 0 <= i < |ps| :: ps[i].key != x.key
    ensures DistinctKeys(Insert(x, ps))
    ensures forall i | 0 <= i < |Insert(x, ps)| :: Insert(x, ps)[i] == x || Insert(x, ps)[i] in ps
  {
    if ps != [] && Less(ps[0].key, x.key) {
      InsertKeepsDistinct(x, ps[1..]);
    }
  }

  lemma {:induction false} SortKeepsDistinct<T>(ps: seq<Field<T>>)
    requires DistinctKeys(ps)
    ensures DistinctKeys(Sort(ps))
    ensures forall i | 0 <= i < |Sort(ps)| :: Sort(ps)[i] in ps
  {
    if ps == [] {
    } else {
      SortKeepsDistinct(ps[1..]);
      InsertKeepsDistinct(ps[0], Sort(ps[1..]));
    }
  }

  // ---- Two values are the same exactly when their normal forms are equal ----

  lemma {:induction false} SameExactly(v: Json, w: Json)
    requires Valid(v) && Valid(w)
    ensures Same(v, w) <==> Norm(v) == Norm(w)
    decreases v
  {
    match v
    case Arr(items) =>
      if w.Arr? {
        SameArrays(items, w.items, v, w);
      }
    case Obj(fields) =>
      if w.Obj? {
        SameObjects(fields, w.fields, v, w);
      }
    case _ =>
  }

  lemma {:induction false} SameArrays(a: seq<Json>, b: seq<Json>, v: Json, w: Json)
    requires v == Arr(a) && w == Arr(b) && Valid(v) && Valid(w)
    ensures Same(v, w) <==> Norm(v) == Norm(w)
    decreases v, 0
  {
    forall i | 0 <= i < |a| && i < |b|
      ensures Same(a[i], b[i]) <==> Norm(a[i]) == Norm(b[i])
    {
      SameExactly(a[i], b[i]);
    }
    VisibleNorm(a);
    VisibleNorm(b);
    var na, nb := Visible(NormAll(a)), Visible(NormAll(b));
    if Same(v, w) {
      assert na == nb;
    }
    if na == nb {
      forall i | 0 <= i < |Visible(a)|
        ensures Same(a[i], b[i])
      {
        assert na[i] == nb[i];
      }
    }
  }

  lemma VisibleNorm(a: seq<Json>)
    requires forall i | 0 <= i < |a| :: Valid(a[i])
    ensures |Visible(NormAll(a))| == |Visible(a)|
    ensures forall i | 0 <= i < |Visible(a)| :: Visible(NormAll(a))[i] == Norm(a[i])
  {
    if |a| == 1 {
      NormIsNormal(a[0]);
      assert NormAll(a) == [Norm(a[0])];
    }
  }

  /** Field by field: every field of a has its like in b. */
  ghost predicate Matched(a: seq<Field<Json>>, b: seq<Field<Json>>) {
    forall i | 0 <= i < |a| :: Field(a[i].key, Norm(a[i].value)) in NormFields(b)
  }

  lemma LikeExactly(f: Field<Json>, b: seq<Field<Json>>)
    requires forall j | 0 <= j < |b| :: Same(f.value, b[j].value) <==> Norm(f.value) == Norm(b[j].value)
    ensures HasLike(f, b) <==> Field(f.key, Norm(f.value)) in NormFields(b)
  {
    var nb := NormFields(b);
    var nf := Field(f.key, Norm(f.value));
    forall j | 0 <= j < |b|
      ensures f.key == b[j].key && Same(f.value, b[j].value) <==> nb[j] == nf
    {
    }
    if HasLike(f, b) {
      var j :| 0 <= j < |b| && f.key == b[j].key && Same(f.value, b[j].value);
      assert nb[j] == nf;
    }
    if nf in nb {
      var j :| 0 <= j < |nb| && nb[j] == nf;
      assert f.key == b[j].key && Same(f.value, b[j].value);
    }
  }

  lemma {:induction false} SameObjects(a: seq<Field<Json>>, b: seq<Field<Json>>, v: Json, w: Json)
    requires v == Obj(a) && w == Obj(b) && Valid(v) && Valid(w)
    ensures Same(v, w) <==> Norm(v) == Norm(w)
    decreases v, 0
  {
    forall i | 0 <= i < |a|
      ensures HasLike(a[i], b) <==> Field(a[i].key, Norm(a[i].value)) in NormFields(b)
    {
      forall j | 0 <= j < |b|
        ensures Same(a[i].value, b[j].value) <==> Norm(a[i].value) == Norm(b[j].value)
      {
        SameExactly(a[i].value, b[j].value);
      }
      LikeExactly(a[i], b);
    }
    MatchedExactly(a, b);
  }

  lemma MatchedExactly(a: seq<Field<Json>>, b: seq<Field<Json>>)
    requires DistinctKeys(a) && DistinctKeys(b)
    ensures |a| == |b| && Matched(a, b) <==> Sort(NormFields(a)) == Sort(NormFields(b))
  {
    var na, nb := NormFields(a), NormFields(b);
    assert Matched(a, b) <==> forall i | 0 <= i < |na| :: na[i] in nb;
    SameSorted(na, nb);
  }

  /** Equal lengths and every field of one in the other: the two sort to the same list. */
  lemma SameSorted<T>(a: seq<Field<T>>, b: seq<Field<T>>)
    requires DistinctKeys(a) && DistinctKeys(b)
    ensures |a| == |b| && (forall i | 0 <= i < |a| :: a[i] in b) <==> Sort(a) == Sort(b)
  {
    SortSorts(a);
    SortSorts(b);
    if Sort(a) == Sort(b) {
      forall i | 0 <= i < |a|
        ensures a[i] in b
      {
        assert a[i] in multiset(b);
      }
    }
    if |a| == |b| && forall i | 0 <= i < |a| :: a[i] in b {
      SameFieldsSameMultiset(a, b);
      SortKeepsDistinct(a);
      SortedUnique(Sort(a), Sort(b));
    }
  }

  lemma {:induction false} DistinctCount<T>(a: seq<Field<T>>, x: Field<T>)
    requires DistinctKeys(a)
    ensures multiset(a)[x] == if x in a then 1 else 0
  {
    if a == [] {
    } else {
      DistinctCount(a[1..], x);
      MultisetTail(a);
      assert x in a <==> x == a[0] || x in a[1..];
      forall i | 0 <= i < |a[1..]|
        ensures a[1..][i] != a[0]
      {
        assert a[1..][i] == a[i + 1];
      }
    }
  }

  lemma SameFieldsSameMultiset<T>(a: seq<Field<T>>, b: seq<Field<T>>)
    requires DistinctKeys(a) && DistinctKeys(b) && |a| == |b| && forall i | 0 <= i < |a| :: a[i] in b
    ensures multiset(a) == multiset(b)
  {
    forall x
      ensures multiset(a)[x] <= multiset(b)[x]
    {
      DistinctCount(a, x);
      DistinctCount(b, x);
    }
    var more := multiset(b) - multiset(a);
    assert multiset(b) == multiset(a) + more;
    assert |more| == 0;
  }

  // ---- Where nothing but key order is lost ----

  /** No non-finite number and no [undefined], at any depth. */
  predicate Plain(v: Json)
    decreases v
  {
    match v
    case NonFinite => false
    case Arr(items) => items != [Undefined] && forall i | 0 <= i < |items| :: Plain(items[i])
    case Obj(fields) => forall i | 0 <= i < |fields| :: Plain(fields[i].value)
    case _ => true
  }

  /** A value is the other, or one somewhere in it. */
  ghost predicate Holds(v: Json, x: Json)
    decreases v
  {
    || v == x
    || match v
       case Arr(items) => exists i | 0 <= i < |items| :: Holds(items[i], x)
       case Obj(fields) => exists i | 0 <= i < |fields| :: Holds(fields[i].value, x)
       case _ => false
  }

  lemma {:induction false} PlainExactly(v: Json)
    ensures Plain(v) <==> !Holds(v, NonFinite) && !Holds(v, Arr([Undefined]))
    decreases v
  {
    match v
    case Arr(items) =>
      forall i | 0 <= i < |items|
        ensures Plain(items[i]) <==> !Holds(items[i], NonFinite) && !Holds(items[i], Arr([Undefined]))
      {
        PlainExactly(items[i]);
      }
    case Obj(fields) =>
      forall i | 0 <= i < |fields|
        ensures Plain(fields[i].value) <==> !Holds(fields[i].value, NonFinite) && !Holds(fields[i].value, Arr([Undefined]))
      {
        PlainExactly(fields[i].value);
      }
    case _ =>
  }

  /** Equal but for the order of object keys, at every depth. */
  ghost predicate EqualUpToKeys(v: Json, w: Json)
    decreases v
  {
    match v
    case Arr(items) =>
      && w.Arr? && |items| == |w.items|
      && forall i | 0 <= i < |items| :: EqualUpToKeys(items[i], w.items[i])
    case Obj(fields) =>
      && w.Obj? && |fields| == |w.fields|
      && forall i | 0 <= i < |fields| :: HasEqual(fields[i], w.fields)
    case _ => v == w
  }

  ghost predicate HasEqual(f: Field<Json>, fields: seq<Field<Json>>)
    decreases f
  {
    exists j | 0 <= j < |fields| :: f.key == fields[j].key && EqualUpToKeys(f.value, fields[j].value)
  }

  lemma {:induction false} PlainSame(v: Json, w: Json)
    requires Plain(v) && Plain(w)
    ensures Same(v, w) <==> EqualUpToKeys(v, w)
    decreases v
  {
    match v
    case Arr(items) =>
      if w.Arr? {
        forall i | 0 <= i < |items| && i < |w.items|
          ensures Same(items[i], w.items[i]) <==> EqualUpToKeys(items[i], w.items[i])
        {
          PlainSame(items[i], w.items[i]);
        }
      }
    case Obj(fields) =>
      if w.Obj? {
        forall i | 0 <= i < |fields|
          ensures HasLike(fields[i], w.fields) <==> HasEqual(fields[i], w.fields)
        {
          forall j | 0 <= j < |w.fields|
            ensures Same(fields[i].value, w.fields[j].value) <==> EqualUpToKeys(fields[i].value, w.fields[j].value)
          {
            PlainSame(fields[i].value, w.fields[j].value);
          }
        }
      }
    case _ =>
  }

  // ---- Keys in order ----

  /**
   In every object each key comes before the later ones: where the two first differ it ends or has
   the lower character.
   */
  ghost predicate KeysAscend(v: Json)
    decreases v
  {
    match v
    case Arr(items) => forall i | 0 <= i < |items| :: KeysAscend(items[i])
    case Obj(fields) =>
      && (forall i, j | 0 <= i < j < |fields| :: ComesFirst(fields[i].key, fields[j].key))
      && forall i | 0 <= i < |fields| :: KeysAscend(fields[i].value)
    case _ => true
  }

  lemma {:induction false} SortedInOrder<T>(ps: seq<Field<T>>, i: nat, j: nat)
    requires Sorted(ps) && DistinctKeys(ps) && i < j < |ps|
    ensures Less(ps[i].key, ps[j].key)
  {
    if i == 0 {
      SortedHeadLeast(ps, j);
      LessTotal(ps[0].key, ps[j].key);
    } else {
      SortedTail(ps);
      SortedInOrder(ps[1..], i - 1, j - 1);
    }
  }

  lemma {:induction false} NormalAscends(v: Json)
    requires Valid(v) && Normal(v)
    ensures KeysAscend(v)
    decreases v
  {
    match v
    case Arr(items) =>
      forall i | 0 <= i < |items|
        ensures KeysAscend(items[i])
      {
        NormalAscends(items[i]);
      }
    case Obj(fields) =>
      forall i, j | 0 <= i < j < |fields|
        ensures ComesFirst(fields[i].key, fields[j].key)
      {
        SortedInOrder(fields, i, j);
        LessExactly(fields[i].key, fields[j].key);
      }
      forall i | 0 <= i < |fields|
        ensures KeysAscend(fields[i].value)
      {
        NormalAscends(fields[i].value);
      }
    case _ =>
  }
}
