/** Sequences without repeats, the sets of their members, and multisets of their parts. */
module Sequences {

  ghost predicate NoRepeats<T>(s: seq<T>) {
    forall i, j | 0 <= i < j < |s| :: s[i] != s[j]
  }

  ghost function Members<T>(s: seq<T>): set<T> {
    set x | x in s
  }

  /** `kept` is the entries of `all` at the given places, in order and each once. */
  ghost predicate PickedAt<T>(all: seq<T>, kept: seq<T>, at: seq<nat>) {
    && |at| == |kept|
    && (forall i | 0 <= i < |at| :: at[i] < |all| && kept[i] == all[at[i]])
    && forall i, j | 0 <= i < j < |at| :: at[i] < at[j]
  }

  /** Places in a sequence from those in the rest of it. */
  ghost function Moved(at: seq<nat>, first: bool): (r: seq<nat>)
    ensures |r| == |at| + if first then 1 else 0
  {
    (if first then [0] else []) + seq(|at|, i requires 0 <= i < |at| => at[i] + 1)
  }

  lemma MovedMembers(at: seq<nat>, first: bool, p: nat)
    ensures p in Moved(at, first) <==> (p == 0 && first) || (p > 0 && p - 1 in at)
  {
    var moved, from := Moved(at, first), if first then 1 else 0;
    forall i | 0 <= i < |at|
      ensures moved[from + i] == at[i] + 1
    {
    }
    if p in moved {
      var i :| 0 <= i < |moved| && moved[i] == p;
      assert i < from || at[i - from] == p - 1;
    }
    if p > 0 && p - 1 in at {
      var i :| 0 <= i < |at| && at[i] == p - 1;
      assert moved[from + i] == p;
    }
    if first {
      assert moved[0] == 0;
    }
  }

  lemma PickedMore<T>(x: T, all: seq<T>, kept: seq<T>, at: seq<nat>, first: bool)
    requires PickedAt(all, kept, at)
    ensures PickedAt([x] + all, (if first then [x] else []) + kept, Moved(at, first))
  {
    var moved, from, more := Moved(at, first), if first then 1 else 0, (if first then [x] else []) + kept;
    forall i | 0 <= i < |moved|
      ensures moved[i] < |all| + 1 && more[i] == ([x] + all)[moved[i]]
      ensures if i < from then moved[i] == 0 else moved[i] == at[i - from] + 1
    {
      if i >= from {
        assert kept[i - from] == all[at[i - from]];
      }
    }
  }

  /** What is kept of a sequence, from what is kept of the rest of it. */
  lemma PickedStep<T>(all: seq<T>, kept: seq<T>, at: seq<nat>, first: bool)
    requires all != [] && PickedAt(all[1..], kept, at)
    ensures PickedAt(all, (if first then [all[0]] else []) + kept, Moved(at, first))
    ensures forall p: nat :: p in Moved(at, first) <==> if p == 0 then first else p - 1 in at
  {
    PickedMore(all[0], all[1..], kept, at, first);
    assert all == [all[0]] + all[1..];
    forall p: nat
      ensures p in Moved(at, first) <==> if p == 0 then first else p - 1 in at
    {
      MovedMembers(at, first, p);
    }
  }

  lemma {:induction false} NoRepeatsCount<T>(s: seq<T>)
    requires NoRepeats(s)
    ensures |Members(s)| == |s|
  {
    if s == [] {
    } else {
      var n := |s| - 1;
      NoRepeatsCount(s[..n]);
      assert Members(s) == Members(s[..n]) + {s[n]};
    }
  }

  lemma {:induction false} MembersBound<T>(s: seq<T>)
    ensures |Members(s)| <= |s|
  {
    if s == [] {
    } else {
      var n := |s| - 1;
      MembersBound(s[..n]);
      assert Members(s) == Members(s[..n]) + {s[n]};
    }
  }

  lemma MultisetTail<T>(s: seq<T>)
    requires s != []
    ensures multiset(s[1..]) == multiset(s) - multiset{s[0]}
  {
    assert s == [s[0]] + s[1..];
  }

  lemma MultisetInit<T>(s: seq<T>)
    requires s != []
    ensures multiset(s[..|s| - 1]) == multiset(s) - multiset{s[|s| - 1]}
  {
    assert s == s[..|s| - 1] + [s[|s| - 1]];
  }

  /** A sequence with one element taken out. */
  function Without<T>(s: seq<T>, k: nat): (t: seq<T>)
    requires k < |s|
    ensures |t| == |s| - 1
  {
    s[..k] + s[k + 1..]
  }

  lemma MultisetWithout<T>(s: seq<T>, k: nat)
    requires k < |s|
    ensures multiset(Without(s, k)) == multiset(s) - multiset{s[k]}
    ensures multiset(s) == multiset(Without(s, k)) + multiset{s[k]}
  {
    var a, b := s[..k], s[k + 1..];
    assert s == a + [s[k]] + b;
    assert multiset(s) == multiset(a) + multiset{s[k]} + multiset(b);
    assert multiset(a + b) == multiset(a) + multiset(b);
  }

  lemma SameMembers<T>(a: seq<T>, b: seq<T>)
    requires multiset(a) == multiset(b)
    ensures forall x :: x in a <==> x in b
  {
    assert forall x :: x in a <==> x in multiset(a);
    assert forall x :: x in b <==> x in multiset(b);
  }

  /** The members of a set in some order. */
  lemma {:induction false} Listing<T>(s: set<T>) returns (list: seq<T>)
    ensures NoRepeats(list) && Members(list) == s
    decreases |s|
  {
    if s == {} {
      list := [];
    } else {
      var x :| x in s;
      var rest := Listing(s - {x});
      assert x !in Members(rest);
      list := rest + [x];
      assert Members(list) == Members(rest) + {x};
    }
  }

  /** A subset of any size up to the set's own. */
  lemma {:induction false} SubsetOfSize<T>(s: set<T>, k: nat) returns (t: set<T>)
    requires k <= |s|
    ensures t <= s && |t| == k
    decreases |s|
  {
    if k == |s| {
      t := s;
    } else {
      var x :| x in s;
      t := SubsetOfSize(s - {x}, k);
    }
  }

  lemma SubsetSize<T>(a: set<T>, b: set<T>)
    requires a <= b
    ensures |a| <= |b|
  {
    assert b == a + (b - a);
    assert |b| == |a| + |b - a|;
  }

  lemma CardinalityOverlap<T>(a: set<T>, b: set<T>, whole: set<T>)
    requires a <= whole && b <= whole
    ensures |a * b| >= |a| + |b| - |whole|
  {
    assert |a + b| == |a| + |b| - |a * b|;
    SubsetSize(a + b, whole);
  }

  /** Two subsets of size q that share no more than they must. */
  lemma LeastOverlap<T>(whole: set<T>, q: nat) returns (a: set<T>, b: set<T>)
    requires q <= |whole| <= 2 * q
    ensures a <= whole && b <= whole && |a| == |b| == q && |a * b| == 2 * q - |whole|
  {
    a := SubsetOfSize(whole, q);
    var rest := whole - a;
    var common := SubsetOfSize(a, 2 * q - |whole|);
    b := rest + common;
    assert |rest| == |whole| - q;
    assert rest * common == {};
    assert a * b == common;
  }
}
