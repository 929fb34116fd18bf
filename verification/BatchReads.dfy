/**
 Batch answers: the address list a body may carry, one entry's assembly, and the pool of workers
 that answers the addresses concurrently.
 */
module BatchReads {
  import opened Sequences
  import opened Wrappers
  import Strings = Text

  const BATCH_ADDRESS_MAX: nat := 20
  const BATCH_READ_CONCURRENCY: nat := 8
  const BATCH_INVALID_ECHO_MAX: nat := 128

  // ---- The address list ----

  /** A list entry as JSON carries it: a string, or something else. */
  datatype BodyEntry = Text(chars: string) | NotText

  datatype Refusal = InvalidAddresses | TooManyAddresses | InvalidAddress(echo: string)

  /** As much of a refused entry as the refusal repeats. */
  function Echo(entry: string): (e: string)
    ensures e <= entry && |e| == if |entry| > 128 then 128 else |entry|
  {
    if |entry| > BATCH_INVALID_ECHO_MAX then entry[..BATCH_INVALID_ECHO_MAX] else entry
  }

  /** Entry i is the first that is no address. */
  ghost predicate FirstInvalid(list: seq<BodyEntry>, i: nat) {
    && AllText(list) && i < |list| && !IsAddressLike(list[i].chars)
    && forall j | 0 <= j < i :: IsAddressLike(list[j].chars)
  }

  predicate AlphaNumeric(c: char) {
    'A' <= c <= 'Z' || 'a' <= c <= 'z' || Strings.IsDigit(c)
  }

  predicate AllAlphaNumeric(s: string) {
    s != "" && forall c | c in s :: AlphaNumeric(c)
  }

  predicate IsNumeral(s: string) {
    s != "" && Strings.AllDigits(s)
  }

  /** After the C: comes a chain up to position k, a colon there, and an index. */
  predicate IsContractAt(s: string, k: nat)
    requires 2 < k < |s|
  {
    AllAlphaNumeric(s[2..k]) && s[k] == ':' && IsNumeral(s[k + 1..])
  }

  /** Plain alphanumerics, or C:<chain>:<index>; at most 128 characters. */
  predicate IsAddressLike(s: string) {
    && 1 <= |s| <= 128
    && (AllAlphaNumeric(s) || ("C:" <= s && exists k | 2 < k < |s| :: IsContractAt(s, k)))
  }

  /** Every character is an ASCII letter or digit, or a digit where only those may stand. */
  ghost predicate Made(s: string, letters: bool) {
    && s != ""
    && forall i | 0 <= i < |s| :: '0' <= s[i] <= '9' || (letters && ('A' <= s[i] <= 'Z' || 'a' <= s[i] <= 'z'))
  }

  lemma MadeExactly(s: string)
    ensures AllAlphaNumeric(s) <==> Made(s, true)
    ensures IsNumeral(s) <==> Made(s, false)
  {
    assert forall i | 0 <= i < |s| :: s[i] in s;
  }

  /** C:, a chain, a colon and an index. */
  ghost predicate SpellsContract(s: string, chain: string, index: string) {
    Made(chain, true) && Made(index, false) && s == "C:" + chain + ":" + index
  }

  lemma SpelledIsContract(s: string, chain: string, index: string)
    requires SpellsContract(s, chain, index)
    ensures "C:" <= s && 2 < |chain| + 2 < |s| && IsContractAt(s, |chain| + 2)
  {
    MadeExactly(chain);
    MadeExactly(index);
    assert s[2..|chain| + 2] == chain && s[|chain| + 3..] == index;
  }

  lemma ContractIsSpelled(s: string, k: nat)
    requires "C:" <= s && 2 < k < |s| && IsContractAt(s, k)
    ensures SpellsContract(s, s[2..k], s[k + 1..])
  {
    MadeExactly(s[2..k]);
    MadeExactly(s[k + 1..]);
    assert s == s[..2] + s[2..k] + [s[k]] + s[k + 1..];
  }

  /** Accepted are letters and digits, or C:, letters and digits, a colon and digits; 128 characters at most. */
  lemma AddressLikeExactly(s: string)
    ensures IsAddressLike(s) <==>
            |s| <= 128 && (Made(s, true) || exists chain, index :: SpellsContract(s, chain, index))
  {
    MadeExactly(s);
    forall chain, index | SpellsContract(s, chain, index)
      ensures "C:" <= s && 2 < |chain| + 2 < |s| && IsContractAt(s, |chain| + 2)
    {
      SpelledIsContract(s, chain, index);
    }
    if "C:" <= s {
      forall k | 2 < k < |s| && IsContractAt(s, k)
        ensures SpellsContract(s, s[2..k], s[k + 1..])
      {
        ContractIsSpelled(s, k);
      }
    }
  }

  predicate AllText(list: seq<BodyEntry>) {
    forall e | e in list :: e.Text?
  }

  /** The first occurrence of each entry, in order. */
  function Dedup(list: seq<BodyEntry>): seq<string>
    requires AllText(list)
  {
    if list == [] then []
    else
      var init := Dedup(list[..|list| - 1]);
      var last := list[|list| - 1].chars;
      if last in init then init else init + [last]
  }

  /** Position of an entry's first occurrence. */
  ghost function FirstAt(list: seq<BodyEntry>, address: string): nat {
    if list == [] || list[0] == Text(address) then 0 else 1 + FirstAt(list[1..], address)
  }

  lemma {:induction false} FirstAtAppend(list: seq<BodyEntry>, e: BodyEntry, address: string)
    ensures Text(address) in list ==> FirstAt(list + [e], address) == FirstAt(list, address) < |list|
    ensures Text(address) !in list && e == Text(address) ==> FirstAt(list + [e], address) == |list|
  {
    if list == [] {
    } else {
      FirstAtAppend(list[1..], e, address);
      assert (list + [e])[1..] == list[1..] + [e];
    }
  }

  lemma {:induction false} DedupMembers(list: seq<BodyEntry>, a: string)
    requires AllText(list)
    ensures a in Dedup(list) <==> Text(a) in list
  {
    if list == [] {
    } else {
      var init, last := list[..|list| - 1], list[|list| - 1];
      DedupMembers(init, a);
      assert list == init + [last] && last == Text(last.chars);
    }
  }

  lemma {:induction false} DedupNoRepeats(list: seq<BodyEntry>)
    requires AllText(list)
    ensures NoRepeats(Dedup(list))
  {
    if list == [] {
    } else {
      DedupNoRepeats(list[..|list| - 1]);
    }
  }

  lemma {:induction false} DedupOrder(list: seq<BodyEntry>, i: nat, j: nat)
    requires AllText(list) && i < j < |Dedup(list)|
    ensures FirstAt(list, Dedup(list)[i]) < FirstAt(list, Dedup(list)[j])
  {
    var init, last := list[..|list| - 1], list[|list| - 1];
    assert list == init + [last];
    var a, b := Dedup(list)[i], Dedup(list)[j];
    FirstAtAppend(init, last, a);
    FirstAtAppend(init, last, b);
    assert Dedup(init)[i] == a && a in Dedup(init);
    DedupMembers(init, a);
    DedupMembers(init, b);
    if j < |Dedup(init)| {
      assert b in Dedup(init);
      DedupOrder(init, i, j);
    } else {
      assert b == last.chars && b !in Dedup(init) && last == Text(b);
    }
  }

  /** No repeats, nothing lost or added, and the order is that of first occurrences. */
  lemma DedupMeaning(list: seq<BodyEntry>)
    requires AllText(list)
    ensures NoRepeats(Dedup(list))
    ensures forall a :: a in Dedup(list) <==> Text(a) in list
    ensures forall i, j | 0 <= i < j < |Dedup(list)| :: FirstAt(list, Dedup(list)[i]) < FirstAt(list, Dedup(list)[j])
  {
    DedupNoRepeats(list);
    forall a
      ensures a in Dedup(list) <==> Text(a) in list
    {
      DedupMembers(list, a);
    }
    forall i, j | 0 <= i < j < |Dedup(list)|
      ensures FirstAt(list, Dedup(list)[i]) < FirstAt(list, Dedup(list)[j])
    {
      DedupOrder(list, i, j);
    }
  }

  /** The checks in the source's order: shape, then the cap on what was sent, then each entry. */
  method ParseBatchAddresses(body: Option<seq<BodyEntry>>) returns (r: Result<seq<string>, Refusal>)
    ensures r == Err(InvalidAddresses) <==> body.None? || body.value == [] || !AllText(body.value)
    ensures r == Err(TooManyAddresses) <==> body.Some? && AllText(body.value) && |body.value| > 20
    ensures r.Ok? <==>
            && body.Some? && 1 <= |body.value| <= 20 && AllText(body.value)
            && forall e | e in body.value :: IsAddressLike(e.chars)
    ensures r.Ok? ==> r.value == Dedup(body.value)
    ensures forall i: nat | body.Some? && |body.value| <= 20 && FirstInvalid(body.value, i) ::
              r == Err(InvalidAddress(Echo(body.value[i].chars)))
  {
    if body.None? || body.value == [] || exists e :: e in body.value && e.NotText? {
      return Err(InvalidAddresses);
    }
    var list := body.value;
    assert AllText(list);
    if |list| > BATCH_ADDRESS_MAX {
      return Err(TooManyAddresses);
    }
    var addresses: seq<string> := [];
    for i := 0 to |list|
      invariant forall e | e in list[..i] :: IsAddressLike(e.chars)
      invariant forall j | 0 <= j < i :: IsAddressLike(list[j].chars)
      invariant addresses == Dedup(list[..i])
    {
      assert list[..i + 1][..i] == list[..i] && list[..i + 1] == list[..i] + [list[i]];
      assert list[i] in list;
      if !IsAddressLike(list[i].chars) {
        assert forall j: nat | FirstInvalid(list, j) :: j == i;
        return Err(InvalidAddress(Echo(list[i].chars)));
      }
      if list[i].chars !in addresses {
        addresses := addresses + [list[i].chars];
      }
    }
    assert list[..|list|] == list;
    return Ok(addresses);
  }

  // ---- One entry ----

  datatype Read = Read(code: int, json: string, failCode: Option<string>, failText: Option<string>)
  datatype Failure = Failure(code: string, error: string, status: int)

  /** The parts' values in order, null where a part failed, and the first failure. */
  datatype Entry = Entry(values: seq<Option<string>>, error: Option<Failure>)

  function FailureOf(read: Read): Failure {
    Failure(if read.failCode.Some? && read.failCode.value != "" then read.failCode.value else "READ_FAILED",
            if read.failText.Some? && read.failText.value != "" then read.failText.value
            else "The batch read failed for this address.",
            read.code)
  }

  /** The reason's own code and text where it has them, and a fixed one where it has none. */
  lemma FailureMeaning(read: Read, given: string)
    requires given != ""
    ensures FailureOf(read).status == read.code
    ensures read.failCode == Some(given) ==> FailureOf(read).code == given
    ensures read.failText == Some(given) ==> FailureOf(read).error == given
    ensures read.failCode in {None, Some("")} ==> FailureOf(read).code == "READ_FAILED"
    ensures read.failText in {None, Some("")} ==> FailureOf(read).error == "The batch read failed for this address."
  {
  }

  method BatchEntry(answers: seq<Read>) returns (entry: Entry)
    ensures |entry.values| == |answers|
    ensures forall i | 0 <= i < |answers| :: entry.values[i] == if answers[i].code == 200 then Some(answers[i].json) else None
    ensures entry.error.None? <==> forall i | 0 <= i < |answers| :: answers[i].code == 200
    ensures forall i | 0 <= i < |answers| && answers[i].code != 200 && (forall j | 0 <= j < i :: answers[j].code == 200) ::
              entry.error == Some(FailureOf(answers[i]))
  {
    var values: seq<Option<string>> := [];
    var failure: Option<Failure> := None;
    for i := 0 to |answers|
      invariant |values| == i
      invariant forall k | 0 <= k < i :: values[k] == if answers[k].code == 200 then Some(answers[k].json) else None
      invariant failure.None? <==> forall k | 0 <= k < i :: answers[k].code == 200
      invariant forall k | 0 <= k < i && answers[k].code != 200 && (forall j | 0 <= j < k :: answers[j].code == 200) ::
                  failure == Some(FailureOf(answers[k]))
    {
      if answers[i].code == 200 {
        values := values + [Some(answers[i].json)];
      } else {
        values := values + [None];
        if failure.None? {
          failure := Some(FailureOf(answers[i]));
        }
      }
    }
    return Entry(values, failure);
  }

  // ---- The worker pool ----

  /** A worker between reads, reading for the address at an index, or returned. */
  datatype Worker = Idle | Busy(idx: nat) | Stopped

  /** The shared cursor, the workers, and the indexes finished so far in order of completion. */
  datatype Pool = Pool(cursor: nat, workers: seq<Worker>, done: seq<nat>)

  /** A worker takes the next index, or its read comes back. */
  datatype Event = Take(worker: nat) | Finish(worker: nat)

  function WorkerCount(n: nat): nat {
    if BATCH_READ_CONCURRENCY < n then BATCH_READ_CONCURRENCY else n
  }

  function Start(n: nat): Pool {
    Pool(0, seq(WorkerCount(n), _ => Idle), [])
  }

  predicate Enabled(p: Pool, e: Event) {
    match e
    case Take(w) => w < |p.workers| && p.workers[w].Idle?
    case Finish(w) => w < |p.workers| && p.workers[w].Busy?
  }

  function Step(p: Pool, e: Event, n: nat): Pool
    requires Enabled(p, e)
  {
    match e
    case Take(w) =>
      p.(cursor := p.cursor + 1, workers := p.workers[w := if p.cursor >= n then Stopped else Busy(p.cursor)])
    case Finish(w) =>
      p.(done := p.done + [p.workers[w].idx], workers := p.workers[w := Idle])
  }

  function Run(n: nat, events: seq<Event>): Option<Pool> {
    if events == [] then Some(Start(n))
    else
      match Run(n, events[..|events| - 1])
      case None => None
      case Some(p) => if Enabled(p, events[|events| - 1]) then Some(Step(p, events[|events| - 1], n)) else None
  }

  /** How many workers are reading for index i. */
  ghost function Reading(workers: seq<Worker>, i: nat): nat {
    if workers == [] then 0
    else Reading(workers[..|workers| - 1], i) + if workers[|workers| - 1] == Busy(i) then 1 else 0
  }

  ghost function BusyCount(workers: seq<Worker>): (k: nat)
    ensures k <= |workers|
  {
    if workers == [] then 0
    else BusyCount(workers[..|workers| - 1]) + if workers[|workers| - 1].Busy? then 1 else 0
  }

  ghost function StoppedCount(workers: seq<Worker>): (k: nat)
    ensures k <= |workers|
  {
    if workers == [] then 0
    else StoppedCount(workers[..|workers| - 1]) + if workers[|workers| - 1].Stopped? then 1 else 0
  }

  lemma {:induction false} SetWorker(workers: seq<Worker>, w: nat, to: Worker)
    requires w < |workers|
    ensures forall i: nat :: Reading(workers[w := to], i) + (if workers[w] == Busy(i) then 1 else 0)
                          == Reading(workers, i) + if to == Busy(i) then 1 else 0
    ensures BusyCount(workers[w := to]) + (if workers[w].Busy? then 1 else 0)
         == BusyCount(workers) + if to.Busy? then 1 else 0
    ensures StoppedCount(workers[w := to]) + (if workers[w].Stopped? then 1 else 0)
         == StoppedCount(workers) + if to.Stopped? then 1 else 0
    decreases |workers|
  {
    var n := |workers| - 1;
    if w == n {
      assert workers[w := to][..n] == workers[..n];
    } else {
      SetWorker(workers[..n], w, to);
      assert workers[w := to][..n] == workers[..n][w := to];
    }
  }

  /**
   Conservation: every index below the cursor is finished or being read, in all exactly once; the
   cursor overshoots the list by at most one for each worker that has returned.
   */
  ghost predicate Inv(p: Pool, n: nat) {
    && |p.workers| == WorkerCount(n)
    && (forall i: nat :: multiset(p.done)[i] + Reading(p.workers, i) == if i < p.cursor && i < n then 1 else 0)
    && |p.done| + BusyCount(p.workers) == (if p.cursor < n then p.cursor else n)
    && p.cursor <= n + StoppedCount(p.workers)
    && (StoppedCount(p.workers) > 0 ==> p.cursor >= n)
  }

  lemma {:induction false} NoneStarted(workers: seq<Worker>)
    requires forall w | w in workers :: w.Idle?
    ensures forall i: nat :: Reading(workers, i) == 0
    ensures BusyCount(workers) == 0 && StoppedCount(workers) == 0
  {
    if workers == [] {
    } else {
      NoneStarted(workers[..|workers| - 1]);
      assert workers[|workers| - 1] in workers;
    }
  }

  lemma StepInv(p: Pool, e: Event, n: nat)
    requires Inv(p, n) && Enabled(p, e)
    ensures Inv(Step(p, e, n), n)
  {
    match e
    case Take(w) =>
      SetWorker(p.workers, w, if p.cursor >= n then Stopped else Busy(p.cursor));
    case Finish(w) =>
      SetWorker(p.workers, w, Idle);
  }

  lemma {:induction false} RunInv(n: nat, events: seq<Event>)
    requires Run(n, events).Some?
    ensures Inv(Run(n, events).value, n)
    ensures |events| == Run(n, events).value.cursor + |Run(n, events).value.done|
  {
    if events == [] {
      NoneStarted(Start(n).workers);
    } else {
      var before := events[..|events| - 1];
      RunInv(n, before);
      StepInv(Run(n, before).value, events[|events| - 1], n);
    }
  }

  /**
   In every interleaving: at most min(8, n) reads are in flight, no index is ever finished or in
   flight twice, and none outside the list ever is.
   */
  lemma NeverTwice(n: nat, events: seq<Event>, i: nat)
    requires Run(n, events).Some?
    ensures
      var p := Run(n, events).value;
      && BusyCount(p.workers) <= |p.workers| && (|p.workers| == 8 <= n || |p.workers| == n < 8)
      && multiset(p.done)[i] + Reading(p.workers, i) <= (if i < n then 1 else 0)
  {
    RunInv(n, events);
  }

  lemma {:induction false} AllStopped(workers: seq<Worker>)
    requires forall w | w in workers :: w.Stopped?
    ensures forall i: nat :: Reading(workers, i) == 0
    ensures BusyCount(workers) == 0 && StoppedCount(workers) == |workers|
  {
    if workers == [] {
    } else {
      AllStopped(workers[..|workers| - 1]);
      assert workers[|workers| - 1] in workers;
    }
  }

  /** When all workers have returned, every index has been finished exactly once. */
  lemma AllDoneOnce(n: nat, events: seq<Event>)
    requires Run(n, events).Some? && forall w | w in Run(n, events).value.workers :: w.Stopped?
    ensures forall i: nat :: multiset(Run(n, events).value.done)[i] == if i < n then 1 else 0
    ensures forall i: nat :: i in Run(n, events).value.done <==> i < n
  {
    RunInv(n, events);
    AllStopped(Run(n, events).value.workers);
    forall i: nat
      ensures i in Run(n, events).value.done <==> multiset(Run(n, events).value.done)[i] > 0
    {
    }
  }

  /** Until then some worker can always go on, and no run is longer than two steps an index and one a worker. */
  lemma PoolTerminates(n: nat, events: seq<Event>)
    requires Run(n, events).Some?
    ensures |events| <= 2 * n + 8
    ensures (exists w :: w in Run(n, events).value.workers && !w.Stopped?) ==> exists e :: Enabled(Run(n, events).value, e)
  {
    RunInv(n, events);
    var p := Run(n, events).value;
    if w :| w in p.workers && !w.Stopped? {
      var i :| 0 <= i < |p.workers| && p.workers[i] == w;
      assert Enabled(p, if w.Idle? then Take(i) else Finish(i));
    }
  }

  /** The entries recorded so far; `answer` gives what the k-th read to complete came back with. */
  ghost function Recorded<V>(addresses: seq<string>, done: seq<nat>, answer: nat -> V): map<string, V> {
    if done == [] then map[]
    else
      var n := |done| - 1;
      var before := Recorded(addresses, done[..n], answer);
      if done[n] < |addresses| then before[addresses[done[n]] := answer(n)] else before
  }

  datatype Line<V> = Line(address: string, entry: Option<V>)

  /** The body: a line an address in the caller's order, holding what was recorded for it. */
  ghost function Body<V>(addresses: seq<string>, entries: map<string, V>): (b: seq<Line<V>>)
    ensures |b| == |addresses|
  {
    seq(|addresses|, i requires 0 <= i < |addresses| =>
      Line(addresses[i], if addresses[i] in entries then Some(entries[addresses[i]]) else None))
  }

  /** Each completion's answer stays in its place, when no address is read for twice. */
  lemma {:induction false} RecordedMeaning<V>(addresses: seq<string>, done: seq<nat>, answer: nat -> V)
    requires NoRepeats(addresses) && NoRepeats(done) && forall k | 0 <= k < |done| :: done[k] < |addresses|
    ensures forall k | 0 <= k < |done| ::
              && addresses[done[k]] in Recorded(addresses, done, answer)
              && Recorded(addresses, done, answer)[addresses[done[k]]] == answer(k)
  {
    if done == [] {
    } else {
      var n := |done| - 1;
      assert done == done[..n] + [done[n]];
      RecordedMeaning(addresses, done[..n], answer);
      forall k | 0 <= k < n
        ensures addresses[done[k]] != addresses[done[n]]
      {
        assert done[k] != done[n];
      }
    }
  }

  lemma {:induction false} OnceEachMeansNoRepeats(done: seq<nat>)
    requires forall i :: multiset(done)[i] <= 1
    ensures NoRepeats(done)
  {
    if done == [] {
    } else {
      var n := |done| - 1;
      assert done == done[..n] + [done[n]];
      forall i
        ensures multiset(done[..n])[i] <= 1
      {
        assert multiset(done)[i] <= 1;
      }
      OnceEachMeansNoRepeats(done[..n]);
      assert multiset(done)[done[n]] == multiset(done[..n])[done[n]] + 1;
      assert done[n] !in done[..n];
    }
  }

  /**
   The body lists the addresses in the caller's order, each with the answer of the one read made
   for it, whatever order the reads complete in and whatever each comes back with.
   */
  lemma BodyForgetsInterleaving<V>(addresses: seq<string>, events: seq<Event>, answer: nat -> V)
    requires NoRepeats(addresses) && Run(|addresses|, events).Some?
    requires forall w | w in Run(|addresses|, events).value.workers :: w.Stopped?
    ensures
      var done := Run(|addresses|, events).value.done;
      var body := Body(addresses, Recorded(addresses, done, answer));
      && NoRepeats(done) && (forall i: nat :: i in done <==> i < |addresses|)
      && forall k | 0 <= k < |done| :: done[k] < |body| && body[done[k]] == Line(addresses[done[k]], Some(answer(k)))
  {
    var done := Run(|addresses|, events).value.done;
    AllDoneOnce(|addresses|, events);
    OnceEachMeansNoRepeats(done);
    forall k | 0 <= k < |done|
      ensures done[k] < |addresses|
    {
      assert done[k] in done;
    }
    RecordedMeaning(addresses, done, answer);
  }

  /** So where answers depend on the address alone, two runs of any kind give one body. */
  lemma SameBody<V>(addresses: seq<string>, a: seq<Event>, b: seq<Event>, read: string -> V, forA: nat -> V, forB: nat -> V)
    requires NoRepeats(addresses) && Run(|addresses|, a).Some? && Run(|addresses|, b).Some?
    requires forall w | w in Run(|addresses|, a).value.workers :: w.Stopped?
    requires forall w | w in Run(|addresses|, b).value.workers :: w.Stopped?
    requires forall k | 0 <= k < |Run(|addresses|, a).value.done| && Run(|addresses|, a).value.done[k] < |addresses| ::
               forA(k) == read(addresses[Run(|addresses|, a).value.done[k]])
    requires forall k | 0 <= k < |Run(|addresses|, b).value.done| && Run(|addresses|, b).value.done[k] < |addresses| ::
               forB(k) == read(addresses[Run(|addresses|, b).value.done[k]])
    ensures Body(addresses, Recorded(addresses, Run(|addresses|, a).value.done, forA)) ==
            Body(addresses, Recorded(addresses, Run(|addresses|, b).value.done, forB))
  {
    BodyForgetsInterleaving(addresses, a, forA);
    BodyForgetsInterleaving(addresses, b, forB);
    var da, db := Run(|addresses|, a).value.done, Run(|addresses|, b).value.done;
    var ba, bb := Body(addresses, Recorded(addresses, da, forA)), Body(addresses, Recorded(addresses, db, forB));
    forall i | 0 <= i < |addresses|
      ensures ba[i] == bb[i]
    {
      assert i in da && i in db;
      var j :| 0 <= j < |da| && da[j] == i;
      var k :| 0 <= k < |db| && db[k] == i;
    }
  }
}
