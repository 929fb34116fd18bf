/**
 Hub calls with endpoint failover: passes over every endpoint from the last good one, with
 exponential backoff between passes. One call at a time.

 What each endpoint answers is the environment's choice, per pass: `Answers`. `Called` is the
 outcome of a call read off those answers; the class is the loops that reach it.
 */
module HubConnector {
  import opened Wrappers
  import opened Arithmetic

  /** A 2xx body with a result, with an error, or with neither; a non-2xx body with a result; a thrown request. */
  datatype Answer =
    | Result(value: string)
    | RpcError(detail: string)
    | NoBody
    | Degraded(body: string)
    | Unreachable(reason: string)

  /** The answer of an endpoint, by pass (from 1) and endpoint index. */
  type Answers = (nat, nat) -> Answer

  /** What a call returns; a degraded body or null when nothing healthy came back. */
  datatype Returned = Healthy(value: string) | Fallback(degraded: Option<string>)

  /** What the passes so far left behind. */
  datatype Diagnostics = Diagnostics(rpcAnswered: nat, failures: seq<string>, rpcError: Option<string>, degraded: Option<string>)

  function Endpoint(start: nat, i: nat, n: nat): (idx: nat)
    requires n > 0
    ensures idx < n
  {
    (start + i) % n
  }

  function Note(d: Diagnostics, url: string, a: Answer): Diagnostics {
    match a
    case RpcError(detail) =>
      d.(rpcAnswered := d.rpcAnswered + 1, failures := d.failures + [url + " -> rpc " + detail], rpcError := Some(detail))
    case Degraded(body) => d.(degraded := Some(body))
    case Unreachable(reason) => d.(failures := d.failures + [url + " -> " + reason])
    case _ => d
  }

  // ---- One pass ----

  /** The first offset from i on whose endpoint answers with a result. */
  function FirstHealthy(ans: Answers, attempt: nat, start: nat, n: nat, i: nat): (k: Option<nat>)
    ensures k.Some? ==> i <= k.value < n && ans(attempt, Endpoint(start, k.value, n)).Result?
    ensures k.Some? ==> forall j | i <= j < k.value :: !ans(attempt, Endpoint(start, j, n)).Result?
    ensures k.None? ==> forall j | i <= j < n :: !ans(attempt, Endpoint(start, j, n)).Result?
    decreases n - i
  {
    if i >= n then None
    else if ans(attempt, Endpoint(start, i, n)).Result? then Some(i)
    else FirstHealthy(ans, attempt, start, n, i + 1)
  }

  /** The diagnostics after the first i endpoints of a pass. */
  function Noted(ans: Answers, attempt: nat, start: nat, urls: seq<string>, d: Diagnostics, i: nat): Diagnostics
    requires i <= |urls|
  {
    if i == 0 then d
    else
      var idx := Endpoint(start, i - 1, |urls|);
      Note(Noted(ans, attempt, start, urls, d, i - 1), urls[idx], ans(attempt, idx))
  }

  /** A pass starts with an empty failure list and no endpoint counted. */
  function Fresh(d: Diagnostics): Diagnostics {
    d.(rpcAnswered := 0, failures := [])
  }

  /** A full pass reaches every endpoint: here is the offset at which. */
  lemma OffsetOf(start: nat, n: nat, e: nat) returns (i: nat)
    requires e < n
    ensures i < n && Endpoint(start, i, n) == e
  {
    i := (e - start) % n;
    var q := (e - start) / n;
    assert e - start == n * q + i;
    assert start + i == n * (-q) + e;
    DivModUnique(start + i, n, -q, e);
  }

  lemma OffsetsDiffer(start: nat, i: nat, j: nat, n: nat)
    requires i < j < n
    ensures Endpoint(start, i, n) != Endpoint(start, j, n)
  {
    var a, b := (start + i) / n, (start + j) / n;
    assert start + i == n * a + Endpoint(start, i, n) && start + j == n * b + Endpoint(start, j, n);
    if a < b {
      AtLeastOnce(n, b, a);
    } else if b < a {
      AtLeastOnce(n, a, b);
    }
  }

  /** A pass tries no endpoint twice, and starts with the last good one. */
  lemma RotationIsPermutation(start: nat, n: nat)
    requires start < n
    ensures Endpoint(start, 0, n) == start
    ensures forall i, j | 0 <= i < j < n :: Endpoint(start, i, n) != Endpoint(start, j, n)
  {
    DivModUnique(start, n, 0, start);
    forall i, j | 0 <= i < j < n
      ensures Endpoint(start, i, n) != Endpoint(start, j, n)
    {
      OffsetsDiffer(start, i, j, n);
    }
  }

  // ---- A whole call ----

  /** delay * 2^k, the wait after the pass k + 1. */
  function Backoff(delay: nat, k: nat): nat {
    if k == 0 then delay else 2 * Backoff(delay, k - 1)
  }

  /** The pass a call ends in: the first with a healthy endpoint or with a protocol answer from all, or the last. */
  datatype Ending = Ending(attempt: nat, healthy: Option<nat>, allAnswered: bool, d: Diagnostics, slept: nat)

  /** From an attempt on; a call with no attempts left has made no pass. */
  function EndFrom(ans: Answers, start: nat, urls: seq<string>, delay: nat, attempts: int, attempt: nat, d: Diagnostics,
                   slept: nat): Ending
    requires attempt >= 1
    decreases attempts - attempt
  {
    if attempt > attempts then Ending(attempt - 1, None, false, d, slept)
    else
      var healthy := FirstHealthy(ans, attempt, start, |urls|, 0);
      if healthy.Some? then
        Ending(attempt, healthy, false, Noted(ans, attempt, start, urls, Fresh(d), healthy.value), slept)
      else
        var after := Noted(ans, attempt, start, urls, Fresh(d), |urls|);
        if after.rpcAnswered == |urls| then Ending(attempt, None, true, after, slept)
        else if attempt == attempts then Ending(attempt, None, false, after, slept)
        else EndFrom(ans, start, urls, delay, attempts, attempt + 1, after, slept + Backoff(delay, attempt - 1))
  }

  function NoDiagnostics(): Diagnostics {
    Diagnostics(0, [], None, None)
  }

  function Called(ans: Answers, start: nat, urls: seq<string>, delay: nat, attempts: int): Ending {
    EndFrom(ans, start, urls, delay, attempts, 1, NoDiagnostics(), 0)
  }

  function ReturnedBy(ans: Answers, start: nat, n: nat, e: Ending): Returned
    requires e.healthy.Some? ==> n > 0 && ans(e.attempt, Endpoint(start, e.healthy.value, n)).Result?
  {
    if e.healthy.Some? then Healthy(ans(e.attempt, Endpoint(start, e.healthy.value, n)).value) else Fallback(e.d.degraded)
  }

  class Connector {
    const urls: seq<string>
    var lastGoodIdx: nat
    var lastFailures: seq<string>
    var lastRpcError: Option<string>

    /** The sticky index names an endpoint. */
    ghost predicate Valid()
      reads this
    {
      urls != [] ==> lastGoodIdx < |urls|
    }

    constructor (endpoints: seq<string>)
      ensures Valid() && urls == endpoints && lastGoodIdx == 0
    {
      urls, lastGoodIdx, lastFailures, lastRpcError := endpoints, 0, [], None;
    }

    /** One pass: stops at the first healthy result and remembers its endpoint. */
    method EndpointPass(ans: Answers, attempt: nat, d0: Diagnostics) returns (result: Option<string>, d: Diagnostics)
      requires Valid()
      requires lastRpcError == d0.rpcError && lastFailures == d0.failures
      modifies this
      ensures Valid() && lastRpcError == d.rpcError && lastFailures == d.failures
      ensures
        var n := |urls|;
        match FirstHealthy(ans, attempt, old(lastGoodIdx), n, 0)
        case Some(k) =>
          && result == Some(ans(attempt, Endpoint(old(lastGoodIdx), k, n)).value)
          && lastGoodIdx == Endpoint(old(lastGoodIdx), k, n)
          && d == Noted(ans, attempt, old(lastGoodIdx), urls, d0, k)
        case None =>
          && result == None && lastGoodIdx == old(lastGoodIdx)
          && d == Noted(ans, attempt, old(lastGoodIdx), urls, d0, n)
    {
      d := d0;
      var i := 0;
      while i < |urls|
        invariant 0 <= i <= |urls|
        invariant lastGoodIdx == old(lastGoodIdx)
        invariant FirstHealthy(ans, attempt, lastGoodIdx, |urls|, i) == FirstHealthy(ans, attempt, lastGoodIdx, |urls|, 0)
        invariant d == Noted(ans, attempt, lastGoodIdx, urls, d0, i)
        invariant lastRpcError == d.rpcError && lastFailures == d.failures
      {
        var idx := (lastGoodIdx + i) % |urls|;
        var answer := ans(attempt, idx);
        if answer.Result? {
          lastGoodIdx := idx;
          return Some(answer.value), d;
        }
        d := Note(d, urls[idx], answer);
        lastRpcError, lastFailures := d.rpcError, d.failures;
        i := i + 1;
      }
      return None, d;
    }

    /** The call: passes, backoff between them, and the fallback at the end. */
    method Call(ans: Answers, attempts: int, delay: nat)
      returns (result: Returned, allEndpointsAnswered: bool, slept: nat)
      requires Valid()
      modifies this
      ensures Valid()
      ensures
        var e := Called(ans, old(lastGoodIdx), urls, delay, attempts);
        && (e.healthy.Some? ==> urls != [] && ans(e.attempt, Endpoint(old(lastGoodIdx), e.healthy.value, |urls|)).Result?)
        && result == ReturnedBy(ans, old(lastGoodIdx), |urls|, e)
        && allEndpointsAnswered == e.allAnswered && slept == e.slept
        && lastGoodIdx == (if e.healthy.Some? then Endpoint(old(lastGoodIdx), e.healthy.value, |urls|) else old(lastGoodIdx))
        && lastRpcError == e.d.rpcError
        && (attempts >= 1 ==> lastFailures == e.d.failures)
    {
      ghost var start := lastGoodIdx;
      ghost var whole := Called(ans, start, urls, delay, attempts);
      var d := NoDiagnostics();
      lastRpcError := None;
      slept := 0;
      var attempt: nat := 1;
      while attempt <= attempts
        invariant attempt >= 1 && Valid() && lastGoodIdx == start
        invariant EndFrom(ans, start, urls, delay, attempts, attempt, d, slept) == whole
        invariant lastRpcError == d.rpcError
        invariant attempt == 1 || lastFailures == d.failures
        decreases attempts - attempt
      {
        lastFailures := [];
        var answered;
        answered, d := EndpointPass(ans, attempt, Fresh(d));
        if answered.Some? {
          return Healthy(answered.value), false, slept;
        }
        if d.rpcAnswered == |urls| {
          return Fallback(d.degraded), true, slept;
        }
        if attempt == attempts {
          return Fallback(d.degraded), false, slept;
        }
        slept := slept + Backoff(delay, attempt - 1);
        attempt := attempt + 1;
      }
      return Fallback(d.degraded), false, slept;
    }
  }

  // ---- Laws of a call ----

  /** A pass that ends nothing: no result, and not every endpoint answered at the protocol level. */
  ghost predicate PassFails(ans: Answers, attempt: nat, n: nat) {
    && (forall e | 0 <= e < n :: !ans(attempt, e).Result?)
    && (exists e | 0 <= e < n :: !ans(attempt, e).RpcError?)
  }

  /** Endpoints among the first i of a pass that answered with an RPC error. */
  ghost predicate AllRpc(ans: Answers, attempt: nat, start: nat, n: nat, i: nat)
    requires n > 0
  {
    forall j | 0 <= j < i :: ans(attempt, Endpoint(start, j, n)).RpcError?
  }

  lemma {:induction false} RpcCount(ans: Answers, attempt: nat, start: nat, urls: seq<string>, d: Diagnostics, i: nat)
    requires i <= |urls| && urls != []
    ensures Noted(ans, attempt, start, urls, Fresh(d), i).rpcAnswered <= i
    ensures Noted(ans, attempt, start, urls, Fresh(d), i).rpcAnswered == i <==> AllRpc(ans, attempt, start, |urls|, i)
  {
    if i == 0 {
    } else {
      RpcCount(ans, attempt, start, urls, d, i - 1);
    }
  }

  lemma HealthyExactly(ans: Answers, attempt: nat, start: nat, n: nat)
    requires n > 0
    ensures FirstHealthy(ans, attempt, start, n, 0).Some? <==> exists e | 0 <= e < n :: ans(attempt, e).Result?
  {
    if e :| 0 <= e < n && ans(attempt, e).Result? {
      var i := OffsetOf(start, n, e);
    }
  }

  lemma AllRpcExactly(ans: Answers, attempt: nat, start: nat, n: nat)
    requires n > 0
    ensures AllRpc(ans, attempt, start, n, n) <==> forall e | 0 <= e < n :: ans(attempt, e).RpcError?
  {
    if e :| 0 <= e < n && !ans(attempt, e).RpcError? {
      var i := OffsetOf(start, n, e);
    }
  }

  /** In terms of endpoints, not offsets: when a pass is the call's last. */
  lemma PassExactly(ans: Answers, attempt: nat, start: nat, urls: seq<string>, d: Diagnostics)
    requires urls != []
    ensures FirstHealthy(ans, attempt, start, |urls|, 0).Some? <==> exists e | 0 <= e < |urls| :: ans(attempt, e).Result?
    ensures Noted(ans, attempt, start, urls, Fresh(d), |urls|).rpcAnswered == |urls| <==>
            forall e | 0 <= e < |urls| :: ans(attempt, e).RpcError?
  {
    HealthyExactly(ans, attempt, start, |urls|);
    RpcCount(ans, attempt, start, urls, d, |urls|);
    AllRpcExactly(ans, attempt, start, |urls|);
  }

  lemma FailedPassGoesOn(ans: Answers, start: nat, urls: seq<string>, delay: nat, attempts: int, attempt: nat,
                         d: Diagnostics, slept: nat)
    requires urls != [] && 1 <= attempt < attempts && PassFails(ans, attempt, |urls|)
    ensures EndFrom(ans, start, urls, delay, attempts, attempt, d, slept) ==
            EndFrom(ans, start, urls, delay, attempts, attempt + 1, Noted(ans, attempt, start, urls, Fresh(d), |urls|),
                    slept + Backoff(delay, attempt - 1))
  {
    PassExactly(ans, attempt, start, urls, d);
  }

  /** What a call has become when its pass `e.attempt` was its last. */
  ghost predicate EndsIn(ans: Answers, start: nat, n: nat, last: nat, e: Ending)
    requires n > 0
  {
    && e.attempt == last
    && (e.healthy.Some? <==> exists x | 0 <= x < n :: ans(last, x).Result?)
    && (e.healthy.Some? ==> e.healthy == FirstHealthy(ans, last, start, n, 0))
    && (e.allAnswered <==> forall x | 0 <= x < n :: ans(last, x).RpcError?)
  }

  lemma LastPassEnds(ans: Answers, start: nat, urls: seq<string>, delay: nat, attempts: int, attempt: nat,
                     d: Diagnostics, slept: nat)
    requires urls != [] && 1 <= attempt <= attempts
    requires attempt == attempts || !PassFails(ans, attempt, |urls|)
    ensures EndsIn(ans, start, |urls|, attempt, EndFrom(ans, start, urls, delay, attempts, attempt, d, slept))
    ensures EndFrom(ans, start, urls, delay, attempts, attempt, d, slept).slept == slept
  {
    PassExactly(ans, attempt, start, urls, d);
    assert ans(attempt, 0).RpcError? ==> !ans(attempt, 0).Result?;
  }

  lemma {:induction false} EndAfterFailures(ans: Answers, start: nat, urls: seq<string>, delay: nat, attempts: int,
                                            attempt: nat, d: Diagnostics, slept: nat, last: nat)
    requires urls != [] && 1 <= attempt <= last <= attempts
    requires forall a | attempt <= a < last :: PassFails(ans, a, |urls|)
    requires last == attempts || !PassFails(ans, last, |urls|)
    ensures EndsIn(ans, start, |urls|, last, EndFrom(ans, start, urls, delay, attempts, attempt, d, slept))
    ensures EndFrom(ans, start, urls, delay, attempts, attempt, d, slept).slept + Backoff(delay, attempt - 1)
         == slept + Backoff(delay, last - 1)
    decreases last - attempt
  {
    if attempt < last {
      FailedPassGoesOn(ans, start, urls, delay, attempts, attempt, d, slept);
      var after := Noted(ans, attempt, start, urls, Fresh(d), |urls|);
      EndAfterFailures(ans, start, urls, delay, attempts, attempt + 1, after, slept + Backoff(delay, attempt - 1), last);
    } else {
      LastPassEnds(ans, start, urls, delay, attempts, attempt, d, slept);
    }
  }

  lemma {:induction false} BackoffIsPower(delay: nat, k: nat)
    ensures Backoff(delay, k) == delay * Pow2(k)
  {
    if k == 0 {
    } else {
      BackoffIsPower(delay, k - 1);
      assert 2 * (delay * Pow2(k - 1)) == delay * (2 * Pow2(k - 1));
    }
  }

  /**
   The call ends in the first pass that does not fail, or in the last; it returns that pass's
   first result from the sticky endpoint on, if there is one; and it has slept
   delay * (2^(last - 1) - 1) in all.
   */
  lemma CallEndsWhere(ans: Answers, start: nat, urls: seq<string>, delay: nat, attempts: int, last: nat)
    requires urls != [] && 1 <= last <= attempts
    requires forall a | 1 <= a < last :: PassFails(ans, a, |urls|)
    requires last == attempts || !PassFails(ans, last, |urls|)
    ensures EndsIn(ans, start, |urls|, last, Called(ans, start, urls, delay, attempts))
    ensures Called(ans, start, urls, delay, attempts).slept == delay * Pow2(last - 1) - delay
  {
    EndAfterFailures(ans, start, urls, delay, attempts, 1, NoDiagnostics(), 0, last);
    BackoffIsPower(delay, last - 1);
  }

  /** With no endpoint at all, the first pass counts as one that every endpoint answered. */
  lemma NoEndpointsCountAsAnswered(ans: Answers, start: nat, delay: nat, attempts: int)
    requires attempts >= 1
    ensures Called(ans, start, [], delay, attempts) == Ending(1, None, true, NoDiagnostics(), 0)
  {
  }

  lemma {:induction false} NotedDegraded(ans: Answers, attempt: nat, start: nat, urls: seq<string>, d: Diagnostics, i: nat)
    requires i <= |urls| && urls != []
    ensures Noted(ans, attempt, start, urls, d, i).degraded.Some? <==>
            d.degraded.Some? || exists j | 0 <= j < i :: ans(attempt, Endpoint(start, j, |urls|)).Degraded?
  {
    if i == 0 {
    } else {
      NotedDegraded(ans, attempt, start, urls, d, i - 1);
    }
  }

  /** A full pass remembers a degraded body exactly when an endpoint gave one, or an earlier pass had. */
  lemma PassDegraded(ans: Answers, attempt: nat, start: nat, urls: seq<string>, d: Diagnostics)
    requires urls != []
    ensures Noted(ans, attempt, start, urls, Fresh(d), |urls|).degraded.Some? <==>
            d.degraded.Some? || exists e | 0 <= e < |urls| :: ans(attempt, e).Degraded?
  {
    NotedDegraded(ans, attempt, start, urls, Fresh(d), |urls|);
    if e :| 0 <= e < |urls| && ans(attempt, e).Degraded? {
      var i := OffsetOf(start, |urls|, e);
    }
  }

  /**
   When every pass fails, the call returns a degraded body exactly when some endpoint gave one in
   some pass, and null otherwise.
   */
  lemma {:induction false} FallbackExactly(ans: Answers, start: nat, urls: seq<string>, delay: nat, attempts: int,
                                           attempt: nat, d: Diagnostics, slept: nat)
    requires urls != [] && 1 <= attempt <= attempts
    requires forall a | attempt <= a <= attempts :: PassFails(ans, a, |urls|)
    ensures
      var e := EndFrom(ans, start, urls, delay, attempts, attempt, d, slept);
      && e.healthy.None?
      && (e.d.degraded.Some? <==>
          d.degraded.Some? || exists a, x | attempt <= a <= attempts && 0 <= x < |urls| :: ans(a, x).Degraded?)
    decreases attempts - attempt
  {
    assert PassFails(ans, attempt, |urls|);
    PassExactly(ans, attempt, start, urls, d);
    PassDegraded(ans, attempt, start, urls, d);
    if attempt < attempts {
      var after := Noted(ans, attempt, start, urls, Fresh(d), |urls|);
      FailedPassGoesOn(ans, start, urls, delay, attempts, attempt, d, slept);
      FallbackExactly(ans, start, urls, delay, attempts, attempt + 1, after, slept + Backoff(delay, attempt - 1));
    }
  }

  /** What an answer adds to the failures of its pass. */
  ghost function Complaint(url: string, a: Answer): seq<string> {
    match a
    case RpcError(detail) => [url + " -> rpc " + detail]
    case Unreachable(reason) => [url + " -> " + reason]
    case _ => []
  }

  /** The complaints of the first i endpoints along the rotation, in its order. */
  ghost function Complaints(ans: Answers, attempt: nat, start: nat, urls: seq<string>, i: nat): seq<string>
    requires i <= |urls|
  {
    if i == 0 then []
    else
      var idx := (start + i - 1) % |urls|;
      Complaints(ans, attempt, start, urls, i - 1) + Complaint(urls[idx], ans(attempt, idx))
  }

  lemma {:induction false} NotedComplaints(ans: Answers, attempt: nat, start: nat, urls: seq<string>, d: Diagnostics, i: nat)
    requires i <= |urls|
    ensures Noted(ans, attempt, start, urls, Fresh(d), i).failures == Complaints(ans, attempt, start, urls, i)
  {
    if i == 0 {
    } else {
      NotedComplaints(ans, attempt, start, urls, d, i - 1);
    }
  }

  /** A call leaves the complaints of its last pass: of all endpoints, or of those before the healthy one. */
  lemma {:induction false} FailuresAreTheLastPass(ans: Answers, start: nat, urls: seq<string>, delay: nat, attempts: int,
                                                  attempt: nat, d: Diagnostics, slept: nat)
    requires 1 <= attempt <= attempts
    ensures
      var e := EndFrom(ans, start, urls, delay, attempts, attempt, d, slept);
      var tried := if e.healthy.Some? then e.healthy.value else |urls|;
      tried <= |urls| && e.d.failures == Complaints(ans, e.attempt, start, urls, tried)
    decreases attempts - attempt
  {
    var healthy := FirstHealthy(ans, attempt, start, |urls|, 0);
    if healthy.Some? {
      NotedComplaints(ans, attempt, start, urls, d, healthy.value);
    } else {
      NotedComplaints(ans, attempt, start, urls, d, |urls|);
      var after := Noted(ans, attempt, start, urls, Fresh(d), |urls|);
      if after.rpcAnswered != |urls| && attempt < attempts {
        FailuresAreTheLastPass(ans, start, urls, delay, attempts, attempt + 1, after, slept + Backoff(delay, attempt - 1));
      }
    }
  }

  /** A call with no attempt to make asks no endpoint: nothing comes back, and nothing counts as answered. */
  lemma NoAttempts(ans: Answers, start: nat, urls: seq<string>, delay: nat, attempts: int)
    requires attempts < 1
    ensures
      var e := Called(ans, start, urls, delay, attempts);
      e.healthy == None && !e.allAnswered && e.slept == 0 && e.d == Diagnostics(0, [], None, None)
  {
  }

  /**
   However a call without a healthy result ends, its body is a degraded one exactly when some
   endpoint gave one in a pass that was made: in its last pass too, even one that all refuse.
   */
  lemma {:induction false} DegradedExactly(ans: Answers, start: nat, urls: seq<string>, delay: nat, attempts: int,
                                           attempt: nat, d: Diagnostics, slept: nat)
    requires urls != [] && 1 <= attempt <= attempts
    ensures
      var e := EndFrom(ans, start, urls, delay, attempts, attempt, d, slept);
      && attempt <= e.attempt <= attempts
      && (e.healthy.None? ==>
            (e.d.degraded.Some? <==>
             d.degraded.Some? || exists a, x | attempt <= a <= e.attempt && 0 <= x < |urls| :: ans(a, x).Degraded?))
    decreases attempts - attempt
  {
    PassExactly(ans, attempt, start, urls, d);
    PassDegraded(ans, attempt, start, urls, d);
    var after := Noted(ans, attempt, start, urls, Fresh(d), |urls|);
    if FirstHealthy(ans, attempt, start, |urls|, 0).None? && after.rpcAnswered != |urls| && attempt < attempts {
      DegradedExactly(ans, start, urls, delay, attempts, attempt + 1, after, slept + Backoff(delay, attempt - 1));
    }
  }

  lemma {:induction false} NotedLatest(ans: Answers, attempt: nat, start: nat, urls: seq<string>, d: Diagnostics, j: nat,
                                       i: nat)
    requires j < i <= |urls| && ans(attempt, Endpoint(start, j, |urls|)).Degraded?
    requires forall k | j < k < i :: !ans(attempt, Endpoint(start, k, |urls|)).Degraded?
    ensures Noted(ans, attempt, start, urls, d, i).degraded == Some(ans(attempt, Endpoint(start, j, |urls|)).body)
  {
    if i == j + 1 {
    } else {
      NotedLatest(ans, attempt, start, urls, d, j, i - 1);
    }
  }

  lemma {:induction false} NotedKeeps(ans: Answers, attempt: nat, start: nat, urls: seq<string>, d: Diagnostics, i: nat)
    requires i <= |urls| && forall x | 0 <= x < |urls| :: !ans(attempt, x).Degraded?
    ensures Noted(ans, attempt, start, urls, d, i).degraded == d.degraded
  {
    if i == 0 {
    } else {
      NotedKeeps(ans, attempt, start, urls, d, i - 1);
    }
  }

  /** No degraded body from a pass on: the one remembered before stays. */
  lemma {:induction false} DegradedKept(ans: Answers, start: nat, urls: seq<string>, delay: nat, attempts: int,
                                        attempt: nat, d: Diagnostics, slept: nat)
    requires urls != [] && 1 <= attempt <= attempts
    requires EndFrom(ans, start, urls, delay, attempts, attempt, d, slept).healthy.None?
    requires forall a, x | a >= attempt && 0 <= x < |urls| :: !ans(a, x).Degraded?
    ensures EndFrom(ans, start, urls, delay, attempts, attempt, d, slept).d.degraded == d.degraded
    decreases attempts - attempt
  {
    NotedKeeps(ans, attempt, start, urls, Fresh(d), |urls|);
    var after := Noted(ans, attempt, start, urls, Fresh(d), |urls|);
    if after.rpcAnswered != |urls| && attempt < attempts {
      DegradedKept(ans, start, urls, delay, attempts, attempt + 1, after, slept + Backoff(delay, attempt - 1));
    }
  }

  /** It is the latest one: of the last pass with any, the one furthest along the rotation. */
  lemma {:induction false} LatestDegradedWins(ans: Answers, start: nat, urls: seq<string>, delay: nat, attempts: int,
                                              attempt: nat, d: Diagnostics, slept: nat, last: nat, j: nat)
    requires urls != [] && 1 <= attempt <= last <= attempts && j < |urls|
    requires EndFrom(ans, start, urls, delay, attempts, attempt, d, slept).healthy.None?
    requires last <= EndFrom(ans, start, urls, delay, attempts, attempt, d, slept).attempt
    requires ans(last, Endpoint(start, j, |urls|)).Degraded?
    requires forall k | j < k < |urls| :: !ans(last, Endpoint(start, k, |urls|)).Degraded?
    requires forall a, x | a > last && 0 <= x < |urls| :: !ans(a, x).Degraded?
    ensures EndFrom(ans, start, urls, delay, attempts, attempt, d, slept).d.degraded ==
            Some(ans(last, Endpoint(start, j, |urls|)).body)
    decreases attempts - attempt
  {
    var after := Noted(ans, attempt, start, urls, Fresh(d), |urls|);
    if attempt == last {
      NotedLatest(ans, attempt, start, urls, Fresh(d), j, |urls|);
      if after.rpcAnswered != |urls| && attempt < attempts {
        DegradedKept(ans, start, urls, delay, attempts, attempt + 1, after, slept + Backoff(delay, attempt - 1));
      }
    } else {
      LatestDegradedWins(ans, start, urls, delay, attempts, attempt + 1, after, slept + Backoff(delay, attempt - 1), last, j);
    }
  }
}
