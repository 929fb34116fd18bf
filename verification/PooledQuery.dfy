/**
 Running one query on a pooled connection under a wall-clock deadline.

 `Wait` is one race between a piece of work and its timer. `Call` is one query call as a machine
 over events: whatever the pool, the query, the timers and the event loop do next. A step is
 enabled in any order the runtime could deliver it, so a run is any interleaving.
 */
module PooledQuery {
  import opened Wrappers

  type Conn = nat

  // ---- The race between work and timer ----

  datatype Outcome<+T> = Waiting | Resolved(value: T) | Rejected(deadline: bool)

  /** How many times the promise was settled is counted, not assumed. */
  datatype Wait<T> = Wait(outcome: Outcome<T>, timerFired: bool, workDone: bool, settlements: nat)

  function NewWait<T>(): Wait<T> {
    Wait(Waiting, false, false, 0)
  }

  function Settle<T>(w: Wait<T>, o: Outcome<T>): Wait<T> {
    w.(outcome := o, settlements := w.settlements + 1)
  }

  function OnTimer<T>(w: Wait<T>): Wait<T> {
    if w.outcome.Waiting? then Settle(w.(timerFired := true), Rejected(true)) else w.(timerFired := true)
  }

  function OnResolve<T>(w: Wait<T>, v: T): Wait<T> {
    if w.outcome.Waiting? then Settle(w.(workDone := true), Resolved(v)) else w.(workDone := true)
  }

  function OnReject<T>(w: Wait<T>): Wait<T> {
    if w.outcome.Waiting? then Settle(w.(workDone := true), Rejected(false)) else w.(workDone := true)
  }

  /** Settled exactly once, as soon as either side has acted, and by the side that acted first. */
  ghost predicate WaitOk<T>(w: Wait<T>) {
    && (w.outcome.Waiting? <==> !w.timerFired && !w.workDone)
    && w.settlements == (if w.outcome.Waiting? then 0 else 1)
    && (w.outcome.Resolved? ==> w.workDone)
    && (w.outcome == Rejected(false) ==> w.workDone)
    && (w.outcome == Rejected(true) ==> w.timerFired)
  }

  lemma WaitKept<T>(w: Wait<T>, v: T)
    requires WaitOk(w)
    ensures WaitOk(OnTimer(w)) && WaitOk(OnReject(w)) && WaitOk(OnResolve(w, v))
    ensures !w.outcome.Waiting? ==> w.outcome == OnTimer(w).outcome == OnReject(w).outcome == OnResolve(w, v).outcome
  {
  }

  /** The closure itself: its flag, its timer handle, and the promise it settles. */
  class DeadlineRace<T> {
    var settled: bool
    var timerArmed: bool
    var outcome: Outcome<T>
    ghost var history: Wait<T>

    ghost predicate Valid()
      reads this
    {
      && WaitOk(history)
      && outcome == history.outcome
      && settled == !outcome.Waiting?
      && (timerArmed ==> !history.timerFired && !settled)
    }

    constructor ()
      ensures Valid() && history == NewWait() && timerArmed
    {
      settled, timerArmed, outcome := false, true, Waiting;
      history := NewWait();
    }

    /** Returns whether the timeout hook runs: only when this is what settles the promise. */
    method Timer() returns (hook: bool)
      requires Valid()
      modifies this
      ensures Valid() && history == OnTimer(old(history)) && hook == old(outcome).Waiting?
    {
      timerArmed := false;
      history := OnTimer(history);
      if settled {
        return false;
      }
      settled := true;
      outcome := Rejected(true);
      return true;
    }

    /** Returns whether the late hook runs: only when the promise had been settled before. */
    method WorkResolved(v: T) returns (late: bool)
      requires Valid()
      modifies this
      ensures Valid() && history == OnResolve(old(history), v) && late == !old(outcome).Waiting?
      ensures !timerArmed
    {
      history := OnResolve(history, v);
      if settled {
        timerArmed := false;
        return true;
      }
      settled := true;
      timerArmed := false;
      outcome := Resolved(v);
      return false;
    }

    method WorkRejected()
      requires Valid()
      modifies this
      ensures Valid() && history == OnReject(old(history)) && !timerArmed
    {
      history := OnReject(history);
      if settled {
        timerArmed := false;
        return;
      }
      settled := true;
      timerArmed := false;
      outcome := Rejected(false);
    }
  }

  // ---- One call ----

  const MAX_RETRIES: nat := 3

  datatype Phase = Acquiring | Sleeping | Querying | Succeeded | Failed

  /**
   `waits` holds one race per connection request, the last one current. `handed` collects every
   connection the pool ever gave this call, `released` and `destroyed` every end it made of one.
   */
  datatype Call = Call(
    phase: Phase, retryCount: nat, waits: seq<Wait<Conn>>, db: Option<Conn>, query: Wait<()>, discard: bool,
    handed: set<Conn>, released: multiset<Conn>, destroyed: multiset<Conn>)

  datatype Event =
    | PoolAnswers(attempt: nat, conn: Conn)
    | PoolRejects(attempt: nat)
    | AcquireTimer(attempt: nat)
    | ResumeAcquire
    | Wake
    | QueryAnswers
    | QueryRejects
    | QueryTimer
    | ResumeQuery

  function Start(): Call {
    Call(Acquiring, 0, [NewWait()], None, NewWait(), false, {}, multiset{}, multiset{})
  }

  /** The race of the current connection request. */
  function Current(s: Call): Wait<Conn>
    requires s.waits != []
  {
    s.waits[|s.waits| - 1]
  }

  /** A pool promise answers once, with a connection not handed out to this call before. */
  predicate Enabled(s: Call, e: Event) {
    match e
    case PoolAnswers(i, c) => i < |s.waits| && !s.waits[i].workDone && c !in s.handed
    case PoolRejects(i) => i < |s.waits| && !s.waits[i].workDone
    case AcquireTimer(i) => i < |s.waits| && !s.waits[i].timerFired
    case ResumeAcquire => s.phase.Acquiring? && s.waits != [] && !Current(s).outcome.Waiting?
    case Wake => s.phase.Sleeping?
    case QueryAnswers => s.db.Some? && !s.query.workDone
    case QueryRejects => s.db.Some? && !s.query.workDone
    case QueryTimer => s.db.Some? && !s.query.timerFired
    case ResumeQuery => s.phase.Querying? && s.db.Some? && !s.query.outcome.Waiting?
  }

  function Step(s: Call, e: Event): Call
    requires Enabled(s, e)
  {
    match e
    case PoolAnswers(i, c) =>
      var late := !s.waits[i].outcome.Waiting?;
      s.(waits := s.waits[i := OnResolve(s.waits[i], c)], handed := s.handed + {c},
         destroyed := if late then s.destroyed + multiset{c} else s.destroyed)
    case PoolRejects(i) =>
      s.(waits := s.waits[i := OnReject(s.waits[i])])
    case AcquireTimer(i) =>
      s.(waits := s.waits[i := OnTimer(s.waits[i])])
    case ResumeAcquire =>
      (match Current(s).outcome
       case Resolved(c) => s.(phase := Querying, db := Some(c), query := NewWait())
       case Rejected(deadline) =>
         if deadline then s.(phase := Failed)
         else if s.retryCount <= MAX_RETRIES then s.(phase := Sleeping, retryCount := s.retryCount + 1)
         else s.(phase := Failed))
    case Wake =>
      s.(phase := Acquiring, waits := s.waits + [NewWait()])
    case QueryAnswers =>
      s.(query := OnResolve(s.query, ()))
    case QueryRejects =>
      s.(query := OnReject(s.query))
    case QueryTimer =>
      if s.query.outcome.Waiting? then
        s.(query := OnTimer(s.query), discard := true, destroyed := s.destroyed + multiset{s.db.value})
      else s.(query := OnTimer(s.query))
    case ResumeQuery =>
      s.(phase := if s.query.outcome.Resolved? then Succeeded else Failed,
         released := if s.discard then s.released else s.released + multiset{s.db.value})
  }

  /** The states of a run, or None when some event in it could not have happened. */
  function Run(s: Call, events: seq<Event>): Option<Call> {
    if events == [] then Some(s)
    else
      match Run(s, events[..|events| - 1])
      case None => None
      case Some(t) => if Enabled(t, events[|events| - 1]) then Some(Step(t, events[|events| - 1])) else None
  }

  // ---- What every run keeps ----

  /** The connections the call still has to give back. */
  ghost function Live(s: Call): set<Conn> {
    if s.phase.Acquiring? && s.waits != [] && Current(s).outcome.Resolved? then {Current(s).outcome.value}
    else if s.phase.Querying? && s.db.Some? && !s.discard then {s.db.value}
    else {}
  }

  ghost predicate Ended(s: Call) {
    s.phase.Succeeded? || s.phase.Failed?
  }

  /** The connection an ended call queried on, unless its query was cut off. */
  ghost predicate GivesBack(s: Call, c: Conn) {
    Ended(s) && s.db == Some(c) && !s.discard
  }

  /** Every handed connection is live with no end so far, or has exactly one end: released or destroyed. */
  ghost predicate Conserved(s: Call) {
    && Live(s) <= s.handed
    && (forall c: Conn :: s.released[c] == if GivesBack(s, c) then 1 else 0)
    && forall c: Conn :: s.released[c] + s.destroyed[c] == if c in s.handed - Live(s) then 1 else 0
  }

  /** Earlier requests were turned down by the pool; a call that moved on has its connection. */
  ghost predicate Control(s: Call) {
    && 1 <= |s.waits| == s.retryCount + (if s.phase.Sleeping? then 0 else 1)
    && s.retryCount <= MAX_RETRIES + 1
    && (forall i | 0 <= i < |s.waits| :: WaitOk(s.waits[i]))
    && (forall i | 0 <= i < |s.waits| - 1 :: s.waits[i].outcome == Rejected(false))
    && (s.phase.Sleeping? ==> Current(s).outcome == Rejected(false))
    && (!s.phase.Acquiring? ==> !Current(s).outcome.Waiting?)
    && WaitOk(s.query)
    && (s.db.Some? <==> s.phase.Querying? || (!s.phase.Acquiring? && !s.phase.Sleeping? && Current(s).outcome.Resolved?))
    && (s.db.Some? ==> Current(s).outcome == Resolved(s.db.value))
    && (s.discard <==> s.db.Some? && s.query.outcome == Rejected(true))
    && (s.phase.Succeeded? ==> s.db.Some? && s.query.outcome.Resolved?)
    && (s.db.Some? && s.phase.Failed? ==> s.query.outcome.Rejected?)
  }

  ghost predicate Inv(s: Call) {
    Control(s) && Conserved(s)
  }

  lemma StartInv()
    ensures Inv(Start())
  {
  }

  lemma WaitsControl(s: Call, e: Event)
    requires Control(s) && Enabled(s, e) && (e.PoolAnswers? || e.PoolRejects? || e.AcquireTimer?)
    ensures Control(Step(s, e))
  {
    var w := s.waits[e.attempt];
    assert e.attempt < |s.waits| - 1 ==> w.outcome == Rejected(false);
  }

  lemma OwnStepControl(s: Call, e: Event)
    requires Control(s) && Enabled(s, e) && !(e.PoolAnswers? || e.PoolRejects? || e.AcquireTimer?)
    ensures Control(Step(s, e))
  {
  }

  lemma StepControl(s: Call, e: Event)
    requires Control(s) && Enabled(s, e)
    ensures Control(Step(s, e))
  {
    if e.PoolAnswers? || e.PoolRejects? || e.AcquireTimer? {
      WaitsControl(s, e);
    } else {
      OwnStepControl(s, e);
    }
  }

  lemma AnswerConserves(s: Call, i: nat, c: Conn)
    requires Control(s) && Conserved(s) && Enabled(s, PoolAnswers(i, c))
    ensures Conserved(Step(s, PoolAnswers(i, c)))
  {
    var w := s.waits[i];
    assert i < |s.waits| - 1 ==> w.outcome == Rejected(false);
  }

  lemma WaitsConserve(s: Call, e: Event)
    requires Control(s) && Conserved(s) && Enabled(s, e) && (e.PoolRejects? || e.AcquireTimer?)
    ensures Conserved(Step(s, e))
  {
    var w := s.waits[e.attempt];
    assert e.attempt < |s.waits| - 1 ==> w.outcome == Rejected(false);
  }

  lemma ResumeQueryConserves(s: Call)
    requires Control(s) && Conserved(s) && Enabled(s, ResumeQuery)
    ensures Conserved(Step(s, ResumeQuery))
  {
  }

  lemma OwnStepConserves(s: Call, e: Event)
    requires Control(s) && Conserved(s) && Enabled(s, e) && !e.ResumeQuery?
    requires !(e.PoolAnswers? || e.PoolRejects? || e.AcquireTimer?)
    ensures Conserved(Step(s, e))
  {
  }

  lemma StepConserves(s: Call, e: Event)
    requires Control(s) && Conserved(s) && Enabled(s, e)
    ensures Conserved(Step(s, e))
  {
    if e.PoolAnswers? {
      AnswerConserves(s, e.attempt, e.conn);
    } else if e.PoolRejects? || e.AcquireTimer? {
      WaitsConserve(s, e);
    } else if e.ResumeQuery? {
      ResumeQueryConserves(s);
    } else {
      OwnStepConserves(s, e);
    }
  }

  /** Every state of every run keeps the invariant. */
  lemma {:induction false} RunInv(events: seq<Event>)
    requires Run(Start(), events).Some?
    ensures Inv(Run(Start(), events).value)
  {
    if events == [] {
      StartInv();
    } else {
      var before := events[..|events| - 1];
      RunInv(before);
      StepControl(Run(Start(), before).value, events[|events| - 1]);
      StepConserves(Run(Start(), before).value, events[|events| - 1]);
    }
  }

  /**
   Once a call has ended, every connection the pool ever hands it, before or after, is released
   or destroyed exactly once; only a call whose query was not cut off releases, and then only the
   connection it queried on.
   */
  lemma NoConnectionLeaks(events: seq<Event>, c: Conn)
    requires Run(Start(), events).Some?
    requires Ended(Run(Start(), events).value)
    ensures
      var s := Run(Start(), events).value;
      && s.released[c] + s.destroyed[c] == (if c in s.handed then 1 else 0)
      && (s.released[c] > 0 <==> s.db == Some(c) && !s.discard)
      && (s.discard <==> s.db.Some? && s.query.outcome == Rejected(true))
  {
    RunInv(events);
  }

  /** Every race of every run is settled at most once, and exactly once as soon as a side has acted. */
  lemma EveryWaitSettlesOnce(events: seq<Event>, i: nat)
    requires Run(Start(), events).Some? && i < |Run(Start(), events).value.waits|
    ensures
      var w := Run(Start(), events).value.waits[i];
      w.settlements == if w.timerFired || w.workDone then 1 else 0
    ensures
      var q := Run(Start(), events).value.query;
      q.settlements == if q.timerFired || q.workDone then 1 else 0
  {
    RunInv(events);
  }

  /** A connection is asked for at most five times. */
  lemma AtMostFiveAttempts(events: seq<Event>)
    requires Run(Start(), events).Some?
    ensures |Run(Start(), events).value.waits| <= 5
  {
    RunInv(events);
  }

  /** The request is cut off by the deadline, or is the fifth that the pool turned down. */
  ghost predicate OutOfRequests(s: Call)
    requires s.waits != []
  {
    Current(s).outcome == Rejected(true) || (|s.waits| == 5 && Current(s).outcome == Rejected(false))
  }

  /** Answering the current request, in any reachable state: it goes on to the query, to sleep, or fails. */
  lemma AcquireExactly(events: seq<Event>)
    requires Run(Start(), events).Some? && Enabled(Run(Start(), events).value, ResumeAcquire)
    ensures
      var s := Run(Start(), events).value;
      var t := Step(s, ResumeAcquire);
      && (t.phase.Failed? <==> OutOfRequests(s))
      && (t.phase.Sleeping? <==> |s.waits| < 5 && Current(s).outcome == Rejected(false))
      && (t.phase.Querying? <==> Current(s).outcome.Resolved?)
      && (t.phase.Querying? ==> t.db == Some(Current(s).outcome.value) && t.query == NewWait())
  {
    RunInv(events);
  }

  ghost predicate FailedRightly(s: Call) {
    s.waits != [] && (s.phase.Failed? && s.db.None? ==> OutOfRequests(s))
  }

  lemma StepFailsRightly(s: Call, e: Event)
    requires Control(s) && FailedRightly(s) && Enabled(s, e)
    ensures FailedRightly(Step(s, e))
  {
    StepControl(s, e);
    if e.PoolAnswers? || e.PoolRejects? || e.AcquireTimer? {
      var w := s.waits[e.attempt];
    }
  }

  lemma {:induction false} RunFailsRightly(events: seq<Event>)
    requires Run(Start(), events).Some?
    ensures FailedRightly(Run(Start(), events).value)
  {
    if events == [] {
    } else {
      var before := events[..|events| - 1];
      RunFailsRightly(before);
      RunInv(before);
      StepFailsRightly(Run(Start(), before).value, events[|events| - 1]);
    }
  }

  /**
   How a call ends: with a result exactly when its query answered before the deadline, without a
   connection exactly on the deadline or on the fifth rejection.
   */
  lemma EndsExactly(events: seq<Event>)
    requires Run(Start(), events).Some? && Ended(Run(Start(), events).value)
    ensures
      var s := Run(Start(), events).value;
      && s.waits != []
      && (s.phase.Succeeded? <==> s.db.Some? && s.query.outcome.Resolved?)
      && (s.db.None? <==> OutOfRequests(s))
  {
    RunInv(events);
    RunFailsRightly(events);
  }

  /** A call that has not ended always has a next step: its own, or the current timer's. */
  lemma NeverStuck(s: Call)
    requires Control(s) && !Ended(s)
    ensures
      || Enabled(s, ResumeAcquire) || Enabled(s, Wake) || Enabled(s, ResumeQuery)
      || Enabled(s, AcquireTimer(|s.waits| - 1)) || Enabled(s, QueryTimer)
  {
    assert WaitOk(Current(s));
  }
}
