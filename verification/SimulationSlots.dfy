/**
 Slot accounting for interleaved contract simulations: one pool-wide count, one count per client.

 A simulation reserves, awaits its reads and the VM, and releases in its finally block, so any
 number of them interleave between a reserve and its release.
 */
module SimulationSlots {
  import opened Wrappers

  /** The two limits as the environment sets them; None where it sets no usable integer. */
  datatype Settings = Settings(maxConcurrent: Option<int>, maxPerIp: Option<int>)

  /** Zero reads as unset, a negative number as itself. */
  function MaxConcurrent(e: Settings): int {
    if e.maxConcurrent.Some? && e.maxConcurrent.value != 0 then e.maxConcurrent.value else 4
  }

  /** A positive setting, or half the pool rounded down, and at least one. */
  function MaxConcurrentPerIp(e: Settings): int {
    if e.maxPerIp.Some? && e.maxPerIp.value > 0 then e.maxPerIp.value
    else if MaxConcurrent(e) / 2 >= 1 then MaxConcurrent(e) / 2
    else 1
  }

  /** What the settings come to: four unless set, and half the pool, but one at least, unless a share is set. */
  lemma LimitsExactly(e: Settings)
    ensures MaxConcurrent(e) == match e.maxConcurrent case Some(0) => 4 case Some(n) => n case None => 4
    ensures e.maxPerIp.Some? && e.maxPerIp.value > 0 ==> MaxConcurrentPerIp(e) == e.maxPerIp.value
    ensures e.maxPerIp.None? || e.maxPerIp.value <= 0 ==>
              var pool, share := MaxConcurrent(e), MaxConcurrentPerIp(e);
              (pool < 2 && share == 1) || (pool >= 2 && 2 * share <= pool <= 2 * share + 1)
  {
  }

  /** A missing or empty client address is not counted per client. */
  function IpKey(clientIp: Option<string>): Option<string> {
    if clientIp.Some? && clientIp.value != "" then clientIp else None
  }

  function HeldBy(inFlightByIp: map<string, int>, ip: string): int {
    if ip in inFlightByIp then inFlightByIp[ip] else 0
  }

  // ---- The books ----

  datatype Books = Books(inFlight: int, inFlightByIp: map<string, int>)

  predicate CanReserve(b: Books, ip: Option<string>, e: Settings) {
    && b.inFlight < MaxConcurrent(e)
    && (ip.Some? ==> HeldBy(b.inFlightByIp, ip.value) < MaxConcurrentPerIp(e))
  }

  function Reserved(b: Books, ip: Option<string>): Books {
    Books(b.inFlight + 1,
          if ip.None? then b.inFlightByIp else b.inFlightByIp[ip.value := HeldBy(b.inFlightByIp, ip.value) + 1])
  }

  function Released(b: Books, ip: Option<string>): Books {
    Books(b.inFlight - 1,
          if ip.None? then b.inFlightByIp
          else if HeldBy(b.inFlightByIp, ip.value) <= 1 then b.inFlightByIp - {ip.value}
          else b.inFlightByIp[ip.value := HeldBy(b.inFlightByIp, ip.value) - 1])
  }

  /** The books agree with the reservations outstanding, an absent entry standing for none. */
  ghost predicate Balanced(b: Books, outstanding: multiset<Option<string>>) {
    && b.inFlight == |outstanding|
    && (forall ip :: ip in b.inFlightByIp <==> Some(ip) in outstanding)
    && (forall ip | ip in b.inFlightByIp :: b.inFlightByIp[ip] == outstanding[Some(ip)])
    && (forall ip | Some(ip) in outstanding :: ip != "")
  }

  /** Neither cap is exceeded. */
  ghost predicate WithinCaps(outstanding: multiset<Option<string>>, e: Settings) {
    && (|outstanding| > 0 ==> |outstanding| <= MaxConcurrent(e))
    && forall ip :: outstanding[Some(ip)] > 0 ==> outstanding[Some(ip)] <= MaxConcurrentPerIp(e)
  }

  // ---- The module's state ----

  class SlotPool {
    var inFlight: int
    var inFlightByIp: map<string, int>
    ghost var outstanding: multiset<Option<string>>

    function State(): Books
      reads this
    {
      Books(inFlight, inFlightByIp)
    }

    ghost predicate Valid()
      reads this
    {
      Balanced(State(), outstanding)
    }

    constructor ()
      ensures Valid() && outstanding == multiset{}
    {
      inFlight, inFlightByIp, outstanding := 0, map[], multiset{};
    }

    /** Takes one slot of each kind, or takes nothing and refuses. */
    method ReserveSlot(ip: Option<string>, e: Settings) returns (ok: bool)
      requires Valid() && ip != Some("")
      modifies this
      ensures Valid()
      ensures ok == CanReserve(old(State()), ip, e)
      ensures ok ==> State() == Reserved(old(State()), ip) && outstanding == old(outstanding) + multiset{ip}
      ensures !ok ==> State() == old(State()) && outstanding == old(outstanding)
      ensures WithinCaps(old(outstanding), e) ==> WithinCaps(outstanding, e)
    {
      if inFlight >= MaxConcurrent(e) {
        return false;
      }
      if ip.Some? && HeldBy(inFlightByIp, ip.value) >= MaxConcurrentPerIp(e) {
        return false;
      }
      ReserveBalances(State(), outstanding, ip, e);
      inFlight := inFlight + 1;
      if ip.Some? {
        inFlightByIp := inFlightByIp[ip.value := HeldBy(inFlightByIp, ip.value) + 1];
      }
      outstanding := outstanding + multiset{ip};
      return true;
    }

    /** Gives back what a reservation took, dropping an IP's entry at its last slot. */
    method ReleaseSlot(ip: Option<string>)
      requires Valid() && ip in outstanding
      modifies this
      ensures Valid()
      ensures State() == Released(old(State()), ip) && outstanding == old(outstanding) - multiset{ip}
    {
      ReleaseBalances(State(), outstanding, ip);
      inFlight := inFlight - 1;
      if ip.Some? {
        var held := if ip.value in inFlightByIp then inFlightByIp[ip.value] else 1;
        if held <= 1 {
          inFlightByIp := inFlightByIp - {ip.value};
        } else {
          inFlightByIp := inFlightByIp[ip.value := held - 1];
        }
      }
      outstanding := outstanding - multiset{ip};
    }
  }

  lemma ReserveBalances(b: Books, outstanding: multiset<Option<string>>, ip: Option<string>, e: Settings)
    requires Balanced(b, outstanding) && CanReserve(b, ip, e) && ip != Some("")
    ensures Balanced(Reserved(b, ip), outstanding + multiset{ip})
    ensures WithinCaps(outstanding, e) ==> WithinCaps(outstanding + multiset{ip}, e)
  {
    var more := outstanding + multiset{ip};
    forall k: string
      ensures more[Some(k)] == outstanding[Some(k)] + if ip == Some(k) then 1 else 0
    {
    }
    if ip.Some? {
      assert HeldBy(b.inFlightByIp, ip.value) == outstanding[ip];
    }
  }

  lemma ReleaseBalances(b: Books, outstanding: multiset<Option<string>>, ip: Option<string>)
    requires Balanced(b, outstanding) && ip in outstanding
    ensures Balanced(Released(b, ip), outstanding - multiset{ip})
  {
    var less := outstanding - multiset{ip};
    forall k: string
      ensures less[Some(k)] == outstanding[Some(k)] - if ip == Some(k) then 1 else 0
    {
    }
  }

  // ---- Interleaved simulations ----

  /** One simulation reaching its reserve, or another reaching its finally block. */
  datatype Event = Begin(call: nat, clientIp: Option<string>) | End(call: nat)

  /** The books, and for each running simulation the client address it came with. */
  datatype World = World(books: Books, running: map<nat, Option<string>>)

  predicate Enabled(w: World, e: Event) {
    match e
    case Begin(call, _) => call !in w.running
    case End(call) => call in w.running
  }

  /** A refused reserve throws before the bracket, so that simulation never releases. */
  function Step(w: World, e: Event, s: Settings): World
    requires Enabled(w, e)
  {
    match e
    case Begin(call, clientIp) =>
      if CanReserve(w.books, IpKey(clientIp), s) then
        World(Reserved(w.books, IpKey(clientIp)), w.running[call := clientIp])
      else w
    case End(call) => World(Released(w.books, IpKey(w.running[call])), w.running - {call})
  }

  function Run(events: seq<Event>, s: Settings): Option<World> {
    if events == [] then Some(World(Books(0, map[]), map[]))
    else
      match Run(events[..|events| - 1], s)
      case None => None
      case Some(w) =>
        if Enabled(w, events[|events| - 1]) then Some(Step(w, events[|events| - 1], s)) else None
  }

  function KeyAt(running: map<nat, Option<string>>, call: nat): Option<string> {
    if call in running then IpKey(running[call]) else None
  }

  ghost function Held(calls: set<nat>, running: map<nat, Option<string>>): multiset<Option<string>> {
    if calls == {} then multiset{}
    else
      var call :| call in calls;
      Held(calls - {call}, running) + multiset{KeyAt(running, call)}
  }

  /** The keys of the running simulations, counted. */
  ghost function Outstanding(running: map<nat, Option<string>>): multiset<Option<string>> {
    Held(running.Keys, running)
  }

  lemma {:induction false} HeldPick(calls: set<nat>, running: map<nat, Option<string>>, call: nat)
    requires call in calls
    ensures Held(calls, running) == Held(calls - {call}, running) + multiset{KeyAt(running, call)}
    decreases |calls|
  {
    var other :| other in calls && Held(calls, running) == Held(calls - {other}, running) + multiset{KeyAt(running, other)};
    if other != call {
      HeldPick(calls - {other}, running, call);
      HeldPick(calls - {call}, running, other);
      assert calls - {other} - {call} == calls - {call} - {other};
    }
  }

  lemma {:induction false} HeldAgrees(calls: set<nat>, a: map<nat, Option<string>>, b: map<nat, Option<string>>)
    requires forall c | c in calls :: KeyAt(a, c) == KeyAt(b, c)
    ensures Held(calls, a) == Held(calls, b)
    decreases |calls|
  {
    if calls == {} {
    } else {
      var call :| call in calls;
      HeldPick(calls, a, call);
      HeldPick(calls, b, call);
      HeldAgrees(calls - {call}, a, b);
    }
  }

  lemma OutstandingWith(running: map<nat, Option<string>>, call: nat, ip: Option<string>)
    requires call !in running
    ensures Outstanding(running[call := ip]) == Outstanding(running) + multiset{IpKey(ip)}
  {
    var more := running[call := ip];
    HeldPick(more.Keys, more, call);
    assert more.Keys - {call} == running.Keys;
    HeldAgrees(running.Keys, more, running);
  }

  lemma OutstandingWithout(running: map<nat, Option<string>>, call: nat)
    requires call in running
    ensures Outstanding(running - {call}) == Outstanding(running) - multiset{IpKey(running[call])}
    ensures IpKey(running[call]) in Outstanding(running)
  {
    HeldPick(running.Keys, running, call);
    var less := running - {call};
    assert less.Keys == running.Keys - {call};
    HeldAgrees(less.Keys, running, less);
  }

  /**
   In every reachable state the counts are exactly the reservations of the running simulations,
   and neither the pool nor any client holds more than its cap.
   */
  lemma {:induction false} RunBalances(events: seq<Event>, s: Settings)
    requires Run(events, s).Some?
    ensures
      var w := Run(events, s).value;
      Balanced(w.books, Outstanding(w.running)) && WithinCaps(Outstanding(w.running), s)
  {
    if events == [] {
    } else {
      var before, e := events[..|events| - 1], events[|events| - 1];
      RunBalances(before, s);
      StepBalances(Run(before, s).value, e, s);
    }
  }

  lemma StepBalances(w: World, e: Event, s: Settings)
    requires Enabled(w, e) && Balanced(w.books, Outstanding(w.running)) && WithinCaps(Outstanding(w.running), s)
    ensures Balanced(Step(w, e, s).books, Outstanding(Step(w, e, s).running))
    ensures WithinCaps(Outstanding(Step(w, e, s).running), s)
  {
    var all := Outstanding(w.running);
    match e
    case Begin(call, clientIp) =>
      if CanReserve(w.books, IpKey(clientIp), s) {
        OutstandingWith(w.running, call, clientIp);
        ReserveBalances(w.books, all, IpKey(clientIp), s);
      }
    case End(call) =>
      OutstandingWithout(w.running, call);
      ReleaseBalances(w.books, all, IpKey(w.running[call]));
      assert |all - multiset{IpKey(w.running[call])}| <= |all|;
  }

  // ---- Counted by the addresses the simulations came with ----

  ghost function CallsBy(running: map<nat, Option<string>>, address: string): set<nat> {
    set call | call in running && running[call] == Some(address)
  }

  ghost function Among(calls: set<nat>, running: map<nat, Option<string>>, address: string): set<nat> {
    set call | call in calls && call in running && running[call] == Some(address)
  }

  lemma AmongPick(calls: set<nat>, running: map<nat, Option<string>>, address: string, call: nat)
    requires call in calls && calls <= running.Keys
    ensures |Among(calls, running, address)| ==
            |Among(calls - {call}, running, address)| + if running[call] == Some(address) then 1 else 0
  {
    var rest := Among(calls - {call}, running, address);
    if running[call] == Some(address) {
      assert Among(calls, running, address) == rest + {call};
    } else {
      assert Among(calls, running, address) == rest;
    }
  }

  lemma {:induction false} HeldCounts(calls: set<nat>, running: map<nat, Option<string>>, address: string)
    requires calls <= running.Keys && address != ""
    ensures |Held(calls, running)| == |calls|
    ensures Held(calls, running)[Some(address)] == |Among(calls, running, address)|
    decreases |calls|
  {
    if calls == {} {
    } else {
      var call :| call in calls;
      HeldPick(calls, running, call);
      HeldCounts(calls - {call}, running, address);
      AmongPick(calls, running, address, call);
    }
  }

  /** The reservations outstanding are the running simulations, and a client's are those it began. */
  lemma OutstandingCounts(running: map<nat, Option<string>>, address: string)
    requires address != ""
    ensures |Outstanding(running)| == |running.Keys|
    ensures Outstanding(running)[Some(address)] == |CallsBy(running, address)|
  {
    HeldCounts(running.Keys, running, address);
    assert Among(running.Keys, running, address) == CallsBy(running, address);
  }

  /** In every run, no address has more simulations running than its share, and all have no more than the pool. */
  lemma SharesAreKept(events: seq<Event>, s: Settings, address: string)
    requires Run(events, s).Some? && address != ""
    ensures
      var running := Run(events, s).value.running;
      && (|running.Keys| > 0 ==> |running.Keys| <= MaxConcurrent(s))
      && (|CallsBy(running, address)| > 0 ==> |CallsBy(running, address)| <= MaxConcurrentPerIp(s))
  {
    RunBalances(events, s);
    OutstandingCounts(Run(events, s).value.running, address);
  }

  /**
   In every reachable state a simulation is admitted exactly when the pool has a slot left and, if
   it came with an address, that address has one of its share left.
   */
  lemma AdmittedExactly(events: seq<Event>, s: Settings, call: nat, clientIp: Option<string>)
    requires Run(events, s).Some? && call !in Run(events, s).value.running
    ensures
      var w := Run(events, s).value;
      call in Step(w, Begin(call, clientIp), s).running <==>
      && |w.running.Keys| < MaxConcurrent(s)
      && (clientIp.Some? && clientIp.value != "" ==> |CallsBy(w.running, clientIp.value)| < MaxConcurrentPerIp(s))
  {
    var w := Run(events, s).value;
    RunBalances(events, s);
    if clientIp.Some? && clientIp.value != "" {
      OutstandingCounts(w.running, clientIp.value);
      assert HeldBy(w.books.inFlightByIp, clientIp.value) == Outstanding(w.running)[clientIp];
    } else {
      OutstandingCounts(w.running, "1");
    }
  }

  /** Where neither limit is set: four at once, and two of one address. */
  lemma UnsetLimits(events: seq<Event>, s: Settings, call: nat, clientIp: Option<string>)
    requires Run(events, s).Some? && call !in Run(events, s).value.running
    requires s.maxConcurrent.None? && s.maxPerIp.None?
    ensures
      var w := Run(events, s).value;
      call in Step(w, Begin(call, clientIp), s).running <==>
      && |w.running.Keys| < 4
      && (clientIp.Some? && clientIp.value != "" ==> |CallsBy(w.running, clientIp.value)| < 2)
  {
    AdmittedExactly(events, s, call, clientIp);
  }

  /** With no share set and a pool of at least two, no one address ever has as many running as the pool holds. */
  lemma NoClientHoldsThePool(events: seq<Event>, s: Settings, address: string)
    requires Run(events, s).Some? && address != ""
    requires s.maxPerIp.None? && MaxConcurrent(s) >= 2
    ensures |CallsBy(Run(events, s).value.running, address)| < MaxConcurrent(s)
  {
    SharesAreKept(events, s, address);
  }

  /** When every simulation has ended, the books are as at the start: nothing is held back. */
  lemma NothingHeldBack(events: seq<Event>, s: Settings)
    requires Run(events, s).Some? && Run(events, s).value.running == map[]
    ensures Run(events, s).value.books == Books(0, map[])
  {
    RunBalances(events, s);
    var b := Run(events, s).value.books;
    assert forall ip :: ip !in b.inFlightByIp;
    assert b.inFlightByIp == map[];
  }

  /** A pool of one cannot be shared: there a single client's share is the whole pool. */
  lemma PoolOfOneIsOneClients(s: Settings)
    requires s.maxPerIp.None? && MaxConcurrent(s) == 1
    ensures MaxConcurrentPerIp(s) == MaxConcurrent(s)
  {
  }
}
