/**
 Which commands a run of the browser command table loses (browser.rs:741, 796-961):
 those whose view is dropped, or whose DevTools message id is used again, while they
 are awaited. Everything else stays in one of three places.
 */
module BrowserCommandRuns {
  import opened Common
  import opened BrowserCommands

  // ------------------------------------------------------------ how a command is lost

  /** The view of `pane` goes while the answer to `r` is awaited from it. */
  ghost predicate DropsAwaited(t: Table, pane: Uuid, r: Request) {
    exists k :: k in t.awaiting && k.pane == pane && t.awaiting[k] == r
  }

  /** `c` is handed to DevTools under the id by which the answer to `r` is awaited. */
  predicate ReusesId(t: Table, c: Command, r: Request) {
    Ready(t, c) && c.action.DevTools?
    && var key := Key(c.pane, t.views[c.pane].nextId); key in t.awaiting && t.awaiting[key] == r
  }

  /** One of the deferred commands reuses the id when its turn comes. */
  ghost predicate RetryReusesId(t: Table, ds: seq<Deferred>, now: nat -> int, sent: nat -> bool, from: nat, r: Request)
    decreases |ds|
  {
    ds != []
    && (ReusesId(t, ds[0].command, r)
        || RetryReusesId(Execute(t, ds[0].command, ds[0].deadline, now(from), sent(from)), ds[1..], now, sent, from + 1, r))
  }

  ghost predicate StepDrops(s: System, e: Event, r: Request) {
    e.Drop? && DropsAwaited(s.table, e.pane, r)
  }

  ghost predicate StepReuses(s: System, e: Event, r: Request) {
    match e
    case Receive(c, _, _) => c.request !in s.received && ReusesId(s.table, c, r)
    case PollAt(now, sentAll, _) => RetryReusesId(s.table.(deferred := []), s.table.deferred, now, sentAll, 0, r)
    case _ => false
  }

  ghost predicate EverDropped(s: System, events: seq<Event>, r: Request)
    decreases |events|
  {
    events != [] && (StepDrops(s, events[0], r) || EverDropped(Step(s, events[0]), events[1..], r))
  }

  ghost predicate EverReused(s: System, events: seq<Event>, r: Request)
    decreases |events|
  {
    events != [] && (StepReuses(s, events[0], r) || EverReused(Step(s, events[0]), events[1..], r))
  }

  lemma {:induction false} RetryLoses(t: Table, ds: seq<Deferred>, now: nat -> int, sent: nat -> bool, from: nat, r: Request)
    ensures r in ExecuteAll(t, ds, now, sent, from).lost <==> r in t.lost || RetryReusesId(t, ds, now, sent, from, r)
    decreases |ds|
  {
    if ds != [] {
      RetryLoses(Execute(t, ds[0].command, ds[0].deadline, now(from), sent(from)), ds[1..], now, sent, from + 1, r);
    }
  }

  lemma {:induction false} CollectLosesNothing(t: Table, results: seq<Key>)
    ensures Collect(t, results).lost == t.lost
    decreases |results|
  {
    if results != [] {
      var u := if results[0] in t.awaiting
        then Post(t.(awaiting := t.awaiting - {results[0]}), t.awaiting[results[0]]) else t;
      CollectLosesNothing(u, results[1..]);
    }
  }

  lemma StepLoses(s: System, e: Event, r: Request)
    ensures r in Step(s, e).table.lost <==> r in s.table.lost || StepDrops(s, e, r) || StepReuses(s, e, r)
  {
    match e
    case PollAt(now, sentAll, results) =>
      hide Execute, ExecuteAll, Collect, RetryReusesId;
      RetryLoses(s.table.(deferred := []), s.table.deferred, now, sentAll, 0, r);
      CollectLosesNothing(ExecuteAll(s.table.(deferred := []), s.table.deferred, now, sentAll, 0), results);
    case _ =>
  }

  /** In every run exactly the commands whose view was dropped, or whose id was reused, while awaited are lost. */
  lemma {:induction false} LostIff(s: System, events: seq<Event>, r: Request)
    ensures r in Run(s, events).table.lost <==> r in s.table.lost || EverDropped(s, events, r) || EverReused(s, events, r)
    decreases |events|
  {
    hide Step, StepDrops, StepReuses;
    if events != [] {
      StepLoses(s, events[0], r);
      LostIff(Step(s, events[0]), events[1..], r);
    }
  }

  // ------------------------------------------------------------ the three places

  const EMPTY_SYSTEM := System(EMPTY, {})

  /** In how many of deferred, awaited and answered a command is. */
  function LivePlaces(t: Table, r: Request): nat {
    Count(Requests(t.deferred), r) + |KeysOf(t.awaiting, r)| + Count(t.posted, r)
  }

  /**
   In every run a received command is in exactly one of deferred, awaited and answered,
   once, if and only if its view was not dropped nor its id reused while it was awaited.
   */
  lemma InThreePlacesIff(events: seq<Event>, r: Request)
    requires r in Run(EMPTY_SYSTEM, events).received
    ensures LivePlaces(Run(EMPTY_SYSTEM, events).table, r) == 1
       <==> !EverDropped(EMPTY_SYSTEM, events, r) && !EverReused(EMPTY_SYSTEM, events, r)
    ensures LivePlaces(Run(EMPTY_SYSTEM, events).table, r) <= 1
  {
    hide Run, EverDropped, EverReused;
    StartsEmpty();
    CommandsInOnePlace(EMPTY_SYSTEM, events);
    LostIff(EMPTY_SYSTEM, events, r);
    assert Places(Run(EMPTY_SYSTEM, events).table, r) == 1;
  }

  // ------------------------------------------------------------ ids that do not wrap

  /** The executions a step makes at most. */
  function Tries(s: System, e: Event): nat {
    if e.Receive? then 1 else if e.PollAt? then |s.table.deferred| else 0
  }

  function TriesIn(s: System, events: seq<Event>): nat
    decreases |events|
  {
    if events == [] then 0 else Tries(s, events[0]) + TriesIn(Step(s, events[0]), events[1..])
  }

  /** Messages in flight are older than their view's next id, which `used` executions cannot have passed. */
  ghost predicate IdsWithin(t: Table, used: nat) {
    IdsBehind(t) && forall p :: p in t.views ==> 1 <= t.views[p].nextId <= used + 1
  }

  lemma ExecuteWithin(t: Table, used: nat, c: Command, deadline: int, now: int, sent: bool)
    requires IdsWithin(t, used) && used + 1 < MAX_ID
    ensures IdsWithin(Execute(t, c, deadline, now, sent), used + 1)
    ensures forall r :: !ReusesId(t, c, r)
  {
  }

  lemma {:induction false} RetriesWithin(t: Table, used: nat, ds: seq<Deferred>, now: nat -> int, sent: nat -> bool, from: nat)
    requires IdsWithin(t, used) && used + |ds| < MAX_ID
    ensures IdsWithin(ExecuteAll(t, ds, now, sent, from), used + |ds|)
    ensures forall r :: !RetryReusesId(t, ds, now, sent, from, r)
    decreases |ds|
  {
    hide IdsWithin, Execute, ReusesId;
    if ds != [] {
      var u := Execute(t, ds[0].command, ds[0].deadline, now(from), sent(from));
      ExecuteWithin(t, used, ds[0].command, ds[0].deadline, now(from), sent(from));
      RetriesWithin(u, used + 1, ds[1..], now, sent, from + 1);
    }
  }

  lemma {:induction false} CollectWithin(t: Table, used: nat, results: seq<Key>)
    requires IdsWithin(t, used)
    ensures IdsWithin(Collect(t, results), used)
    decreases |results|
  {
    if results != [] {
      var u := if results[0] in t.awaiting
        then Post(t.(awaiting := t.awaiting - {results[0]}), t.awaiting[results[0]]) else t;
      CollectWithin(u, used, results[1..]);
    }
  }

  lemma StepWithin(s: System, used: nat, e: Event)
    requires IdsWithin(s.table, used) && used + Tries(s, e) < MAX_ID
    ensures IdsWithin(Step(s, e).table, used + Tries(s, e))
    ensures forall r :: !StepReuses(s, e, r)
  {
    match e
    case Receive(c, at, sent) =>
      ExecuteWithin(s.table, used, c, at + DEADLINE_SECONDS, at, sent);
    case PollAt(now, sentAll, results) =>
      hide Execute, ExecuteAll, Collect, RetryReusesId;
      var t := s.table.(deferred := []);
      RetriesWithin(t, used, s.table.deferred, now, sentAll, 0);
      CollectWithin(ExecuteAll(t, s.table.deferred, now, sentAll, 0), used + |s.table.deferred|, results);
    case _ =>
  }

  lemma {:induction false} NeverReused(s: System, used: nat, events: seq<Event>, r: Request)
    requires IdsWithin(s.table, used) && used + TriesIn(s, events) < MAX_ID
    ensures IdsWithin(Run(s, events).table, used + TriesIn(s, events)) && !EverReused(s, events, r)
    decreases |events|
  {
    hide Step, StepReuses, IdsWithin, Tries;
    if events != [] {
      StepWithin(s, used, events[0]);
      NeverReused(Step(s, events[0]), used + Tries(s, events[0]), events[1..], r);
    }
  }

  /**
   While fewer commands are executed than there are ids, a received command is in exactly
   one of deferred, awaited and answered if and only if its view was not dropped while it
   was awaited.
   */
  lemma InThreePlacesBeforeWrap(events: seq<Event>, r: Request)
    requires TriesIn(EMPTY_SYSTEM, events) < MAX_ID && r in Run(EMPTY_SYSTEM, events).received
    ensures LivePlaces(Run(EMPTY_SYSTEM, events).table, r) == 1 <==> !EverDropped(EMPTY_SYSTEM, events, r)
    ensures IdsBehind(Run(EMPTY_SYSTEM, events).table)
  {
    hide Run, EverDropped, EverReused, TriesIn, LivePlaces;
    InThreePlacesIff(events, r);
    NeverReused(EMPTY_SYSTEM, 0, events, r);
  }

  // ------------------------------------------------------------ and ids that do

  lemma {:induction false} RunSnoc(s: System, events: seq<Event>, e: Event)
    ensures Run(s, events + [e]) == Step(Run(s, events), e)
    ensures forall r :: EverDropped(s, events + [e], r) <==> EverDropped(s, events, r) || StepDrops(Run(s, events), e, r)
    decreases |events|
  {
    hide Step, StepDrops;
    if events == [] {
      assert [] + [e] == [e] && [e][1..] == [];
    } else {
      assert (events + [e])[1..] == events[1..] + [e];
      RunSnoc(Step(s, events[0]), events[1..], e);
    }
  }

  function Call(n: nat): Event {
    Receive(Command(n, 0, DevTools), 0, true)
  }

  /** One open browser and `n` DevTools commands that it never answers. */
  function Flood(n: nat): seq<Event> {
    if n == 0 then [OpenView(0), ViewCreated(0)] else Flood(n - 1) + [Call(n - 1)]
  }

  function NextAfter(n: nat): int {
    if n == MAX_ID then 1 else n + 1
  }

  /** The browser is open and the first `n` commands are awaited from it, under the ids from 1 on. */
  ghost predicate Flooded(s: System, n: nat) {
    && s.table.views == map[0 := View(true, NextAfter(n))]
    && (forall i :: 1 <= i <= n ==> Key(0, i) in s.table.awaiting && s.table.awaiting[Key(0, i)] == i - 1)
    && (forall r :: r in s.received <==> 0 <= r < n)
  }

  lemma FloodStep(s: System, n: nat)
    requires n < MAX_ID && Flooded(s, n)
    ensures Flooded(Step(s, Call(n)), n + 1)
  {
  }

  lemma {:induction false} FloodRuns(n: nat, r: Request)
    requires n <= MAX_ID
    ensures Flooded(Run(EMPTY_SYSTEM, Flood(n)), n) && !EverDropped(EMPTY_SYSTEM, Flood(n), r)
  {
    if n == 0 {
      FloodOpens(r);
    } else {
      hide Step, Flooded, Run;
      FloodRuns(n - 1, r);
      RunSnoc(EMPTY_SYSTEM, Flood(n - 1), Call(n - 1));
      FloodStep(Run(EMPTY_SYSTEM, Flood(n - 1)), n - 1);
    }
  }

  lemma FloodOpens(r: Request)
    ensures Flooded(Run(EMPTY_SYSTEM, Flood(0)), 0) && !EverDropped(EMPTY_SYSTEM, Flood(0), r)
  {
    var e := Flood(0);
    assert e[1..] == [ViewCreated(0)] && e[1..][1..] == [];
    var s1 := Step(EMPTY_SYSTEM, e[0]);
    var s2 := Step(s1, e[1]);
    assert Run(EMPTY_SYSTEM, e) == s2;
    assert s2.table.views == map[0 := View(true, 1)];
  }

  /** Once a view's ids have all been used, the next command takes the place of the first, still unanswered one. */
  lemma OverwrittenCommand()
    ensures var events := Flood(MAX_ID) + [Call(MAX_ID)];
            0 in Run(EMPTY_SYSTEM, events).received && !EverDropped(EMPTY_SYSTEM, events, 0)
            && LivePlaces(Run(EMPTY_SYSTEM, events).table, 0) == 0
  {
    hide Step, LivePlaces, EverDropped, Flooded, Run, Flood;
    FloodRuns(MAX_ID, 0);
    RunSnoc(EMPTY_SYSTEM, Flood(MAX_ID), Call(MAX_ID));
    FirstIsReused(Run(EMPTY_SYSTEM, Flood(MAX_ID)));
    LostHasNoPlace(Flood(MAX_ID) + [Call(MAX_ID)], 0);
  }

  lemma LostHasNoPlace(events: seq<Event>, r: Request)
    requires r in Run(EMPTY_SYSTEM, events).table.lost
    ensures LivePlaces(Run(EMPTY_SYSTEM, events).table, r) == 0
  {
    hide Run;
    StartsEmpty();
    CommandsInOnePlace(EMPTY_SYSTEM, events);
    assert Places(Run(EMPTY_SYSTEM, events).table, r) <= 1;
  }

  lemma FirstIsReused(s: System)
    requires Flooded(s, MAX_ID)
    ensures var t := Step(s, Call(MAX_ID)); 0 in t.received && 0 in t.table.lost
  {
    assert Key(0, 1) in s.table.awaiting && s.table.awaiting[Key(0, 1)] == 0;
  }
}
