/**
 The browser command table (browser.rs): a command is deferred while its pane is
 not ready, handed to DevTools under a message id, or answered at once.
 */
module BrowserCommands {
  import opened Common

  type Request = nat

  datatype Action = Navigation | DevTools

  datatype Command = Command(request: Request, pane: Uuid, action: Action)

  datatype Deferred = Deferred(command: Command, deadline: int)

  datatype View = View(created: bool, nextId: int)

  /** A DevTools message in flight, by pane and message id. */
  datatype Key = Key(pane: Uuid, message: int)

  /** `posted` are the answered requests, in order; `lost` are those whose DevTools
      message was dropped with its view or overwritten by a reused id. */
  datatype Table = Table(
    views: map<Uuid, View>, awaiting: map<Key, Request>, deferred: seq<Deferred>, posted: seq<Request>, lost: set<Request>)

  const MAX_ID: int := 0x7fff_ffff

  const EMPTY: Table := Table(map[], map[], [], [], {})

  // ------------------------------------------------------------------ the steps

  function NextId(id: int): int {
    if id == MAX_ID then 1 else id + 1
  }

  function Post(t: Table, request: Request): Table {
    t.(posted := t.posted + [request])
  }

  predicate Ready(t: Table, c: Command) {
    c.pane in t.views && (c.action.DevTools? ==> t.views[c.pane].created)
  }

  /** No view, or no browser in it yet for DevTools to talk to. */
  ghost predicate NotReady(views: map<Uuid, View>, c: Command) {
    c.pane !in views || (c.action == DevTools && !views[c.pane].created)
  }

  /** `execute_browser_command`; `sent` is whether CEF takes the message. */
  function Execute(t: Table, c: Command, deadline: int, now: int, sent: bool): Table {
    if !Ready(t, c) then
      if now >= deadline then Post(t, c.request) else t.(deferred := t.deferred + [Deferred(c, deadline)])
    else if c.action.Navigation? then Post(t, c.request)
    else
      var view := t.views[c.pane];
      var key := Key(c.pane, view.nextId);
      var overwritten := if key in t.awaiting then {t.awaiting[key]} else {};
      var u := t.(views := t.views[c.pane := view.(nextId := NextId(view.nextId))], lost := t.lost + overwritten);
      if sent then u.(awaiting := t.awaiting[key := c.request])
      else Post(u.(awaiting := t.awaiting - {key}), c.request)
  }

  /** Executes a list of commands in order, each at its own time. */
  function ExecuteAll(t: Table, ds: seq<Deferred>, now: nat -> int, sent: nat -> bool, from: nat): Table
    decreases |ds|
  {
    if ds == [] then t
    else ExecuteAll(Execute(t, ds[0].command, ds[0].deadline, now(from), sent(from)), ds[1..], now, sent, from + 1)
  }

  function Collect(t: Table, results: seq<Key>): Table
    decreases |results|
  {
    if results == [] then t
    else if results[0] in t.awaiting then
      Collect(Post(t.(awaiting := t.awaiting - {results[0]}), t.awaiting[results[0]]), results[1..])
    else Collect(t, results[1..])
  }

  /** `poll_browser_commands`: every deferred command is tried again, then the
      DevTools results are answered. */
  function Poll(t: Table, now: nat -> int, sent: nat -> bool, results: seq<Key>): Table {
    Collect(ExecuteAll(t.(deferred := []), t.deferred, now, sent, 0), results)
  }

  function DropView(t: Table, pane: Uuid): Table {
    t.(views := t.views - {pane},
       awaiting := KeptBy(t.awaiting, pane),
       lost := t.lost + DroppedBy(t.awaiting, pane))
  }

  // ---------------------------------------------------------- the mutable table

  class CommandTable {
    var views: map<Uuid, View>
    var awaiting: map<Key, Request>
    var deferred: seq<Deferred>
    var posted: seq<Request>
    ghost var lost: set<Request>

    ghost function State(): Table
      reads this
    {
      Table(views, awaiting, deferred, posted, lost)
    }

    constructor ()
      ensures State() == EMPTY
    {
      views, awaiting, deferred, posted, lost := map[], map[], [], [], {};
    }

    method ExecuteBrowserCommand(c: Command, deadline: int, now: int, sent: bool)
      modifies this
      ensures State() == Execute(old(State()), c, deadline, now, sent)
      // Not ready: the command waits with the deadline it came with, or its time is up.
      ensures NotReady(old(views), c) && now < deadline ==>
        deferred == old(deferred) + [Deferred(c, deadline)] && posted == old(posted) && awaiting == old(awaiting)
      ensures !NotReady(old(views), c) || now >= deadline ==> deferred == old(deferred)
      // Answered at once: too late, a navigation, or a call that the browser did not take.
      ensures posted == old(posted) +
        if (if NotReady(old(views), c) then now >= deadline else c.action == Navigation || !sent) then [c.request] else []
      // Taken by DevTools: awaited under the view's next id.
      ensures !NotReady(old(views), c) && c.action == DevTools && sent ==>
        awaiting == old(awaiting)[Key(c.pane, old(views[c.pane].nextId)) := c.request]
      ensures !NotReady(old(views), c) && c.action == DevTools ==>
        views == old(views)[c.pane := View(true, NextId(old(views[c.pane].nextId)))]
    {
      if c.pane !in views || (c.action.DevTools? && !views[c.pane].created) {
        if now >= deadline {
          posted := posted + [c.request];
        } else {
          deferred := deferred + [Deferred(c, deadline)];
        }
        return;
      }
      match c.action {
        case Navigation =>
          posted := posted + [c.request];
        case DevTools =>
          var message := views[c.pane].nextId;
          views := views[c.pane := views[c.pane].(nextId := NextId(message))];
          if Key(c.pane, message) in awaiting {
            lost := lost + {awaiting[Key(c.pane, message)]};
          }
          awaiting := awaiting[Key(c.pane, message) := c.request];
          if !sent {
            awaiting := awaiting - {Key(c.pane, message)};
            posted := posted + [c.request];
            assert awaiting == old(awaiting) - {Key(c.pane, message)};
          }
      }
    }

    method PollBrowserCommands(now: nat -> int, sent: nat -> bool, results: seq<Key>)
      modifies this
      ensures State() == Poll(old(State()), now, sent, results)
    {
      var retry := deferred;
      deferred := [];
      ghost var goal := ExecuteAll(State(), retry, now, sent, 0);
      for i := 0 to |retry|
        invariant ExecuteAll(State(), retry[i..], now, sent, i) == goal
      {
        assert retry[i..][0] == retry[i] && retry[i..][1..] == retry[i + 1..];
        ExecuteBrowserCommand(retry[i].command, retry[i].deadline, now(i), sent(i));
      }
      assert State() == goal;
      for i := 0 to |results|
        invariant Collect(State(), results[i..]) == Collect(goal, results)
      {
        assert results[i..][0] == results[i] && results[i..][1..] == results[i + 1..];
        if results[i] in awaiting {
          var request := awaiting[results[i]];
          awaiting := awaiting - {results[i]};
          posted := posted + [request];
        }
      }
    }
  }

  // ------------------------------------------------------- exactly one place

  function Requests(ds: seq<Deferred>): seq<Request> {
    seq(|ds|, i requires 0 <= i < |ds| => ds[i].command.request)
  }

  function KeysOf(awaiting: map<Key, Request>, r: Request): set<Key> {
    set k | k in awaiting && awaiting[k] == r
  }

  function Count(rs: seq<Request>, r: Request): nat {
    multiset(rs)[r]
  }

  /** In how many places a request is. */
  function Places(t: Table, r: Request): nat {
    Count(Requests(t.deferred), r) + |KeysOf(t.awaiting, r)| + Count(t.posted, r) + (if r in t.lost then 1 else 0)
  }

  /** Each received request is in exactly one place, once; no other is anywhere. */
  ghost predicate OnePlace(t: Table, received: set<Request>) {
    forall r :: Places(t, r) == if r in received then 1 else 0
  }

  function Is(a: Request, b: Request): nat {
    if a == b then 1 else 0
  }

  lemma AwaitMore(awaiting: map<Key, Request>, key: Key, request: Request, r: Request)
    ensures |KeysOf(awaiting - {key}, r)| + Is(request, r) == |KeysOf(awaiting[key := request], r)|
  {
    var rest := KeysOf(awaiting - {key}, r);
    assert KeysOf(awaiting[key := request], r) == if request == r then rest + {key} else rest;
  }

  lemma AwaitLess(awaiting: map<Key, Request>, key: Key, r: Request)
    ensures |KeysOf(awaiting, r)| == |KeysOf(awaiting - {key}, r)| + (if key in awaiting then Is(awaiting[key], r) else 0)
  {
    if key in awaiting {
      AwaitMore(awaiting, key, awaiting[key], r);
      assert awaiting[key := awaiting[key]] == awaiting;
    } else {
      assert awaiting - {key} == awaiting;
    }
  }

  lemma AppendCount(rs: seq<Request>, more: Request, r: Request)
    ensures Count(rs + [more], r) == Count(rs, r) + Is(more, r)
  {
  }

  lemma DeferCount(ds: seq<Deferred>, d: Deferred, r: Request)
    ensures Count(Requests(ds + [d]), r) == Count(Requests(ds), r) + Is(d.command.request, r)
  {
    assert Requests(ds + [d]) == Requests(ds) + [d.command.request];
  }

  lemma ExecutePlaces(t: Table, c: Command, deadline: int, now: int, sent: bool, r: Request)
    requires Places(t, r) <= 1
    ensures Places(Execute(t, c, deadline, now, sent), r) == Places(t, r) + Is(c.request, r)
  {
    AppendCount(t.posted, c.request, r);
    DeferCount(t.deferred, Deferred(c, deadline), r);
    if Ready(t, c) && c.action.DevTools? {
      var key := Key(c.pane, t.views[c.pane].nextId);
      AwaitMore(t.awaiting, key, c.request, r);
      AwaitLess(t.awaiting, key, r);
    }
  }

  lemma {:induction false} ExecuteAllPlaces(t: Table, ds: seq<Deferred>, now: nat -> int, sent: nat -> bool, from: nat, r: Request)
    requires Places(t, r) + Count(Requests(ds), r) <= 1
    ensures Places(ExecuteAll(t, ds, now, sent, from), r) == Places(t, r) + Count(Requests(ds), r)
    decreases |ds|
  {
    hide Places; hide Execute;
    if ds != [] {
      assert Requests(ds) == [ds[0].command.request] + Requests(ds[1..]);
      ExecutePlaces(t, ds[0].command, ds[0].deadline, now(from), sent(from), r);
      ExecuteAllPlaces(Execute(t, ds[0].command, ds[0].deadline, now(from), sent(from)), ds[1..], now, sent, from + 1, r);
    }
  }

  lemma {:induction false} CollectPlaces(t: Table, results: seq<Key>, r: Request)
    ensures Places(Collect(t, results), r) == Places(t, r)
    decreases |results|
  {
    if results != [] {
      var key := results[0];
      if key in t.awaiting {
        var u := Post(t.(awaiting := t.awaiting - {key}), t.awaiting[key]);
        AwaitLess(t.awaiting, key, r);
        AppendCount(t.posted, t.awaiting[key], r);
        CollectPlaces(u, results[1..], r);
      } else {
        CollectPlaces(t, results[1..], r);
      }
    }
  }

  lemma PollPlaces(t: Table, now: nat -> int, sent: nat -> bool, results: seq<Key>, r: Request)
    requires Places(t, r) <= 1
    ensures Places(Poll(t, now, sent, results), r) == Places(t, r)
  {
    var u := t.(deferred := []);
    assert Count(Requests([]), r) == 0;
    ExecuteAllPlaces(u, t.deferred, now, sent, 0, r);
    CollectPlaces(ExecuteAll(u, t.deferred, now, sent, 0), results, r);
  }

  function KeptBy(awaiting: map<Key, Request>, pane: Uuid): map<Key, Request> {
    map k | k in awaiting && k.pane != pane :: awaiting[k]
  }

  function DroppedBy(awaiting: map<Key, Request>, pane: Uuid): set<Request> {
    set k | k in awaiting && k.pane == pane :: awaiting[k]
  }

  lemma DropPlaces(t: Table, pane: Uuid, r: Request)
    requires Places(t, r) <= 1
    ensures Places(DropView(t, pane), r) == Places(t, r)
  {
    hide Requests; hide KeysOf; hide Count; hide KeptBy; hide DroppedBy;
    DropAwaiting(t.awaiting, pane, r);
  }

  lemma DropAwaiting(awaiting: map<Key, Request>, pane: Uuid, r: Request)
    requires |KeysOf(awaiting, r)| <= 1
    ensures |KeysOf(awaiting, r)| == |KeysOf(KeptBy(awaiting, pane), r)| + (if r in DroppedBy(awaiting, pane) then 1 else 0)
  {
    var all, kept := KeysOf(awaiting, r), KeysOf(KeptBy(awaiting, pane), r);
    var gone := set k | k in all && k.pane == pane;
    assert all == kept + gone && kept * gone == {};
    assert r in DroppedBy(awaiting, pane) <==> gone != {} by {
      assert forall k :: k in gone ==> k in awaiting && k.pane == pane && awaiting[k] == r;
      if r in DroppedBy(awaiting, pane) {
        var k :| k in awaiting && k.pane == pane && awaiting[k] == r;
        assert k in gone;
      }
    }
  }

  // ---------------------------------------------------------------- every run

  datatype Event =
    | Receive(command: Command, at: int, sent: bool)
    | PollAt(now: nat -> int, sentAll: nat -> bool, results: seq<Key>)
    | OpenView(pane: Uuid)
    | ViewCreated(pane: Uuid)
    | Drop(pane: Uuid)

  const DEADLINE_SECONDS: int := 10

  datatype System = System(table: Table, received: set<Request>)

  /** The service numbers its requests; a number seen before is not a new command. */
  function Step(s: System, e: Event): System {
    match e
    case Receive(c, at, sent) =>
      if c.request in s.received then s
      else System(Execute(s.table, c, at + DEADLINE_SECONDS, at, sent), s.received + {c.request})
    case PollAt(now, sentAll, results) => s.(table := Poll(s.table, now, sentAll, results))
    case OpenView(pane) =>
      if pane in s.table.views then s else s.(table := s.table.(views := s.table.views[pane := View(false, 1)]))
    case ViewCreated(pane) =>
      if pane !in s.table.views then s
      else s.(table := s.table.(views := s.table.views[pane := s.table.views[pane].(created := true)]))
    case Drop(pane) => s.(table := DropView(s.table, pane))
  }

  function Run(s: System, events: seq<Event>): System
    decreases |events|
  {
    if events == [] then s else Run(Step(s, events[0]), events[1..])
  }

  lemma ViewsHoldNone(t: Table, views: map<Uuid, View>, r: Request)
    ensures Places(t.(views := views), r) == Places(t, r)
  {
  }

  lemma StepOnePlace(s: System, e: Event)
    requires OnePlace(s.table, s.received)
    ensures OnePlace(Step(s, e).table, Step(s, e).received)
  {
    hide Places; hide Execute; hide Poll; hide DropView;
    var t := Step(s, e);
    forall r
      ensures Places(t.table, r) == if r in t.received then 1 else 0
    {
      assert Places(s.table, r) == if r in s.received then 1 else 0;
      match e
      case Receive(c, at, sent) => ExecutePlaces(s.table, c, at + DEADLINE_SECONDS, at, sent, r);
      case PollAt(now, sentAll, results) => PollPlaces(s.table, now, sentAll, results, r);
      case Drop(pane) => DropPlaces(s.table, pane, r);
      case _ => ViewsHoldNone(s.table, t.table.views, r);
    }
  }

  /** In every run each command is deferred, awaiting DevTools, answered, or lost
      with its message: exactly one of these, exactly once. */
  lemma {:induction false} CommandsInOnePlace(s: System, events: seq<Event>)
    requires OnePlace(s.table, s.received)
    ensures OnePlace(Run(s, events).table, Run(s, events).received)
    decreases |events|
  {
    hide OnePlace; hide Step;
    if events != [] {
      StepOnePlace(s, events[0]);
      CommandsInOnePlace(Step(s, events[0]), events[1..]);
    }
  }

  /** So nothing is answered twice. */
  lemma AnsweredAtMostOnce(events: seq<Event>, r: Request)
    ensures var s := Run(System(EMPTY, {}), events);
      Count(s.table.posted, r) <= 1 && (Count(s.table.posted, r) == 1 ==> r in s.received)
  {
    StartsEmpty();
    CommandsInOnePlace(System(EMPTY, {}), events);
    var s := Run(System(EMPTY, {}), events);
    assert Places(s.table, r) == if r in s.received then 1 else 0;
  }

  lemma StartsEmpty()
    ensures OnePlace(EMPTY, {})
  {
    forall r
      ensures Places(EMPTY, r) == 0
    {
      assert KeysOf(map[], r) == {};
    }
  }

  // ------------------------------------------------------------------ deadlines

  ghost predicate Monotone(now: nat -> int) {
    forall i: nat, j: nat :: i <= j ==> now(i) <= now(j)
  }

  lemma {:induction false} DeferredAhead(t: Table, ds: seq<Deferred>, now: nat -> int, sent: nat -> bool, from: nat, start: int)
    requires Monotone(now) && start <= now(from)
    requires forall d :: d in t.deferred ==> start < d.deadline
    ensures forall d :: d in ExecuteAll(t, ds, now, sent, from).deferred ==> start < d.deadline
    decreases |ds|
  {
    if ds != [] {
      assert now(from) <= now(from + 1);
      DeferredAhead(Execute(t, ds[0].command, ds[0].deadline, now(from), sent(from)), ds[1..], now, sent, from + 1, start);
    }
  }

  lemma {:induction false} CollectDefersNothing(t: Table, results: seq<Key>)
    ensures Collect(t, results).deferred == t.deferred
    decreases |results|
  {
    if results != [] {
      var u := if results[0] in t.awaiting
        then Post(t.(awaiting := t.awaiting - {results[0]}), t.awaiting[results[0]]) else t;
      CollectDefersNothing(u, results[1..]);
    }
  }

  /** No command is still deferred after a poll that began at or past its deadline. */
  lemma NoneOverdueAfterPoll(t: Table, now: nat -> int, sent: nat -> bool, results: seq<Key>)
    requires Monotone(now)
    ensures forall d :: d in Poll(t, now, sent, results).deferred ==> now(0) < d.deadline
  {
    DeferredAhead(t.(deferred := []), t.deferred, now, sent, 0, now(0));
    CollectDefersNothing(ExecuteAll(t.(deferred := []), t.deferred, now, sent, 0), results);
  }

  // ----------------------------------------------------------------- message ids

  /** Every message in flight is older than its view's next id. */
  ghost predicate IdsBehind(t: Table) {
    forall k :: k in t.awaiting ==> k.pane in t.views && 1 <= k.message < t.views[k.pane].nextId
  }

  /** While a view's ids do not wrap, executing a command loses nothing. */
  lemma NothingLostBeforeWrap(t: Table, c: Command, deadline: int, now: int, sent: bool)
    requires IdsBehind(t)
    requires c.pane in t.views ==> 1 <= t.views[c.pane].nextId < MAX_ID
    ensures var u := Execute(t, c, deadline, now, sent); IdsBehind(u) && u.lost == t.lost
  {
  }
}
