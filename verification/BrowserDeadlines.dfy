/**
 How long a browser command waits for its pane (browser.rs:796-912, 919-935): ten
 seconds from the moment it was received, however often it is tried meanwhile.
 */
module BrowserDeadlines {
  import opened Common
  import opened BrowserCommands
  import opened BrowserCommandRuns

  // ------------------------------------------------------------ one poll

  /** The pane has a view and, for a DevTools call, its browser exists. */
  ghost predicate PaneReady(t: Table, c: Command) {
    c.pane in t.views && (c.action == Navigation || t.views[c.pane].created)
  }

  /** What is left of the deferred commands when each is tried at its own time:
      those that are not ready and not yet due, with the deadlines they had. */
  ghost function StillWaiting(t: Table, ds: seq<Deferred>, now: nat -> int, from: nat): seq<Deferred>
    decreases |ds|
  {
    if ds == [] then []
    else
      (if !PaneReady(t, ds[0].command) && now(from) < ds[0].deadline then [ds[0]] else [])
      + StillWaiting(t, ds[1..], now, from + 1)
  }

  /** Panes have the same views in the same state. */
  ghost predicate SamePanes(t: Table, u: Table) {
    t.views.Keys == u.views.Keys && forall p :: p in t.views ==> t.views[p].created == u.views[p].created
  }

  lemma {:induction false} WaitingAsBefore(t: Table, u: Table, ds: seq<Deferred>, now: nat -> int, from: nat)
    requires SamePanes(t, u)
    ensures StillWaiting(t, ds, now, from) == StillWaiting(u, ds, now, from)
    decreases |ds|
  {
    if ds != [] {
      WaitingAsBefore(t, u, ds[1..], now, from + 1);
    }
  }

  lemma ExecuteDefers(t: Table, c: Command, deadline: int, now: int, sent: bool)
    ensures var u := Execute(t, c, deadline, now, sent);
      && SamePanes(t, u)
      && u.deferred == t.deferred + if !PaneReady(t, c) && now < deadline then [Deferred(c, deadline)] else []
  {
    var u := Execute(t, c, deadline, now, sent);
    assert t.deferred + [] == t.deferred;
    assert u.views.Keys == t.views.Keys;
  }

  lemma {:induction false} RetriesDefer(t: Table, ds: seq<Deferred>, now: nat -> int, sent: nat -> bool, from: nat)
    ensures var u := ExecuteAll(t, ds, now, sent, from);
      SamePanes(t, u) && u.deferred == t.deferred + StillWaiting(t, ds, now, from)
    decreases |ds|
  {
    hide Execute, PaneReady;
    if ds != [] {
      var d := ds[0];
      var u := Execute(t, d.command, d.deadline, now(from), sent(from));
      ExecuteDefers(t, d.command, d.deadline, now(from), sent(from));
      RetriesDefer(u, ds[1..], now, sent, from + 1);
      WaitingAsBefore(t, u, ds[1..], now, from + 1);
      Associative(t.deferred, if !PaneReady(t, d.command) && now(from) < d.deadline then [d] else [],
                  StillWaiting(t, ds[1..], now, from + 1));
    }
  }

  /** Answered results are answered, once each, and nothing else changes. */
  lemma {:induction false} CollectAnswers(t: Table, results: seq<Key>)
    ensures var u := Collect(t, results);
      && u.awaiting == t.awaiting - (set k | k in results)
      && u.views == t.views && u.deferred == t.deferred && u.lost == t.lost
      && |u.posted| >= |t.posted| && u.posted[..|t.posted|] == t.posted
    decreases |results|
  {
    if results != [] {
      var u := if results[0] in t.awaiting
        then Post(t.(awaiting := t.awaiting - {results[0]}), t.awaiting[results[0]]) else t;
      CollectAnswers(u, results[1..]);
      assert (set k | k in results) == {results[0]} + (set k | k in results[1..]);
      assert t.awaiting - {results[0]} - (set k | k in results[1..]) == t.awaiting - (set k | k in results);
    }
  }

  /** A poll leaves deferred exactly what is neither ready nor due, in order, with
      the deadlines it had. */
  lemma PollDefers(t: Table, now: nat -> int, sent: nat -> bool, results: seq<Key>)
    ensures Poll(t, now, sent, results).deferred == StillWaiting(t, t.deferred, now, 0)
    ensures SamePanes(t, Poll(t, now, sent, results))
  {
    var cleared := t.(deferred := []);
    RetriesDefer(cleared, t.deferred, now, sent, 0);
    CollectAnswers(ExecuteAll(cleared, t.deferred, now, sent, 0), results);
    WaitingAsBefore(t, cleared, t.deferred, now, 0);
  }

  lemma {:induction false} WaitingAre(t: Table, ds: seq<Deferred>, now: nat -> int, from: nat, start: int)
    requires forall i: nat :: i >= from ==> start <= now(i)
    ensures forall d :: d in StillWaiting(t, ds, now, from) ==> d in ds && start < d.deadline
    decreases |ds|
  {
    if ds != [] {
      WaitingAre(t, ds[1..], now, from + 1, start);
    }
  }

  lemma {:induction false} WaitingKeeps(t: Table, ds: seq<Deferred>, now: nat -> int, from: nat, d: Deferred)
    requires d in ds && !PaneReady(t, d.command) && forall i: nat :: now(i) < d.deadline
    ensures d in StillWaiting(t, ds, now, from)
    decreases |ds|
  {
    if ds[0] != d {
      WaitingKeeps(t, ds[1..], now, from + 1, d);
    }
  }

  // ------------------------------------------------------------ deadlines over runs

  /** Event `i` is the one by which its command was received. */
  ghost predicate Receipt(events: seq<Event>, i: nat) {
    && i < |events| && events[i].Receive?
    && forall j :: 0 <= j < i && events[j].Receive? ==> events[j].command.request != events[i].command.request
  }

  ghost predicate FromReceipt(events: seq<Event>, d: Deferred) {
    exists i: nat :: Receipt(events, i) && events[i].command == d.command && d.deadline == events[i].at + 10
  }

  ghost predicate AllFromReceipts(events: seq<Event>, s: System) {
    && (forall d :: d in s.table.deferred ==> FromReceipt(events, d))
    && (forall r :: r in s.received <==> exists i :: 0 <= i < |events| && events[i].Receive? && events[i].command.request == r)
  }

  lemma StillFromReceipt(events: seq<Event>, e: Event, d: Deferred)
    requires FromReceipt(events, d)
    ensures FromReceipt(events + [e], d)
  {
    var i: nat :| Receipt(events, i) && events[i].command == d.command && d.deadline == events[i].at + 10;
    assert Receipt(events + [e], i) && (events + [e])[i] == events[i];
  }

  lemma ReceivedGrows(events: seq<Event>, e: Event, s: System)
    requires AllFromReceipts(events, s)
    ensures forall r :: r in Step(s, e).received <==>
      exists i :: 0 <= i < |events + [e]| && (events + [e])[i].Receive? && (events + [e])[i].command.request == r
  {
    var all := events + [e];
    assert all[|events|] == e && forall i :: 0 <= i < |events| ==> all[i] == events[i];
    assert Step(s, e).received == if e.Receive? then s.received + {e.command.request} else s.received;
    forall r | r in Step(s, e).received
      ensures exists i :: 0 <= i < |all| && all[i].Receive? && all[i].command.request == r
    {
      if r in s.received {
        var i :| 0 <= i < |events| && events[i].Receive? && events[i].command.request == r;
        assert all[i].Receive?;
      } else {
        assert all[|events|].Receive?;
      }
    }
  }

  lemma StepFromReceipts(events: seq<Event>, e: Event, s: System)
    requires AllFromReceipts(events, s)
    ensures AllFromReceipts(events + [e], Step(s, e))
  {
    ReceivedGrows(events, e, s);
    hide Execute, Poll, Post, FromReceipt;
    forall d | d in Step(s, e).table.deferred
      ensures FromReceipt(events + [e], d)
    {
      match e {
        case Receive(c, at, sent) =>
          if c.request !in s.received {
            ExecuteDefers(s.table, c, at + DEADLINE_SECONDS, at, sent);
          }
          if d in s.table.deferred {
            StillFromReceipt(events, e, d);
          } else {
            JustReceived(events, e, s, d);
          }
        case PollAt(now, sentAll, results) =>
          PollDefers(s.table, now, sentAll, results);
          WaitingAreThere(s.table, s.table.deferred, now, 0);
          StillFromReceipt(events, e, d);
        case _ =>
          StillFromReceipt(events, e, d);
      }
    }
  }

  lemma JustReceived(events: seq<Event>, e: Event, s: System, d: Deferred)
    requires AllFromReceipts(events, s)
    requires e.Receive? && e.command.request !in s.received && d == Deferred(e.command, e.at + DEADLINE_SECONDS)
    ensures FromReceipt(events + [e], d)
  {
    var all := events + [e];
    assert all[|events|] == e && forall i :: 0 <= i < |events| ==> all[i] == events[i];
    assert Receipt(all, |events|);
  }

  lemma {:induction false} WaitingAreThere(t: Table, ds: seq<Deferred>, now: nat -> int, from: nat)
    ensures forall d :: d in StillWaiting(t, ds, now, from) ==> d in ds
    decreases |ds|
  {
    if ds != [] {
      WaitingAreThere(t, ds[1..], now, from + 1);
    }
  }

  /** Over every run, each stored deadline is the moment its command was received,
      plus ten seconds. */
  lemma {:induction false} DeadlineIsReceiptPlusTen(events: seq<Event>)
    ensures AllFromReceipts(events, Run(EMPTY_SYSTEM, events))
    decreases |events|
  {
    if events != [] {
      var n := |events| - 1;
      DeadlineIsReceiptPlusTen(events[..n]);
      RunSnoc(EMPTY_SYSTEM, events[..n], events[n]);
      StepFromReceipts(events[..n], events[n], Run(EMPTY_SYSTEM, events[..n]));
      assert events[..n] + [events[n]] == events;
    }
  }

  ghost predicate IsDeferred(s: System, r: Request) {
    exists d :: d in s.table.deferred && d.command.request == r
  }

  /** Once a command has been dealt with it is not deferred again. */
  lemma {:induction false} NeverDeferredAgain(s: System, events: seq<Event>, r: Request)
    requires r in s.received && !IsDeferred(s, r)
    ensures !IsDeferred(Run(s, events), r)
    decreases |events|
  {
    if events != [] {
      var e := events[0];
      hide Execute, Poll, Post;
      match e {
        case Receive(c, at, sent) => ExecuteDefers(s.table, c, at + DEADLINE_SECONDS, at, sent);
        case PollAt(now, sentAll, results) =>
          PollDefers(s.table, now, sentAll, results);
          WaitingAreThere(s.table, s.table.deferred, now, 0);
        case _ =>
      }
      assert !IsDeferred(Step(s, e), r);
      NeverDeferredAgain(Step(s, e), events[1..], r);
    }
  }

  lemma {:induction false} RunConcat(s: System, before: seq<Event>, after: seq<Event>)
    ensures Run(s, before + after) == Run(Run(s, before), after)
    decreases |before|
  {
    hide Step;
    if before == [] {
      assert before + after == after;
    } else {
      assert (before + after)[1..] == before[1..] + after;
      RunConcat(Step(s, before[0]), before[1..], after);
    }
  }

  lemma SameReceipt(events: seq<Event>, i: nat, j: nat)
    requires Receipt(events, i) && Receipt(events, j) && events[i].command.request == events[j].command.request
    ensures i == j
  {
  }

  /** A poll that begins ten seconds or more after a command was received ends its
      wait for good, whatever else happened before or happens later. */
  lemma WaitEndsWithinTen(before: seq<Event>, now: nat -> int, sent: nat -> bool, results: seq<Key>, after: seq<Event>, i: nat)
    requires Receipt(before, i) && Monotone(now) && now(0) >= before[i].at + 10
    ensures !IsDeferred(Run(EMPTY_SYSTEM, before + [PollAt(now, sent, results)] + after), before[i].command.request)
  {
    hide Run, Step, Poll;
    var poll, r := PollAt(now, sent, results), before[i].command.request;
    var s := Run(EMPTY_SYSTEM, before);
    DeadlineIsReceiptPlusTen(before);
    RunConcat(EMPTY_SYSTEM, before + [poll], after);
    RunSnoc(EMPTY_SYSTEM, before, poll);
    var polled := Step(s, poll);
    AfterPoll(s, now, sent, results);
    PollDefers(s.table, now, sent, results);
    WaitingAre(s.table, s.table.deferred, now, 0, now(0));
    forall d | d in polled.table.deferred
      ensures d.command.request != r
    {
      var j: nat :| Receipt(before, j) && before[j].command == d.command && d.deadline == before[j].at + 10;
      if d.command.request == r {
        SameReceipt(before, i, j);
      }
    }
    NeverDeferredAgain(polled, after, r);
  }

  lemma AfterPoll(s: System, now: nat -> int, sent: nat -> bool, results: seq<Key>)
    ensures Step(s, PollAt(now, sent, results)) == System(Poll(s.table, now, sent, results), s.received)
  {
  }

  // ------------------------------------------------------------ panes that never open

  ghost predicate NeverOpens(events: seq<Event>, pane: Uuid) {
    forall i :: 0 <= i < |events| ==> events[i] != OpenView(pane)
  }

  /** Every try of this stretch comes before `deadline`. */
  ghost predicate PollsBefore(events: seq<Event>, deadline: int) {
    forall i, k: nat :: 0 <= i < |events| && events[i].PollAt? ==> events[i].now(k) < deadline
  }

  lemma {:induction false} KeepsWaiting(s: System, events: seq<Event>, d: Deferred)
    requires d in s.table.deferred && d.command.pane !in s.table.views
    requires NeverOpens(events, d.command.pane) && PollsBefore(events, d.deadline)
    ensures d in Run(s, events).table.deferred
    decreases |events|
  {
    if events != [] {
      var e := events[0];
      hide Execute, Poll, Post;
      match e {
        case Receive(c, at, sent) => ExecuteDefers(s.table, c, at + DEADLINE_SECONDS, at, sent);
        case PollAt(now, sentAll, results) =>
          PollDefers(s.table, now, sentAll, results);
          WaitingKeeps(s.table, s.table.deferred, now, 0, d);
        case _ =>
      }
      KeepsWaiting(Step(s, e), events[1..], d);
    }
  }

  lemma {:induction false} NotOpened(s: System, events: seq<Event>, pane: Uuid)
    requires pane !in s.table.views && NeverOpens(events, pane)
    ensures pane !in Run(s, events).table.views
    decreases |events|
  {
    if events != [] {
      var e := events[0];
      hide Execute, Poll, Post;
      match e {
        case Receive(c, at, sent) => ExecuteDefers(s.table, c, at + DEADLINE_SECONDS, at, sent);
        case PollAt(now, sentAll, results) => PollDefers(s.table, now, sentAll, results);
        case _ =>
      }
      NotOpened(Step(s, e), events[1..], pane);
    }
  }

  lemma FirstTime(before: seq<Event>, e: Event)
    requires e.Receive? && Receipt(before + [e], |before|)
    ensures e.command.request !in Run(EMPTY_SYSTEM, before).received
  {
    hide Run;
    DeadlineIsReceiptPlusTen(before);
    var all := before + [e];
    assert all[|before|] == e && forall j :: 0 <= j < |before| ==> all[j] == before[j];
  }

  lemma Deferring(s: System, c: Command, at: int, sent: bool)
    requires c.pane !in s.table.views && c.request !in s.received
    ensures var u := Step(s, Receive(c, at, sent)); Deferred(c, at + 10) in u.table.deferred && c.pane !in u.table.views
  {
    hide Execute;
    ExecuteDefers(s.table, c, at + DEADLINE_SECONDS, at, sent);
  }

  /** The other side: while its pane never opens and it is only tried earlier than
      ten seconds after it was received, a command is still deferred. */
  lemma WaitLastsTen(before: seq<Event>, c: Command, at: int, sent: bool, after: seq<Event>)
    requires NeverOpens(before, c.pane) && NeverOpens(after, c.pane) && PollsBefore(after, at + 10)
    requires Receipt(before + [Receive(c, at, sent)], |before|)
    ensures Deferred(c, at + 10) in Run(EMPTY_SYSTEM, before + [Receive(c, at, sent)] + after).table.deferred
  {
    hide Run, Step, Receipt, NeverOpens, PollsBefore;
    var e := Receive(c, at, sent);
    var s := Run(EMPTY_SYSTEM, before);
    RunConcat(EMPTY_SYSTEM, before + [e], after);
    RunSnoc(EMPTY_SYSTEM, before, e);
    NotOpened(EMPTY_SYSTEM, before, c.pane);
    FirstTime(before, e);
    Deferring(s, c, at, sent);
    KeepsWaiting(Step(s, e), after, Deferred(c, at + 10));
  }

  /** The command is nowhere but deferred or answered. */
  ghost predicate WaitsOrAnswered(s: System, c: Command) {
    && c.pane !in s.table.views
    && (forall k :: k in s.table.awaiting ==> s.table.awaiting[k] != c.request) && c.request !in s.table.lost
    && (forall d :: d in s.table.deferred && d.command.request == c.request ==> d.command == c)
  }

  lemma ExecuteWaits(t: Table, received: set<Request>, d: Deferred, now: int, sent: bool, c: Command)
    requires WaitsOrAnswered(System(t, received), c) && (d.command.request == c.request ==> d.command == c)
    ensures WaitsOrAnswered(System(Execute(t, d.command, d.deadline, now, sent), received), c)
  {
  }

  lemma {:induction false} RetriesWait(t: Table, received: set<Request>, ds: seq<Deferred>, now: nat -> int, sent: nat -> bool, from: nat, c: Command)
    requires WaitsOrAnswered(System(t, received), c)
    requires forall d :: d in ds && d.command.request == c.request ==> d.command == c
    ensures WaitsOrAnswered(System(ExecuteAll(t, ds, now, sent, from), received), c)
    decreases |ds|
  {
    hide Execute, WaitsOrAnswered;
    if ds != [] {
      assert ds[0] in ds;
      ExecuteWaits(t, received, ds[0], now(from), sent(from), c);
      RetriesWait(Execute(t, ds[0].command, ds[0].deadline, now(from), sent(from)), received, ds[1..], now, sent, from + 1, c);
    }
  }

  lemma StepWaits(s: System, e: Event, c: Command)
    requires WaitsOrAnswered(s, c) && e != OpenView(c.pane)
    requires e.Receive? && e.command.request == c.request ==> e.command == c || c.request in s.received
    ensures WaitsOrAnswered(Step(s, e), c)
  {
    match e
    case Receive(command, at, sent) =>
      if command.request !in s.received {
        ExecuteWaits(s.table, s.received, Deferred(command, at + DEADLINE_SECONDS), at, sent, c);
      }
    case PollAt(now, sentAll, results) =>
      hide Execute, ExecuteAll, Collect;
      var cleared := s.table.(deferred := []);
      RetriesWait(cleared, s.received, s.table.deferred, now, sentAll, 0, c);
      CollectAnswers(ExecuteAll(cleared, s.table.deferred, now, sentAll, 0), results);
    case _ =>
  }

  lemma {:induction false} RunWaits(events: seq<Event>, i: nat)
    requires Receipt(events, i) && NeverOpens(events, events[i].command.pane)
    ensures WaitsOrAnswered(Run(EMPTY_SYSTEM, events), events[i].command)
    decreases |events|
  {
    WaitsThrough(events, i, |events|);
    assert events[..|events|] == events;
  }

  lemma {:induction false} WaitsThrough(events: seq<Event>, i: nat, n: nat)
    requires Receipt(events, i) && NeverOpens(events, events[i].command.pane) && n <= |events|
    ensures WaitsOrAnswered(Run(EMPTY_SYSTEM, events[..n]), events[i].command)
  {
    if n > 0 {
      hide WaitsOrAnswered, Step, Run;
      WaitsThrough(events, i, n - 1);
      var front := events[..n - 1];
      assert events[..n] == front + [events[n - 1]];
      RunSnoc(EMPTY_SYSTEM, front, events[n - 1]);
      DeadlineIsReceiptPlusTen(front);
      var c, e := events[i].command, events[n - 1];
      if e.Receive? && e.command.request == c.request && e.command != c {
        assert i < n - 1 && front[i] == events[i];
      }
      StepWaits(Run(EMPTY_SYSTEM, front), e, c);
    }
  }

  /** A command for a pane that never opens is answered by the first poll that
      begins ten seconds or more after it was received, and stays answered. */
  lemma NeverReadyIsAnswered(before: seq<Event>, now: nat -> int, sent: nat -> bool, results: seq<Key>, after: seq<Event>, i: nat)
    requires Receipt(before, i) && Monotone(now) && now(0) >= before[i].at + 10
    requires NeverOpens(before, before[i].command.pane) && NeverOpens(after, before[i].command.pane)
    ensures Count(Run(EMPTY_SYSTEM, before + [PollAt(now, sent, results)] + after).table.posted, before[i].command.request) == 1
  {
    var events := before + [PollAt(now, sent, results)] + after;
    var c := before[i].command;
    assert forall j :: 0 <= j < |before| ==> events[j] == before[j];
    assert Receipt(events, i);
    assert NeverOpens(events, c.pane);
    WaitEndsWithinTen(before, now, sent, results, after, i);
    RunWaits(events, i);
    DeadlineIsReceiptPlusTen(events);
    StartsEmpty();
    CommandsInOnePlace(EMPTY_SYSTEM, events);
    OnlyAnswered(Run(EMPTY_SYSTEM, events), c);
  }

  lemma OnlyAnswered(s: System, c: Command)
    requires WaitsOrAnswered(s, c) && !IsDeferred(s, c.request) && c.request in s.received && OnePlace(s.table, s.received)
    ensures Count(s.table.posted, c.request) == 1
  {
    var r := c.request;
    assert Places(s.table, r) == 1;
    assert KeysOf(s.table.awaiting, r) == {};
    assert forall i :: 0 <= i < |s.table.deferred| ==> s.table.deferred[i] in s.table.deferred;
    assert Count(Requests(s.table.deferred), r) == 0;
  }
}
