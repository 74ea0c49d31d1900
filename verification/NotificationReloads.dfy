/**
 Reload requests over whole runs (reconcile.rs:202-258, notifications.rs:274-298,
 348, 403, main.rs:610, bots/mod.rs:177). Polls are not the only callers: start-up,
 read marks and the sidebar refresh too, and any answer ends the mirror's wait.
 */
module NotificationReloads {
  import opened Common
  import opened Notifications
  import opened NotificationMirror
  import opened NotificationRuns

  /** The desk just before event `i`, or at the end. */
  function At(events: seq<Event>, i: nat): Desk
    requires i <= |events|
  {
    Run(START, events[..i])
  }

  /** How many requests have been answered. */
  function Taken(events: seq<Event>): nat {
    if events == [] then 0
    else
      var front := events[..|events| - 1];
      Taken(front) + if Takes(Run(START, front), events[|events| - 1]) then 1 else 0
  }

  // ------------------------------------------------------------ the lane

  /** The lane holds the newest tickets, in the order of their numbers. */
  ghost predicate InOrder(d: Desk) {
    |d.lane| <= d.issued && forall k :: 0 <= k < |d.lane| ==> d.lane[k].number == d.issued - |d.lane| + k
  }

  lemma {:induction false} LaneIsUnanswered(events: seq<Event>)
    ensures var d := Run(START, events); InOrder(d) && d.issued == Taken(events) + |d.lane|
  {
    hide Asks, MirrorAfter;
    if events != [] {
      LaneIsUnanswered(events[..|events| - 1]);
    }
  }

  lemma {:induction false} IssuedGrows(events: seq<Event>, i: nat)
    requires i <= |events|
    ensures At(events, i).issued <= Run(START, events).issued && Taken(events[..i]) <= Taken(events)
  {
    hide Asks, MirrorAfter;
    if i == |events| {
      assert events[..i] == events;
    } else {
      var front := events[..|events| - 1];
      IssuedGrows(front, i);
      assert front[..i] == events[..i];
    }
  }

  lemma IssuedByThen(events: seq<Event>, k: nat, i: nat)
    requires k <= i <= |events|
    ensures At(events, k).issued <= At(events, i).issued
  {
    hide Run;
    IssuedGrows(events[..i], k);
    assert events[..i][..k] == events[..k];
  }

  lemma CutOne(events: seq<Event>, i: nat)
    requires i < |events|
    ensures events[..i + 1][..i] == events[..i] && At(events, i + 1) == Step(At(events, i), events[i])
    ensures Taken(events[..i + 1]) == Taken(events[..i]) + if Takes(At(events, i), events[i]) then 1 else 0
  {
    assert events[..i + 1][..i] == events[..i];
  }

  /** The request queued at event `i` is still unanswered at the end. */
  predicate StillQueued(events: seq<Event>, i: nat)
    requires i < |events|
  {
    exists k :: 0 <= k < |Run(START, events).lane| && Run(START, events).lane[k].number == At(events, i).issued
  }

  /** A request is still unanswered exactly while no more answers have come than it had requests ahead of it. */
  lemma StillQueuedIff(events: seq<Event>, i: nat)
    requires i < |events| && Queues(At(events, i), events[i])
    ensures StillQueued(events, i) <==> Taken(events) - Taken(events[..i]) <= |At(events, i).lane|
  {
    hide Asks, MirrorAfter, Run, Taken;
    var d, earlier := Run(START, events), At(events, i);
    LaneIsUnanswered(events);
    LaneIsUnanswered(events[..i]);
    CutOne(events, i);
    IssuedGrows(events, i + 1);
    var k := earlier.issued - (d.issued - |d.lane|);
    if k >= 0 {
      assert d.lane[k].number == earlier.issued;
    }
  }

  /** Every ticket in the lane was issued by some event of the run. */
  lemma {:induction false} TicketHasOrigin(events: seq<Event>, k: nat)
    requires k < |Run(START, events).lane|
    ensures var t := Run(START, events).lane[k];
            exists i :: 0 <= i < |events| && Queues(At(events, i), events[i]) && At(events, i).issued == t.number
                        && (t.byPoll <==> AsksAt(At(events, i), events[i]))
  {
    hide Asks, MirrorAfter;
    var front, last := events[..|events| - 1], events[|events| - 1];
    var d := Run(START, front);
    if Queues(d, last) && k == |d.lane| {
      assert At(events, |events| - 1) == d;
      var i := |events| - 1;
      assert Queues(At(events, i), events[i]);
    } else {
      var k' := if Takes(d, last) && !Queues(d, last) then k + 1 else k;
      TicketHasOrigin(front, k');
      var i :| 0 <= i < |front| && Queues(At(front, i), front[i]) && At(front, i).issued == d.lane[k'].number
               && (d.lane[k'].byPoll <==> AsksAt(At(front, i), front[i]));
      assert front[..i] == events[..i];
      assert Queues(At(events, i), events[i]);
    }
  }

  /** And an unanswered request is in the lane under its sender's name. */
  lemma {:induction false} TicketKeepsSender(events: seq<Event>, i: nat, k: nat)
    requires i < |events| && Queues(At(events, i), events[i]) && k < |Run(START, events).lane|
    requires Run(START, events).lane[k].number == At(events, i).issued
    ensures Run(START, events).lane[k].byPoll <==> events[i].Poll?
  {
    hide Asks, MirrorAfter;
    var front, last := events[..|events| - 1], events[|events| - 1];
    var d := Run(START, front);
    LaneIsUnanswered(front);
    if i == |events| - 1 {
      assert events[..i] == front;
    } else {
      assert front[..i] == events[..i];
      CutOne(events, i);
      IssuedGrows(front, i + 1);
      assert front[..i + 1] == events[..i + 1];
      var k' := if Takes(d, last) && !Queues(d, last) then k + 1 else k;
      TicketKeepsSender(front, i, k');
    }
  }

  // ------------------------------------------------------------ when the mirror waits

  predicate AsksIn(events: seq<Event>, i: nat)
    requires i < |events|
  {
    AsksAt(At(events, i), events[i])
  }

  predicate TakesIn(events: seq<Event>, i: nat)
    requires i < |events|
  {
    Takes(At(events, i), events[i])
  }

  lemma SameBefore(events: seq<Event>, i: nat)
    requires i + 1 < |events|
    ensures var front := events[..|events| - 1];
            front[i] == events[i] && At(front, i) == At(events, i)
            && AsksIn(front, i) == AsksIn(events, i) && TakesIn(front, i) == TakesIn(events, i)
  {
    assert events[..|events| - 1][..i] == events[..i];
  }

  lemma WaitStep(d: Desk, e: Event)
    ensures Step(d, e).m.reloading == if Takes(d, e) then false else d.m.reloading || AsksAt(d, e)
  {
    hide NewerThan, SortById, Fold, Newest, Gap;
  }

  /** A poll asked, and no answer has come since. */
  ghost predicate Unanswered(events: seq<Event>) {
    exists i: nat :: i < |events| && AsksIn(events, i) && forall j: nat :: i < j < |events| ==> !TakesIn(events, j)
  }

  /** In every run, whoever else refreshes: the mirror waits exactly if no answer has come since a poll last asked. */
  lemma {:induction false} WaitsIff(events: seq<Event>)
    ensures Run(START, events).m.reloading <==> Unanswered(events)
  {
    hide Step, AsksIn, TakesIn, At;
    if events != [] {
      var n := |events| - 1;
      var front := events[..n];
      WaitsIff(front);
      WaitStep(Run(START, front), events[n]);
      LastEvent(events);
      forall i: nat | i < n
        ensures AsksIn(front, i) == AsksIn(events, i) && TakesIn(front, i) == TakesIn(events, i)
      {
        SameBefore(events, i);
      }
      if Unanswered(front) && !TakesIn(events, n) {
        var i: nat :| i < |front| && AsksIn(front, i) && forall j: nat :: i < j < |front| ==> !TakesIn(front, j);
        assert AsksIn(events, i) && forall j: nat :: i < j < |events| ==> !TakesIn(events, j);
      }
      if Unanswered(events) && !AsksIn(events, n) {
        var i: nat :| i < |events| && AsksIn(events, i) && forall j: nat :: i < j < |events| ==> !TakesIn(events, j);
        assert AsksIn(front, i) && forall j: nat :: i < j < |front| ==> !TakesIn(front, j);
      }
    }
  }

  lemma LastEvent(events: seq<Event>)
    requires events != []
    ensures var n := |events| - 1;
            AsksIn(events, n) == AsksAt(Run(START, events[..n]), events[n])
            && TakesIn(events, n) == Takes(Run(START, events[..n]), events[n])
            && !(AsksIn(events, n) && TakesIn(events, n))
  {
  }

  // ------------------------------------------------------------ asking over one's own request

  /** The poll wants a reload: another ring, or new ids that do not continue the cursor. */
  predicate Wants(m: Mirror, epoch: Uuid, deltas: seq<Item>) {
    m.epoch != Some(epoch) || !Contiguous(m.latest, NewerThan(deltas, m.latest))
  }

  ghost predicate OwnQueued(d: Desk) {
    exists k :: 0 <= k < |d.lane| && d.lane[k].byPoll
  }

  /**
   A poll queued a request at `i` that still has no answer; at `j` a request ahead of it
   was answered or failed; and no poll has asked since.
   */
  ghost predicate Overtaken(events: seq<Event>, i: nat, j: nat) {
    && i < j < |events| && AsksIn(events, i) && events[i].room && StillQueued(events, i)
    && TakesIn(events, j) && forall k: nat :: j < k < |events| ==> !AsksIn(events, k)
  }

  /** If a poll asked and the mirror no longer waits, an answer came that no ask has followed. */
  lemma {:induction false} WaitEnded(events: seq<Event>, i: nat) returns (j: nat)
    requires i < |events| && AsksIn(events, i) && !Run(START, events).m.reloading
    ensures i < j < |events| && TakesIn(events, j) && forall k: nat :: j < k < |events| ==> !AsksIn(events, k)
  {
    hide Step, AsksIn, TakesIn, At;
    var n := |events| - 1;
    var front := events[..n];
    WaitStep(Run(START, front), events[n]);
    LastEvent(events);
    if TakesIn(events, n) {
      j := n;
    } else {
      SameBefore(events, i);
      j := WaitEnded(front, i);
      forall k: nat | k < n
        ensures AsksIn(front, k) == AsksIn(events, k) && TakesIn(front, k) == TakesIn(events, k)
      {
        SameBefore(events, k);
      }
    }
  }

  lemma {:induction false} NoWaitAfter(events: seq<Event>, j: nat)
    requires j < |events| && TakesIn(events, j) && forall k: nat :: j < k < |events| ==> !AsksIn(events, k)
    ensures !Run(START, events).m.reloading
  {
    hide Step, AsksIn, TakesIn, At;
    var n := |events| - 1;
    var front := events[..n];
    WaitStep(Run(START, front), events[n]);
    LastEvent(events);
    if j < n {
      SameBefore(events, j);
      forall k: nat | j < k < n
        ensures !AsksIn(front, k)
      {
        SameBefore(events, k);
      }
      NoWaitAfter(front, j);
    }
  }

  /**
   After any run, a poll asks while a poll's earlier request is still unanswered exactly
   when it wants a reload and such a request has been overtaken: an answer to somebody
   ahead of it came in between.
   */
  lemma AsksOverOwnIff(events: seq<Event>, next: Event)
    requires next.Poll?
    ensures var d := Run(START, events);
            (AsksAt(d, next) && OwnQueued(d))
            <==> (Wants(d.m, next.epoch, next.deltas) && exists i: nat, j: nat :: Overtaken(events, i, j))
  {
    hide Step, TakesIn, Run, Asks, StillQueued;
    var d := Run(START, events);
    AsksIff(d.m, next.epoch, next.deltas);
    if AsksAt(d, next) && OwnQueued(d) {
      var k :| 0 <= k < |d.lane| && d.lane[k].byPoll;
      QueuedByPoll(events, k);
      var i: nat :| i < |events| && AsksIn(events, i) && events[i].room && StillQueued(events, i);
      var j := WaitEnded(events, i);
      assert Overtaken(events, i, j);
    }
    if i: nat, j: nat :| Overtaken(events, i, j) {
      NoWaitAfter(events, j);
      PollStillQueued(events, i);
    }
  }

  lemma QueuedByPoll(events: seq<Event>, k: nat)
    requires k < |Run(START, events).lane| && Run(START, events).lane[k].byPoll
    ensures exists i: nat :: i < |events| && AsksIn(events, i) && events[i].room && StillQueued(events, i)
  {
    hide Run, Asks;
    TicketHasOrigin(events, k);
    var i :| 0 <= i < |events| && Queues(At(events, i), events[i])
             && At(events, i).issued == Run(START, events).lane[k].number && AsksAt(At(events, i), events[i]);
    assert AsksIn(events, i) && StillQueued(events, i);
  }

  lemma PollStillQueued(events: seq<Event>, i: nat)
    requires i < |events| && AsksIn(events, i) && events[i].room && StillQueued(events, i)
    ensures OwnQueued(Run(START, events))
  {
    hide Run, Asks;
    var k :| 0 <= k < |Run(START, events).lane| && Run(START, events).lane[k].number == At(events, i).issued;
    TicketKeepsSender(events, i, k);
  }

  /** The request taken by an overtaking answer was ahead of the poll's, and the counts say how far. */
  lemma OvertakenByCount(events: seq<Event>, i: nat, j: nat)
    requires Overtaken(events, i, j)
    ensures 1 <= Taken(events) - Taken(events[..i]) <= |At(events, i).lane|
  {
    hide Run, Asks, Taken;
    StillQueuedIff(events, i);
    IssuedGrows(events, j + 1);
    CutOne(events, j);
    IssuedGrows(events[..j], i);
    assert events[..j][..i] == events[..i];
  }

  // ------------------------------------------------------------ how many are outstanding

  function ByPolls(lane: seq<Ticket>): nat {
    if lane == [] then 0 else ByPolls(lane[..|lane| - 1]) + if lane[|lane| - 1].byPoll then 1 else 0
  }

  lemma {:induction false} ByPollsIff(lane: seq<Ticket>)
    ensures ByPolls(lane) == 0 <==> forall k :: 0 <= k < |lane| ==> !lane[k].byPoll
  {
    if lane != [] {
      ByPollsIff(lane[..|lane| - 1]);
    }
  }

  lemma {:induction false} ByPollsTail(lane: seq<Ticket>)
    requires lane != []
    ensures ByPolls(lane[1..]) <= ByPolls(lane)
  {
    if |lane| > 1 {
      ByPollsTail(lane[..|lane| - 1]);
      assert lane[1..][..|lane| - 2] == lane[..|lane| - 1][1..];
    }
  }

  lemma ByPollsMore(lane: seq<Ticket>, t: Ticket)
    ensures ByPolls(lane + [t]) == ByPolls(lane) + if t.byPoll then 1 else 0
  {
    assert (lane + [t])[..|lane|] == lane;
  }

  /** Some poll queues a request over an unanswered request of a poll. */
  ghost predicate QueuesOverOwn(events: seq<Event>, i: nat) {
    i < |events| && AsksIn(events, i) && events[i].room && OwnQueued(At(events, i))
  }

  lemma StepPolls(d: Desk, e: Event)
    requires ByPolls(d.lane) <= 1
    ensures ByPolls(Step(d, e).lane) <= 1 <==> !(AsksAt(d, e) && e.room && OwnQueued(d))
  {
    hide MirrorAfter, Asks, ByPolls;
    ByPollsIff(d.lane);
    ByPollsMore(d.lane, Ticket(d.issued, e.Poll?));
    if d.lane != [] {
      ByPollsTail(d.lane);
    }
  }

  /** Polls have at most one request outstanding throughout a run exactly if none asks over its own. */
  lemma {:induction false} OneReloadIff(events: seq<Event>)
    ensures (forall n: nat :: n <= |events| ==> ByPolls(At(events, n).lane) <= 1)
            <==> (forall i: nat :: !QueuesOverOwn(events, i))
  {
    hide Step, AsksIn, ByPolls, OwnQueued, At;
    forall i: nat | i < |events|
      ensures At(events, i + 1) == Step(At(events, i), events[i]) && AsksIn(events, i) == AsksAt(At(events, i), events[i])
    {
      StepAt(events, i);
    }
    if forall i: nat :: !QueuesOverOwn(events, i) {
      forall n: nat | n <= |events|
        ensures ByPolls(At(events, n).lane) <= 1
      {
        OneReloadUpTo(events, n);
      }
    }
    if forall n: nat :: n <= |events| ==> ByPolls(At(events, n).lane) <= 1 {
      forall i: nat
        ensures !QueuesOverOwn(events, i)
      {
        if i < |events| {
          StepPolls(At(events, i), events[i]);
          assert ByPolls(At(events, i + 1).lane) <= 1;
        }
      }
    }
  }

  lemma StepAt(events: seq<Event>, i: nat)
    requires i < |events|
    ensures At(events, i + 1) == Step(At(events, i), events[i]) && AsksIn(events, i) == AsksAt(At(events, i), events[i])
  {
    CutOne(events, i);
  }

  lemma {:induction false} OneReloadUpTo(events: seq<Event>, n: nat)
    requires n <= |events| && forall i: nat :: !QueuesOverOwn(events, i)
    ensures ByPolls(At(events, n).lane) <= 1
  {
    if n > 0 {
      hide Step, AsksIn, OwnQueued, ByPolls, At;
      OneReloadUpTo(events, n - 1);
      StepAt(events, n - 1);
      assert !QueuesOverOwn(events, n - 1);
      StepPolls(At(events, n - 1), events[n - 1]);
    } else {
      assert events[..0] == [];
    }
  }

  /** More than one request is outstanding exactly if one was queued while an earlier one still has no answer. */
  lemma SeveralOutstandingIff(events: seq<Event>)
    ensures |Run(START, events).lane| > 1
            <==> exists i: nat, k: nat :: i < k < |events| && Queues(At(events, i), events[i])
                                         && Queues(At(events, k), events[k]) && StillQueued(events, i)
  {
    hide Asks, MirrorAfter, Run, Taken, Queues;
    var d := Run(START, events);
    LaneIsUnanswered(events);
    if |d.lane| > 1 {
      TicketHasOrigin(events, 0);
      TicketHasOrigin(events, 1);
      var i :| 0 <= i < |events| && Queues(At(events, i), events[i]) && At(events, i).issued == d.lane[0].number;
      var k :| 0 <= k < |events| && Queues(At(events, k), events[k]) && At(events, k).issued == d.lane[1].number;
      if k <= i {
        IssuedByThen(events, k, i);
      }
      assert StillQueued(events, i);
    }
    if i: nat, k: nat :| i < k < |events| && Queues(At(events, i), events[i]) && Queues(At(events, k), events[k])
                         && StillQueued(events, i) {
      LaterIssued(events, i, k);
    }
  }

  lemma LaterIssued(events: seq<Event>, i: nat, k: nat)
    requires i < k < |events| && Queues(At(events, i), events[i]) && Queues(At(events, k), events[k])
    ensures At(events, i).issued < At(events, k).issued < Run(START, events).issued
  {
    hide Asks, MirrorAfter, Run;
    StepAt(events, i);
    StepAt(events, k);
    IssuedGrows(events, k + 1);
    IssuedGrows(events[..k], i + 1);
    assert events[..k][..i + 1] == events[..i + 1];
  }

  /** The first poll at start-up, the refresh that follows it, and polls that miss an id before each of two answers. */
  function StartUp(epoch: Uuid, a: Item, b: Item): seq<Event> {
    [Poll(epoch, [], true), Refresh(true), Answered([], epoch), Poll(epoch, [a], true), Answered([a], epoch),
     Poll(epoch, [b], true)]
  }

  lemma MissedAsks(m: Mirror, epoch: Uuid, missed: Item)
    requires m.epoch == Some(epoch) && !m.reloading && missed.id > m.latest + 1
    ensures Asks(m, epoch, [missed])
  {
    hide Fold, Newest;
    assert [missed][..0] == [];
    assert NewerThan([missed], m.latest) == [missed];
    assert SortById([missed]) == [missed];
    assert [missed][0].id != m.latest + 1 + 0;
  }

  /** The poll asks, the refresh is queued behind it, and the poll's request is answered. */
  lemma StartUpBegins(epoch: Uuid, a: Item, b: Item)
    ensures At(StartUp(epoch, a, b), 3) == Desk(Mirror([], 0, Some(epoch), false), [Ticket(1, false)], 2)
  {
    hide NewerThan, SortById, Fold, Newest, Gap, Run;
    var e := StartUp(epoch, a, b);
    NothingRun(e);
    StepAt(e, 0);
    assert At(e, 1) == Desk(START.m.(reloading := true), [Ticket(0, true)], 1);
    StepAt(e, 1);
    assert At(e, 2) == Desk(START.m.(reloading := true), [Ticket(0, true), Ticket(1, false)], 2);
    StepAt(e, 2);
  }

  lemma NothingRun(events: seq<Event>)
    ensures At(events, 0) == START
  {
    assert events[..0] == [];
  }

  /**
   The refresh at start-up is enough for two: its answer ends the wait of a poll whose
   own request is still out when the next poll misses some ids.
   */
  lemma StartUpCanDoubleAsk(epoch: Uuid, a: Item, b: Item)
    requires a.id > 1 && b.id > a.id + 1
    ensures Run(START, StartUp(epoch, a, b)).lane == [Ticket(2, true), Ticket(3, true)]
  {
    hide Sync, Asks, Run, StartUp;
    var e := StartUp(epoch, a, b);
    StartUpEvents(epoch, a, b);
    StartUpBegins(epoch, a, b);
    MissedAsks(At(e, 3).m, epoch, a);
    StepAt(e, 3);
    assert At(e, 4).lane == [Ticket(1, false), Ticket(2, true)] && At(e, 4).issued == 3;
    StepAt(e, 4);
    LoneMaxId(a);
    assert At(e, 5) == Desk(Mirror([a], a.id, Some(epoch), false), [Ticket(2, true)], 3);
    MissedAsks(At(e, 5).m, epoch, b);
    StepAt(e, 5);
    assert e[..6] == e;
  }

  lemma StartUpEvents(epoch: Uuid, a: Item, b: Item)
    ensures var e := StartUp(epoch, a, b);
            |e| == 6 && e[3] == Poll(epoch, [a], true) && e[4] == Answered([a], epoch) && e[5] == Poll(epoch, [b], true)
  {
  }

  lemma LoneMaxId(a: Item)
    ensures MaxId([a]) == a.id
  {
    assert [a][..0] == [];
  }

  // ------------------------------------------------------------ a request that was never sent

  /** The mirror waits, and nothing that could end the wait is outstanding. */
  predicate Stuck(d: Desk) {
    d.m.reloading && d.lane == []
  }

  /** The one way in: a poll asks while the control lane is full and no reload is outstanding. */
  lemma BecomesStuckIff(d: Desk, e: Event)
    requires !Stuck(d)
    ensures Stuck(Step(d, e)) <==> (AsksAt(d, e) && !e.room && d.lane == [])
  {
    hide Asks;
    WaitStep(d, e);
  }

  /** And no way out but somebody else's refresh: polls never ask again. */
  lemma {:induction false} StuckForGood(d: Desk, events: seq<Event>)
    requires Stuck(d) && forall i :: 0 <= i < |events| ==> !(events[i].Refresh? && events[i].room)
    ensures Stuck(Run(d, events))
    ensures forall epoch: Uuid, deltas: seq<Item> :: !Asks(Run(d, events).m, epoch, deltas)
  {
    hide NewerThan, SortById, Fold, Newest, Gap;
    if events != [] {
      StuckForGood(d, events[..|events| - 1]);
      WaitStep(Run(d, events[..|events| - 1]), events[|events| - 1]);
    }
  }
}
