/**
 Whole runs of the notification mirror: polls, reload requests and their answers,
 and local read marks in any order (reconcile.rs:202-258, notifications.rs:274-298,
 337-342, 393-397, 470-473). A reload request is lost when the control lane is full.
 */
module NotificationRuns {
  import opened Common
  import opened Notifications
  import opened NotificationMirror
  import opened NotificationBatching

  datatype Event =
    | Poll(epoch: Uuid, deltas: seq<Item>, room: bool)
    | Refresh(room: bool)
    | Answered(items: seq<Item>, epoch: Uuid)
    | Failed
    | PaneSeen(pane: Uuid)
    | MarkedRead(ids: seq<nat>)
    | Cleared

  /** A reload request on its way: its number, and whether a poll sent it. */
  datatype Ticket = Ticket(number: nat, byPoll: bool)

  /**
   The mirror, and the reload requests that are not answered yet, oldest first: the
   control lane is one queue with one worker, so they are answered in that order.
   */
  datatype Desk = Desk(m: Mirror, lane: seq<Ticket>, issued: nat)

  predicate AsksAt(d: Desk, e: Event) {
    e.Poll? && Asks(d.m, e.epoch, e.deltas)
  }

  /** The event puts a reload request into the lane. */
  predicate Queues(d: Desk, e: Event) {
    (AsksAt(d, e) || e.Refresh?) && e.room
  }

  /** The event is the answer to the oldest request, or its failure. */
  predicate Takes(d: Desk, e: Event) {
    (e.Answered? || e.Failed?) && d.lane != []
  }

  function MirrorAfter(d: Desk, e: Event): Mirror {
    match e
    case Poll(epoch, deltas, _) => Sync(d.m, epoch, deltas)
    case Refresh(_) => d.m
    case Answered(items, epoch) => if Takes(d, e) then Replaced(d.m, items, epoch) else d.m
    case Failed => if Takes(d, e) then d.m.(reloading := false) else d.m
    case PaneSeen(pane) => d.m.(items := Seen(d.m.items, pane))
    case MarkedRead(ids) => d.m.(items := SeenIds(d.m.items, ids))
    case Cleared => d.m.(items := [])
  }

  function Step(d: Desk, e: Event): Desk {
    var m := MirrorAfter(d, e);
    if Queues(d, e) then Desk(m, d.lane + [Ticket(d.issued, e.Poll?)], d.issued + 1)
    else if Takes(d, e) then Desk(m, d.lane[1..], d.issued)
    else d.(m := m)
  }

  function Run(d: Desk, events: seq<Event>): Desk {
    if events == [] then d else Step(Run(d, events[..|events| - 1]), events[|events| - 1])
  }

  const START := Desk(Mirror([], 0, None, false), [], 0)

  // ------------------------------------------------------------ the mirror's shape

  ghost predicate Sound(m: Mirror) {
    Increasing(m.items) && AtMost(m.items, m.latest) && |m.items| <= RING_CAPACITY && Spaced(m.items)
  }

  /** What the service is trusted with: a poll repeats no id, a reload is a ring of its own. */
  ghost predicate FromService(e: Event) {
    match e
    case Poll(_, deltas, _) => Distinct(deltas)
    case Answered(items, _) => Increasing(items) && |items| <= RING_CAPACITY && Spaced(items)
    case _ => true
  }

  ghost predicate AllFromService(events: seq<Event>) {
    forall i :: 0 <= i < |events| ==> FromService(events[i])
  }

  lemma {:induction false} WithoutSound(items: seq<Item>, x: Item, bound: nat)
    requires Increasing(items) && AtMost(items, bound)
    ensures Increasing(Without(items, x)) && AtMost(Without(items, x), bound)
  {
    if items != [] {
      var last := items[|items| - 1];
      WithoutSound(items[..|items| - 1], x, if last.id == 0 then 0 else last.id - 1);
    }
  }

  lemma {:induction false} FoldSound(items: seq<Item>, newer: seq<Item>, latest: nat)
    requires Increasing(items) && AtMost(items, latest) && Increasing(newer) && Above(newer, latest)
    ensures Increasing(Fold(items, newer))
    ensures AtMost(Fold(items, newer), if newer == [] then latest else newer[|newer| - 1].id)
  {
    if newer != [] {
      var front, last := newer[..|newer| - 1], newer[|newer| - 1];
      FoldSound(items, front, latest);
      var bound := if front == [] then latest else front[|front| - 1].id;
      WithoutSound(Fold(items, front), last, bound);
    }
  }

  lemma {:induction false} NewerDistinct(deltas: seq<Item>, latest: nat)
    requires Distinct(deltas)
    ensures Distinct(NewerThan(deltas, latest))
    ensures forall k :: 0 <= k < |NewerThan(deltas, latest)| ==> Carries(deltas, NewerThan(deltas, latest)[k].id)
  {
    if deltas != [] {
      var front, last := deltas[..|deltas| - 1], deltas[|deltas| - 1];
      NewerDistinct(front, latest);
      CarriedByAll(front, last);
      assert deltas == front + [last];
    }
  }

  lemma CarriedByAll(front: seq<Item>, last: Item)
    ensures forall id: nat :: Carries(front + [last], id) <==> Carries(front, id) || last.id == id
  {
    var all := front + [last];
    assert all[|front|] == last;
    assert forall k :: 0 <= k < |front| ==> all[k] == front[k];
    forall id: nat | Carries(front, id)
      ensures Carries(all, id)
    {
      var k :| 0 <= k < |front| && front[k].id == id;
      assert all[k].id == id;
    }
  }

  lemma NewestSound(items: seq<Item>, bound: nat)
    requires Increasing(items) && AtMost(items, bound)
    ensures Increasing(Newest(items)) && AtMost(Newest(items), bound) && |Newest(items)| <= RING_CAPACITY
  {
  }

  lemma PollSound(m: Mirror, epoch: Uuid, deltas: seq<Item>)
    requires Sound(m) && Distinct(deltas)
    ensures Sound(Sync(m, epoch, deltas)) && Sync(m, epoch, deltas).latest >= m.latest
  {
    hide Fold, Newest, Gap, SortById, NewerThan, Increasing, Distinct, Above, AtMost, Spaced;
    if m.epoch == Some(epoch) {
      var newer := SortById(NewerThan(deltas, m.latest));
      NewerDistinct(deltas, m.latest);
      DistinctSorts(NewerThan(deltas, m.latest));
      FreshAbove(deltas, m.latest);
      FoldSound(m.items, newer, m.latest);
      FoldSpaced(m.items, newer);
      NewestSuffix(Fold(m.items, newer));
      if newer != [] {
        NewestSound(Fold(m.items, newer), newer[|newer| - 1].id);
        LastAbove(newer, m.latest);
      }
    }
  }

  lemma LastAbove(newer: seq<Item>, latest: nat)
    requires newer != [] && Above(newer, latest)
    ensures newer[|newer| - 1].id > latest
  {
  }

  lemma {:induction false} MaxBounds(items: seq<Item>)
    ensures AtMost(items, MaxId(items))
  {
    if items != [] {
      MaxBounds(items[..|items| - 1]);
    }
  }

  lemma MarksSound(m: Mirror, marked: seq<Item>)
    requires Sound(m) && |marked| == |m.items|
    requires forall i :: 0 <= i < |marked| ==> marked[i] == m.items[i] || marked[i] == m.items[i].(read := true)
    ensures Sound(m.(items := marked))
  {
    forall i, j | 0 <= i < j < |marked|
      ensures !ReplacedBy(marked[i], marked[j]) || marked[j].read
    {
      assert !ReplacedBy(m.items[i], m.items[j]) || m.items[j].read;
    }
  }

  lemma StepSound(d: Desk, e: Event)
    requires Sound(d.m) && FromService(e)
    ensures Sound(Step(d, e).m)
  {
    match e
    case Poll(epoch, deltas, _) =>
      hide Sync, Sound;
      PollSound(d.m, epoch, deltas);
    case Answered(items, _) => MaxBounds(items);
    case PaneSeen(pane) => MarksSound(d.m, Seen(d.m.items, pane));
    case MarkedRead(ids) => MarksSound(d.m, SeenIds(d.m.items, ids));
    case _ =>
  }

  /**
   In every run the mirror's ids strictly increase and stay at or below the cursor, at
   most 200 items are kept, and no unread item could have replaced another.
   */
  lemma {:induction false} MirrorStaysSound(d: Desk, events: seq<Event>)
    requires Sound(d.m) && AllFromService(events)
    ensures Sound(Run(d, events).m)
  {
    hide Sound, FromService, Step;
    if events != [] {
      var front := events[..|events| - 1];
      MirrorStaysSound(d, front);
      StepSound(Run(d, front), events[|events| - 1]);
    }
  }

  // ------------------------------------------------------------ redelivery

  function Polls(m: Mirror, epoch: Uuid, batches: seq<seq<Item>>): Mirror {
    if batches == [] then m else Sync(Polls(m, epoch, batches[..|batches| - 1]), epoch, batches[|batches| - 1])
  }

  lemma {:induction false} NoneNewer(deltas: seq<Item>, latest: nat)
    requires AtMost(deltas, latest)
    ensures NewerThan(deltas, latest) == []
  {
    if deltas != [] {
      NoneNewer(deltas[..|deltas| - 1], latest);
    }
  }

  lemma {:induction false} NewerOrOld(deltas: seq<Item>, latest: nat, bound: nat)
    requires latest <= bound && AtMost(NewerThan(deltas, latest), bound)
    ensures AtMost(deltas, bound)
  {
    if deltas != [] {
      var front, last := deltas[..|deltas| - 1], deltas[|deltas| - 1];
      var kept := NewerThan(front, latest);
      assert forall i :: 0 <= i < |kept| ==> kept[i] == NewerThan(deltas, latest)[i];
      NewerOrOld(front, latest, bound);
      if last.id > latest {
        assert NewerThan(deltas, latest)[|kept|] == last;
      }
    }
  }

  /** After a poll of the mirror's own ring the cursor is past every delta it brought. */
  lemma CursorCovers(m: Mirror, epoch: Uuid, deltas: seq<Item>)
    requires m.epoch == Some(epoch)
    ensures var after := Sync(m, epoch, deltas);
            AtMost(deltas, after.latest) && after.latest >= m.latest && after.epoch == m.epoch
  {
    hide Fold, Newest, Gap, SortById, NewerThan, Above;
    var unsorted := NewerThan(deltas, m.latest);
    var newer := SortById(unsorted);
    FreshAbove(deltas, m.latest);
    SortSorts(unsorted);
    SameIds(newer, unsorted);
    if newer != [] {
      LastAbove(newer, m.latest);
      NewerOrOld(deltas, m.latest, newer[|newer| - 1].id);
    } else {
      NewerOrOld(deltas, m.latest, m.latest);
    }
  }

  lemma {:induction false} PollsKeepCursor(m: Mirror, epoch: Uuid, batches: seq<seq<Item>>)
    requires m.epoch == Some(epoch)
    ensures var after := Polls(m, epoch, batches); after.latest >= m.latest && after.epoch == m.epoch
  {
    hide Sync;
    if batches != [] {
      var front := batches[..|batches| - 1];
      PollsKeepCursor(m, epoch, front);
      CursorCovers(Polls(m, epoch, front), epoch, batches[|batches| - 1]);
    }
  }

  /** A batch delivered again, however many polls later, changes nothing. */
  lemma RedeliveryIgnored(m: Mirror, epoch: Uuid, deltas: seq<Item>, between: seq<seq<Item>>)
    requires m.epoch == Some(epoch)
    ensures var later := Polls(Sync(m, epoch, deltas), epoch, between); Sync(later, epoch, deltas) == later
  {
    hide Polls;
    CursorCovers(m, epoch, deltas);
    var first := Sync(m, epoch, deltas);
    PollsKeepCursor(first, epoch, between);
    var later := Polls(first, epoch, between);
    assert AtMost(deltas, later.latest);
    NoneNewer(deltas, later.latest);
  }

  // ------------------------------------------------------------ another ring

  /** Polls of other rings, however many, leave items, cursor and epoch alone and ask for one reload at most. */
  lemma {:induction false} ForeignChangesNothing(d: Desk, polls: seq<Event>)
    requires forall i :: 0 <= i < |polls| ==> polls[i].Poll? && d.m.epoch != Some(polls[i].epoch)
    ensures Run(d, polls).m == d.m.(reloading := d.m.reloading || polls != [])
    ensures |Run(d, polls).lane| <= |d.lane| + 1 && (d.m.reloading ==> Run(d, polls).lane == d.lane)
  {
    hide NewerThan, SortById, Fold, Newest, Gap;
    if polls != [] {
      var front := polls[..|polls| - 1];
      ForeignChangesNothing(d, front);
      if front == [] {
        assert Run(d, front) == d;
      }
    }
  }
}
