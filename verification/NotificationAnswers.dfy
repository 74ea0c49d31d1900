/**
 What a reload brings and what a poll leaves, told by the items themselves
 (reconcile.rs:202-258): the answer replaces the whole mirror, and the ring goes
 on from its largest id.
 */
module NotificationAnswers {
  import opened Common
  import opened Notifications
  import opened NotificationMirror
  import opened NotificationRuns

  /** `top` is the largest id of these items, or zero without any. */
  ghost predicate IsTop(items: seq<Item>, top: nat) {
    && (forall k :: 0 <= k < |items| ==> items[k].id <= top)
    && (if items == [] then top == 0 else exists k :: 0 <= k < |items| && items[k].id == top)
  }

  /** Right after an answer is taken the mirror holds it and nothing else, whatever
      happened before, and waits for nothing. */
  lemma AnswerIsShown(d: Desk, items: seq<Item>, epoch: Uuid)
    requires d.lane != []
    ensures var m := Step(d, Answered(items, epoch)).m;
      m.items == items && IsTop(items, m.latest) && m.epoch == Some(epoch) && !m.reloading
  {
    MaxIsOne(items);
  }

  lemma SyncWith(m: Mirror, epoch: Uuid, deltas: seq<Item>, newer: seq<Item>)
    requires m.epoch == Some(epoch)
    requires newer == SortById(NewerThan(deltas, m.latest)) != []
    ensures var after := Sync(m, epoch, deltas);
      after.items == Newest(Fold(m.items, newer)) && after.latest == newer[|newer| - 1].id
  {
    hide Fold, SortById, NewerThan, Gap, Newest;
  }

  lemma LastIsDelta(deltas: seq<Item>, latest: nat, newer: seq<Item>)
    requires newer == SortById(NewerThan(deltas, latest)) != []
    ensures newer[|newer| - 1].id > latest && Carries(deltas, newer[|newer| - 1].id)
  {
    hide SortById, NewerThan, Above, Ordered, Carries;
    var unsorted := NewerThan(deltas, latest);
    FreshAbove(deltas, latest);
    LastAbove(newer, latest);
    SortSorts(unsorted);
    InBoth(newer, unsorted, |newer| - 1);
    NewerAreDeltas(deltas, latest);
  }

  /** The last 200 items. */
  function Last200(items: seq<Item>): seq<Item> {
    if |items| <= 200 then items else items[|items| - 200..]
  }

  /** What a poll of the mirror's own ring leaves: the old items that none of the
      new ones replaces and the new ones that no later one replaces, at most the
      last 200 of them, and the largest new id as the cursor. */
  lemma PollLeaves(m: Mirror, epoch: Uuid, deltas: seq<Item>, newer: seq<Item>)
    requires m.epoch == Some(epoch)
    requires newer == SortById(NewerThan(deltas, m.latest)) != []
    ensures var after := Sync(m, epoch, deltas);
      && after.items == Last200(Keep(m.items, newer) + Standing(newer))
      && after.latest == newer[|newer| - 1].id > m.latest && Carries(deltas, after.latest) && AtMost(deltas, after.latest)
  {
    hide Sync, Fold, SortById, NewerThan, Keep, Standing, Carries, AtMost;
    FoldLeaves(m.items, newer);
    SyncWith(m, epoch, deltas, newer);
    LastIsDelta(deltas, m.latest, newer);
    CursorCovers(m, epoch, deltas);
  }

  lemma {:induction false} NewerAreDeltas(deltas: seq<Item>, latest: nat)
    ensures forall k :: 0 <= k < |NewerThan(deltas, latest)| ==> Carries(deltas, NewerThan(deltas, latest)[k].id)
  {
    if deltas != [] {
      var front, last := deltas[..|deltas| - 1], deltas[|deltas| - 1];
      NewerAreDeltas(front, latest);
      CarriedByAll(front, last);
      assert deltas == front + [last];
    }
  }

  lemma LoneNewer(x: Item, latest: nat)
    requires x.id > latest
    ensures NewerThan([x], latest) == [x] && SortById([x]) == [x] && Standing([x]) == [x]
  {
    assert [x][..0] == [] && [x][1..] == [];
    assert NewerThan([], latest) == [] && SortById([]) == [] && Standing([]) == [];
    assert !ReplacedByAny(x, []);
  }

  lemma NextPoll(m: Mirror, epoch: Uuid, next: Item)
    requires m.epoch == Some(epoch) && !m.reloading && next.id == m.latest + 1
    ensures var after := Sync(m, epoch, [next]);
      && after.items == Last200(Keep(m.items, [next]) + [next])
      && after.latest == next.id && !after.reloading && !Asks(m, epoch, [next])
  {
    LoneNewer(next, m.latest);
    LoneContiguous(next, m.latest);
    hide NewerThan, SortById, Keep, Standing, Contiguous, Last200, AtMost, Carries, Fold, Gap, Newest;
    AsksIff(m, epoch, [next]);
    PollLeaves(m, epoch, [next], [next]);
  }

  lemma LoneContiguous(next: Item, latest: nat)
    requires next.id == latest + 1
    ensures Contiguous(latest, [next])
  {
    assert [next][0].id == next.id;
  }

  /** After an answer the very next id of that ring is accepted by the poll that
      brings it: it is shown last, the cursor is on it, and no reload is asked for. */
  lemma NextIsAccepted(d: Desk, items: seq<Item>, epoch: Uuid, next: Item, room: bool)
    requires d.lane != [] && next.id > 0 && IsTop(items, next.id - 1)
    ensures var answered := Step(d, Answered(items, epoch));
      var polled := Step(answered, Poll(epoch, [next], room));
      && polled.m.items != [] && polled.m.items[|polled.m.items| - 1] == next
      && polled.m.latest == next.id && !polled.m.reloading
      && polled.lane == answered.lane
      && (|items| < 200 ==> polled.m.items == Keep(items, [next]) + [next])
  {
    hide Sync, Asks, Keep;
    var answered := Step(d, Answered(items, epoch));
    AnswerIsShown(d, items, epoch);
    assert answered.m.latest == next.id - 1;
    NextPoll(answered.m, epoch, next);
    KeepIsNoLonger(items, [next]);
  }

  lemma {:induction false} KeepIsNoLonger(items: seq<Item>, newer: seq<Item>)
    ensures |Keep(items, newer)| <= |items|
  {
    if items != [] {
      KeepIsNoLonger(items[..|items| - 1], newer);
    }
  }
}
