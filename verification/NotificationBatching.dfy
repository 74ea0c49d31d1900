/**
 Polling twice against polling once with both batches (reconcile.rs:216-241). The
 ring is cut once per poll, so the answers can differ; this says exactly when.
 */
module NotificationBatching {
  import opened Common
  import opened Notifications
  import opened NotificationMirror

  lemma {:induction false} NewerSplits(a: seq<Item>, b: seq<Item>, latest: nat)
    ensures NewerThan(a + b, latest) == NewerThan(a, latest) + NewerThan(b, latest)
  {
    if b == [] {
      assert a + b == a;
    } else {
      var front, last := b[..|b| - 1], b[|b| - 1];
      NewerSplits(a, front, latest);
      assert (a + b)[..|a + b| - 1] == a + front;
      Associative(NewerThan(a, latest), NewerThan(front, latest), if last.id > latest then [last] else []);
    }
  }

  lemma {:induction false} NewerBounds(deltas: seq<Item>, latest: nat, low: nat, high: nat)
    requires Above(deltas, low) && AtMost(deltas, high)
    ensures Above(NewerThan(deltas, latest), low) && AtMost(NewerThan(deltas, latest), high)
  {
    if deltas != [] {
      NewerBounds(deltas[..|deltas| - 1], latest, low, high);
    }
  }

  lemma {:induction false} NewerIncreasing(deltas: seq<Item>, latest: nat)
    requires Increasing(deltas)
    ensures Increasing(NewerThan(deltas, latest))
  {
    if deltas != [] {
      var front, last := deltas[..|deltas| - 1], deltas[|deltas| - 1];
      NewerIncreasing(front, latest);
      if last.id > latest {
        NewerAbove(front, latest);
        NewerTop(front, latest, last.id);
      }
    }
  }

  lemma {:induction false} NewerTop(deltas: seq<Item>, latest: nat, bound: nat)
    requires forall i :: 0 <= i < |deltas| ==> deltas[i].id < bound
    ensures forall i :: 0 <= i < |NewerThan(deltas, latest)| ==> NewerThan(deltas, latest)[i].id < bound
  {
    if deltas != [] {
      NewerTop(deltas[..|deltas| - 1], latest, bound);
    }
  }

  lemma {:induction false} AllNewer(deltas: seq<Item>, latest: nat)
    requires Above(deltas, latest)
    ensures NewerThan(deltas, latest) == deltas
  {
    if deltas != [] {
      AllNewer(deltas[..|deltas| - 1], latest);
      assert deltas == deltas[..|deltas| - 1] + [deltas[|deltas| - 1]];
    }
  }

  lemma {:induction false} NewerOfNewer(deltas: seq<Item>, low: nat, high: nat)
    requires low <= high
    ensures NewerThan(NewerThan(deltas, low), high) == NewerThan(deltas, high)
  {
    if deltas != [] {
      var front, last := deltas[..|deltas| - 1], deltas[|deltas| - 1];
      NewerOfNewer(front, low, high);
      var cut := NewerThan(front, low);
      if last.id > low {
        assert (cut + [last])[..|cut + [last]| - 1] == cut;
      } else {
        assert cut + [] == cut;
        assert NewerThan(front, high) + [] == NewerThan(front, high);
      }
    }
  }

  /** What a poll does with its new deltas once they are in order. */
  function Pushed(m: Mirror, newer: seq<Item>): Mirror {
    if newer == [] then m
    else Mirror(Newest(Fold(m.items, newer)), newer[|newer| - 1].id, m.epoch, m.reloading || Gap(m.latest, newer))
  }

  lemma SyncOrdered(m: Mirror, epoch: Uuid, deltas: seq<Item>)
    requires m.epoch == Some(epoch) && Increasing(deltas)
    ensures Sync(m, epoch, deltas) == Pushed(m, NewerThan(deltas, m.latest))
  {
    hide Fold, Newest, Gap, SortById, NewerThan;
    NewerIncreasing(deltas, m.latest);
    SortOfSorted(NewerThan(deltas, m.latest));
  }

  /** What the first poll of two would cut off the ring, if anything. */
  function CutOff(items: seq<Item>): seq<Item> {
    items[..|items| - |Newest(items)|]
  }

  lemma CutAndNewest(items: seq<Item>)
    ensures items == CutOff(items) + Newest(items)
    ensures CutOff(items) != [] ==> |Newest(items)| == RING_CAPACITY
  {
  }

  lemma NewestOfFront(front: seq<Item>, back: seq<Item>)
    ensures Newest(front + back) == Newest(back) <==> (front == [] || |back| >= RING_CAPACITY)
  {
    var all := front + back;
    if front == [] {
      assert all == back;
    } else if |back| >= RING_CAPACITY {
      assert Newest(all) == all[|all| - RING_CAPACITY..];
      assert Newest(back) == back[|back| - RING_CAPACITY..];
    } else {
      assert |Newest(back)| == |back| < |Newest(all)|;
    }
  }

  /** What the second batch leaves of the ring the first batch cut. */
  function RingAfter(items: seq<Item>, first: seq<Item>, second: seq<Item>): seq<Item> {
    Fold(Newest(Fold(items, first)), second)
  }

  lemma CutTwice(items: seq<Item>, first: seq<Item>, second: seq<Item>)
    ensures Newest(Fold(items, first + second)) == Newest(RingAfter(items, first, second))
            <==> (Keep(CutOff(Fold(items, first)), second) == [] || |RingAfter(items, first, second)| >= RING_CAPACITY)
  {
    hide Fold, Keep, Newest, CutOff;
    var all := Fold(items, first);
    FoldsChain(items, first, second);
    CutAndNewest(all);
    FoldSplits(CutOff(all), Newest(all), second);
    NewestOfFront(Keep(CutOff(all), second), Fold(Newest(all), second));
  }

  lemma {:induction false} GapSplits(latest: nat, first: seq<Item>, second: seq<Item>)
    requires first != []
    ensures Gap(latest, first + second) <==> (Gap(latest, first) || Gap(first[|first| - 1].id, second))
  {
    var all := first + second;
    if Gap(latest, first) {
      var i :| 0 <= i < |first| && first[i].id != latest + 1 + i;
      assert all[i].id != latest + 1 + i;
    } else {
      assert first[|first| - 1].id == latest + |first|;
      assert forall i :: 0 <= i < |second| ==> second[i] == all[|first| + i];
      assert forall i :: 0 <= i < |first| ==> first[i] == all[i];
      if Gap(first[|first| - 1].id, second) {
        var i :| 0 <= i < |second| && second[i].id != latest + |first| + 1 + i;
        assert all[|first| + i].id != latest + 1 + (|first| + i);
      } else {
        forall i | 0 <= i < |all|
          ensures all[i].id == latest + 1 + i
        {
          if i >= |first| {
            assert all[i] == second[i - |first|];
          }
        }
      }
    }
  }

  /**
   Two polls whose deltas come in one increasing order leave the cursor, the epoch and
   the wait for a reload as one poll with both does; the items agree exactly when no
   item cut by the first poll would have stayed in view after the second.
   */
  lemma BatchingIff(m: Mirror, epoch: Uuid, first: seq<Item>, second: seq<Item>)
    requires m.epoch == Some(epoch) && |m.items| <= RING_CAPACITY && Increasing(first + second)
    ensures var once, twice := Sync(m, epoch, first + second), Sync(Sync(m, epoch, first), epoch, second);
            var f, s := NewerThan(first, m.latest), NewerThan(second, m.latest);
            && once.latest == twice.latest && once.epoch == twice.epoch && once.reloading == twice.reloading
            && (once.items == twice.items <==>
                (Keep(CutOff(Fold(m.items, f)), s) == [] || |RingAfter(m.items, f, s)| >= RING_CAPACITY))
  {
    hide Fold, Keep, Gap, SortById, NewerThan, Sync, Pushed, Newest, CutOff, RingAfter, Increasing, Before;
    Parts(first, second);
    var f, s := NewerThan(first, m.latest), NewerThan(second, m.latest);
    NewerSplits(first, second, m.latest);
    SyncOrdered(m, epoch, first + second);
    SyncOrdered(m, epoch, first);
    CursorAfter(m, f);
    SyncOrdered(Sync(m, epoch, first), epoch, second);
    if f != [] {
      SecondNewer(m.latest, first, second);
    }
    PushedTwice(m, f, s);
  }

  lemma CursorAfter(m: Mirror, newer: seq<Item>)
    ensures var after := Pushed(m, newer);
            after.epoch == m.epoch && after.latest == if newer == [] then m.latest else newer[|newer| - 1].id
  {
  }

  lemma PushedTwice(m: Mirror, f: seq<Item>, s: seq<Item>)
    requires |m.items| <= RING_CAPACITY
    ensures var once, twice := Pushed(m, f + s), Pushed(Pushed(m, f), s);
            && once.latest == twice.latest && once.epoch == twice.epoch && once.reloading == twice.reloading
            && (once.items == twice.items <==>
                (Keep(CutOff(Fold(m.items, f)), s) == [] || |RingAfter(m.items, f, s)| >= RING_CAPACITY))
  {
    hide Fold, Keep, Gap;
    if f == [] {
      assert f + s == s;
      NoFold(m.items);
      NoKeep(s);
    } else if s == [] {
      assert f + s == f;
      NoFold(Newest(Fold(m.items, f)));
      CutAndNewest(Fold(m.items, f));
      NoneKept(CutOff(Fold(m.items, f)), Newest(Fold(m.items, f)));
    } else {
      hide Newest, CutOff;
      CutTwice(m.items, f, s);
      GapSplits(m.latest, f, s);
    }
  }

  predicate Before(first: seq<Item>, second: seq<Item>) {
    forall i, j :: 0 <= i < |first| && 0 <= j < |second| ==> first[i].id < second[j].id
  }

  lemma Parts(first: seq<Item>, second: seq<Item>)
    requires Increasing(first + second)
    ensures Increasing(first) && Increasing(second) && Before(first, second)
  {
    var all := first + second;
    assert forall i :: 0 <= i < |first| ==> first[i] == all[i];
    assert forall i :: 0 <= i < |second| ==> second[i] == all[|first| + i];
  }

  lemma NoFold(items: seq<Item>)
    ensures Fold(items, []) == items
  {
  }

  lemma NoKeep(newer: seq<Item>)
    ensures Keep([], newer) == []
  {
  }

  lemma NoneKept(cut: seq<Item>, ring: seq<Item>)
    requires cut != [] ==> |ring| == RING_CAPACITY
    ensures Keep(cut, []) == [] || |ring| >= RING_CAPACITY
  {
    if cut == [] {
      NoKeep([]);
    }
  }

  /** The second batch's new deltas are all past the cursor the first batch leaves. */
  lemma SecondNewer(latest: nat, first: seq<Item>, second: seq<Item>)
    requires Increasing(first) && Increasing(second) && Before(first, second)
    requires NewerThan(first, latest) != []
    ensures var f := NewerThan(first, latest); NewerThan(second, f[|f| - 1].id) == NewerThan(second, latest)
  {
    hide NewerThan;
    var f := NewerThan(first, latest);
    NewerAbove(first, latest);
    var high := f[|f| - 1].id;
    NewerOfNewer(second, latest, high);
    if second != [] {
      NewerTop(first, latest, second[0].id);
    }
    NewerBounds(second, latest, high, if second == [] then 0 else second[|second| - 1].id);
    AllNewer(NewerThan(second, latest), high);
  }

  // ------------------------------------------------------------ one replacement at a time

  /** `x` replaces at most one of `items`. */
  predicate ReplacesOne(items: seq<Item>, x: Item) {
    |items| <= |Without(items, x)| + 1
  }

  /** Each new item replaces at most one of the items there are when it comes. */
  ghost predicate ReplacesAtMostOne(items: seq<Item>, newer: seq<Item>) {
    forall k :: 0 <= k < |newer| ==> ReplacesOne(Fold(items, newer[..k]), newer[k])
  }

  lemma {:induction false} FoldKeepsLength(items: seq<Item>, newer: seq<Item>)
    requires ReplacesAtMostOne(items, newer)
    ensures |Fold(items, newer)| >= |items|
  {
    hide Without;
    if newer != [] {
      var n := |newer| - 1;
      var front := newer[..n];
      forall k | 0 <= k < n
        ensures ReplacesOne(Fold(items, front[..k]), front[k])
      {
        assert front[..k] == newer[..k];
      }
      FoldKeepsLength(items, front);
      assert ReplacesOne(Fold(items, newer[..n]), newer[n]);
    }
  }

  lemma {:induction false} WithoutShrinks(items: seq<Item>, x: Item)
    ensures |Without(items, x)| <= |items|
  {
    if items != [] {
      WithoutShrinks(items[..|items| - 1], x);
    }
  }

  lemma SingleBehind(front: seq<Item>, back: seq<Item>, newer: seq<Item>)
    requires ReplacesAtMostOne(front + back, newer)
    ensures ReplacesAtMostOne(back, newer)
  {
    hide Without, Fold, Keep;
    forall k | 0 <= k < |newer|
      ensures ReplacesOne(Fold(back, newer[..k]), newer[k])
    {
      assert ReplacesOne(Fold(front + back, newer[..k]), newer[k]);
      FoldSplits(front, back, newer[..k]);
      WithoutSplits(Keep(front, newer[..k]), Fold(back, newer[..k]), newer[k]);
      WithoutShrinks(Keep(front, newer[..k]), newer[k]);
    }
  }

  lemma SingleLater(items: seq<Item>, first: seq<Item>, second: seq<Item>)
    requires ReplacesAtMostOne(items, first + second)
    ensures ReplacesAtMostOne(Fold(items, first), second)
  {
    hide ReplacesOne, Fold;
    forall k | 0 <= k < |second|
      ensures ReplacesOne(Fold(Fold(items, first), second[..k]), second[k])
    {
      SecondAt(first, second, k);
      assert ReplacesOne(Fold(items, (first + second)[..|first| + k]), (first + second)[|first| + k]);
      FoldsChain(items, first, second[..k]);
    }
  }

  lemma SecondAt(first: seq<Item>, second: seq<Item>, k: nat)
    requires k < |second|
    ensures (first + second)[..|first| + k] == first + second[..k] && (first + second)[|first| + k] == second[k]
  {
  }

  /** If each new item replaces at most one, splitting a batch over two polls changes nothing at all. */
  lemma BatchingWhenSingle(m: Mirror, epoch: Uuid, first: seq<Item>, second: seq<Item>)
    requires m.epoch == Some(epoch) && |m.items| <= RING_CAPACITY && Increasing(first + second)
    requires ReplacesAtMostOne(m.items, NewerThan(first + second, m.latest))
    ensures Sync(m, epoch, first + second) == Sync(Sync(m, epoch, first), epoch, second)
  {
    hide Sync, NewerThan, Fold, Keep, CutOff, Newest, Increasing, ReplacesAtMostOne;
    BatchingIff(m, epoch, first, second);
    NewerSplits(first, second, m.latest);
    var f, s := NewerThan(first, m.latest), NewerThan(second, m.latest);
    var all := Fold(m.items, f);
    SingleLater(m.items, f, s);
    CutAndNewest(all);
    SingleBehind(CutOff(all), Newest(all), s);
    FoldKeepsLength(Newest(all), s);
    if CutOff(all) == [] {
      NoKeep(s);
    }
  }

  // ------------------------------------------------------------ when it always agrees

  /** Two unread finish or attention items of one pane are never within the window of each other. */
  predicate Spaced(items: seq<Item>) {
    forall i, j :: 0 <= i < j < |items| ==> !ReplacedBy(items[i], items[j]) || items[j].read
  }

  predicate NoLater(items: seq<Item>, at: nat) {
    forall i :: 0 <= i < |items| ==> items[i].at <= at
  }

  predicate TimeOrdered(items: seq<Item>) {
    forall i, j :: 0 <= i < j < |items| ==> items[i].at <= items[j].at
  }

  lemma {:induction false} NoneReplaced(items: seq<Item>, x: Item)
    requires forall i :: 0 <= i < |items| ==> !ReplacedBy(items[i], x)
    ensures Without(items, x) == items
  {
    hide ReplacedBy;
    if items != [] {
      var front, last := items[..|items| - 1], items[|items| - 1];
      assert forall i :: 0 <= i < |front| ==> front[i] == items[i];
      NoneReplaced(front, x);
      assert items == front + [last];
    }
  }

  lemma {:induction false} AtMostOneGoes(items: seq<Item>, x: Item)
    requires Spaced(items) && NoLater(items, x.at)
    ensures |Without(items, x)| + 1 >= |items|
  {
    if items != [] {
      var front, last := items[..|items| - 1], items[|items| - 1];
      AtMostOneGoes(front, x);
      if ReplacedBy(last, x) {
        assert forall i :: 0 <= i < |front| ==> front[i] == items[i] && !ReplacedBy(items[i], last);
        NoneReplaced(front, x);
      }
    }
  }

  /** Membership in what a retain leaves: each item was there, in order, and none is replaced. */
  lemma {:induction false} WithoutKeeps(items: seq<Item>, x: Item, at: nat)
    requires Spaced(items)
    ensures Spaced(Without(items, x))
    ensures forall i :: 0 <= i < |Without(items, x)| ==> !ReplacedBy(Without(items, x)[i], x)
    ensures NoLater(items, at) ==> NoLater(Without(items, x), at)
  {
    if items != [] {
      var front, last := items[..|items| - 1], items[|items| - 1];
      WithoutKeeps(front, x, at);
      if !ReplacedBy(last, x) {
        SpacedFromLast(front, last, x);
      }
    }
  }

  lemma {:induction false} SpacedFromLast(items: seq<Item>, last: Item, x: Item)
    requires forall i :: 0 <= i < |items| ==> !ReplacedBy(items[i], last) || last.read
    ensures forall i :: 0 <= i < |Without(items, x)| ==> !ReplacedBy(Without(items, x)[i], last) || last.read
  {
    if items != [] {
      SpacedFromLast(items[..|items| - 1], last, x);
    }
  }

  /** Deltas keep the mirror spaced, whatever their times. */
  lemma {:induction false} FoldSpaced(items: seq<Item>, newer: seq<Item>)
    requires Spaced(items)
    ensures Spaced(Fold(items, newer))
  {
    if newer != [] {
      var front, last := newer[..|newer| - 1], newer[|newer| - 1];
      FoldSpaced(items, front);
      WithoutKeeps(Fold(items, front), last, 0);
    }
  }

  /** Deltas no older than what they meet never shrink the mirror. */
  lemma {:induction false} FoldGrows(items: seq<Item>, newer: seq<Item>)
    requires Spaced(items) && TimeOrdered(newer) && (newer != [] ==> NoLater(items, newer[0].at))
    ensures |Fold(items, newer)| >= |items|
    ensures newer != [] ==> NoLater(Fold(items, newer), newer[|newer| - 1].at)
  {
    if newer != [] {
      var front, last := newer[..|newer| - 1], newer[|newer| - 1];
      FoldGrows(items, front);
      assert NoLater(Fold(items, front), last.at);
      FoldSpaced(items, front);
      AtMostOneGoes(Fold(items, front), last);
      WithoutKeeps(Fold(items, front), last, last.at);
    }
  }

  lemma NewestSuffix(items: seq<Item>)
    ensures Spaced(items) ==> Spaced(Newest(items))
    ensures forall at: nat :: NoLater(items, at) ==> NoLater(Newest(items), at)
  {
  }

  lemma {:induction false} NewerTimes(deltas: seq<Item>, latest: nat, at: nat)
    requires TimeOrdered(deltas)
    ensures TimeOrdered(NewerThan(deltas, latest))
    ensures NoLater(deltas, at) ==> NoLater(NewerThan(deltas, latest), at)
  {
    if deltas != [] {
      var front, last := deltas[..|deltas| - 1], deltas[|deltas| - 1];
      NewerTimes(front, latest, at);
      NewerTimes(front, latest, last.at);
      assert NoLater(front, last.at);
    }
  }

  lemma {:induction false} NewerNotBefore(deltas: seq<Item>, latest: nat, at: nat)
    requires forall i :: 0 <= i < |deltas| ==> at <= deltas[i].at
    ensures forall i :: 0 <= i < |NewerThan(deltas, latest)| ==> at <= NewerThan(deltas, latest)[i].at
  {
    if deltas != [] {
      NewerNotBefore(deltas[..|deltas| - 1], latest, at);
    }
  }

  lemma FirstFold(items: seq<Item>, f: seq<Item>, at: nat)
    requires Spaced(items) && TimeOrdered(f) && (f != [] ==> NoLater(items, f[0].at))
    requires NoLater(items, at) && NoLater(f, at)
    ensures Spaced(Newest(Fold(items, f))) && NoLater(Newest(Fold(items, f)), at)
  {
    hide Fold, Spaced, Newest;
    FoldSpaced(items, f);
    FoldGrows(items, f);
    NoFold(items);
    NewestSuffix(Fold(items, f));
    assert NoLater(Fold(items, f), at);
  }

  /** With times in order, splitting a batch over two polls changes nothing at all. */
  lemma BatchingInTimeOrder(m: Mirror, epoch: Uuid, first: seq<Item>, second: seq<Item>)
    requires m.epoch == Some(epoch) && |m.items| <= RING_CAPACITY && Increasing(first + second)
    requires Spaced(m.items) && TimeOrdered(m.items + (first + second))
    ensures Sync(m, epoch, first + second) == Sync(Sync(m, epoch, first), epoch, second)
  {
    hide Sync, NewerThan, Fold, Keep, CutOff, Newest, Increasing, Spaced;
    BatchingIff(m, epoch, first, second);
    var f, s := NewerThan(first, m.latest), NewerThan(second, m.latest);
    TimesApart(m.items, first, second, m.latest);
    if s == [] {
      CutAndNewest(Fold(m.items, f));
      NoFold(Newest(Fold(m.items, f)));
      NoneKept(CutOff(Fold(m.items, f)), Newest(Fold(m.items, f)));
    } else {
      FirstFold(m.items, f, s[0].at);
      FoldGrows(Newest(Fold(m.items, f)), s);
      CutAndNewest(Fold(m.items, f));
      if CutOff(Fold(m.items, f)) == [] {
        NoKeep(s);
      }
    }
  }

  predicate AllBy(items: seq<Item>, later: seq<Item>) {
    forall i, j :: 0 <= i < |items| && 0 <= j < |later| ==> items[i].at <= later[j].at
  }

  lemma PairTimes(items: seq<Item>, deltas: seq<Item>, latest: nat)
    requires AllBy(items, deltas)
    ensures NewerThan(deltas, latest) != [] ==> NoLater(items, NewerThan(deltas, latest)[0].at)
  {
    hide NewerThan;
    forall i | 0 <= i < |items| && NewerThan(deltas, latest) != []
      ensures items[i].at <= NewerThan(deltas, latest)[0].at
    {
      NewerNotBefore(deltas, latest, items[i].at);
    }
  }

  lemma SplitTimes(items: seq<Item>, first: seq<Item>, second: seq<Item>)
    requires TimeOrdered(items + (first + second))
    ensures TimeOrdered(first) && TimeOrdered(second)
    ensures AllBy(items, first) && AllBy(items, second) && AllBy(first, second)
  {
    var all := items + (first + second);
    assert forall i :: 0 <= i < |items| ==> items[i] == all[i];
    assert forall i :: 0 <= i < |first| ==> first[i] == all[|items| + i];
    assert forall i :: 0 <= i < |second| ==> second[i] == all[|items| + |first| + i];
  }

  lemma TimesApart(items: seq<Item>, first: seq<Item>, second: seq<Item>, latest: nat)
    requires TimeOrdered(items + (first + second))
    ensures var f, s := NewerThan(first, latest), NewerThan(second, latest);
            && TimeOrdered(f) && TimeOrdered(s) && (f != [] ==> NoLater(items, f[0].at))
            && (s != [] ==> NoLater(items, s[0].at) && NoLater(f, s[0].at))
  {
    hide NewerThan, TimeOrdered, NoLater, AllBy;
    SplitTimes(items, first, second);
    PairTimes(items, first, latest);
    PairTimes(items, second, latest);
    PairTimes(first, second, latest);
    var s := NewerThan(second, latest);
    NewerTimes(first, latest, if s == [] then 0 else s[0].at);
    NewerTimes(second, latest, 0);
  }

  // ------------------------------------------------------------ when it does not

  /** A full ring of messages that ends in two unread finishes of pane 0, eight seconds apart. */
  function FullRing(): (ring: seq<Item>)
    ensures |ring| == RING_CAPACITY
  {
    seq(RING_CAPACITY - 2, i requires 0 <= i < RING_CAPACITY - 2 => Item(i + 1, 0, Message, 0, true, ""))
    + [Item(199, 0, Completed, 0, false, ""), Item(200, 0, Completed, 8_000, false, "")]
  }

  /**
   An item four seconds from each of two others replaces both: polled apart, the ring
   has already lost its oldest entry and ends one short of the ring of a single poll.
   */
  lemma ReplacingTwoShows()
    ensures var m := Mirror(FullRing(), 200, Some(0), false);
            var first, second := [Item(201, 0, Message, 9_000, true, "")], [Item(202, 0, Completed, 4_000, false, "")];
            && Increasing(first + second)
            && Sync(m, 0, first + second).items != Sync(Sync(m, 0, first), 0, second).items
  {
    hide Sync, CutOff, FullRing, Fold, Keep, NewerThan, Newest;
    var m := Mirror(FullRing(), 200, Some(0), false);
    var x, y := Item(201, 0, Message, 9_000, true, ""), Item(202, 0, Completed, 4_000, false, "");
    assert Increasing([x] + [y]);
    BatchingIff(m, 0, [x], [y]);
    AllNewer([x], 200);
    AllNewer([y], 200);
    MessageAdds(x);
    OldestCut(FullRing() + [x], x, y);
    RingShrinks(x, y);
  }

  lemma MessageAdds(x: Item)
    requires x.kind == Message
    ensures Fold(FullRing(), [x]) == FullRing() + [x]
  {
    hide FullRing;
    assert [x][..0] == [];
    NoFold(FullRing());
    NoneReplaced(FullRing(), x);
  }

  lemma OldestCut(all: seq<Item>, x: Item, y: Item)
    requires all == FullRing() + [x] && y.id == 202
    ensures CutOff(all) == [all[0]] && Newest(all) == all[1..]
    ensures Keep(CutOff(all), [y]) == [all[0]]
  {
    assert CutOff(all) == [all[0]];
    assert [all[0]][..0] == [];
    assert all[0].read;
  }

  lemma RingShrinks(x: Item, y: Item)
    requires x == Item(201, 0, Message, 9_000, true, "") && y == Item(202, 0, Completed, 4_000, false, "")
    ensures |Fold((FullRing() + [x])[1..], [y])| < RING_CAPACITY
  {
    var ring := (FullRing() + [x])[1..];
    var messages, pair := ring[..197], ring[197..199];
    assert ring == messages + (pair + [x]);
    WithoutSplits(messages, pair + [x], y);
    WithoutSplits(pair, [x], y);
    NoneReplaced(messages, y);
    WithoutSplits([pair[0]], [pair[1]], y);
    assert pair == [pair[0]] + [pair[1]];
    WithoutOne(pair[0], y);
    WithoutOne(pair[1], y);
    WithoutOne(x, y);
    assert [y][..0] == [];
  }

}
