/**
 The notification mirror (reconcile.rs:184-258): deltas after a cursor, a
 replacement rule shared with the service (terminal.rs:226-234), a ring of 200,
 and a full reload asked for at most once until it answers.
 */
module Notifications {
  import opened Common

  datatype Kind = Completed | Attention | Message

  /** `text` stands for every field no decision looks at. */
  datatype Item = Item(id: nat, pane: Uuid, kind: Kind, at: nat, read: bool, text: string)

  datatype Mirror = Mirror(items: seq<Item>, latest: nat, epoch: Option<Uuid>, reloading: bool)

  const RING_CAPACITY: nat := 200
  const DEDUPE_MS: nat := 5_000

  function Apart(a: nat, b: nat): nat {
    if a < b then b - a else a - b
  }

  predicate ReplacedBy(existing: Item, incoming: Item) {
    !incoming.kind.Message? && !existing.read && existing.pane == incoming.pane
    && existing.kind == incoming.kind && Apart(existing.at, incoming.at) <= DEDUPE_MS
  }

  // ------------------------------------------------------------ specification functions

  function Without(items: seq<Item>, incoming: Item): seq<Item> {
    if items == [] then []
    else
      var last := items[|items| - 1];
      Without(items[..|items| - 1], incoming) + if ReplacedBy(last, incoming) then [] else [last]
  }

  function Fold(items: seq<Item>, newer: seq<Item>): seq<Item> {
    if newer == [] then items
    else
      var last := newer[|newer| - 1];
      Without(Fold(items, newer[..|newer| - 1]), last) + [last]
  }

  function Newest(items: seq<Item>): seq<Item> {
    if |items| > RING_CAPACITY then items[|items| - RING_CAPACITY..] else items
  }

  function NewerThan(deltas: seq<Item>, latest: nat): seq<Item> {
    if deltas == [] then []
    else
      var last := deltas[|deltas| - 1];
      NewerThan(deltas[..|deltas| - 1], latest) + if last.id > latest then [last] else []
  }

  /** Where a stable sort puts `x`: after every item whose id is not larger. */
  function InsertById(sorted: seq<Item>, x: Item): (r: seq<Item>)
    ensures |r| == |sorted| + 1
  {
    if sorted == [] || sorted[|sorted| - 1].id <= x.id then sorted + [x]
    else InsertById(sorted[..|sorted| - 1], x) + [sorted[|sorted| - 1]]
  }

  function SortById(items: seq<Item>): (r: seq<Item>)
    ensures |r| == |items|
  {
    if items == [] then [] else InsertById(SortById(items[..|items| - 1]), items[|items| - 1])
  }

  predicate Gap(latest: nat, newer: seq<Item>) {
    exists i :: 0 <= i < |newer| && newer[i].id != latest + 1 + i
  }

  function Sync(m: Mirror, epoch: Uuid, deltas: seq<Item>): Mirror {
    var newer := SortById(NewerThan(deltas, m.latest));
    if m.epoch != Some(epoch) then m.(reloading := true)
    else if newer == [] then m
    else Mirror(Newest(Fold(m.items, newer)), newer[|newer| - 1].id, m.epoch, m.reloading || Gap(m.latest, newer))
  }

  /** A poll asks for a reload exactly when it is the one that starts waiting for it. */
  predicate Asks(m: Mirror, epoch: Uuid, deltas: seq<Item>) {
    !m.reloading && Sync(m, epoch, deltas).reloading
  }

  function MaxId(items: seq<Item>): nat {
    if items == [] then 0
    else
      var before := MaxId(items[..|items| - 1]);
      if items[|items| - 1].id > before then items[|items| - 1].id else before
  }

  lemma {:induction false} MaxIsOne(items: seq<Item>)
    ensures forall k :: 0 <= k < |items| ==> items[k].id <= MaxId(items)
    ensures if items == [] then MaxId(items) == 0 else exists k :: 0 <= k < |items| && items[k].id == MaxId(items)
  {
    if items != [] {
      var n := |items| - 1;
      MaxIsOne(items[..n]);
      assert forall k :: 0 <= k < n ==> items[..n][k] == items[k];
      assert items[n].id <= MaxId(items);
      if items[n].id > MaxId(items[..n]) || n == 0 {
        assert items[n].id == MaxId(items);
      }
    }
  }

  function Replaced(m: Mirror, items: seq<Item>, epoch: Uuid): Mirror {
    Mirror(items, MaxId(items), Some(epoch), false)
  }

  function Seen(items: seq<Item>, pane: Uuid): seq<Item> {
    seq(|items|, i requires 0 <= i < |items| => if items[i].pane == pane then items[i].(read := true) else items[i])
  }

  function SeenIds(items: seq<Item>, ids: seq<nat>): seq<Item> {
    seq(|items|, i requires 0 <= i < |items| => if items[i].id in ids then items[i].(read := true) else items[i])
  }

  // ------------------------------------------------------------ sorting by id

  predicate Ordered(items: seq<Item>) {
    forall i, j :: 0 <= i < j < |items| ==> items[i].id <= items[j].id
  }

  predicate AtMost(items: seq<Item>, bound: nat) {
    forall i :: 0 <= i < |items| ==> items[i].id <= bound
  }

  lemma {:induction false} InsertBounds(sorted: seq<Item>, x: Item, bound: nat)
    requires AtMost(sorted, bound) && x.id <= bound
    ensures AtMost(InsertById(sorted, x), bound)
  {
    if sorted != [] && sorted[|sorted| - 1].id > x.id {
      InsertBounds(sorted[..|sorted| - 1], x, bound);
    }
  }

  lemma {:induction false} InsertSame(sorted: seq<Item>, x: Item)
    ensures multiset(InsertById(sorted, x)) == multiset(sorted) + multiset{x}
  {
    if sorted != [] && sorted[|sorted| - 1].id > x.id {
      var front, last := sorted[..|sorted| - 1], sorted[|sorted| - 1];
      InsertSame(front, x);
      assert sorted == front + [last];
      var r := InsertById(front, x);
      assert multiset(r + [last]) == multiset(r) + multiset{last};
    }
  }

  lemma {:induction false} InsertOrders(sorted: seq<Item>, x: Item)
    requires Ordered(sorted)
    ensures Ordered(InsertById(sorted, x))
  {
    if sorted != [] && sorted[|sorted| - 1].id > x.id {
      var front, last := sorted[..|sorted| - 1], sorted[|sorted| - 1];
      InsertOrders(front, x);
      InsertBounds(front, x, last.id);
    }
  }

  /** Sorting by id only reorders, and it sorts. */
  lemma {:induction false} SortSorts(items: seq<Item>)
    ensures Ordered(SortById(items)) && multiset(SortById(items)) == multiset(items)
  {
    if items != [] {
      SortSorts(items[..|items| - 1]);
      InsertOrders(SortById(items[..|items| - 1]), items[|items| - 1]);
      InsertSame(SortById(items[..|items| - 1]), items[|items| - 1]);
      assert items == items[..|items| - 1] + [items[|items| - 1]];
    }
  }

  /** The items with one id, in order. */
  function WithId(items: seq<Item>, id: nat): seq<Item> {
    if items == [] then []
    else
      var last := items[|items| - 1];
      WithId(items[..|items| - 1], id) + if last.id == id then [last] else []
  }

  lemma {:induction false} InsertIsStable(sorted: seq<Item>, x: Item, id: nat)
    ensures WithId(InsertById(sorted, x), id) == WithId(sorted, id) + if x.id == id then [x] else []
  {
    if sorted == [] || sorted[|sorted| - 1].id <= x.id {
      assert (sorted + [x])[..|sorted|] == sorted;
    } else {
      var front, last := sorted[..|sorted| - 1], sorted[|sorted| - 1];
      InsertIsStable(front, x, id);
      var r := InsertById(front, x);
      assert (r + [last])[..|r|] == r;
    }
  }

  /** Items with equal ids stay in the order they came in. */
  lemma {:induction false} SortIsStable(items: seq<Item>)
    ensures forall id: nat :: WithId(SortById(items), id) == WithId(items, id)
  {
    if items != [] {
      var front, last := items[..|items| - 1], items[|items| - 1];
      SortIsStable(front);
      forall id: nat
        ensures WithId(SortById(items), id) == WithId(items, id)
      {
        InsertIsStable(SortById(front), last, id);
      }
    }
  }

  // ------------------------------------------------------------ the code's own loops

  method SortStably(items: seq<Item>) returns (sorted: seq<Item>)
    ensures sorted == SortById(items)
    ensures Ordered(sorted) && multiset(sorted) == multiset(items)
    ensures forall id: nat :: WithId(sorted, id) == WithId(items, id)
  {
    sorted := [];
    for i := 0 to |items|
      invariant sorted == SortById(items[..i])
    {
      assert items[..i + 1][..i] == items[..i];
      sorted := InsertById(sorted, items[i]);
    }
    assert items[..|items|] == items;
    SortSorts(items);
    SortIsStable(items);
  }

  method FindGap(latest: nat, newer: seq<Item>) returns (gap: bool)
    ensures gap == Gap(latest, newer)
  {
    gap := false;
    for i := 0 to |newer|
      invariant !gap && forall k :: 0 <= k < i ==> newer[k].id == latest + 1 + k
    {
      if newer[i].id != latest + 1 + i {
        return true;
      }
    }
  }

  lemma {:induction false} SomeNewer(deltas: seq<Item>, latest: nat)
    ensures NewerThan(deltas, latest) != [] <==> exists k :: 0 <= k < |deltas| && deltas[k].id > latest
  {
    if deltas != [] {
      var n := |deltas| - 1;
      SomeNewer(deltas[..n], latest);
      assert forall k :: 0 <= k < n ==> deltas[..n][k] == deltas[k];
    }
  }

  method Newer(deltas: seq<Item>, latest: nat) returns (unsorted: seq<Item>)
    ensures unsorted == NewerThan(deltas, latest)
  {
    unsorted := [];
    for i := 0 to |deltas|
      invariant unsorted == NewerThan(deltas[..i], latest)
    {
      assert deltas[..i + 1][..i] == deltas[..i];
      if deltas[i].id > latest {
        unsorted := unsorted + [deltas[i]];
      }
    }
    assert deltas[..|deltas|] == deltas;
  }

  lemma {:induction false} KeptIff(items: seq<Item>, incoming: Item)
    ensures forall x :: x in Without(items, incoming) <==> (x in items &&
      (incoming.kind == Message || x.read || x.pane != incoming.pane || x.kind != incoming.kind
       || x.at > incoming.at + 5_000 || incoming.at > x.at + 5_000))
  {
    if items != [] {
      var n := |items| - 1;
      KeptIff(items[..n], incoming);
      assert items == items[..n] + [items[n]];
    }
  }

  method Retain(items: seq<Item>, incoming: Item) returns (kept: seq<Item>)
    ensures kept == Without(items, incoming)
    // A message replaces nothing; anything else the unread items of its pane and kind within five seconds.
    ensures forall x :: x in kept <==> (x in items &&
      (incoming.kind == Message || x.read || x.pane != incoming.pane || x.kind != incoming.kind
       || x.at > incoming.at + 5_000 || incoming.at > x.at + 5_000))
  {
    KeptIff(items, incoming);
    kept := [];
    for i := 0 to |items|
      invariant kept == Without(items[..i], incoming)
    {
      assert items[..i + 1][..i] == items[..i];
      if !ReplacedBy(items[i], incoming) {
        kept := kept + [items[i]];
      }
    }
    assert items[..|items|] == items;
  }

  class Session {
    var notifications: seq<Item>
    var latestId: nat
    var epoch: Option<Uuid>
    var reloading: bool

    ghost function State(): Mirror
      reads this
    {
      Mirror(notifications, latestId, epoch, reloading)
    }

    constructor ()
      ensures State() == Mirror([], 0, None, false)
    {
      notifications, latestId, epoch, reloading := [], 0, None, false;
    }

    method SyncNotifications(current: Uuid, deltas: seq<Item>) returns (changed: bool, refresh: bool)
      modifies this
      ensures State() == Sync(old(State()), current, deltas)
      ensures refresh == Asks(old(State()), current, deltas)
      ensures changed == (old(epoch) == Some(current) && NewerThan(deltas, old(latestId)) != [])
      ensures changed <==> old(epoch) == Some(current) && exists k :: 0 <= k < |deltas| && deltas[k].id > old(latestId)
      ensures !changed ==> notifications == old(notifications) && latestId == old(latestId)
    {
      SomeNewer(deltas, latestId);
      hide Fold, InsertById, SortById, Gap, Without, ReplacedBy, Ordered, WithId, NewerThan;
      if epoch != Some(current) {
        refresh := !reloading;
        reloading := true;
        return false, refresh;
      }
      var unsorted := Newer(deltas, latestId);
      if unsorted == [] {
        return false, false;
      }
      var newer := SortStably(unsorted);
      var gap := FindGap(latestId, newer);
      Push(newer);
      var overflow := if |notifications| > RING_CAPACITY then |notifications| - RING_CAPACITY else 0;
      assert notifications[overflow..] == Newest(notifications);
      notifications := notifications[overflow..];
      refresh := gap && !reloading;
      reloading := reloading || gap;
      return true, refresh;
    }

    method Push(newer: seq<Item>)
      modifies this`notifications, this`latestId
      ensures notifications == Fold(old(notifications), newer)
      ensures latestId == if newer == [] then old(latestId) else newer[|newer| - 1].id
    {
      for i := 0 to |newer|
        invariant notifications == Fold(old(notifications), newer[..i])
        invariant latestId == if i == 0 then old(latestId) else newer[i - 1].id
      {
        assert newer[..i + 1][..i] == newer[..i];
        var kept := Retain(notifications, newer[i]);
        latestId := newer[i].id;
        notifications := kept + [newer[i]];
      }
      assert newer[..|newer|] == newer;
    }

    method ReplaceNotifications(items: seq<Item>, current: Uuid)
      modifies this
      ensures State() == Replaced(old(State()), items, current)
      // The mirror is the answer, and its cursor the largest of the ids, or zero.
      ensures notifications == items && epoch == Some(current) && !reloading
      ensures forall k :: 0 <= k < |items| ==> items[k].id <= latestId
      ensures if items == [] then latestId == 0 else exists k :: 0 <= k < |items| && items[k].id == latestId
    {
      MaxIsOne(items);
      var highest := 0;
      for i := 0 to |items|
        invariant highest == MaxId(items[..i])
      {
        assert items[..i + 1][..i] == items[..i];
        if items[i].id > highest {
          highest := items[i].id;
        }
      }
      assert items[..|items|] == items;
      latestId := highest;
      notifications := items;
      epoch := Some(current);
      reloading := false;
    }

    method MarkPaneSeen(pane: Uuid)
      modifies this`notifications
      ensures notifications == Seen(old(notifications), pane)
      // Exactly the pane's items become read; nothing else about any item changes.
      ensures |notifications| == |old(notifications)|
      ensures forall k :: 0 <= k < |notifications| ==>
        && (notifications[k].read <==> old(notifications)[k].read || old(notifications)[k].pane == pane)
        && notifications[k].(read := old(notifications)[k].read) == old(notifications)[k]
    {
      ghost var marked := Seen(notifications, pane);
      for i := 0 to |notifications|
        invariant |notifications| == |marked|
        invariant forall k :: 0 <= k < i ==> notifications[k] == marked[k]
        invariant forall k :: i <= k < |marked| ==> notifications[k] == old(notifications)[k]
      {
        if notifications[i].pane == pane {
          notifications := notifications[i := notifications[i].(read := true)];
        }
      }
    }

    method MarkNotificationsRead(ids: seq<nat>)
      modifies this`notifications
      ensures notifications == if ids == [] then old(notifications) else SeenIds(old(notifications), ids)
      ensures |notifications| == |old(notifications)|
      ensures forall k :: 0 <= k < |notifications| ==>
        && (notifications[k].read <==> old(notifications)[k].read || old(notifications)[k].id in ids)
        && notifications[k].(read := old(notifications)[k].read) == old(notifications)[k]
    {
      if ids == [] {
        return;
      }
      ghost var marked := SeenIds(notifications, ids);
      for i := 0 to |notifications|
        invariant |notifications| == |marked|
        invariant forall k :: 0 <= k < i ==> notifications[k] == marked[k]
        invariant forall k :: i <= k < |marked| ==> notifications[k] == old(notifications)[k]
      {
        if notifications[i].id in ids {
          notifications := notifications[i := notifications[i].(read := true)];
        }
      }
    }
  }
}
