/**
 What the notification mirror means: which items a batch leaves, when a batch
 asks for a reload, and when polling twice equals polling once.
 */
module NotificationMirror {
  import opened Common
  import opened Notifications

  predicate Increasing(items: seq<Item>) {
    forall i, j :: 0 <= i < j < |items| ==> items[i].id < items[j].id
  }

  predicate Above(items: seq<Item>, bound: nat) {
    forall i :: 0 <= i < |items| ==> items[i].id > bound
  }

  /** Some delta carries this id. */
  predicate Carries(items: seq<Item>, id: nat) {
    exists k :: 0 <= k < |items| && items[k].id == id
  }

  predicate Distinct(items: seq<Item>) {
    forall i, j :: 0 <= i < j < |items| ==> items[i].id != items[j].id
  }

  // ------------------------------------------------------------ sorting

  lemma {:induction false} SortOfSorted(items: seq<Item>)
    requires Ordered(items)
    ensures SortById(items) == items
  {
    if items != [] {
      SortOfSorted(items[..|items| - 1]);
      assert items == items[..|items| - 1] + [items[|items| - 1]];
    }
  }

  lemma InBoth(a: seq<Item>, b: seq<Item>, k: nat)
    requires multiset(a) == multiset(b) && k < |a|
    ensures exists j :: 0 <= j < |b| && b[j] == a[k]
  {
    assert a[k] in multiset(a);
    assert a[k] in b;
  }

  lemma SameIds(a: seq<Item>, b: seq<Item>)
    requires multiset(a) == multiset(b)
    ensures forall id: nat :: Carries(a, id) <==> Carries(b, id)
    ensures forall bound: nat :: Above(a, bound) ==> Above(b, bound)
    ensures forall bound: nat :: AtMost(a, bound) ==> AtMost(b, bound)
  {
    forall k | 0 <= k < |a|
      ensures exists j :: 0 <= j < |b| && b[j] == a[k]
    {
      InBoth(a, b, k);
    }
    forall k | 0 <= k < |b|
      ensures exists j :: 0 <= j < |a| && a[j] == b[k]
    {
      InBoth(b, a, k);
    }
  }

  lemma {:induction false} DistinctSorts(items: seq<Item>)
    requires Distinct(items)
    ensures Increasing(SortById(items))
  {
    if items != [] {
      var front, last := items[..|items| - 1], items[|items| - 1];
      DistinctSorts(front);
      SortSorts(front);
      SameIds(SortById(front), front);
      assert forall i :: 0 <= i < |front| ==> front[i] == items[i];
      assert !Carries(SortById(front), last.id);
      InsertStrict(SortById(front), last);
    }
  }

  lemma {:induction false} InsertStrict(sorted: seq<Item>, x: Item)
    requires Increasing(sorted) && !Carries(sorted, x.id)
    ensures Increasing(InsertById(sorted, x))
  {
    if sorted != [] && sorted[|sorted| - 1].id > x.id {
      var front, last := sorted[..|sorted| - 1], sorted[|sorted| - 1];
      assert !Carries(front, x.id) by {
        assert forall k :: 0 <= k < |front| ==> front[k] == sorted[k];
      }
      InsertStrict(front, x);
      InsertBounds(front, x, last.id - 1);
    }
  }

  // ------------------------------------------------------------ when a reload is asked for

  /** Every id right after the cursor, as many as there are items, is carried by one of them. */
  predicate Contiguous(latest: nat, newer: seq<Item>) {
    forall id: nat :: latest < id <= latest + |newer| ==> Carries(newer, id)
  }

  lemma {:induction false} NoGapIff(latest: nat, sorted: seq<Item>)
    requires Ordered(sorted) && Above(sorted, latest)
    ensures !Gap(latest, sorted) <==> Contiguous(latest, sorted)
  {
    if !Gap(latest, sorted) {
      forall id: nat | latest < id <= latest + |sorted|
        ensures Carries(sorted, id)
      {
        assert sorted[id - latest - 1].id == id;
      }
    } else if Contiguous(latest, sorted) {
      NoGapAt(latest, sorted);
      assert false;
    }
  }

  lemma {:induction false} NoGapAt(latest: nat, sorted: seq<Item>)
    requires Ordered(sorted) && Contiguous(latest, sorted)
    ensures !Gap(latest, sorted)
    decreases |sorted|
  {
    if sorted != [] {
      var rest := sorted[1..];
      assert Carries(sorted, latest + 1);
      assert sorted[0].id <= latest + 1;
      if sorted[0].id == latest + 1 {
        CarriedByRest(latest + 1, sorted, |rest|);
        NoGapAt(latest + 1, rest);
        assert forall i :: 1 <= i < |sorted| ==> sorted[i] == rest[i - 1];
      } else {
        CarriedByRest(latest, sorted, |sorted|);
        assert Carries(rest, latest + |sorted|);
        NoGapAt(latest, rest);
        NoneBeyond(latest, rest);
        assert false;
      }
    }
  }

  lemma NoneBeyond(latest: nat, sorted: seq<Item>)
    requires !Gap(latest, sorted)
    ensures !Carries(sorted, latest + |sorted| + 1)
  {
  }

  lemma CarriedByRest(from: nat, sorted: seq<Item>, count: nat)
    requires sorted != [] && sorted[0].id <= from
    requires forall id: nat :: from < id <= from + count ==> Carries(sorted, id)
    ensures forall id: nat :: from < id <= from + count ==> Carries(sorted[1..], id)
  {
    forall id: nat | from < id <= from + count
      ensures Carries(sorted[1..], id)
    {
      assert Carries(sorted, id);
      var k :| 0 <= k < |sorted| && sorted[k].id == id;
      assert sorted[1..][k - 1].id == id;
    }
  }

  lemma {:induction false} NewerAbove(deltas: seq<Item>, latest: nat)
    ensures Above(NewerThan(deltas, latest), latest)
  {
    if deltas != [] {
      NewerAbove(deltas[..|deltas| - 1], latest);
    }
  }

  lemma FreshAbove(deltas: seq<Item>, latest: nat)
    ensures Ordered(SortById(NewerThan(deltas, latest))) && Above(SortById(NewerThan(deltas, latest)), latest)
  {
    hide NewerThan, SortById, Ordered, Above;
    var newer := NewerThan(deltas, latest);
    NewerAbove(deltas, latest);
    SortSorts(newer);
    SameIds(newer, SortById(newer));
  }

  /**
   A poll of the mirror's own ring asks for a reload exactly when none is being
   waited for and the new ids do not continue the cursor without a hole or a repeat;
   a poll of another ring asks exactly when none is being waited for.
   */
  lemma AsksIff(m: Mirror, epoch: Uuid, deltas: seq<Item>)
    ensures m.epoch != Some(epoch) ==> (Asks(m, epoch, deltas) <==> !m.reloading)
    ensures m.epoch == Some(epoch) ==>
              (Asks(m, epoch, deltas) <==> (!m.reloading && !Contiguous(m.latest, NewerThan(deltas, m.latest))))
  {
    var unsorted := NewerThan(deltas, m.latest);
    hide NewerThan, SortById, Ordered, Above, Gap, Fold, Newest;
    var newer := SortById(unsorted);
    FreshAbove(deltas, m.latest);
    SortSorts(unsorted);
    SameIds(unsorted, newer);
    NoGapIff(m.latest, newer);
    assert Contiguous(m.latest, newer) <==> Contiguous(m.latest, unsorted);
    if newer == [] {
      assert Contiguous(m.latest, newer);
    }
  }

  // ------------------------------------------------------------ what a batch leaves

  predicate ReplacedByAny(x: Item, newer: seq<Item>) {
    exists k :: 0 <= k < |newer| && ReplacedBy(x, newer[k])
  }

  /** The items that none of `newer` replaces. */
  function Keep(items: seq<Item>, newer: seq<Item>): seq<Item> {
    if items == [] then []
    else
      var last := items[|items| - 1];
      Keep(items[..|items| - 1], newer) + if ReplacedByAny(last, newer) then [] else [last]
  }

  /** The items that no later item of the same batch replaces. */
  function Standing(newer: seq<Item>): seq<Item> {
    if newer == [] then []
    else (if ReplacedByAny(newer[0], newer[1..]) then [] else [newer[0]]) + Standing(newer[1..])
  }

  lemma {:induction false} WithoutSplits(a: seq<Item>, b: seq<Item>, x: Item)
    ensures Without(a + b, x) == Without(a, x) + Without(b, x)
  {
    if b == [] {
      assert a + b == a;
    } else {
      var front, last := b[..|b| - 1], b[|b| - 1];
      WithoutSplits(a, front, x);
      assert (a + b)[..|a + b| - 1] == a + front;
      Associative(Without(a, x), Without(front, x), if ReplacedBy(last, x) then [] else [last]);
    }
  }

  lemma {:induction false} KeepMore(items: seq<Item>, newer: seq<Item>, x: Item)
    ensures Keep(items, newer + [x]) == Without(Keep(items, newer), x)
  {
    if items != [] {
      var front, last := items[..|items| - 1], items[|items| - 1];
      KeepMore(front, newer, x);
      AnyMore(last, newer, x);
      WithoutSplits(Keep(front, newer), if ReplacedByAny(last, newer) then [] else [last], x);
      WithoutOne(last, x);
    }
  }

  lemma WithoutOne(y: Item, x: Item)
    ensures Without([y], x) == (if ReplacedBy(y, x) then [] else [y]) && Without([], x) == []
  {
    assert [y][..0] == [];
  }

  lemma AnyMore(y: Item, newer: seq<Item>, x: Item)
    ensures ReplacedByAny(y, newer + [x]) <==> (ReplacedByAny(y, newer) || ReplacedBy(y, x))
  {
    var all := newer + [x];
    assert all[|newer|] == x;
    assert forall k :: 0 <= k < |newer| ==> all[k] == newer[k];
    if ReplacedByAny(y, newer) {
      var k :| 0 <= k < |newer| && ReplacedBy(y, newer[k]);
      assert ReplacedBy(y, all[k]);
    }
  }

  lemma {:induction false} KeepNone(items: seq<Item>)
    ensures Keep(items, []) == items
  {
    if items != [] {
      KeepNone(items[..|items| - 1]);
      assert items == items[..|items| - 1] + [items[|items| - 1]];
    }
  }

  /** Items in front of others are only ever filtered, whatever happens behind them. */
  lemma {:induction false} FoldSplits(a: seq<Item>, b: seq<Item>, newer: seq<Item>)
    ensures Fold(a + b, newer) == Keep(a, newer) + Fold(b, newer)
  {
    if newer == [] {
      KeepNone(a);
    } else {
      var front, last := newer[..|newer| - 1], newer[|newer| - 1];
      FoldSplits(a, b, front);
      WithoutSplits(Keep(a, front), Fold(b, front), last);
      KeepMore(a, front, last);
      assert newer == front + [last];
      Associative(Without(Keep(a, front), last), Without(Fold(b, front), last), [last]);
    }
  }

  lemma {:induction false} FoldsChain(items: seq<Item>, first: seq<Item>, second: seq<Item>)
    ensures Fold(items, first + second) == Fold(Fold(items, first), second)
  {
    if second == [] {
      assert first + second == first;
    } else {
      var front := second[..|second| - 1];
      FoldsChain(items, first, front);
      assert (first + second)[..|first + second| - 1] == first + front;
    }
  }

  /**
   One pass over a batch leaves exactly the old items no new one replaces, then the
   new items no later one replaces, both in order.
   */
  lemma FoldLeaves(items: seq<Item>, newer: seq<Item>)
    ensures Fold(items, newer) == Keep(items, newer) + Standing(newer)
  {
    assert items + [] == items;
    FoldSplits(items, [], newer);
    FoldAlone(newer);
  }

  lemma {:induction false} FoldAlone(newer: seq<Item>)
    ensures Fold([], newer) == Standing(newer)
  {
    if newer != [] {
      var head, rest := newer[0], newer[1..];
      FoldAlone(rest);
      assert newer == [head] + rest;
      FoldsChain([], [head], rest);
      assert Fold([], [head]) == [head] by {
        assert [head][..0] == [];
      }
      assert [head] + [] == [head];
      FoldSplits([head], [], rest);
      assert [head][..0] == [];
      assert Keep([head], rest) == if ReplacedByAny(head, rest) then [] else [head];
    }
  }
}
