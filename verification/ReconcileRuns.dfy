/**
 What merging answers means over whole runs (reconcile.rs:51-182): the screens are
 per-pane maxima in any order of arrival, stale answers leave the topology alone,
 current ones prune to it, and an answer delivered twice counts once.
 */
module ReconcileRuns {
  import opened Common
  import opened Reconcile
  import N = Notifications
  import NotificationRuns

  // ------------------------------------------------------------ screens are maxima

  /** `s` was there for its pane before, or came in for it. */
  predicate Candidate(screens: map<Uuid, Screen>, incoming: seq<Screen>, pane: Uuid, s: Screen) {
    (pane in screens && screens[pane] == s) || (exists k :: 0 <= k < |incoming| && incoming[k] == s && s.pane == pane)
  }

  predicate Known(screens: map<Uuid, Screen>, incoming: seq<Screen>, pane: Uuid) {
    pane in screens || exists k :: 0 <= k < |incoming| && incoming[k].pane == pane
  }

  lemma CandidateSnoc(screens: map<Uuid, Screen>, incoming: seq<Screen>, pane: Uuid, s: Screen)
    requires incoming != []
    ensures var front, last := incoming[..|incoming| - 1], incoming[|incoming| - 1];
            && (Candidate(screens, incoming, pane, s) <==>
                (Candidate(screens, front, pane, s) || (last == s && s.pane == pane)))
            && (Known(screens, incoming, pane) <==> (Known(screens, front, pane) || last.pane == pane))
  {
    var front := incoming[..|incoming| - 1];
    assert forall k :: 0 <= k < |front| ==> front[k] == incoming[k];
    if exists k :: 0 <= k < |incoming| && incoming[k] == s && s.pane == pane {
      var k :| 0 <= k < |incoming| && incoming[k] == s && s.pane == pane;
      assert k < |front| ==> front[k] == s;
    }
    if exists k :: 0 <= k < |incoming| && incoming[k].pane == pane {
      var k :| 0 <= k < |incoming| && incoming[k].pane == pane;
      assert k < |front| ==> front[k].pane == pane;
    }
  }

  /** Each pane ends with one of its candidates, and none of them is newer. */
  lemma {:induction false} MergedIsNewest(screens: map<Uuid, Screen>, incoming: seq<Screen>, pane: Uuid, s: Screen)
    ensures var r := Merged(screens, incoming);
            && (pane in r <==> Known(screens, incoming, pane))
            && (pane in r ==> Candidate(screens, incoming, pane, r[pane]))
            && (Candidate(screens, incoming, pane, s) ==> pane in r && s.revision <= r[pane].revision)
  {
    if incoming != [] {
      var front := incoming[..|incoming| - 1];
      MergedIsNewest(screens, front, pane, s);
      CandidateSnoc(screens, incoming, pane, s);
      var r := Merged(screens, incoming);
      if pane in r {
        CandidateSnoc(screens, incoming, pane, r[pane]);
      }
    }
  }

  /** Screens of one pane with the same revision are the same screen. */
  ghost predicate Agree(screens: map<Uuid, Screen>, incoming: seq<Screen>, pane: Uuid) {
    forall s, t :: (Candidate(screens, incoming, pane, s) && Candidate(screens, incoming, pane, t)
                    && s.revision == t.revision) ==> s == t
  }

  lemma SameCandidates(screens: map<Uuid, Screen>, a: seq<Screen>, b: seq<Screen>, pane: Uuid, s: Screen)
    requires multiset(a) == multiset(b)
    ensures Candidate(screens, a, pane, s) <==> Candidate(screens, b, pane, s)
  {
    assert s in a <==> s in multiset(a);
    assert s in b <==> s in multiset(b);
  }

  /** The order in which screens arrive does not show. */
  lemma MergeOrderIrrelevant(screens: map<Uuid, Screen>, a: seq<Screen>, b: seq<Screen>, pane: Uuid)
    requires multiset(a) == multiset(b) && Agree(screens, a, pane)
    ensures var r, q := Merged(screens, a), Merged(screens, b);
            (pane in r <==> pane in q) && (pane in r ==> r[pane] == q[pane])
  {
    hide Candidate, Known, Merged;
    var r, q := Merged(screens, a), Merged(screens, b);
    if pane in r {
      MergedIsNewest(screens, a, pane, r[pane]);
      SameCandidates(screens, a, b, pane, r[pane]);
      MergedIsNewest(screens, b, pane, r[pane]);
    }
    if pane in q {
      MergedIsNewest(screens, b, pane, q[pane]);
      SameCandidates(screens, a, b, pane, q[pane]);
      MergedIsNewest(screens, a, pane, q[pane]);
    }
  }

  // ------------------------------------------------------------ one pane at a time

  predicate SameAt<V(==)>(a: map<Uuid, V>, b: map<Uuid, V>, pane: Uuid) {
    (pane in a <==> pane in b) && (pane in a ==> a[pane] == b[pane])
  }

  /** What a merge does to a pane depends on that pane's entries alone. */
  lemma {:induction false} MergeIsLocal(s1: map<Uuid, Screen>, s2: map<Uuid, Screen>, d1: map<Uuid, nat>,
                                        d2: map<Uuid, nat>, incoming: seq<Screen>, at: nat, pane: Uuid)
    requires SameAt(s1, s2, pane) && SameAt(d1, d2, pane)
    ensures SameAt(Merged(s1, incoming), Merged(s2, incoming), pane)
    ensures SameAt(Stamped(s1, d1, incoming, at), Stamped(s2, d2, incoming, at), pane)
  {
    if incoming != [] {
      MergeIsLocal(s1, s2, d1, d2, incoming[..|incoming| - 1], at, pane);
    }
  }

  lemma {:induction false} MergesChain(screens: map<Uuid, Screen>, a: seq<Screen>, b: seq<Screen>)
    ensures Merged(screens, a + b) == Merged(Merged(screens, a), b)
  {
    if b == [] {
      assert a + b == a;
    } else {
      MergesChain(screens, a, b[..|b| - 1]);
      assert (a + b)[..|a + b| - 1] == a + b[..|b| - 1];
    }
  }

  predicate NothingNewer(screens: map<Uuid, Screen>, incoming: seq<Screen>) {
    forall k :: 0 <= k < |incoming| ==> !Newer(screens, incoming[k])
  }

  lemma {:induction false} OldScreensIgnored(screens: map<Uuid, Screen>, delivered: map<Uuid, nat>,
                                             incoming: seq<Screen>, at: nat)
    requires NothingNewer(screens, incoming)
    ensures Merged(screens, incoming) == screens && Stamped(screens, delivered, incoming, at) == delivered
    ensures AppliedCount(screens, incoming) == 0
  {
    if incoming != [] {
      var front := incoming[..|incoming| - 1];
      assert forall k :: 0 <= k < |front| ==> front[k] == incoming[k];
      OldScreensIgnored(screens, delivered, front, at);
    }
  }

  lemma MergedHasAll(screens: map<Uuid, Screen>, incoming: seq<Screen>)
    ensures NothingNewer(Merged(screens, incoming), incoming)
  {
    forall k | 0 <= k < |incoming|
      ensures !Newer(Merged(screens, incoming), incoming[k])
    {
      MergedIsNewest(screens, incoming, incoming[k].pane, incoming[k]);
    }
  }

  lemma {:induction false} StrangersApply(screens: map<Uuid, Screen>, incoming: seq<Screen>, k: nat)
    requires k < |incoming| && incoming[k].pane !in screens
    ensures AppliedCount(screens, incoming) > 0
  {
    var front := incoming[..|incoming| - 1];
    if k < |front| {
      StrangersApply(screens, front, k);
    } else if incoming[k].pane in Merged(screens, front) {
      MergedIsNewest(screens, front, incoming[k].pane, incoming[k]);
      var j :| 0 <= j < |front| && front[j].pane == incoming[k].pane;
      StrangersApply(screens, front, j);
    }
  }

  // ------------------------------------------------------------ runs

  datatype Delivery = Delivery(payload: Payload, at: nat)

  function Run(d: Desktop, deliveries: seq<Delivery>): Desktop {
    if deliveries == [] then d
    else
      var last := deliveries[|deliveries| - 1];
      Reconciled(Run(d, deliveries[..|deliveries| - 1]), last.payload, last.at)
  }

  function Revision(v: View): int {
    if v.snapshot.Some? then v.snapshot.value.revision else -1
  }

  /** The session revision never goes back. */
  lemma {:induction false} SnapshotNeverOlder(d: Desktop, deliveries: seq<Delivery>)
    ensures Revision(Run(d, deliveries).view) >= Revision(d.view)
  {
    hide TopologyAfter, N.Sync;
    if deliveries != [] {
      SnapshotNeverOlder(d, deliveries[..|deliveries| - 1]);
    }
  }

  /** An answer older than the session touches no pane state, ratio or zoom level. */
  lemma StaleKeepsTopology(d: Desktop, p: Payload, at: nat)
    requires !IsCurrent(d.view, p.revision)
    ensures var after := Reconciled(d, p, at).topology;
            && after.states == d.topology.states && after.splits == d.topology.splits && after.zooms == d.topology.zooms
            && (forall pane :: pane in d.topology.screens ==>
                  pane in after.screens && after.screens[pane].revision >= d.topology.screens[pane].revision)
  {
    hide N.Sync, ViewAfter, Merged, Stamped;
    forall pane | pane in d.topology.screens
      ensures pane in Merged(d.topology.screens, p.screens)
              && Merged(d.topology.screens, p.screens)[pane].revision >= d.topology.screens[pane].revision
    {
      MergedIsNewest(d.topology.screens, p.screens, pane, d.topology.screens[pane]);
    }
  }

  lemma {:induction false} StatesAreLive(states: seq<PaneState>)
    ensures StatesByPane(states).Keys == LivePanes(states)
  {
    if states != [] {
      var front, last := states[..|states| - 1], states[|states| - 1];
      StatesAreLive(front);
      assert states == front + [last];
      assert LivePanes(states) == LivePanes(front) + {last.pane};
    }
  }

  /** A current answer leaves nothing but its live panes, and every one of its states. */
  lemma CurrentPrunes(d: Desktop, p: Payload, at: nat)
    requires IsCurrent(d.view, p.revision)
    ensures var after, live := Reconciled(d, p, at).topology, LivePanes(p.states);
            && after.screens.Keys <= live && after.delivered.Keys <= live && after.zooms.Keys <= live
            && (forall id :: id in after.splits ==> id.first in live && id.second in live)
            && after.states.Keys == live
            && (forall pane :: pane in live ==> SameAt(after.screens, Merged(d.topology.screens, p.screens), pane))
            && (forall pane :: pane in live ==> SameAt(after.zooms, d.topology.zooms, pane))
            && (forall pane :: pane in live ==>
                  SameAt(after.delivered, Stamped(d.topology.screens, d.topology.delivered, p.screens, at), pane))
            && (forall id: SplitId :: id.first in live && id.second in live && id in d.topology.splits ==>
                  id in after.splits && after.splits[id] == d.topology.splits[id])
            && after.splits.Keys <= d.topology.splits.Keys
  {
    hide N.Sync, ViewAfter, Merged, Stamped, StatesByPane, LivePanes;
    StatesAreLive(p.states);
  }

  function ScreensOf(deliveries: seq<Delivery>): seq<Screen> {
    if deliveries == [] then []
    else ScreensOf(deliveries[..|deliveries| - 1]) + deliveries[|deliveries| - 1].payload.screens
  }

  /** Every answer of the run that is current when it arrives lists the pane. */
  predicate StaysLive(d: Desktop, deliveries: seq<Delivery>, pane: Uuid)
    decreases |deliveries|
  {
    deliveries == []
    || (var front, last := deliveries[..|deliveries| - 1], deliveries[|deliveries| - 1];
        StaysLive(d, front, pane)
        && (IsCurrent(Run(d, front).view, last.payload.revision) ==> pane in LivePanes(last.payload.states)))
  }

  /** While a pane stays live its screen is one merge of everything that came for it. */
  lemma {:induction false} LiveScreenIsMerge(d: Desktop, deliveries: seq<Delivery>, pane: Uuid)
    requires StaysLive(d, deliveries, pane)
    ensures SameAt(Run(d, deliveries).topology.screens, Merged(d.topology.screens, ScreensOf(deliveries)), pane)
  {
    hide N.Sync, ViewAfter, Merged, Stamped, StatesByPane, LivePanes;
    if deliveries == [] {
      MergedNone(d.topology.screens);
    } else {
      var front, last := deliveries[..|deliveries| - 1], deliveries[|deliveries| - 1];
      LiveScreenIsMerge(d, front, pane);
      var before := Run(d, front).topology;
      MergesChain(d.topology.screens, ScreensOf(front), last.payload.screens);
      MergeIsLocal(before.screens, Merged(d.topology.screens, ScreensOf(front)), before.delivered, before.delivered,
                   last.payload.screens, last.at, pane);
    }
  }

  lemma MergedNone(screens: map<Uuid, Screen>)
    ensures Merged(screens, []) == screens
  {
  }

  /** A live pane's screen never goes back to an older revision. */
  lemma LiveScreenNeverOlder(d: Desktop, deliveries: seq<Delivery>, pane: Uuid)
    requires StaysLive(d, deliveries, pane) && pane in d.topology.screens
    ensures var after := Run(d, deliveries).topology.screens;
            pane in after && after[pane].revision >= d.topology.screens[pane].revision
  {
    hide Run, StaysLive, Merged, ScreensOf;
    LiveScreenIsMerge(d, deliveries, pane);
    MergedIsNewest(d.topology.screens, ScreensOf(deliveries), pane, d.topology.screens[pane]);
  }

  /** Two runs that bring the same screens, in whatever order and grouping, show the same one. */
  lemma RunOrderIrrelevant(d: Desktop, a: seq<Delivery>, b: seq<Delivery>, pane: Uuid)
    requires StaysLive(d, a, pane) && StaysLive(d, b, pane)
    requires multiset(ScreensOf(a)) == multiset(ScreensOf(b)) && Agree(d.topology.screens, ScreensOf(a), pane)
    ensures SameAt(Run(d, a).topology.screens, Run(d, b).topology.screens, pane)
  {
    hide Run, StaysLive, Merged, ScreensOf, Agree;
    LiveScreenIsMerge(d, a, pane);
    LiveScreenIsMerge(d, b, pane);
    MergeOrderIrrelevant(d.topology.screens, ScreensOf(a), ScreensOf(b), pane);
  }

  // ------------------------------------------------------------ choosing what is shown

  lemma {:induction false} FirstWorkstationStays(workspaces: seq<Workspace>)
    ensures var first := FirstWorkstation(workspaces);
            && (first.Some? ==> CanStay(workspaces, first.value)
                                && exists i :: 0 <= i < |workspaces| && workspaces[i].id == first.value && !workspaces[i].bot)
            && (first.None? ==> forall i :: 0 <= i < |workspaces| ==> workspaces[i].bot || !Selectable(workspaces[i]))
  {
    if workspaces != [] {
      var rest := workspaces[1..];
      FirstWorkstationStays(rest);
      assert forall i :: 0 <= i < |rest| ==> rest[i] == workspaces[i + 1];
      if workspaces[0].bot || !Selectable(workspaces[0]) {
        if FirstWorkstation(rest).Some? {
          var id := FirstWorkstation(rest).value;
          var i :| 0 <= i < |rest| && rest[i].id == id && Selectable(rest[i]);
          assert workspaces[i + 1].id == id && Selectable(workspaces[i + 1]);
          var j :| 0 <= j < |rest| && rest[j].id == id && !rest[j].bot;
          assert workspaces[j + 1].id == id && !workspaces[j + 1].bot;
        }
      } else {
        assert workspaces[0].id == FirstWorkstation(workspaces).value;
      }
    }
  }

  /**
   After a snapshot the active workspace can be shown, and a fallback is never a bot;
   the zoomed pane is visible; the focused pane is visible, or its tab is asked back,
   or another visible pane is asked for, or nothing is visible and the focus is gone.
   */
  lemma SnapshotSettlesView(v: View, s: Snapshot)
    ensures var after, visible := Viewed(v, s), VisibleTabs(ShownTabs(v, s));
            && (after.active.Some? ==> CanStay(s.workspaces, after.active.value))
            && (after.active != v.active && after.active.Some? ==>
                  exists i :: 0 <= i < |s.workspaces| && s.workspaces[i].id == after.active.value && !s.workspaces[i].bot)
            && (after.active.None? ==> forall i :: 0 <= i < |s.workspaces| ==> s.workspaces[i].bot || !Selectable(s.workspaces[i]))
            && (after.zoomed.Some? ==> after.zoomed.value in visible && after.sizes == v.sizes)
            && after.dismissed <= LiveTabs(s.workspaces)
            && match FocusOf(v, s)
               case Keep => after.focused == v.focused && v.focused.Some? && v.focused.value in visible
               case Reassert(pane) => after.focused == v.focused == Some(pane) && pane !in visible && TabsHave(ShownTabs(v, s), pane)
               case Switch(pane) => after.focused == v.focused && pane in visible
               case Clear => after.focused == None && visible == []
  {
    hide VisibleTabs, TabsOf, LiveTabs, FirstWorkstation, TabsHave;
    FirstWorkstationStays(s.workspaces);
  }

  lemma ViewedTwice(v: View, s: Snapshot)
    ensures Viewed(Viewed(v, s), s) == Viewed(v, s)
  {
    hide VisibleTabs, TabsOf, LiveTabs, FirstWorkstation, TabsHave, CanStay;
    FirstWorkstationStays(s.workspaces);
    var once := Viewed(v, s);
    assert ActiveFor(once, s) == ActiveFor(v, s);
    assert ShownTabs(once, s) == ShownTabs(v, s);
  }

  // ------------------------------------------------------------ delivered twice

  /** The service never reports a session older than the snapshot it sends with it. */
  predicate Coherent(p: Payload) {
    p.snapshot.Some? ==> p.snapshot.value.revision <= p.revision
  }

  lemma SameMap<V>(a: map<Uuid, V>, b: map<Uuid, V>)
    requires forall pane: Uuid :: SameAt(a, b, pane)
    ensures a == b
  {
    forall k | k in a
      ensures k in b && a[k] == b[k]
    {
      assert SameAt(a, b, k);
    }
    forall k | k in b
      ensures k in a
    {
      assert SameAt(a, b, k);
    }
  }

  lemma ScreensTwice(t: Topology, screens: seq<Screen>, at: nat, again: nat)
    ensures WithScreens(WithScreens(t, screens, at), screens, again) == WithScreens(t, screens, at)
  {
    hide Merged, Stamped, NothingNewer;
    var once := WithScreens(t, screens, at);
    MergedHasAll(t.screens, screens);
    OldScreensIgnored(once.screens, once.delivered, screens, again);
  }

  lemma PrunedTwice(t: Topology, screens: seq<Screen>, states: seq<PaneState>, at: nat, again: nat)
    ensures var once := PrunedTo(WithScreens(t, screens, at), states);
            PrunedTo(WithScreens(once, screens, again), states) == once
  {
    hide Merged, Stamped, StatesByPane, LivePanes;
    var full := WithScreens(t, screens, at);
    var once := PrunedTo(full, states);
    var twice := PrunedTo(WithScreens(once, screens, again), states);
    ScreensTwice(t, screens, at, again);
    forall pane: Uuid
      ensures SameAt(twice.screens, once.screens, pane) && SameAt(twice.delivered, once.delivered, pane)
    {
      if pane in LivePanes(states) {
        MergeIsLocal(once.screens, full.screens, once.delivered, full.delivered, screens, again, pane);
      }
    }
    SameMap(twice.screens, once.screens);
    SameMap(twice.delivered, once.delivered);
  }

  /** Delivering an answer a second time changes nothing, whenever that is. */
  lemma RedeliveryIsNothing(d: Desktop, p: Payload, at: nat, again: nat)
    requires Coherent(p)
    ensures var once := Reconciled(d, p, at); Reconciled(once, p, again) == once
  {
    hide Viewed, WithScreens, PrunedTo, N.Sync;
    var once := Reconciled(d, p, at);
    if p.snapshot.Some? {
      ViewedTwice(d.view, p.snapshot.value);
      ViewedRevision(d.view, p.snapshot.value);
    }
    ScreensTwice(d.topology, p.screens, at, again);
    PrunedTwice(d.topology, p.screens, p.states, at, again);
    SyncTwice(d.mirror, p.epoch, p.deltas);
    assert IsCurrent(once.view, p.revision) == IsCurrent(d.view, p.revision);
  }

  lemma ViewedRevision(v: View, s: Snapshot)
    ensures Viewed(v, s).snapshot == Some(s)
  {
  }

  lemma SyncTwice(m: N.Mirror, epoch: Uuid, deltas: seq<N.Item>)
    ensures N.Sync(N.Sync(m, epoch, deltas), epoch, deltas) == N.Sync(m, epoch, deltas)
  {
    if m.epoch == Some(epoch) {
      hide N.Sync;
      NotificationRuns.RedeliveryIgnored(m, epoch, deltas, []);
    }
  }

  /**
   The second delivery asks for a repaint exactly when the answer is current and
   carries a screen of a pane it does not list: that screen is taken and pruned again.
   */
  lemma RedeliveryRepaintsIff(d: Desktop, p: Payload, at: nat)
    requires Coherent(p)
    ensures Effects(Reconciled(d, p, at), p).changed
            <==> (IsCurrent(d.view, p.revision) && exists k :: 0 <= k < |p.screens| && p.screens[k].pane !in LivePanes(p.states))
  {
    hide Viewed, Merged, Stamped, StatesByPane, LivePanes, AppliedCount, N.Sync, N.Asks, N.NewerThan, FocusAfter, Newer;
    var once := Reconciled(d, p, at);
    if p.snapshot.Some? {
      ViewedRevision(d.view, p.snapshot.value);
    }
    MirrorSettled(d.mirror, p);
    MergedHasAll(d.topology.screens, p.screens);
    var full := Merged(d.topology.screens, p.screens);
    if IsCurrent(d.view, p.revision) {
      if k :| 0 <= k < |p.screens| && p.screens[k].pane !in LivePanes(p.states) {
        StrangersApply(once.topology.screens, p.screens, k);
      } else {
        forall k | 0 <= k < |p.screens|
          ensures !Newer(once.topology.screens, p.screens[k])
        {
          NewerAt(once.topology.screens, full, p.screens[k]);
        }
        OldScreensIgnored(once.topology.screens, once.topology.delivered, p.screens, at);
      }
    } else {
      OldScreensIgnored(full, once.topology.delivered, p.screens, at);
    }
  }

  lemma NewerAt(a: map<Uuid, Screen>, b: map<Uuid, Screen>, s: Screen)
    requires SameAt(a, b, s.pane)
    ensures Newer(a, s) == Newer(b, s)
  {
  }

  lemma MirrorSettled(m: N.Mirror, p: Payload)
    ensures !MirrorChanges(N.Sync(m, p.epoch, p.deltas), p)
  {
    if m.epoch == Some(p.epoch) {
      hide N.Sync, N.NewerThan;
      NotificationRuns.CursorCovers(m, p.epoch, p.deltas);
      NotificationRuns.NoneNewer(p.deltas, N.Sync(m, p.epoch, p.deltas).latest);
    }
  }
}
