/**
 What one answer does, and what a run of them leaves, told by what the desktop
 shows afterwards (reconcile.rs:51-182): which snapshot, which tab, which panes,
 which focus, and when it has to be painted again.
 */
module ReconcileAnswers {
  import opened Common
  import opened Reconcile
  import opened ReconcileRuns
  import N = Notifications
  import NotificationRuns

  // ------------------------------------------------------------ the snapshot shown

  /** A snapshot that is no older replaces the one held; an older one, or none,
      leaves the whole view alone. Everything else is pruned exactly by answers
      whose own revision is no older. */
  lemma AnswerTaken(d: Desktop, p: Payload, at: nat)
    ensures var after := Reconciled(d, p, at);
      && ((p.snapshot.Some? && p.snapshot.value.revision >= Revision(d.view)) ==> after.view.snapshot == p.snapshot)
      && ((p.snapshot.None? || p.snapshot.value.revision < Revision(d.view)) ==> after.view == d.view)
      && (p.revision >= Revision(d.view) ==> after.topology.states.Keys == LivePanes(p.states))
      && (p.revision < Revision(d.view) ==> after.topology.states == d.topology.states)
      && after.error == None
  {
    hide N.Sync, Merged, Stamped, LivePanes;
    StatesAreLive(p.states);
  }

  /** Whatever snapshot came in, the one shown is no older. */
  lemma {:induction false} ShownReachesAll(d: Desktop, deliveries: seq<Delivery>, k: nat)
    requires k < |deliveries| && deliveries[k].payload.snapshot.Some?
    ensures Revision(Run(d, deliveries).view) >= deliveries[k].payload.snapshot.value.revision
  {
    hide Reconciled;
    var front, last := deliveries[..|deliveries| - 1], deliveries[|deliveries| - 1];
    AnswerTaken(Run(d, front), last.payload, last.at);
    if k < |front| {
      ShownReachesAll(d, front, k);
    }
  }

  /** Delivery `k` brought a snapshot that nothing before, at the start or since
      outdates: no other is newer, and no later one is of the same revision. */
  ghost predicate LatestOfNewest(d: Desktop, deliveries: seq<Delivery>, k: nat) {
    && k < |deliveries| && deliveries[k].payload.snapshot.Some?
    && deliveries[k].payload.snapshot.value.revision >= Revision(d.view)
    && forall j :: 0 <= j < |deliveries| && deliveries[j].payload.snapshot.Some? ==>
         && deliveries[j].payload.snapshot.value.revision <= deliveries[k].payload.snapshot.value.revision
         && (j > k ==> deliveries[j].payload.snapshot.value.revision < deliveries[k].payload.snapshot.value.revision)
  }

  /** All that came in is older than what was there at the start. */
  ghost predicate AllOlder(d: Desktop, deliveries: seq<Delivery>) {
    forall j :: 0 <= j < |deliveries| && deliveries[j].payload.snapshot.Some? ==>
      deliveries[j].payload.snapshot.value.revision < Revision(d.view)
  }

  lemma StaysLatest(d: Desktop, deliveries: seq<Delivery>, k: nat)
    requires deliveries != [] && LatestOfNewest(d, deliveries[..|deliveries| - 1], k)
    requires var last := deliveries[|deliveries| - 1].payload.snapshot;
      last.Some? ==> last.value.revision < deliveries[k].payload.snapshot.value.revision
    ensures LatestOfNewest(d, deliveries, k)
  {
  }

  lemma BecomesLatest(d: Desktop, deliveries: seq<Delivery>)
    requires deliveries != []
    requires var last := deliveries[|deliveries| - 1].payload.snapshot;
      last.Some? && last.value.revision >= Revision(Run(d, deliveries[..|deliveries| - 1]).view)
    ensures LatestOfNewest(d, deliveries, |deliveries| - 1)
  {
    hide Run;
    var n := |deliveries| - 1;
    SnapshotNeverOlder(d, deliveries[..n]);
    forall j | 0 <= j < n && deliveries[j].payload.snapshot.Some?
      ensures deliveries[j].payload.snapshot.value.revision <= deliveries[n].payload.snapshot.value.revision
    {
      ShownReachesAll(d, deliveries[..n], j);
    }
  }

  /** After any run the snapshot shown is the latest delivered among the newest, or
      the one from the start if all that came in is older than that. */
  lemma {:induction false} ShownIsLatestOfNewest(d: Desktop, deliveries: seq<Delivery>)
    ensures var shown := Run(d, deliveries).view.snapshot;
      if AllOlder(d, deliveries) then shown == d.view.snapshot
      else exists k: nat :: LatestOfNewest(d, deliveries, k) && shown == deliveries[k].payload.snapshot
  {
    hide Reconciled;
    if deliveries != [] {
      var n := |deliveries| - 1;
      var front, last := deliveries[..n], deliveries[n];
      ShownIsLatestOfNewest(d, front);
      AnswerTaken(Run(d, front), last.payload, last.at);
      if last.payload.snapshot.Some? && last.payload.snapshot.value.revision >= Revision(Run(d, front).view) {
        SnapshotNeverOlder(d, front);
        BecomesLatest(d, deliveries);
      } else if AllOlder(d, front) {
        assert AllOlder(d, deliveries);
      } else {
        hide Run;
        var k: nat :| LatestOfNewest(d, front, k) && Run(d, front).view.snapshot == front[k].payload.snapshot;
        StaysLatest(d, deliveries, k);
      }
    }
  }

  // ------------------------------------------------------------ tabs, zoom and focus

  /** A workspace that has no tabs yet, or whose host is there. */
  ghost predicate MayBeShown(w: Workspace) {
    !(w.offline && |w.tabs| > 0)
  }

  /** Workspace `i` may stay, or is the first one to fall back to. */
  ghost predicate IsFallback(workspaces: seq<Workspace>, i: nat) {
    && i < |workspaces| && MayBeShown(workspaces[i]) && !workspaces[i].bot
    && forall j :: 0 <= j < i ==> workspaces[j].bot || !MayBeShown(workspaces[j])
  }

  lemma {:induction false} FallbackIs(workspaces: seq<Workspace>)
    ensures var first := FirstWorkstation(workspaces);
      if first.None? then forall j :: 0 <= j < |workspaces| ==> workspaces[j].bot || !MayBeShown(workspaces[j])
      else exists i: nat :: IsFallback(workspaces, i) && workspaces[i].id == first.value
  {
    if workspaces != [] && (workspaces[0].bot || !MayBeShown(workspaces[0])) {
      var rest := workspaces[1..];
      FallbackIs(rest);
      assert forall j :: 0 < j < |workspaces| ==> workspaces[j] == rest[j - 1];
      if FirstWorkstation(rest).Some? {
        var i: nat :| IsFallback(rest, i) && rest[i].id == FirstWorkstation(rest).value;
        assert IsFallback(workspaces, i + 1);
      }
    } else if workspaces != [] {
      assert IsFallback(workspaces, 0);
    }
  }

  /** The tabs shown for an id are those of the first workspace with it. */
  ghost predicate FirstNamed(workspaces: seq<Workspace>, id: Uuid, i: nat) {
    i < |workspaces| && workspaces[i].id == id && forall j :: 0 <= j < i ==> workspaces[j].id != id
  }

  lemma {:induction false} TabsOfFirst(workspaces: seq<Workspace>, id: Uuid, i: nat)
    requires FirstNamed(workspaces, id, i)
    ensures TabsOf(workspaces, id) == workspaces[i].tabs
  {
    if i > 0 {
      assert forall j :: 0 < j < |workspaces| ==> workspaces[j] == workspaces[1..][j - 1];
      TabsOfFirst(workspaces[1..], id, i - 1);
    }
  }

  lemma {:induction false} NamedIsFirstNamed(workspaces: seq<Workspace>, id: Uuid, k: nat) returns (i: nat)
    requires k < |workspaces| && workspaces[k].id == id
    ensures FirstNamed(workspaces, id, i)
  {
    if workspaces[0].id == id {
      return 0;
    }
    assert forall j :: 0 < j < |workspaces| ==> workspaces[j] == workspaces[1..][j - 1];
    i := NamedIsFirstNamed(workspaces[1..], id, k - 1);
    i := i + 1;
  }

  /** The active workspace stays if the snapshot still has it and it may be shown;
      otherwise the first workstation that may be shown becomes active. */
  lemma ActiveIs(v: View, s: Snapshot)
    ensures var after := Viewed(v, s).active;
      if v.active.Some? && exists i :: 0 <= i < |s.workspaces| && s.workspaces[i].id == v.active.value
                                       && MayBeShown(s.workspaces[i])
      then after == v.active
      else if after.Some? then exists i: nat :: IsFallback(s.workspaces, i) && s.workspaces[i].id == after.value
      else forall i :: 0 <= i < |s.workspaces| ==> s.workspaces[i].bot || !MayBeShown(s.workspaces[i])
  {
    FallbackIs(s.workspaces);
    hide FirstWorkstation, VisibleTabs, TabsOf, LiveTabs, TabsHave, FocusFor;
  }

  lemma ShownTabsAre(v: View, s: Snapshot)
    ensures var active := Viewed(v, s).active;
      if active.None? then ShownTabs(v, s) == []
      else exists i: nat :: FirstNamed(s.workspaces, active.value, i) && ShownTabs(v, s) == s.workspaces[i].tabs
  {
    var active := Viewed(v, s).active;
    if active.Some? {
      ActiveIs(v, s);
      var k :| 0 <= k < |s.workspaces| && s.workspaces[k].id == active.value;
      var i := NamedIsFirstNamed(s.workspaces, active.value, k);
      TabsOfFirst(s.workspaces, active.value, i);
    }
  }

  /** A dismissed tab stays dismissed exactly while the session has it. */
  lemma DismissedIff(v: View, s: Snapshot, tab: Uuid)
    ensures tab in Viewed(v, s).dismissed <==>
      tab in v.dismissed
      && exists w, t :: 0 <= w < |s.workspaces| && 0 <= t < |s.workspaces[w].tabs| && s.workspaces[w].tabs[t].id == tab
  {
    hide VisibleTabs, TabsOf, FirstWorkstation, TabsHave, CanStay, FocusFor;
    if tab in LiveTabs(s.workspaces) {
      var w, t :| w in s.workspaces && t in w.tabs && t.id == tab;
      var i :| 0 <= i < |s.workspaces| && s.workspaces[i] == w;
      var j :| 0 <= j < |w.tabs| && w.tabs[j] == t;
      assert s.workspaces[i].tabs[j].id == tab;
    }
  }

  /**
   What a snapshot that is taken makes of zoom and focus. The zoomed pane stays
   exactly while it is visible. The focused pane stays while it is visible; if one
   of the tabs shown has it, that tab is asked back; otherwise the first visible
   pane is asked for, and with none the focus is gone.
   */
  lemma SnapshotSettlesFocus(d: Desktop, p: Payload, at: nat)
    requires p.snapshot.Some? && p.snapshot.value.revision >= Revision(d.view)
    ensures var v, after, e := d.view, Reconciled(d, p, at).view, Effects(d, p);
      var tabs := ShownTabs(v, p.snapshot.value);
      var visible := VisibleTabs(tabs);
      var shows := v.focused.Some? && v.focused.value in visible;
      var holds := v.focused.Some? && exists i :: 0 <= i < |tabs| && HasPane(tabs[i].layout, v.focused.value);
      && (if v.zoomed.Some? && v.zoomed.value !in visible then after.zoomed == None && after.sizes == map[]
          else after.zoomed == v.zoomed && after.sizes == v.sizes)
      && e.reassertTab == (if !shows && holds then v.focused else None)
      && e.focusResync == (if !shows && !holds && visible != [] then Some(visible[0]) else None)
      && after.focused == (if shows || holds || visible != [] then v.focused else None)
  {
    hide VisibleTabs, TabsOf, LiveTabs, FirstWorkstation, CanStay, TopologyAfter, N.Sync, N.Asks, N.NewerThan,
         AppliedCount, HasPane;
  }

  /** Without a snapshot, or with an older one, no focus is asked for. */
  lemma OldSnapshotAsksNothing(d: Desktop, p: Payload, at: nat)
    requires p.snapshot.None? || p.snapshot.value.revision < Revision(d.view)
    ensures Effects(d, p).reassertTab == None && Effects(d, p).focusResync == None
  {
    hide N.Asks, N.NewerThan, AppliedCount, FocusOf;
  }

  // ------------------------------------------------------------ screens and when they came

  /** Among screens of the same revision the first to come stays. */
  lemma {:induction false} MergedIsFirst(screens: map<Uuid, Screen>, incoming: seq<Screen>, pane: Uuid)
    requires pane in Merged(screens, incoming)
    ensures var r := Merged(screens, incoming)[pane];
      || (pane in screens && r == screens[pane])
      || ((pane in screens ==> screens[pane].revision < r.revision)
          && exists k :: 0 <= k < |incoming| && incoming[k] == r
               && forall j :: 0 <= j < k && incoming[j].pane == pane ==> incoming[j].revision < r.revision)
  {
    if incoming != [] {
      var n := |incoming| - 1;
      var front := incoming[..n];
      assert forall j :: 0 <= j < n ==> front[j] == incoming[j];
      if Newer(Merged(screens, front), incoming[n]) && incoming[n].pane == pane {
        forall j | 0 <= j < n && incoming[j].pane == pane
          ensures incoming[j].revision < incoming[n].revision
        {
          MergedIsNewest(screens, front, pane, incoming[j]);
        }
        if pane in screens {
          MergedIsNewest(screens, front, pane, screens[pane]);
        }
      } else {
        MergedIsFirst(screens, front, pane);
      }
    }
  }

  /** A pane's delivery time is set to this delivery exactly when its screen changed. */
  lemma {:induction false} StampedIff(screens: map<Uuid, Screen>, delivered: map<Uuid, nat>, incoming: seq<Screen>,
                                      at: nat, pane: Uuid)
    ensures var stamped := Stamped(screens, delivered, incoming, at);
      if SameAt(Merged(screens, incoming), screens, pane) then SameAt(stamped, delivered, pane)
      else pane in stamped && stamped[pane] == at
  {
    if incoming != [] {
      var n := |incoming| - 1;
      var front := incoming[..n];
      StampedIff(screens, delivered, front, at, pane);
      if incoming[n].pane == pane && pane in screens {
        MergedIsNewest(screens, front, pane, screens[pane]);
      }
    }
  }

  /** The pane shows another screen once these have come in. */
  predicate Repaints(screens: map<Uuid, Screen>, incoming: seq<Screen>, pane: Uuid) {
    !SameAt(Merged(screens, incoming), screens, pane)
  }

  lemma NewerRepaints(screens: map<Uuid, Screen>, incoming: seq<Screen>)
    requires incoming != []
    requires Newer(Merged(screens, incoming[..|incoming| - 1]), incoming[|incoming| - 1])
    ensures Repaints(screens, incoming, incoming[|incoming| - 1].pane)
  {
    var front, last := incoming[..|incoming| - 1], incoming[|incoming| - 1];
    if last.pane in screens {
      MergedIsNewest(screens, front, last.pane, screens[last.pane]);
    }
  }

  lemma {:induction false} AppliedIff(screens: map<Uuid, Screen>, incoming: seq<Screen>)
    ensures AppliedCount(screens, incoming) > 0 <==> exists pane :: Repaints(screens, incoming, pane)
  {
    hide Newer, SameAt;
    if incoming == [] {
      NothingRepaints(screens);
    } else {
      var front, last := incoming[..|incoming| - 1], incoming[|incoming| - 1];
      AppliedIff(screens, front);
      if Newer(Merged(screens, front), last) {
        NewerRepaints(screens, incoming);
      } else {
        assert forall pane :: Repaints(screens, incoming, pane) <==> Repaints(screens, front, pane);
      }
    }
  }

  lemma NothingRepaints(screens: map<Uuid, Screen>)
    ensures forall pane :: !Repaints(screens, [], pane)
  {
  }

  /** A pane's state is the last one listed for it. */
  lemma {:induction false} StatesAreLast(states: seq<PaneState>, pane: Uuid)
    requires pane in StatesByPane(states)
    ensures exists k :: 0 <= k < |states| && states[k].pane == pane && StatesByPane(states)[pane] == states[k]
              && forall j :: k < j < |states| ==> states[j].pane != pane
  {
    var n := |states| - 1;
    if states[n].pane != pane {
      StatesAreLast(states[..n], pane);
    }
  }

  /** The desktop is painted again exactly when the snapshot or a screen changed, an
      error went away, or the notification cursor moved. */
  lemma RepaintsIff(d: Desktop, p: Payload, at: nat)
    ensures var after := Reconciled(d, p, at);
      Effects(d, p).changed <==>
        || after.view.snapshot != d.view.snapshot
        || (exists pane :: Repaints(d.topology.screens, p.screens, pane))
        || d.error != after.error
        || after.mirror.latest != d.mirror.latest
  {
    hide Merged, FocusAfter, TopologyAfter, AppliedCount, Repaints;
    AppliedIff(d.topology.screens, p.screens);
    CursorMovesIff(d.mirror, p);
  }

  lemma CursorMovesIff(m: N.Mirror, p: Payload)
    ensures MirrorChanges(m, p) <==> N.Sync(m, p.epoch, p.deltas).latest != m.latest
  {
    if m.epoch == Some(p.epoch) {
      NotificationRuns.CursorCovers(m, p.epoch, p.deltas);
      if N.Sync(m, p.epoch, p.deltas).latest == m.latest {
        NotificationRuns.NoneNewer(p.deltas, m.latest);
      }
    }
  }
}
