/**
 Merging one `Updates` answer into the desktop (reconcile.rs:51-182): a snapshot that
 is not older, screens that are newer, and, when the answer is current, the live
 panes that everything else is pruned to.
 */
module Reconcile {
  import opened Common
  import N = Notifications

  datatype Layout = Leaf(pane: Uuid) | Stack(panes: seq<Uuid>, active: Uuid) | Split(first: Layout, second: Layout)

  datatype Tab = Tab(id: Uuid, layout: Layout)

  datatype Workspace = Workspace(id: Uuid, bot: bool, offline: bool, tabs: seq<Tab>)

  /** `rest` and `content` stand for the fields no decision looks at. */
  datatype Snapshot = Snapshot(revision: nat, workspaces: seq<Workspace>, rest: nat)

  datatype Screen = Screen(pane: Uuid, revision: nat, content: nat)

  datatype PaneState = PaneState(pane: Uuid, content: nat)

  datatype SplitId = SplitId(first: Uuid, second: Uuid)

  datatype View = View(snapshot: Option<Snapshot>, active: Option<Uuid>, zoomed: Option<Uuid>,
                       sizes: map<Uuid, nat>, focused: Option<Uuid>, dismissed: set<Uuid>)

  datatype Topology = Topology(screens: map<Uuid, Screen>, delivered: map<Uuid, nat>, splits: map<SplitId, nat>,
                               zooms: map<Uuid, int>, states: map<Uuid, PaneState>)

  datatype Desktop = Desktop(view: View, topology: Topology, mirror: N.Mirror, error: Option<string>)

  datatype Payload = Payload(revision: nat, snapshot: Option<Snapshot>, screens: seq<Screen>,
                             states: seq<PaneState>, deltas: seq<N.Item>, epoch: Uuid)

  datatype Focus = Keep | Reassert(pane: Uuid) | Switch(pane: Uuid) | Clear

  datatype Outcome = Outcome(changed: bool, reassertTab: Option<Uuid>, focusResync: Option<Uuid>, refresh: bool)

  // ------------------------------------------------------------ reading a snapshot

  predicate HasPane(layout: Layout, pane: Uuid) {
    match layout
    case Leaf(p) => p == pane
    case Stack(panes, _) => pane in panes
    case Split(first, second) => HasPane(first, pane) || HasPane(second, pane)
  }

  function VisiblePanes(layout: Layout): seq<Uuid> {
    match layout
    case Leaf(p) => [p]
    case Stack(_, active) => [active]
    case Split(first, second) => VisiblePanes(first) + VisiblePanes(second)
  }

  function VisibleTabs(tabs: seq<Tab>): seq<Uuid> {
    if tabs == [] then [] else VisiblePanes(tabs[0].layout) + VisibleTabs(tabs[1..])
  }

  predicate Selectable(w: Workspace) {
    w.tabs == [] || !w.offline
  }

  predicate CanStay(workspaces: seq<Workspace>, id: Uuid) {
    exists i :: 0 <= i < |workspaces| && workspaces[i].id == id && Selectable(workspaces[i])
  }

  function FirstWorkstation(workspaces: seq<Workspace>): Option<Uuid> {
    if workspaces == [] then None
    else if !workspaces[0].bot && Selectable(workspaces[0]) then Some(workspaces[0].id)
    else FirstWorkstation(workspaces[1..])
  }

  function TabsOf(workspaces: seq<Workspace>, id: Uuid): seq<Tab> {
    if workspaces == [] then []
    else if workspaces[0].id == id then workspaces[0].tabs
    else TabsOf(workspaces[1..], id)
  }

  predicate TabsHave(tabs: seq<Tab>, pane: Uuid) {
    exists i :: 0 <= i < |tabs| && HasPane(tabs[i].layout, pane)
  }

  function LiveTabs(workspaces: seq<Workspace>): set<Uuid> {
    set w, t | w in workspaces && t in w.tabs :: t.id
  }

  function FocusFor(visible: seq<Uuid>, focused: Option<Uuid>, held: bool): Focus {
    if focused.Some? && focused.value in visible then Keep
    else if focused.Some? && held then Reassert(focused.value)
    else if visible != [] then Switch(visible[0])
    else Clear
  }

  // ------------------------------------------------------------ specification functions

  predicate IsCurrent(v: View, revision: nat) {
    v.snapshot.None? || revision >= v.snapshot.value.revision
  }

  function ActiveFor(v: View, s: Snapshot): Option<Uuid> {
    if v.active.Some? && CanStay(s.workspaces, v.active.value) then v.active else FirstWorkstation(s.workspaces)
  }

  function ShownTabs(v: View, s: Snapshot): seq<Tab> {
    var active := ActiveFor(v, s);
    if active.Some? then TabsOf(s.workspaces, active.value) else []
  }

  function FocusOf(v: View, s: Snapshot): Focus {
    var tabs := ShownTabs(v, s);
    FocusFor(VisibleTabs(tabs), v.focused, v.focused.Some? && TabsHave(tabs, v.focused.value))
  }

  function Viewed(v: View, s: Snapshot): View {
    var hidden := v.zoomed.Some? && v.zoomed.value !in VisibleTabs(ShownTabs(v, s));
    View(Some(s), ActiveFor(v, s), if hidden then None else v.zoomed, if hidden then map[] else v.sizes,
         if FocusOf(v, s).Clear? then None else v.focused, v.dismissed * LiveTabs(s.workspaces))
  }

  predicate Newer(screens: map<Uuid, Screen>, screen: Screen) {
    screen.pane !in screens || screen.revision > screens[screen.pane].revision
  }

  function Merged(screens: map<Uuid, Screen>, incoming: seq<Screen>): map<Uuid, Screen> {
    if incoming == [] then screens
    else
      var before, last := Merged(screens, incoming[..|incoming| - 1]), incoming[|incoming| - 1];
      if Newer(before, last) then before[last.pane := last] else before
  }

  function Stamped(screens: map<Uuid, Screen>, delivered: map<Uuid, nat>, incoming: seq<Screen>, at: nat)
    : map<Uuid, nat>
  {
    if incoming == [] then delivered
    else
      var front, last := incoming[..|incoming| - 1], incoming[|incoming| - 1];
      var before := Stamped(screens, delivered, front, at);
      if Newer(Merged(screens, front), last) then before[last.pane := at] else before
  }

  function AppliedCount(screens: map<Uuid, Screen>, incoming: seq<Screen>): nat {
    if incoming == [] then 0
    else
      var front, last := incoming[..|incoming| - 1], incoming[|incoming| - 1];
      AppliedCount(screens, front) + if Newer(Merged(screens, front), last) then 1 else 0
  }

  function LivePanes(states: seq<PaneState>): set<Uuid> {
    set s | s in states :: s.pane
  }

  function StatesByPane(states: seq<PaneState>): map<Uuid, PaneState> {
    if states == [] then map[]
    else StatesByPane(states[..|states| - 1])[states[|states| - 1].pane := states[|states| - 1]]
  }

  function Pruned<V>(m: map<Uuid, V>, live: set<Uuid>): map<Uuid, V> {
    map k | k in m && k in live :: m[k]
  }

  function PrunedSplits(m: map<SplitId, nat>, live: set<Uuid>): map<SplitId, nat> {
    map k | k in m && k.first in live && k.second in live :: m[k]
  }

  function PrunedTo(t: Topology, states: seq<PaneState>): Topology {
    var live := LivePanes(states);
    Topology(Pruned(t.screens, live), Pruned(t.delivered, live), PrunedSplits(t.splits, live),
             Pruned(t.zooms, live), StatesByPane(states))
  }

  function WithScreens(t: Topology, screens: seq<Screen>, at: nat): Topology {
    t.(screens := Merged(t.screens, screens), delivered := Stamped(t.screens, t.delivered, screens, at))
  }

  predicate TakesSnapshot(v: View, p: Payload) {
    p.snapshot.Some? && IsCurrent(v, p.snapshot.value.revision)
  }

  function ViewAfter(v: View, p: Payload): View {
    if TakesSnapshot(v, p) then Viewed(v, p.snapshot.value) else v
  }

  lemma SnapshotTaken(v: View, p: Payload)
    ensures if p.snapshot.Some? && (v.snapshot.None? || p.snapshot.value.revision >= v.snapshot.value.revision)
            then ViewAfter(v, p).snapshot == p.snapshot else ViewAfter(v, p) == v
  {
  }

  function TopologyAfter(v: View, t: Topology, p: Payload, at: nat): Topology {
    var merged := WithScreens(t, p.screens, at);
    if IsCurrent(v, p.revision) then PrunedTo(merged, p.states) else merged
  }

  function FocusAfter(v: View, p: Payload): Focus {
    if TakesSnapshot(v, p) then FocusOf(v, p.snapshot.value) else Keep
  }

  function Reconciled(d: Desktop, p: Payload, at: nat): Desktop {
    Desktop(ViewAfter(d.view, p), TopologyAfter(d.view, d.topology, p, at), N.Sync(d.mirror, p.epoch, p.deltas), None)
  }

  predicate MirrorChanges(m: N.Mirror, p: Payload) {
    m.epoch == Some(p.epoch) && N.NewerThan(p.deltas, m.latest) != []
  }

  function Effects(d: Desktop, p: Payload): Outcome {
    var focus := FocusAfter(d.view, p);
    Outcome((TakesSnapshot(d.view, p) && d.view.snapshot != p.snapshot) || AppliedCount(d.topology.screens, p.screens) > 0
            || d.error.Some? || MirrorChanges(d.mirror, p),
            if focus.Reassert? then Some(focus.pane) else None,
            if focus.Switch? then Some(focus.pane) else None,
            N.Asks(d.mirror, p.epoch, p.deltas))
  }

  // ------------------------------------------------------------ the desktop's own state

  class DesktopState {
    var snapshot: Option<Snapshot>
    var activeWorkspace: Option<Uuid>
    var zoomedPane: Option<Uuid>
    var lastSizes: map<Uuid, nat>
    var focusedPane: Option<Uuid>
    var dismissedTabs: set<Uuid>
    var screens: map<Uuid, Screen>
    var lastDelivery: map<Uuid, nat>
    var splitRatios: map<SplitId, nat>
    var zoomLevels: map<Uuid, int>
    var paneStates: map<Uuid, PaneState>
    var connectionError: Option<string>
    const notices: N.Session

    ghost function ViewNow(): View
      reads this
    {
      View(snapshot, activeWorkspace, zoomedPane, lastSizes, focusedPane, dismissedTabs)
    }

    ghost function TopologyNow(): Topology
      reads this
    {
      Topology(screens, lastDelivery, splitRatios, zoomLevels, paneStates)
    }

    ghost function State(): Desktop
      reads this, notices
    {
      Desktop(ViewNow(), TopologyNow(), notices.State(), connectionError)
    }

    constructor ()
      ensures State() == Desktop(View(None, None, None, map[], None, {}),
                                 Topology(map[], map[], map[], map[], map[]), N.Mirror([], 0, None, false), None)
      ensures fresh(notices)
    {
      snapshot, activeWorkspace, zoomedPane, lastSizes, focusedPane, dismissedTabs := None, None, None, map[], None, {};
      screens, lastDelivery, splitRatios, zoomLevels, paneStates := map[], map[], map[], map[], map[];
      connectionError := None;
      notices := new N.Session();
    }

    /** reconcile.rs:73-134 */
    method TakeSnapshot(next: Snapshot) returns (changed: bool, focus: Focus)
      modifies this`snapshot, this`activeWorkspace, this`zoomedPane, this`lastSizes, this`focusedPane, this`dismissedTabs
      ensures ViewNow() == Viewed(old(ViewNow()), next) && focus == FocusOf(old(ViewNow()), next)
      ensures changed == (old(snapshot) != Some(next))
    {
      hide TabsOf, VisibleTabs, LiveTabs, FirstWorkstation, CanStay, TabsHave, FocusFor;
      ghost var was := ViewNow();
      changed := snapshot != Some(next);
      if activeWorkspace.None? || !CanStay(next.workspaces, activeWorkspace.value) {
        activeWorkspace := FirstWorkstation(next.workspaces);
      }
      assert activeWorkspace == ActiveFor(was, next);
      var tabs := if activeWorkspace.Some? then TabsOf(next.workspaces, activeWorkspace.value) else [];
      assert tabs == ShownTabs(was, next);
      var visible := VisibleTabs(tabs);
      if zoomedPane.Some? && zoomedPane.value !in visible {
        zoomedPane := None;
        lastSizes := map[];
      }
      var focusedExists := focusedPane.Some? && TabsHave(tabs, focusedPane.value);
      focus := FocusFor(visible, focusedPane, focusedExists);
      if focus.Clear? {
        focusedPane := None;
      }
      dismissedTabs := dismissedTabs * LiveTabs(next.workspaces);
      snapshot := Some(next);
    }

    /** reconcile.rs:135-145 */
    method MergeScreens(incoming: seq<Screen>, at: nat) returns (applied: nat)
      modifies this`screens, this`lastDelivery
      ensures TopologyNow() == WithScreens(old(TopologyNow()), incoming, at)
      ensures applied == AppliedCount(old(screens), incoming)
    {
      applied := 0;
      for i := 0 to |incoming|
        invariant screens == Merged(old(screens), incoming[..i])
        invariant lastDelivery == Stamped(old(screens), old(lastDelivery), incoming[..i], at)
        invariant applied == AppliedCount(old(screens), incoming[..i])
      {
        assert incoming[..i + 1][..i] == incoming[..i];
        if Newer(screens, incoming[i]) {
          lastDelivery := lastDelivery[incoming[i].pane := at];
          screens := screens[incoming[i].pane := incoming[i]];
          applied := applied + 1;
        }
      }
      assert incoming[..|incoming|] == incoming;
    }

    /** reconcile.rs:146-165 */
    method PruneTo(states: seq<PaneState>)
      modifies this`screens, this`lastDelivery, this`splitRatios, this`zoomLevels, this`paneStates
      ensures TopologyNow() == PrunedTo(old(TopologyNow()), states)
    {
      var live := set s | s in states :: s.pane;
      screens := map pane | pane in screens && pane in live :: screens[pane];
      lastDelivery := map pane | pane in lastDelivery && pane in live :: lastDelivery[pane];
      splitRatios := map id | id in splitRatios && id.first in live && id.second in live :: splitRatios[id];
      zoomLevels := map pane | pane in zoomLevels && pane in live :: zoomLevels[pane];
      var collected: map<Uuid, PaneState> := map[];
      for i := 0 to |states|
        invariant collected == StatesByPane(states[..i])
      {
        assert states[..i + 1][..i] == states[..i];
        collected := collected[states[i].pane := states[i]];
      }
      assert states[..|states|] == states;
      paneStates := collected;
    }

    /** reconcile.rs:68-165: everything but the notification mirror and the connection error. */
    method MergeTopology(payload: Payload, deliveredAt: nat) returns (changed: bool, focus: Focus, applied: nat)
      modifies this`snapshot, this`activeWorkspace, this`zoomedPane, this`lastSizes, this`focusedPane,
        this`dismissedTabs, this`screens, this`lastDelivery, this`splitRatios, this`zoomLevels, this`paneStates
      ensures ViewNow() == ViewAfter(old(ViewNow()), payload)
      ensures TopologyNow() == TopologyAfter(old(ViewNow()), old(TopologyNow()), payload, deliveredAt)
      ensures changed == (TakesSnapshot(old(ViewNow()), payload) && old(snapshot) != payload.snapshot)
      ensures focus == FocusAfter(old(ViewNow()), payload)
      ensures applied == AppliedCount(old(screens), payload.screens)
    {
      hide Viewed, FocusOf, WithScreens, PrunedTo, AppliedCount;
      var topologyIsCurrent := snapshot.None? || payload.revision >= snapshot.value.revision;
      changed, focus := false, Keep;
      if payload.snapshot.Some? && (snapshot.None? || payload.snapshot.value.revision >= snapshot.value.revision) {
        changed, focus := TakeSnapshot(payload.snapshot.value);
      }
      applied := MergeScreens(payload.screens, deliveredAt);
      if topologyIsCurrent {
        PruneTo(payload.states);
      }
    }

    method ReconcileUpdates(payload: Payload, deliveredAt: nat) returns (outcome: Outcome)
      modifies this, notices
      ensures State() == Reconciled(old(State()), payload, deliveredAt)
      ensures outcome == Effects(old(State()), payload)
      // A snapshot that is no older is taken; without one the view stays as it is.
      ensures payload.snapshot.Some? && (old(snapshot).None? || payload.snapshot.value.revision >= old(snapshot).value.revision)
              ==> snapshot == payload.snapshot
      ensures payload.snapshot.None? || (old(snapshot).Some? && payload.snapshot.value.revision < old(snapshot).value.revision)
              ==> ViewNow() == old(ViewNow())
      ensures connectionError == None
    {
      SnapshotTaken(ViewNow(), payload);
      hide ViewAfter, TopologyAfter, FocusAfter, TakesSnapshot, AppliedCount, N.Sync, N.Asks, N.NewerThan;
      var snapshotChanged, focus, applied := MergeTopology(payload, deliveredAt);
      var mirrorChanged, refresh := notices.SyncNotifications(payload.epoch, payload.deltas);
      var connectionChanged := connectionError.Some?;
      connectionError := None;
      outcome := Outcome(snapshotChanged || applied > 0 || connectionChanged || mirrorChanged,
                         if focus.Reassert? then Some(focus.pane) else None,
                         if focus.Switch? then Some(focus.pane) else None, refresh);
    }
  }
}
