/**
 The owner of one embedded browser (cef_common.rs). Creation is asynchronous:
 calls made before it completes are retained and applied when it does, and a
 close must not be lost.

 `Step` is the specification of every call and callback; `BrowserPane` is the
 mutable owner; the theorems are about every sequence of calls.
 */
module BrowserOwner {
  import opened Common

  type Url = string

  /** A rectangle with the height of the parent view. */
  datatype Bounds = Bounds(x: int, y: int, width: int, height: int, parentHeight: int)

  datatype Holder = Gpui | Browser

  /** What the platform shows of one browser. `closes` counts forced closes;
      `loaded` is the last address it was told to load. */
  datatype Native = Native(bounds: Option<Bounds>, visible: bool, loaded: Url, hostFocus: bool, holder: Holder, history: seq<History>, closes: nat)

  datatype History = Back | Forward | Reload | Stop

  datatype State = State(
    live: bool, creationPending: bool, pendingBounds: Option<Bounds>, pendingUrl: Option<Url>,
    visible: bool, focused: bool, closeRequested: bool, native: Native)

  datatype Event =
    | SetBounds(bounds: Bounds)
    | SetVisible(show: bool)
    | Navigate(url: Url)
    | Focus(focus: bool)
    | Go(action: History)
    | Close
    | Created
    | BeforeClose
    | ShutdownClose

  function Start(url: Url): State {
    State(false, true, None, None, true, false, false, Native(None, true, url, false, Gpui, [], 0))
  }

  function WithFocus(n: Native, focus: bool): Native {
    n.(hostFocus := focus, holder := if focus then Browser else Gpui)
  }

  function OnCreated(s: State): State {
    var t := s.(live := true, creationPending := false, pendingBounds := None, pendingUrl := None);
    if s.closeRequested then t.(native := s.native.(closes := s.native.closes + 1))
    else
      var placed := if s.pendingBounds.Some? then s.native.(bounds := s.pendingBounds) else s.native;
      var shown := placed.(visible := s.visible);
      var loaded := if s.pendingUrl.Some? then shown.(loaded := s.pendingUrl.value) else shown;
      t.(native := WithFocus(loaded, s.focused))
  }

  function Step(s: State, e: Event): State {
    match e
    case SetBounds(bounds) =>
      if s.closeRequested || s.pendingBounds == Some(bounds) then s
      else s.(pendingBounds := Some(bounds), native := if s.live then s.native.(bounds := Some(bounds)) else s.native)
    case SetVisible(show) =>
      if s.closeRequested || s.visible == show then s
      else s.(visible := show, native := if s.live then s.native.(visible := show) else s.native)
    case Navigate(url) =>
      if s.closeRequested then s
      else if s.live then s.(native := s.native.(loaded := url))
      else s.(pendingUrl := Some(url))
    case Focus(focus) =>
      if s.closeRequested then s
      else s.(focused := focus,
              native := if s.live then WithFocus(s.native, focus)
                        else if focus then s.native else s.native.(holder := Gpui))
    case Go(action) =>
      if s.closeRequested || !s.live then s else s.(native := s.native.(history := s.native.history + [action]))
    case Close =>
      if s.closeRequested then s
      else
        var n := if s.live then s.native.(visible := false, closes := s.native.closes + 1) else s.native;
        s.(closeRequested := true, visible := false, native := n.(holder := Gpui))
    case Created => if s.creationPending then OnCreated(s) else s
    case BeforeClose => s.(live := false, creationPending := false)
    case ShutdownClose =>
      s.(closeRequested := true, native := if s.live then s.native.(closes := s.native.closes + 1) else s.native)
  }

  function Run(s: State, events: seq<Event>): State
    decreases |events|
  {
    if events == [] then s else Run(Step(s, events[0]), events[1..])
  }

  // -------------------------------------------------------- the mutable owner

  class BrowserPane {
    var browser: bool
    var creationPending: bool
    var pendingBounds: Option<Bounds>
    var pendingUrl: Option<Url>
    var visible: bool
    var focused: bool
    var closeRequested: bool
    /** The platform's side; changed only by the calls below. */
    var native: Native

    ghost function Now(): State
      reads this
    {
      State(browser, creationPending, pendingBounds, pendingUrl, visible, focused, closeRequested, native)
    }

    constructor (url: Url)
      ensures Now() == Start(url)
    {
      browser, creationPending, pendingBounds, pendingUrl := false, true, None, None;
      visible, focused, closeRequested := true, false, false;
      native := Native(None, true, url, false, Gpui, [], 0);
    }

    method SetBounds(bounds: Bounds)
      modifies this`pendingBounds, this`native
      ensures Now() == Step(old(Now()), Event.SetBounds(bounds))
    {
      if closeRequested || pendingBounds == Some(bounds) {
        return;
      }
      pendingBounds := Some(bounds);
      if browser {
        native := native.(bounds := Some(bounds));
      }
    }

    method SetVisible(show: bool)
      modifies this`visible, this`native
      ensures Now() == Step(old(Now()), Event.SetVisible(show))
    {
      if closeRequested || visible == show {
        return;
      }
      visible := show;
      if browser {
        native := native.(visible := show);
      }
    }

    method Navigate(url: Url)
      modifies this`pendingUrl, this`native
      ensures Now() == Step(old(Now()), Event.Navigate(url))
    {
      if closeRequested {
        return;
      }
      if browser {
        native := native.(loaded := url);
      } else {
        pendingUrl := Some(url);
      }
    }

    method SetFocus(focus: bool)
      modifies this`focused, this`native
      ensures Now() == Step(old(Now()), Event.Focus(focus))
    {
      if closeRequested {
        return;
      }
      focused := focus;
      if browser {
        native := native.(hostFocus := focus);
        if focus {
          native := native.(holder := Browser);
        }
      }
      if !focus {
        native := native.(holder := Gpui);
      }
    }

    method Go(action: History)
      modifies this`native
      ensures Now() == Step(old(Now()), Event.Go(action))
    {
      if !closeRequested && browser {
        native := native.(history := native.history + [action]);
      }
    }

    method Close()
      modifies this`closeRequested, this`visible, this`native
      ensures Now() == Step(old(Now()), Event.Close)
    {
      if closeRequested {
        return;
      }
      closeRequested := true;
      visible := false;
      if browser {
        native := native.(visible := false);
        native := native.(closes := native.closes + 1);
      }
      native := native.(holder := Gpui);
    }

    method OnAfterCreated()
      requires creationPending
      modifies this
      ensures Now() == Step(old(Now()), Event.Created)
    {
      creationPending := false;
      browser := true;
      var bounds, url := pendingBounds, pendingUrl;
      pendingBounds, pendingUrl := None, None;
      if closeRequested {
        native := native.(closes := native.closes + 1);
        return;
      }
      if bounds.Some? {
        native := native.(bounds := bounds);
      }
      native := native.(visible := visible);
      if url.Some? {
        native := native.(loaded := url.value);
      }
      native := native.(hostFocus := focused);
      if focused {
        native := native.(holder := Browser);
      } else {
        native := native.(holder := Gpui);
      }
    }

    method OnBeforeClose()
      modifies this`browser, this`creationPending
      ensures Now() == Step(old(Now()), Event.BeforeClose)
    {
      creationPending := false;
      browser := false;
    }
  }

  // --------------------------------------- deferred creation refines immediate

  /** The calls a client may make before creation completes. */
  predicate Retained(e: Event) {
    e.SetBounds? || e.SetVisible? || e.Navigate? || e.Focus?
  }

  predicate AllRetained(calls: seq<Event>) {
    forall c :: c in calls ==> Retained(c)
  }

  /** What a client may call at all before creation completes. */
  predicate AllCalls(calls: seq<Event>) {
    forall c :: c in calls ==> Retained(c) || c.Go?
  }

  function Actions(calls: seq<Event>): nat {
    if calls == [] then 0 else (if calls[0].Go? then 1 else 0) + Actions(calls[1..])
  }

  /** The same native side, but for `missing` history actions that `a` was never told of. */
  ghost predicate SameNative(a: Native, b: Native, missing: nat) {
    a == b.(history := a.history) && |b.history| == |a.history| + missing && (missing == 0 ==> a == b)
  }

  /** `late` is still waiting for its browser, `early` has had one all along, and
      creating it now would make no difference but for `missing` history actions. */
  ghost predicate CatchesUp(late: State, early: State, missing: nat) {
    && late.creationPending && !late.live && early.live && !early.creationPending
    && !late.closeRequested && !early.closeRequested
    && late.visible == early.visible && late.focused == early.focused && early.pendingUrl.None?
    && SameNative(OnCreated(late).native, early.native, missing)
    && (early.pendingBounds.Some? ==> early.pendingBounds == early.native.bounds)
  }

  lemma CallKeepsCatchingUp(late: State, early: State, missing: nat, call: Event)
    requires CatchesUp(late, early, missing) && (Retained(call) || call.Go?)
    ensures CatchesUp(Step(late, call), Step(early, call), missing + if call.Go? then 1 else 0)
  {
    if call.Focus? || call.Go? {
      assert Step(early, call).pendingBounds == early.pendingBounds;
    } else {
      LayoutKeepsCatchingUp(late, early, missing, call);
    }
  }

  lemma LayoutKeepsCatchingUp(late: State, early: State, missing: nat, call: Event)
    requires CatchesUp(late, early, missing) && (call.SetBounds? || call.SetVisible? || call.Navigate?)
    ensures CatchesUp(Step(late, call), Step(early, call), missing)
  {
  }

  /** Two owners past creation that differ at most in the bounds they remember and in
      `missing` history actions. */
  ghost predicate Alike(a: State, b: State, missing: nat) {
    && !a.creationPending && SameNative(a.native, b.native, missing)
    && a == b.(pendingBounds := a.pendingBounds, native := a.native)
    && (a.live && a.pendingBounds.Some? ==> a.pendingBounds == a.native.bounds)
    && (b.live && b.pendingBounds.Some? ==> b.pendingBounds == b.native.bounds)
  }

  lemma StepAlike(a: State, b: State, missing: nat, e: Event)
    requires Alike(a, b, missing)
    ensures Alike(Step(a, e), Step(b, e), missing)
  {
  }

  lemma {:induction false} AlikeRuns(a: State, b: State, missing: nat, events: seq<Event>)
    requires Alike(a, b, missing)
    ensures SameNative(Run(a, events).native, Run(b, events).native, missing)
    decreases |events|
  {
    hide Step;
    if events != [] {
      StepAlike(a, b, missing, events[0]);
      AlikeRuns(Step(a, events[0]), Step(b, events[0]), missing, events[1..]);
    }
  }

  lemma CreatedAlike(late: State, early: State, missing: nat)
    requires CatchesUp(late, early, missing)
    ensures Alike(OnCreated(late), early, missing)
  {
  }

  lemma {:induction false} DeferredRuns(late: State, early: State, missing: nat, before: seq<Event>, after: seq<Event>)
    requires CatchesUp(late, early, missing) && AllCalls(before)
    ensures SameNative(Run(late, before + [Created] + after).native, Run(early, before + after).native,
                       missing + Actions(before))
    decreases |before|
  {
    hide SameNative;
    if before == [] {
      assert before + [Created] + after == [Created] + after && before + after == after;
      assert ([Created] + after)[1..] == after;
      CreatedAlike(late, early, missing);
      AlikeRuns(OnCreated(late), early, missing, after);
    } else {
      hide Step, OnCreated;
      var call := before[0];
      assert Retained(call) || call.Go?;
      assert AllCalls(before[1..]);
      assert (before + [Created] + after)[1..] == before[1..] + [Created] + after;
      assert (before + after)[1..] == before[1..] + after;
      CallKeepsCatchingUp(late, early, missing, call);
      DeferredRuns(Step(late, call), Step(early, call), missing + if call.Go? then 1 else 0, before[1..], after);
    }
  }

  lemma {:induction false} NoActionsIff(calls: seq<Event>)
    requires AllCalls(calls)
    ensures Actions(calls) == 0 <==> AllRetained(calls)
  {
    if calls != [] {
      assert calls[0] in calls && forall c :: c in calls[1..] ==> c in calls;
      assert forall c :: c in calls ==> c == calls[0] || c in calls[1..];
      NoActionsIff(calls[1..]);
    }
  }

  /**
   History actions are the one exception to deferral. For any calls before creation
   and anything at all afterwards, the platform ends up as if the browser had existed
   from the start if and only if no history action came before creation.
   */
  lemma HistoryRetainedIff(url: Url, before: seq<Event>, after: seq<Event>)
    requires AllCalls(before)
    ensures Run(Start(url), before + [Created] + after).native == Run(Start(url), [Created] + (before + after)).native
       <==> AllRetained(before)
  {
    assert ([Created] + (before + after))[1..] == before + after;
    DeferredRuns(Start(url), OnCreated(Start(url)), 0, before, after);
    NoActionsIff(before);
  }

  /** Whatever is called before creation completes, whenever it does and whatever
      happens afterwards, the platform ends up as if the browser had existed from the
      start. */
  lemma DeferredCreationRefinesImmediate(url: Url, before: seq<Event>, after: seq<Event>)
    requires AllRetained(before)
    ensures Run(Start(url), before + [Created] + after).native == Run(Start(url), [Created] + (before + after)).native
  {
    hide Run;
    HistoryRetainedIff(url, before, after);
  }

  // -------------------------------------------------------- close is never lost

  ghost predicate CloseInv(s: State) {
    && (s.closeRequested && s.live ==> s.native.closes >= 1)
    && (s.native.closes >= 1 ==> s.closeRequested)
    && !(s.live && s.creationPending)
  }

  lemma {:induction false} CloseNeverLost(s: State, events: seq<Event>)
    requires CloseInv(s)
    ensures CloseInv(Run(s, events))
    decreases |events|
  {
    if events != [] {
      CloseNeverLost(Step(s, events[0]), events[1..]);
    }
  }

  /** Once a close is requested it stays requested, and nothing the browser shows
      changes any more: only further closes are issued. */
  lemma {:induction false} NothingAfterClose(s: State, events: seq<Event>)
    requires s.closeRequested
    ensures var t := Run(s, events);
      t.closeRequested && t.native.closes >= s.native.closes && t.native == s.native.(closes := t.native.closes)
    decreases |events|
  {
    if events != [] {
      NothingAfterClose(Step(s, events[0]), events[1..]);
    }
  }

  predicate NoShutdown(events: seq<Event>) {
    forall e :: e in events ==> !e.ShutdownClose?
  }

  ghost predicate ClosedOnce(s: State) {
    s.native.closes <= (if s.closeRequested then 1 else 0)
    && (s.creationPending ==> s.native.closes == 0)
    && !(s.live && s.creationPending)
  }

  /** Without a shutdown, the owner forces at most one close, however often it is
      closed or dropped. */
  lemma {:induction false} CloseIsIdempotent(s: State, events: seq<Event>)
    requires ClosedOnce(s) && NoShutdown(events)
    ensures ClosedOnce(Run(s, events))
    decreases |events|
  {
    if events != [] {
      assert events[0] in events;
      assert NoShutdown(events[1..]);
      CloseIsIdempotent(Step(s, events[0]), events[1..]);
    }
  }

  // ------------------------------------------------------------------ shutdown

  predicate StillPending(panes: seq<State>) {
    exists i :: 0 <= i < |panes| && (panes[i].creationPending || panes[i].live)
  }

  /** What one turn of the message pump delivers: a callback to one pane. */
  datatype Pumped = Pumped(pane: nat, event: Event)

  function Deliver(panes: seq<State>, p: Pumped): seq<State> {
    if p.pane < |panes| && (p.event.Created? || p.event.BeforeClose?)
    then panes[p.pane := Step(panes[p.pane], p.event)]
    else panes
  }

  /** `shutdown_runtime`: asks every pane to close, then pumps until none is
      pending or the deadline passes. `callbacks` is what the pump delivers before
      the deadline. CEF itself is shut down exactly when the drain succeeded. */
  method ShutdownRuntime(panes: seq<State>, callbacks: seq<Pumped>) returns (after: seq<State>, drained: bool)
    requires forall i :: 0 <= i < |panes| ==> CloseInv(panes[i])
    ensures |after| == |panes|
    ensures drained <==> !StillPending(after)
    ensures forall i :: 0 <= i < |panes| ==> CloseInv(after[i]) && after[i].closeRequested
    ensures forall i :: 0 <= i < |panes| && after[i].live ==> after[i].native.closes >= 1
  {
    after := panes;
    for i := 0 to |panes|
      invariant |after| == |panes|
      invariant forall k :: 0 <= k < |panes| ==> CloseInv(after[k]) && (k < i ==> after[k].closeRequested)
    {
      after := after[i := Step(after[i], ShutdownClose)];
    }
    var turn := 0;
    while true
      invariant 0 <= turn <= |callbacks| && |after| == |panes|
      invariant forall k :: 0 <= k < |panes| ==> CloseInv(after[k]) && after[k].closeRequested
      decreases |callbacks| - turn
    {
      if !StillPending(after) {
        return after, true;
      }
      if turn == |callbacks| {
        return after, false;
      }
      after := Deliver(after, callbacks[turn]);
      turn := turn + 1;
    }
  }
}
