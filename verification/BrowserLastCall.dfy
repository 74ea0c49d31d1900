/**
 What a browser that is open shows (cef_common.rs): whenever its creation
 completed, the last call of each kind is the one in effect.
 */
module BrowserLastCall {
  import opened Common
  import opened BrowserOwner

  /** Nothing closes the browser in this stretch. */
  ghost predicate StaysOpen(events: seq<Event>) {
    forall i :: 0 <= i < |events| ==> !events[i].Close? && !events[i].BeforeClose? && !events[i].ShutdownClose?
  }

  /** The last call of each kind, or what there was without one. */
  datatype Wanted = Wanted(url: Url, shown: bool, bounds: Option<Bounds>, focus: bool)

  function Last(w: Wanted, events: seq<Event>): Wanted
    decreases |events|
  {
    if events == [] then w
    else
      Last(match events[0]
           case Navigate(url) => w.(url := url)
           case SetVisible(show) => w.(shown := show)
           case SetBounds(bounds) => w.(bounds := Some(bounds))
           case Focus(focus) => w.(focus := focus)
           case _ => w, events[1..])
  }

  /** The history actions from creation on, in order. */
  function Went(live: bool, events: seq<Event>): seq<History>
    decreases |events|
  {
    if events == [] then []
    else if events[0] == Created then Went(true, events[1..])
    else (if live && events[0].Go? then [events[0].action] else []) + Went(live, events[1..])
  }

  ghost predicate InEffect(n: Native, w: Wanted) {
    && n.loaded == w.url && n.visible == w.shown && n.bounds == w.bounds
    && n.hostFocus == w.focus && (n.holder == Browser <==> w.focus)
  }

  ghost predicate Follows(s: State, w: Wanted) {
    && !s.closeRequested && s.visible == w.shown && s.focused == w.focus && s.live != s.creationPending
    && (s.live ==> InEffect(s.native, w) && (s.pendingBounds.Some? ==> s.pendingBounds == w.bounds))
    && (!s.live ==> s.pendingUrl.GetOr(s.native.loaded) == w.url && s.pendingBounds == w.bounds && s.native.bounds.None?)
  }

  lemma StepFollows(s: State, w: Wanted, e: Event)
    requires Follows(s, w) && !e.Close? && !e.BeforeClose? && !e.ShutdownClose?
    ensures var t := Step(s, e);
      && (if e == Created then Follows(t, w) && t.live
          else Follows(t, Last(w, [e])) && t.live == s.live)
      && t.native.history == s.native.history + if s.live && e.Go? then [e.action] else []
  {
    assert [e][1..] == [];
    assert s.native.history + [] == s.native.history;
  }

  lemma {:induction false} RunFollows(s: State, w: Wanted, events: seq<Event>)
    requires Follows(s, w) && StaysOpen(events)
    ensures var t := Run(s, events);
      Follows(t, Last(w, events)) && (t.live <==> s.live || Created in events)
      && t.native.history == s.native.history + Went(s.live, events)
    decreases |events|
  {
    hide Step, Follows;
    if events == [] {
      assert s.native.history + [] == s.native.history;
    } else {
      var e, rest := events[0], events[1..];
      StepFollows(s, w, e);
      LastStep(w, events);
      RunFollows(Step(s, e), if e == Created then w else Last(w, [e]), rest);
      assert Created in events <==> e == Created || Created in rest;
      Associative(s.native.history, if s.live && e.Go? then [e.action] else [], Went(Step(s, e).live, rest));
    }
  }

  lemma LastStep(w: Wanted, events: seq<Event>)
    requires events != []
    ensures Last(w, events) == Last(if events[0] == Created then w else Last(w, [events[0]]), events[1..])
  {
    assert [events[0]][1..] == [];
  }

  /** As long as nothing closes it, a browser that exists shows the last address it
      was sent to, at the last bounds, shown or hidden and focused or not as last
      asked, whether these calls came before or after its creation completed, and it
      was taken through its history by the actions since. */
  lemma LastCallWins(url: Url, events: seq<Event>)
    requires StaysOpen(events)
    ensures var s, w := Run(Start(url), events), Last(Wanted(url, true, None, false), events);
      && (s.live <==> Created in events)
      && (s.live ==> s.native.loaded == w.url && s.native.visible == w.shown && s.native.bounds == w.bounds
                     && s.native.hostFocus == w.focus && (s.native.holder == Browser <==> w.focus)
                     && s.native.history == Went(false, events))
      && s.native.closes == 0
  {
    RunFollows(Start(url), Wanted(url, true, None, false), events);
    CloseNeverLost(Start(url), events);
    assert [] + Went(false, events) == Went(false, events);
  }

  /** And once it is closed it is hidden and the keyboard is with the application,
      whatever is called afterwards. */
  lemma ClosedIsHidden(s: State, events: seq<Event>)
    requires !s.closeRequested
    ensures var t := Run(Step(s, Close), events).native;
      t.holder == Gpui && (s.live ==> !t.visible && t.closes > s.native.closes)
  {
    NothingAfterClose(Step(s, Close), events);
  }
}
