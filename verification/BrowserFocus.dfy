/**
 The focus and visibility pass over all browser views (browser.rs). The views
 live in a hash map, so the pass must come out the same in every iteration order.
 */
module BrowserFocus {
  import opened Common

  datatype View = View(focused: bool, visible: bool)

  /** A native focus call, in the order it is made. */
  datatype Call = Call(pane: Uuid, focus: bool)

  /** Who holds the keyboard: blurring any view hands it to the application. */
  datatype Holder = Application | Browser(pane: Uuid)

  function After(h: Holder, calls: seq<Call>): Holder {
    if calls == [] then h
    else
      var last := calls[|calls| - 1];
      if last.focus then Browser(last.pane) else Application
  }

  datatype Pass = Pass(
    shown: set<Uuid>, contentVisible: bool, windowActive: bool, editingUrl: bool, focusedPane: Option<Uuid>)

  predicate ShouldFocus(p: Pass) {
    p.contentVisible && p.windowActive && !p.editingUrl
  }

  predicate Wanted(p: Pass, pane: Uuid) {
    ShouldFocus(p) && pane in p.shown && p.focusedPane == Some(pane)
  }

  predicate Blurs(p: Pass, reassert: bool, pane: Uuid, before: View) {
    !Wanted(p, pane) && (before.focused || reassert)
  }

  /** The calls are some blurs followed by at most one focus. */
  predicate BlursFirst(calls: seq<Call>) {
    forall i :: 0 <= i < |calls| - 1 ==> !calls[i].focus
  }

  /** What one pass does, in any iteration order. */
  ghost predicate PassDone(p: Pass, reassert: bool, before: map<Uuid, View>, after: map<Uuid, View>, calls: seq<Call>) {
    && after.Keys == before.Keys
    // Exactly the wanted view is focused, exactly the shown ones are visible.
    && (forall v :: v in after ==> (after[v].focused <==> Wanted(p, v)))
    && (forall v :: v in after ==> (after[v].visible <==> p.contentVisible && v in p.shown))
    // Every blur comes before the focus, and each view is called at most once.
    && BlursFirst(calls)
    && (forall i, j :: 0 <= i < j < |calls| ==> calls[i].pane != calls[j].pane)
    && (forall v :: v in before ==> (Call(v, false) in calls <==> Blurs(p, reassert, v, before[v])))
    && (forall c :: c in calls ==> c.pane in after && (c.focus ==> Wanted(p, c.pane)))
    // A blur, a reassertion or a change of focus is followed by a focus.
    && (forall v :: v in after && Wanted(p, v) && (calls != [] || reassert || !before[v].focused) ==> Call(v, true) in calls)
  }

  /** The first loop with the views in `todo` still to come. */
  ghost predicate Presented(
    p: Pass, reassert: bool, before: map<Uuid, View>, now: map<Uuid, View>, calls: seq<Call>, todo: set<Uuid>)
  {
    && todo <= now.Keys == before.Keys
    && (forall v :: v in todo ==> now[v] == before[v])
    && (forall v :: v in now && v !in todo ==>
          now[v] == View(before[v].focused && Wanted(p, v), p.contentVisible && v in p.shown))
    && (forall c :: c in calls ==> !c.focus && c.pane in now && c.pane !in todo)
    && (forall i, j :: 0 <= i < j < |calls| ==> calls[i].pane != calls[j].pane)
    && (forall v :: v in now ==> (Call(v, false) in calls <==> v !in todo && Blurs(p, reassert, v, before[v])))
  }

  lemma NothingPresented(p: Pass, reassert: bool, before: map<Uuid, View>)
    ensures Presented(p, reassert, before, before, [], before.Keys)
  {
  }

  lemma TodoLeft(
    p: Pass, reassert: bool, before: map<Uuid, View>, now: map<Uuid, View>, calls: seq<Call>, todo: set<Uuid>, pane: Uuid)
    requires Presented(p, reassert, before, now, calls, todo) && pane in todo
    ensures pane in now && pane in before && now[pane] == before[pane]
  {
  }

  lemma PresentedOne(
    p: Pass, reassert: bool, before: map<Uuid, View>, now: map<Uuid, View>, calls: seq<Call>, todo: set<Uuid>, pane: Uuid,
    blurred: bool)
    requires Presented(p, reassert, before, now, calls, todo) && pane in todo
    requires blurred <==> Blurs(p, reassert, pane, now[pane])
    ensures Presented(p, reassert, before,
                      now[pane := View(now[pane].focused && !blurred, p.contentVisible && pane in p.shown)],
                      calls + (if blurred then [Call(pane, false)] else []), todo - {pane})
  {
    hide Wanted;
    assert forall i :: 0 <= i < |calls| ==> calls[i] in calls && calls[i].pane != pane;
  }

  class BrowserViews {
    var views: map<Uuid, View>
    var reassertFocus: bool
    var calls: seq<Call>

    constructor ()
      ensures views == map[] && !reassertFocus && calls == []
    {
      views, reassertFocus, calls := map[], false, [];
    }

    /** One view in the first loop. */
    method PresentOne(pane: Uuid, p: Pass, reassert: bool) returns (blurred: bool)
      requires pane in views
      modifies this`views, this`calls
      ensures views == old(views)[pane := View(old(views)[pane].focused && !blurred, p.contentVisible && pane in p.shown)]
      ensures blurred <==> Blurs(p, reassert, pane, old(views)[pane])
      ensures calls == old(calls) + (if blurred then [Call(pane, false)] else [])
    {
      var visibleNow := p.contentVisible && pane in p.shown;
      var focusedNow := visibleNow && ShouldFocus(p) && p.focusedPane == Some(pane);
      var view := views[pane];
      blurred := !focusedNow && (view.focused || reassert);
      if blurred {
        calls := calls + [Call(pane, false)];
        view := view.(focused := false);
      }
      views := views[pane := view.(visible := visibleNow)];
    }

    /** The first loop, in whatever order the map is traversed. */
    method PresentAll(p: Pass, reassert: bool)
      requires calls == []
      modifies this`views, this`calls
      ensures views.Keys == old(views).Keys
      ensures forall v :: v in views ==>
        views[v] == View(old(views)[v].focused && Wanted(p, v), p.contentVisible && v in p.shown)
      ensures forall c :: c in calls ==> !c.focus && c.pane in views
      ensures forall i, j :: 0 <= i < j < |calls| ==> calls[i].pane != calls[j].pane
      ensures forall v :: v in views ==> (Call(v, false) in calls <==> Blurs(p, reassert, v, old(views)[v]))
    {
      var todo := views.Keys;
      NothingPresented(p, reassert, views);
      while todo != {}
        invariant Presented(p, reassert, old(views), views, calls, todo)
        decreases todo
      {
        hide Presented, Wanted, Blurs;
        var pane :| pane in todo;
        ghost var before, earlier := views, calls;
        TodoLeft(p, reassert, old(views), before, earlier, todo, pane);
        var blurred := PresentOne(pane, p, reassert);
        PresentedOne(p, reassert, old(views), before, earlier, todo, pane, blurred);
        todo := todo - {pane};
      }
    }

    /** `sync_browser_view_presentation`. */
    method SyncPresentation(p: Pass)
      requires calls == []
      modifies this
      ensures !reassertFocus && PassDone(p, old(reassertFocus), old(views), views, calls)
      ensures forall v :: v in views ==>
        && (views[v].visible <==> p.contentVisible && v in p.shown)
        && (views[v].focused <==> p.contentVisible && p.windowActive && !p.editingUrl && v in p.shown && p.focusedPane == Some(v))
    {
      var reassert := reassertFocus;
      reassertFocus := false;
      PresentAll(p, reassert);
      var blurred := calls != [];
      if ShouldFocus(p) && p.focusedPane.Some? && p.focusedPane.value in p.shown && p.focusedPane.value in views {
        var pane := p.focusedPane.value;
        if !views[pane].focused || blurred || reassert {
          FocusLast(calls, Call(pane, true));
          calls := calls + [Call(pane, true)];
          views := views[pane := views[pane].(focused := true)];
        }
      }
    }
  }

  lemma FocusLast(calls: seq<Call>, last: Call)
    requires forall c :: c in calls ==> !c.focus
    requires Call(last.pane, false) !in calls
    ensures BlursFirst(calls + [last])
    ensures forall i :: 0 <= i < |calls| ==> calls[i].pane != last.pane
  {
    forall i | 0 <= i < |calls|
      ensures calls[i].pane != last.pane && !calls[i].focus
    {
      assert calls[i] in calls;
      assert calls[i] == Call(calls[i].pane, false);
    }
  }

  /** The pass agrees with the keyboard: before it, a view is focused exactly when
      it holds the keyboard. */
  ghost predicate Agrees(views: map<Uuid, View>, h: Holder) {
    forall v :: v in views ==> (views[v].focused <==> h == Browser(v))
  }

  /** What the contract of the pass says about the keyboard: it ends with the
      wanted view if there is one, with no view otherwise. */
  lemma PassSettlesFocus(
    p: Pass, reassert: bool, before: map<Uuid, View>, after: map<Uuid, View>, calls: seq<Call>, h: Holder)
    requires Agrees(before, h) && PassDone(p, reassert, before, after, calls)
    ensures Agrees(after, After(h, calls))
    ensures forall v :: v in after && Wanted(p, v) ==> After(h, calls) == Browser(v)
    ensures !(exists v :: v in after && Wanted(p, v)) && h != Application && h.pane in before ==> After(h, calls) == Application
  {
    if calls == [] {
      forall v | v in after
        ensures after[v].focused <==> h == Browser(v)
      {
        assert Call(v, false) !in calls;
      }
    } else {
      var last := calls[|calls| - 1];
      assert last in calls;
      forall v | v in after && Wanted(p, v)
        ensures last == Call(v, true)
      {
        var i :| 0 <= i < |calls| && calls[i] == Call(v, true);
      }
      assert !last.focus ==> last == Call(last.pane, false);
    }
  }
}
