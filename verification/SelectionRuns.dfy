/**
 What the service sees of every gesture in every run, and who scrolls
 (panes.rs:761-802, 825-840, 906-987, 1051-1091; input.rs:695-698).
 */
module SelectionRuns {
  import opened Common
  import opened Selection

  const START := State(None, None, 0, [], [], 0)

  function Run(events: seq<Event>): State {
    if events == [] then START else Next(Run(events[..|events| - 1]), events[|events| - 1])
  }

  // ------------------------------------------------------------ one gesture's requests

  predicate Tagged(r: Request, gesture: nat) {
    (r.Begin? || r.Update? || r.ClearSelection? || r.Click?) && r.gesture == gesture
  }

  /** The requests of one gesture, in order. */
  function Of(requests: seq<Request>, gesture: nat): seq<Request> {
    if requests == [] then []
    else
      var last := requests[|requests| - 1];
      Of(requests[..|requests| - 1], gesture) + if Tagged(last, gesture) then [last] else []
  }

  /** A selection in progress: begun, then only extended, all on one pane. */
  predicate Selecting(s: seq<Request>, pane: Uuid) {
    |s| > 0 && s[0].Begin? && s[0].pane == pane && forall i :: 1 <= i < |s| ==> s[i].Update? && s[i].pane == pane
  }

  /** Nothing, one click, or one selection that may be cleared at its end; never a mixture. */
  predicate Proper(s: seq<Request>) {
    s == []
    || (|s| == 2 && s[0].Click? && s[1].Click? && s[0].action == Press && s[1].action == Release
        && s[0].pane == s[1].pane && s[0].button == s[1].button)
    || (s[0].Begin? && Selecting(s, s[0].pane))
    || (s[0].Begin? && s[|s| - 1].ClearSelection? && s[|s| - 1].pane == s[0].pane && Selecting(s[..|s| - 1], s[0].pane))
  }

  lemma {:induction false} OfSplits(a: seq<Request>, b: seq<Request>, gesture: nat)
    ensures Of(a + b, gesture) == Of(a, gesture) + Of(b, gesture)
  {
    if b == [] {
      assert a + b == a;
    } else {
      var front, last := b[..|b| - 1], b[|b| - 1];
      OfSplits(a, front, gesture);
      assert (a + b)[..|a + b| - 1] == a + front;
      Associative(Of(a, gesture), Of(front, gesture), if Tagged(last, gesture) then [last] else []);
    }
  }

  lemma OfOne(r: Request, gesture: nat)
    ensures Of([r], gesture) == if Tagged(r, gesture) then [r] else []
  {
    assert [r][..0] == [];
  }

  lemma OfTwo(q: Request, r: Request, gesture: nat)
    ensures Of([q, r], gesture) == (if Tagged(q, gesture) then [q] else []) + (if Tagged(r, gesture) then [r] else [])
  {
    assert [q, r][..1] == [q];
    OfOne(q, gesture);
  }

  // ------------------------------------------------------------ the invariant

  ghost predicate Sound(s: State) {
    && (forall g: nat :: Proper(Of(s.sent, g)))
    && (forall g: nat :: g > s.gestures ==> Of(s.sent, g) == [])
    && (s.drag.Some? ==>
          var d := s.drag.value;
          d.gesture == s.gestures
          && (if d.deferred then Of(s.sent, d.gesture) == [] else Selecting(Of(s.sent, d.gesture), d.pane)))
  }

  /** Autoscroll belongs to a started selection on its pane and to the newest timer loop. */
  predicate Owned(s: State) {
    && (forall i, j :: 0 <= i < j < |s.tickers| ==> s.tickers[i] < s.tickers[j])
    && (forall i :: 0 <= i < |s.tickers| ==> s.tickers[i] <= s.generation)
    && (s.autoscroll.Some? ==>
          Dragging(s, s.autoscroll.value.pane) && !s.drag.value.deferred
          && s.tickers != [] && s.tickers[|s.tickers| - 1] == s.generation)
  }

  lemma NextOwned(s: State, e: Event)
    requires Owned(s)
    ensures Owned(Next(s, e))
  {
    match e
    case Tick(ticker, hasScreen) => TickedOwned(s, e);
    case PressAt(_, _, _, _, _, _, _, _) => PressedOwned(s, e);
    case DragTo(_, _, _) => DraggedOwned(s, e);
    case ReleaseOutside(_, _, _, _, _) => OutsideOwned(s, e);
    case _ => hide Pressed, Dragged, Ticked, OutsideReleased;
  }

  lemma TickedOwned(s: State, e: Event)
    requires Owned(s) && e.Tick?
    ensures Owned(Ticked(s, e))
  {
  }

  lemma PressedOwned(s: State, e: Event)
    requires Owned(s) && e.PressAt?
    ensures Owned(Pressed(s, e))
  {
    hide ActionFor;
  }

  lemma DraggedOwned(s: State, e: Event)
    requires Owned(s) && e.DragTo?
    ensures Owned(Dragged(s, e))
  {
    hide Inside;
  }

  lemma OutsideOwned(s: State, e: Event)
    requires Owned(s) && e.ReleaseOutside?
    ensures Owned(OutsideReleased(s, e))
  {
  }

  /** Requests that leave every gesture as it was, but for `gesture`, which they take from `was` to `now`. */
  lemma SentSound(s: State, t: State, more: seq<Request>, g: nat)
    requires Sound(s) && t.sent == s.sent + more && t.gestures >= s.gestures && g <= t.gestures
    requires forall h: nat :: h != g ==> Of(more, h) == []
    requires Proper(Of(s.sent, g) + Of(more, g))
    requires t.drag.Some? ==>
               var d := t.drag.value;
               d.gesture == t.gestures == g
               && (if d.deferred then Of(s.sent, g) + Of(more, g) == [] else Selecting(Of(s.sent, g) + Of(more, g), d.pane))
    ensures Sound(t)
  {
    hide Proper, Selecting;
    forall h: nat
      ensures Of(t.sent, h) == Of(s.sent, h) + Of(more, h)
    {
      OfSplits(s.sent, more, h);
    }
    forall h: nat
      ensures Proper(Of(t.sent, h)) && (h > t.gestures ==> Of(t.sent, h) == [])
    {
      if h != g {
        assert Of(t.sent, h) == Of(s.sent, h);
      }
    }
  }

  /** A step that sends nothing about gestures and leaves the drag alone or ends it. */
  lemma QuietSound(s: State, t: State, more: seq<Request>)
    requires Sound(s) && t.sent == s.sent + more && t.gestures == s.gestures
    requires forall g: nat :: Of(more, g) == []
    requires t.drag.None? || (s.drag.Some? && t.drag.value.gesture == s.drag.value.gesture
                              && t.drag.value.deferred == s.drag.value.deferred && t.drag.value.pane == s.drag.value.pane)
    ensures Sound(t)
  {
    hide Proper, Selecting, Of;
    var g := s.gestures;
    assert Of(s.sent, g) + Of(more, g) == Of(s.sent, g);
    SentSound(s, t, more, g);
  }

  lemma PlainRequest(r: Request)
    requires r.Mouse? || r.ScrollPane?
    ensures forall g: nat :: Of([r], g) == []
  {
    forall g: nat
      ensures Of([r], g) == []
    {
      OfOne(r, g);
    }
  }

  lemma ExtendSelecting(s: seq<Request>, pane: Uuid, r: Request)
    requires Selecting(s, pane)
    ensures r.Update? && r.pane == pane ==> Selecting(s + [r], pane) && Proper(s + [r])
    ensures r.ClearSelection? && r.pane == pane ==> Proper(s + [r])
  {
    assert (s + [r])[..|s|] == s;
  }

  lemma BeginsSelecting(r: Request)
    requires r.Begin?
    ensures Selecting([r], r.pane) && Proper([r])
  {
  }

  lemma OneTagged(r: Request, g: nat)
    requires Tagged(r, g)
    ensures Of([r], g) == [r] && forall h: nat :: h != g ==> Of([r], h) == []
  {
    forall h: nat
      ensures Of([r], h) == if h == g then [r] else []
    {
      OfOne(r, h);
    }
  }

  lemma TwoTagged(q: Request, r: Request, g: nat)
    requires Tagged(q, g) && Tagged(r, g)
    ensures Of([q, r], g) == [q, r] && forall h: nat :: h != g ==> Of([q, r], h) == []
  {
    forall h: nat
      ensures Of([q, r], h) == if h == g then [q, r] else []
    {
      OfTwo(q, r, h);
    }
  }

  lemma PressedSound(s: State, e: Event)
    requires Sound(s) && e.PressAt?
    ensures Sound(Pressed(s, e))
  {
    hide Proper, Selecting, Of;
    var t := Pressed(s, e);
    NothingSent(s.sent);
    if t.gestures == s.gestures {
      if t.sent == s.sent {
        QuietSound(s, t, []);
      } else {
        PlainRequest(Mouse(e.pane, e.point, e.button, Press));
        QuietSound(s, t, [Mouse(e.pane, e.point, e.button, Press)]);
      }
    } else {
      var d := t.drag.value;
      assert Of(s.sent, d.gesture) == [];
      if d.deferred {
        EmptyProper();
        assert Of(s.sent, d.gesture) + Of([], d.gesture) == [];
        SentSound(s, t, [], d.gesture);
      } else {
        OneTagged(BeginOf(d), d.gesture);
        BeginsSelecting(BeginOf(d));
        assert [] + [BeginOf(d)] == [BeginOf(d)];
        SentSound(s, t, [BeginOf(d)], d.gesture);
      }
    }
  }

  lemma EmptyProper()
    ensures Proper([])
  {
  }

  lemma NothingSent(s: seq<Request>)
    ensures s + [] == s && forall g: nat :: Of([], g) == []
  {
  }

  /** The drag's own gesture gets `more`, which begins it if need be and extends it. */
  lemma ExtendedSound(s: State, t: State, update: Request)
    requires Sound(s) && s.drag.Some? && t.gestures == s.gestures
    requires update.Update? && update.gesture == s.drag.value.gesture && update.pane == s.drag.value.pane
    requires var d := s.drag.value; t.sent == s.sent + if d.deferred then [BeginOf(d), update] else [update]
    requires t.drag.Some? ==>
               t.drag.value.gesture == s.drag.value.gesture && t.drag.value.pane == s.drag.value.pane && !t.drag.value.deferred
    ensures Sound(t)
  {
    hide Proper, Selecting, Of;
    var d := s.drag.value;
    var own := Of(s.sent, d.gesture);
    if d.deferred {
      TwoTagged(BeginOf(d), update, d.gesture);
      BeginsSelecting(BeginOf(d));
      ExtendSelecting([BeginOf(d)], d.pane, update);
      assert own + [BeginOf(d), update] == [BeginOf(d)] + [update];
      SentSound(s, t, [BeginOf(d), update], d.gesture);
    } else {
      OneTagged(update, d.gesture);
      ExtendSelecting(own, d.pane, update);
      SentSound(s, t, [update], d.gesture);
    }
  }

  /** The drag's own gesture is begun, and nothing else happens. */
  lemma BegunSound(s: State, t: State)
    requires Sound(s) && s.drag.Some? && t.gestures == s.gestures && t.drag.Some?
    requires var d := s.drag.value; t.sent == s.sent + if d.deferred then [BeginOf(d)] else []
    requires t.drag.value.gesture == s.drag.value.gesture && t.drag.value.pane == s.drag.value.pane && !t.drag.value.deferred
    ensures Sound(t)
  {
    hide Proper, Selecting, Of;
    var d := s.drag.value;
    if d.deferred {
      OneTagged(BeginOf(d), d.gesture);
      BeginsSelecting(BeginOf(d));
      assert [] + [BeginOf(d)] == [BeginOf(d)];
      SentSound(s, t, [BeginOf(d)], d.gesture);
    } else {
      NothingSent(s.sent);
      QuietSound(s, t, []);
    }
  }

  lemma MovedSound(s: State, e: Event)
    requires Sound(s) && e.MoveOver?
    ensures Sound(Moved(s, e))
  {
    hide Proper, Selecting, Of, Sound;
    var t := Moved(s, e);
    NothingSent(s.sent);
    if e.dragging && Dragging(s, e.pane) {
      var d := s.drag.value;
      if d.deferred && e.point == d.anchor {
        QuietSound(s, t, []);
      } else {
        ExtendedSound(s, t, Update(d.gesture, d.pane, e.point));
      }
    } else if t.sent == s.sent {
      QuietSound(s, t, []);
    } else {
      PlainRequest(Mouse(e.pane, e.point, e.pressed.value, Move));
      QuietSound(s, t, [Mouse(e.pane, e.point, e.pressed.value, Move)]);
    }
  }

  lemma DraggedSound(s: State, e: Event)
    requires Sound(s) && e.DragTo?
    ensures Sound(Dragged(s, e))
  {
    hide Proper, Selecting, Of, Sound;
    var t := Dragged(s, e);
    NothingSent(s.sent);
    if s.drag.None? || !e.dragging || e.reading.None? || Inside(e.reading.value, e.shift) {
      QuietSound(s, t, []);
    } else if e.reading.value.overflow == 0 {
      ExtendedSound(s, t, Update(s.drag.value.gesture, s.drag.value.pane, e.reading.value.point));
    } else {
      BegunSound(s, t);
    }
  }

  lemma TickedSound(s: State, e: Event)
    requires Sound(s) && Owned(s) && e.Tick?
    ensures Sound(Ticked(s, e))
  {
    hide Proper, Selecting, Of, Sound;
    var t := Ticked(s, e);
    NothingSent(s.sent);
    if e.ticker < |s.tickers| && KeepsTicking(s, s.tickers[e.ticker], e.hasScreen) {
      var scroll, d := s.autoscroll.value, s.drag.value;
      var mid := Sent(s, [ScrollPane(scroll.pane, scroll.lines)]);
      PlainRequest(ScrollPane(scroll.pane, scroll.lines));
      QuietSound(s, mid, [ScrollPane(scroll.pane, scroll.lines)]);
      var update := Update(d.gesture, scroll.pane, scroll.edge);
      assert t.sent == mid.sent + [update];
      ExtendedSound(mid, t, update);
    } else {
      QuietSound(s, t, []);
    }
  }

  lemma ReleasedSound(s: State, pane: Uuid, point: Point, button: Button, shift: bool, reporting: bool, menuOpen: bool)
    requires Sound(s)
    ensures Sound(Released(s, pane, point, button, shift, reporting, menuOpen))
  {
    hide Proper, Selecting, Of;
    var t := Released(s, pane, point, button, shift, reporting, menuOpen);
    NothingSent(s.sent);
    if t.sent == s.sent {
      QuietSound(s, t, []);
    } else if Dragging(s, pane) {
      var d := s.drag.value;
      var own := Of(s.sent, d.gesture);
      if d.deferred {
        var q, r := Click(d.gesture, pane, d.anchor, button, Press), Click(d.gesture, pane, point, button, Release);
        TwoTagged(q, r, d.gesture);
        ClickProper(q, r);
        assert own + [q, r] == [q, r];
        SentSound(s, t, [q, r], d.gesture);
      } else if point == d.anchor && !d.preserve {
        OneTagged(ClearSelection(d.gesture, pane), d.gesture);
        ExtendSelecting(own, pane, ClearSelection(d.gesture, pane));
        SentSound(s, t, [ClearSelection(d.gesture, pane)], d.gesture);
      } else {
        ExtendedSound(s, t, Update(d.gesture, pane, point));
      }
    } else {
      PlainRequest(Mouse(pane, point, button, Release));
      QuietSound(s, t, [Mouse(pane, point, button, Release)]);
    }
  }

  lemma ClickProper(q: Request, r: Request)
    requires q.Click? && r.Click? && q.action == Press && r.action == Release && q.pane == r.pane && q.button == r.button
    ensures Proper([q, r])
  {
  }

  lemma NextSound(s: State, e: Event)
    requires Sound(s) && Owned(s)
    ensures Sound(Next(s, e))
  {
    hide Sound, Owned, Released;
    match e
    case PressAt(_, _, _, _, _, _, _, _) => PressedSound(s, e);
    case MoveOver(_, _, _, _, _, _) => MovedSound(s, e);
    case DragTo(_, _, _) => DraggedSound(s, e);
    case Tick(_, _) => TickedSound(s, e);
    case ReleaseAt(pane, point, button, shift, reporting, menuOpen) =>
      ReleasedSound(s, pane, point, button, shift, reporting, menuOpen);
    case ReleaseOutside(_, _, button, shift, menuOpen) =>
      NothingSent(s.sent);
      if s.drag.Some? && e.hasGrid && e.reading.Some? {
        ReleasedSound(s, s.drag.value.pane, e.reading.value.point, button, shift, e.reading.value.reporting, menuOpen);
      } else if s.drag.Some? && !e.hasGrid {
        QuietSound(s, Ended(s), []);
      }
    case Escape =>
      NothingSent(s.sent);
      if s.drag.Some? {
        QuietSound(s, Ended(s), []);
      }
  }

  lemma {:induction false} RunSound(events: seq<Event>)
    ensures Sound(Run(events)) && Owned(Run(events))
  {
    hide Next, Sound, Owned;
    if events == [] {
      StartSound();
    } else {
      RunSound(events[..|events| - 1]);
      NextSound(Run(events[..|events| - 1]), events[|events| - 1]);
      NextOwned(Run(events[..|events| - 1]), events[|events| - 1]);
    }
  }

  lemma StartSound()
    ensures Sound(START) && Owned(START)
  {
  }

  // ------------------------------------------------------------ what it comes to

  /**
   In every run every gesture reaches the service as nothing, as one press and release
   of the same button, or as one selection: begun once, first, then only extended, and
   cleared at most once, last. Never as a mixture.
   */
  lemma EveryGestureIsProper(events: seq<Event>, gesture: nat)
    ensures Proper(Of(Run(events).sent, gesture))
  {
    hide Run, Proper;
    RunSound(events);
  }

  /** In particular no selection is extended that was not begun. */
  lemma UpdateOnlyAfterBegin(events: seq<Event>, k: nat)
    requires k < |Run(events).sent| && Run(events).sent[k].Update?
    ensures var r := Run(events).sent[k];
            exists j :: 0 <= j < k && Run(events).sent[j].Begin? && Run(events).sent[j].gesture == r.gesture
                        && Run(events).sent[j].pane == r.pane
  {
    hide Run, Proper, Selecting;
    var sent := Run(events).sent;
    var r := sent[k];
    var before, all := Of(sent[..k], r.gesture), Of(sent, r.gesture);
    EveryGestureIsProper(events, r.gesture);
    CutAt(sent, k, r.gesture);
    UpdateInProper(all, |before|);
    InOrder(sent[..k], r.gesture, 0);
  }

  lemma CutAt(requests: seq<Request>, k: nat, gesture: nat)
    requires k < |requests| && Tagged(requests[k], gesture)
    ensures var before := Of(requests[..k], gesture);
            |before| < |Of(requests, gesture)| && Of(requests, gesture)[|before|] == requests[k]
            && forall i :: 0 <= i < |before| ==> Of(requests, gesture)[i] == before[i]
  {
    assert requests == requests[..k] + ([requests[k]] + requests[k + 1..]);
    OfSplits(requests[..k], [requests[k]] + requests[k + 1..], gesture);
    OfSplits([requests[k]], requests[k + 1..], gesture);
    OfOne(requests[k], gesture);
  }

  lemma UpdateInProper(s: seq<Request>, i: nat)
    requires Proper(s) && i < |s| && s[i].Update?
    ensures i > 0 && s[0].Begin? && s[0].pane == s[i].pane
  {
    if s[|s| - 1].ClearSelection? {
      assert i < |s| - 1;
      assert s[..|s| - 1][i] == s[i];
    }
  }

  lemma {:induction false} InOrder(requests: seq<Request>, gesture: nat, i: nat)
    requires i < |Of(requests, gesture)|
    ensures exists j :: 0 <= j < |requests| && requests[j] == Of(requests, gesture)[i] && Tagged(requests[j], gesture)
  {
    var front, last := requests[..|requests| - 1], requests[|requests| - 1];
    if i < |Of(front, gesture)| {
      InOrder(front, gesture, i);
      var j :| 0 <= j < |front| && front[j] == Of(front, gesture)[i] && Tagged(front[j], gesture);
      assert requests[j] == Of(requests, gesture)[i];
    } else {
      assert requests[|requests| - 1] == Of(requests, gesture)[i];
    }
  }

  /**
   While autoscroll is set, a started selection is dragged on its pane, and exactly one
   timer loop that has not ended carries the current generation.
   */
  lemma AutoscrollIsOwned(events: seq<Event>)
    requires Run(events).autoscroll.Some?
    ensures var s := Run(events);
            && s.drag.Some? && s.drag.value.pane == s.autoscroll.value.pane && !s.drag.value.deferred
            && exists k :: 0 <= k < |s.tickers| && s.tickers[k] == s.generation
                           && forall j :: 0 <= j < |s.tickers| && j != k ==> s.tickers[j] != s.generation
  {
    hide Run;
    RunSound(events);
    var s := Run(events);
    var k := |s.tickers| - 1;
    assert s.tickers[k] == s.generation && forall j :: 0 <= j < |s.tickers| && j != k ==> s.tickers[j] != s.generation;
  }

  /** Only that loop ever scrolls; any other ends at its next tick without a request. */
  lemma OnlyOneLoopScrolls(events: seq<Event>, ticker: nat, hasScreen: bool)
    requires ticker < |Run(events).tickers|
    ensures var s := Run(events); var t := Next(s, Tick(ticker, hasScreen));
            && (t.sent != s.sent ==> ticker == |s.tickers| - 1 && s.tickers[ticker] == s.generation)
            && (s.tickers[ticker] != s.generation ==> t == s.(tickers := s.tickers[..ticker] + s.tickers[ticker + 1..]))
  {
    hide Run;
    RunSound(events);
  }

  /** How a deferred press ends when its button is released: as its click, exactly if the button has a name. */
  lemma DeferredEndsAsClickIff(events: seq<Event>, point: Point, button: Button, shift: bool, reporting: bool, menuOpen: bool)
    requires Run(events).drag.Some? && Run(events).drag.value.deferred && !(button == Right && menuOpen)
    ensures var s := Run(events); var d := s.drag.value;
            var t := Next(s, ReleaseAt(d.pane, point, button, shift, reporting, menuOpen));
            && t.drag.None?
            && Of(t.sent, d.gesture) == (if button == Navigate then []
               else [Click(d.gesture, d.pane, d.anchor, button, Press), Click(d.gesture, d.pane, point, button, Release)])
  {
    hide Run, Proper, Selecting, Of, Released;
    RunSound(events);
    DeferredRelease(Run(events), point, button, shift, reporting, menuOpen);
  }

  lemma DeferredRelease(s: State, point: Point, button: Button, shift: bool, reporting: bool, menuOpen: bool)
    requires s.drag.Some? && s.drag.value.deferred && Of(s.sent, s.drag.value.gesture) == []
    requires !(button == Right && menuOpen)
    ensures var d := s.drag.value;
            var t := Released(s, d.pane, point, button, shift, reporting, menuOpen);
            && t.drag.None?
            && Of(t.sent, d.gesture) == (if button == Navigate then []
               else [Click(d.gesture, d.pane, d.anchor, button, Press), Click(d.gesture, d.pane, point, button, Release)])
  {
    hide Of;
    var d := s.drag.value;
    NothingSent(s.sent);
    var q, r := Click(d.gesture, d.pane, d.anchor, button, Press), Click(d.gesture, d.pane, point, button, Release);
    OfSplits(s.sent, [q, r], d.gesture);
    TwoTagged(q, r, d.gesture);
  }
}
