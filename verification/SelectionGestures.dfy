/**
 What a whole gesture with the left button sends (panes.rs:727-1110): from the
 press over any number of moves to the release, and while it scrolls.
 */
module SelectionGestures {
  import opened Common
  import opened Selection

  function Through(s: State, events: seq<Event>): State {
    if events == [] then s else Next(Through(s, events[..|events| - 1]), events[|events| - 1])
  }

  /** The pointer is dragged over the grid of this pane. */
  ghost predicate MovesOver(moves: seq<Event>, pane: Uuid) {
    forall i :: 0 <= i < |moves| ==> moves[i].MoveOver? && moves[i].dragging && moves[i].pane == pane
  }

  ghost predicate AllAt(moves: seq<Event>, point: Point) {
    forall i :: 0 <= i < |moves| && moves[i].MoveOver? ==> moves[i].point == point
  }

  function Updates(gesture: nat, pane: Uuid, moves: seq<Event>): seq<Request> {
    if moves == [] then []
    else
      var last := moves[|moves| - 1];
      Updates(gesture, pane, moves[..|moves| - 1]) + if last.MoveOver? then [Update(gesture, pane, last.point)] else []
  }

  lemma {:induction false} SelectedMoves(s: State, moves: seq<Event>, pane: Uuid)
    requires Dragging(s, pane) && !s.drag.value.deferred && MovesOver(moves, pane)
    ensures Through(s, moves) == s.(sent := s.sent + Updates(s.drag.value.gesture, pane, moves))
  {
    if moves == [] {
      assert s.sent + [] == s.sent;
    } else {
      var n := |moves| - 1;
      SelectedMoves(s, moves[..n], pane);
      var g := s.drag.value.gesture;
      assert [] + [Update(g, pane, moves[n].point)] == [Update(g, pane, moves[n].point)];
      Associative(s.sent, Updates(g, pane, moves[..n]), [Update(g, pane, moves[n].point)]);
    }
  }

  lemma {:induction false} StillMoves(s: State, moves: seq<Event>, pane: Uuid)
    requires Dragging(s, pane) && s.drag.value.deferred && MovesOver(moves, pane) && AllAt(moves, s.drag.value.anchor)
    ensures Through(s, moves) == s
  {
    if moves == [] {
    } else {
      StillMoves(s, moves[..|moves| - 1], pane);
      assert s.sent + ([] + []) == s.sent;
    }
  }

  lemma {:induction false} ThroughSplits(s: State, before: seq<Event>, after: seq<Event>)
    ensures Through(s, before + after) == Through(Through(s, before), after)
  {
    if after == [] {
      assert before + after == before;
    } else {
      var n := |after| - 1;
      ThroughSplits(s, before, after[..n]);
      assert (before + after)[..|before + after| - 1] == before + after[..n];
    }
  }

  lemma ThroughOne(s: State, e: Event)
    ensures Through(s, [e]) == Next(s, e)
  {
    assert [e][..0] == [];
  }

  /** Move `i` is the first to leave the anchor. */
  ghost predicate LeavesAt(moves: seq<Event>, anchor: Point, i: nat) {
    i < |moves| && moves[i].MoveOver? && moves[i].point != anchor && AllAt(moves[..i], anchor)
  }

  lemma {:induction false} FirstOff(moves: seq<Event>, anchor: Point) returns (i: nat)
    requires !AllAt(moves, anchor)
    ensures LeavesAt(moves, anchor, i)
  {
    var n := |moves| - 1;
    if AllAt(moves[..n], anchor) {
      assert forall k :: 0 <= k < n ==> moves[..n][k] == moves[k];
      return n;
    }
    i := FirstOff(moves[..n], anchor);
    assert moves[..n][..i] == moves[..i];
  }

  lemma OneUpdate(gesture: nat, pane: Uuid, first: Event, rest: seq<Event>)
    requires first.MoveOver?
    ensures Updates(gesture, pane, [first] + rest) == [Update(gesture, pane, first.point)] + Updates(gesture, pane, rest)
    decreases |rest|
  {
    if rest == [] {
      assert ([first] + rest)[..0] == [] && [first] + rest == [first];
    } else {
      var n := |rest| - 1;
      OneUpdate(gesture, pane, first, rest[..n]);
      var all := [first] + rest;
      assert all[..|all| - 1] == [first] + rest[..n];
      assert all[|all| - 1] == rest[n];
    }
  }

  /** The first move off the anchor begins the selection there; it and every later
      one extend it. */
  lemma DeferredMoves(s: State, moves: seq<Event>, pane: Uuid, i: nat)
    requires Dragging(s, pane) && s.drag.value.deferred && MovesOver(moves, pane)
    requires LeavesAt(moves, s.drag.value.anchor, i)
    ensures var d := s.drag.value;
      Through(s, moves) == s.(drag := Some(d.(deferred := false)),
                              sent := s.sent + ([BeginOf(d)] + Updates(d.gesture, pane, moves[i..])))
  {
    hide Updates;
    var d := s.drag.value;
    var off, rest := moves[i], moves[i + 1..];
    StillMoves(s, moves[..i], pane);
    ThroughSplits(s, moves[..i], moves[i..]);
    assert moves == moves[..i] + moves[i..] && moves[i..] == [off] + rest;
    ThroughSplits(s, [off], rest);
    ThroughOne(s, off);
    var t := Next(s, off);
    assert t == s.(drag := Some(d.(deferred := false)), sent := s.sent + ([BeginOf(d)] + [Update(d.gesture, pane, off.point)]));
    SelectedMoves(t, rest, pane);
    OneUpdate(d.gesture, pane, off, rest);
    var u := Updates(d.gesture, pane, rest);
    Associative(s.sent, [BeginOf(d)] + [Update(d.gesture, pane, off.point)], u);
    Associative([BeginOf(d)], [Update(d.gesture, pane, off.point)], u);
  }

  /** The kind of selection a left press asks for. */
  function KindOf(alt: bool, clicks: nat): Kind {
    if alt then Block else if clicks <= 1 then Simple else if clicks == 2 then Semantic else Lines
  }

  /** What a whole gesture sends. `taken` says that the press was kept back for a
      program that listens to the mouse. */
  function Whole(g: nat, pane: Uuid, anchor: Point, kind: Kind, taken: bool, moves: seq<Event>, off: nat, point: Point): seq<Request>
    requires off <= |moves|
  {
    if taken && off == |moves| then
      [Click(g, pane, anchor, Left, Press), Click(g, pane, point, Left, Release)]
    else
      [Begin(g, pane, anchor, kind)] + Updates(g, pane, if taken then moves[off..] else moves)
      + [if point == anchor && (taken || kind == Simple || kind == Block) then ClearSelection(g, pane)
         else Update(g, pane, point)]
  }

  /**
   A gesture with the left button, whole: pressed, moved any number of times and
   released on one pane. If the program listens to the mouse, it gets a click, unless
   the pointer left the anchor, from where on it is a selection begun at the anchor;
   otherwise the selection begins with the press. Each move extends it, and the
   release extends it or, back on the anchor, clears it; a selection by words or
   lines stays.
   */
  lemma WholeGesture(s: State, press: Event, moves: seq<Event>, release: Event, off: nat)
    requires press.PressAt? && press.button == Left
    requires MovesOver(moves, press.pane)
    requires release.ReleaseAt? && release.button == Left && release.pane == press.pane
    requires off <= |moves| && AllAt(moves[..off], press.point)
    requires off < |moves| ==> LeavesAt(moves, press.point, off)
    ensures var taken := press.reporting && !press.shift && press.clicks <= 1;
      var end := Through(s, [press] + moves + [release]);
      && end.sent == s.sent + Whole(s.gestures + 1, press.pane, press.point, KindOf(press.alt, press.clicks), taken, moves, off, release.point)
      && end.drag == None && end.autoscroll == None
  {
    hide Updates, Next, Through, LeavesAt;
    var pane, g, anchor := press.pane, s.gestures + 1, press.point;
    var taken := press.reporting && !press.shift && press.clicks <= 1;
    var kind := KindOf(press.alt, press.clicks);
    ThroughSplits(s, [press] + moves, [release]);
    ThroughSplits(s, [press], moves);
    ThroughOne(s, press);
    PressStarts(s, press);
    var t := Next(s, press);
    var u := Through(t, moves);
    ThroughOne(u, release);
    if !taken {
      SelectedMoves(t, moves, pane);
      SelectedRelease(u, release);
      Three(s.sent, [Begin(g, pane, anchor, kind)], Updates(g, pane, moves), Ending(u.drag.value, release.point));
    } else if off == |moves| {
      assert moves[..off] == moves;
      StillMoves(t, moves, pane);
      DeferredRelease(u, release);
    } else {
      DeferredMoves(t, moves, pane, off);
      SelectedRelease(u, release);
      Associative(s.sent, [Begin(g, pane, anchor, kind)] + Updates(g, pane, moves[off..]), Ending(u.drag.value, release.point));
    }
  }

  lemma PressStarts(s: State, e: Event)
    requires e.PressAt? && e.button == Left
    ensures var t, g, kind := Next(s, e), s.gestures + 1, KindOf(e.alt, e.clicks);
      var taken := e.reporting && !e.shift && e.clicks <= 1;
      && t.drag == Some(Drag(g, e.pane, e.point, kind, taken, !taken && (kind == Semantic || kind == Lines)))
      && t.sent == if taken then s.sent else s.sent + [Begin(g, e.pane, e.point, kind)]
  {
  }

  /** How a selection ends: back on its anchor it is cleared, unless it is kept. */
  function Ending(d: Drag, point: Point): seq<Request> {
    [if point == d.anchor && !d.preserve then ClearSelection(d.gesture, d.pane) else Update(d.gesture, d.pane, point)]
  }

  lemma SelectedRelease(s: State, e: Event)
    requires e.ReleaseAt? && e.button == Left && Dragging(s, e.pane) && !s.drag.value.deferred
    ensures var t := Next(s, e);
      t.sent == s.sent + Ending(s.drag.value, e.point) && t.drag == None && t.autoscroll == None
  {
  }

  lemma DeferredRelease(s: State, e: Event)
    requires e.ReleaseAt? && e.button == Left && Dragging(s, e.pane) && s.drag.value.deferred
    ensures var t, d := Next(s, e), s.drag.value;
      && t.sent == s.sent + [Click(d.gesture, d.pane, d.anchor, Left, Press), Click(d.gesture, d.pane, e.point, Left, Release)]
      && t.drag == None && t.autoscroll == None
  {
  }

  lemma Three(a: seq<Request>, b: seq<Request>, c: seq<Request>, d: seq<Request>)
    ensures ((a + b) + c) + d == a + ((b + c) + d)
  {
  }

  /** Dragged past the top edge the pane scrolls up into its history, past the bottom
      edge down, at the speed of the distance; each tick extends the selection to the
      edge the pointer is past. */
  lemma ScrollsTowardsPointer(s: State, e: Event, ticker: nat)
    requires s.drag.Some? && e.DragTo? && e.dragging && e.reading.Some?
    requires var r := e.reading.value; r.overflow != 0 && (e.shift || !r.reporting)
    requires var t := Next(s, e); ticker < |t.tickers| && t.tickers[ticker] == t.generation
    ensures var d, r, t := s.drag.value, e.reading.value, Next(s, e);
      var up := if r.overflow < 0 then r.speed else -r.speed;
      && Next(t, Tick(ticker, true)).sent
         == t.sent + [ScrollPane(d.pane, up), Update(d.gesture, d.pane, r.point)]
      && t.sent == s.sent + (if d.deferred then [Begin(d.gesture, d.pane, d.anchor, d.kind)] else [])
      && |t.tickers| == |s.tickers| + (if s.autoscroll.Some? then 0 else 1)
  {
  }

  /** Past a side edge only, the selection follows at once and nothing scrolls; back
      over the grid, or over a program that listens to the mouse, scrolling ends. */
  lemma StopsScrolling(s: State, e: Event)
    requires s.drag.Some? && e.DragTo? && e.dragging && e.reading.Some?
    requires var r := e.reading.value; r.overflow == 0 || (r.reporting && !e.shift)
    ensures var d, r, t := s.drag.value, e.reading.value, Next(s, e);
      && t.autoscroll == None && t.tickers == s.tickers
      && t.sent == s.sent
           + (if r.overflow == 0 && r.outsideX && d.deferred then [Begin(d.gesture, d.pane, d.anchor, d.kind)] else [])
           + (if r.overflow == 0 && r.outsideX then [Update(d.gesture, d.pane, r.point)] else [])
  {
    assert s.sent + [] + [] == s.sent;
  }

  /** Other buttons never touch a gesture: the press is passed on exactly if the
      program listens to the mouse, shift does not hold it back, and the terminal
      has a name for the button. */
  lemma OtherButtons(s: State, e: Event)
    requires e.PressAt? && e.button != Left
    ensures Next(s, e) == s.(sent := s.sent +
      if e.reporting && !e.shift && e.button != Navigate && !(e.button == Right && e.imageMenu)
      then [Mouse(e.pane, e.point, e.button, Press)] else [])
  {
    assert s.sent + [] == s.sent;
  }
}
