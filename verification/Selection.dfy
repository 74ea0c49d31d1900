/**
 Selecting terminal text with the pointer (panes.rs:727-1110, input.rs:695-702,
 helpers/terminal_io.rs:49-125): a press that a mouse-aware program might own is
 deferred until it moves, and dragging past an edge scrolls from a timer loop.
 Gestures are numbered by the press that starts them; the number is history only.
 */
module Selection {
  import opened Common

  datatype Point = Point(row: nat, column: nat)

  datatype Button = Left | Middle | Right | Navigate

  datatype Kind = Block | Lines | Semantic | Simple

  datatype MouseAction = Press | Release | Move

  datatype Drag = Drag(gesture: nat, pane: Uuid, anchor: Point, kind: Kind, deferred: bool, preserve: bool)

  datatype Autoscroll = Autoscroll(pane: Uuid, lines: int, edge: Point)

  /** Requests to the service. `Click` is the mouse input a deferred press ends as; `Mouse` is any other. */
  datatype Request =
    | Begin(gesture: nat, pane: Uuid, point: Point, kind: Kind)
    | Update(gesture: nat, pane: Uuid, point: Point)
    | ClearSelection(gesture: nat, pane: Uuid)
    | Click(gesture: nat, pane: Uuid, point: Point, button: Button, action: MouseAction)
    | Mouse(pane: Uuid, point: Point, button: Button, action: MouseAction)
    | ScrollPane(pane: Uuid, lines: int)

  /** `tickers` are the generations of the timer loops that have not ended yet. */
  datatype State = State(drag: Option<Drag>, autoscroll: Option<Autoscroll>, generation: nat, tickers: seq<nat>,
                         sent: seq<Request>, gestures: nat)

  datatype PointerAction = ReportMouse | DeferLeftClick(kind: Kind) | Select(kind: Kind) | Ignore

  function ActionFor(reporting: bool, button: Button, shift: bool, alt: bool, clicks: nat): PointerAction {
    if button != Left then
      if reporting && !shift then ReportMouse else Ignore
    else
      var kind := if alt then Block else if clicks >= 3 then Lines else if clicks == 2 then Semantic else Simple;
      if reporting && !shift && clicks <= 1 then DeferLeftClick(kind) else Select(kind)
  }

  /** Where the pointer is against the grid of the dragged pane. */
  datatype Reading = Reading(point: Point, overflow: int, outsideX: bool, reporting: bool, speed: int)

  datatype Event =
    | PressAt(pane: Uuid, point: Point, button: Button, shift: bool, alt: bool, clicks: nat, reporting: bool, imageMenu: bool)
    | MoveOver(pane: Uuid, point: Point, dragging: bool, pressed: Option<Button>, menuOpen: bool, motion: bool)
    | DragTo(dragging: bool, shift: bool, reading: Option<Reading>)
    | Tick(ticker: nat, hasScreen: bool)
    | ReleaseAt(pane: Uuid, point: Point, button: Button, shift: bool, reporting: bool, menuOpen: bool)
    | ReleaseOutside(hasGrid: bool, reading: Option<Reading>, button: Button, shift: bool, menuOpen: bool)
    | Escape

  // ------------------------------------------------------------ specification functions

  function Sent(s: State, requests: seq<Request>): State {
    s.(sent := s.sent + requests)
  }

  function Ended(s: State): State {
    s.(drag := None, autoscroll := None, generation := s.generation + 1)
  }

  function Started(s: State, pane: Uuid, point: Point, kind: Kind, deferred: bool): State {
    var preserve := !deferred && (kind == Semantic || kind == Lines);
    Ended(s).(gestures := s.gestures + 1, drag := Some(Drag(s.gestures + 1, pane, point, kind, deferred, preserve)))
  }

  function Pressed(s: State, e: Event): State
    requires e.PressAt?
  {
    if e.button == Right && e.imageMenu then s
    else
      match ActionFor(e.reporting, e.button, e.shift, e.alt, e.clicks)
      case ReportMouse => if e.button == Navigate then s else Sent(s, [Mouse(e.pane, e.point, e.button, Press)])
      case DeferLeftClick(kind) => Started(s, e.pane, e.point, kind, true)
      case Select(kind) =>
        Sent(Started(s, e.pane, e.point, kind, false), [Begin(s.gestures + 1, e.pane, e.point, kind)])
      case Ignore => s
  }

  function BeginOf(d: Drag): Request {
    Begin(d.gesture, d.pane, d.anchor, d.kind)
  }

  predicate Dragging(s: State, pane: Uuid) {
    s.drag.Some? && s.drag.value.pane == pane
  }

  function Moved(s: State, e: Event): State
    requires e.MoveOver?
  {
    if e.dragging && Dragging(s, e.pane) then
      var d := s.drag.value;
      var begins := d.deferred && e.point != d.anchor;
      var selecting := !d.deferred || begins;
      Sent(s.(drag := Some(d.(deferred := !selecting))),
           (if begins then [BeginOf(d)] else []) + (if selecting then [Update(d.gesture, d.pane, e.point)] else []))
    else if e.pressed == Some(Right) && e.menuOpen then s
    else if e.motion && e.pressed.Some? && e.pressed.value != Navigate then
      Sent(s, [Mouse(e.pane, e.point, e.pressed.value, Move)])
    else s
  }

  predicate Inside(r: Reading, shift: bool) {
    (r.overflow == 0 && !r.outsideX) || (r.overflow != 0 && r.reporting && !shift)
  }

  function Dragged(s: State, e: Event): State
    requires e.DragTo?
  {
    if s.drag.None? || !e.dragging || e.reading.None? then s
    else
      var d, r := s.drag.value, e.reading.value;
      if Inside(r, e.shift) then s.(autoscroll := None)
      else
        var t := Sent(s.(drag := Some(d.(preserve := true, deferred := false))), if d.deferred then [BeginOf(d)] else []);
        if r.overflow == 0 then Sent(t.(autoscroll := None), [Update(d.gesture, d.pane, r.point)])
        else
          var scroll := Some(Autoscroll(d.pane, if r.overflow < 0 then r.speed else -r.speed, r.point));
          if s.autoscroll.Some? then t.(autoscroll := scroll)
          else t.(autoscroll := scroll, generation := s.generation + 1, tickers := s.tickers + [s.generation + 1])
  }

  predicate KeepsTicking(s: State, generation: nat, hasScreen: bool) {
    generation == s.generation && s.autoscroll.Some? && Dragging(s, s.autoscroll.value.pane) && hasScreen
  }

  function Scrolled(s: State, generation: nat, hasScreen: bool): State {
    if KeepsTicking(s, generation, hasScreen) then
      var scroll := s.autoscroll.value;
      Sent(s, [ScrollPane(scroll.pane, scroll.lines), Update(s.drag.value.gesture, scroll.pane, scroll.edge)])
    else if generation == s.generation then s.(autoscroll := None)
    else s
  }

  function Ticked(s: State, e: Event): State
    requires e.Tick?
  {
    if e.ticker >= |s.tickers| then s
    else
      var generation := s.tickers[e.ticker];
      var t := Scrolled(s, generation, e.hasScreen);
      if KeepsTicking(s, generation, e.hasScreen) then t
      else t.(tickers := s.tickers[..e.ticker] + s.tickers[e.ticker + 1..])
  }

  function Released(s: State, pane: Uuid, point: Point, button: Button, shift: bool, reporting: bool, menuOpen: bool): State {
    if button == Right && menuOpen then s
    else if Dragging(s, pane) then
      var d := s.drag.value;
      if d.deferred then
        Sent(Ended(s), if button == Navigate then []
                       else [Click(d.gesture, pane, d.anchor, button, Press), Click(d.gesture, pane, point, button, Release)])
      else if point == d.anchor && !d.preserve then Sent(Ended(s), [ClearSelection(d.gesture, pane)])
      else Sent(Ended(s), [Update(d.gesture, pane, point)])
    else if reporting && !shift && button != Navigate then Sent(Ended(s), [Mouse(pane, point, button, Release)])
    else Ended(s)
  }

  function OutsideReleased(s: State, e: Event): State
    requires e.ReleaseOutside?
  {
    if s.drag.None? then s
    else if !e.hasGrid then Ended(s)
    else if e.reading.None? then s
    else if e.reading.value.overflow != 0 || e.reading.value.outsideX then
      Released(s, s.drag.value.pane, e.reading.value.point, e.button, e.shift, e.reading.value.reporting, e.menuOpen)
    else s
  }

  function Next(s: State, e: Event): State {
    match e
    case PressAt(_, _, _, _, _, _, _, _) => Pressed(s, e)
    case MoveOver(_, _, _, _, _, _) => Moved(s, e)
    case DragTo(_, _, _) => Dragged(s, e)
    case Tick(_, _) => Ticked(s, e)
    case ReleaseAt(pane, point, button, shift, reporting, menuOpen) =>
      Released(s, pane, point, button, shift, reporting, menuOpen)
    case ReleaseOutside(_, _, _, _, _) => OutsideReleased(s, e)
    case Escape => if s.drag.Some? then Ended(s) else s
  }

  // ------------------------------------------------------------ the handlers

  class Pointer {
    var selectionDrag: Option<Drag>
    var selectionAutoscroll: Option<Autoscroll>
    var autoscrollGeneration: nat
    var tickers: seq<nat>
    var requests: seq<Request>
    var gestures: nat

    ghost function Now(): State
      reads this
    {
      State(selectionDrag, selectionAutoscroll, autoscrollGeneration, tickers, requests, gestures)
    }

    constructor ()
      ensures Now() == State(None, None, 0, [], [], 0)
    {
      selectionDrag, selectionAutoscroll, autoscrollGeneration := None, None, 0;
      tickers, requests, gestures := [], [], 0;
    }

    method Dispatch(request: Request)
      modifies this`requests
      ensures requests == old(requests) + [request]
    {
      requests := requests + [request];
    }

    method BeginTerminalPointer(e: Event)
      requires e.PressAt?
      modifies this
      ensures Now() == Pressed(old(Now()), e)
    {
      if e.button == Right && e.imageMenu {
        return;
      }
      match ActionFor(e.reporting, e.button, e.shift, e.alt, e.clicks)
      case ReportMouse =>
        if e.button != Navigate {
          Dispatch(Mouse(e.pane, e.point, e.button, Press));
        }
      case DeferLeftClick(kind) =>
        selectionAutoscroll := None;
        autoscrollGeneration := autoscrollGeneration + 1;
        gestures := gestures + 1;
        selectionDrag := Some(Drag(gestures, e.pane, e.point, kind, true, false));
      case Select(kind) =>
        selectionAutoscroll := None;
        autoscrollGeneration := autoscrollGeneration + 1;
        gestures := gestures + 1;
        selectionDrag := Some(Drag(gestures, e.pane, e.point, kind, false, kind == Semantic || kind == Lines));
        Dispatch(Begin(gestures, e.pane, e.point, kind));
      case Ignore =>
    }

    method MoveTerminalPointer(e: Event)
      requires e.MoveOver?
      modifies this`selectionDrag, this`requests
      ensures Now() == Moved(old(Now()), e)
    {
      if e.dragging && selectionDrag.Some? && selectionDrag.value.pane == e.pane {
        var selection := selectionDrag.value;
        if selection.deferred && e.point != selection.anchor {
          selectionDrag := Some(selection.(deferred := false));
          Dispatch(BeginOf(selection));
        }
        if !selectionDrag.value.deferred {
          Dispatch(Update(selection.gesture, e.pane, e.point));
        }
        return;
      }
      if e.pressed == Some(Right) && e.menuOpen {
        return;
      }
      if e.motion && e.pressed.Some? && e.pressed.value != Navigate {
        Dispatch(Mouse(e.pane, e.point, e.pressed.value, Move));
      }
    }

    method DragTerminalSelection(e: Event)
      requires e.DragTo?
      modifies this
      ensures Now() == Dragged(old(Now()), e)
    {
      if selectionDrag.None? || !e.dragging || e.reading.None? {
        return;
      }
      var selection, reading := selectionDrag.value, e.reading.value;
      if (reading.overflow == 0 && !reading.outsideX) || (reading.overflow != 0 && reading.reporting && !e.shift) {
        selectionAutoscroll := None;
        return;
      }
      selectionDrag := Some(selection.(preserve := true));
      if selection.deferred {
        selectionDrag := Some(selectionDrag.value.(deferred := false));
        Dispatch(BeginOf(selection));
      }
      if reading.overflow == 0 {
        selectionAutoscroll := None;
        Dispatch(Update(selection.gesture, selection.pane, reading.point));
        return;
      }
      var start := selectionAutoscroll.None?;
      selectionAutoscroll :=
        Some(Autoscroll(selection.pane, if reading.overflow < 0 then reading.speed else -reading.speed, reading.point));
      if start {
        autoscrollGeneration := autoscrollGeneration + 1;
        tickers := tickers + [autoscrollGeneration];
      }
    }

    method TickSelectionAutoscroll(generation: nat, hasScreen: bool) returns (more: bool)
      modifies this`selectionAutoscroll, this`requests
      ensures Now() == Scrolled(old(Now()), generation, hasScreen)
      ensures more == KeepsTicking(old(Now()), generation, hasScreen)
    {
      if generation != autoscrollGeneration || selectionAutoscroll.None? {
        return false;
      }
      var scroll := selectionAutoscroll.value;
      if selectionDrag.None? || selectionDrag.value.pane != scroll.pane || !hasScreen {
        selectionAutoscroll := None;
        return false;
      }
      Dispatch(ScrollPane(scroll.pane, scroll.lines));
      Dispatch(Update(selectionDrag.value.gesture, scroll.pane, scroll.edge));
      return true;
    }

    /** One turn of a timer loop, which ends when the tick says so. */
    method TimerLoop(e: Event)
      requires e.Tick?
      modifies this
      ensures Now() == Ticked(old(Now()), e)
    {
      if e.ticker < |tickers| {
        var more := TickSelectionAutoscroll(tickers[e.ticker], e.hasScreen);
        if !more {
          tickers := tickers[..e.ticker] + tickers[e.ticker + 1..];
        }
      }
    }

    method EndTerminalPointer(pane: Uuid, point: Point, button: Button, shift: bool, reporting: bool, menuOpen: bool)
      modifies this
      ensures Now() == Released(old(Now()), pane, point, button, shift, reporting, menuOpen)
    {
      if button == Right && menuOpen {
        return;
      }
      selectionAutoscroll := None;
      autoscrollGeneration := autoscrollGeneration + 1;
      var taken := selectionDrag;
      selectionDrag := None;
      if taken.Some? && taken.value.pane == pane {
        var selection := taken.value;
        if selection.deferred {
          if button != Navigate {
            Dispatch(Click(selection.gesture, pane, selection.anchor, button, Press));
            Dispatch(Click(selection.gesture, pane, point, button, Release));
          }
        } else if point == selection.anchor && !selection.preserve {
          Dispatch(ClearSelection(selection.gesture, pane));
        } else {
          Dispatch(Update(selection.gesture, pane, point));
        }
      } else if reporting && !shift && button != Navigate {
        Dispatch(Mouse(pane, point, button, Release));
      }
    }

    method EndTerminalSelectionOutside(e: Event)
      requires e.ReleaseOutside?
      modifies this
      ensures Now() == OutsideReleased(old(Now()), e)
    {
      if selectionDrag.None? {
        return;
      }
      if !e.hasGrid {
        selectionDrag, selectionAutoscroll := None, None;
        autoscrollGeneration := autoscrollGeneration + 1;
        return;
      }
      if e.reading.None? {
        return;
      }
      var reading := e.reading.value;
      if reading.overflow != 0 || reading.outsideX {
        EndTerminalPointer(selectionDrag.value.pane, reading.point, e.button, e.shift, reading.reporting, e.menuOpen);
      }
    }

    method Cancel()
      modifies this
      ensures Now() == Next(old(Now()), Escape)
    {
      if selectionDrag.Some? {
        selectionDrag, selectionAutoscroll := None, None;
        autoscrollGeneration := autoscrollGeneration + 1;
      }
    }
  }
}
