/**
 Reporting a browser pane's address and title to the service (browser.rs):
 callbacks mark the view dirty, a sync turns dirt into a pending update, a flush
 puts at most one update in flight, and answers may be refusals.
 */
module BrowserSync {
  import opened Common
  import opened Text

  datatype Page = Page(url: string, title: Option<string>)

  datatype View = View(current: Page, dirty: bool, pending: Option<Page>, inFlight: Option<Page>, synced: Page)

  // ------------------------------------------------------------ one view's steps

  function Opened(url: string): View {
    View(Page(url, None), false, None, None, Page(url, None))
  }

  function AddressChanged(v: View, url: string): View {
    if v.current.url == url then v else v.(current := v.current.(url := url), dirty := true)
  }

  function TitleOf(title: string): Option<string> {
    if Trim(title) == "" then None else Some(title)
  }

  function TitleChanged(v: View, title: string): View {
    if v.current.title == TitleOf(title) then v else v.(current := v.current.(title := TitleOf(title)), dirty := true)
  }

  function Synced(v: View): View {
    if !v.dirty then v
    else
      var next := v.current;
      v.(dirty := false,
         pending := match v.inFlight
           case Some(submitted) => if submitted == next then None else Some(next)
           case None => if v.synced == next then None else Some(next))
  }

  function Flushed(v: View): View {
    if v.inFlight.Some? || v.pending.None? then v else v.(pending := None, inFlight := v.pending)
  }

  function Completed(v: View, submitted: Page, ack: bool): View {
    if v.inFlight != Some(submitted) then v
    else if ack then
      v.(inFlight := None, synced := submitted, pending := if v.pending == Some(submitted) then None else v.pending)
    else
      v.(inFlight := None, pending := if v.pending.None? then Some(submitted) else v.pending)
  }

  class BrowserPaneView {
    var url: string
    var title: Option<string>
    var dirty: bool
    var pendingState: Option<Page>
    var inFlightState: Option<Page>
    var syncedUrl: string
    var syncedTitle: Option<string>

    ghost function State(): View
      reads this
    {
      View(Page(url, title), dirty, pendingState, inFlightState, Page(syncedUrl, syncedTitle))
    }

    constructor (url: string)
      ensures State() == Opened(url)
    {
      this.url, title, dirty, pendingState, inFlightState := url, None, false, None, None;
      syncedUrl, syncedTitle := url, None;
    }

    method OnAddressChange(next: string)
      modifies this`url, this`dirty
      ensures State() == AddressChanged(old(State()), next)
    {
      if url != next {
        url := next;
        dirty := true;
      }
    }

    method OnTitleChange(next: string)
      modifies this`title, this`dirty
      ensures State() == TitleChanged(old(State()), next)
    {
      var nextTitle := if Trim(next) == "" then None else Some(next);
      if title != nextTitle {
        title := nextTitle;
        dirty := true;
      }
    }

    /** One view's share of `sync_browser_callback_state`. */
    method SyncCallbackState() returns (changed: bool)
      modifies this`dirty, this`pendingState
      ensures State() == Synced(old(State())) && changed == old(dirty)
      // A dirty view has something to report exactly if its page differs from the one
      // on its way, or, with none on its way, from the one acknowledged.
      ensures old(dirty) ==> !dirty && (pendingState.Some? ==> pendingState.value == Page(url, title))
      ensures old(dirty) && inFlightState.Some? ==> (pendingState.Some? <==> inFlightState.value != Page(url, title))
      ensures old(dirty) && inFlightState.None? ==>
        (pendingState.Some? <==> Page(syncedUrl, syncedTitle) != Page(url, title))
    {
      if !dirty {
        return false;
      }
      dirty := false;
      var next := Page(url, title);
      if inFlightState.Some? {
        pendingState := if inFlightState.value != next then Some(next) else None;
      } else if syncedUrl == next.url && syncedTitle == next.title {
        pendingState := None;
      } else {
        pendingState := Some(next);
      }
      return true;
    }

    /** One view's share of `flush_browser_state_updates`: what to send, if anything. */
    method FlushStateUpdate() returns (submitted: Option<Page>)
      modifies this`pendingState, this`inFlightState
      ensures State() == Flushed(old(State()))
      ensures submitted == if old(inFlightState).None? then old(pendingState) else None
    {
      if inFlightState.Some? {
        return None;
      }
      submitted := pendingState;
      pendingState := None;
      inFlightState := submitted;
    }

    /** The answer to a submitted update. */
    method CompleteStateUpdate(submitted: Page, ack: bool) returns (flushAgain: bool)
      modifies this`pendingState, this`inFlightState, this`syncedUrl, this`syncedTitle
      ensures State() == Completed(old(State()), submitted, ack)
      ensures flushAgain <==> ack && old(inFlightState) == Some(submitted) && pendingState.Some?
      ensures flushAgain ==> inFlightState.None?
    {
      if inFlightState != Some(submitted) {
        return false;
      }
      inFlightState := None;
      if ack {
        syncedUrl, syncedTitle := submitted.url, submitted.title;
        if pendingState == Some(submitted) {
          pendingState := None;
        }
        return pendingState.Some?;
      }
      if pendingState.None? {
        pendingState := Some(submitted);
      }
      return false;
    }
  }

  // ------------------------------------------------------- a pane and its calls

  /** A call the service has not answered yet, and which life of the view sent it. */
  datatype Call = Call(life: nat, page: Page)

  /** A pane whose view may be dropped and opened again while calls are out. */
  datatype Pane = Pane(view: Option<View>, life: nat, calls: seq<Call>)

  datatype Event =
    | Open(url: string)
    | Drop
    | Address(url: string)
    | Title(title: string)
    | OtherCallback
    | Sync
    | Flush
    | Answer(call: nat, ack: bool)

  const CLOSED: Pane := Pane(None, 0, [])

  function Step(p: Pane, e: Event): Pane {
    match p.view
    case None =>
      (match e
       case Open(url) => p.(view := Some(Opened(url)), life := p.life + 1)
       case Answer(i, _) => if i < |p.calls| then p.(calls := p.calls[..i] + p.calls[i + 1..]) else p
       case _ => p)
    case Some(v) =>
      (match e
       case Open(_) => p
       case Drop => p.(view := None)
       case Address(url) => p.(view := Some(AddressChanged(v, url)))
       case Title(title) => p.(view := Some(TitleChanged(v, title)))
       case OtherCallback => p.(view := Some(v.(dirty := true)))
       case Sync => p.(view := Some(Synced(v)))
       case Flush =>
         var sent := if v.inFlight.None? && v.pending.Some? then [Call(p.life, v.pending.value)] else [];
         p.(view := Some(Flushed(v)), calls := p.calls + sent)
       case Answer(i, ack) =>
         if i < |p.calls| then
           p.(view := Some(Completed(v, p.calls[i].page, ack)), calls := p.calls[..i] + p.calls[i + 1..])
         else p)
  }

  function Run(p: Pane, events: seq<Event>): Pane
    decreases |events|
  {
    if events == [] then p else Run(Step(p, events[0]), events[1..])
  }

  /** The latest page the view has decided to report. */
  function Newest(v: View): Page {
    if v.pending.Some? then v.pending.value else if v.inFlight.Some? then v.inFlight.value else v.synced
  }

  ghost predicate NothingLost(p: Pane) {
    p.view.Some? && !p.view.value.dirty ==> p.view.value.current == Newest(p.view.value)
  }

  predicate Idle(v: View) {
    !v.dirty && v.pending.None? && v.inFlight.None?
  }

  lemma {:induction false} RunLosesNothing(p: Pane, events: seq<Event>)
    requires NothingLost(p)
    ensures NothingLost(Run(p, events))
    decreases |events|
  {
    if events != [] {
      RunLosesNothing(Step(p, events[0]), events[1..]);
    }
  }

  /** In every interleaving of callbacks, syncs, flushes, acknowledgements and
      refusals, a clean view's page is the newest it has queued, sent or had
      acknowledged; an idle view's page is the acknowledged one. */
  lemma NoUpdateLost(events: seq<Event>)
    ensures var p := Run(CLOSED, events);
      p.view.Some? && !p.view.value.dirty ==>
        && p.view.value.current == Newest(p.view.value)
        && (Idle(p.view.value) ==> p.view.value.synced == p.view.value.current)
  {
    RunLosesNothing(CLOSED, events);
  }

  // ------------------------------------------------- what the current page is

  /** No event of the stretch closes the view or reports another address, or title. */
  ghost predicate AddressStays(events: seq<Event>) {
    forall i :: 0 <= i < |events| ==> !events[i].Drop? && !events[i].Address?
  }

  ghost predicate TitleStays(events: seq<Event>) {
    forall i :: 0 <= i < |events| ==> !events[i].Drop? && !events[i].Title?
  }

  lemma {:induction false} AddressKept(p: Pane, events: seq<Event>)
    requires p.view.Some? && AddressStays(events)
    ensures var q := Run(p, events); q.view.Some? && q.view.value.current.url == p.view.value.current.url
    decreases |events|
  {
    if events != [] {
      AddressKept(Step(p, events[0]), events[1..]);
    }
  }

  lemma {:induction false} TitleKept(p: Pane, events: seq<Event>)
    requires p.view.Some? && TitleStays(events)
    ensures var q := Run(p, events); q.view.Some? && q.view.value.current.title == p.view.value.current.title
    decreases |events|
  {
    hide TitleOf;
    if events != [] {
      TitleKept(Step(p, events[0]), events[1..]);
    }
  }

  /** In every run an open view's address is the one of its last callback, and, once
      the view is idle, that is the address the service acknowledged. */
  lemma AddressIsLast(before: seq<Event>, url: string, after: seq<Event>)
    requires Run(CLOSED, before).view.Some? && AddressStays(after)
    ensures var p := Run(CLOSED, before + ([Address(url)] + after));
      p.view.Some? && p.view.value.current.url == url
      && (Idle(p.view.value) ==> p.view.value.synced.url == url)
  {
    hide Step;
    RunConcat(CLOSED, before, [Address(url)] + after);
    var p := Run(CLOSED, before);
    assert ([Address(url)] + after)[1..] == after;
    AddressReported(p, url);
    AddressKept(Step(p, Address(url)), after);
    NoUpdateLost(before + ([Address(url)] + after));
  }

  lemma AddressReported(p: Pane, url: string)
    requires p.view.Some?
    ensures var q := Step(p, Address(url)); q.view.Some? && q.view.value.current == p.view.value.current.(url := url)
  {
  }

  /** And its title: none if the last callback's was blank. */
  lemma TitleIsLast(before: seq<Event>, title: string, after: seq<Event>)
    requires Run(CLOSED, before).view.Some? && TitleStays(after)
    ensures var p := Run(CLOSED, before + ([Title(title)] + after));
      p.view.Some? && p.view.value.current.title == (if AllWhitespace(title) then None else Some(title))
      && (Idle(p.view.value) ==> p.view.value.synced.title == p.view.value.current.title)
  {
    hide Step;
    RunConcat(CLOSED, before, [Title(title)] + after);
    var p := Run(CLOSED, before);
    assert ([Title(title)] + after)[1..] == after;
    TitleReported(p, title);
    TitleKept(Step(p, Title(title)), after);
    NoUpdateLost(before + ([Title(title)] + after));
  }

  lemma TitleReported(p: Pane, title: string)
    requires p.view.Some?
    ensures var q := Step(p, Title(title));
      q.view.Some? && q.view.value.current == p.view.value.current.(title := if AllWhitespace(title) then None else Some(title))
  {
    TrimsToNothingIff(title);
  }

  /** Every change is reported in the end: one sync and two acknowledged rounds
      bring any view to rest with its current page acknowledged. */
  lemma Converges(v: View)
    requires !v.dirty ==> v.current == Newest(v)
    ensures var a := Synced(v);
      var b := if a.inFlight.Some? then Completed(a, a.inFlight.value, true) else a;
      var c := Flushed(b);
      var d := if c.inFlight.Some? then Completed(c, c.inFlight.value, true) else c;
      Idle(d) && d.synced == d.current == v.current
  {
  }

  // --------------------------------------------------------- one call at a time

  /** The view is opened only when no answer from an earlier life is due. */
  ghost predicate OpensClean(p: Pane, events: seq<Event>)
    decreases |events|
  {
    events != [] ==>
      && (events[0].Open? && p.view.None? ==> p.calls == [])
      && OpensClean(Step(p, events[0]), events[1..])
  }

  ghost predicate OneCall(p: Pane) {
    && |p.calls| <= 1
    && (p.view.Some? ==>
          p.calls == if p.view.value.inFlight.Some? then [Call(p.life, p.view.value.inFlight.value)] else [])
  }

  /** One step breaks it exactly by opening the view while an answer from an earlier life is due. */
  lemma StepOneCall(p: Pane, e: Event)
    requires OneCall(p)
    ensures OneCall(Step(p, e)) <==> (e.Open? && p.view.None? ==> p.calls == [])
  {
    if e.Answer? && e.call < |p.calls| {
      assert |p.calls| == 1 && p.calls[..e.call] + p.calls[e.call + 1..] == [];
    }
  }

  ghost predicate OneCallThroughout(p: Pane, events: seq<Event>)
    decreases |events|
  {
    OneCall(p) && (events != [] ==> OneCallThroughout(Step(p, events[0]), events[1..]))
  }

  /** At most one call is outstanding throughout a run, and it is the view's own, exactly if views open clean. */
  lemma {:induction false} AtMostOneCall(p: Pane, events: seq<Event>)
    requires OneCall(p)
    ensures OneCallThroughout(p, events) <==> OpensClean(p, events)
    decreases |events|
  {
    hide Step, OneCall;
    if events != [] {
      StepOneCall(p, events[0]);
      if OneCall(Step(p, events[0])) {
        AtMostOneCall(Step(p, events[0]), events[1..]);
      }
    }
  }

  /** The calls of one life that are still out, oldest first. */
  function CallsOf(calls: seq<Call>, life: nat): seq<Call> {
    if calls == [] then []
    else CallsOf(calls[..|calls| - 1], life) + if calls[|calls| - 1].life == life then [calls[|calls| - 1]] else []
  }

  /** The view's own life has exactly the call out that the view thinks it has. */
  ghost predicate Tracked(p: Pane) {
    && (forall i :: 0 <= i < |p.calls| ==> p.calls[i].life <= p.life)
    && (p.view.Some? ==>
          CallsOf(p.calls, p.life) == if p.view.value.inFlight.Some? then [Call(p.life, p.view.value.inFlight.value)] else [])
  }

  /** An answer meant for an earlier life that the view takes for its own. */
  predicate Mistaken(p: Pane, e: Event) {
    e.Answer? && e.call < |p.calls| && p.calls[e.call].life < p.life
    && p.view.Some? && p.view.value.inFlight == Some(p.calls[e.call].page)
  }

  lemma {:induction false} CallsOfSplit(a: seq<Call>, b: seq<Call>, life: nat)
    ensures CallsOf(a + b, life) == CallsOf(a, life) + CallsOf(b, life)
  {
    if b == [] {
      assert a + b == a;
    } else {
      var front, last := b[..|b| - 1], b[|b| - 1];
      CallsOfSplit(a, front, life);
      assert (a + b)[..|a + b| - 1] == a + front;
      Associative(CallsOf(a, life), CallsOf(front, life), if last.life == life then [last] else []);
    }
  }

  lemma CallsOfOne(c: Call, life: nat)
    ensures CallsOf([c], life) == if c.life == life then [c] else []
  {
    assert [c][..0] == [];
  }

  lemma CallsOfWithout(calls: seq<Call>, i: nat, life: nat)
    requires i < |calls|
    ensures calls[i].life != life ==> CallsOf(calls[..i] + calls[i + 1..], life) == CallsOf(calls, life)
    ensures calls[i].life == life && |CallsOf(calls, life)| <= 1 ==>
              CallsOf(calls, life) == [calls[i]] && CallsOf(calls[..i] + calls[i + 1..], life) == []
  {
    hide CallsOf;
    CallsOfOne(calls[i], life);
    CallsOfSplit(calls[..i], calls[i + 1..], life);
    CallsOfSplit([calls[i]], calls[i + 1..], life);
    CallsOfSplit(calls[..i], [calls[i]] + calls[i + 1..], life);
    assert calls == calls[..i] + ([calls[i]] + calls[i + 1..]);
  }

  lemma {:induction false} NoCallsOf(calls: seq<Call>, life: nat)
    requires forall i :: 0 <= i < |calls| ==> calls[i].life != life
    ensures CallsOf(calls, life) == []
  {
    if calls != [] {
      NoCallsOf(calls[..|calls| - 1], life);
    }
  }

  /** The one step that loses track of a call is the mistaken answer, and it always does. */
  lemma TrackKeptIff(p: Pane, e: Event)
    requires Tracked(p)
    ensures Tracked(Step(p, e)) <==> !Mistaken(p, e)
  {
    hide CallsOf;
    match e
    case Open(_) => NoCallsOf(p.calls, p.life + 1);
    case Flush =>
      assert p.calls + [] == p.calls;
      if p.view.Some? && p.view.value.inFlight.None? && p.view.value.pending.Some? {
        var c := Call(p.life, p.view.value.pending.value);
        CallsOfSplit(p.calls, [c], p.life);
        CallsOfOne(c, p.life);
      }
    case Answer(i, _) => if i < |p.calls| { CallsOfWithout(p.calls, i, p.life); }
    case _ =>
  }

  /** No answer of the run is mistaken. */
  ghost predicate NeverMistaken(p: Pane, events: seq<Event>)
    decreases |events|
  {
    events != [] ==> !Mistaken(p, events[0]) && NeverMistaken(Step(p, events[0]), events[1..])
  }

  /** However often the pane is dropped and reopened, a life has at most one call out unless an answer is mistaken. */
  lemma {:induction false} OneCallUnlessMistaken(p: Pane, events: seq<Event>)
    requires Tracked(p) && NeverMistaken(p, events)
    ensures var q := Run(p, events);
            Tracked(q) && (q.view.Some? ==> |CallsOf(q.calls, q.life)| <= 1)
    decreases |events|
  {
    hide Step, CallsOf, Mistaken;
    if events != [] {
      TrackKeptIff(p, events[0]);
      OneCallUnlessMistaken(Step(p, events[0]), events[1..]);
    }
  }

  /** Without that proviso one life can have two calls out: an answer meant for
      an earlier life is taken for the new one when both report the same page. */
  lemma ReopenedPaneCanHaveTwoCalls()
    ensures exists events :: var p := Run(CLOSED, events);
      |p.calls| == 2 && p.calls[0].life == p.calls[1].life == p.life
  {
    var first: seq<Event> := [Open("a"), Address("b"), Sync, Flush, Drop];
    var second: seq<Event> := [Open("a"), Address("b"), Sync, Flush, Answer(0, true)];
    var third: seq<Event> := [Address("c"), Sync, Flush];
    var b, c := Page("b", None), Page("c", None);
    var p1 := Pane(None, 1, [Call(1, b)]);
    var p2 := Pane(Some(View(b, false, None, None, b)), 2, [Call(2, b)]);
    assert Run(CLOSED, first) == p1 by { FiveSteps(CLOSED, first); }
    assert Run(p1, second) == p2 by { FiveSteps(p1, second); }
    var p3 := Step(Step(Step(p2, third[0]), third[1]), third[2]);
    assert Run(p2, third) == p3 by { ThreeSteps(p2, third); }
    RunConcat(CLOSED, first, second + third);
    RunConcat(p1, second, third);
    assert p3.calls == [Call(2, b), Call(2, c)];
    assert Run(CLOSED, first + (second + third)) == p3;
  }

  lemma {:induction false} RunConcat(p: Pane, before: seq<Event>, after: seq<Event>)
    ensures Run(p, before + after) == Run(Run(p, before), after)
    decreases |before|
  {
    if before == [] {
      assert before + after == after;
    } else {
      assert (before + after)[1..] == before[1..] + after;
      RunConcat(Step(p, before[0]), before[1..], after);
    }
  }

  lemma ThreeSteps(p: Pane, e: seq<Event>)
    requires |e| == 3
    ensures Run(p, e) == Step(Step(Step(p, e[0]), e[1]), e[2])
  {
    var q := Step(Step(Step(p, e[0]), e[1]), e[2]);
    assert e[1..][1..] == e[2..] && e[2..][1..] == [];
    assert Run(q, []) == q;
    assert Run(Step(Step(p, e[0]), e[1]), e[2..]) == q;
  }

  lemma FiveSteps(p: Pane, e: seq<Event>)
    requires |e| == 5
    ensures Run(p, e) == Step(Step(Step(Step(Step(p, e[0]), e[1]), e[2]), e[3]), e[4])
  {
    ThreeSteps(p, e[..3]);
    var q := Run(p, e[..3]);
    assert e == e[..3] + e[3..];
    RunConcat(p, e[..3], e[3..]);
    assert e[3..][1..][1..] == [];
    assert Run(Step(Step(q, e[3]), e[4]), []) == Step(Step(q, e[3]), e[4]);
    assert e[3..][1..] == [e[4]] && [e[4]][1..] == [];
    assert Run(Step(q, e[3]), [e[4]]) == Step(Step(q, e[3]), e[4]);
  }
}
