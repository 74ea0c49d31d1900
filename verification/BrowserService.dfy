/**
 What the service holds of one browser view (browser.rs:720-786, 983-1084), one call at
 a time. A refused update may have been applied all the same, when the answer is lost;
 the view then takes it as never made.
 */
module BrowserService {
  import opened Common
  import opened BrowserSync

  /** A view and the page the service shows for it. */
  datatype World = World(view: View, service: Page)

  datatype Outcome = Acknowledged | RefusedApplied | RefusedUnapplied

  datatype Event =
    | Visited(url: string)
    | Retitled(title: string)
    | Touched
    | Syncs
    | Flushes
    | Answered(outcome: Outcome)

  function Step(w: World, e: Event): World {
    match e
    case Visited(url) => w.(view := AddressChanged(w.view, url))
    case Retitled(title) => w.(view := TitleChanged(w.view, title))
    case Touched => w.(view := w.view.(dirty := true))
    case Syncs => w.(view := Synced(w.view))
    case Flushes => w.(view := Flushed(w.view))
    case Answered(outcome) =>
      match w.view.inFlight
      case None => w
      case Some(page) =>
        World(Completed(w.view, page, outcome.Acknowledged?), if outcome.RefusedUnapplied? then w.service else page)
  }

  function Run(w: World, events: seq<Event>): World
    decreases |events|
  {
    if events == [] then w else Run(Step(w, events[0]), events[1..])
  }

  function OpenedWorld(url: string): World {
    World(Opened(url), Opened(url).synced)
  }

  /** A view that has nothing to report is current, and so is the service. */
  ghost predicate Truthful(w: World) {
    Idle(w.view) ==> w.service == w.view.current
  }

  ghost predicate Sound(w: World) {
    !w.view.dirty ==> w.view.current == Newest(w.view)
  }

  /**
   The view syncs back to the page it had acknowledged last, with nothing in flight,
   while the service holds another: an update it refused, having applied it.
   */
  predicate ForgetsService(w: World, e: Event) {
    e.Syncs? && w.view.dirty && w.view.inFlight.None? && w.view.current == w.view.synced && w.service != w.view.synced
  }

  lemma StepTruthfulIff(w: World, e: Event)
    requires Sound(w) && Truthful(w)
    ensures Sound(Step(w, e)) && (Truthful(Step(w, e)) <==> !ForgetsService(w, e))
  {
  }

  ghost predicate AlwaysTruthful(w: World, events: seq<Event>)
    decreases |events|
  {
    Truthful(w) && (events != [] ==> AlwaysTruthful(Step(w, events[0]), events[1..]))
  }

  ghost predicate NeverForgets(w: World, events: seq<Event>)
    decreases |events|
  {
    events != [] ==> !ForgetsService(w, events[0]) && NeverForgets(Step(w, events[0]), events[1..])
  }

  /**
   Throughout a run the service shows the current page whenever the view is idle exactly
   if the view never syncs back to its acknowledged page while the service holds another.
   */
  lemma {:induction false} ServiceIsCurrentIff(w: World, events: seq<Event>)
    requires Sound(w) && Truthful(w)
    ensures AlwaysTruthful(w, events) <==> NeverForgets(w, events)
    decreases |events|
  {
    hide Step, Sound, Truthful, ForgetsService;
    if events != [] {
      StepTruthfulIff(w, events[0]);
      if Truthful(Step(w, events[0])) {
        ServiceIsCurrentIff(Step(w, events[0]), events[1..]);
      }
    }
  }

  lemma StepKeepsService(w: World, e: Event)
    requires w.service == w.view.synced && !(e.Answered? && e.outcome.RefusedApplied?)
    ensures Step(w, e).service == Step(w, e).view.synced && !ForgetsService(w, e)
  {
  }

  /** If what is refused is never applied, the service is current whenever the view is idle, in every run. */
  lemma {:induction false} HonestRefusalsKeepService(w: World, events: seq<Event>)
    requires Sound(w) && w.service == w.view.synced
    requires forall e :: e in events ==> !(e.Answered? && e.outcome.RefusedApplied?)
    ensures AlwaysTruthful(w, events) && Run(w, events).service == Run(w, events).view.synced
    decreases |events|
  {
    hide Step, ForgetsService;
    if events != [] {
      assert events[0] in events;
      StepKeepsService(w, events[0]);
      StepTruthfulIff(w, events[0]);
      HonestRefusalsKeepService(Step(w, events[0]), events[1..]);
    }
  }

  /** And it does happen: an address whose update was refused but applied, then the old one again. */
  lemma ServiceCanStayBehind()
    ensures var w := Run(OpenedWorld("a"), [Visited("b"), Syncs, Flushes, Answered(RefusedApplied), Visited("a"), Syncs]);
            Idle(w.view) && w.view.current.url == "a" && w.service.url == "b"
  {
    var e := [Visited("b"), Syncs, Flushes, Answered(RefusedApplied), Visited("a"), Syncs];
    var a, b := Page("a", None), Page("b", None);
    var w1 := Step(Step(Step(OpenedWorld("a"), e[0]), e[1]), e[2]);
    assert w1 == World(View(b, false, None, Some(b), a), a);
    var w2 := Step(w1, e[3]);
    assert w2 == World(View(b, false, Some(b), None, a), b);
    var w3 := Step(Step(w2, e[4]), e[5]);
    assert w3 == World(View(a, false, None, None, a), b);
    assert "a" != "b";
    SixSteps(OpenedWorld("a"), e);
  }

  lemma SixSteps(w: World, e: seq<Event>)
    requires |e| == 6
    ensures Run(w, e) == Step(Step(Step(Step(Step(Step(w, e[0]), e[1]), e[2]), e[3]), e[4]), e[5])
  {
    hide Step;
    var w3 := Step(Step(Step(w, e[0]), e[1]), e[2]);
    ThreeSteps(w, e[..3], e[3..]);
    ThreeSteps(w3, e[3..], []);
    assert e[..3] + e[3..] == e && e[3..] + [] == e[3..];
  }

  lemma ThreeSteps(w: World, e: seq<Event>, rest: seq<Event>)
    requires |e| == 3
    ensures Run(w, e + rest) == Run(Step(Step(Step(w, e[0]), e[1]), e[2]), rest)
  {
    hide Step;
    var all := e + rest;
    assert all[1..] == e[1..] + rest && all[1..][1..] == [e[2]] + rest && all[1..][1..][1..] == rest;
    assert Run(w, all) == Run(Step(w, e[0]), all[1..]);
    assert Run(Step(w, e[0]), all[1..]) == Run(Step(Step(w, e[0]), e[1]), all[1..][1..]);
  }
}
