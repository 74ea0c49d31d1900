/**
 The browser runtime's message pump (cef_macos.rs:34-61, 178-197): threads ask for
 pump turns, one pending deadline owns the next turn, and its callback claims it on
 the main thread. Requests, posts, callbacks and pumping interleave freely.
 */
module PumpSchedule {
  import opened Common

  const FALLBACK_DELAY: int := 33

  // ------------------------------------------------------------ the schedule itself

  predicate Accepts(pending: Option<int>, deadline: int) {
    pending.None? || deadline < pending.value
  }

  class Schedule {
    var pending: Option<int>

    constructor ()
      ensures pending == None
    {
      pending := None;
    }

    method Request(deadline: int) returns (accepted: bool)
      modifies this
      ensures accepted == Accepts(old(pending), deadline)
      ensures accepted <==> old(pending).None? || deadline < old(pending).value
      ensures pending == if accepted then Some(deadline) else old(pending)
    {
      if pending.Some? && pending.value <= deadline {
        return false;
      }
      pending := Some(deadline);
      return true;
    }

    method Claim(deadline: int) returns (claimed: bool)
      modifies this
      ensures claimed == (old(pending) == Some(deadline))
      ensures pending == if claimed then None else old(pending)
    {
      if pending != Some(deadline) {
        return false;
      }
      pending := None;
      return true;
    }
  }

  // ------------------------------------------------------------ everybody who uses it

  /** What the main thread is doing; termination may begin in the middle of any of it. */
  datatype MainThread = Idle | Pumping | MustSchedule(delay: int)

  /**
   `posting` holds accepted deadlines whose callback is about to be queued, `posted`
   those queued. `accepted`, `claimed` and `asked` are history: the deadlines accepted
   and claimed so far, and those asked for since the last successful claim.
   */
  datatype Pump = Pump(pending: Option<int>, posting: multiset<int>, posted: multiset<int>, main: MainThread,
                       initialized: bool, terminated: bool, now: int, accepted: multiset<int>, claimed: multiset<int>, asked: seq<int>)

  datatype Event =
    | Initialize
    | Ask(delay: int)
    | Post(deadline: int)
    | Fire(deadline: int)
    | PumpDone
    | Reschedule
    | Wait(elapsed: nat)
    | Shutdown

  function Clamped(delay: int): int {
    if delay < 0 then 0 else if delay > FALLBACK_DELAY then FALLBACK_DELAY else delay
  }

  /** `schedule_pump` up to the point where its callback still has to be queued. */
  function Requested(p: Pump, delay: int): Pump {
    var deadline := p.now + Clamped(delay);
    var q := p.(asked := p.asked + [deadline]);
    if Accepts(p.pending, deadline) then
      q.(pending := Some(deadline), posting := p.posting + multiset{deadline}, accepted := p.accepted + multiset{deadline})
    else q
  }

  function Next(p: Pump, e: Event): Pump {
    match e
    case Initialize =>
      if p.initialized || p.terminated || p.main != Idle then p else p.(initialized := true, main := MustSchedule(0))
    case Ask(delay) => Requested(p, delay)
    case Post(deadline) =>
      if deadline !in p.posting then p
      else p.(posting := p.posting - multiset{deadline}, posted := p.posted + multiset{deadline})
    case Fire(deadline) =>
      if p.main != Idle || deadline !in p.posted || deadline > p.now then p
      else
        var q := p.(posted := p.posted - multiset{deadline});
        if p.pending != Some(deadline) then q
        else
          q.(pending := None, claimed := p.claimed + multiset{deadline}, asked := [],
             main := if p.initialized then Pumping else Idle)
    case PumpDone => if p.main == Pumping then p.(main := MustSchedule(FALLBACK_DELAY)) else p
    case Reschedule => if p.main.MustSchedule? then Requested(p, p.main.delay).(main := Idle) else p
    case Wait(elapsed) => p.(now := p.now + elapsed)
    case Shutdown => if p.initialized then p.(initialized := false, terminated := true) else p
  }

  const START := Pump(None, multiset{}, multiset{}, Idle, false, false, 0, multiset{}, multiset{}, [])

  function Run(events: seq<Event>): Pump {
    if events == [] then START else Next(Run(events[..|events| - 1]), events[|events| - 1])
  }

  // ------------------------------------------------------------ what every run keeps

  function Earliest(asked: seq<int>): Option<int> {
    if asked == [] then None
    else
      var before, last := Earliest(asked[..|asked| - 1]), asked[|asked| - 1];
      if before.None? || last < before.value then Some(last) else before
  }

  lemma {:induction false} EarliestIsLeast(asked: seq<int>)
    ensures asked == [] <==> Earliest(asked) == None
    ensures asked != [] ==> Earliest(asked).value in asked && forall k :: 0 <= k < |asked| ==> Earliest(asked).value <= asked[k]
  {
    if asked != [] {
      var front := asked[..|asked| - 1];
      EarliestIsLeast(front);
      assert asked == front + [asked[|asked| - 1]];
    }
  }

  /** The deadlines whose callback is queued or about to be. */
  function Callbacks(p: Pump): multiset<int> {
    p.posting + p.posted
  }

  function Holds(p: Pump, deadline: int): nat {
    if p.pending == Some(deadline) then 1 else 0
  }

  ghost predicate Sound(p: Pump) {
    && p.pending == Earliest(p.asked)
    && (p.pending.Some? ==> p.pending.value <= p.now + FALLBACK_DELAY)
    && (p.initialized ==> p.main != Idle || p.pending.Some?)
    && (forall d: int :: Holds(p, d) <= Callbacks(p)[d])
    && (forall d: int :: p.claimed[d] + Callbacks(p)[d] <= p.accepted[d])
  }

  lemma RequestedSound(p: Pump, delay: int, main: MainThread)
    requires Sound(p) && (p.main == main || main == Idle)
    ensures Sound(Requested(p, delay).(main := main)) && Requested(p, delay).pending.Some?
  {
    var deadline := p.now + Clamped(delay);
    assert (p.asked + [deadline])[..|p.asked|] == p.asked;
  }

  lemma NextSound(p: Pump, e: Event)
    requires Sound(p)
    ensures Sound(Next(p, e))
  {
    match e
    case Ask(delay) => RequestedSound(p, delay, p.main);
    case Reschedule => if p.main.MustSchedule? { RequestedSound(p, p.main.delay, Idle); }
    case Post(deadline) => PostSound(p, deadline);
    case Fire(deadline) => FireSound(p, deadline);
    case _ => assert Callbacks(Next(p, e)) == Callbacks(p);
  }

  lemma PostSound(p: Pump, deadline: int)
    requires Sound(p)
    ensures Sound(Next(p, Post(deadline)))
  {
    var q := Next(p, Post(deadline));
    if deadline in p.posting {
      assert p.posting == (p.posting - multiset{deadline}) + multiset{deadline};
      assert Callbacks(q) == Callbacks(p);
    }
    forall d: int
      ensures Holds(q, d) <= Callbacks(q)[d] && q.claimed[d] + Callbacks(q)[d] <= q.accepted[d]
    {
      assert Holds(p, d) <= Callbacks(p)[d];
    }
  }

  lemma FireSound(p: Pump, deadline: int)
    requires Sound(p)
    ensures Sound(Next(p, Fire(deadline)))
  {
    var q := Next(p, Fire(deadline));
    forall d: int
      ensures Holds(q, d) <= Callbacks(q)[d] && q.claimed[d] + Callbacks(q)[d] <= q.accepted[d]
    {
      assert Holds(p, d) <= Callbacks(p)[d];
    }
  }

  lemma {:induction false} RunSound(events: seq<Event>)
    ensures Sound(Run(events))
  {
    hide Next, Sound;
    if events == [] {
      StartSound();
    } else {
      RunSound(events[..|events| - 1]);
      NextSound(Run(events[..|events| - 1]), events[|events| - 1]);
    }
  }

  lemma StartSound()
    ensures Sound(START)
  {
  }

  /** The pending deadline is the least of all asked for since the last successful claim. */
  lemma PendingIsEarliest(events: seq<Event>)
    ensures var p := Run(events);
            && (p.pending.None? <==> p.asked == [])
            && (p.pending.Some? ==> p.pending.value in p.asked && forall k :: 0 <= k < |p.asked| ==> p.pending.value <= p.asked[k])
  {
    hide Run;
    RunSound(events);
    EarliestIsLeast(Run(events).asked);
  }

  /** `deadline` is `delay` from now, but not before now and at most 33 ms away. */
  ghost predicate DueIn(p: Pump, delay: int, deadline: int) {
    && (0 <= delay <= 33 ==> deadline == p.now + delay)
    && (delay < 0 ==> deadline == p.now)
    && (delay > 33 ==> deadline == p.now + 33)
  }

  /** The deadlines asked for since the last claim: each request adds its own, as the
      start of the runtime and the end of each pump do in their turn, a claim of the
      pending one, once it is due, takes them all off, and nothing else counts. */
  lemma AskedIs(p: Pump, e: Event)
    ensures var q := Next(p, e);
      if e.Ask? then |q.asked| == |p.asked| + 1 && q.asked[..|p.asked|] == p.asked && DueIn(p, e.delay, q.asked[|p.asked|])
      else if e.Reschedule? && p.main.MustSchedule? then
        |q.asked| == |p.asked| + 1 && q.asked[..|p.asked|] == p.asked && DueIn(p, p.main.delay, q.asked[|p.asked|])
      else if e.Fire? && p.main == Idle && e.deadline in p.posted && e.deadline <= p.now && p.pending == Some(e.deadline)
      then q.asked == []
      else q.asked == p.asked
  {
  }

  /** The main thread owes a pump at once when the runtime comes up, and one within
      33 ms after each pump. */
  lemma OwesAfter(p: Pump)
    ensures !p.initialized && !p.terminated && p.main == Idle ==> Next(p, Initialize).main == MustSchedule(0)
    ensures p.main == Pumping ==> Next(p, PumpDone).main == MustSchedule(33)
  {
  }

  /** A pending deadline has a callback, queued or about to be, and is at most 33 ms away. */
  lemma PendingHasCallback(events: seq<Event>)
    requires Run(events).pending.Some?
    ensures var p := Run(events);
            p.pending.value in Callbacks(p) && p.pending.value <= p.now + FALLBACK_DELAY
  {
    hide Run;
    RunSound(events);
    var p := Run(events);
    assert Holds(p, p.pending.value) == 1;
  }

  /** Every accepted deadline is claimed at most once: claims and live callbacks never outnumber acceptances. */
  lemma ClaimedAtMostOnce(events: seq<Event>, deadline: int)
    ensures var p := Run(events);
            p.claimed[deadline] + Holds(p, deadline) <= p.claimed[deadline] + Callbacks(p)[deadline] <= p.accepted[deadline]
  {
    hide Run;
    RunSound(events);
  }

  /** The pump never runs dry: while the runtime is up, the main thread is at it or a deadline is pending. */
  lemma PumpNeverRunsDry(events: seq<Event>)
    requires Run(events).initialized
    ensures var p := Run(events); p.main != Idle || (p.pending.Some? && p.pending.value in Callbacks(p))
  {
    hide Run;
    RunSound(events);
    if Run(events).pending.Some? {
      PendingHasCallback(events);
    }
  }

  /** Right after the turn that follows a pump, whatever was asked meanwhile, a deadline is pending. */
  lemma PendingAfterPump(events: seq<Event>)
    requires events != [] && events[|events| - 1] == Reschedule && Run(events[..|events| - 1]).main.MustSchedule?
    ensures Run(events).pending.Some? && Run(events).main == Idle
  {
    var p := Run(events[..|events| - 1]);
    RunSound(events[..|events| - 1]);
    RequestedSound(p, p.main.delay, Idle);
  }

  /** A callback pumps exactly when it holds the earliest deadline asked for since the last claim. */
  lemma OnlyEarliestPumps(events: seq<Event>, deadline: int)
    requires var p := Run(events);
             p.initialized && p.main == Idle && deadline in p.posted && deadline <= p.now
    ensures var p := Run(events);
            Next(p, Fire(deadline)).main == Pumping <==>
            (deadline in p.asked && forall k :: 0 <= k < |p.asked| ==> deadline <= p.asked[k])
  {
    hide Run;
    RunSound(events);
    EarliestIsLeast(Run(events).asked);
  }
}
