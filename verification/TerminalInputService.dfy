/**
 The terminal-input lane together with the service that applies its bytes. What
 the lane makes of an answer is judged by what the service did: an
 acknowledgement means the bytes were applied, a definitely-unsent error that
 they were not, and anything else leaves it open.
 */
module TerminalInputService {
  import opened Common
  import opened TerminalInput
  import opened TerminalInputRuns

  /** The lane, the bytes the service applied, and the bytes of the calls answered
      by an acknowledgement and by anything that leaves the outcome open. */
  datatype World = World(lane: Ledger, applied: seq<Cell>, acknowledged: seq<Cell>, uncertain: seq<Cell>)

  const START_WORLD: World := World(START, [], [], [])

  /** `applied` says whether the service carried out the call it answers here. */
  datatype Turn = Turn(event: Event, applied: bool)

  ghost predicate Honest(t: Turn) {
    && (t.event == Answer(Ack) ==> t.applied)
    && (t.event == Answer(UnsentError) ==> !t.applied)
  }

  function WorldStep(w: World, capacity: nat, t: Turn): World {
    var cells := Answered(w, t.event);
    World(
      Step(w.lane, capacity, t.event),
      if t.applied then w.applied + cells else w.applied,
      if t.event == Answer(Ack) then w.acknowledged + cells else w.acknowledged,
      if t.event == Answer(OtherResponse) || t.event == Answer(OtherError) then w.uncertain + cells else w.uncertain)
  }

  /** The bytes of the call that an event answers. */
  function Answered(w: World, e: Event): seq<Cell> {
    if e.Answer? && w.lane.buf.inFlight.Some? then FrameCells(w.lane.buf.inFlight.value) else []
  }

  function WorldRun(w: World, capacity: nat, turns: seq<Turn>): World
    decreases |turns|
  {
    if turns == [] then w else WorldRun(WorldStep(w, capacity, turns[0]), capacity, turns[1..])
  }

  /** What the lane records is what the answers said, and only what certainly never
      reached the service can be sent again. */
  ghost predicate Consistent(w: World, capacity: nat, c: Cell) {
    && Inv(w.lane, capacity)
    && w.lane.delivered == w.acknowledged && w.lane.indeterminate == w.uncertain
    && Count(w.acknowledged, c) <= Count(w.applied, c) <= Count(w.lane.settled, c)
  }

  lemma AnswerRecorded(l: Ledger, capacity: nat, result: CallResult)
    requires l.buf.inFlight.Some?
    ensures var m, cells := Step(l, capacity, Answer(result)), FrameCells(l.buf.inFlight.value);
      && m.delivered == (if result == Ack then l.delivered + cells else l.delivered)
      && m.indeterminate ==
         (if result == OtherResponse || result == OtherError then l.indeterminate + cells else l.indeterminate)
      && m.settled == (if result == UnsentError then l.settled else l.settled + cells)
  {
  }

  lemma Counted(a: seq<Cell>, b: seq<Cell>, c: Cell)
    ensures Count(a + b, c) == Count(a, c) + Count(b, c)
  {
  }

  lemma OthersRecordNothing(w: World, capacity: nat, t: Turn)
    requires !t.event.Answer? || w.lane.buf.inFlight.None?
    ensures var v := WorldStep(w, capacity, t);
      && v.applied == w.applied && v.acknowledged == w.acknowledged && v.uncertain == w.uncertain
      && v.lane.settled == w.lane.settled && v.lane.delivered == w.lane.delivered
      && v.lane.indeterminate == w.lane.indeterminate
  {
    hide FrameCells; hide Push; hide Replay; hide Begin; hide Finish;
  }

  lemma TurnKeeps(w: World, capacity: nat, t: Turn, c: Cell)
    requires Consistent(w, capacity, c) && Honest(t)
    ensures Consistent(WorldStep(w, capacity, t), capacity, c)
  {
    hide Inv; hide Count; hide Step; hide FrameCells;
    StepKeeps(w.lane, capacity, t.event);
    if t.event.Answer? && w.lane.buf.inFlight.Some? {
      AnswerRecorded(w.lane, capacity, t.event.result);
      var cells := Answered(w, t.event);
      Counted(w.acknowledged, cells, c);
      Counted(w.applied, cells, c);
      Counted(w.lane.settled, cells, c);
    } else {
      OthersRecordNothing(w, capacity, t);
    }
  }

  lemma StartsConsistent(capacity: nat, c: Cell)
    ensures Consistent(START_WORLD, capacity, c)
  {
    assert PendingCells(EMPTY) == [];
  }

  lemma {:induction false} WorldRunKeeps(w: World, capacity: nat, turns: seq<Turn>, c: Cell)
    requires Consistent(w, capacity, c) && forall t :: t in turns ==> Honest(t)
    ensures Consistent(WorldRun(w, capacity, turns), capacity, c)
    decreases |turns|
  {
    hide Consistent; hide Honest; hide WorldStep;
    if turns != [] {
      assert turns[0] in turns;
      TurnKeeps(w, capacity, turns[0], c);
      WorldRunKeeps(WorldStep(w, capacity, turns[0]), capacity, turns[1..], c);
    }
  }

  /** Where the accepted copies of one byte are. */
  lemma Placed(w: World, capacity: nat, c: Cell)
    requires Consistent(w, capacity, c)
    ensures Count(w.lane.accepted, c) == Count(w.lane.settled, c) + Count(PendingCells(w.lane.buf), c)
    ensures Count(w.lane.settled, c) == Count(w.acknowledged, c) + Count(w.uncertain, c)
  {
    hide PendingCells; hide BufferOk;
  }

  lemma Counting(cells: seq<Cell>, c: Cell)
    ensures c in cells <==> Count(cells, c) > 0
  {
  }

  /** Over every run the service applies no accepted byte twice, and a byte that
      it has applied is never waiting to be sent again once its call is answered. */
  lemma AppliedAtMostOnce(capacity: nat, turns: seq<Turn>, c: Cell)
    requires forall t :: t in turns ==> Honest(t)
    requires Distinct(WorldRun(START_WORLD, capacity, turns).lane.accepted)
    ensures var w := WorldRun(START_WORLD, capacity, turns);
      && Count(w.applied, c) <= 1
      && (c in w.applied ==> c in w.lane.accepted && c !in PendingCells(w.lane.buf))
  {
    hide WorldRun; hide PendingCells;
    StartsConsistent(capacity, c);
    WorldRunKeeps(START_WORLD, capacity, turns, c);
    var w := WorldRun(START_WORLD, capacity, turns);
    Placed(w, capacity, c);
    Counting(w.applied, c);
    Counting(w.lane.accepted, c);
    Counting(PendingCells(w.lane.buf), c);
    assert Count(w.lane.accepted, c) <= 1;
  }

  /** And none is lost: an accepted byte that is not waiting any more was
      acknowledged, and then applied, or its call ended without a certain answer. */
  lemma NothingSilentlyLost(capacity: nat, turns: seq<Turn>, c: Cell)
    requires forall t :: t in turns ==> Honest(t)
    requires c in WorldRun(START_WORLD, capacity, turns).lane.accepted
    ensures var w := WorldRun(START_WORLD, capacity, turns);
      c in PendingCells(w.lane.buf) || (c in w.acknowledged && c in w.applied) || c in w.uncertain
  {
    hide WorldRun; hide PendingCells;
    StartsConsistent(capacity, c);
    WorldRunKeeps(START_WORLD, capacity, turns, c);
    var w := WorldRun(START_WORLD, capacity, turns);
    Placed(w, capacity, c);
    Counting(w.lane.accepted, c);
    Counting(PendingCells(w.lane.buf), c);
    Counting(w.acknowledged, c);
    Counting(w.applied, c);
    Counting(w.uncertain, c);
  }

  /** While every call ends with a certain answer, what the service applied and
      what is still waiting are exactly what was accepted, each byte as often. */
  lemma ExactlyOnceWhenCertain(capacity: nat, turns: seq<Turn>, c: Cell)
    requires forall t :: t in turns ==> Honest(t)
    requires WorldRun(START_WORLD, capacity, turns).uncertain == []
    ensures var w := WorldRun(START_WORLD, capacity, turns);
      Count(w.lane.accepted, c) == Count(w.applied, c) + Count(PendingCells(w.lane.buf), c)
  {
    hide WorldRun; hide PendingCells;
    StartsConsistent(capacity, c);
    WorldRunKeeps(START_WORLD, capacity, turns, c);
    Placed(WorldRun(START_WORLD, capacity, turns), capacity, c);
  }
}
