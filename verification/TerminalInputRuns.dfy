/**
 Theorems about every run of the terminal-input lane: conservation, at-most-once
 delivery, and delivery in acceptance order.
 */
module TerminalInputRuns {
  import opened Common
  import opened TerminalInput

  /** A byte together with the pane it was typed into. */
  datatype Cell = Cell(pane: Uuid, byte: Byte)

  /** The buffer with its history. `settled` interleaves the delivered and the
      indeterminate cells in the order they left the buffer. */
  datatype Ledger = Ledger(
    buf: Buffer, accepted: seq<Cell>, settled: seq<Cell>, delivered: seq<Cell>, indeterminate: seq<Cell>)

  const START: Ledger := Ledger(EMPTY, [], [], [], [])

  datatype Event =
    | Send(pane: Uuid, bytes: seq<Byte>, connected: bool)
    | Retry
    | Take
    | Answer(result: CallResult)

  /** The single worker takes a frame only when none is in flight, and answers
      only for a frame in flight; other events leave everything as it is. */
  function Step(l: Ledger, capacity: nat, e: Event): Ledger {
    match e
    case Send(pane, bytes, connected) =>
      if SendOutcome(l.buf, capacity, bytes, connected).Ok? && bytes != [] then
        l.(buf := Push(l.buf, pane, bytes), accepted := l.accepted + FrameCells(Frame(pane, bytes)))
      else l
    case Retry => if l.buf.recoverable == [] then l else l.(buf := Replay(l.buf))
    case Take => if l.buf.inFlight.Some? then l else l.(buf := Begin(l.buf))
    case Answer(result) =>
      if l.buf.inFlight.None? then l
      else
        var cells := FrameCells(l.buf.inFlight.value);
        var after := l.(buf := Finish(l.buf, Classify(result)));
        match Classify(result)
        case DefinitelyUnsent => after
        case Delivered => after.(settled := l.settled + cells, delivered := l.delivered + cells)
        case Indeterminate => after.(settled := l.settled + cells, indeterminate := l.indeterminate + cells)
  }

  function Run(l: Ledger, capacity: nat, events: seq<Event>): Ledger
    decreases |events|
  {
    if events == [] then l else Run(Step(l, capacity, events[0]), capacity, events[1..])
  }

  function FrameCells(f: Frame): (cells: seq<Cell>)
    ensures |cells| == |f.bytes|
  {
    seq(|f.bytes|, i requires 0 <= i < |f.bytes| => Cell(f.pane, f.bytes[i]))
  }

  function Cells(frames: seq<Frame>): seq<Cell> {
    if frames == [] then [] else FrameCells(frames[0]) + Cells(frames[1..])
  }

  function PendingCells(b: Buffer): seq<Cell> {
    Cells(b.recoverable) + Cells(InFlightFrames(b)) + Cells(b.queued)
  }

  lemma {:induction false} CellsConcat(a: seq<Frame>, b: seq<Frame>)
    ensures Cells(a + b) == Cells(a) + Cells(b)
  {
    if a == [] {
      assert a + b == b;
    } else {
      assert (a + b)[1..] == a[1..] + b;
      CellsConcat(a[1..], b);
    }
  }

  /** Coalescing changes frame boundaries and nothing else. */
  lemma EnqueueCells(queued: seq<Frame>, pane: Uuid, bytes: seq<Byte>)
    ensures Cells(Enqueue(queued, pane, bytes)) == Cells(queued) + FrameCells(Frame(pane, bytes))
  {
    var added := Frame(pane, bytes);
    assert Cells([added]) == FrameCells(added) + Cells([]);
    if Coalesces(queued, pane, bytes) {
      var n := |queued| - 1;
      var merged := Frame(pane, queued[n].bytes + bytes);
      assert FrameCells(merged) == FrameCells(queued[n]) + FrameCells(added);
      assert Cells([merged]) == FrameCells(merged) + Cells([]);
      assert Cells([queued[n]]) == FrameCells(queued[n]) + Cells([]);
      assert queued == queued[..n] + [queued[n]];
      CellsConcat(queued[..n], [queued[n]]);
      CellsConcat(queued[..n], [merged]);
    } else {
      CellsConcat(queued, [added]);
    }
  }

  // ------------------------------------------------------------- conservation

  /** Every accepted cell is settled or pending; every settled one is delivered
      or indeterminate. */
  ghost predicate Conserved(l: Ledger) {
    && multiset(l.accepted) == multiset(l.settled) + multiset(PendingCells(l.buf))
    && multiset(l.settled) == multiset(l.delivered) + multiset(l.indeterminate)
  }

  ghost predicate Inv(l: Ledger, capacity: nat) {
    BufferOk(l.buf, capacity) && Conserved(l)
  }

  // What one event does to the pending cells, in order.

  lemma SendPending(l: Ledger, capacity: nat, pane: Uuid, bytes: seq<Byte>, connected: bool)
    ensures var m := Step(l, capacity, Send(pane, bytes, connected));
      l.accepted <= m.accepted
      && PendingCells(m.buf) == PendingCells(l.buf) + m.accepted[|l.accepted|..]
  {
    EnqueueCells(l.buf.queued, pane, bytes);
  }

  lemma RetryPending(b: Buffer)
    ensures PendingCells(Replay(b)) == Cells(InFlightFrames(b)) + (Cells(b.recoverable) + Cells(b.queued))
  {
    CellsConcat(b.recoverable, b.queued);
  }

  lemma RetryIdlePending(b: Buffer)
    requires b.inFlight.None? || b.recoverable == []
    ensures PendingCells(Replay(b)) == PendingCells(b)
  {
    RetryPending(b);
    assert b.inFlight.None? ==> Cells(InFlightFrames(b)) == [];
  }

  lemma TakePending(b: Buffer)
    requires b.inFlight.None?
    ensures PendingCells(Begin(b)) == PendingCells(b)
  {
    if b.queued != [] {
      OneFrame(b.queued[0]);
      assert Cells(InFlightFrames(Begin(b))) == FrameCells(b.queued[0]);
    }
  }

  lemma AnswerPending(b: Buffer, delivery: Delivery)
    requires b.inFlight.Some?
    ensures PendingCells(b) == Cells(b.recoverable) + FrameCells(b.inFlight.value) + Cells(b.queued)
    ensures PendingCells(Finish(b, delivery))
         == if delivery == DefinitelyUnsent then PendingCells(b) else Cells(b.recoverable) + Cells(b.queued)
  {
    OneFrame(b.inFlight.value);
    CellsConcat(b.recoverable, [b.inFlight.value]);
    var c := Finish(b, delivery);
    assert InFlightFrames(c) == [] && InFlightFrames(b) == [b.inFlight.value];
  }

  lemma OneFrame(f: Frame)
    ensures Cells([f]) == FrameCells(f)
  {
    assert Cells([f]) == FrameCells(f) + Cells([]);
  }

  lemma StepKeeps(l: Ledger, capacity: nat, e: Event)
    requires Inv(l, capacity)
    ensures Inv(Step(l, capacity, e), capacity)
  {
    match e
    case Send(pane, bytes, connected) => SendKeeps(l, capacity, pane, bytes, connected);
    case Retry => RetryKeeps(l, capacity);
    case Take => TakeKeeps(l, capacity);
    case Answer(result) => AnswerKeeps(l, capacity, result);
  }

  lemma RetryKeeps(l: Ledger, capacity: nat)
    requires Inv(l, capacity)
    ensures Inv(Step(l, capacity, Retry), capacity)
  {
    hide Cells; hide Size;
    ReplayOk(l.buf, capacity);
    RetryPending(l.buf);
  }

  lemma TakeKeeps(l: Ledger, capacity: nat)
    requires Inv(l, capacity)
    ensures Inv(Step(l, capacity, Take), capacity)
  {
    if l.buf.inFlight.None? {
      BeginOk(l.buf, capacity);
      TakePending(l.buf);
    }
  }

  lemma AnswerKeeps(l: Ledger, capacity: nat, result: CallResult)
    requires Inv(l, capacity)
    ensures Inv(Step(l, capacity, Answer(result)), capacity)
  {
    if l.buf.inFlight.Some? {
      FinishOk(l.buf, capacity, Classify(result));
      AnswerConserves(l, capacity, result);
    }
  }

  lemma AnswerConserves(l: Ledger, capacity: nat, result: CallResult)
    requires Conserved(l) && l.buf.inFlight.Some?
    ensures Conserved(Step(l, capacity, Answer(result)))
  {
    hide Cells;
    AnswerPending(l.buf, Classify(result));
    var m := Step(l, capacity, Answer(result));
    var cells := FrameCells(l.buf.inFlight.value);
    if Classify(result) == DefinitelyUnsent {
      assert m == l.(buf := m.buf) && PendingCells(m.buf) == PendingCells(l.buf);
    } else {
      MoveOut(l.accepted, l.settled, Cells(l.buf.recoverable), cells, Cells(l.buf.queued));
      assert m.accepted == l.accepted && m.settled == l.settled + cells;
      assert Classify(result) == Delivered ==> multiset(m.delivered) == multiset(l.delivered) + multiset(cells);
      assert Classify(result) == Indeterminate ==> multiset(m.indeterminate) == multiset(l.indeterminate) + multiset(cells);
    }
  }

  lemma MoveOut(all: seq<Cell>, settled: seq<Cell>, a: seq<Cell>, b: seq<Cell>, c: seq<Cell>)
    requires multiset(all) == multiset(settled) + multiset(a + b + c)
    ensures multiset(all) == multiset(settled + b) + multiset(a + c)
    ensures multiset(settled + b) == multiset(settled) + multiset(b)
  {
  }

  lemma SendKeeps(l: Ledger, capacity: nat, pane: Uuid, bytes: seq<Byte>, connected: bool)
    requires Inv(l, capacity)
    ensures Inv(Step(l, capacity, Send(pane, bytes, connected)), capacity)
  {
    if SendOutcome(l.buf, capacity, bytes, connected).Ok? && bytes != [] {
      PushOk(l.buf, capacity, pane, bytes);
      SendPending(l, capacity, pane, bytes, connected);
      var m := Step(l, capacity, Send(pane, bytes, connected));
      var added := m.accepted[|l.accepted|..];
      assert m.accepted == l.accepted + added;
      assert multiset(PendingCells(m.buf)) == multiset(PendingCells(l.buf)) + multiset(added);
    }
  }

  lemma {:induction false} RunKeeps(l: Ledger, capacity: nat, events: seq<Event>)
    requires Inv(l, capacity)
    ensures Inv(Run(l, capacity, events), capacity)
    decreases |events|
  {
    if events != [] {
      StepKeeps(l, capacity, events[0]);
      RunKeeps(Step(l, capacity, events[0]), capacity, events[1..]);
    }
  }

  /** History only grows. */
  lemma {:induction false} RunExtends(l: Ledger, capacity: nat, events: seq<Event>)
    ensures var m := Run(l, capacity, events);
      l.accepted <= m.accepted && l.settled <= m.settled
      && l.delivered <= m.delivered && l.indeterminate <= m.indeterminate
    decreases |events|
  {
    if events != [] {
      RunExtends(Step(l, capacity, events[0]), capacity, events[1..]);
    }
  }

  ghost predicate Distinct(cells: seq<Cell>) {
    forall c :: multiset(cells)[c] <= 1
  }

  function Count(cells: seq<Cell>, c: Cell): nat {
    multiset(cells)[c]
  }

  /** In every run, every accepted byte is in exactly one place, and nothing else
      is anywhere. */
  lemma ExactlyOnePlace(capacity: nat, events: seq<Event>, c: Cell)
    requires Distinct(Run(START, capacity, events).accepted)
    ensures var l := Run(START, capacity, events);
      Count(l.delivered, c) + Count(l.indeterminate, c) + Count(Cells(l.buf.queued), c)
      + Count(Cells(InFlightFrames(l.buf)), c) + Count(Cells(l.buf.recoverable), c)
      == if c in l.accepted then 1 else 0
  {
    RunKeeps(START, capacity, events);
    var l := Run(START, capacity, events);
    assert c in l.accepted <==> c in multiset(l.accepted);
    assert multiset(l.accepted)[c] <= 1;
  }

  /** A settled byte is never queued, kept for retry or put in flight again, so
      an indeterminate byte is never delivered later and a delivered one never
      twice. */
  lemma SettledForGood(capacity: nat, before: seq<Event>, after: seq<Event>, c: Cell)
    requires Distinct(Run(START, capacity, before + after).accepted)
    requires c in Run(START, capacity, before).settled
    ensures var l := Run(START, capacity, before);
      var m := Run(START, capacity, before + after);
      && c !in PendingCells(m.buf)
      && Count(m.delivered, c) == Count(l.delivered, c)
      && Count(m.indeterminate, c) == Count(l.indeterminate, c)
  {
    var l := Run(START, capacity, before);
    var m := Run(START, capacity, before + after);
    RunConcat(START, capacity, before, after);
    RunKeeps(START, capacity, before);
    RunKeeps(START, capacity, before + after);
    RunExtends(l, capacity, after);
    CountPrefix(l.delivered, m.delivered, c);
    CountPrefix(l.indeterminate, m.indeterminate, c);
    CountPrefix(l.settled, m.settled, c);
    assert c in multiset(l.settled);
    assert multiset(m.accepted)[c] <= 1;
    assert c in PendingCells(m.buf) ==> c in multiset(PendingCells(m.buf));
  }

  lemma CountPrefix(a: seq<Cell>, b: seq<Cell>, c: Cell)
    requires a <= b
    ensures Count(a, c) <= Count(b, c)
  {
    assert b == a + b[|a|..];
  }

  lemma {:induction false} RunConcat(l: Ledger, capacity: nat, before: seq<Event>, after: seq<Event>)
    ensures Run(l, capacity, before + after) == Run(Run(l, capacity, before), capacity, after)
    decreases |before|
  {
    if before == [] {
      assert before + after == after;
    } else {
      assert (before + after)[1..] == before[1..] + after;
      RunConcat(Step(l, capacity, before[0]), capacity, before[1..], after);
    }
  }

  /** The byte budget: what is buffered is what is pending, within capacity, in
      frames the service accepts. */
  lemma BudgetKept(capacity: nat, events: seq<Event>)
    ensures var b := Run(START, capacity, events).buf;
      b.bufferedBytes == |PendingCells(b)| <= capacity && FramesOk(Pending(b))
  {
    RunKeeps(START, capacity, events);
    BufferBudget(Run(START, capacity, events).buf, capacity);
  }

  lemma BufferBudget(b: Buffer, capacity: nat)
    requires BufferOk(b, capacity)
    ensures b.bufferedBytes == |PendingCells(b)| <= capacity && FramesOk(Pending(b))
  {
    hide Cells; hide Size;
    CellsSize(b.recoverable);
    CellsSize(InFlightFrames(b));
    CellsSize(b.queued);
    assert |PendingCells(b)| == |Cells(b.recoverable)| + |Cells(InFlightFrames(b))| + |Cells(b.queued)|;
  }

  lemma {:induction false} CellsSize(frames: seq<Frame>)
    ensures |Cells(frames)| == Size(frames)
  {
    if frames != [] {
      CellsSize(frames[1..]);
    }
  }

  // ------------------------------------------------------------------- order

  /** `xs` is `ys` with elements left out. */
  ghost predicate Subsequence(xs: seq<Cell>, ys: seq<Cell>) {
    if xs == [] then true
    else if ys == [] then false
    else (xs[0] == ys[0] && Subsequence(xs[1..], ys[1..])) || Subsequence(xs, ys[1..])
  }

  lemma {:induction false} SubsequenceRefl(xs: seq<Cell>)
    ensures Subsequence(xs, xs)
  {
    if xs != [] {
      SubsequenceRefl(xs[1..]);
    }
  }

  lemma {:induction false} SubsequenceAppend(xs: seq<Cell>, ys: seq<Cell>, zs: seq<Cell>)
    requires Subsequence(xs, ys)
    ensures Subsequence(xs + zs, ys + zs)
    decreases |ys|
  {
    if xs == [] {
      SubsequenceSuffix(zs, ys);
      assert xs + zs == zs;
    } else {
      assert (ys + zs)[1..] == ys[1..] + zs && (xs + zs)[1..] == xs[1..] + zs;
      if xs[0] == ys[0] && Subsequence(xs[1..], ys[1..]) {
        SubsequenceAppend(xs[1..], ys[1..], zs);
      } else {
        SubsequenceAppend(xs, ys[1..], zs);
      }
    }
  }

  lemma {:induction false} SubsequenceSuffix(zs: seq<Cell>, ys: seq<Cell>)
    ensures Subsequence(zs, ys + zs)
    decreases |ys|
  {
    if ys == [] {
      SubsequenceRefl(zs);
      assert ys + zs == zs;
    } else {
      SubsequenceSuffix(zs, ys[1..]);
      assert (ys + zs)[1..] == ys[1..] + zs;
    }
  }

  lemma {:induction false} SubsequenceDrop(a: seq<Cell>, b: seq<Cell>, c: seq<Cell>, ys: seq<Cell>)
    requires Subsequence(a + b + c, ys)
    ensures Subsequence(a + c, ys)
    decreases |ys|
  {
    var xs := a + b + c;
    if a + c == [] {
    } else if xs[0] == ys[0] && Subsequence(xs[1..], ys[1..]) {
      if a != [] {
        assert xs[1..] == a[1..] + b + c && (a + c)[1..] == a[1..] + c;
        SubsequenceDrop(a[1..], b, c, ys[1..]);
      } else if b != [] {
        assert xs[1..] == [] + b[1..] + c && a + c == [] + c;
        SubsequenceDrop([], b[1..], c, ys[1..]);
      } else {
        assert xs == a + c;
      }
    } else {
      SubsequenceDrop(a, b, c, ys[1..]);
    }
  }

  /** A run in which the user retries only while nothing is in flight. */
  ghost predicate RetriesWhenIdle(l: Ledger, capacity: nat, events: seq<Event>)
    decreases |events|
  {
    events != [] ==>
      && (events[0].Retry? ==> l.buf.inFlight.None?)
      && RetriesWhenIdle(Step(l, capacity, events[0]), capacity, events[1..])
  }

  ghost predicate InOrder(l: Ledger) {
    Subsequence(PendingCells(l.buf), l.accepted)
  }

  lemma StepInOrder(l: Ledger, capacity: nat, e: Event)
    requires InOrder(l) && (e.Retry? ==> l.buf.inFlight.None?)
    ensures InOrder(Step(l, capacity, e))
  {
    hide Subsequence; hide Cells; hide Enqueue;
    match e
    case Send(pane, bytes, connected) =>
      SendPending(l, capacity, pane, bytes, connected);
      var m := Step(l, capacity, e);
      assert m.accepted == l.accepted + m.accepted[|l.accepted|..];
      SubsequenceAppend(PendingCells(l.buf), l.accepted, m.accepted[|l.accepted|..]);
    case Retry =>
      RetryIdlePending(l.buf);
    case Take =>
      if l.buf.inFlight.None? {
        TakePending(l.buf);
      }
    case Answer(result) =>
      if l.buf.inFlight.Some? {
        AnswerPending(l.buf, Classify(result));
        SubsequenceDrop(Cells(l.buf.recoverable), FrameCells(l.buf.inFlight.value), Cells(l.buf.queued), l.accepted);
      }
  }

  /** Pending bytes stay in the order they were accepted. */
  lemma {:induction false} AcceptanceOrder(l: Ledger, capacity: nat, events: seq<Event>)
    requires InOrder(l) && RetriesWhenIdle(l, capacity, events)
    ensures InOrder(Run(l, capacity, events))
    decreases |events|
  {
    if events != [] {
      StepInOrder(l, capacity, events[0]);
      AcceptanceOrder(Step(l, capacity, events[0]), capacity, events[1..]);
    }
  }

  /** The order of a retry is exact: it keeps the pending bytes in place if and
      only if nothing is in flight or nothing was recoverable. */
  lemma RetryKeepsOrderIff(l: Ledger, capacity: nat)
    requires BufferOk(l.buf, capacity) && Distinct(PendingCells(l.buf))
    ensures PendingCells(Step(l, capacity, Retry).buf) == PendingCells(l.buf)
       <==> l.buf.inFlight.None? || l.buf.recoverable == []
  {
    RetryPending(l.buf);
    var b := l.buf;
    if b.inFlight.Some? && b.recoverable != [] {
      var f, r := InFlightFrames(b), b.recoverable;
      assert f[0] in f && r[0] in r;
      assert Cells(f) == FrameCells(f[0]) + Cells(f[1..]) && Cells(r) == FrameCells(r[0]) + Cells(r[1..]);
      TwiceIsNotDistinct(Cells(r), Cells(f), Cells(b.queued));
      assert PendingCells(b)[0] == Cells(r)[0] && PendingCells(Replay(b))[0] == Cells(f)[0];
    } else {
      RetryIdlePending(b);
    }
  }

  lemma TwiceIsNotDistinct(a: seq<Cell>, b: seq<Cell>, c: seq<Cell>)
    requires a != [] && b != [] && Distinct(a + b + c)
    ensures a[0] != b[0]
  {
    var all := a + b + c;
    assert multiset(all) == multiset(a) + multiset(b) + multiset(c);
    assert a[0] in multiset(a) && b[0] in multiset(b);
    assert multiset(all)[a[0]] <= 1;
  }

  /** A run in which the service never reports a frame as definitely unsent. */
  predicate NothingUnsent(events: seq<Event>) {
    forall e :: e in events && e.Answer? ==> !e.result.UnsentError?
  }

  ghost predicate Fifo(l: Ledger) {
    l.buf.recoverable == [] && l.accepted == l.settled + PendingCells(l.buf)
  }

  lemma StepFifo(l: Ledger, capacity: nat, e: Event)
    requires Fifo(l) && (e.Answer? ==> !e.result.UnsentError?)
    ensures Fifo(Step(l, capacity, e))
  {
    match e
    case Send(pane, bytes, connected) => SendFifo(l, capacity, pane, bytes, connected);
    case Retry =>
    case Take =>
      if l.buf.inFlight.None? {
        TakePending(l.buf);
      }
    case Answer(result) => AnswerFifo(l, capacity, result);
  }

  lemma SendFifo(l: Ledger, capacity: nat, pane: Uuid, bytes: seq<Byte>, connected: bool)
    requires Fifo(l)
    ensures Fifo(Step(l, capacity, Send(pane, bytes, connected)))
  {
    SendPending(l, capacity, pane, bytes, connected);
    var m := Step(l, capacity, Send(pane, bytes, connected));
    Prepend(l.accepted, m.accepted, l.settled, PendingCells(l.buf));
  }

  lemma Prepend(all: seq<Cell>, more: seq<Cell>, a: seq<Cell>, b: seq<Cell>)
    requires all == a + b && all <= more
    ensures more == a + (b + more[|all|..])
  {
  }

  lemma AnswerFifo(l: Ledger, capacity: nat, result: CallResult)
    requires Fifo(l) && !result.UnsentError?
    ensures Fifo(Step(l, capacity, Answer(result)))
  {
    if l.buf.inFlight.Some? {
      AnswerPending(l.buf, Classify(result));
      var cells := FrameCells(l.buf.inFlight.value);
      SettleFirst(l.accepted, l.settled, Cells(l.buf.recoverable), cells, Cells(l.buf.queued));
    }
  }

  lemma SettleFirst(all: seq<Cell>, settled: seq<Cell>, a: seq<Cell>, b: seq<Cell>, c: seq<Cell>)
    requires a == [] && all == settled + (a + b + c)
    ensures all == (settled + b) + (a + c)
  {
  }

  /** First in, first out: without definitely-unsent answers, what has left the
      buffer followed by what is still in it is exactly what was accepted. */
  lemma {:induction false} FirstInFirstOut(l: Ledger, capacity: nat, events: seq<Event>)
    requires Fifo(l) && NothingUnsent(events)
    ensures Fifo(Run(l, capacity, events))
    decreases |events|
  {
    if events != [] {
      assert events[0] in events;
      StepFifo(l, capacity, events[0]);
      FirstInFirstOut(Step(l, capacity, events[0]), capacity, events[1..]);
    }
  }
}
