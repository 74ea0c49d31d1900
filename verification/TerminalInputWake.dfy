/**
 The same lane at the granularity of its critical sections: a sender locks the
 buffer, unlocks it, and only then sends a wake token; the worker drains the
 queue and only then waits for a token. Steps of any number of senders and the
 one worker interleave freely.
 */
module TerminalInputWake {
  import opened Common
  import opened TerminalInput

  /** A futures channel of capacity 1 with one sender retains two tokens. */
  const TOKENS: nat := 2

  datatype SenderState =
    | Idle
    | Pushed(length: nat, coalesced: bool, previousLastLen: nat)
    | Replayed

  datatype Worker = Waiting | Draining | Calling | Gone

  datatype System = System(buf: Buffer, senders: map<nat, SenderState>, tokens: nat, worker: Worker, panicked: bool)

  datatype Move =
    | SenderPush(sender: nat, pane: Uuid, bytes: seq<Byte>)
    | SenderReplay(sender: nat)
    | SenderWake(sender: nat)
    | WorkerWake
    | WorkerTake
    | WorkerFinish(result: CallResult, appGone: bool)

  function SenderOf(s: System, id: nat): SenderState {
    if id in s.senders then s.senders[id] else Idle
  }

  /** The second critical section of a refused send. */
  function Rollback(b: Buffer, length: nat, coalesced: bool, previousLastLen: nat): Option<Buffer> {
    match Unqueue(b.queued, coalesced, previousLastLen)
    case None => None
    case Some(queued) => Some(b.(queued := queued, bufferedBytes := b.bufferedBytes - length))
  }

  /** Moves that are not enabled leave the system as it is. */
  function Next(s: System, capacity: nat, move: Move): System {
    match move
    case SenderPush(id, pane, bytes) =>
      if SenderOf(s, id) != Idle || bytes == [] || Refusal(s.buf, capacity, bytes).Some? then s
      else
        s.(buf := Push(s.buf, pane, bytes),
           senders := s.senders[id := Pushed(|bytes|, Coalesces(s.buf.queued, pane, bytes), LastLen(s.buf.queued))])
    case SenderReplay(id) =>
      if SenderOf(s, id) != Idle || s.buf.recoverable == [] then s
      else s.(buf := Replay(s.buf), senders := s.senders[id := Replayed])
    case SenderWake(id) =>
      var idle := s.(senders := s.senders[id := Idle]);
      if SenderOf(s, id) == Idle then s
      else if s.worker != Gone then idle.(tokens := if s.tokens < TOKENS then s.tokens + 1 else s.tokens)
      else (
        match SenderOf(s, id)
        case Pushed(length, coalesced, previousLastLen) =>
          (match Rollback(s.buf, length, coalesced, previousLastLen)
           case None => idle.(panicked := true)
           case Some(b) => idle.(buf := b))
        case _ => idle
      )
    case WorkerWake =>
      if s.worker == Waiting && s.tokens > 0 then s.(worker := Draining, tokens := s.tokens - 1) else s
    case WorkerTake =>
      if s.worker != Draining || s.buf.inFlight.Some? then s
      else s.(buf := Begin(s.buf), worker := if s.buf.queued == [] then Waiting else Calling)
    case WorkerFinish(result, appGone) =>
      if s.worker != Calling || s.buf.inFlight.None? then s
      else s.(buf := Finish(s.buf, Classify(result)), worker := if appGone then Gone else Draining)
  }

  function Moves(s: System, capacity: nat, moves: seq<Move>): System
    decreases |moves|
  {
    if moves == [] then s else Moves(Next(s, capacity, moves[0]), capacity, moves[1..])
  }

  const INITIAL: System := System(EMPTY, map[], 0, Waiting, false)

  /** Some sender has changed the queue and is about to send a token. */
  ghost predicate TokenOwed(s: System) {
    exists id :: id in s.senders && s.senders[id] != Idle
  }

  ghost predicate WakeInv(s: System) {
    && (s.worker == Waiting && s.buf.queued != [] ==> s.tokens > 0 || TokenOwed(s))
    && (s.worker == Calling <==> s.buf.inFlight.Some? && s.worker != Gone)
    && s.tokens <= TOKENS
  }

  lemma NextKeepsWake(s: System, capacity: nat, move: Move)
    requires WakeInv(s)
    ensures WakeInv(Next(s, capacity, move))
  {
    var t := Next(s, capacity, move);
    match move
    case SenderPush(id, pane, bytes) =>
      assert t == s || t.senders[id] != Idle;
    case SenderReplay(id) =>
      assert t == s || t.senders[id] != Idle;
    case SenderWake(id) =>
      if SenderOf(s, id) == Idle && TokenOwed(s) {
        var other :| other in s.senders && s.senders[other] != Idle;
        assert t.senders[other] != Idle;
      }
    case _ =>
      if TokenOwed(s) {
        var other :| other in s.senders && s.senders[other] != Idle;
        assert other in t.senders && t.senders[other] != Idle;
      }
  }

  lemma {:induction false} MovesKeepWake(s: System, capacity: nat, moves: seq<Move>)
    requires WakeInv(s)
    ensures WakeInv(Moves(s, capacity, moves))
    decreases |moves|
  {
    if moves != [] {
      NextKeepsWake(s, capacity, moves[0]);
      MovesKeepWake(Next(s, capacity, moves[0]), capacity, moves[1..]);
    }
  }

  /** No lost wake-up: whatever the interleaving, a worker that waits while
      something is queued has a token waiting for it, or a sender about to send
      one. */
  lemma NoLostWakeup(capacity: nat, moves: seq<Move>)
    ensures var s := Moves(INITIAL, capacity, moves);
      s.worker == Waiting && s.buf.queued != [] ==> s.tokens > 0 || TokenOwed(s)
  {
    MovesKeepWake(INITIAL, capacity, moves);
  }

  // ---------------------------------------------------------- refused sends

  /** What the worker may do between a push and its rollback. */
  datatype WorkerMove = TakeNext | Settle(result: CallResult)

  function WorkerStep(b: Buffer, move: WorkerMove): Buffer {
    match move
    case TakeNext => if b.inFlight.Some? then b else Begin(b)
    case Settle(result) => if b.inFlight.None? then b else Finish(b, Classify(result))
  }

  function WorkerRun(b: Buffer, moves: seq<WorkerMove>): Buffer
    decreases |moves|
  {
    if moves == [] then b else WorkerRun(WorkerStep(b, moves[0]), moves[1..])
  }

  lemma {:induction false} WorkerRunOk(b: Buffer, capacity: nat, moves: seq<WorkerMove>)
    requires BufferOk(b, capacity)
    ensures BufferOk(WorkerRun(b, moves), capacity)
    decreases |moves|
  {
    hide BufferOk;
    if moves != [] {
      match moves[0] {
        case TakeNext => if b.inFlight.None? { BeginOk(b, capacity); }
        case Settle(result) => if b.inFlight.Some? { FinishOk(b, capacity, Classify(result)); }
      }
      WorkerRunOk(WorkerStep(b, moves[0]), capacity, moves[1..]);
    }
  }

  /** `pushed` is `base` with one push still at the end of its queue. */
  ghost predicate StillQueued(base: Buffer, pushed: Buffer, length: nat, coalesced: bool, previousLastLen: nat) {
    && pushed.inFlight == base.inFlight && pushed.recoverable == base.recoverable
    && pushed.bufferedBytes == base.bufferedBytes + length
    && pushed.queued != []
    && Unqueue(pushed.queued, coalesced, previousLastLen) == Some(base.queued)
    && |pushed.queued| == |base.queued| + (if coalesced then 0 else 1)
  }

  lemma {:induction false} RollbackAfterWorker(
    base: Buffer, pushed: Buffer, moves: seq<WorkerMove>, length: nat, coalesced: bool, previousLastLen: nat)
    requires StillQueued(base, pushed, length, coalesced, previousLastLen)
    requires WorkerRun(pushed, moves).queued != []
    ensures Rollback(WorkerRun(pushed, moves), length, coalesced, previousLastLen) == Some(WorkerRun(base, moves))
    decreases |moves|
  {
    if moves != [] {
      var next := WorkerStep(pushed, moves[0]);
      QueueOnlyShrinks(next, moves[1..]);
      if moves[0].TakeNext? && pushed.inFlight.None? {
        UnqueueFront(base.queued, pushed.queued, coalesced, previousLastLen);
      }
      RollbackAfterWorker(WorkerStep(base, moves[0]), next, moves[1..], length, coalesced, previousLastLen);
    }
  }

  lemma UnqueueFront(base: seq<Frame>, pushed: seq<Frame>, coalesced: bool, previousLastLen: nat)
    requires |pushed| >= 2 && Unqueue(pushed, coalesced, previousLastLen) == Some(base)
    ensures base != [] && base[0] == pushed[0]
    ensures Unqueue(pushed[1..], coalesced, previousLastLen) == Some(base[1..])
  {
    var n := |pushed| - 1;
    assert pushed[1..][..n - 1] == pushed[..n][1..];
    assert pushed[1..][n - 1] == pushed[n];
    assert base[1..] == if |base| == n then pushed[..n][1..] else pushed[..n][1..] + [base[n]];
  }

  lemma {:induction false} QueueOnlyShrinks(b: Buffer, moves: seq<WorkerMove>)
    ensures |WorkerRun(b, moves).queued| <= |b.queued|
    decreases |moves|
  {
    if moves != [] {
      QueueOnlyShrinks(WorkerStep(b, moves[0]), moves[1..]);
    }
  }

  /** A refused send restores the buffer exactly — to what the worker alone would
      have made of it — if and only if the queue is not empty when the rollback
      takes the lock. The lane runs both sides on one thread, so there the worker
      makes no move in between and the condition always holds. */
  lemma RollbackExactIff(b: Buffer, capacity: nat, pane: Uuid, bytes: seq<Byte>, moves: seq<WorkerMove>)
    requires BufferOk(b, capacity) && bytes != [] && Refusal(b, capacity, bytes).None?
    ensures var after := WorkerRun(Push(b, pane, bytes), moves);
      Rollback(after, |bytes|, Coalesces(b.queued, pane, bytes), LastLen(b.queued)) == Some(WorkerRun(b, moves))
      <==> after.queued != []
  {
    var pushed := Push(b, pane, bytes);
    var after := WorkerRun(pushed, moves);
    var coalesced, previous := Coalesces(b.queued, pane, bytes), LastLen(b.queued);
    if after.queued != [] {
      UnqueueUndoesEnqueue(b.queued, pane, bytes);
      RollbackAfterWorker(b, pushed, moves, |bytes|, coalesced, previous);
    } else {
      PushOk(b, capacity, pane, bytes);
      WorkerRunOk(pushed, capacity, moves);
      WorkerRunOk(b, capacity, moves);
    }
  }

  /** The failing case exists: one byte, taken and kept for retry before the
      rollback, is reported as refused and yet remains to be replayed. */
  lemma RefusedByteCanBeKept()
    ensures var after := WorkerRun(Push(EMPTY, 1, [7]), [TakeNext, Settle(UnsentError)]);
      && Rollback(after, 1, false, 0) == Some(Buffer([], None, [Frame(1, [7])], 0))
      && WorkerRun(EMPTY, [TakeNext, Settle(UnsentError)]) == EMPTY
  {
    var moves: seq<WorkerMove> := [TakeNext, Settle(UnsentError)];
    assert moves[1..] == [Settle(UnsentError)];
    var b := Push(EMPTY, 1, [7]);
    assert b.queued == [Frame(1, [7])];
    assert WorkerStep(WorkerStep(b, TakeNext), Settle(UnsentError)) == Buffer([], None, [Frame(1, [7])], 1);
    assert WorkerRun(WorkerStep(WorkerStep(b, TakeNext), Settle(UnsentError)), []) == Buffer([], None, [Frame(1, [7])], 1);
  }
}
