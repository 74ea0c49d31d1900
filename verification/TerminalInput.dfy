/**
 The terminal-input lane of pipeline.rs: a byte-bounded, coalescing queue whose
 frames are delivered at most once.

 `Buffer` and the functions on it say what each critical section does;
 `InputLane` is the mutable object that does it. A `Ledger` adds the history of
 accepted and settled bytes, and the theorems quantify over every sequence of
 events.
 */
module TerminalInput {
  import opened Common

  const FRAME_BYTES: nat := 65536

  /** The lane never inspects a byte, so a run whose bytes are pairwise distinct
      stands for a run whose bytes carry serial numbers. */
  type Byte = int

  datatype Frame = Frame(pane: Uuid, bytes: seq<Byte>)

  datatype Delivery = Delivered | DefinitelyUnsent | Indeterminate

  datatype CallResult = Ack | OtherResponse | UnsentError | OtherError

  datatype SendError = FrameTooLarge | BufferFull | WorkerUnavailable

  datatype Buffer = Buffer(queued: seq<Frame>, inFlight: Option<Frame>, recoverable: seq<Frame>, bufferedBytes: int)

  const EMPTY: Buffer := Buffer([], None, [], 0)

  // ---------------------------------------------------------------- operations

  function Classify(result: CallResult): Delivery {
    match result
    case Ack => Delivered
    case UnsentError => DefinitelyUnsent
    case OtherResponse => Indeterminate
    case OtherError => Indeterminate
  }

  predicate Coalesces(queued: seq<Frame>, pane: Uuid, bytes: seq<Byte>) {
    queued != [] && queued[|queued| - 1].pane == pane
    && |queued[|queued| - 1].bytes| + |bytes| <= FRAME_BYTES
  }

  /** Bytes join the last waiting frame if it is for the same pane and stays small enough. */
  ghost predicate JoinsLast(queued: seq<Frame>, pane: Uuid, bytes: seq<Byte>) {
    exists k :: 0 <= k < |queued| == k + 1 && queued[k].pane == pane && |queued[k].bytes + bytes| <= 65536
  }

  function Enqueue(queued: seq<Frame>, pane: Uuid, bytes: seq<Byte>): seq<Frame> {
    if Coalesces(queued, pane, bytes) then
      var last := queued[|queued| - 1];
      queued[..|queued| - 1] + [Frame(pane, last.bytes + bytes)]
    else
      queued + [Frame(pane, bytes)]
  }

  lemma EnqueueJoins(queued: seq<Frame>, pane: Uuid, bytes: seq<Byte>)
    ensures |Enqueue(queued, pane, bytes)| == |queued| + if JoinsLast(queued, pane, bytes) then 0 else 1
  {
    if queued != [] {
      var last := queued[|queued| - 1];
      assert |last.bytes + bytes| == |last.bytes| + |bytes|;
    }
  }

  function Push(b: Buffer, pane: Uuid, bytes: seq<Byte>): Buffer {
    b.(queued := Enqueue(b.queued, pane, bytes), bufferedBytes := b.bufferedBytes + |bytes|)
  }

  /** Takes the latest push back off the end of the queue. `None` is the panic
      of a rollback whose coalesced frame is no longer there. */
  function Unqueue(queued: seq<Frame>, coalesced: bool, previousLastLen: nat): Option<seq<Frame>> {
    if queued == [] then
      if coalesced then None else Some([])
    else
      var n := |queued| - 1;
      if coalesced && previousLastLen <= |queued[n].bytes| then
        Some(queued[..n] + [Frame(queued[n].pane, queued[n].bytes[..previousLastLen])])
      else if coalesced then Some(queued)
      else Some(queued[..n])
  }

  function LastLen(queued: seq<Frame>): nat {
    if queued == [] then 0 else |queued[|queued| - 1].bytes|
  }

  lemma UnqueueUndoesEnqueue(queued: seq<Frame>, pane: Uuid, bytes: seq<Byte>)
    ensures Unqueue(Enqueue(queued, pane, bytes), Coalesces(queued, pane, bytes), LastLen(queued)) == Some(queued)
  {
    var after := Enqueue(queued, pane, bytes);
    var n := |after| - 1;
    if Coalesces(queued, pane, bytes) {
      assert after[n].bytes[..LastLen(queued)] == queued[n].bytes;
      assert after[..n] == queued[..n] && queued == queued[..n] + [queued[n]];
    } else {
      assert after[..n] == queued;
    }
  }

  /** Why a send is refused before it touches the buffer, if it is. */
  function Refusal(b: Buffer, capacity: nat, bytes: seq<Byte>): Option<SendError> {
    if |bytes| > FRAME_BYTES then Some(FrameTooLarge)
    else if bytes != [] && b.bufferedBytes + |bytes| > capacity then Some(BufferFull)
    else None
  }

  function SendOutcome(b: Buffer, capacity: nat, bytes: seq<Byte>, connected: bool): Result<(), SendError> {
    match Refusal(b, capacity, bytes)
    case Some(e) => Err(e)
    case None => if bytes != [] && !connected then Err(WorkerUnavailable) else Ok(())
  }

  function Begin(b: Buffer): Buffer {
    if b.queued == [] then b else b.(queued := b.queued[1..], inFlight := Some(b.queued[0]))
  }

  function Finish(b: Buffer, delivery: Delivery): Buffer
    requires b.inFlight.Some?
  {
    var frame := b.inFlight.value;
    if delivery == DefinitelyUnsent then b.(inFlight := None, recoverable := b.recoverable + [frame])
    else b.(inFlight := None, bufferedBytes := b.bufferedBytes - |frame.bytes|)
  }

  function Replay(b: Buffer): Buffer {
    b.(queued := b.recoverable + b.queued, recoverable := [])
  }

  // ------------------------------------------------------------ what is pending

  function InFlightFrames(b: Buffer): seq<Frame> {
    if b.inFlight.Some? then [b.inFlight.value] else []
  }

  /** Everything accepted and not yet settled, oldest class first. */
  function Pending(b: Buffer): seq<Frame> {
    b.recoverable + InFlightFrames(b) + b.queued
  }

  function Size(frames: seq<Frame>): nat {
    if frames == [] then 0 else |frames[0].bytes| + Size(frames[1..])
  }

  ghost predicate FramesOk(frames: seq<Frame>) {
    forall i :: 0 <= i < |frames| ==> 1 <= |frames[i].bytes| <= FRAME_BYTES
  }

  /** The accounting every critical section relies on and restores. */
  ghost predicate BufferOk(b: Buffer, capacity: nat) {
    && FramesOk(b.recoverable) && FramesOk(InFlightFrames(b)) && FramesOk(b.queued)
    && b.bufferedBytes == Size(b.recoverable) + Size(InFlightFrames(b)) + Size(b.queued)
    && b.bufferedBytes <= capacity
  }

  lemma {:induction false} SizeConcat(a: seq<Frame>, b: seq<Frame>)
    ensures Size(a + b) == Size(a) + Size(b)
  {
    if a == [] {
      assert a + b == b;
    } else {
      assert (a + b)[1..] == a[1..] + b;
      SizeConcat(a[1..], b);
    }
  }

  lemma EnqueueSize(queued: seq<Frame>, pane: Uuid, bytes: seq<Byte>)
    requires FramesOk(queued) && 1 <= |bytes| <= FRAME_BYTES
    ensures Size(Enqueue(queued, pane, bytes)) == Size(queued) + |bytes|
    ensures FramesOk(Enqueue(queued, pane, bytes))
  {
    if Coalesces(queued, pane, bytes) {
      var n := |queued| - 1;
      SizeConcat(queued[..n], [queued[n]]);
      assert queued == queued[..n] + [queued[n]];
      SizeConcat(queued[..n], [Frame(pane, queued[n].bytes + bytes)]);
    } else {
      SizeConcat(queued, [Frame(pane, bytes)]);
    }
  }

  lemma PushOk(b: Buffer, capacity: nat, pane: Uuid, bytes: seq<Byte>)
    requires BufferOk(b, capacity) && bytes != [] && Refusal(b, capacity, bytes).None?
    ensures BufferOk(Push(b, pane, bytes), capacity)
  {
    EnqueueSize(b.queued, pane, bytes);
  }

  lemma BeginOk(b: Buffer, capacity: nat)
    requires BufferOk(b, capacity) && b.inFlight.None?
    ensures BufferOk(Begin(b), capacity)
  {
    if b.queued != [] {
      assert b.queued == [b.queued[0]] + b.queued[1..];
    }
  }

  lemma FinishOk(b: Buffer, capacity: nat, delivery: Delivery)
    requires BufferOk(b, capacity) && b.inFlight.Some?
    ensures BufferOk(Finish(b, delivery), capacity)
  {
    SizeConcat(b.recoverable, [b.inFlight.value]);
  }

  lemma ReplayOk(b: Buffer, capacity: nat)
    requires BufferOk(b, capacity)
    ensures BufferOk(Replay(b), capacity)
  {
    SizeConcat(b.recoverable, b.queued);
  }

  // ------------------------------------------------------------ the mutable lane

  class InputLane {
    var queued: seq<Frame>
    var inFlight: Option<Frame>
    var recoverable: seq<Frame>
    var bufferedBytes: int
    const capacityBytes: nat

    ghost function Contents(): Buffer
      reads this
    {
      Buffer(queued, inFlight, recoverable, bufferedBytes)
    }

    ghost predicate Valid()
      reads this
    {
      BufferOk(Contents(), capacityBytes)
    }

    constructor (capacityBytes: nat)
      requires capacityBytes > 0
      ensures Valid() && Contents() == EMPTY && this.capacityBytes == capacityBytes
    {
      queued, inFlight, recoverable, bufferedBytes := [], None, [], 0;
      this.capacityBytes := capacityBytes;
    }

    /** `connected` says whether the worker still holds the receiving end of the
        wake channel when the token is sent. */
    method TrySend(pane: Uuid, bytes: seq<Byte>, connected: bool) returns (r: Result<(), SendError>)
      requires Valid()
      modifies this
      ensures Valid()
      ensures r == SendOutcome(old(Contents()), capacityBytes, bytes, connected)
      // The limits: a frame of the service, the budget of the lane, and then a live worker.
      ensures r == Err(FrameTooLarge) <==> |bytes| > 65536
      ensures r == Err(BufferFull) <==> 0 < |bytes| <= 65536 && old(bufferedBytes) + |bytes| > capacityBytes
      ensures r == Err(WorkerUnavailable) <==>
        0 < |bytes| <= 65536 && old(bufferedBytes) + |bytes| <= capacityBytes && !connected
      ensures r.Err? || bytes == [] ==> Contents() == old(Contents())
      ensures r.Ok? && bytes != [] ==> Contents() == Push(old(Contents()), pane, bytes)
      ensures r.Ok? && bytes != [] ==> |queued| == |old(queued)| + if JoinsLast(old(queued), pane, bytes) then 0 else 1
    {
      hide BufferOk; hide Enqueue; hide Unqueue; hide Coalesces; hide LastLen;
      if |bytes| > FRAME_BYTES {
        return Err(FrameTooLarge);
      }
      if bytes == [] {
        return Ok(());
      }
      if bufferedBytes + |bytes| > capacityBytes {
        return Err(BufferFull);
      }
      PushOk(Contents(), capacityBytes, pane, bytes);
      EnqueueJoins(queued, pane, bytes);
      var previousLastLen := LastLen(queued);
      var coalesced := Coalesces(queued, pane, bytes);
      UnqueueUndoesEnqueue(queued, pane, bytes);
      queued := Enqueue(queued, pane, bytes);
      bufferedBytes := bufferedBytes + |bytes|;
      if !connected {
        bufferedBytes := bufferedBytes - |bytes|;
        queued := Unqueue(queued, coalesced, previousLastLen).value;
        return Err(WorkerUnavailable);
      }
      return Ok(());
    }

    method ReplayRecoverable() returns (replayed: bool)
      requires Valid()
      modifies this
      ensures Valid()
      ensures replayed <==> old(recoverable) != []
      ensures Contents() == if replayed then Replay(old(Contents())) else old(Contents())
    {
      if recoverable == [] {
        return false;
      }
      ReplayOk(Contents(), capacityBytes);
      queued := recoverable + queued;
      recoverable := [];
      return true;
    }

    method BeginTerminalInput() returns (next: Option<Frame>)
      requires Valid() && inFlight.None?
      modifies this
      ensures Valid() && Contents() == Begin(old(Contents()))
      ensures next == inFlight && (next.None? <==> old(queued) == [])
    {
      BeginOk(Contents(), capacityBytes);
      if queued == [] {
        return None;
      }
      next := Some(queued[0]);
      queued := queued[1..];
      inFlight := next;
    }

    method FinishTerminalInput(input: Frame, delivery: Delivery)
      requires Valid() && inFlight == Some(input)
      modifies this
      ensures Valid() && Contents() == Finish(old(Contents()), delivery)
    {
      FinishOk(Contents(), capacityBytes, delivery);
      inFlight := None;
      if delivery == DefinitelyUnsent {
        recoverable := recoverable + [input];
      } else {
        bufferedBytes := bufferedBytes - |input.bytes|;
      }
    }

    /** One turn of the worker's inner loop. */
    method DeliverNext(result: CallResult) returns (sent: Frame)
      requires Valid() && inFlight.None? && queued != []
      modifies this
      ensures Valid() && inFlight.None?
      ensures sent == old(queued)[0] && queued == old(queued)[1..]
      // Kept for a retry exactly when the service certainly never got it; settled otherwise.
      ensures result.UnsentError? ==> recoverable == old(recoverable) + [sent] && bufferedBytes == old(bufferedBytes)
      ensures !result.UnsentError? ==>
        recoverable == old(recoverable) && bufferedBytes == old(bufferedBytes) - |sent.bytes|
    {
      var next := BeginTerminalInput();
      sent := next.value;
      FinishTerminalInput(sent, Classify(result));
    }

    /** One wake-up of the worker with nothing sent meanwhile: frames leave in
        queue order until the queue is empty. `results` is what the service
        answers; frames it definitely never got are kept, the rest are settled. */
    method Drain(results: seq<CallResult>) returns (sent: seq<Frame>)
      requires Valid() && inFlight.None? && |results| == |queued|
      modifies this
      ensures Valid() && inFlight.None? && queued == []
      ensures sent == old(queued)
      ensures recoverable == old(recoverable) + Unsent(sent, results, |sent|)
      ensures (forall i :: 0 <= i < |results| ==> !results[i].UnsentError?) ==> recoverable == old(recoverable)
      ensures (forall i :: 0 <= i < |results| ==> results[i].UnsentError?) ==> recoverable == old(recoverable) + sent
    {
      hide BufferOk; hide Size;
      sent := [];
      ghost var all, kept := queued, recoverable;
      var i := 0;
      while queued != []
        invariant Valid() && inFlight.None?
        invariant 0 <= i <= |all| == |results| && queued == all[i..] && sent == all[..i]
        invariant recoverable == kept + Unsent(all, results, i)
        decreases |queued|
      {
        var next := DeliverNext(results[i]);
        Associative(kept, Unsent(all, results, i), Kept(next, results[i]));
        sent := sent + [next];
        i := i + 1;
      }
      if forall i :: 0 <= i < |results| ==> !results[i].UnsentError? {
        NoneUnsent(all, results, |all|);
      } else if forall i :: 0 <= i < |results| ==> results[i].UnsentError? {
        AllUnsent(all, results, |all|);
      }
    }
  }

  function Kept(frame: Frame, result: CallResult): seq<Frame> {
    if result.UnsentError? then [frame] else []
  }

  /** The frames of one drain that are kept for an explicit retry. */
  function Unsent(frames: seq<Frame>, results: seq<CallResult>, n: nat): seq<Frame>
    requires n <= |frames| == |results|
  {
    if n == 0 then [] else Unsent(frames, results, n - 1) + Kept(frames[n - 1], results[n - 1])
  }

  lemma {:induction false} NoneUnsent(frames: seq<Frame>, results: seq<CallResult>, n: nat)
    requires n <= |frames| == |results| && forall i :: 0 <= i < n ==> !results[i].UnsentError?
    ensures Unsent(frames, results, n) == []
  {
    if n > 0 {
      NoneUnsent(frames, results, n - 1);
    }
  }

  lemma {:induction false} AllUnsent(frames: seq<Frame>, results: seq<CallResult>, n: nat)
    requires n <= |frames| == |results| && forall i :: 0 <= i < n ==> results[i].UnsentError?
    ensures Unsent(frames, results, n) == frames[..n]
  {
    if n > 0 {
      AllUnsent(frames, results, n - 1);
      assert frames[..n] == frames[..n - 1] + [frames[n - 1]];
    }
  }
}
