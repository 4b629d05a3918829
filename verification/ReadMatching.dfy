/**
 How `PyMongoProtocol` in pymongo/network_layer.py pairs arriving frames with reads: the futures,
 the two queues `_pending_messages` and `_done_messages`, cancellation and closing, as the atomic
 steps between awaits.  Reads are issued one at a time, as an operation owns its connection.
 */
module ReadMatching {

  import opened Bytes
  import opened Framing

  datatype Future = Waiting | Message(frame: Frame) | Nothing | Failed | Cancelled

  /** The task inside `read`, if any. */
  datatype Task = Idle | Awaiting(fut: nat, request: Option<int>, cancelRequested: bool)

  datatype Outcome = Returned(frame: Frame) | Raised

  /** Futures are named by their place in `futs`.  `requests[j]` is what read number j asked for,
      `outcomes[j]` is how it ended, `cancelled` names the reads that were cancelled, and `frames[j]` is
      frame number j as it arrived.  `closing` is the transport's own state. */
  datatype State = State(futs: seq<Future>, pending: seq<nat>, done: seq<nat>, task: Task,
                         outcomes: seq<Outcome>, frames: seq<Frame>, closing: bool, lost: bool,
                         requests: seq<Option<int>>, cancelled: set<nat>)

  const INITIAL: State := State([], [], [], Idle, [], [], false, false, [], {})

  /** What awaiting a finished future gives, with the check of the response id. */
  function Settle(fut: Future, request: Option<int>): (r: Outcome)
  {
    if fut.Message? && (request.None? || request.value == fut.frame.responseTo) then Returned(fut.frame) else Raised
  }

  function WithoutFirst(s: seq<nat>, x: nat): (r: seq<nat>)
  {
    if s == [] then [] else if s[0] == x then s[1..] else [s[0]] + WithoutFirst(s[1..], x)
  }

  predicate InRange(s: State)
  {
    && (forall i :: 0 <= i < |s.pending| ==> s.pending[i] < |s.futs|)
    && (forall i :: 0 <= i < |s.done| ==> s.done[i] < |s.futs|)
    && (s.task.Awaiting? ==> s.task.fut < |s.futs|)
  }

  // ---- steps ----------------------------------------------------------------------------

  /** `read` up to its await. */
  function StartRead(s: State, request: Option<int>): (r: State)
    requires InRange(s)
  {
    var t := s.(requests := s.requests + [request]);
    if s.done != [] then
      t.(done := s.done[1..], outcomes := s.outcomes + [Settle(s.futs[s.done[0]], request)])
    else if s.closing then
      t.(outcomes := s.outcomes + [Raised])
    else
      t.(futs := s.futs + [Waiting], pending := s.pending + [|s.futs|],
         task := Awaiting(|s.futs|, request, false))
  }

  /** The reading task is cancelled. */
  function CancelRead(s: State): (r: State)
    requires InRange(s) && s.task.Awaiting?
  {
    var f := s.task.fut;
    var t := s.(cancelled := s.cancelled + {|s.outcomes|});
    if s.futs[f].Waiting? then t.(futs := s.futs[f := Cancelled])
    else t.(task := s.task.(cancelRequested := true))
  }

  /** `read` after its await. */
  function ResumeRead(s: State): (r: State)
    requires InRange(s) && s.task.Awaiting?
  {
    var f := s.task.fut;
    s.(done := WithoutFirst(s.done, f), task := Idle,
       outcomes := s.outcomes + [if s.task.cancelRequested then Raised else Settle(s.futs[f], s.task.request)])
  }

  /** `_resolve_pending_messages`: the pending queue is left as it is. */
  function Resolve(s: State, value: Future): (r: State)
  {
    s.(futs := seq(|s.futs|, i requires 0 <= i < |s.futs| =>
                if i in s.pending && s.futs[i].Waiting? then value else s.futs[i]),
       done := s.done + s.pending)
  }

  function Close(s: State, value: Future): (r: State)
  {
    Resolve(s, value).(closing := true, lost := true)
  }

  /** A whole frame has arrived. */
  function Arrive(s: State, frame: Frame): (r: State)
    requires InRange(s)
  {
    var t := s.(frames := s.frames + [frame]);
    if s.pending == [] then
      t.(futs := s.futs + [Message(frame)], done := s.done + [|s.futs|])
    else
      var head := s.pending[0];
      var popped := t.(pending := s.pending[1..]);
      if !s.futs[head].Waiting? then Close(popped, Nothing)
      else popped.(futs := s.futs[head := Message(frame)], done := s.done + [head])
  }

  /** Frames arriving one after another; a lost connection takes no more. */
  function Deliver(s: State, frames: seq<Frame>): (r: State)
    requires InRange(s)
    ensures InRange(r)
    decreases |frames|
  {
    if frames == [] || s.lost then s
    else
      ArriveInRange(s, frames[0]);
      Deliver(Arrive(s, frames[0]), frames[1..])
  }

  lemma {:induction false} ArriveInRange(s: State, frame: Frame)
    requires InRange(s)
    ensures InRange(Arrive(s, frame))
  {
    var r := Arrive(s, frame);
    assert forall i :: 0 <= i < |r.done| ==>
             r.done[i] < |r.futs| by {
      forall i | 0 <= i < |r.done| ensures r.done[i] < |r.futs| {
        if i < |s.done| {
          assert r.done[i] == s.done[i];
        } else if s.pending != [] && !s.futs[s.pending[0]].Waiting? {
          assert r.done[i] == s.pending[1..][i - |s.done|];
        }
      }
    }
  }

  lemma {:induction false} DeliverOne(s: State, frame: Frame)
    requires InRange(s) && !s.lost
    ensures Deliver(s, [frame]) == Arrive(s, frame)
  {
    hide Arrive, InRange;
    ArriveInRange(s, frame);
    assert [frame][1..] == [];
    assert Deliver(Arrive(s, frame), []) == Arrive(s, frame);
  }

  lemma {:induction false} LostTakesNone(s: State, frames: seq<Frame>)
    requires InRange(s) && s.lost
    ensures Deliver(s, frames) == s
  {
  }

  lemma {:induction false} DeliverAppends(s: State, a: seq<Frame>, b: seq<Frame>)
    requires InRange(s)
    ensures Deliver(s, a + b) == Deliver(Deliver(s, a), b)
    decreases |a|
  {
    hide Arrive, InRange;
    if a == [] {
      assert a + b == b;
    } else if !s.lost {
      ArriveInRange(s, a[0]);
      DeliverAppends(Arrive(s, a[0]), a[1..], b);
      assert (a + b)[0] == a[0] && (a + b)[1..] == a[1..] + b;
    }
  }

  datatype Step =
    | ReadStep(request: Option<int>)
    | CancelStep
    | ResumeStep
    | FrameStep(frame: Frame)
    | CloseStep(failed: bool)          // a refused header, the end of the stream, or a caller
    | TransportStep                    // the transport starts to close by itself
    | LostStep(failed: bool)           // connection_lost

  /** A transport that is closing delivers no more data; a lost protocol ignores it. */
  predicate Enabled(s: State, step: Step)
  {
    match step
    case ReadStep(_) => s.task.Idle?
    case CancelStep => s.task.Awaiting?
    case ResumeStep => s.task.Awaiting? && s.task.fut < |s.futs| && !s.futs[s.task.fut].Waiting?
    case FrameStep(_) => !s.closing
    case _ => true
  }

  function Next(s: State, step: Step): (r: State)
    requires InRange(s) && Enabled(s, step)
  {
    match step
    case ReadStep(request) => StartRead(s, request)
    case CancelStep => CancelRead(s)
    case ResumeStep => ResumeRead(s)
    case FrameStep(frame) => Arrive(s, frame)
    case CloseStep(failed) => Close(s, if failed then Failed else Nothing)
    case TransportStep => s.(closing := true)
    case LostStep(failed) => Resolve(s, if failed then Failed else Nothing).(closing := true)
  }

  // ---- the invariant --------------------------------------------------------------------

  /** The claim itself: a read that returned, returned the frame with its own number. */
  ghost predicate Matched(s: State)
  {
    forall j :: 0 <= j < |s.outcomes| && s.outcomes[j].Returned? ==>
      j < |s.frames| && s.outcomes[j].frame == s.frames[j]
  }

  /** The messages in the done queue are those of the coming reads, in order. */
  ghost predicate Lined(s: State)
    requires InRange(s)
  {
    forall i :: 0 <= i < |s.done| && s.futs[s.done[i]].Message? ==>
      |s.outcomes| + i < |s.frames| && s.futs[s.done[i]].frame == s.frames[|s.outcomes| + i]
  }

  ghost predicate NoMessages(s: State)
    requires InRange(s)
  {
    forall i :: 0 <= i < |s.done| ==> !s.futs[s.done[i]].Message?
  }

  /** Only the reading task waits, pending futures carry no message and are queued once, and done
      futures are finished. */
  ghost predicate Queues(s: State)
    requires InRange(s)
  {
    && (forall i :: 0 <= i < |s.futs| && s.futs[i].Waiting? ==> s.task.Awaiting? && s.task.fut == i)
    && (forall i :: 0 <= i < |s.pending| ==> !s.futs[s.pending[i]].Message?)
    && (forall i, j :: 0 <= i < j < |s.pending| ==> s.pending[i] != s.pending[j])
    && (forall i :: 0 <= i < |s.done| ==> !s.futs[s.done[i]].Waiting?)
  }

  ghost predicate Answered(s: State)
    requires InRange(s)
  {
    s.task.Awaiting? && s.futs[s.task.fut].Message?
  }

  /** The reading task either has its message at the head of the done queue or there is none. */
  ghost predicate Turn(s: State)
    requires InRange(s)
  {
    s.task.Awaiting? ==> if Answered(s) then s.done != [] && s.done[0] == s.task.fut else NoMessages(s)
  }

  /** While the transport is open, frames and reads are in step. */
  ghost predicate InStep(s: State)
    requires InRange(s)
  {
    && (forall i :: 0 <= i < |s.done| ==> s.futs[s.done[i]].Message?)
    && (s.pending == [] || s.done == [])
    && (if s.task.Awaiting? && !Answered(s) then
          && |s.frames| + |s.pending| == |s.outcomes| + 1
          && s.pending != [] && s.pending[|s.pending| - 1] == s.task.fut
        else |s.frames| + |s.pending| == |s.outcomes| + |s.done|)
  }

  ghost predicate Inv(s: State)
  {
    InRange(s) && Matched(s) && Lined(s) && Queues(s) && Turn(s) && (!s.closing ==> InStep(s))
  }

  /** A read that returned, returned a frame that answers its own request, and was not cancelled. */
  ghost predicate Asked(s: State)
  {
    && |s.outcomes| <= |s.requests|
    && forall j :: 0 <= j < |s.outcomes| && s.outcomes[j].Returned? ==>
         && (s.requests[j].None? || s.requests[j].value == s.outcomes[j].frame.responseTo)
         && j !in s.cancelled
  }

  /** The reading task carries the last request; once cancelled it will raise. */
  ghost predicate Asking(s: State)
    requires InRange(s)
  {
    && |s.requests| == |s.outcomes| + (if s.task.Awaiting? then 1 else 0)
    && (forall j :: j in s.cancelled ==> j < |s.requests|)
    && (s.task.Awaiting? ==>
          && s.task.request == s.requests[|s.outcomes|]
          && (|s.outcomes| in s.cancelled <==> s.task.cancelRequested || s.futs[s.task.fut].Cancelled?))
  }

  /** A future that somebody waits on can still be answered. */
  ghost predicate Queued(s: State)
  {
    forall i :: 0 <= i < |s.futs| && s.futs[i].Waiting? ==> i in s.pending
  }

  ghost predicate Told(s: State)
  {
    InRange(s) && Asked(s) && Asking(s) && Queued(s)
  }

  // ---- every step keeps it --------------------------------------------------------------

  /** A message that is there already goes to the next read. */
  lemma {:induction false} TakeKeepsInv(s: State, request: Option<int>)
    requires Inv(s) && s.task.Idle? && s.done != []
    ensures Inv(StartRead(s, request))
  {
    var r := StartRead(s, request);
    assert forall i :: 0 <= i < |r.done| ==> r.done[i] == s.done[i + 1];
  }

  lemma {:induction false} StartKeepsInv(s: State, request: Option<int>)
    requires Inv(s) && s.task.Idle?
    ensures Inv(StartRead(s, request))
  {
    if s.done != [] {
      TakeKeepsInv(s, request);
    } else if !s.closing {
      var r := StartRead(s, request);
      assert forall i :: 0 <= i < |s.futs| ==> r.futs[i] == s.futs[i];
      assert forall i :: 0 <= i < |s.pending| ==> r.pending[i] == s.pending[i];
    }
  }

  lemma {:induction false} CancelKeepsInv(s: State)
    requires Inv(s) && s.task.Awaiting?
    ensures Inv(CancelRead(s))
  {
    hide Matched;
    var r := CancelRead(s);
    assert Matched(r) by {
      SameOutcomes(s, r);
    }
    assert forall i :: 0 <= i < |s.futs| ==>
        && (r.futs[i].Message? <==> s.futs[i].Message?) && (r.futs[i].Waiting? ==> s.futs[i].Waiting?)
        && (s.futs[i].Message? ==> r.futs[i] == s.futs[i]);
  }

  lemma {:induction false} SameOutcomes(s: State, r: State)
    requires Matched(s) && r.outcomes == s.outcomes && r.frames == s.frames
    ensures Matched(r)
  {
  }

  /** Taking the first occurrence of `x` away keeps what stands before it and moves up the rest. */
  lemma {:induction false} WithoutFirstMembers(s: seq<nat>, x: nat)
    ensures forall i :: 0 <= i < |WithoutFirst(s, x)| ==> WithoutFirst(s, x)[i] in s
    ensures x !in s ==> WithoutFirst(s, x) == s
    ensures s != [] && s[0] == x ==> WithoutFirst(s, x) == s[1..]
  {
    if s != [] && s[0] != x {
      WithoutFirstMembers(s[1..], x);
    }
  }

  /** The reading task takes its message from the head of the done queue. */
  lemma {:induction false} ResumeAnsweredKeepsInv(s: State)
    requires Inv(s) && s.task.Awaiting? && Answered(s)
    ensures Inv(ResumeRead(s))
  {
    var r := ResumeRead(s);
    WithoutFirstMembers(s.done, s.task.fut);
    assert forall i :: 0 <= i < |r.done| ==> r.done[i] == s.done[i + 1];
  }

  lemma {:induction false} ResumeKeepsInv(s: State)
    requires Inv(s) && s.task.Awaiting? && !s.futs[s.task.fut].Waiting?
    ensures Inv(ResumeRead(s))
  {
    if Answered(s) {
      ResumeAnsweredKeepsInv(s);
    } else {
      hide Lined;
      var r := ResumeRead(s);
      WithoutFirstMembers(s.done, s.task.fut);
      forall i | 0 <= i < |r.done|
        ensures r.done[i] < |r.futs| && !r.futs[r.done[i]].Message? && !r.futs[r.done[i]].Waiting?
      {
        assert r.done[i] in s.done;
      }
      NoMessagesLined(r);
    }
  }

  lemma {:induction false} NoMessagesLined(s: State)
    requires InRange(s) && NoMessages(s)
    ensures Lined(s)
  {
  }

  /** Resolving finishes every pending future and touches no other. */
  lemma {:induction false} ResolveFacts(s: State, value: Future)
    requires InRange(s) && Queues(s) && (value.Failed? || value.Nothing?)
    ensures var r := Resolve(s, value);
            && |r.futs| == |s.futs|
            && r == s.(futs := r.futs, done := s.done + s.pending)
            && (forall i :: 0 <= i < |s.futs| ==>
                  (r.futs[i].Message? <==> s.futs[i].Message?) && (s.futs[i].Waiting? || r.futs[i] == s.futs[i]))
            && (forall i :: 0 <= i < |s.pending| ==> !r.futs[s.pending[i]].Waiting? && !r.futs[s.pending[i]].Message?)
  {
    var r := Resolve(s, value);
    forall i | 0 <= i < |s.pending| ensures !r.futs[s.pending[i]].Waiting? && !r.futs[s.pending[i]].Message? {
      assert s.pending[i] in s.pending;
    }
  }

  /** `r` is `s` with pending futures finished, and queued in `done` as well. */
  ghost predicate Resolved(s: State, r: State)
  {
    && |r.futs| == |s.futs|
    && r == s.(futs := r.futs, done := s.done + s.pending, closing := true)
    && (forall i :: 0 <= i < |s.futs| ==>
          (r.futs[i].Message? <==> s.futs[i].Message?) && (s.futs[i].Waiting? || r.futs[i] == s.futs[i]))
    && (forall i :: 0 <= i < |s.pending| ==> s.pending[i] < |s.futs|)
    && (forall i :: 0 <= i < |s.pending| ==> !r.futs[s.pending[i]].Waiting? && !r.futs[s.pending[i]].Message?)
  }

  /** Where a done future of the resolved state comes from. */
  lemma {:induction false} ResolvedDone(s: State, r: State, i: nat)
    requires InRange(s) && Resolved(s, r) && i < |r.done|
    ensures r.done[i] < |r.futs|
    ensures if i < |s.done| then r.done[i] == s.done[i] else !r.futs[r.done[i]].Waiting? && !r.futs[r.done[i]].Message?
  {
    if i >= |s.done| {
      assert r.done[i] == s.pending[i - |s.done|];
    }
  }

  lemma {:induction false} ResolvedInRange(s: State, r: State)
    requires InRange(s) && Resolved(s, r)
    ensures InRange(r)
  {
    hide Resolved;
    assert |r.futs| == |s.futs| && r.pending == s.pending && r.task == s.task by {
      ResolvedKeeps(s, r);
    }
    forall i | 0 <= i < |r.done| ensures r.done[i] < |r.futs| {
      ResolvedDone(s, r, i);
    }
  }

  lemma {:induction false} ResolvedKeeps(s: State, r: State)
    requires Resolved(s, r)
    ensures |r.futs| == |s.futs| && r.pending == s.pending && r.task == s.task && |r.done| >= |s.done|
    ensures r.outcomes == s.outcomes && r.frames == s.frames && r.closing
    ensures forall i :: 0 <= i < |s.futs| ==>
              (r.futs[i].Message? <==> s.futs[i].Message?) && (s.futs[i].Waiting? || r.futs[i] == s.futs[i])
    ensures forall i :: 0 <= i < |s.futs| && r.futs[i].Waiting? ==> s.futs[i].Waiting?
  {
  }

  lemma {:induction false} ResolvedLined(s: State, r: State)
    requires InRange(s) && Lined(s) && Resolved(s, r) && InRange(r)
    ensures Lined(r)
  {
    hide Resolved;
    ResolvedKeeps(s, r);
    forall i | 0 <= i < |r.done| && r.futs[r.done[i]].Message?
      ensures |r.outcomes| + i < |r.frames| && r.futs[r.done[i]].frame == r.frames[|r.outcomes| + i]
    {
      ResolvedDone(s, r, i);
    }
  }

  lemma {:induction false} ResolvedQueues(s: State, r: State)
    requires InRange(s) && Queues(s) && Resolved(s, r) && InRange(r)
    ensures Queues(r)
  {
    ResolvedKeeps(s, r);
    forall i | 0 <= i < |r.done| ensures !r.futs[r.done[i]].Waiting? {
      ResolvedDone(s, r, i);
    }
  }

  lemma {:induction false} ResolvedTurn(s: State, r: State)
    requires InRange(s) && Turn(s) && Resolved(s, r) && InRange(r)
    ensures Turn(r)
  {
    ResolvedKeeps(s, r);
    forall i | 0 <= i < |r.done| && NoMessages(s) ensures !r.futs[r.done[i]].Message? {
      ResolvedDone(s, r, i);
    }
  }

  lemma {:induction false} ResolveKeepsInv(s: State, value: Future)
    requires Inv(s.(closing := true)) && (value.Failed? || value.Nothing?)
    ensures Inv(Resolve(s, value).(closing := true))
  {
    hide Resolve, InStep, Lined, Queues, Turn, InRange, Resolved;
    var t := s.(closing := true);
    var r := Resolve(s, value).(closing := true);
    ResolveIsResolved(s, value);
    ResolvedInRange(t, r);
    ResolvedLined(t, r);
    ResolvedQueues(t, r);
    ResolvedTurn(t, r);
    ResolvedKeeps(t, r);
  }

  lemma {:induction false} ResolveIsResolved(s: State, value: Future)
    requires Inv(s.(closing := true)) && (value.Failed? || value.Nothing?)
    ensures Resolved(s.(closing := true), Resolve(s, value).(closing := true))
  {
    hide Resolve, Lined, Turn, Matched;
    ResolveFacts(s, value);
  }

  lemma {:induction false} CloseKeepsInv(s: State, value: Future)
    requires Inv(s.(closing := true)) && (value.Failed? || value.Nothing?)
    ensures Inv(Close(s, value))
  {
    hide InStep;
    ResolveKeepsInv(s, value);
    var r := Resolve(s, value).(closing := true);
    assert Close(s, value) == r.(lost := true);
  }

  /** The frame goes to the task that waits for it. */
  lemma {:induction false} AnswerKeepsInv(s: State, frame: Frame)
    requires Inv(s) && !s.closing && s.pending != [] && s.futs[s.pending[0]].Waiting?
    ensures Inv(Arrive(s, frame))
  {
    var r := Arrive(s, frame);
    assert |s.pending| == 1 && s.task.fut == s.pending[0];
    assert r.done == [s.task.fut] && r.pending == [];
    assert |s.frames| == |s.outcomes|;
  }

  /** The frame answers a read that has gone. */
  lemma {:induction false} DropKeepsInv(s: State, frame: Frame)
    requires Inv(s) && !s.closing && s.pending != [] && !s.futs[s.pending[0]].Waiting?
    ensures Inv(Arrive(s, frame))
  {
    hide Close, InStep;
    var popped := s.(frames := s.frames + [frame], pending := s.pending[1..]);
    assert forall i :: 0 <= i < |popped.pending| ==> popped.pending[i] == s.pending[i + 1];
    CloseKeepsInv(popped, Nothing);
  }

  lemma {:induction false} ArriveKeepsInv(s: State, frame: Frame)
    requires Inv(s) && !s.closing
    ensures Inv(Arrive(s, frame))
  {
    if s.pending == [] {
      var r := Arrive(s, frame);
      assert forall i :: 0 <= i < |s.done| ==> r.done[i] == s.done[i];
    } else if s.futs[s.pending[0]].Waiting? {
      AnswerKeepsInv(s, frame);
    } else {
      DropKeepsInv(s, frame);
    }
  }

  lemma {:induction false} StepKeepsInv(s: State, step: Step)
    requires Inv(s) && Enabled(s, step)
    ensures Inv(Next(s, step))
  {
    hide StartRead, CancelRead, ResumeRead, Arrive, Resolve, Close;
    match step
    case ReadStep(request) => StartKeepsInv(s, request);
    case CancelStep => CancelKeepsInv(s);
    case ResumeStep => ResumeKeepsInv(s);
    case FrameStep(frame) => ArriveKeepsInv(s, frame);
    case CloseStep(failed) => CloseKeepsInv(s, if failed then Failed else Nothing);
    case TransportStep =>
    case LostStep(failed) => ResolveKeepsInv(s, if failed then Failed else Nothing);
  }

  lemma {:induction false} StartKeepsTold(s: State, request: Option<int>)
    requires Told(s) && s.task.Idle?
    ensures Told(StartRead(s, request))
  {
    var r := StartRead(s, request);
    assert forall j :: 0 <= j < |s.outcomes| ==> r.outcomes[j] == s.outcomes[j] && r.requests[j] == s.requests[j];
    assert |s.outcomes| !in s.cancelled;
    if s.done == [] && !s.closing {
      assert r.pending[|s.pending|] == |s.futs|;
      forall i | 0 <= i < |r.futs| && r.futs[i].Waiting? ensures i in r.pending {
        if i < |s.futs| {
          assert i in s.pending;
        }
      }
    } else if s.done != [] {
      assert forall i :: 0 <= i < |r.done| ==> r.done[i] == s.done[i + 1];
    }
  }

  lemma {:induction false} CancelKeepsTold(s: State)
    requires Told(s) && s.task.Awaiting?
    ensures Told(CancelRead(s))
  {
  }

  lemma {:induction false} ResumeKeepsTold(s: State)
    requires Told(s) && s.task.Awaiting? && !s.futs[s.task.fut].Waiting?
    ensures Told(ResumeRead(s))
  {
    var r := ResumeRead(s);
    WithoutFirstMembers(s.done, s.task.fut);
    assert forall i :: 0 <= i < |r.done| ==> r.done[i] in s.done;
    assert forall j :: 0 <= j < |s.outcomes| ==> r.outcomes[j] == s.outcomes[j];
  }

  lemma {:induction false} ResolveKeepsTold(s: State, value: Future)
    requires Told(s) && (value.Failed? || value.Nothing?)
    ensures Told(Resolve(s, value))
    ensures forall i :: 0 <= i < |Resolve(s, value).futs| ==> !Resolve(s, value).futs[i].Waiting?
  {
    var r := Resolve(s, value);
    forall i | 0 <= i < |r.futs| ensures !r.futs[i].Waiting? {
      assert s.futs[i].Waiting? ==> i in s.pending;
    }
    forall i | 0 <= i < |r.done| ensures r.done[i] < |r.futs| {
      assert r.done[i] == if i < |s.done| then s.done[i] else s.pending[i - |s.done|];
    }
  }

  lemma {:induction false} ArriveKeepsTold(s: State, frame: Frame)
    requires Told(s)
    ensures Told(Arrive(s, frame))
  {
    hide Asked;
    var r := Arrive(s, frame);
    ArriveInRange(s, frame);
    SameAsked(s, r);
    if s.pending == [] {
      assert forall i :: 0 <= i < |s.futs| ==> r.futs[i] == s.futs[i];
    } else if s.futs[s.pending[0]].Waiting? {
      forall i | 0 <= i < |r.futs| && r.futs[i].Waiting? ensures i in r.pending {
        assert i in s.pending && i != s.pending[0];
      }
    } else {
      DropKeepsTold(s, frame);
    }
  }

  lemma {:induction false} SameAsked(s: State, r: State)
    requires Asked(s) && r.outcomes == s.outcomes && r.requests == s.requests && r.cancelled == s.cancelled
    ensures Asked(r)
  {
  }

  lemma {:induction false} DropKeepsTold(s: State, frame: Frame)
    requires Told(s) && s.pending != [] && !s.futs[s.pending[0]].Waiting?
    ensures Told(Arrive(s, frame))
  {
    hide Asked, Resolve;
    var popped := s.(frames := s.frames + [frame], pending := s.pending[1..]);
    SameAsked(s, popped);
    forall i | 0 <= i < |s.futs| && s.futs[i].Waiting? ensures i in popped.pending {
      assert i in s.pending && i != s.pending[0];
    }
    ResolveKeepsTold(popped, Nothing);
    SameAsked(Resolve(popped, Nothing), Arrive(s, frame));
  }

  lemma {:induction false} StepKeepsTold(s: State, step: Step)
    requires Told(s) && Enabled(s, step)
    ensures Told(Next(s, step))
  {
    hide StartRead, CancelRead, ResumeRead, Arrive, Resolve;
    match step
    case ReadStep(request) => StartKeepsTold(s, request);
    case CancelStep => CancelKeepsTold(s);
    case ResumeStep => ResumeKeepsTold(s);
    case FrameStep(frame) => ArriveKeepsTold(s, frame);
    case CloseStep(failed) => ResolveKeepsTold(s, if failed then Failed else Nothing);
    case TransportStep =>
    case LostStep(failed) => ResolveKeepsTold(s, if failed then Failed else Nothing);
  }

  /** No read hangs on a closed connection: whatever ends it leaves no future waiting, so a suspended
      read can resume, and a later one that finds no message raises at once. */
  lemma {:induction false} NoReadHangs(s: State, step: Step, request: Option<int>)
    requires Told(s) && (step.CloseStep? || step.LostStep?)
    ensures var r := Next(s, step);
            && r.closing && (r.task.Awaiting? ==> Enabled(r, ResumeStep))
            && forall i :: 0 <= i < |r.futs| ==> !r.futs[i].Waiting?
    ensures s.closing && s.done == [] && s.task.Idle? ==>
              var r := StartRead(s, request);
              r.outcomes == s.outcomes + [Raised] && r.task.Idle? && r.futs == s.futs && r.pending == s.pending
  {
    hide Resolve;
    ResolveKeepsTold(s, if step.failed then Failed else Nothing);
  }

  // ---- runs -----------------------------------------------------------------------------

  ghost predicate IsRun(s: State, steps: seq<Step>)
    requires InRange(s)
    decreases |steps|
  {
    steps != [] ==> Enabled(s, steps[0]) && InRange(Next(s, steps[0])) && IsRun(Next(s, steps[0]), steps[1..])
  }

  ghost function After(s: State, steps: seq<Step>): (r: State)
    requires InRange(s) && IsRun(s, steps)
    decreases |steps|
  {
    if steps == [] then s else After(Next(s, steps[0]), steps[1..])
  }

  /** Over every interleaving of reads, frames, cancellations and closes, read number j either
      returns frame number j or raises; it raises if it was cancelled, and if that frame answers another
      request. */
  lemma {:induction false} EveryRunMatches(s: State, steps: seq<Step>)
    requires Inv(s) && Told(s) && IsRun(s, steps)
    ensures var r := After(s, steps);
            && Inv(r) && Told(r) && |r.outcomes| <= |r.requests|
            && (forall j :: 0 <= j < |r.outcomes| && r.outcomes[j].Returned? ==>
                  j < |r.frames| && r.outcomes[j] == Returned(r.frames[j]))
            && (forall j :: 0 <= j < |r.outcomes| && j in r.cancelled ==> r.outcomes[j] == Raised)
            && (forall j :: 0 <= j < |r.outcomes| && j < |r.frames| && r.requests[j].Some? ==>
                  r.requests[j].value == r.frames[j].responseTo || r.outcomes[j] == Raised)
    decreases |steps|
  {
    hide Lined, Queues, Turn, InStep, Asking, Queued, Next;
    if steps != [] {
      StepKeepsInv(s, steps[0]);
      StepKeepsTold(s, steps[0]);
      EveryRunMatches(Next(s, steps[0]), steps[1..]);
    }
  }

  lemma {:induction false} InitiallyMatched()
    ensures Inv(INITIAL) && Told(INITIAL)
  {
  }

  /** How a read ends that is given `frame`. */
  function Ending(frame: Frame, request: Option<int>): (r: Outcome)
  {
    match request
    case None => Returned(frame)
    case Some(id) => if frame.responseTo == id then Returned(frame) else Raised
  }

  // ---- what the rest of a run is worth --------------------------------------------------

  /** The connection is closing and no message is left for anybody. */
  ghost predicate Dead(s: State)
  {
    Inv(s) && s.closing && NoMessages(s) && !Answered(s)
  }

  lemma {:induction false} DeadStays(s: State, step: Step)
    requires Dead(s) && Enabled(s, step)
    ensures Dead(Next(s, step))
    ensures s.outcomes <= Next(s, step).outcomes
    ensures forall j :: |s.outcomes| <= j < |Next(s, step).outcomes| ==> Next(s, step).outcomes[j] == Raised
  {
    hide Resolve, InStep, Lined, Queues, Matched;
    StepKeepsInv(s, step);
    match step
    case ResumeStep => WithoutFirstMembers(s.done, s.task.fut);
    case CloseStep(failed) => ResolveLeavesNone(s, if failed then Failed else Nothing);
    case LostStep(failed) => ResolveLeavesNone(s, if failed then Failed else Nothing);
    case _ =>
  }

  lemma {:induction false} ResolveLeavesNone(s: State, value: Future)
    requires InRange(s) && Queues(s) && NoMessages(s) && !Answered(s) && (value.Failed? || value.Nothing?)
    ensures var r := Resolve(s, value);
            InRange(r) && NoMessages(r) && !Answered(r) && r.outcomes == s.outcomes
  {
    hide Resolve;
    ResolveFacts(s, value);
    var r := Resolve(s, value);
    forall i | 0 <= i < |r.done| ensures r.done[i] < |r.futs| && !r.futs[r.done[i]].Message? {
      assert r.done[i] == if i < |s.done| then s.done[i] else s.pending[i - |s.done|];
    }
  }

  lemma {:induction false} DeadForEver(s: State, steps: seq<Step>)
    requires Dead(s) && IsRun(s, steps)
    ensures s.outcomes <= After(s, steps).outcomes
    ensures forall j :: |s.outcomes| <= j < |After(s, steps).outcomes| ==> After(s, steps).outcomes[j] == Raised
    decreases |steps|
  {
    hide Next, Matched, Lined, Queues, Turn, InStep, NoMessages, Answered;
    if steps != [] {
      DeadStays(s, steps[0]);
      DeadForEver(Next(s, steps[0]), steps[1..]);
    }
  }

  /** The reply to a read that was cancelled while pending is handed to nobody: its arrival closes
      the connection, and every later read of every continuation raises. */
  lemma {:induction false} CancelledReplyIsDropped(s: State, frame: Frame, steps: seq<Step>)
    requires Inv(s) && !s.closing && s.pending != [] && s.futs[s.pending[0]].Cancelled?
    requires IsRun(s, [FrameStep(frame)] + steps)
    ensures var r := After(s, [FrameStep(frame)] + steps);
            && s.outcomes <= r.outcomes
            && forall j :: |s.outcomes| <= j < |r.outcomes| ==> r.outcomes[j] == Raised
  {
    hide Arrive, Matched, Lined, Queues, Turn, InStep, NoMessages, Answered;
    var all := [FrameStep(frame)] + steps;
    assert all[0] == FrameStep(frame) && all[1..] == steps;
    var r := Arrive(s, frame);
    ArriveKeepsInv(s, frame);
    PoppedHasNone(s, frame);
    DeadForEver(r, steps);
  }

  lemma {:induction false} PoppedHasNone(s: State, frame: Frame)
    requires Inv(s) && !s.closing && s.pending != [] && s.futs[s.pending[0]].Cancelled?
    ensures var r := Arrive(s, frame);
            InRange(r) && r.closing && NoMessages(r) && !Answered(r) && r.outcomes == s.outcomes
  {
    hide Resolve, Matched, Lined;
    var popped := s.(frames := s.frames + [frame], pending := s.pending[1..]);
    assert forall i :: 0 <= i < |popped.pending| ==> popped.pending[i] == s.pending[i + 1];
    assert s.done == [];
    ResolveLeavesNone(popped, Nothing);
  }

  /** On an open connection a read that is not cancelled ends with the next frame: it returns it if the
      frame answers its request and raises if it answers another, at once if the frame is there already. */
  lemma {:induction false} OpenReadSucceeds(s: State, request: Option<int>)
    requires Inv(s) && !s.closing
    ensures s.done != [] || Answered(s) ==> |s.outcomes| < |s.frames|
    ensures s.task.Idle? && s.done != [] ==>
              StartRead(s, request).outcomes == s.outcomes + [Ending(s.frames[|s.outcomes|], request)]
    ensures Answered(s) && !s.task.cancelRequested ==>
              ResumeRead(s).outcomes == s.outcomes + [Ending(s.frames[|s.outcomes|], s.task.request)]
  {
    if Answered(s) || s.done != [] {
      assert s.futs[s.done[0]].Message?;
    }
  }

  // ---- a whole stream -------------------------------------------------------------------

  /** Every pending read still waits, and is queued once. */
  ghost predicate NoneGone(s: State)
    requires InRange(s)
  {
    && (forall i :: 0 <= i < |s.pending| ==> s.futs[s.pending[i]].Waiting?)
    && (forall i, j :: 0 <= i < j < |s.pending| ==> s.pending[i] != s.pending[j])
  }

  function Taken(s: State, frames: seq<Frame>): (k: nat)
    ensures k <= |frames| && k <= |s.pending|
  {
    if |frames| <= |s.pending| then |frames| else |s.pending|
  }

  /** The done queue has grown by the frames, in order. */
  ghost predicate Carried(s: State, frames: seq<Frame>, r: State)
    requires InRange(r)
  {
    && |r.done| == |s.done| + |frames| && r.done[..|s.done|] == s.done
    && forall j :: |s.done| <= j < |r.done| ==> r.futs[r.done[j]] == Message(frames[j - |s.done|])
  }

  /** The first of them are in the futures of the pending reads, in order. */
  ghost predicate InTurn(s: State, frames: seq<Frame>, r: State)
  {
    && |r.done| == |s.done| + |frames| && r.pending == s.pending[Taken(s, frames)..]
    && forall j :: |s.done| <= j < |s.done| + Taken(s, frames) ==> r.done[j] == s.pending[j - |s.done|]
  }

  /** `r` is `s` after `frames`: the first ones answer the pending reads in order, the others wait in
      order for reads to come. */
  ghost predicate AnsweredInOrder(s: State, frames: seq<Frame>, r: State)
    requires InRange(s) && InRange(r)
  {
    && !r.lost && r.closing == s.closing && r.outcomes == s.outcomes && r.task == s.task
    && r.frames == s.frames + frames && NoneGone(r) && Carried(s, frames, r) && InTurn(s, frames, r)
    && Untouched(s, r)
  }

  /** Finished futures stay as they are. */
  ghost predicate Untouched(s: State, r: State)
  {
    |r.futs| >= |s.futs| && forall i :: 0 <= i < |s.futs| && !s.futs[i].Waiting? ==> r.futs[i] == s.futs[i]
  }

  lemma {:induction false} ArriveAnswers(s: State, frame: Frame)
    requires InRange(s) && !s.lost && NoneGone(s)
    ensures InRange(Arrive(s, frame)) && AnsweredInOrder(s, [frame], Arrive(s, frame))
  {
    ArriveInRange(s, frame);
    var r := Arrive(s, frame);
    if s.pending == [] {
      assert s.pending[0..] == [];
    } else {
      assert r.pending == s.pending[1..];
      assert forall i :: 0 <= i < |r.pending| ==> r.pending[i] == s.pending[i + 1];
    }
  }

  /** With no cancelled read left, the frames of a stream are all delivered, in order. */
  lemma {:induction false} DeliverAnswers(s: State, frames: seq<Frame>)
    requires InRange(s) && !s.lost && NoneGone(s)
    ensures AnsweredInOrder(s, frames, Deliver(s, frames))
    decreases |frames|
  {
    hide Arrive;
    if frames == [] {
      assert s.frames + [] == s.frames && s.pending[0..] == s.pending;
    } else {
      var mid := Arrive(s, frames[0]);
      ArriveAnswers(s, frames[0]);
      DeliverAnswers(mid, frames[1..]);
      AnswersCompose(s, frames, mid, Deliver(mid, frames[1..]));
    }
  }

  lemma {:induction false} AnswersCompose(s: State, frames: seq<Frame>, mid: State, r: State)
    requires InRange(s) && InRange(mid) && InRange(r) && frames != []
    requires AnsweredInOrder(s, [frames[0]], mid) && AnsweredInOrder(mid, frames[1..], r)
    ensures AnsweredInOrder(s, frames, r)
  {
    hide NoneGone, Carried, InTurn, Untouched, InRange;
    assert s.frames + [frames[0]] + frames[1..] == s.frames + frames;
    CarriedCompose(s, frames, mid, r);
    InTurnCompose(s, frames, mid, r);
    UntouchedMeans(s, mid);
    UntouchedCompose(s, mid, r);
  }

  lemma {:induction false} CarriedCompose(s: State, frames: seq<Frame>, mid: State, r: State)
    requires InRange(mid) && InRange(r) && frames != []
    requires Carried(s, [frames[0]], mid) && Carried(mid, frames[1..], r) && Untouched(mid, r)
    ensures Carried(s, frames, r)
  {
    hide Untouched;
    var n := |s.done|;
    assert r.done[..n + 1] == mid.done;
    assert r.done[..n] == mid.done[..n];
    forall j | n <= j < |r.done| ensures r.futs[r.done[j]] == Message(frames[j - n]) {
      if j == n {
        assert r.done[n] == mid.done[n] && mid.futs[mid.done[n]] == Message([frames[0]][0]);
        StaysMessage(mid, r, mid.done[n]);
      } else {
        assert frames[1..][j - (n + 1)] == frames[j - n];
      }
    }
  }

  lemma {:induction false} StaysMessage(mid: State, r: State, id: nat)
    requires Untouched(mid, r) && id < |mid.futs| && mid.futs[id].Message?
    ensures id < |r.futs| && r.futs[id] == mid.futs[id]
  {
  }

  lemma {:induction false} InTurnCompose(s: State, frames: seq<Frame>, mid: State, r: State)
    requires InRange(mid) && InRange(r) && frames != []
    requires InTurn(s, [frames[0]], mid) && InTurn(mid, frames[1..], r) && Carried(mid, frames[1..], r)
    ensures InTurn(s, frames, r)
  {
    var n := |s.done|;
    assert r.done[..n + 1] == mid.done;
    if s.pending != [] {
      assert mid.pending == s.pending[1..];
      assert Taken(s, frames) == 1 + Taken(mid, frames[1..]);
      forall j | n <= j < n + Taken(s, frames) ensures r.done[j] == s.pending[j - n] {
        if j == n {
          assert r.done[n] == mid.done[n];
        } else {
          assert r.done[j] == mid.pending[j - (n + 1)];
        }
      }
    } else {
      assert mid.pending == [];
    }
  }

  lemma {:induction false} UntouchedMeans(s: State, r: State)
    requires Untouched(s, r)
    ensures |r.futs| >= |s.futs|
    ensures forall i :: 0 <= i < |s.futs| && !s.futs[i].Waiting? ==> !r.futs[i].Waiting?
  {
  }

  lemma {:induction false} UntouchedCompose(s: State, mid: State, r: State)
    requires Untouched(s, mid) && Untouched(mid, r)
    ensures Untouched(s, r)
  {
  }
}
