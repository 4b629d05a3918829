/**
 `Lock` of pymongo/_asyncio_lock.py as the atomic steps between its awaits.  A ticket stands for
 one call of `acquire`, numbered in call order.  Cancelling a task cancels the future it waits on,
 or, if that future is already done, makes the task resume with CancelledError all the same.
 */
module AsyncLock {

  datatype Future = Pending | Done | Cancelled

  /** One queued `acquire`: its future, and whether the task was cancelled after the future was set. */
  datatype Waiter = Waiter(ticket: nat, fut: Future, cancelRequested: bool)
  {
    /** Still able to take the lock. */
    predicate Live() { fut.Pending? || (fut.Done? && !cancelRequested) }
  }

  /** `_locked` and `_waiters`, with who holds the lock, the order in which tickets got it, and the
      tickets whose tasks were cancelled while they queued. */
  datatype State = State(locked: bool, waiters: seq<Waiter>, holders: set<nat>, acquired: seq<nat>, next: nat,
                         cancelled: set<nat>)

  const INITIAL: State := State(false, [], {}, [], 0, {})

  // ---- steps ----------------------------------------------------------------------------

  function WakeUpFirst(ws: seq<Waiter>): (r: seq<Waiter>)
    ensures |r| == |ws|
  {
    if ws != [] && ws[0].fut.Pending? then [ws[0].(fut := Done)] + ws[1..] else ws
  }

  predicate AllCancelled(ws: seq<Waiter>)
  {
    forall i :: 0 <= i < |ws| ==> ws[i].fut.Cancelled?
  }

  function Take(s: State, ticket: nat): (r: State)
  {
    s.(locked := true, holders := s.holders + {ticket}, acquired := s.acquired + [ticket])
  }

  /** `acquire` up to its await: takes a free lock nobody live waits for, else queues. */
  function StartAcquire(s: State): (r: State)
  {
    var t := s.(next := s.next + 1);
    if !s.locked && AllCancelled(s.waiters) then Take(t, s.next)
    else t.(waiters := s.waiters + [Waiter(s.next, Pending, false)])
  }

  /** `task.cancel()` on the task whose waiter stands at `i`. */
  function Cancel(s: State, i: nat): (r: State)
    requires i < |s.waiters|
  {
    var w := s.waiters[i];
    var w' := if w.fut.Pending? then w.(fut := Cancelled)
              else if w.fut.Done? then w.(cancelRequested := true) else w;
    s.(waiters := s.waiters[i := w'], cancelled := s.cancelled + {w.ticket})
  }

  function Without(ws: seq<Waiter>, i: nat): (r: seq<Waiter>)
    requires i < |ws|
  {
    ws[..i] + ws[i + 1..]
  }

  /** `acquire` after its await: leaves the queue, then takes the lock or raises CancelledError. */
  function Resume(s: State, i: nat): (r: State)
    requires i < |s.waiters| && !s.waiters[i].fut.Pending?
  {
    var w := s.waiters[i];
    var t := s.(waiters := Without(s.waiters, i));
    if w.Live() then Take(t, w.ticket)
    else if !s.locked then t.(waiters := WakeUpFirst(t.waiters)) else t
  }

  /** `release` by the holder of `ticket`. */
  function Release(s: State, ticket: nat): (r: State)
  {
    s.(locked := false, holders := s.holders - {ticket}, waiters := WakeUpFirst(s.waiters))
  }

  datatype Step = StartStep | CancelStep(i: nat) | ResumeStep(i: nat) | ReleaseStep(ticket: nat)

  predicate Enabled(s: State, step: Step)
  {
    match step
    case StartStep => true
    case CancelStep(i) => i < |s.waiters|
    case ResumeStep(i) => i < |s.waiters| && !s.waiters[i].fut.Pending?
    case ReleaseStep(ticket) => ticket in s.holders
  }

  function Next(s: State, step: Step): (r: State)
    requires Enabled(s, step)
  {
    match step
    case StartStep => StartAcquire(s)
    case CancelStep(i) => Cancel(s, i)
    case ResumeStep(i) => Resume(s, i)
    case ReleaseStep(ticket) => Release(s, ticket)
  }

  // ---- the invariant --------------------------------------------------------------------

  ghost predicate Mutex(s: State)
  {
    && |s.holders| <= 1
    && (s.locked <==> s.holders != {})
    && (s.locked ==> s.acquired != [] && s.holders == {s.acquired[|s.acquired| - 1]})
  }

  /** A woken waiter is the head of the queue, and the lock is free for it. */
  ghost predicate WokenIsHead(s: State)
  {
    forall i :: 0 <= i < |s.waiters| && s.waiters[i].fut.Done? ==> i == 0 && !s.locked
  }

  /** A free lock that somebody waits for has a head that will run. */
  ghost predicate NoLostWakeUp(s: State)
  {
    !s.locked && s.waiters != [] && (exists i :: 0 <= i < |s.waiters| && s.waiters[i].fut.Pending?)
    ==> !s.waiters[0].fut.Pending?
  }

  ghost predicate QueueInOrder(s: State)
  {
    && (forall i, j :: 0 <= i < j < |s.waiters| ==> s.waiters[i].ticket < s.waiters[j].ticket)
    && (forall i :: 0 <= i < |s.waiters| ==> s.waiters[i].ticket < s.next)
  }

  ghost predicate Ascending(ts: seq<nat>)
  {
    forall i, j :: 0 <= i < j < |ts| ==> ts[i] < ts[j]
  }

  /** Whoever got the lock asked before everybody who can still get it. */
  ghost predicate NotOvertaken(s: State)
  {
    && (forall k :: 0 <= k < |s.acquired| ==> s.acquired[k] < s.next)
    && (forall k, i :: 0 <= k < |s.acquired| && 0 <= i < |s.waiters| && s.waiters[i].Live()
          ==> s.acquired[k] < s.waiters[i].ticket)
  }

  ghost predicate Queued(s: State, ticket: nat)
  {
    exists i :: 0 <= i < |s.waiters| && s.waiters[i].ticket == ticket
  }

  /** The tickets in the queue that can still take the lock are those not cancelled, and nobody who was
      cancelled got it. */
  ghost predicate Spared(s: State)
  {
    && (forall i :: 0 <= i < |s.waiters| ==> (s.waiters[i].Live() <==> s.waiters[i].ticket !in s.cancelled))
    && (forall i :: 0 <= i < |s.waiters| && s.waiters[i].cancelRequested ==> s.waiters[i].fut.Done?)
    && (forall k :: 0 <= k < |s.acquired| ==> s.acquired[k] !in s.cancelled)
    && (forall t :: t in s.cancelled ==> t < s.next)
  }

  /** No call of `acquire` disappears: it queues, it got the lock, or it was cancelled. */
  ghost predicate Accounted(s: State)
  {
    forall t: nat :: t < s.next ==> Queued(s, t) || t in s.acquired || t in s.cancelled
  }

  ghost predicate Fair(s: State)
  {
    Mutex(s) && WokenIsHead(s) && NoLostWakeUp(s) && QueueInOrder(s) && Ascending(s.acquired) && NotOvertaken(s)
  }

  ghost predicate Inv(s: State)
  {
    Fair(s) && Spared(s) && Accounted(s)
  }

  lemma {:induction false} StartKeepsFair(s: State)
    requires Fair(s)
    ensures Fair(StartAcquire(s))
  {
    var r := StartAcquire(s);
    if !s.locked && AllCancelled(s.waiters) {
      assert s.holders == {};
    } else {
      assert forall i :: 0 <= i < |s.waiters| ==> r.waiters[i] == s.waiters[i];
      if !s.locked {
        var i :| 0 <= i < |s.waiters| && !s.waiters[i].fut.Cancelled?;
        assert !s.waiters[0].fut.Pending?;
      }
    }
  }

  lemma {:induction false} CancelKeepsFair(s: State, i: nat)
    requires Fair(s) && i < |s.waiters|
    ensures Fair(Cancel(s, i))
  {
    var r := Cancel(s, i);
    assert forall k :: 0 <= k < |s.waiters| ==>
             r.waiters[k].ticket == s.waiters[k].ticket && (r.waiters[k].Live() ==> s.waiters[k].Live());
    assert forall k :: 0 <= k < |s.waiters| && r.waiters[k].fut.Pending? ==> s.waiters[k].fut.Pending?;
  }

  /** Waking the head of a free lock's queue makes it fair again. */
  lemma {:induction false} WakeKeepsFair(s: State)
    requires !s.locked && s.holders == {} && WokenIsHead(s) && QueueInOrder(s)
    requires Ascending(s.acquired) && NotOvertaken(s)
    requires forall i :: 0 <= i < |s.waiters| && s.waiters[i].fut.Done? ==> i == 0
    ensures Fair(s.(waiters := WakeUpFirst(s.waiters)))
  {
    var ws := WakeUpFirst(s.waiters);
    assert forall k :: 0 < k < |ws| ==> ws[k] == s.waiters[k];
    assert ws != [] ==> ws[0].ticket == s.waiters[0].ticket && (ws[0].Live() ==> s.waiters[0].Live());
  }

  lemma {:induction false} WithoutMembers(ws: seq<Waiter>, i: nat)
    requires i < |ws|
    ensures |Without(ws, i)| == |ws| - 1
    ensures forall k :: 0 <= k < |ws| - 1 ==> Without(ws, i)[k] == (if k < i then ws[k] else ws[k + 1])
  {
  }

  /** Taking one waiter out keeps the order of the others. */
  lemma {:induction false} WithoutKeepsOrder(s: State, i: nat)
    requires QueueInOrder(s) && NotOvertaken(s) && WokenIsHead(s) && i < |s.waiters|
    ensures var t := s.(waiters := Without(s.waiters, i));
            QueueInOrder(t) && NotOvertaken(t) && WokenIsHead(t)
            && (i == 0 ==> forall k :: 0 <= k < |t.waiters| ==> !t.waiters[k].fut.Done?)
  {
    WithoutMembers(s.waiters, i);
  }

  /** Taking a lock nobody holds. */
  lemma {:induction false} TakesAlone(s: State, ticket: nat)
    requires s.holders == {}
    ensures Take(s, ticket).holders == {ticket} && Mutex(Take(s, ticket))
  {
    assert s.holders + {ticket} == {ticket};
  }

  /** The woken head takes the lock. */
  lemma {:induction false} TakeKeepsFair(s: State)
    requires Fair(s) && s.waiters != [] && s.waiters[0].fut.Done? && s.waiters[0].Live()
    ensures Fair(Take(s.(waiters := Without(s.waiters, 0)), s.waiters[0].ticket))
  {
    assert s.holders == {};
    hide Mutex;
    WithoutMembers(s.waiters, 0);
    TakesAlone(s.(waiters := Without(s.waiters, 0)), s.waiters[0].ticket);
  }

  lemma {:induction false} ResumeKeepsFair(s: State, i: nat)
    requires Fair(s) && i < |s.waiters| && !s.waiters[i].fut.Pending?
    ensures Fair(Resume(s, i))
  {
    hide QueueInOrder, NotOvertaken;
    var w := s.waiters[i];
    var t := s.(waiters := Without(s.waiters, i));
    WithoutKeepsOrder(s, i);
    if w.Live() {
      TakeKeepsFair(s);
    } else if !s.locked {
      WakeKeepsFair(t);
    }
  }

  lemma {:induction false} ReleaseKeepsFair(s: State, ticket: nat)
    requires Fair(s) && ticket in s.holders
    ensures Fair(Release(s, ticket))
  {
    assert s.holders == {ticket} by {
      assert |s.holders - {ticket}| == |s.holders| - 1;
    }
    WakeKeepsFair(s.(locked := false, holders := s.holders - {ticket}));
  }

  // ---- who is spared and where they are --------------------------------------------------

  lemma {:induction false} StartKeepsInv(s: State)
    requires Inv(s)
    ensures Inv(StartAcquire(s))
  {
    hide Spared, Accounted;
    StartKeepsFair(s);
    hide Fair, StartAcquire;
    StartKeepsSpared(s);
    StartAccounts(s);
  }

  lemma {:induction false} StartKeepsSpared(s: State)
    requires Spared(s)
    ensures Spared(StartAcquire(s))
  {
    var r := StartAcquire(s);
    assert forall i :: 0 <= i < |s.waiters| ==> r.waiters[i] == s.waiters[i];
    assert forall k :: 0 <= k < |s.acquired| ==> r.acquired[k] == s.acquired[k];
  }

  lemma {:induction false} StartAccounts(s: State)
    requires Accounted(s)
    ensures Accounted(StartAcquire(s))
  {
    hide AllCancelled;
    var r := StartAcquire(s);
    forall t: nat | t < r.next ensures Queued(r, t) || t in r.acquired || t in r.cancelled {
      if t == s.next {
        assert r.acquired != s.acquired ==> r.acquired[|s.acquired|] == t;
        assert r.acquired == s.acquired ==> r.waiters[|s.waiters|].ticket == t;
      } else if Queued(s, t) {
        var i :| 0 <= i < |s.waiters| && s.waiters[i].ticket == t;
        assert r.waiters[i].ticket == t;
      } else if t in s.acquired {
        var k :| 0 <= k < |s.acquired| && s.acquired[k] == t;
        assert r.acquired[k] == t;
      }
    }
  }

  /** The same tickets in the queue, and nobody gone elsewhere. */
  lemma {:induction false} SameQueue(s: State, r: State)
    requires Accounted(s) && |r.waiters| == |s.waiters| && r.next == s.next
    requires forall i :: 0 <= i < |s.waiters| ==> r.waiters[i].ticket == s.waiters[i].ticket
    requires s.cancelled <= r.cancelled && r.acquired == s.acquired
    ensures Accounted(r)
  {
    forall t: nat | t < r.next ensures Queued(r, t) || t in r.acquired || t in r.cancelled {
      if Queued(s, t) {
        var i :| 0 <= i < |s.waiters| && s.waiters[i].ticket == t;
        assert r.waiters[i].ticket == t;
      }
    }
  }

  lemma {:induction false} CancelKeepsInv(s: State, i: nat)
    requires Inv(s) && i < |s.waiters|
    ensures Inv(Cancel(s, i))
  {
    CancelKeepsFair(s, i);
    var r := Cancel(s, i);
    SameQueue(s, r);
    assert Spared(r) by {
      hide Accounted;
      forall k | 0 <= k < |s.waiters| && k != i ensures r.waiters[k].ticket != s.waiters[i].ticket {
        assert if k < i then s.waiters[k].ticket < s.waiters[i].ticket else s.waiters[i].ticket < s.waiters[k].ticket;
      }
    }
  }

  lemma {:induction false} WakeKeepsSpared(s: State)
    requires Spared(s) && Accounted(s)
    ensures var r := s.(waiters := WakeUpFirst(s.waiters)); Spared(r) && Accounted(r)
  {
    SameQueue(s, s.(waiters := WakeUpFirst(s.waiters)));
  }

  /** Whoever leaves the queue took the lock or was cancelled. */
  lemma {:induction false} LeaveKeepsSpared(s: State, i: nat)
    requires Inv(s) && i < |s.waiters| && !s.waiters[i].fut.Pending?
    ensures var t := s.(waiters := Without(s.waiters, i));
            var r := if s.waiters[i].Live() then Take(t, s.waiters[i].ticket) else t;
            Spared(r) && Accounted(r)
  {
    hide Fair;
    var w := s.waiters[i];
    var t := s.(waiters := Without(s.waiters, i));
    var r := if w.Live() then Take(t, w.ticket) else t;
    WithoutMembers(s.waiters, i);
    assert forall k :: 0 <= k < |s.acquired| ==> r.acquired[k] == s.acquired[k];
    assert w.Live() ==> r.acquired[|s.acquired|] == w.ticket;
    forall n: nat | n < r.next ensures Queued(r, n) || n in r.acquired || n in r.cancelled {
      if n in s.acquired {
        var k :| 0 <= k < |s.acquired| && s.acquired[k] == n;
        assert r.acquired[k] == n;
      } else if Queued(s, n) && n != w.ticket {
        var k :| 0 <= k < |s.waiters| && s.waiters[k].ticket == n;
        assert r.waiters[if k < i then k else k - 1].ticket == n;
      }
    }
  }

  lemma {:induction false} ResumeKeepsInv(s: State, i: nat)
    requires Inv(s) && i < |s.waiters| && !s.waiters[i].fut.Pending?
    ensures Inv(Resume(s, i))
  {
    hide Spared, Accounted;
    ResumeKeepsFair(s, i);
    hide Fair;
    LeaveKeepsSpared(s, i);
    if !s.waiters[i].Live() && !s.locked {
      WakeKeepsSpared(s.(waiters := Without(s.waiters, i)));
    }
  }

  lemma {:induction false} ReleaseKeepsInv(s: State, ticket: nat)
    requires Inv(s) && ticket in s.holders
    ensures Inv(Release(s, ticket))
  {
    hide Spared, Accounted;
    ReleaseKeepsFair(s, ticket);
    FreeKeepsSpared(s, ticket);
    WakeKeepsSpared(s.(locked := false, holders := s.holders - {ticket}));
  }

  lemma {:induction false} FreeKeepsSpared(s: State, ticket: nat)
    requires Spared(s) && Accounted(s)
    ensures var free := s.(locked := false, holders := s.holders - {ticket}); Spared(free) && Accounted(free)
  {
    SameQueue(s, s.(locked := false, holders := s.holders - {ticket}));
  }

  lemma {:induction false} StepKeepsInv(s: State, step: Step)
    requires Inv(s) && Enabled(s, step)
    ensures Inv(Next(s, step))
  {
    match step
    case StartStep => StartKeepsInv(s);
    case CancelStep(i) => CancelKeepsInv(s, i);
    case ResumeStep(i) => ResumeKeepsInv(s, i);
    case ReleaseStep(ticket) => ReleaseKeepsInv(s, ticket);
  }

  // ---- runs -----------------------------------------------------------------------------

  /** The steps can be taken one after another from `s`. */
  ghost predicate IsRun(s: State, steps: seq<Step>)
    decreases |steps|
  {
    steps != [] ==> Enabled(s, steps[0]) && IsRun(Next(s, steps[0]), steps[1..])
  }

  ghost function After(s: State, steps: seq<Step>): (r: State)
    requires IsRun(s, steps)
    decreases |steps|
  {
    if steps == [] then s else After(Next(s, steps[0]), steps[1..])
  }

  /** Lock safety: after every run, however calls, cancellations, resumptions and releases
      interleave, at most one ticket holds the lock, a woken future is the head of a free lock's
      queue, a free lock with a pending waiter has a done head, tickets have taken the lock in the
      order in which they asked for it, and every ticket queues, got the lock, or was cancelled, the
      last two excluding each other. */
  lemma {:induction false} EveryRunIsSafe(s: State, steps: seq<Step>)
    requires Inv(s) && IsRun(s, steps)
    decreases |steps|
    ensures Inv(After(s, steps))
  {
    hide Fair, Spared, Accounted, Next;
    if steps != [] {
      StepKeepsInv(s, steps[0]);
      EveryRunIsSafe(Next(s, steps[0]), steps[1..]);
    }
  }

  lemma {:induction false} InitiallySafe()
    ensures Inv(INITIAL)
  {
  }

  /** Without more cancellations and while the lock is free, the next resumption of the head makes
      progress: the head is the one that takes the lock, or it leaves the queue and passes the turn on. */
  lemma {:induction false} HeadMakesProgress(s: State)
    requires Inv(s) && !s.locked && (exists i :: 0 <= i < |s.waiters| && s.waiters[i].Live())
    ensures Enabled(s, ResumeStep(0))
    ensures var r := Resume(s, 0);
            if s.waiters[0].Live() then r.locked && r.holders == {s.waiters[0].ticket}
            else !r.locked && |r.waiters| == |s.waiters| - 1 && (r.waiters != [] ==> !r.waiters[0].fut.Pending?)
  {
    var i :| 0 <= i < |s.waiters| && s.waiters[i].Live();
    assert s.waiters[i].fut.Pending? || i == 0;
  }

  // ---- what releasing, waking and cancelling are for --------------------------------------

  /** The queue keeps its tickets in order, and only its head may have been woken. */
  ghost predicate SameButHead(s: State, r: State)
  {
    && |r.waiters| == |s.waiters|
    && (forall i :: 0 < i < |s.waiters| ==> r.waiters[i] == s.waiters[i])
    && (s.waiters != [] ==>
          && r.waiters[0].ticket == s.waiters[0].ticket
          && r.waiters[0].cancelRequested == s.waiters[0].cancelRequested
          && r.waiters[0].fut == if s.waiters[0].fut.Pending? then Done else s.waiters[0].fut)
  }

  /** `acquire` has the lock at once exactly if nobody holds it and everybody in the queue was cancelled;
      otherwise it queues behind the others, and changes nothing else. */
  lemma {:induction false} AcquireTakesOrQueues(s: State)
    requires Inv(s)
    ensures var r := Next(s, StartStep);
            && r.next == s.next + 1 && r.cancelled == s.cancelled
            && if !s.locked && forall i :: 0 <= i < |s.waiters| ==> s.waiters[i].fut == Cancelled then
                 && r.locked && r.holders == {s.next} && r.acquired == s.acquired + [s.next] && r.waiters == s.waiters
               else
                 && r.locked == s.locked && r.holders == s.holders && r.acquired == s.acquired
                 && r.waiters == s.waiters + [Waiter(s.next, Pending, false)]
  {
    hide Spared, Accounted;
  }

  /** A cancelled `acquire` gives its place up without taking the lock, and changes no other waiter
      until it has left. */
  lemma {:induction false} CancelledGivesUp(s: State, i: nat)
    requires Inv(s) && i < |s.waiters|
    ensures var r := Next(s, CancelStep(i));
            && !r.waiters[i].fut.Pending? && r.cancelled == s.cancelled + {s.waiters[i].ticket}
            && |r.waiters| == |s.waiters|
            && (forall k :: 0 <= k < |s.waiters| && k != i ==> r.waiters[k] == s.waiters[k])
            && r.locked == s.locked && r.holders == s.holders && r.acquired == s.acquired
            && var t := Next(r, ResumeStep(i));
               t.locked == s.locked && t.holders == s.holders && t.acquired == s.acquired
  {
    hide Accounted;
  }

  /** The holder's release frees the lock for everybody and wakes the head of the queue; if nobody can
      take it, the next `acquire` has it at once. */
  lemma {:induction false} ReleaseFrees(s: State, ticket: nat)
    requires Inv(s) && ticket in s.holders
    ensures var r := Next(s, ReleaseStep(ticket));
            && !r.locked && r.holders == {}
            && r.acquired == s.acquired && r.next == s.next && r.cancelled == s.cancelled
            && SameButHead(s, r)
            && (s.waiters == [] ==>
                  var t := StartAcquire(r); t.locked && t.holders == {s.next} && t.acquired == s.acquired + [s.next])
  {
    hide Spared, Accounted;
    assert s.holders == {ticket};
    assert AllCancelled([]);
  }

  /** A free lock handed from head to head. */
  ghost function HandedOver(s: State): (r: State)
    decreases |s.waiters|
  {
    if s.locked || s.waiters == [] || s.waiters[0].fut.Pending? then s else HandedOver(Resume(s, 0))
  }

  /** Without more cancellations, running the head of a free lock's queue again and again gives the
      lock to the first ticket in it that was not cancelled, and leaves the ones behind it queued; if
      all were cancelled the queue empties and the lock stays free. */
  lemma {:induction false} FirstUncancelledTakesIt(s: State, k: nat)
    requires Inv(s) && !s.locked && k <= |s.waiters|
    requires forall i :: 0 <= i < k ==> s.waiters[i].ticket in s.cancelled
    requires k < |s.waiters| ==> s.waiters[k].ticket !in s.cancelled
    ensures var r := HandedOver(s);
            && Inv(r)
            && if k < |s.waiters| then
                 && r.locked && r.holders == {s.waiters[k].ticket} && r.waiters == s.waiters[k + 1..]
                 && r.acquired == s.acquired + [s.waiters[k].ticket]
               else !r.locked && r.holders == {} && r.waiters == [] && r.acquired == s.acquired
    decreases |s.waiters|
  {
    hide Spared, Accounted, Resume;
    if s.waiters != [] {
      HeadIsReady(s, k);
      ResumeKeepsInv(s, 0);
      var r := Resume(s, 0);
      HeadRuns(s);
      if k > 0 {
        FirstUncancelledTakesIt(r, k - 1);
        assert k < |s.waiters| ==> r.waiters[k - 1 + 1..] == s.waiters[k + 1..];
      }
    }
  }

  lemma {:induction false} HeadIsReady(s: State, k: nat)
    requires Inv(s) && !s.locked && s.waiters != [] && k <= |s.waiters|
    requires forall i :: 0 <= i < k ==> s.waiters[i].ticket in s.cancelled
    requires k < |s.waiters| ==> s.waiters[k].ticket !in s.cancelled
    ensures !s.waiters[0].fut.Pending? && (s.waiters[0].Live() <==> k == 0)
  {
    assert s.waiters[0].Live() <==> k == 0;
  }

  lemma {:induction false} HeadRuns(s: State)
    requires Mutex(s) && !s.locked && s.waiters != [] && !s.waiters[0].fut.Pending?
    ensures var r := Resume(s, 0);
            if s.waiters[0].Live() then
              && r.locked && r.holders == {s.waiters[0].ticket} && r.waiters == s.waiters[1..]
              && r.acquired == s.acquired + [s.waiters[0].ticket]
            else
              && !r.locked && r.holders == {} && |r.waiters| == |s.waiters| - 1
              && r.acquired == s.acquired && r.cancelled == s.cancelled
              && (forall i :: 0 <= i < |r.waiters| ==> r.waiters[i].ticket == s.waiters[i + 1].ticket)
              && (forall i :: 0 < i < |r.waiters| ==> r.waiters[i] == s.waiters[i + 1])
  {
    assert s.holders == {};
    hide Mutex, Without, WakeUpFirst;
    assert Without(s.waiters, 0) == s.waiters[1..] by {
      WithoutHead(s.waiters);
    }
    if s.waiters[0].Live() {
      TakesAlone(s.(waiters := s.waiters[1..]), s.waiters[0].ticket);
    } else {
      WakesHead(s.waiters[1..]);
    }
  }

  lemma {:induction false} WithoutHead(ws: seq<Waiter>)
    requires ws != []
    ensures Without(ws, 0) == ws[1..]
  {
    assert ws[..0] + ws[1..] == ws[1..];
  }

  lemma {:induction false} WakesHead(ws: seq<Waiter>)
    ensures var r := WakeUpFirst(ws);
            && |r| == |ws| && (forall i :: 0 < i < |ws| ==> r[i] == ws[i])
            && (ws != [] ==> r[0].ticket == ws[0].ticket && !r[0].fut.Pending?)
  {
  }

  // ---- the object -----------------------------------------------------------------------

  class Lock {
    var locked: bool
    var waiters: seq<Waiter>
    ghost var holders: set<nat>
    ghost var acquired: seq<nat>
    ghost var cancelled: set<nat>
    var next: nat

    ghost function View(): (s: State)
      reads this
    {
      State(locked, waiters, holders, acquired, next, cancelled)
    }

    constructor ()
      ensures View() == INITIAL
    {
      locked, waiters, next := false, [], 0;
      holders, acquired, cancelled := {}, [], {};
    }

    /** `_wake_up_first`. */
    method WakeFirst()
      modifies this`waiters
      ensures waiters == WakeUpFirst(old(waiters))
    {
      if waiters == [] {
        return;
      }
      var fut := waiters[0];
      if fut.fut.Pending? {
        waiters := waiters[0 := fut.(fut := Done)];
        assert waiters == WakeUpFirst(old(waiters));
      }
    }

    /** `all(w.cancelled() for w in self._waiters)`. */
    method EveryoneCancelled() returns (r: bool)
      ensures r == AllCancelled(waiters)
    {
      var i := 0;
      while i < |waiters|
        invariant 0 <= i <= |waiters| && AllCancelled(waiters[..i])
      {
        if !waiters[i].fut.Cancelled? {
          return false;
        }
        i := i + 1;
      }
      assert waiters[..i] == waiters;
      return true;
    }

    /** `acquire` up to its await; `held` tells whether it returned at once. */
    method Acquire() returns (ticket: nat, held: bool)
      modifies this
      ensures View() == StartAcquire(old(View())) && ticket == old(next)
      ensures held <==> !old(locked) && AllCancelled(old(waiters))
      ensures locked == (old(locked) || held)
      ensures waiters == old(waiters) + if held then [] else [Waiter(ticket, Pending, false)]
    {
      ticket := next;
      next := next + 1;
      var free := EveryoneCancelled();
      if !locked && free {
        locked := true;
        holders, acquired := holders + {ticket}, acquired + [ticket];
        return ticket, true;
      }
      waiters := waiters + [Waiter(ticket, Pending, false)];
      return ticket, false;
    }

    /** `acquire` after its await. */
    method Continue(i: nat) returns (held: bool)
      requires i < |waiters| && !waiters[i].fut.Pending?
      modifies this
      ensures View() == Resume(old(View()), i)
      ensures held <==> old(waiters[i]).Live()
      ensures locked == (old(locked) || held)
      ensures |waiters| == |old(waiters)| - 1 && (!locked && waiters != [] ==> !waiters[0].fut.Pending?)
    {
      var w := waiters[i];
      waiters := waiters[..i] + waiters[i + 1..];
      if w.fut.Cancelled? || w.cancelRequested {
        if !locked {
          WakeFirst();
        }
        return false;
      }
      locked := true;
      holders, acquired := holders + {w.ticket}, acquired + [w.ticket];
      return true;
    }

    /** `release`: False stands for the RuntimeError on an unlocked lock. */
    method ReleaseLock(ghost ticket: nat) returns (ok: bool)
      modifies this
      ensures ok == old(locked)
      ensures View() == if ok then Release(old(View()), ticket) else old(View())
      ensures !locked && next == old(next) && |waiters| == |old(waiters)|
      ensures forall i :: 0 < i < |waiters| ==> waiters[i] == old(waiters)[i]
      ensures ok ==> holders == old(holders) - {ticket} && (waiters != [] ==> !waiters[0].fut.Pending?)
    {
      if locked {
        locked := false;
        holders := holders - {ticket};
        WakeFirst();
        return true;
      }
      return false;
    }
  }
}
