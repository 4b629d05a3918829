/**
 `Condition` of pymongo/_asyncio_lock.py over the lock of AsyncLock, again as the atomic steps
 between awaits.  A call of `wait` is numbered; while it re-acquires the lock it is known by the
 ticket of its current `acquire`, together with whether it had been notified and whether an
 exception is already on its way out.
 */
module AsyncCondition {

  import opened AsyncLock

  /** A `wait` blocked on its own future. */
  datatype Blocked = Blocked(wait: nat, fut: Future, cancelRequested: bool)

  /** A `wait` inside its re-acquire loop. */
  datatype Again = Again(wait: nat, notified: bool, failed: bool)

  datatype Exit = Exit(wait: nat, ticket: nat, raised: bool)

  /** What the notifications came to: `given` by `notify`, `extra` by the exit of a wait that was
      never notified, `lost` by a notified wait that failed when nobody was left to pass it on to. */
  datatype Ledger = Ledger(given: nat, extra: nat, returned: nat, lost: nat)

  /** `cancels` names the waits that were cancelled, whichever future they were waiting on. */
  datatype State = State(lock: AsyncLock.State, blocked: seq<Blocked>, again: map<nat, Again>,
                         exits: seq<Exit>, started: nat, ledger: Ledger, cancels: set<nat>)

  const START: State := State.State(AsyncLock.INITIAL, [], map[], [], 0, Ledger(0, 0, 0, 0), {})

  // ---- notify ---------------------------------------------------------------------------

  function PendingCount(ws: seq<Blocked>): (n: nat)
    ensures n <= |ws|
  {
    if ws == [] then 0 else PendingCount(ws[..|ws| - 1]) + if ws[|ws| - 1].fut.Pending? then 1 else 0
  }

  function NotifiedCount(ws: seq<Blocked>): (n: nat)
  {
    if ws == [] then 0 else NotifiedCount(ws[..|ws| - 1]) + if ws[|ws| - 1].fut.Done? then 1 else 0
  }

  /** The waiters once the first `n` pending ones have been woken. */
  function Notified(ws: seq<Blocked>, n: int): (r: seq<Blocked>)
    ensures |r| == |ws|
  {
    seq(|ws|, i requires 0 <= i < |ws| =>
      if ws[i].fut.Pending? && PendingCount(ws[..i]) < n then ws[i].(fut := Done) else ws[i])
  }

  function Min(a: int, b: int): (r: int) { if a <= b then a else b }

  function Effective(ws: seq<Blocked>, n: int): (r: nat)
  {
    if n <= 0 then 0 else Min(n, PendingCount(ws))
  }

  lemma {:induction false} NotifyCounts(ws: seq<Blocked>, n: int)
    ensures var r := Notified(ws, n);
            && PendingCount(r) == PendingCount(ws) - Effective(ws, n)
            && NotifiedCount(r) == NotifiedCount(ws) + Effective(ws, n)
  {
    if ws != [] {
      var k := |ws| - 1;
      var r := Notified(ws, n);
      NotifyCounts(ws[..k], n);
      assert forall i :: 0 <= i < k ==> ws[..k][..i] == ws[..i];
      assert r[..k] == Notified(ws[..k], n);
    }
  }

  /** `notify(n)` wakes exactly min(n, pending) waiters, and nobody who is left pending came
      before one who was woken. */
  lemma {:induction false} NotifyWakes(ws: seq<Blocked>, n: int)
    ensures var r := Notified(ws, n);
            && PendingCount(r) == PendingCount(ws) - Effective(ws, n)
            && NotifiedCount(r) == NotifiedCount(ws) + Effective(ws, n)
    ensures var r := Notified(ws, n);
            forall i, j :: 0 <= i < j < |ws| && r[i].fut.Pending? && ws[j].fut.Pending? ==> r[j].fut.Pending?
    ensures forall i :: 0 <= i < |ws| && !ws[i].fut.Pending? ==> Notified(ws, n)[i] == ws[i]
    ensures forall i :: 0 <= i < |ws| && ws[i].fut.Pending? ==>
              var r := Notified(ws, n); r[i] == ws[i] || r[i] == ws[i].(fut := Done)
  {
    hide PendingCount, NotifiedCount, Effective;
    NotifyCounts(ws, n);
    var r := Notified(ws, n);
    forall i, j | 0 <= i < j < |ws| && r[i].fut.Pending? && ws[j].fut.Pending? ensures r[j].fut.Pending? {
      PendingCountMonotone(ws, i, j);
    }
  }

  lemma {:induction false} PendingCountMonotone(ws: seq<Blocked>, i: nat, j: nat)
    requires i <= j <= |ws|
    ensures PendingCount(ws[..i]) <= PendingCount(ws[..j])
  {
    if i < j {
      PendingCountMonotone(ws, i, j - 1);
      assert ws[..j][..j - 1] == ws[..j - 1];
    }
  }

  // ---- steps ----------------------------------------------------------------------------

  /** Leaving `wait` with the lock taken by `ticket`: an exception wakes somebody else first. */
  function Finish(s: State, ticket: nat, a: Again): (r: State)
  {
    var exits := s.exits + [Exit(a.wait, ticket, a.failed)];
    if !a.failed then
      s.(exits := exits, ledger := s.ledger.(returned := s.ledger.returned + 1))
    else
      var passed := Effective(s.blocked, 1);
      s.(exits := exits, blocked := Notified(s.blocked, 1),
         ledger := if a.notified then s.ledger.(lost := s.ledger.lost + 1 - passed)
                   else s.ledger.(extra := s.ledger.extra + passed))
  }

  /** One turn of the loop around `acquire`, up to its await. */
  function Reacquire(s: State, a: Again): (r: State)
  {
    var ticket := s.lock.next;
    var t := s.(lock := StartAcquire(s.lock));
    if ticket in t.lock.holders then Finish(t, ticket, a) else t.(again := s.again[ticket := a])
  }

  /** `wait` by the holder of `ticket`, up to its first await. */
  function StartWait(s: State, ticket: nat): (r: State)
  {
    s.(lock := Release(s.lock, ticket), started := s.started + 1,
       blocked := s.blocked + [Blocked(s.started, Pending, false)])
  }

  function CancelBlocked(s: State, i: nat): (r: State)
    requires i < |s.blocked|
  {
    var w := s.blocked[i];
    var w' := if w.fut.Pending? then w.(fut := Cancelled)
              else if w.fut.Done? then w.(cancelRequested := true) else w;
    s.(blocked := s.blocked[i := w'], cancels := s.cancels + {w.wait})
  }

  /** The task at place `i` of the lock's queue is cancelled; it may be a wait that re-acquires. */
  function CancelLock(s: State, i: nat): (r: State)
    requires i < |s.lock.waiters|
  {
    var ticket := s.lock.waiters[i].ticket;
    s.(lock := Cancel(s.lock, i),
       cancels := if ticket in s.again then s.cancels + {s.again[ticket].wait} else s.cancels)
  }

  /** `wait` after its own future: leaves the queue and starts to re-acquire. */
  function ResumeBlocked(s: State, i: nat): (r: State)
    requires i < |s.blocked| && !s.blocked[i].fut.Pending?
  {
    var w := s.blocked[i];
    Reacquire(s.(blocked := s.blocked[..i] + s.blocked[i + 1..]),
              Again(w.wait, w.fut.Done?, w.fut.Cancelled? || w.cancelRequested))
  }

  /** The task at place `i` of the lock's queue runs: a re-acquiring `wait` finishes or, when
      cancelled, notes the exception and tries again; any other caller is left to itself. */
  function ResumeLock(s: State, i: nat): (r: State)
    requires i < |s.lock.waiters| && !s.lock.waiters[i].fut.Pending?
  {
    var w := s.lock.waiters[i];
    var t := s.(lock := Resume(s.lock, i), again := s.again - {w.ticket});
    if w.ticket !in s.again then t
    else if w.Live() then Finish(t, w.ticket, s.again[w.ticket])
    else Reacquire(t, s.again[w.ticket].(failed := true))
  }

  function Notify(s: State, n: int): (r: State)
  {
    s.(blocked := Notified(s.blocked, n),
       ledger := s.ledger.(given := s.ledger.given + Effective(s.blocked, n)))
  }

  datatype Step =
    | AcquireStep | CancelLockStep(i: nat) | ResumeLockStep(i: nat) | ReleaseStep(ticket: nat)
    | WaitStep(ticket: nat) | CancelWaitStep(i: nat) | ResumeWaitStep(i: nat) | NotifyStep(n: int)

  predicate Enabled(s: State, step: Step)
  {
    match step
    case AcquireStep => true
    case CancelLockStep(i) => i < |s.lock.waiters|
    case ResumeLockStep(i) => i < |s.lock.waiters| && !s.lock.waiters[i].fut.Pending?
    case ReleaseStep(ticket) => ticket in s.lock.holders
    case WaitStep(ticket) => ticket in s.lock.holders
    case CancelWaitStep(i) => i < |s.blocked|
    case ResumeWaitStep(i) => i < |s.blocked| && !s.blocked[i].fut.Pending?
    case NotifyStep(n) => s.lock.locked
  }

  function Next(s: State, step: Step): (r: State)
    requires Enabled(s, step)
  {
    match step
    case AcquireStep => s.(lock := StartAcquire(s.lock))
    case CancelLockStep(i) => CancelLock(s, i)
    case ResumeLockStep(i) => ResumeLock(s, i)
    case ReleaseStep(ticket) => s.(lock := Release(s.lock, ticket))
    case WaitStep(ticket) => StartWait(s, ticket)
    case CancelWaitStep(i) => CancelBlocked(s, i)
    case ResumeWaitStep(i) => ResumeBlocked(s, i)
    case NotifyStep(n) => Notify(s, n)
  }

  // ---- the invariant --------------------------------------------------------------------

  /** Tickets of re-acquiring waits that had been notified. */
  ghost function Carried(again: map<nat, Again>): (r: set<nat>)
  {
    set t | t in again && again[t].notified
  }

  /** Notifications handed out and not yet accounted for. */
  ghost function InFlight(s: State): (n: nat)
  {
    NotifiedCount(s.blocked) + |Carried(s.again)|
  }

  /** Every notification is with a waiter, came back as a normal return, or was lost. */
  ghost predicate Conserved(s: State)
  {
    s.ledger.given + s.ledger.extra == s.ledger.returned + s.ledger.lost + InFlight(s)
  }

  /** Re-acquiring waits stand in the lock's queue, a wait on its way out without an exception has
      been notified, and no call of `wait` disappears. */
  ghost predicate Tracked(s: State)
  {
    && (forall t | t in s.again :: Queued(s.lock, t))
    && (forall t | t in s.again :: s.again[t].notified || s.again[t].failed)
    && s.started == |s.blocked| + |s.again| + |s.exits|
  }

  ghost predicate Sound(s: State)
  {
    AsyncLock.Inv(s.lock) && Tracked(s) && Conserved(s)
  }

  // ---- counting lemmas ------------------------------------------------------------------

  lemma {:induction false} CountsWithout(ws: seq<Blocked>, i: nat)
    requires i < |ws|
    ensures NotifiedCount(ws[..i] + ws[i + 1..]) == NotifiedCount(ws) - if ws[i].fut.Done? then 1 else 0
  {
    var k := |ws| - 1;
    if i == k {
      assert ws[..i] + ws[i + 1..] == ws[..k];
    } else {
      CountsWithout(ws[..k], i);
      assert (ws[..i] + ws[i + 1..])[..k - 1] == ws[..k][..i] + ws[..k][i + 1..];
    }
  }

  lemma {:induction false} CountsUpdated(ws: seq<Blocked>, i: nat, w: Blocked)
    requires i < |ws| && w.fut.Done? == ws[i].fut.Done?
    ensures NotifiedCount(ws[i := w]) == NotifiedCount(ws)
  {
    var k := |ws| - 1;
    if i == k {
      assert ws[i := w][..k] == ws[..k];
    } else {
      CountsUpdated(ws[..k], i, w);
      assert ws[i := w][..k] == ws[..k][i := w];
    }
  }

  lemma {:induction false} CarriedAdds(again: map<nat, Again>, ticket: nat, a: Again)
    requires ticket !in again
    ensures |Carried(again[ticket := a])| == |Carried(again)| + if a.notified then 1 else 0
    ensures |again[ticket := a]| == |again| + 1
  {
    var more := again[ticket := a];
    assert more.Keys == again.Keys + {ticket};
    if a.notified {
      assert Carried(more) == Carried(again) + {ticket};
    } else {
      assert Carried(more) == Carried(again);
    }
  }

  lemma {:induction false} CarriedDrops(again: map<nat, Again>, ticket: nat)
    requires ticket in again
    ensures |Carried(again - {ticket})| == |Carried(again)| - if again[ticket].notified then 1 else 0
    ensures |again - {ticket}| == |again| - 1
  {
    CarriedAdds(again - {ticket}, ticket, again[ticket]);
    assert (again - {ticket})[ticket := again[ticket]] == again;
  }

  // ---- step lemmas ----------------------------------------------------------------------

  /** What is still owed while a wait is between its queues. */
  ghost predicate Between(s: State, a: Again)
  {
    && AsyncLock.Inv(s.lock)
    && (forall t | t in s.again :: Queued(s.lock, t))
    && (forall t | t in s.again :: s.again[t].notified || s.again[t].failed)
    && s.started == |s.blocked| + |s.again| + |s.exits| + 1
    && (a.notified || a.failed)
    && s.ledger.given + s.ledger.extra
       == s.ledger.returned + s.ledger.lost + InFlight(s) + if a.notified then 1 else 0
  }

  lemma {:induction false} FinishKeeps(s: State, ticket: nat, a: Again)
    requires Between(s, a)
    ensures Sound(Finish(s, ticket, a))
  {
    NotifyWakes(s.blocked, 1);
  }

  lemma {:induction false} StartQueues(l: AsyncLock.State)
    requires AsyncLock.Inv(l)
    ensures var m := StartAcquire(l);
            && (forall t | Queued(l, t) :: Queued(m, t))
            && (l.next in m.holders || Queued(m, l.next))
            && !Queued(l, l.next)
            && (l.next in m.holders ==> m.holders == {l.next})
  {
    var m := StartAcquire(l);
    forall t | Queued(l, t) ensures Queued(m, t) {
      var i :| 0 <= i < |l.waiters| && l.waiters[i].ticket == t;
      assert m.waiters[i].ticket == t;
    }
    if |m.waiters| == |l.waiters| + 1 {
      assert m.waiters[|l.waiters|].ticket == l.next;
    }
    if m.waiters == l.waiters {
      assert l.holders == {};
    }
  }

  lemma {:induction false} ReacquireKeeps(s: State, a: Again)
    requires Between(s, a)
    ensures Sound(Reacquire(s, a))
  {
    hide AsyncLock.Inv, StartAcquire, Finish, NotifiedCount;
    var ticket := s.lock.next;
    StartKeepsInv(s.lock);
    StartQueues(s.lock);
    var t := s.(lock := StartAcquire(s.lock));
    assert Between(t, a);
    if ticket in t.lock.holders {
      FinishKeeps(t, ticket, a);
    } else {
      CarriedAdds(s.again, ticket, a);
    }
  }

  lemma {:induction false} WaitKeeps(s: State, ticket: nat)
    requires Sound(s) && ticket in s.lock.holders
    ensures Sound(StartWait(s, ticket))
  {
    var r := StartWait(s, ticket);
    ReleaseKeepsInv(s.lock, ticket);
    SameTickets(s.lock, r.lock);
    assert r.blocked[..|s.blocked|] == s.blocked;
  }

  /** `wait` lets go of the lock before it blocks: others can take it, and so can notify. */
  lemma {:induction false} WaitFrees(s: State, ticket: nat)
    requires Sound(s) && ticket in s.lock.holders
    ensures var r := Next(s, WaitStep(ticket));
            && !r.lock.locked && r.lock.holders == {} && SameButHead(s.lock, r.lock)
            && r.blocked == s.blocked + [Blocked(s.started, Pending, false)] && r.exits == s.exits
            && (s.lock.waiters == [] ==> StartAcquire(r.lock).holders == {s.lock.next})
  {
    hide SameButHead, AsyncLock.Inv;
    ReleaseFrees(s.lock, ticket);
  }

  lemma {:induction false} SameTickets(l: AsyncLock.State, m: AsyncLock.State)
    requires |l.waiters| == |m.waiters|
    requires forall i :: 0 <= i < |l.waiters| ==> l.waiters[i].ticket == m.waiters[i].ticket
    ensures forall t | Queued(l, t) :: Queued(m, t)
  {
    forall t | Queued(l, t) ensures Queued(m, t) {
      var i :| 0 <= i < |l.waiters| && l.waiters[i].ticket == t;
      assert m.waiters[i].ticket == t;
    }
  }

  lemma {:induction false} ResumeBlockedKeeps(s: State, i: nat)
    requires Sound(s) && i < |s.blocked| && !s.blocked[i].fut.Pending?
    ensures Sound(ResumeBlocked(s, i))
  {
    CountsWithout(s.blocked, i);
    var w := s.blocked[i];
    ReacquireKeeps(s.(blocked := s.blocked[..i] + s.blocked[i + 1..]),
                   Again(w.wait, w.fut.Done?, w.fut.Cancelled? || w.cancelRequested));
  }

  /** Leaving the lock's queue takes away one ticket and no other. */
  lemma {:induction false} ResumeQueues(l: AsyncLock.State, i: nat)
    requires AsyncLock.Inv(l) && i < |l.waiters| && !l.waiters[i].fut.Pending?
    ensures forall t | Queued(l, t) && t != l.waiters[i].ticket :: Queued(Resume(l, i), t)
  {
    var m := Resume(l, i);
    WithoutMembers(l.waiters, i);
    forall t | Queued(l, t) && t != l.waiters[i].ticket ensures Queued(m, t) {
      var k :| 0 <= k < |l.waiters| && l.waiters[k].ticket == t;
      assert m.waiters[if k < i then k else k - 1].ticket == t;
    }
  }

  lemma {:induction false} ResumeLockKeeps(s: State, i: nat)
    requires Sound(s) && i < |s.lock.waiters| && !s.lock.waiters[i].fut.Pending?
    ensures Sound(ResumeLock(s, i))
  {
    hide AsyncLock.Inv, Resume, Finish, Reacquire, Queued, NotifiedCount, Conserved, Between;
    var w := s.lock.waiters[i];
    var t := s.(lock := Resume(s.lock, i), again := s.again - {w.ticket});
    ResumeKeepsInv(s.lock, i);
    ResumeQueues(s.lock, i);
    if w.ticket !in s.again {
      assert t.again == s.again;
      SameConserved(s, t);
    } else {
      AgainLeaves(s, Resume(s.lock, i), w.ticket);
      if w.Live() {
        FinishKeeps(t, w.ticket, s.again[w.ticket]);
      } else {
        var a := s.again[w.ticket].(failed := true);
        FailedBetween(t, s.again[w.ticket]);
        ReacquireKeeps(t, a);
      }
    }
  }

  lemma {:induction false} SameConserved(s: State, r: State)
    requires Conserved(s) && r.ledger == s.ledger && r.blocked == s.blocked && r.again == s.again
    ensures Conserved(r)
  {
  }

  /** A re-acquiring wait whose `acquire` came back is between its queues. */
  lemma {:induction false} AgainLeaves(s: State, lock: AsyncLock.State, ticket: nat)
    requires Tracked(s) && Conserved(s) && ticket in s.again && AsyncLock.Inv(lock)
    requires forall t | Queued(s.lock, t) && t != ticket :: Queued(lock, t)
    ensures Between(s.(lock := lock, again := s.again - {ticket}), s.again[ticket])
  {
    hide AsyncLock.Inv, Queued, NotifiedCount;
    CarriedDrops(s.again, ticket);
  }

  lemma {:induction false} FailedBetween(s: State, a: Again)
    requires Between(s, a)
    ensures Between(s, a.(failed := true))
  {
  }

  lemma {:induction false} StepKeeps(s: State, step: Step)
    requires Sound(s) && Enabled(s, step)
    ensures Sound(Next(s, step))
  {
    match step
    case AcquireStep =>
      StartKeepsInv(s.lock);
      StartQueues(s.lock);
    case CancelLockStep(i) =>
      CancelKeepsInv(s.lock, i);
      SameTickets(s.lock, Cancel(s.lock, i));
    case ResumeLockStep(i) => ResumeLockKeeps(s, i);
    case ReleaseStep(ticket) =>
      ReleaseKeepsInv(s.lock, ticket);
      SameTickets(s.lock, Release(s.lock, ticket));
    case WaitStep(ticket) => WaitKeeps(s, ticket);
    case CancelWaitStep(i) => CountsUpdated(s.blocked, i, CancelBlocked(s, i).blocked[i]);
    case ResumeWaitStep(i) => ResumeBlockedKeeps(s, i);
    case NotifyStep(n) => NotifyWakes(s.blocked, n);
  }

  // ---- what an exit from wait means -----------------------------------------------------

  /** The step that ended a wait left its caller as the only holder of the lock. */
  ghost predicate ExitHoldsLock(s: State, r: State)
  {
    && s.exits <= r.exits
    && |r.exits| <= |s.exits| + 1
    && (|r.exits| > |s.exits| ==> r.lock.locked && r.lock.holders == {r.exits[|s.exits|].ticket})
  }

  /** A step loses a notification only if it leaves nobody pending on the condition. */
  ghost predicate LosesOnlyAlone(s: State, r: State)
  {
    && s.ledger.lost <= r.ledger.lost <= s.ledger.lost + 1
    && (r.ledger.lost > s.ledger.lost ==> PendingCount(r.blocked) == 0)
  }

  /** A wait that ends with an exception has woken the first pending waiter, if there is one. */
  ghost predicate PassesOn(s: State, r: State)
  {
    |r.exits| > |s.exits| && r.exits[|s.exits|].raised
    ==> exists b: seq<Blocked> ::
          |b| <= |s.blocked| && r.blocked == Notified(b, 1) && (b == s.blocked || IsWithout(b, s.blocked))
  }

  ghost predicate IsWithout(b: seq<Blocked>, all: seq<Blocked>)
  {
    exists i :: 0 <= i < |all| && !all[i].fut.Pending? && b == all[..i] + all[i + 1..]
  }

  lemma {:induction false} FinishExits(s: State, ticket: nat, a: Again)
    requires AsyncLock.Inv(s.lock) && ticket in s.lock.holders
    ensures ExitHoldsLock(s, Finish(s, ticket, a)) && LosesOnlyAlone(s, Finish(s, ticket, a))
    ensures a.failed ==> Finish(s, ticket, a).blocked == Notified(s.blocked, 1)
  {
    NotifyWakes(s.blocked, 1);
    assert s.lock.holders == {s.lock.acquired[|s.lock.acquired| - 1]};
  }

  lemma {:induction false} ReacquireExits(s: State, a: Again)
    requires AsyncLock.Inv(s.lock)
    ensures ExitHoldsLock(s, Reacquire(s, a)) && LosesOnlyAlone(s, Reacquire(s, a))
    ensures |Reacquire(s, a).exits| > |s.exits| ==>
              Reacquire(s, a).exits[|s.exits|].raised == a.failed
    ensures |Reacquire(s, a).exits| > |s.exits| && a.failed ==>
              Reacquire(s, a).blocked == Notified(s.blocked, 1)
  {
    StartKeepsInv(s.lock);
    var t := s.(lock := StartAcquire(s.lock));
    if s.lock.next in t.lock.holders {
      FinishExits(t, s.lock.next, a);
    }
  }

  lemma {:induction false} ResumeLockExits(s: State, i: nat)
    requires AsyncLock.Inv(s.lock) && i < |s.lock.waiters| && !s.lock.waiters[i].fut.Pending?
    ensures var r := ResumeLock(s, i);
            ExitHoldsLock(s, r) && LosesOnlyAlone(s, r) && PassesOn(s, r)
  {
    hide AsyncLock.Inv, Notified, Reacquire, StartAcquire;
    var w := s.lock.waiters[i];
    var t := s.(lock := Resume(s.lock, i), again := s.again - {w.ticket});
    ResumeKeepsInv(s.lock, i);
    if w.ticket in s.again {
      if w.Live() {
        FinishExits(t, w.ticket, s.again[w.ticket]);
      } else {
        ReacquireExits(t, s.again[w.ticket].(failed := true));
      }
    }
  }

  lemma {:induction false} ResumeBlockedExits(s: State, i: nat)
    requires AsyncLock.Inv(s.lock) && i < |s.blocked| && !s.blocked[i].fut.Pending?
    ensures var r := ResumeBlocked(s, i);
            ExitHoldsLock(s, r) && LosesOnlyAlone(s, r) && PassesOn(s, r)
  {
    hide AsyncLock.Inv, Notified, Reacquire, StartAcquire;
    var w := s.blocked[i];
    var b := s.blocked[..i] + s.blocked[i + 1..];
    assert IsWithout(b, s.blocked);
    ReacquireExits(s.(blocked := b), Again(w.wait, w.fut.Done?, w.fut.Cancelled? || w.cancelRequested));
  }

  /** Every exit from `wait`, normal or cancelled, leaves the caller holding the lock; an exit by
      exception passes a notification on to the first pending waiter, so one is lost only when
      nobody is left to take it. */
  lemma {:induction false} ExitsAreSafe(s: State, step: Step)
    requires Sound(s) && Enabled(s, step)
    ensures var r := Next(s, step);
            ExitHoldsLock(s, r) && LosesOnlyAlone(s, r) && PassesOn(s, r)
  {
    hide AsyncLock.Inv, Notified, Tracked, Conserved, Reacquire;
    match step
    case ResumeLockStep(i) => ResumeLockExits(s, i);
    case ResumeWaitStep(i) => ResumeBlockedExits(s, i);
    case _ =>
  }

  // ---- who raises -----------------------------------------------------------------------

  /** Wherever a wait is, it is on its way to an exception exactly if it was cancelled. */
  ghost predicate Fated(s: State)
  {
    && (forall w :: w in s.cancels ==> w < s.started)
    && (forall i :: 0 <= i < |s.blocked| ==>
          && s.blocked[i].wait < s.started
          && (s.blocked[i].wait in s.cancels <==> s.blocked[i].fut.Cancelled? || s.blocked[i].cancelRequested))
    && (forall t :: t in s.again ==>
          && s.again[t].wait < s.started
          && (s.again[t].wait in s.cancels <==> s.again[t].failed || t in s.lock.cancelled))
    && (forall k :: 0 <= k < |s.exits| ==>
          && s.exits[k].wait < s.started
          && (s.exits[k].wait in s.cancels <==> s.exits[k].raised))
  }

  /** Every wait is in one place only. */
  ghost predicate Apart(s: State)
  {
    && (forall i, j :: 0 <= i < j < |s.blocked| ==> s.blocked[i].wait != s.blocked[j].wait)
    && (forall t, u :: t in s.again && u in s.again && t != u ==> s.again[t].wait != s.again[u].wait)
    && (forall k, l :: 0 <= k < l < |s.exits| ==> s.exits[k].wait != s.exits[l].wait)
    && (forall i, t :: 0 <= i < |s.blocked| && t in s.again ==> s.blocked[i].wait != s.again[t].wait)
    && (forall i, k :: 0 <= i < |s.blocked| && 0 <= k < |s.exits| ==> s.blocked[i].wait != s.exits[k].wait)
    && (forall t, k :: t in s.again && 0 <= k < |s.exits| ==> s.again[t].wait != s.exits[k].wait)
  }

  /** `wait` is in none of them. */
  ghost predicate Nowhere(s: State, wait: nat)
  {
    && (forall i :: 0 <= i < |s.blocked| ==> s.blocked[i].wait != wait)
    && (forall t :: t in s.again ==> s.again[t].wait != wait)
    && (forall k :: 0 <= k < |s.exits| ==> s.exits[k].wait != wait)
  }

  ghost predicate Destined(s: State)
  {
    Fated(s) && Apart(s)
  }

  /** The same for a wait between its queues. */
  ghost predicate Passing(s: State, a: Again)
  {
    Destined(s) && Nowhere(s, a.wait) && a.wait < s.started && (a.wait in s.cancels <==> a.failed)
  }

  lemma {:induction false} FinishDestined(s: State, ticket: nat, a: Again)
    requires Passing(s, a)
    ensures Destined(Finish(s, ticket, a))
  {
    var r := Finish(s, ticket, a);
    assert forall k :: 0 <= k < |s.exits| ==> r.exits[k] == s.exits[k];
    assert forall i :: 0 <= i < |s.blocked| ==>
             && r.blocked[i].wait == s.blocked[i].wait && r.blocked[i].cancelRequested == s.blocked[i].cancelRequested
             && (r.blocked[i].fut.Cancelled? <==> s.blocked[i].fut.Cancelled?);
  }

  lemma {:induction false} ReacquireDestined(s: State, a: Again)
    requires AsyncLock.Inv(s.lock) && Passing(s, a)
    ensures Destined(Reacquire(s, a))
  {
    hide Finish, Fair, Accounted;
    var t := s.(lock := StartAcquire(s.lock));
    assert s.lock.next !in s.lock.cancelled;
    hide AsyncLock.Inv, Spared, AllCancelled;
    if s.lock.next in t.lock.holders {
      FinishDestined(t, s.lock.next, a);
    }
  }

  /** Taking a wait out of the blocked ones. */
  lemma {:induction false} LeaveBlocked(s: State, i: nat)
    requires Destined(s) && i < |s.blocked|
    ensures var r := s.(blocked := s.blocked[..i] + s.blocked[i + 1..]);
            Destined(r) && Nowhere(r, s.blocked[i].wait)
  {
    var r := s.(blocked := s.blocked[..i] + s.blocked[i + 1..]);
    assert forall k :: 0 <= k < |r.blocked| ==> r.blocked[k] == s.blocked[if k < i then k else k + 1];
  }

  lemma {:induction false} ResumeBlockedDestined(s: State, i: nat)
    requires AsyncLock.Inv(s.lock) && Destined(s) && i < |s.blocked| && !s.blocked[i].fut.Pending?
    ensures Destined(ResumeBlocked(s, i))
  {
    hide AsyncLock.Inv, Reacquire, Apart, Nowhere;
    var w := s.blocked[i];
    LeaveBlocked(s, i);
    ReacquireDestined(s.(blocked := s.blocked[..i] + s.blocked[i + 1..]),
                      Again(w.wait, w.fut.Done?, w.fut.Cancelled? || w.cancelRequested));
  }

  lemma {:induction false} ResumeLockDestined(s: State, i: nat)
    requires AsyncLock.Inv(s.lock) && Destined(s) && i < |s.lock.waiters| && !s.lock.waiters[i].fut.Pending?
    ensures Destined(ResumeLock(s, i))
  {
    hide Fair, Accounted, Reacquire, Finish;
    var w := s.lock.waiters[i];
    var t := s.(lock := Resume(s.lock, i), again := s.again - {w.ticket});
    ResumeKeepsInv(s.lock, i);
    assert w.Live() <==> w.ticket !in s.lock.cancelled;
    hide AsyncLock.Inv, Spared;
    if w.ticket in s.again {
      if w.Live() {
        FinishDestined(t, w.ticket, s.again[w.ticket]);
      } else {
        ReacquireDestined(t, s.again[w.ticket].(failed := true));
      }
    }
  }

  lemma {:induction false} StepDestined(s: State, step: Step)
    requires AsyncLock.Inv(s.lock) && Destined(s) && Enabled(s, step)
    ensures Destined(Next(s, step))
  {
    hide AsyncLock.Inv, ResumeLock, ResumeBlocked, AllCancelled, CancelLock, CancelBlocked, StartWait, Fated, Apart;
    match step
    case ResumeLockStep(i) => ResumeLockDestined(s, i);
    case ResumeWaitStep(i) => ResumeBlockedDestined(s, i);
    case CancelLockStep(i) => CancelLockDestined(s, i);
    case CancelWaitStep(i) => CancelWaitDestined(s, i);
    case WaitStep(ticket) => WaitDestined(s, ticket);
    case NotifyStep(n) => NotifyDestined(s, n);
    case AcquireStep => LockDestined(s, StartAcquire(s.lock));
    case ReleaseStep(ticket) => LockDestined(s, Release(s.lock, ticket));
  }

  lemma {:induction false} LockDestined(s: State, lock: AsyncLock.State)
    requires Destined(s) && lock.cancelled == s.lock.cancelled
    ensures Destined(s.(lock := lock))
  {
  }

  lemma {:induction false} CancelLockDestined(s: State, i: nat)
    requires Destined(s) && i < |s.lock.waiters|
    ensures Destined(CancelLock(s, i))
  {
  }

  lemma {:induction false} CancelWaitDestined(s: State, i: nat)
    requires Destined(s) && i < |s.blocked|
    ensures Destined(CancelBlocked(s, i))
  {
  }

  lemma {:induction false} WaitDestined(s: State, ticket: nat)
    requires Destined(s)
    ensures Destined(StartWait(s, ticket))
  {
    assert forall i :: 0 <= i < |s.blocked| ==> StartWait(s, ticket).blocked[i] == s.blocked[i];
  }

  lemma {:induction false} NotifyDestined(s: State, n: int)
    requires Destined(s)
    ensures Destined(Notify(s, n))
  {
  }

  // ---- runs -----------------------------------------------------------------------------

  ghost predicate IsRun(s: State, steps: seq<Step>)
    decreases |steps|
  {
    steps != [] ==> Enabled(s, steps[0]) && IsRun(Next(s, steps[0]), steps[1..])
  }

  ghost function After(s: State, steps: seq<Step>): (r: State)
    requires IsRun(s, steps)
    decreases |steps|
  {
    if steps == [] then s else After(Next(s, steps[0]), steps[1..])
  }

  /** Over every run the lock stays safe and notifications are conserved: those given, plus the
      spurious ones, are the normal returns, the ones still carried by a waiter, and the ones lost.  A
      wait ends once, and with an exception exactly if it was cancelled. */
  lemma {:induction false} EveryRunConserves(s: State, steps: seq<Step>)
    requires Sound(s) && Destined(s) && IsRun(s, steps)
    decreases |steps|
    ensures var r := After(s, steps);
            && Sound(r) && Destined(r)
            && (forall k :: 0 <= k < |r.exits| ==> (r.exits[k].raised <==> r.exits[k].wait in r.cancels))
            && (forall k, l :: 0 <= k < l < |r.exits| ==> r.exits[k].wait != r.exits[l].wait)
  {
    hide Next, AsyncLock.Inv, Tracked, Conserved;
    if steps != [] {
      StepKeeps(s, steps[0]);
      StepDestined(s, steps[0]);
      EveryRunConserves(Next(s, steps[0]), steps[1..]);
    }
  }

  lemma {:induction false} InitiallyConserved()
    ensures Sound(START) && Destined(START)
  {
  }

  // ---- the object -----------------------------------------------------------------------

  class Condition {
    const lock: Lock
    var blocked: seq<Blocked>
    /** The suspended `wait` calls that are re-acquiring. */
    var again: map<nat, Again>
    var exits: seq<Exit>
    var started: nat
    ghost var ledger: Ledger
    ghost var cancels: set<nat>

    ghost function View(): (s: State)
      reads this, lock
    {
      State.State(lock.View(), blocked, again, exits, started, ledger, cancels)
    }

    constructor (lock: Lock)
      ensures this.lock == lock && View() == START.(lock := lock.View())
    {
      this.lock := lock;
      blocked, again, exits, started := [], map[], [], 0;
      ledger, cancels := Ledger(0, 0, 0, 0), {};
    }

    /** `_notify`. */
    method Wake(n: int)
      modifies this`blocked
      ensures blocked == Notified(old(blocked), n)
    {
      var idx := 0;
      var i := 0;
      while i < |blocked|
        invariant 0 <= i <= |blocked| == |old(blocked)|
        invariant idx == if n <= 0 then 0 else Min(n, PendingCount(old(blocked)[..i]))
        invariant forall k :: 0 <= k < i ==> blocked[k] == Notified(old(blocked), n)[k]
        invariant forall k :: i <= k < |blocked| ==> blocked[k] == old(blocked)[k]
      {
        assert old(blocked)[..i + 1][..i] == old(blocked)[..i];
        if idx >= n {
          break;
        }
        if blocked[i].fut.Pending? {
          idx := idx + 1;
          blocked := blocked[i := blocked[i].(fut := Done)];
        }
        i := i + 1;
      }
      forall k | i <= k < |blocked| ensures blocked[k] == Notified(old(blocked), n)[k] {
        PendingCountMonotone(old(blocked), i, k);
      }
    }

    /** `notify`: False stands for the RuntimeError on a lock nobody holds. */
    method NotifyWaiters(n: int) returns (ok: bool)
      modifies this
      ensures ok == lock.locked
      ensures View() == if ok then Notify(old(View()), n) else old(View())
    {
      if !lock.locked {
        return false;
      }
      ledger := ledger.(given := ledger.given + Effective(blocked, n));
      Wake(n);
      return true;
    }

    /** `wait` up to its first await: False stands for the RuntimeError on a lock nobody holds. */
    method Wait(ghost ticket: nat) returns (ok: bool)
      modifies this, lock
      ensures ok == old(lock.locked)
      ensures View() == if ok then StartWait(old(View()), ticket) else old(View())
      ensures !lock.locked && (ok ==> ticket !in lock.holders && lock.holders == old(lock.holders) - {ticket})
      ensures ok ==> blocked == old(blocked) + [Blocked(old(started), Pending, false)]
    {
      if !lock.locked {
        return false;
      }
      var released := lock.ReleaseLock(ticket);
      blocked := blocked + [Blocked(started, Pending, false)];
      started := started + 1;
      return true;
    }

    /** Leaving `wait`, by `return True` or by the exception that `a` carries. */
    method Leave(ticket: nat, a: Again) returns (raised: bool)
      modifies this
      ensures View() == Finish(old(View()), ticket, a) && raised == a.failed
    {
      exits := exits + [Exit(a.wait, ticket, a.failed)];
      raised := a.failed;
      if raised {
        var passed := Effective(blocked, 1);
        ledger := if a.notified then ledger.(lost := ledger.lost + 1 - passed)
                  else ledger.(extra := ledger.extra + passed);
        Wake(1);
      } else {
        ledger := ledger.(returned := ledger.returned + 1);
      }
    }

    /** One turn of the re-acquire loop. */
    method TryAgain(a: Again)
      requires forall t | t in lock.holders :: t < lock.next
      modifies this, lock
      ensures View() == Reacquire(old(View()), a)
    {
      var ticket, held := lock.Acquire();
      if held {
        var _ := Leave(ticket, a);
      } else {
        again := again[ticket := a];
      }
    }

    /** `wait` after its own future. */
    method ContinueWait(i: nat)
      requires Sound(View()) && i < |blocked| && !blocked[i].fut.Pending?
      modifies this, lock
      ensures View() == ResumeBlocked(old(View()), i) && Sound(View())
    {
      ResumeBlockedKeeps(View(), i);
      var w := blocked[i];
      blocked := blocked[..i] + blocked[i + 1..];
      TryAgain(Again(w.wait, w.fut.Done?, w.fut.Cancelled? || w.cancelRequested));
    }

    /** `wait` after one `acquire` of its loop came back or was cancelled. */
    method ContinueAcquire(i: nat)
      requires Sound(View()) && i < |lock.waiters| && !lock.waiters[i].fut.Pending?
      requires lock.waiters[i].ticket in again
      modifies this, lock
      ensures View() == ResumeLock(old(View()), i) && Sound(View())
    {
      ResumeLockKeeps(View(), i);
      ResumeKeepsInv(lock.View(), i);
      var w := lock.waiters[i];
      var a := again[w.ticket];
      again := again - {w.ticket};
      var held := lock.Continue(i);
      if held {
        var _ := Leave(w.ticket, a);
      } else {
        TryAgain(a.(failed := true));
      }
    }
  }
}
