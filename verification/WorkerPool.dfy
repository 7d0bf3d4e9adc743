/**
 The worker pool (src/mbox-worker.c) as a state machine: any number of workers and
 enqueuing threads, and one thread that waits. Each step is one lock-protected section, or
 one access made while another lock is held; the queue lock and the pool lock are held
 across steps, so every interleaving that the locks permit is a run.
 */
module WorkerPool {
  import opened Bytes
  import Runs

  /** A job is identified by its place in the order of enqueuing: two equal jobs stay apart. */
  type Ticket = nat

  datatype WorkerPc =
    | SemEntry                                // about to lock the semaphore
    | SemBlocked                              // asleep on the semaphore's condition
    | Passed                                  // took the semaphore, not yet counted active
    | Active                                  // counted active, about to lock the queue
    | DeqLocked                               // holds the queue lock, about to take the head
    | DeqSignal(job: Ticket)                  // took a job, about to hand the semaphore on
    | DeqUnlock(result: Option<Ticket>)       // about to release the queue lock
    | Running(ticket: Ticket)                 // inside the callback
    | Finishing                               // about to be counted inactive

  datatype EnqueuerPc =
    | EnqIdle
    | EnqLocked                               // holds the queue lock, about to add
    | EnqAdded                                // added, about to signal the semaphore
    | EnqSignalled                            // about to release the queue lock

  datatype WaiterPc =
    | WaitIdle
    | WaitEntry                               // called, about to lock the pool
    | WaitLen                                 // holds the pool lock, about to read the length
    | WaitActive                              // holds the pool lock, length was 0, about to read the count
    | WaitBlocked                             // asleep on no_work
    | WaitWoken                               // signalled, about to lock the pool again
    | WaitDone                                // the call has returned

  datatype Holder = Nobody | ByWorker(w: nat) | ByEnqueuer(e: nat)

  datatype State = State(
    pcs: seq<WorkerPc>, enqs: seq<EnqueuerPc>, waiter: WaiterPc,
    queue: seq<Ticket>, val: bool, active: int, qlock: Holder,
    enqueued: nat,          // tickets handed out so far
    completed: seq<Ticket>, // callbacks that have returned, in order
    snapshot: nat           // tickets handed out when the current wait was called
  )

  datatype Step =
    | SemTake(w: nat) | SemBlock(w: nat) | SemSpurious(w: nat)
    | Activate(w: nat) | LockQueue(w: nat) | TakeHead(w: nat) | HandOn(w: nat, pcs: seq<WorkerPc>)
    | UnlockQueue(w: nat) | Complete(w: nat) | Deactivate(w: nat)
    | EnqLock(e: nat) | EnqAdd(e: nat) | EnqSignal(e: nat, pcs: seq<WorkerPc>) | EnqUnlock(e: nat)
    | WaitCall | WaitLock | WaitReadLen | WaitReadActive | WaitSpurious

  ghost predicate Init(s: State) {
    && |s.pcs| > 0 && (forall i :: 0 <= i < |s.pcs| ==> s.pcs[i] == SemEntry)
    && (forall e :: 0 <= e < |s.enqs| ==> s.enqs[e] == EnqIdle)
    && s.waiter == WaitIdle && s.queue == [] && !s.val && s.active == 0 && s.qlock == Nobody
    && s.enqueued == 0 && s.completed == [] && s.snapshot == 0
  }

  /** The pool lock; only the waiter holds it across steps. */
  ghost predicate PoolLockFree(s: State) {
    !s.waiter.WaitLen? && !s.waiter.WaitActive?
  }

  /** A signal wakes some of the sleepers, and at least one if there is one. */
  ghost predicate Wakes(before: seq<WorkerPc>, after: seq<WorkerPc>) {
    && |after| == |before|
    && (forall i :: 0 <= i < |before| ==> after[i] == before[i] || (before[i] == SemBlocked && after[i] == SemEntry))
    && (forall i :: 0 <= i < |before| && before[i] == SemBlocked ==>
          exists j :: 0 <= j < |before| && before[j] == SemBlocked && after[j] == SemEntry)
  }

  ghost predicate WorkerAt(s: State, w: nat, pc: WorkerPc) {
    w < |s.pcs| && s.pcs[w] == pc
  }

  ghost predicate EnqueuerAt(s: State, e: nat, pc: EnqueuerPc) {
    e < |s.enqs| && s.enqs[e] == pc
  }

  ghost function Goto(s: State, w: nat, pc: WorkerPc): State
    requires w < |s.pcs|
  {
    s.(pcs := s.pcs[w := pc])
  }

  ghost predicate NextStep(s: State, s': State, step: Step) {
    match step
    case SemTake(w) => WorkerAt(s, w, SemEntry) && s.val && s' == Goto(s, w, Passed).(val := false)
    case SemBlock(w) => WorkerAt(s, w, SemEntry) && !s.val && s' == Goto(s, w, SemBlocked)
    case SemSpurious(w) => WorkerAt(s, w, SemBlocked) && s' == Goto(s, w, SemEntry)
    case Activate(w) =>
      WorkerAt(s, w, Passed) && PoolLockFree(s) && s' == Goto(s, w, Active).(active := s.active + 1)
    case LockQueue(w) =>
      WorkerAt(s, w, Active) && s.qlock == Nobody && s' == Goto(s, w, DeqLocked).(qlock := ByWorker(w))
    case TakeHead(w) =>
      && WorkerAt(s, w, DeqLocked)
      && s' == if s.queue == [] then Goto(s, w, DeqUnlock(None))
               else Goto(s, w, DeqSignal(s.queue[0])).(queue := s.queue[1..])
    case HandOn(w, pcs) =>
      && w < |s.pcs| && s.pcs[w].DeqSignal? && Wakes(s.pcs, pcs)
      && s' == Goto(s.(pcs := pcs, val := true), w, DeqUnlock(Some(s.pcs[w].job)))
    case UnlockQueue(w) =>
      && w < |s.pcs| && s.pcs[w].DeqUnlock?
      && s' == Goto(s, w, if s.pcs[w].result.Some? then Running(s.pcs[w].result.value) else Finishing)
                 .(qlock := Nobody)
    case Complete(w) =>
      && w < |s.pcs| && s.pcs[w].Running?
      && s' == Goto(s, w, Finishing).(completed := s.completed + [s.pcs[w].ticket])
    case Deactivate(w) =>
      && WorkerAt(s, w, Finishing) && PoolLockFree(s)
      && s' == Goto(s, w, SemEntry).(active := s.active - 1,
                 waiter := if s.active == 1 && s.waiter.WaitBlocked? then WaitWoken else s.waiter)
    case EnqLock(e) =>
      && EnqueuerAt(s, e, EnqIdle) && s.qlock == Nobody
      && s' == s.(enqs := s.enqs[e := EnqLocked], qlock := ByEnqueuer(e))
    case EnqAdd(e) =>
      && EnqueuerAt(s, e, EnqLocked)
      && s' == s.(enqs := s.enqs[e := EnqAdded], queue := s.queue + [s.enqueued], enqueued := s.enqueued + 1)
    case EnqSignal(e, pcs) =>
      && EnqueuerAt(s, e, EnqAdded) && Wakes(s.pcs, pcs)
      && s' == s.(enqs := s.enqs[e := EnqSignalled], pcs := pcs, val := true)
    case EnqUnlock(e) =>
      EnqueuerAt(s, e, EnqSignalled) && s' == s.(enqs := s.enqs[e := EnqIdle], qlock := Nobody)
    case WaitCall => (s.waiter.WaitIdle? || s.waiter.WaitDone?) && s' == s.(waiter := WaitEntry, snapshot := s.enqueued)
    case WaitLock => (s.waiter.WaitEntry? || s.waiter.WaitWoken?) && s' == s.(waiter := WaitLen)
    case WaitReadLen => s.waiter.WaitLen? && s' == s.(waiter := if s.queue != [] then WaitBlocked else WaitActive)
    case WaitReadActive => s.waiter.WaitActive? && s' == s.(waiter := if s.active != 0 then WaitBlocked else WaitDone)
    case WaitSpurious => s.waiter.WaitBlocked? && s' == s.(waiter := WaitWoken)
  }

  /** What a step leaves alone. */
  lemma StepFrame(s: State, s': State, step: Step)
    requires NextStep(s, s', step)
    ensures |s'.pcs| == |s.pcs| && |s'.enqs| == |s.enqs|
    ensures !step.Complete? ==> s'.completed == s.completed
    ensures !step.EnqAdd? ==> s'.enqueued == s.enqueued
    ensures !step.WaitCall? ==> s'.snapshot == s.snapshot
    ensures !step.EnqLock? && !step.EnqAdd? && !step.EnqSignal? && !step.EnqUnlock? ==> s'.enqs == s.enqs
    ensures s.waiter.WaitDone? && !step.WaitCall? ==> s'.waiter.WaitDone?
    ensures !s.waiter.WaitIdle? ==> !s'.waiter.WaitIdle?
  {
  }

  /** A callback goes on until its own step ends it. */
  lemma RunningStays(s: State, s': State, step: Step, w: nat)
    requires NextStep(s, s', step) && w < |s.pcs| && s.pcs[w].Running? && step != Complete(w)
    ensures w < |s'.pcs| && s'.pcs[w] == s.pcs[w]
  {
  }

  ghost predicate Next(s: State, s': State) {
    exists step :: NextStep(s, s', step)
  }

  /** A run: a start state and any sequence of steps. */
  ghost predicate IsRun(run: seq<State>) {
    |run| > 0 && Init(run[0]) && Runs.Linked(run, Next)
  }

  // ---------- Counting over the workers ----------

  function Sum<T>(f: T -> nat, s: seq<T>): nat {
    if |s| == 0 then 0 else f(s[0]) + Sum(f, s[1..])
  }

  lemma {:induction false} SumUpdate<T>(f: T -> nat, s: seq<T>, i: nat, x: T)
    requires i < |s|
    ensures Sum(f, s[i := x]) + f(s[i]) == Sum(f, s) + f(x)
    decreases |s|
  {
    if i == 0 {
      assert s[0 := x][1..] == s[1..];
    } else {
      assert s[i := x][1..] == s[1..][i - 1 := x];
      SumUpdate(f, s[1..], i - 1, x);
    }
  }

  lemma {:induction false} SumPointwise<T>(f: T -> nat, s: seq<T>, t: seq<T>, slack: nat)
    requires |s| == |t| && forall i :: 0 <= i < |s| ==> f(t[i]) <= f(s[i]) + slack
    ensures Sum(f, t) <= Sum(f, s) + |s| * slack
    decreases |s|
  {
    if |s| > 0 {
      SumPointwise(f, s[1..], t[1..], slack);
      assert |s| * slack == |s[1..]| * slack + slack;
    }
  }

  lemma {:induction false} SumSame<T>(f: T -> nat, s: seq<T>, t: seq<T>)
    requires |s| == |t| && forall i :: 0 <= i < |s| ==> f(t[i]) == f(s[i])
    ensures Sum(f, t) == Sum(f, s)
    decreases |s|
  {
    if |s| > 0 {
      SumSame(f, s[1..], t[1..]);
    }
  }

  lemma {:induction false} SumZero<T>(f: T -> nat, s: seq<T>)
    ensures Sum(f, s) == 0 <==> forall i :: 0 <= i < |s| ==> f(s[i]) == 0
    decreases |s|
  {
    if |s| > 0 {
      SumZero(f, s[1..]);
      assert forall i :: 0 < i < |s| ==> s[i] == s[1..][i - 1];
    }
  }

  // ---------- Invariants ----------

  function IsActive(pc: WorkerPc): nat {
    match pc
    case SemEntry => 0
    case SemBlocked => 0
    case Passed => 0
    case _ => 1
  }

  function HoldsQueue(pc: WorkerPc): bool {
    pc.DeqLocked? || pc.DeqSignal? || pc.DeqUnlock?
  }

  /** The job in a worker's hands. */
  function Held(pc: WorkerPc): Option<Ticket> {
    match pc
    case DeqSignal(t) => Some(t)
    case DeqUnlock(r) => r
    case Running(t) => Some(t)
    case _ => None
  }

  /** The queue lock is held by exactly the thread that is between lock and unlock. */
  ghost predicate LockInv(s: State) {
    && |s.pcs| > 0
    && (forall w :: 0 <= w < |s.pcs| ==> (HoldsQueue(s.pcs[w]) <==> s.qlock == ByWorker(w)))
    && (forall e :: 0 <= e < |s.enqs| ==> (!s.enqs[e].EnqIdle? <==> s.qlock == ByEnqueuer(e)))
    && (s.qlock.ByWorker? ==> s.qlock.w < |s.pcs|)
    && (s.qlock.ByEnqueuer? ==> s.qlock.e < |s.enqs|)
  }

  ghost predicate ActiveInv(s: State) {
    s.active == Sum(IsActive, s.pcs)
  }

  /** Every ticket is in exactly one place: queued, in one worker's hands, or completed once. */
  ghost predicate TicketInv(s: State) {
    && (forall i, j :: 0 <= i < j < |s.queue| ==> s.queue[i] != s.queue[j])
    && (forall i, j :: 0 <= i < j < |s.completed| ==> s.completed[i] != s.completed[j])
    && (forall v, w :: 0 <= v < w < |s.pcs| && Held(s.pcs[v]).Some? ==> Held(s.pcs[v]) != Held(s.pcs[w]))
    && (forall t :: t in s.queue ==> t < s.enqueued && t !in s.completed)
    && (forall t :: t in s.completed ==> t < s.enqueued)
    && (forall w :: 0 <= w < |s.pcs| && Held(s.pcs[w]).Some? ==>
          var t := Held(s.pcs[w]).value; t < s.enqueued && t !in s.queue && t !in s.completed)
    && (forall t: Ticket :: t < s.enqueued ==> t in s.queue || t in s.completed || InHand(s, t))
  }

  ghost predicate InHand(s: State, t: Ticket) {
    exists w :: 0 <= w < |s.pcs| && Held(s.pcs[w]) == Some(t)
  }

  predicate Looking(pc: WorkerPc) {
    pc.Passed? || pc.Active? || pc.DeqLocked? || pc.DeqSignal?
  }

  /** Somebody is bound to set the semaphore or to look into the queue. */
  ghost predicate WillLook(s: State) {
    || s.val
    || (exists w :: 0 <= w < |s.pcs| && Looking(s.pcs[w]))
    || (exists e :: 0 <= e < |s.enqs| && s.enqs[e].EnqAdded?)
  }

  /** No wakeup is lost: neither the job's nor the waiter's. */
  ghost predicate WakeInv(s: State) {
    && (s.queue != [] ==> WillLook(s))
    && (s.val ==> exists w :: 0 <= w < |s.pcs| && s.pcs[w] != SemBlocked)
    && (s.waiter.WaitBlocked? ==> s.queue != [] || s.active != 0)
  }

  /** What the waiter knows: once it saw an empty queue, no earlier job is queued. */
  ghost predicate WaiterInv(s: State) {
    && s.snapshot <= s.enqueued
    && (s.waiter.WaitActive? ==> forall t :: t in s.queue ==> t >= s.snapshot)
    && (s.waiter.WaitDone? ==> forall t: Ticket :: t < s.snapshot ==> t in s.completed)
  }

  ghost predicate Inv(s: State) {
    LockInv(s) && ActiveInv(s) && TicketInv(s) && WakeInv(s) && WaiterInv(s)
  }

  lemma InitInv(s: State)
    requires Init(s)
    ensures Inv(s)
  {
    SumZero(IsActive, s.pcs);
  }

  /** Steps of workers at the semaphore, steps of workers past it, and steps of the other threads. */
  predicate AtSemaphore(step: Step) {
    step.SemTake? || step.SemBlock? || step.SemSpurious? || step.Activate? || step.Complete? || step.Deactivate?
  }

  predicate AtQueue(step: Step) {
    step.LockQueue? || step.TakeHead? || step.HandOn? || step.UnlockQueue?
  }

  lemma LockStep(s: State, s': State, step: Step)
    requires LockInv(s) && NextStep(s, s', step)
    ensures LockInv(s')
  {
    if AtSemaphore(step) {
      LockStepSemaphore(s, s', step);
    } else if AtQueue(step) {
      LockStepQueue(s, s', step);
    } else {
      LockStepOther(s, s', step);
    }
  }

  lemma LockStepSemaphore(s: State, s': State, step: Step)
    requires LockInv(s) && NextStep(s, s', step) && AtSemaphore(step)
    ensures LockInv(s')
  {
  }

  lemma LockStepQueue(s: State, s': State, step: Step)
    requires LockInv(s) && NextStep(s, s', step) && AtQueue(step)
    ensures LockInv(s')
  {
  }

  lemma LockStepOther(s: State, s': State, step: Step)
    requires LockInv(s) && NextStep(s, s', step) && !AtSemaphore(step) && !AtQueue(step)
    ensures LockInv(s')
  {
  }

  lemma ActiveStep(s: State, s': State, step: Step)
    requires LockInv(s) && ActiveInv(s) && NextStep(s, s', step)
    ensures ActiveInv(s')
  {
    if AtSemaphore(step) || (AtQueue(step) && !step.HandOn?) {
      ActiveStepWorker(s, s', step);
    } else {
      ActiveStepOther(s, s', step);
    }
  }

  lemma ActiveStepWorker(s: State, s': State, step: Step)
    requires ActiveInv(s) && NextStep(s, s', step) && (AtSemaphore(step) || AtQueue(step)) && !step.HandOn?
    ensures ActiveInv(s')
  {
    SumUpdate(IsActive, s.pcs, step.w, s'.pcs[step.w]);
  }

  lemma ActiveStepOther(s: State, s': State, step: Step)
    requires ActiveInv(s) && NextStep(s, s', step) && !AtSemaphore(step) && (!AtQueue(step) || step.HandOn?)
    ensures ActiveInv(s')
  {
    if step.HandOn? {
      SumSame(IsActive, s.pcs, step.pcs);
      SumUpdate(IsActive, step.pcs, step.w, s'.pcs[step.w]);
    } else if step.EnqSignal? {
      SumSame(IsActive, s.pcs, step.pcs);
    }
  }

  // ---------- Tickets ----------

  lemma TicketStep(s: State, s': State, step: Step)
    requires LockInv(s) && TicketInv(s) && NextStep(s, s', step)
    ensures TicketInv(s')
  {
    if step.TakeHead? {
      TakeHeadTickets(s, s', step.w);
    } else if step.Complete? {
      CompleteTickets(s, s', step.w);
    } else if step.EnqAdd? {
      AddTickets(s, s', step.e);
    } else {
      HandsStep(s, s', step);
      SameHands(s, s');
    }
  }

  ghost predicate HandsAgree(s: State, s': State) {
    && |s'.pcs| == |s.pcs|
    && (forall w :: 0 <= w < |s.pcs| ==> Held(s'.pcs[w]) == Held(s.pcs[w]))
    && s'.queue == s.queue && s'.completed == s.completed && s'.enqueued == s.enqueued
  }

  lemma HandsStep(s: State, s': State, step: Step)
    requires NextStep(s, s', step) && !step.TakeHead? && !step.Complete? && !step.EnqAdd?
    ensures HandsAgree(s, s')
  {
  }

  /** A step that moves no job. */
  lemma SameHands(s: State, s': State)
    requires TicketInv(s) && HandsAgree(s, s')
    ensures TicketInv(s')
  {
    forall t: Ticket | t < s'.enqueued ensures t in s'.queue || t in s'.completed || InHand(s', t) {
      if InHand(s, t) {
        var w :| 0 <= w < |s.pcs| && Held(s.pcs[w]) == Some(t);
        assert Held(s'.pcs[w]) == Some(t);
      }
    }
  }

  lemma TakeHeadTickets(s: State, s': State, w: nat)
    requires TicketInv(s) && NextStep(s, s', TakeHead(w))
    ensures TicketInv(s')
  {
    if s.queue == [] {
      SameHands(s, s');
    } else {
      var h := s.queue[0];
      assert s.queue == [h] + s'.queue;
      assert h !in s'.queue;
      assert forall t :: t in s.queue <==> t == h || t in s'.queue;
      assert forall v :: 0 <= v < |s.pcs| && v != w ==> Held(s'.pcs[v]) == Held(s.pcs[v]) != Some(h);
      forall t: Ticket | t < s'.enqueued ensures t in s'.queue || t in s'.completed || InHand(s', t) {
        if t == h {
          assert Held(s'.pcs[w]) == Some(t);
        } else if InHand(s, t) {
          var v :| 0 <= v < |s.pcs| && Held(s.pcs[v]) == Some(t);
          assert Held(s'.pcs[v]) == Some(t);
        }
      }
    }
  }

  lemma CompleteTickets(s: State, s': State, w: nat)
    requires TicketInv(s) && NextStep(s, s', Complete(w))
    ensures TicketInv(s')
  {
    CompleteHands(s, s', w, s.pcs[w].ticket);
  }

  /** The ticket in the hands of `w` goes to the completed ones. */
  lemma CompleteHands(s: State, s': State, w: nat, h: Ticket)
    requires TicketInv(s) && w < |s.pcs| == |s'.pcs| && Held(s.pcs[w]) == Some(h) && Held(s'.pcs[w]).None?
    requires forall v :: 0 <= v < |s.pcs| && v != w ==> s'.pcs[v] == s.pcs[v]
    requires s'.queue == s.queue && s'.enqueued == s.enqueued && s'.completed == s.completed + [h]
    ensures TicketInv(s')
  {
    assert forall t :: t in s'.completed <==> t == h || t in s.completed;
    assert forall v :: 0 <= v < |s.pcs| && v != w ==> Held(s'.pcs[v]) == Held(s.pcs[v]) != Some(h);
    forall t: Ticket | t < s'.enqueued ensures t in s'.queue || t in s'.completed || InHand(s', t) {
      if t != h && InHand(s, t) {
        var v :| 0 <= v < |s.pcs| && Held(s.pcs[v]) == Some(t);
        assert Held(s'.pcs[v]) == Some(t);
      }
    }
  }

  lemma AddTickets(s: State, s': State, e: nat)
    requires TicketInv(s) && NextStep(s, s', EnqAdd(e))
    ensures TicketInv(s')
  {
    assert forall i :: 0 <= i < |s.queue| ==> s.queue[i] in s.queue;
    assert forall t :: t in s'.queue <==> t == s.enqueued || t in s.queue;
    forall t: Ticket | t < s'.enqueued ensures t in s'.queue || t in s'.completed || InHand(s', t) {
      if t != s.enqueued && InHand(s, t) {
        var w :| 0 <= w < |s.pcs| && Held(s.pcs[w]) == Some(t);
        assert Held(s'.pcs[w]) == Some(t);
      }
    }
  }

  // ---------- Wakeups ----------

  lemma {:induction false} SumAtLeast<T>(f: T -> nat, s: seq<T>, i: nat)
    requires i < |s|
    ensures Sum(f, s) >= f(s[i])
    decreases |s|
  {
    if i > 0 {
      SumAtLeast(f, s[1..], i - 1);
    }
  }

  lemma LookStep(s: State, s': State, step: Step)
    requires LockInv(s) && NextStep(s, s', step) && (s.queue != [] ==> WillLook(s))
    ensures s'.queue != [] ==> WillLook(s')
  {
    if s'.queue != [] {
      if step.HandOn? || step.EnqSignal? {
        assert s'.val;
      } else if step.EnqAdd? {
        assert s'.enqs[step.e].EnqAdded?;
      } else if step.SemTake? {
        assert s'.pcs[step.w].Passed?;
      } else if step.TakeHead? {
        assert s'.pcs[step.w].DeqSignal?;
      } else if s.val {
        assert s'.val;
      } else if exists e :: 0 <= e < |s.enqs| && s.enqs[e].EnqAdded? {
        var e :| 0 <= e < |s.enqs| && s.enqs[e].EnqAdded?;
        assert s'.enqs[e].EnqAdded?;
      } else {
        var w :| 0 <= w < |s.pcs| && Looking(s.pcs[w]);
        LookerStays(s, s', step, w);
      }
    }
  }

  lemma LookerStays(s: State, s': State, step: Step, w: nat)
    requires NextStep(s, s', step) && w < |s.pcs| && Looking(s.pcs[w])
    requires !step.HandOn? && !step.EnqSignal? && !step.TakeHead?
    ensures w < |s'.pcs| && Looking(s'.pcs[w])
  {
  }

  lemma AwakeStep(s: State, s': State, step: Step)
    requires |s.pcs| > 0 && NextStep(s, s', step)
    requires s.val ==> exists w :: 0 <= w < |s.pcs| && s.pcs[w] != SemBlocked
    ensures s'.val ==> exists w :: 0 <= w < |s'.pcs| && s'.pcs[w] != SemBlocked
  {
    if s'.val {
      if step.HandOn? {
        assert s'.pcs[step.w] != SemBlocked;
      } else if step.EnqSignal? {
        if s.pcs[0] == SemBlocked {
          var j :| 0 <= j < |s.pcs| && s.pcs[j] == SemBlocked && s'.pcs[j] == SemEntry;
        } else {
          assert s'.pcs[0] != SemBlocked;
        }
      } else {
        var w :| 0 <= w < |s.pcs| && s.pcs[w] != SemBlocked;
        assert s'.pcs[w] != SemBlocked;
      }
    }
  }

  lemma WaiterWakeStep(s: State, s': State, step: Step)
    requires ActiveInv(s) && NextStep(s, s', step) && (s.waiter.WaitBlocked? ==> s.queue != [] || s.active != 0)
    ensures s'.waiter.WaitBlocked? ==> s'.queue != [] || s'.active != 0
  {
    if step.TakeHead? {
      SumAtLeast(IsActive, s.pcs, step.w);
    }
  }

  lemma WakeStep(s: State, s': State, step: Step)
    requires LockInv(s) && ActiveInv(s) && WakeInv(s) && NextStep(s, s', step)
    ensures WakeInv(s')
  {
    LookStep(s, s', step);
    AwakeStep(s, s', step);
    WaiterWakeStep(s, s', step);
  }

  /** Counted inactive, the workers hold no job. */
  lemma IdleHoldsNothing(s: State, t: Ticket)
    requires ActiveInv(s) && s.active == 0
    ensures !InHand(s, t)
  {
    SumZero(IsActive, s.pcs);
    assert forall w :: 0 <= w < |s.pcs| ==> IsActive(s.pcs[w]) == 0;
  }

  lemma WaiterStep(s: State, s': State, step: Step)
    requires ActiveInv(s) && TicketInv(s) && WaiterInv(s) && NextStep(s, s', step)
    ensures WaiterInv(s')
  {
    if step.WaitReadActive? && s.active == 0 {
      forall t: Ticket | t < s.snapshot ensures t in s.completed {
        IdleHoldsNothing(s, t);
      }
    } else if step.TakeHead? && s.queue != [] {
      assert forall t :: t in s'.queue ==> t in s.queue;
    } else if step.EnqAdd? {
      assert forall t :: t in s'.queue ==> t in s.queue || t == s.enqueued;
    } else if step.Complete? {
      assert forall t :: t in s.completed ==> t in s'.completed;
    }
  }

  lemma InvStep(s: State, s': State, step: Step)
    requires Inv(s) && NextStep(s, s', step)
    ensures Inv(s')
  {
    LockStep(s, s', step);
    ActiveStep(s, s', step);
    TicketStep(s, s', step);
    WakeStep(s, s', step);
    WaiterStep(s, s', step);
  }

  // ---------- Safety over whole runs ----------

  lemma RunInv(run: seq<State>, i: nat)
    requires IsRun(run) && i < |run|
    ensures Inv(run[i])
  {
    InitInv(run[0]);
    forall s, s' | Inv(s) && Next(s, s') ensures Inv(s') {
      var step :| NextStep(s, s', step);
      InvStep(s, s', step);
    }
    Runs.Invariant(run, Next, Inv, i);
  }

  /** When a wait returns, every job enqueued before the call has run to completion, exactly once. */
  lemma WaitMeansDone(run: seq<State>, t: Ticket)
    requires IsRun(run)
    requires run[|run| - 1].waiter.WaitDone? && t < run[|run| - 1].snapshot
    ensures var c := run[|run| - 1].completed;
      exists i :: 0 <= i < |c| && c[i] == t && forall j :: 0 <= j < |c| && c[j] == t ==> j == i
  {
    RunInv(run, |run| - 1);
    var s := run[|run| - 1];
    assert t in s.completed;
  }

  // ---------- First in, first out ----------

  /** The queue holds the tickets handed out last, in the order they were handed out. */
  ghost predicate OrderInv(s: State) {
    |s.queue| <= s.enqueued && forall i :: 0 <= i < |s.queue| ==> s.queue[i] == s.enqueued - |s.queue| + i
  }

  /** With one worker the tickets before those are completed in that order, but for one in its hands. */
  ghost predicate AloneInv(s: State) {
    |s.pcs| == 1 ==>
      var taken, held := s.enqueued - |s.queue|, Held(s.pcs[0]);
      && (forall j :: 0 <= j < |s.completed| ==> s.completed[j] == j)
      && |s.completed| == (if held.Some? then taken - 1 else taken)
      && (held.Some? ==> held.value == taken - 1)
  }

  lemma OrderStep(s: State, s': State, step: Step)
    requires OrderInv(s) && NextStep(s, s', step)
    ensures OrderInv(s')
  {
  }

  lemma AloneStep(s: State, s': State, step: Step)
    requires OrderInv(s) && AloneInv(s) && NextStep(s, s', step)
    ensures AloneInv(s')
  {
    StepFrame(s, s', step);
    if |s.pcs| == 1 && !step.TakeHead? && !step.Complete? && !step.EnqAdd? {
      HandsStep(s, s', step);
    }
  }

  lemma RunOrder(run: seq<State>, i: nat)
    requires IsRun(run) && i < |run|
    ensures OrderInv(run[i]) && AloneInv(run[i])
  {
    forall s, s' | OrderInv(s) && AloneInv(s) && Next(s, s') ensures OrderInv(s') && AloneInv(s') {
      var step :| NextStep(s, s', step);
      OrderStep(s, s', step);
      AloneStep(s, s', step);
    }
    Runs.Invariant(run, Next, s => OrderInv(s) && AloneInv(s), i);
  }

  /**
   A worker that takes a job takes the first of those not yet taken: exactly the jobs added
   behind it are left.
   */
  lemma TakenInOrder(run: seq<State>, w: nat, s': State)
    requires IsRun(run) && NextStep(run[|run| - 1], s', TakeHead(w)) && run[|run| - 1].queue != []
    ensures w < |s'.pcs| && Held(s'.pcs[w]).Some?
    ensures forall t: Ticket :: t in s'.queue <==> Held(s'.pcs[w]).value < t < s'.enqueued
  {
    RunOrder(run, |run| - 1);
    var s := run[|run| - 1];
    OrderStep(s, s', TakeHead(w));
    forall t: Ticket | s.queue[0] < t < s'.enqueued ensures t in s'.queue {
      assert s'.queue[t - (s'.enqueued - |s'.queue|)] == t;
    }
  }

  /** With one worker the jobs are completed in the order they were added. */
  lemma AloneInOrder(run: seq<State>, j: nat)
    requires IsRun(run) && |run[|run| - 1].pcs| == 1 && j < |run[|run| - 1].completed|
    ensures run[|run| - 1].completed[j] == j
  {
    RunOrder(run, |run| - 1);
  }

  // ---------- Conservation ----------

  ghost function Members(s: seq<Ticket>): set<Ticket> {
    set t | t in s
  }

  ghost function Tickets(n: nat): (r: set<Ticket>)
    ensures |r| == n && forall t :: t in r <==> 0 <= t < n
  {
    if n == 0 then {} else Tickets(n - 1) + {n - 1}
  }

  ghost function InHands(s: State): set<Ticket> {
    set w | 0 <= w < |s.pcs| && Held(s.pcs[w]).Some? :: Held(s.pcs[w]).value
  }

  /** enqueued = queued + running + finished, as disjoint sets and so also as counts. */
  lemma Conservation(run: seq<State>)
    requires IsRun(run)
    ensures var s := run[|run| - 1];
      var (q, h, c) := (Members(s.queue), InHands(s), Members(s.completed));
      && q !! h && q !! c && h !! c
      && q + h + c == Tickets(s.enqueued)
      && s.enqueued == |s.queue| + |h| + |s.completed|
  {
    RunInv(run, |run| - 1);
    Partition(run[|run| - 1]);
  }

  lemma Partition(s: State)
    requires TicketInv(s)
    ensures var (q, h, c) := (Members(s.queue), InHands(s), Members(s.completed));
      && q !! h && q !! c && h !! c
      && q + h + c == Tickets(s.enqueued)
      && s.enqueued == |s.queue| + |h| + |s.completed|
  {
    var (q, h, c) := (Members(s.queue), InHands(s), Members(s.completed));
    EveryTicket(s);
    OnePlaceOnly(s);
    DistinctCount(s.queue);
    DistinctCount(s.completed);
    DisjointCount(q, h, c);
  }

  lemma EveryTicket(s: State)
    requires TicketInv(s)
    ensures Members(s.queue) + InHands(s) + Members(s.completed) == Tickets(s.enqueued)
  {
    var h := InHands(s);
    forall t | t in Tickets(s.enqueued) ensures t in s.queue || t in h || t in s.completed {
      assert t in s.queue || t in s.completed || InHand(s, t);
      if InHand(s, t) {
        var w :| 0 <= w < |s.pcs| && Held(s.pcs[w]) == Some(t);
        assert Held(s.pcs[w]).value in h;
      }
    }
  }

  lemma OnePlaceOnly(s: State)
    requires TicketInv(s)
    ensures Members(s.queue) !! InHands(s) && Members(s.queue) !! Members(s.completed)
    ensures InHands(s) !! Members(s.completed)
  {
  }

  lemma DisjointCount<T>(a: set<T>, b: set<T>, c: set<T>)
    requires a !! b && a !! c && b !! c
    ensures |a + b + c| == |a| + |b| + |c|
  {
    assert (a + b) !! c;
  }

  lemma {:induction false} DistinctCount(s: seq<Ticket>)
    requires forall i, j :: 0 <= i < j < |s| ==> s[i] != s[j]
    ensures |Members(s)| == |s|
    decreases |s|
  {
    if |s| > 0 {
      DistinctCount(s[1..]);
      assert s[0] !in s[1..];
      assert Members(s) == {s[0]} + Members(s[1..]);
    }
  }

  // ---------- No deadlock, and no endless activity ----------

  /** Steps the pool takes by itself: no new job, no new wait, no spurious wakeup. */
  predicate Internal(step: Step) {
    !step.EnqLock? && !step.WaitCall? && !step.SemSpurious? && !step.WaitSpurious?
  }

  /** All work is done, everybody sleeps, and no call to wait is still open. */
  ghost predicate Quiescent(s: State) {
    && (forall w :: 0 <= w < |s.pcs| ==> s.pcs[w] == SemBlocked)
    && (forall e :: 0 <= e < |s.enqs| ==> s.enqs[e] == EnqIdle)
    && (s.waiter.WaitIdle? || s.waiter.WaitDone?)
    && s.queue == [] && !s.val && s.active == 0
    && (forall t: Ticket :: t < s.enqueued ==> t in s.completed)
  }

  function WokenAll(pcs: seq<WorkerPc>): (r: seq<WorkerPc>)
    ensures |r| == |pcs| && forall i :: 0 <= i < |pcs| ==> r[i] == if pcs[i] == SemBlocked then SemEntry else pcs[i]
  {
    if |pcs| == 0 then [] else [if pcs[0] == SemBlocked then SemEntry else pcs[0]] + WokenAll(pcs[1..])
  }

  /** A worker that is not asleep can move, unless somebody else who can move holds its lock. */
  lemma WorkerMoves(s: State, w: nat) returns (step: Step, s': State)
    requires LockInv(s) && w < |s.pcs| && s.pcs[w] != SemBlocked
    requires PoolLockFree(s) && (s.pcs[w].Active? ==> s.qlock == Nobody)
    ensures Internal(step) && NextStep(s, s', step)
  {
    match s.pcs[w] {
      case SemEntry =>
        if s.val {
          step, s' := SemTake(w), Goto(s, w, Passed).(val := false);
        } else {
          step, s' := SemBlock(w), Goto(s, w, SemBlocked);
        }
      case Passed => step, s' := Activate(w), Goto(s, w, Active).(active := s.active + 1);
      case Active => step, s' := LockQueue(w), Goto(s, w, DeqLocked).(qlock := ByWorker(w));
      case DeqLocked =>
        step := TakeHead(w);
        s' := if s.queue == [] then Goto(s, w, DeqUnlock(None))
              else Goto(s, w, DeqSignal(s.queue[0])).(queue := s.queue[1..]);
      case DeqSignal(t) =>
        step := HandOn(w, WokenAll(s.pcs));
        s' := Goto(s.(pcs := WokenAll(s.pcs), val := true), w, DeqUnlock(Some(t)));
      case DeqUnlock(r) =>
        step := UnlockQueue(w);
        s' := Goto(s, w, if r.Some? then Running(r.value) else Finishing).(qlock := Nobody);
      case Running(t) =>
        step, s' := Complete(w), Goto(s, w, Finishing).(completed := s.completed + [t]);
      case Finishing =>
        step := Deactivate(w);
        s' := Goto(s, w, SemEntry).(active := s.active - 1,
          waiter := if s.active == 1 && s.waiter.WaitBlocked? then WaitWoken else s.waiter);
    }
  }

  lemma EnqueuerMoves(s: State, e: nat) returns (step: Step, s': State)
    requires e < |s.enqs| && !s.enqs[e].EnqIdle?
    ensures Internal(step) && NextStep(s, s', step)
  {
    match s.enqs[e] {
      case EnqLocked =>
        step := EnqAdd(e);
        s' := s.(enqs := s.enqs[e := EnqAdded], queue := s.queue + [s.enqueued], enqueued := s.enqueued + 1);
      case EnqAdded =>
        step := EnqSignal(e, WokenAll(s.pcs));
        s' := s.(enqs := s.enqs[e := EnqSignalled], pcs := WokenAll(s.pcs), val := true);
      case EnqSignalled =>
        step, s' := EnqUnlock(e), s.(enqs := s.enqs[e := EnqIdle], qlock := Nobody);
    }
  }

  /** The waiter can move unless it has nothing to do or sleeps. */
  lemma WaiterMoves(s: State) returns (step: Step, s': State)
    requires s.waiter.WaitEntry? || s.waiter.WaitWoken? || s.waiter.WaitLen? || s.waiter.WaitActive?
    ensures Internal(step) && NextStep(s, s', step)
  {
    if s.waiter.WaitLen? {
      step, s' := WaitReadLen, s.(waiter := if s.queue != [] then WaitBlocked else WaitActive);
    } else if s.waiter.WaitActive? {
      step, s' := WaitReadActive, s.(waiter := if s.active != 0 then WaitBlocked else WaitDone);
    } else {
      step, s' := WaitLock, s.(waiter := WaitLen);
    }
  }

  /** The pool never deadlocks: as long as anything is left to do, some thread can move. */
  lemma NoDeadlock(s: State) returns (step: Step, s': State)
    requires Inv(s) && !Quiescent(s)
    ensures Internal(step) && NextStep(s, s', step)
  {
    if s.waiter.WaitEntry? || s.waiter.WaitWoken? || s.waiter.WaitLen? || s.waiter.WaitActive? {
      step, s' := WaiterMoves(s);
    } else if e :| 0 <= e < |s.enqs| && !s.enqs[e].EnqIdle? {
      step, s' := EnqueuerMoves(s, e);
    } else if w :| 0 <= w < |s.pcs| && HoldsQueue(s.pcs[w]) {
      step, s' := WorkerMoves(s, w);
    } else if w :| 0 <= w < |s.pcs| && s.pcs[w] != SemBlocked {
      step, s' := WorkerMoves(s, w);
    } else {
      AllAsleep(s);
      assert false;
    }
  }

  /** If all workers sleep and nobody holds the queue, nothing is left and nobody waits. */
  lemma AllAsleep(s: State)
    requires Inv(s)
    requires !(s.waiter.WaitEntry? || s.waiter.WaitWoken? || s.waiter.WaitLen? || s.waiter.WaitActive?)
    requires forall e :: 0 <= e < |s.enqs| ==> s.enqs[e].EnqIdle?
    requires forall w :: 0 <= w < |s.pcs| ==> s.pcs[w] == SemBlocked
    ensures Quiescent(s)
  {
    SumZero(IsActive, s.pcs);
    forall t: Ticket | t < s.enqueued ensures t in s.completed {
      assert s.queue == [];
      IdleHoldsNothing(s, t);
    }
  }

  // ---------- A bound on what is left to do ----------

  /** What one signal may add: the semaphore's value and every sleeper it wakes. */
  function Kick(n: nat): nat {
    n + 11
  }

  function WorkerWeight(n: nat, pc: WorkerPc): nat {
    match pc
    case SemBlocked => 0
    case SemEntry => 1
    case Finishing => 6
    case Running(_) => 7
    case DeqUnlock(r) => 8
    case DeqSignal(_) => Kick(n) + 9
    case DeqLocked => 9
    case Active => 10
    case Passed => 11
  }

  function EnqueuerWeight(n: nat, pc: EnqueuerPc): nat {
    match pc
    case EnqIdle => 0
    case EnqSignalled => 1
    case EnqAdded => Kick(n) + 2
    case EnqLocked => 2 * Kick(n) + 4
  }

  function QueueWeight(n: nat, jobs: nat): nat {
    if jobs == 0 then 0 else Kick(n) + 1 + QueueWeight(n, jobs - 1)
  }

  function WaiterWeight(pc: WaiterPc): nat {
    match pc
    case WaitEntry => 3
    case WaitWoken => 3
    case WaitLen => 2
    case WaitActive => 1
    case _ => 0
  }

  function WorkerWeights(n: nat): WorkerPc -> nat {
    pc => WorkerWeight(n, pc)
  }

  function EnqueuerWeights(n: nat): EnqueuerPc -> nat {
    pc => EnqueuerWeight(n, pc)
  }

  /** The work left without what the enqueuers are about to add. */
  ghost function CoreRank(s: State): nat {
    var n := |s.pcs|;
    Sum(WorkerWeights(n), s.pcs)
    + (if s.val then 11 else 0) + QueueWeight(n, |s.queue|) + WaiterWeight(s.waiter)
  }

  ghost function Rank(s: State): (r: int)
    ensures r >= 0
  {
    CoreRank(s) + Sum(EnqueuerWeights(|s.pcs|), s.enqs)
  }

  /** Steps of enqueuers add at most a kick or a job; every other internal step uses work up. */
  lemma CoreRankStep(s: State, s': State, step: Step)
    requires NextStep(s, s', step) && Internal(step)
    ensures CoreRank(s') < CoreRank(s) + match step
      case EnqAdd(_) => Kick(|s.pcs|) + 2
      case EnqSignal(_, _) => Kick(|s.pcs|) + 1
      case EnqUnlock(_) => 1
      case _ => 0
  {
    if step.HandOn? || step.EnqSignal? {
      CoreRankSignal(s, s', step);
    } else if AtSemaphore(step) {
      CoreRankSemaphore(s, s', step);
    } else if AtQueue(step) {
      CoreRankQueue(s, s', step);
    }
  }

  lemma CoreRankSignal(s: State, s': State, step: Step)
    requires NextStep(s, s', step) && (step.HandOn? || step.EnqSignal?)
    ensures CoreRank(s') < CoreRank(s) + if step.EnqSignal? then Kick(|s.pcs|) + 1 else 0
  {
    SumPointwise(WorkerWeights(|s.pcs|), s.pcs, step.pcs, 1);
    if step.HandOn? {
      SumUpdate(WorkerWeights(|s.pcs|), step.pcs, step.w, s'.pcs[step.w]);
    }
  }

  lemma CoreRankSemaphore(s: State, s': State, step: Step)
    requires NextStep(s, s', step) && AtSemaphore(step) && Internal(step)
    ensures CoreRank(s') < CoreRank(s)
  {
    SumUpdate(WorkerWeights(|s.pcs|), s.pcs, step.w, s'.pcs[step.w]);
  }

  lemma CoreRankQueue(s: State, s': State, step: Step)
    requires NextStep(s, s', step) && AtQueue(step) && !step.HandOn?
    ensures CoreRank(s') < CoreRank(s)
  {
    SumUpdate(WorkerWeights(|s.pcs|), s.pcs, step.w, s'.pcs[step.w]);
  }

  /** Every internal step uses up some of the rank. */
  lemma RankDrops(s: State, s': State, step: Step)
    requires NextStep(s, s', step) && Internal(step)
    ensures Rank(s') < Rank(s)
  {
    CoreRankStep(s, s', step);
    StepFrame(s, s', step);
    if step.EnqAdd? || step.EnqSignal? || step.EnqUnlock? {
      SumUpdate(EnqueuerWeights(|s.pcs|), s.enqs, step.e, s'.enqs[step.e]);
    }
  }

  ghost predicate NextInternal(s: State, s': State) {
    exists step :: Internal(step) && NextStep(s, s', step)
  }

  /** Left to itself the pool stops: it cannot take more steps than its rank, whatever the schedule. */
  lemma DrainBounded(run: seq<State>)
    requires |run| > 0 && Runs.Linked(run, NextInternal)
    ensures |run| - 1 <= Rank(run[0])
  {
    forall s, s' | NextInternal(s, s') ensures Rank(s') < Rank(s) {
      var step :| Internal(step) && NextStep(s, s', step);
      RankDrops(s, s', step);
    }
    Runs.Pays(run, NextInternal, s => true, Rank, |run| - 1);
  }

  ghost predicate Stopped(s: State) {
    forall step, s' :: NextStep(s, s', step) ==> !Internal(step)
  }

  /** And when it has stopped, every job is done and an open wait has returned. */
  lemma StoppedMeansDone(run: seq<State>)
    requires IsRun(run) && Stopped(run[|run| - 1])
    ensures Quiescent(run[|run| - 1])
  {
    RunInv(run, |run| - 1);
    if !Quiescent(run[|run| - 1]) {
      var step, s' := NoDeadlock(run[|run| - 1]);
    }
  }
}
