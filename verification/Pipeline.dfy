/**
 The two-stage pipeline of src/mbox.c: the main thread feeds the io pool, first with one
 seek job per thread, then with one job per context; an io job emits its context's messages
 one by one into the parse pool, whose jobs append one result each to the completed list.
 The pools are the state machines of WorkerPool; this module only says which of their steps
 the program around them allows.
 */
module Pipeline {
  import opened Bytes
  import Runs
  import WP = WorkerPool

  /** The i-th message of a context. */
  datatype Msg = Msg(ctx: nat, index: nat)

  datatype MainPc =
    | PutSeek(k: nat)    // enqueuing the k-th seek job, or about to wait for them all
    | WaitSeek
    | PutCtx(k: nat)     // enqueuing the job of context k, or about to wait for them all
    | WaitIo
    | IoDone             // the io pool's wait has returned
    | WaitParse
    | Finished

  datatype State = State(
    io: WP.State, parse: WP.State, main: MainPc,
    seeks: nat,            // number of seek jobs
    script: seq<nat>,      // how many messages each context will emit
    emitted: seq<nat>,     // how many it has emitted
    tags: seq<Msg>,        // the message behind each ticket of the parse pool
    results: seq<Msg>      // the completed list
  )

  datatype Step = IoStep(step: WP.Step) | ParseStep(step: WP.Step) | Resume

  ghost predicate Init(s: State) {
    && WP.Init(s.io) && WP.Init(s.parse)
    && |s.io.enqs| == 1 && |s.parse.enqs| == |s.io.pcs|
    && s.main == PutSeek(0)
    && |s.emitted| == |s.script| && (forall c :: 0 <= c < |s.emitted| ==> s.emitted[c] == 0)
    && s.tags == [] && s.results == []
  }

  ghost predicate Shape(s: State) {
    |s.io.enqs| == 1 && |s.parse.enqs| == |s.io.pcs| && |s.emitted| == |s.script|
  }

  /** The context whose messages io worker `w` is emitting, if it is running one. */
  ghost function CtxOf(s: State, w: nat): (r: Option<nat>)
    ensures r.Some? ==>
      w < |s.io.pcs| && r.value < |s.script| && s.io.pcs[w] == WP.Running(s.seeks + r.value)
  {
    if w < |s.io.pcs| && s.io.pcs[w].Running?
       && s.seeks <= s.io.pcs[w].ticket < s.seeks + |s.script|
    then Some(s.io.pcs[w].ticket - s.seeks) else None
  }

  /** Context `c` emits its next message. */
  ghost function Emit(s: State, c: nat): State
    requires Shape(s) && c < |s.script|
  {
    s.(tags := s.tags + [Msg(c, s.emitted[c])], emitted := s.emitted[c := s.emitted[c] + 1])
  }

  /** What the program around it makes of a step of the io pool. */
  ghost predicate IoNext(s: State, s': State, step: WP.Step)
    requires Shape(s)
  {
    && WP.NextStep(s.io, s'.io, step)
    && match step
       case EnqLock(_) =>
         && ((s.main.PutSeek? && s.main.k < s.seeks) || (s.main.PutCtx? && s.main.k < |s.script|))
         && s' == s.(io := s'.io)
       case EnqUnlock(_) =>
         && (s.main.PutSeek? || s.main.PutCtx?)
         && s' == s.(io := s'.io, main := if s.main.PutSeek? then PutSeek(s.main.k + 1) else PutCtx(s.main.k + 1))
       case WaitCall =>
         && ((s.main.PutSeek? && s.main.k == s.seeks) || (s.main.PutCtx? && s.main.k == |s.script|))
         && s.io.enqs[0].EnqIdle?
         && s' == s.(io := s'.io, main := if s.main.PutSeek? then WaitSeek else WaitIo)
       case Complete(w) =>
         && (CtxOf(s, w).Some? ==>
               s.emitted[CtxOf(s, w).value] == s.script[CtxOf(s, w).value] && s.parse.enqs[w].EnqIdle?)
         && s' == s.(io := s'.io)
       case _ => s' == s.(io := s'.io)
  }

  ghost predicate ParseNext(s: State, s': State, step: WP.Step)
    requires Shape(s)
  {
    && WP.NextStep(s.parse, s'.parse, step)
    && match step
       case EnqLock(w) =>
         && CtxOf(s, w).Some? && s.emitted[CtxOf(s, w).value] < s.script[CtxOf(s, w).value]
         && s' == s.(parse := s'.parse)
       case EnqAdd(w) =>
         && CtxOf(s, w).Some?
         && s' == Emit(s, CtxOf(s, w).value).(parse := s'.parse)
       case Complete(w) =>
         && s.parse.pcs[w].ticket < |s.tags|
         && s' == s.(parse := s'.parse, results := s.results + [s.tags[s.parse.pcs[w].ticket]])
       case WaitCall => s.main.IoDone? && s' == s.(parse := s'.parse, main := WaitParse)
       case _ => s' == s.(parse := s'.parse)
  }

  ghost predicate NextStep(s: State, s': State, step: Step)
    requires Shape(s)
  {
    match step
    case IoStep(st) => IoNext(s, s', st)
    case ParseStep(st) => ParseNext(s, s', st)
    case Resume =>
      || (s.main.WaitSeek? && s.io.waiter.WaitDone? && s' == s.(main := PutCtx(0)))
      || (s.main.WaitIo? && s.io.waiter.WaitDone? && s' == s.(main := IoDone))
      || (s.main.WaitParse? && s.parse.waiter.WaitDone? && s' == s.(main := Finished))
  }

  // ---------- Invariants ----------

  /** How far the main thread has fed the io pool. */
  ghost predicate MainInv(s: State)
    requires Shape(s)
  {
    var inside := if s.io.enqs[0].EnqAdded? || s.io.enqs[0].EnqSignalled? then 1 else 0;
    match s.main
    case PutSeek(k) =>
      k <= s.seeks && s.io.enqueued == k + inside && (k == s.seeks ==> s.io.enqs[0].EnqIdle?)
    case PutCtx(k) =>
      k <= |s.script| && s.io.enqueued == s.seeks + k + inside && (k == |s.script| ==> s.io.enqs[0].EnqIdle?)
    case WaitSeek => s.io.enqueued == s.seeks && s.io.enqs[0].EnqIdle? && s.io.snapshot == s.io.enqueued
    case WaitIo =>
      s.io.enqueued == s.seeks + |s.script| && s.io.enqs[0].EnqIdle? && s.io.snapshot == s.io.enqueued
    case _ => s.io.enqueued == s.seeks + |s.script| && s.io.enqs[0].EnqIdle?
  }

  /** An io worker that is enqueuing runs a context that is not yet used up. */
  ghost predicate EmitInv(s: State)
    requires Shape(s)
  {
    && (forall c :: 0 <= c < |s.script| ==> s.emitted[c] <= s.script[c])
    && (forall c :: 0 <= c < |s.script| && s.seeks + c in s.io.completed ==> s.emitted[c] == s.script[c])
    && (forall w :: 0 <= w < |s.io.pcs| && !s.parse.enqs[w].EnqIdle? ==> CtxOf(s, w).Some?)
    && (forall w :: 0 <= w < |s.io.pcs| && s.parse.enqs[w].EnqLocked? ==>
          var c := CtxOf(s, w); c.Some? && s.emitted[c.value] < s.script[c.value])
  }

  /** The tags are exactly the messages emitted so far, each once. */
  ghost predicate TagInv(s: State)
    requires Shape(s)
  {
    && |s.tags| == s.parse.enqueued
    && (forall i, j :: 0 <= i < j < |s.tags| ==> s.tags[i] != s.tags[j])
    && (forall m :: m in s.tags <==> m.ctx < |s.script| && m.index < s.emitted[m.ctx])
  }

  ghost predicate ResultInv(s: State) {
    && |s.results| == |s.parse.completed|
    && (forall j :: 0 <= j < |s.results| ==>
          s.parse.completed[j] < |s.tags| && s.results[j] == s.tags[s.parse.completed[j]])
  }

  ghost predicate SeeksDone(s: State) {
    forall t: WP.Ticket :: t < s.seeks ==> t in s.io.completed
  }

  /** Once the io pool's waits have returned, every search is done, and every context used up, and stays so. */
  ghost predicate PhaseInv(s: State)
    requires Shape(s)
  {
    && (s.main.PutSeek? || s.main.WaitSeek? || SeeksDone(s))
    && (s.main.IoDone? || s.main.WaitParse? || s.main.Finished? ==>
          forall t: WP.Ticket :: t < s.seeks + |s.script| ==> t in s.io.completed)
    && (s.main.WaitParse? || s.main.Finished? ==> s.parse.snapshot == |s.tags|)
    && (s.main.WaitSeek? || s.main.WaitIo? ==> !s.io.waiter.WaitIdle?)
    && (s.main.WaitParse? ==> !s.parse.waiter.WaitIdle?)
    && (s.main.Finished? ==> s.parse.waiter.WaitDone?)
  }

  ghost predicate Inv(s: State) {
    && Shape(s) && WP.Inv(s.io) && WP.Inv(s.parse)
    && MainInv(s) && EmitInv(s) && TagInv(s) && ResultInv(s) && PhaseInv(s)
  }

  lemma InitInv(s: State)
    requires Init(s)
    ensures Inv(s)
  {
    WP.InitInv(s.io);
    WP.InitInv(s.parse);
  }

  lemma PoolsStep(s: State, s': State, step: Step)
    requires Shape(s) && WP.Inv(s.io) && WP.Inv(s.parse) && NextStep(s, s', step)
    ensures Shape(s') && WP.Inv(s'.io) && WP.Inv(s'.parse)
    ensures s'.seeks == s.seeks && s'.script == s.script
  {
    if step.IoStep? {
      WP.InvStep(s.io, s'.io, step.step);
      WP.StepFrame(s.io, s'.io, step.step);
    } else if step.ParseStep? {
      WP.InvStep(s.parse, s'.parse, step.step);
      WP.StepFrame(s.parse, s'.parse, step.step);
    }
  }

  lemma MainStep(s: State, s': State, step: Step)
    requires Shape(s) && MainInv(s) && NextStep(s, s', step) && Shape(s')
    ensures MainInv(s')
  {
    if step.IoStep? {
      MainStepIo(s, s', step.step);
    }
  }

  lemma MainStepIo(s: State, s': State, step: WP.Step)
    requires Shape(s) && MainInv(s) && IoNext(s, s', step) && Shape(s')
    ensures MainInv(s')
  {
    WP.StepFrame(s.io, s'.io, step);
    if step.EnqLock? || step.EnqAdd? || step.EnqSignal? || step.EnqUnlock? {
      assert step.e == 0;
    }
  }

  lemma TagStep(s: State, s': State, step: Step)
    requires Shape(s) && TagInv(s) && NextStep(s, s', step) && Shape(s')
    ensures TagInv(s')
  {
    if step.ParseStep? {
      WP.StepFrame(s.parse, s'.parse, step.step);
      if step.step.EnqAdd? {
        EmitTags(s, s', CtxOf(s, step.step.e).value);
      }
    }
  }

  lemma EmitTags(s: State, s': State, c: nat)
    requires Shape(s) && TagInv(s) && c < |s.script| && s' == Emit(s, c).(parse := s'.parse)
    requires s'.parse.enqueued == s.parse.enqueued + 1 && Shape(s')
    ensures TagInv(s')
  {
    var m := Msg(c, s.emitted[c]);
    assert m !in s.tags;
    assert forall i :: 0 <= i < |s.tags| ==> s.tags[i] in s.tags;
    assert forall x :: x in s'.tags <==> x == m || x in s.tags;
  }

  lemma ResultStep(s: State, s': State, step: Step)
    requires Shape(s) && ResultInv(s) && NextStep(s, s', step)
    ensures ResultInv(s')
  {
    if step.ParseStep? {
      WP.StepFrame(s.parse, s'.parse, step.step);
    }
  }

  /** A step of the io pool leaves a busy worker on its context. */
  lemma CtxStays(s: State, s': State, step: WP.Step, w: nat)
    requires Shape(s) && IoNext(s, s', step) && CtxOf(s, w).Some? && step != WP.Complete(w)
    ensures CtxOf(s', w) == CtxOf(s, w)
  {
    WP.RunningStays(s.io, s'.io, step, w);
  }

  lemma EmitIo(s: State, s': State, step: WP.Step)
    requires Shape(s) && EmitInv(s) && IoNext(s, s', step) && Shape(s')
    ensures EmitInv(s')
  {
    WP.StepFrame(s.io, s'.io, step);
    forall w | 0 <= w < |s.io.pcs| && !s.parse.enqs[w].EnqIdle? ensures CtxOf(s', w) == CtxOf(s, w) {
      CtxStays(s, s', step, w);
    }
    if step.Complete? {
      var t := s.io.pcs[step.w].ticket;
      assert forall x :: x in s'.io.completed <==> x in s.io.completed || x == t;
    }
  }

  /** Two workers never emit the same context, and never one that has been completed. */
  lemma CtxExclusive(s: State, v: nat, w: nat)
    requires Shape(s) && WP.TicketInv(s.io) && CtxOf(s, w).Some?
    ensures v != w && CtxOf(s, v).Some? ==> CtxOf(s, v) != CtxOf(s, w)
    ensures s.seeks + CtxOf(s, w).value !in s.io.completed
  {
    assert WP.Held(s.io.pcs[w]) == Some(s.seeks + CtxOf(s, w).value);
    if v != w && CtxOf(s, v).Some? {
      assert WP.Held(s.io.pcs[v]) == Some(s.seeks + CtxOf(s, v).value);
    }
  }

  lemma EmitParse(s: State, s': State, step: WP.Step)
    requires Shape(s) && EmitInv(s) && WP.TicketInv(s.io) && ParseNext(s, s', step) && Shape(s')
    ensures EmitInv(s')
  {
    if step.EnqAdd? {
      AddMoves(s, s', step.e);
      EmitAdd(s, s', step.e);
    } else {
      EnqueuersMove(s, s', step);
      EmitMoves(s, s');
    }
  }

  /** What may become of an enqueuer while no message is added. */
  ghost predicate EnqueuerMoves(s: State, s': State, w: nat)
    requires Shape(s) && Shape(s') && w < |s.io.pcs| == |s'.io.pcs|
  {
    || s'.parse.enqs[w] == s.parse.enqs[w]
    || (s'.parse.enqs[w].EnqSignalled? && !s.parse.enqs[w].EnqIdle?)
    || s'.parse.enqs[w].EnqIdle?
    || (CtxOf(s, w).Some? && s.emitted[CtxOf(s, w).value] < s.script[CtxOf(s, w).value])
  }

  /** Only a worker with messages left starts to enqueue; nothing else about the enqueuers matters. */
  lemma EnqueuersMove(s: State, s': State, step: WP.Step)
    requires Shape(s) && ParseNext(s, s', step) && !step.EnqAdd? && Shape(s')
    ensures s'.io == s.io && s'.emitted == s.emitted && s'.script == s.script && s'.seeks == s.seeks
    ensures forall w: nat :: w < |s.io.pcs| ==> EnqueuerMoves(s, s', w)
  {
    WP.StepFrame(s.parse, s'.parse, step);
  }

  lemma EmitMoves(s: State, s': State)
    requires Shape(s) && EmitInv(s) && Shape(s')
    requires s'.io == s.io && s'.emitted == s.emitted && s'.script == s.script && s'.seeks == s.seeks
    requires forall w: nat :: w < |s.io.pcs| ==> EnqueuerMoves(s, s', w)
    ensures EmitInv(s')
  {
    forall w: nat | w < |s.io.pcs| ensures CtxOf(s', w) == CtxOf(s, w) && EnqueuerMoves(s, s', w) {
    }
  }

  /** Adding a message: its worker was holding the lock and goes on; the others stay. */
  lemma AddMoves(s: State, s': State, e: nat)
    requires Shape(s) && ParseNext(s, s', WP.EnqAdd(e)) && Shape(s')
    ensures e < |s.io.pcs| && CtxOf(s, e).Some?
    ensures s.parse.enqs[e].EnqLocked? && s'.parse.enqs[e].EnqAdded?
    ensures s'.io == s.io && s'.script == s.script && s'.seeks == s.seeks
    ensures var c := CtxOf(s, e).value; s'.emitted == s.emitted[c := s.emitted[c] + 1]
    ensures forall w: nat :: w < |s.io.pcs| && w != e ==> s'.parse.enqs[w] == s.parse.enqs[w]
  {
  }

  lemma EmitAdd(s: State, s': State, e: nat)
    requires Shape(s) && EmitInv(s) && WP.TicketInv(s.io) && Shape(s') && e < |s.io.pcs| && CtxOf(s, e).Some?
    requires s'.io == s.io && s'.script == s.script && s'.seeks == s.seeks
    requires s.parse.enqs[e].EnqLocked? && s'.parse.enqs[e].EnqAdded?
    requires var c := CtxOf(s, e).value; s'.emitted == s.emitted[c := s.emitted[c] + 1]
    requires forall w: nat :: w < |s.io.pcs| && w != e ==> s'.parse.enqs[w] == s.parse.enqs[w]
    ensures EmitInv(s')
  {
    var c := CtxOf(s, e).value;
    forall w: nat | w < |s.io.pcs| && w != e ensures CtxOf(s, w) != Some(c) {
      CtxExclusive(s, w, e);
    }
    CtxExclusive(s, e, e);
    EmitOneMore(s, s', e, c);
  }

  /** One more message of context `c`, which is not completed and which no other worker runs. */
  lemma EmitOneMore(s: State, s': State, e: nat, c: nat)
    requires Shape(s) && EmitInv(s) && Shape(s') && e < |s.io.pcs| && CtxOf(s, e) == Some(c)
    requires s'.io == s.io && s'.script == s.script && s'.seeks == s.seeks
    requires s.parse.enqs[e].EnqLocked? && s'.parse.enqs[e].EnqAdded?
    requires s'.emitted == s.emitted[c := s.emitted[c] + 1] && s.seeks + c !in s.io.completed
    requires forall w: nat :: w < |s.io.pcs| && w != e ==>
      CtxOf(s, w) != Some(c) && s'.parse.enqs[w] == s.parse.enqs[w]
    ensures EmitInv(s')
  {
    assert forall w: nat :: w < |s.io.pcs| ==> CtxOf(s', w) == CtxOf(s, w);
  }

  lemma EmitStep(s: State, s': State, step: Step)
    requires Shape(s) && EmitInv(s) && WP.TicketInv(s.io) && NextStep(s, s', step) && Shape(s')
    ensures EmitInv(s')
  {
    if step.IoStep? {
      EmitIo(s, s', step.step);
    } else if step.ParseStep? {
      EmitParse(s, s', step.step);
    } else {
      EmitMain(s, s');
    }
  }

  /** The main thread moves no worker. */
  lemma EmitMain(s: State, s': State)
    requires Shape(s) && EmitInv(s) && NextStep(s, s', Resume) && Shape(s')
    ensures EmitInv(s')
  {
    assert forall w :: 0 <= w < |s.io.pcs| ==> CtxOf(s', w) == CtxOf(s, w);
  }

  /** After every context has been completed nothing more is emitted. */
  lemma NoMoreEmits(s: State, w: nat)
    requires Shape(s) && WP.TicketInv(s.io)
    requires forall t: WP.Ticket :: t < s.seeks + |s.script| ==> t in s.io.completed
    ensures CtxOf(s, w).None?
  {
    if CtxOf(s, w).Some? {
      CtxExclusive(s, w, w);
    }
  }

  lemma PhaseStep(s: State, s': State, step: Step)
    requires Shape(s) && WP.TicketInv(s.io) && WP.WaiterInv(s.io)
    requires MainInv(s) && TagInv(s) && PhaseInv(s) && NextStep(s, s', step) && Shape(s')
    ensures PhaseInv(s')
  {
    if step.IoStep? {
      WP.StepFrame(s.io, s'.io, step.step);
      if step.step.Complete? {
        assert forall t :: t in s.io.completed ==> t in s'.io.completed;
      }
    } else if step.ParseStep? {
      WP.StepFrame(s.parse, s'.parse, step.step);
      if step.step.EnqAdd? && (s.main.IoDone? || s.main.WaitParse? || s.main.Finished?) {
        NoMoreEmits(s, step.step.e);
      }
    }
  }

  lemma InvStep(s: State, s': State, step: Step)
    requires Inv(s) && NextStep(s, s', step)
    ensures Inv(s')
  {
    PoolsStep(s, s', step);
    MainStep(s, s', step);
    EmitStep(s, s', step);
    TagStep(s, s', step);
    ResultStep(s, s', step);
    PhaseStep(s, s', step);
  }

  // ---------- Whole runs ----------

  ghost predicate Next(s: State, s': State) {
    Shape(s) && exists step :: NextStep(s, s', step)
  }

  ghost predicate IsRun(run: seq<State>) {
    |run| > 0 && Init(run[0]) && Runs.Linked(run, Next)
  }

  lemma NextInv(s: State, s': State)
    requires Inv(s) && Next(s, s')
    ensures Inv(s') && s'.script == s.script
  {
    var step :| NextStep(s, s', step);
    InvStep(s, s', step);
    PoolsStep(s, s', step);
  }

  lemma RunInv(run: seq<State>, i: nat)
    requires IsRun(run) && i < |run|
    ensures Inv(run[i]) && run[i].script == run[0].script
  {
    InitInv(run[0]);
    var script := run[0].script;
    forall s, s' | Inv(s) && Next(s, s') ensures Inv(s') && s'.script == s.script {
      NextInv(s, s');
    }
    Runs.Invariant(run, Next, s => Inv(s) && s.script == script, i);
  }

  /**
   The main thread hands out no context, and no worker runs one, before every search for a
   start has come to its end: the ends of the ranges are set in between.
   */
  lemma SeeksComeFirst(run: seq<State>, i: nat)
    requires IsRun(run) && i < |run|
    ensures var s := run[i];
      (!s.main.PutSeek? && !s.main.WaitSeek?) || (exists w: nat :: w < |s.io.pcs| && s.io.pcs[w].Running? && s.io.pcs[w].ticket >= s.seeks) ==>
        forall t: nat :: t < s.seeks ==> t in s.io.completed
  {
    RunInv(run, i);
    var s := run[i];
    forall w: nat | w < |s.io.pcs| && s.io.pcs[w].Running? ensures s.io.pcs[w].ticket < s.io.enqueued {
      assert WP.Held(s.io.pcs[w]) == Some(s.io.pcs[w].ticket);
    }
  }

  /**
   When mboxParse is done, the completed list holds exactly one result for every message
   that every context emits, whatever the schedule and however many workers there are.
   */
  lemma ResultsArePermutation(run: seq<State>)
    requires IsRun(run) && run[|run| - 1].main.Finished?
    ensures var (s, script) := (run[|run| - 1], run[0].script);
      && (forall i, j :: 0 <= i < j < |s.results| ==> s.results[i] != s.results[j])
      && (forall m :: m in s.results <==> m.ctx < |script| && m.index < script[m.ctx])
  {
    RunInv(run, |run| - 1);
    FinishedResults(run[|run| - 1]);
  }

  lemma FinishedResults(s: State)
    requires Inv(s) && s.main.Finished?
    ensures forall i, j :: 0 <= i < j < |s.results| ==> s.results[i] != s.results[j]
    ensures forall m :: m in s.results <==> m.ctx < |s.script| && m.index < s.script[m.ctx]
  {
    assert forall t: WP.Ticket :: t < |s.tags| ==> t in s.parse.completed;
    forall m | m in s.tags ensures m in s.results {
      var t :| 0 <= t < |s.tags| && s.tags[t] == m;
      assert t in s.parse.completed;
      var j :| 0 <= j < |s.parse.completed| && s.parse.completed[j] == t;
      assert s.results[j] == m;
    }
    forall m | m in s.results ensures m in s.tags {
      var j :| 0 <= j < |s.results| && s.results[j] == m;
      assert s.results[j] == s.tags[s.parse.completed[j]];
    }
    forall i, j | 0 <= i < j < |s.results| ensures s.results[i] != s.results[j] {
      assert s.parse.completed[i] != s.parse.completed[j];
    }
    forall c | 0 <= c < |s.script| ensures s.emitted[c] == s.script[c] {
      assert s.seeks + c in s.io.completed;
    }
  }

  // ---------- The pipeline finishes ----------

  /** Steps that need no spurious wakeup. */
  predicate Genuine(step: Step) {
    match step
    case IoStep(st) => !st.SemSpurious? && !st.WaitSpurious?
    case ParseStep(st) => !st.SemSpurious? && !st.WaitSpurious?
    case Resume => true
  }

  /** Whatever the parse pool wants to do next, the program allows. */
  lemma ParseMoves(s: State) returns (step: Step, s': State)
    requires Inv(s) && !WP.Quiescent(s.parse)
    ensures Genuine(step) && NextStep(s, s', step)
  {
    var st, p' := WP.NoDeadlock(s.parse);
    step := ParseStep(st);
    s' := s.(parse := p');
    if st.EnqAdd? {
      s' := Emit(s, CtxOf(s, st.e).value).(parse := p');
    } else if st.Complete? {
      assert WP.Held(s.parse.pcs[st.w]) == Some(s.parse.pcs[st.w].ticket);
      s' := s'.(results := s.results + [s.tags[s.parse.pcs[st.w].ticket]]);
    }
  }

  lemma QuiescentUnlocked(p: WP.State)
    requires WP.LockInv(p) && WP.Quiescent(p)
    ensures p.qlock == WP.Nobody
  {
    assert forall w :: 0 <= w < |p.pcs| ==> !WP.HoldsQueue(p.pcs[w]);
  }

  /** An io worker whose context is not used up starts its next message; the others just go on. */
  lemma IoMoves(s: State) returns (step: Step, s': State)
    requires Inv(s) && WP.Quiescent(s.parse) && !WP.Quiescent(s.io)
    ensures Genuine(step) && NextStep(s, s', step)
  {
    var st, p' := WP.NoDeadlock(s.io);
    step, s' := IoStep(st), s.(io := p');
    if st.EnqUnlock? {
      s' := s'.(main := if s.main.PutSeek? then PutSeek(s.main.k + 1) else PutCtx(s.main.k + 1));
    } else if st.Complete? && CtxOf(s, st.w).Some?
              && s.emitted[CtxOf(s, st.w).value] < s.script[CtxOf(s, st.w).value] {
      QuiescentUnlocked(s.parse);
      step := ParseStep(WP.EnqLock(st.w));
      s' := s.(parse := s.parse.(enqs := s.parse.enqs[st.w := WP.EnqLocked], qlock := WP.ByEnqueuer(st.w)));
    }
  }

  /** With both pools at rest it is the main thread's turn. */
  lemma MainMoves(s: State) returns (step: Step, s': State)
    requires Inv(s) && WP.Quiescent(s.parse) && WP.Quiescent(s.io) && !s.main.Finished?
    ensures Genuine(step) && NextStep(s, s', step)
  {
    QuiescentUnlocked(s.io);
    match s.main {
      case PutSeek(k) =>
        if k < s.seeks {
          step, s' := IoStep(WP.EnqLock(0)), s.(io := s.io.(enqs := s.io.enqs[0 := WP.EnqLocked], qlock := WP.ByEnqueuer(0)));
        } else {
          step, s' := IoStep(WP.WaitCall), s.(io := s.io.(waiter := WP.WaitEntry, snapshot := s.io.enqueued), main := WaitSeek);
        }
      case PutCtx(k) =>
        if k < |s.script| {
          step, s' := IoStep(WP.EnqLock(0)), s.(io := s.io.(enqs := s.io.enqs[0 := WP.EnqLocked], qlock := WP.ByEnqueuer(0)));
        } else {
          step, s' := IoStep(WP.WaitCall), s.(io := s.io.(waiter := WP.WaitEntry, snapshot := s.io.enqueued), main := WaitIo);
        }
      case WaitSeek => step, s' := Resume, s.(main := PutCtx(0));
      case WaitIo => step, s' := Resume, s.(main := IoDone);
      case IoDone =>
        step := ParseStep(WP.WaitCall);
        s' := s.(parse := s.parse.(waiter := WP.WaitEntry, snapshot := s.parse.enqueued), main := WaitParse);
      case WaitParse => step, s' := Resume, s.(main := Finished);
    }
  }

  /** Until the pipeline has finished, some thread can move. */
  lemma NoDeadlock(s: State) returns (step: Step, s': State)
    requires Inv(s) && !s.main.Finished?
    ensures Genuine(step) && NextStep(s, s', step)
  {
    if !WP.Quiescent(s.parse) {
      step, s' := ParseMoves(s);
    } else if !WP.Quiescent(s.io) {
      step, s' := IoMoves(s);
    } else {
      step, s' := MainMoves(s);
    }
  }

  // ---------- A bound on the steps of the whole pipeline ----------

  /** An enqueuer of the io pool, part-way through one job. */
  function IoEnqWeight(n: nat, pc: WP.EnqueuerPc): nat {
    match pc
    case EnqIdle => 2 * WP.Kick(n) + 6
    case EnqLocked => 2 * WP.Kick(n) + 5
    case EnqAdded => WP.Kick(n) + 3
    case EnqSignalled => 2
  }

  /** An enqueuer of the parse pool; its message is paid for when it is added. */
  function ParseEnqWeight(n: nat, pc: WP.EnqueuerPc): nat {
    match pc
    case EnqIdle => 1
    case EnqLocked => 0
    case EnqAdded => WP.Kick(n) + 3
    case EnqSignalled => 2
  }

  function ParseEnqWeights(n: nat): WP.EnqueuerPc -> nat {
    pc => ParseEnqWeight(n, pc)
  }

  /** Messages still to be emitted. */
  ghost function Left(script: seq<nat>, emitted: seq<nat>): int
    requires |script| == |emitted|
  {
    if |script| == 0 then 0 else script[0] - emitted[0] + Left(script[1..], emitted[1..])
  }

  lemma {:induction false} LeftNonNegative(script: seq<nat>, emitted: seq<nat>)
    requires |script| == |emitted| && forall c :: 0 <= c < |script| ==> emitted[c] <= script[c]
    ensures Left(script, emitted) >= 0
    decreases |script|
  {
    if |script| > 0 {
      LeftNonNegative(script[1..], emitted[1..]);
    }
  }

  lemma {:induction false} LeftEmit(script: seq<nat>, emitted: seq<nat>, c: nat)
    requires |script| == |emitted| && c < |script|
    ensures Left(script, emitted[c := emitted[c] + 1]) == Left(script, emitted) - 1
    decreases |script|
  {
    if c == 0 {
      assert emitted[0 := emitted[0] + 1][1..] == emitted[1..];
    } else {
      assert emitted[c := emitted[c] + 1][1..] == emitted[1..][c - 1 := emitted[1..][c - 1] + 1];
      LeftEmit(script[1..], emitted[1..], c - 1);
    }
  }

  /** What the main thread still has to do: jobs to enqueue, and phases to pass. */
  ghost function MainLeft(s: State): (int, nat) {
    match s.main
    case PutSeek(k) => (s.seeks - k + |s.script|, 24)
    case WaitSeek => (|s.script|, 20)
    case PutCtx(k) => (|s.script| - k, 16)
    case WaitIo => (0, 12)
    case IoDone => (0, 8)
    case WaitParse => (0, 4)
    case Finished => (0, 0)
  }

  /** Each part of the rank, with the price of a job and of a message. */
  ghost function Rank(s: State): int {
    if Shape(s) then ShapedRank(s) else 0
  }

  ghost function ShapedRank(s: State): int
    requires Shape(s)
  {
    var (n, m) := (|s.io.pcs|, |s.parse.pcs|);
    WP.CoreRank(s.io) + IoEnqWeight(n, s.io.enqs[0]) + Times(2 * WP.Kick(n) + 6, MainLeft(s).0) + MainLeft(s).1
    + WP.CoreRank(s.parse) + WP.Sum(ParseEnqWeights(m), s.parse.enqs)
    + Times(2 * WP.Kick(m) + 6, Left(s.script, s.emitted))
  }

  function Times(a: nat, b: int): int {
    a * b
  }

  lemma TimesLess(a: nat, b: int)
    ensures Times(a, b - 1) == Times(a, b) - a
    ensures b >= 0 ==> Times(a, b) >= 0
  {
  }

  lemma RankDropsIo(s: State, s': State, step: WP.Step)
    requires Shape(s) && IoNext(s, s', step) && !step.SemSpurious? && !step.WaitSpurious?
    ensures Shape(s') && Rank(s') < Rank(s)
  {
    WP.StepFrame(s.io, s'.io, step);
    if !WP.Internal(step) {
      CoreRankOpens(s.io, s'.io, step);
    } else if step.EnqUnlock? {
      RankDropsUnlock(s, s', step.e);
    } else {
      WP.CoreRankStep(s.io, s'.io, step);
    }
  }

  lemma RankDropsUnlock(s: State, s': State, e: nat)
    requires Shape(s) && IoNext(s, s', WP.EnqUnlock(e))
    ensures Shape(s') && Rank(s') < Rank(s)
  {
    WP.CoreRankStep(s.io, s'.io, WP.EnqUnlock(e));
    TimesLess(2 * WP.Kick(|s.io.pcs|) + 6, MainLeft(s).0);
  }

  /** Starting to enqueue leaves the core alone; calling wait adds the waiter's three steps. */
  lemma CoreRankOpens(p: WP.State, p': WP.State, step: WP.Step)
    requires WP.NextStep(p, p', step) && (step.EnqLock? || step.WaitCall?)
    ensures WP.CoreRank(p') <= WP.CoreRank(p) + if step.WaitCall? then 3 else 0
  {
  }

  lemma RankDropsParse(s: State, s': State, step: WP.Step)
    requires Shape(s) && ParseNext(s, s', step) && !step.SemSpurious? && !step.WaitSpurious?
    ensures Shape(s') && Rank(s') < Rank(s)
  {
    WP.StepFrame(s.parse, s'.parse, step);
    if !WP.Internal(step) {
      RankDropsOpen(s, s', step);
    } else if step.EnqAdd? {
      RankDropsAdd(s, s', step.e);
    } else {
      RankDropsInner(s, s', step);
    }
  }

  lemma RankDropsInner(s: State, s': State, step: WP.Step)
    requires Shape(s) && ParseNext(s, s', step) && !step.SemSpurious? && !step.WaitSpurious?
    requires WP.Internal(step) && !step.EnqAdd?
    ensures Shape(s') && Rank(s') < Rank(s)
  {
    WP.StepFrame(s.parse, s'.parse, step);
    WP.CoreRankStep(s.parse, s'.parse, step);
    if step.EnqSignal? || step.EnqUnlock? {
      WP.SumUpdate(ParseEnqWeights(|s.parse.pcs|), s.parse.enqs, step.e, s'.parse.enqs[step.e]);
    }
  }

  lemma RankDropsOpen(s: State, s': State, step: WP.Step)
    requires Shape(s) && ParseNext(s, s', step) && (step.EnqLock? || step.WaitCall?)
    ensures Shape(s') && Rank(s') < Rank(s)
  {
    CoreRankOpens(s.parse, s'.parse, step);
    if step.EnqLock? {
      WP.SumUpdate(ParseEnqWeights(|s.parse.pcs|), s.parse.enqs, step.e, s'.parse.enqs[step.e]);
    }
  }

  lemma RankDropsAdd(s: State, s': State, e: nat)
    requires Shape(s) && ParseNext(s, s', WP.EnqAdd(e))
    ensures Shape(s') && Rank(s') < Rank(s)
  {
    var m := |s.parse.pcs|;
    WP.CoreRankStep(s.parse, s'.parse, WP.EnqAdd(e));
    WP.SumUpdate(ParseEnqWeights(m), s.parse.enqs, e, s'.parse.enqs[e]);
    LeftEmit(s.script, s.emitted, CtxOf(s, e).value);
    TimesLess(2 * WP.Kick(m) + 6, Left(s.script, s.emitted));
  }

  lemma RankDrops(s: State, s': State, step: Step)
    requires Shape(s) && NextStep(s, s', step) && Genuine(step)
    ensures Shape(s') && Rank(s') < Rank(s)
  {
    match step
    case IoStep(st) => RankDropsIo(s, s', st);
    case ParseStep(st) => RankDropsParse(s, s', st);
    case Resume =>
  }

  lemma RankNonNegative(s: State)
    requires Shape(s) && MainInv(s) && EmitInv(s)
    ensures Rank(s) >= 0
  {
    LeftNonNegative(s.script, s.emitted);
    TimesLess(2 * WP.Kick(|s.io.pcs|) + 6, MainLeft(s).0);
    TimesLess(2 * WP.Kick(|s.parse.pcs|) + 6, Left(s.script, s.emitted));
  }

  ghost predicate GenuineNext(s: State, s': State) {
    Shape(s) && exists step :: Genuine(step) && NextStep(s, s', step)
  }

  lemma BoundedStep(s: State, s': State)
    requires Inv(s) && GenuineNext(s, s')
    ensures Inv(s') && Rank(s') < Rank(s)
  {
    var step :| Genuine(step) && NextStep(s, s', step);
    InvStep(s, s', step);
    RankDrops(s, s', step);
  }

  /** Without spurious wakeups no schedule keeps the pipeline busy for more steps than its rank. */
  lemma RunBounded(run: seq<State>)
    requires |run| > 0 && Inv(run[0]) && Runs.Linked(run, GenuineNext)
    ensures |run| - 1 <= Rank(run[0])
  {
    forall s, s' | Inv(s) && GenuineNext(s, s') ensures Inv(s') && Rank(s') < Rank(s) {
      BoundedStep(s, s');
    }
    Runs.Pays(run, GenuineNext, Inv, Rank, |run| - 1);
    RankNonNegative(run[|run| - 1]);
  }

  ghost predicate Stopped(s: State) {
    Shape(s) && forall step, s' :: NextStep(s, s', step) ==> !Genuine(step)
  }

  /** And when it stops, it has finished: every message has its result. */
  lemma StoppedMeansFinished(run: seq<State>)
    requires IsRun(run) && Stopped(run[|run| - 1])
    ensures run[|run| - 1].main.Finished?
  {
    RunInv(run, |run| - 1);
    if !run[|run| - 1].main.Finished? {
      var step, s' := NoDeadlock(run[|run| - 1]);
    }
  }
}
