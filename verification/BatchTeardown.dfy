/**
  Interrupts, the single-threaded work queue and module removal of work_queue_dedicated/code.c, from the
  moment start has returned.  The queue holds the one work item at most once; the worker takes it off
  before it runs the handler, so an interrupt that comes in during a run queues it again.
  */
module BatchTeardown {
  import opened Basics
  import opened BatchQueue

  /** How far `stops` has got: synchronize_irq, free_irq, flush_workqueue, destroy_workqueue have returned. */
  datatype Phase = Live | Synced | IrqFreed | Flushed | Destroyed

  datatype State = State(
    phase: Phase,
    inflight: nat,         // interrupt handlers that have started and not yet called queue_work
    pending: bool,         // the work item is on the queue
    running: bool,         // the worker is inside work_handler
    interrupts: nat,       // interrupt handlers started
    merged: nat,           // queue_work calls that found the item already queued
    started: nat,          // handler runs started
    oks: seq<bool>)        // for each finished handler run, what kmalloc would have answered

  datatype Label = Interrupt | QueueWork | WorkStart | WorkEnd(ok: bool) | SyncIrq | FreeIrq | FlushQueue | DestroyQueue

  const INIT: State := State(Live, 0, false, false, 0, 0, 0, [])

  predicate Enabled(s: State, l: Label) {
    match l
    case Interrupt => s.phase == Live || s.phase == Synced
    case QueueWork => s.inflight > 0
    case WorkStart => s.pending && !s.running
    case WorkEnd(_) => s.running
    case SyncIrq => s.phase == Live && s.inflight == 0
    case FreeIrq => s.phase == Synced && s.inflight == 0
    case FlushQueue => s.phase == IrqFreed && !s.pending && !s.running
    case DestroyQueue => s.phase == Flushed
  }

  function Step(s: State, l: Label): State
    requires Enabled(s, l)
  {
    match l
    case Interrupt => s.(inflight := s.inflight + 1, interrupts := s.interrupts + 1)
    case QueueWork =>
      if s.pending then s.(inflight := s.inflight - 1, merged := s.merged + 1)
      else s.(inflight := s.inflight - 1, pending := true)
    case WorkStart => s.(pending := false, running := true, started := s.started + 1)
    case WorkEnd(ok) => s.(running := false, oks := s.oks + [ok])
    case SyncIrq => s.(phase := Synced)
    case FreeIrq => s.(phase := IrqFreed)
    case FlushQueue => s.(phase := Flushed)
    case DestroyQueue => s.(phase := Destroyed)
  }

  predicate Next(s: State, l: Label, s': State) {
    Enabled(s, l) && s' == Step(s, l)
  }

  type QueueTrace = Run<State, Label>

  ghost predicate QueueRun(r: QueueTrace) {
    IsRun(INIT, Next, r)
  }

  function One(b: bool): nat {
    if b then 1 else 0
  }

  /** Nothing is lost and nothing is invented: where every interrupt and every handler run went. */
  predicate Accounted(s: State) {
    && s.interrupts == s.inflight + s.merged + One(s.pending) + s.started
    && s.started == |s.oks| + One(s.running)
    && (s.phase.IrqFreed? || s.phase.Flushed? || s.phase.Destroyed? ==> s.inflight == 0)
    && (s.phase.Flushed? || s.phase.Destroyed? ==> !s.pending && !s.running)
  }

  lemma StepAccounted(s: State, l: Label)
    requires Accounted(s) && Enabled(s, l)
    ensures Accounted(Step(s, l))
  {
  }

  lemma {:induction false} EveryInterruptAccounted(r: QueueTrace, i: nat)
    requires QueueRun(r) && i < |r.states|
    ensures Accounted(r.states[i])
  {
    if i > 0 {
      EveryInterruptAccounted(r, i - 1);
      assert StepAt(Next, r, i - 1);
      StepAccounted(r.states[i - 1], r.steps[i - 1]);
    }
  }

  /** In every interleaving handler runs never exceed interrupts; in the end they differ by the merged ones only. */
  lemma RunsNeverExceedInterrupts(r: QueueTrace, i: nat)
    requires QueueRun(r) && i < |r.states|
    ensures r.states[i].started <= r.states[i].interrupts
    ensures r.states[i].phase == Destroyed ==> r.states[i].started == r.states[i].interrupts - r.states[i].merged
  {
    EveryInterruptAccounted(r, i);
  }

  /** Once teardown has completed nothing is pending or running, and no step of any kind is left. */
  lemma NothingAfterTeardown(r: QueueTrace, i: nat)
    requires QueueRun(r) && i < |r.states| && r.states[i].phase == Destroyed
    ensures i == |r.steps| && !r.states[i].pending && !r.states[i].running && r.states[i].inflight == 0
    ensures forall l :: !Enabled(r.states[i], l)
  {
    EveryInterruptAccounted(r, i);
    assert StepAt(Next, r, i);
  }

  // ---------------------------------------------------------------- the same, in terms of the steps alone

  /** The item is on the queue before step k: a queue_work has come and the worker has not taken the item since. */
  ghost predicate Queued(r: QueueTrace, k: nat)
    requires k <= |r.steps|
  {
    exists i :: 0 <= i < k && QueuedAt(r, i, k)
  }

  ghost predicate QueuedAt(r: QueueTrace, i: nat, k: nat)
    requires i < k <= |r.steps|
  {
    r.steps[i] == QueueWork && forall j :: i < j < k ==> r.steps[j] != WorkStart
  }

  /** How many of the first k steps are a queue_work that came while the item was on the queue. */
  ghost function Repeated(r: QueueTrace, k: nat): nat
    requires k <= |r.steps|
  {
    if k == 0 then 0 else Repeated(r, k - 1) + if r.steps[k - 1] == QueueWork && Queued(r, k - 1) then 1 else 0
  }

  /** What kmalloc answered in the handler runs that ended in the first k steps. */
  function Answers(r: QueueTrace, k: nat): seq<bool>
    requires k <= |r.steps|
  {
    if k == 0 then [] else Answers(r, k - 1) + if r.steps[k - 1].WorkEnd? then [r.steps[k - 1].ok] else []
  }

  lemma OneStep(r: QueueTrace, k: nat)
    requires QueueRun(r) && k < |r.steps|
    ensures Enabled(r.states[k], r.steps[k]) && r.states[k + 1] == Step(r.states[k], r.steps[k])
  {
    assert StepAt(Next, r, k);
  }

  lemma QueuedStep(r: QueueTrace, k: nat)
    requires k < |r.steps|
    ensures Queued(r, k + 1) <==> r.steps[k] == QueueWork || (r.steps[k] != WorkStart && Queued(r, k))
  {
    if r.steps[k] == QueueWork {
      assert QueuedAt(r, k, k + 1);
    } else if r.steps[k] != WorkStart && Queued(r, k) {
      var i :| 0 <= i < k && QueuedAt(r, i, k);
      assert QueuedAt(r, i, k + 1);
    }
    if r.steps[k] != QueueWork && Queued(r, k + 1) {
      var i :| 0 <= i < k + 1 && QueuedAt(r, i, k + 1);
      assert QueuedAt(r, i, k);
    }
  }

  /** What the counters of a state count. */
  ghost predicate Counted(r: QueueTrace, k: nat)
    requires k <= |r.steps| && k < |r.states|
  {
    var s := r.states[k];
    && (s.pending <==> Queued(r, k))
    && s.interrupts == Times(r.steps, Interrupt, k)
    && s.started == Times(r.steps, WorkStart, k)
    && s.interrupts == s.inflight + Times(r.steps, QueueWork, k)
    && s.merged == Repeated(r, k)
    && s.oks == Answers(r, k)
  }

  /** In every run the counters of the state are what the steps so far say. */
  lemma {:induction false} CountersCount(r: QueueTrace, k: nat)
    requires QueueRun(r) && k <= |r.steps|
    ensures Counted(r, k)
  {
    if k > 0 {
      CountersCount(r, k - 1);
      OneStep(r, k - 1);
      QueuedStep(r, k - 1);
    }
  }

  /** The handler runs only when queue_work has asked for it since it was last started. */
  lemma RunsAreAskedFor(r: QueueTrace, j: nat)
    requires QueueRun(r) && j < |r.steps| && r.steps[j] == WorkStart
    ensures exists i :: 0 <= i < j && QueuedAt(r, i, j)
  {
    CountersCount(r, j);
    OneStep(r, j);
  }

  /** No interrupt is thrown away: after every queue_work the handler is started before removal completes. */
  lemma NoInterruptDropped(r: QueueTrace, i: nat)
    requires QueueRun(r) && r.Last().phase == Destroyed && i < |r.steps| && r.steps[i] == QueueWork
    ensures exists j :: i < j < |r.steps| && r.steps[j] == WorkStart
  {
    if forall j :: i < j < |r.steps| ==> r.steps[j] != WorkStart {
      assert QueuedAt(r, i, |r.steps|);
      CountersCount(r, |r.steps|);
      EveryInterruptAccounted(r, |r.steps|);
      assert false;
    }
  }

  /** In a run that ends in removal: one handler run per interrupt, except those that found the item still queued. */
  lemma RunsPerInterrupt(r: QueueTrace)
    requires QueueRun(r) && r.Last().phase == Destroyed
    ensures var n := |r.steps|;
      && Times(r.steps, QueueWork, n) == Times(r.steps, Interrupt, n)
      && Times(r.steps, WorkStart, n) == Times(r.steps, Interrupt, n) - Repeated(r, n)
      && Times(r.steps, WorkStart, n) == |Answers(r, n)|
  {
    CountersCount(r, |r.steps|);
    EveryInterruptAccounted(r, |r.steps|);
  }

  // ---------------------------------------------------------------- removal

  function ToGo(p: Phase): nat {
    match p
    case Live => 4
    case Synced => 3
    case IrqFreed => 2
    case Flushed => 1
    case Destroyed => 0
  }

  /** The phase that a call of `stops` ends when it returns. */
  function PhaseOf(l: Label): int {
    match l
    case SyncIrq => 4
    case FreeIrq => 3
    case FlushQueue => 2
    case DestroyQueue => 1
    case _ => 0
  }

  lemma PhaseStep(s: State, l: Label)
    requires Enabled(s, l)
    ensures PhaseOf(l) == 0 ==> Step(s, l).phase == s.phase
    ensures PhaseOf(l) > 0 ==> ToGo(s.phase) == PhaseOf(l) && ToGo(Step(s, l).phase) == PhaseOf(l) - 1
  {
  }

  /** The calls of `stops` that have returned before step k are exactly those the phase says. */
  lemma {:induction false} PhasesPassed(r: QueueTrace, k: nat, l: Label)
    requires QueueRun(r) && k <= |r.steps| && PhaseOf(l) > 0
    ensures Times(r.steps, l, k) == if ToGo(r.states[k].phase) < PhaseOf(l) then 1 else 0
  {
    if k > 0 {
      PhasesPassed(r, k - 1, l);
      OneStep(r, k - 1);
      PhaseStep(r.states[k - 1], r.steps[k - 1]);
    }
  }

  /** `stops` makes its four calls in order and once each. */
  lemma CallsInOrder(r: QueueTrace, k: nat, l: Label)
    requires QueueRun(r) && k < |r.steps| && PhaseOf(r.steps[k]) > 0 && PhaseOf(l) > 0
    ensures Times(r.steps, l, k) == if PhaseOf(l) > PhaseOf(r.steps[k]) then 1 else 0
  {
    PhasesPassed(r, k, l);
    OneStep(r, k);
    PhaseStep(r.states[k], r.steps[k]);
  }

  /**
    What each call of `stops` has waited for when it returns: synchronize_irq and free_irq for the
    interrupt handlers in progress, flush_workqueue for every handler run that was asked for.
    */
  lemma CallsWait(r: QueueTrace, k: nat)
    requires QueueRun(r) && k < |r.steps| && PhaseOf(r.steps[k]) > 0
    ensures Times(r.steps, Interrupt, k) == Times(r.steps, QueueWork, k)
    ensures r.steps[k] == FlushQueue || r.steps[k] == DestroyQueue ==>
      !Queued(r, k) && Times(r.steps, WorkStart, k) == |Answers(r, k)|
  {
    CountersCount(r, k);
    EveryInterruptAccounted(r, k);
    OneStep(r, k);
  }

  /** Interrupts can come at any time before free_irq returns, and at no time after it. */
  lemma InterruptsUntilFreed(r: QueueTrace)
    requires QueueRun(r)
    ensures Enabled(r.Last(), Interrupt) <==> Times(r.steps, FreeIrq, |r.steps|) == 0
  {
    PhasesPassed(r, |r.steps|, FreeIrq);
  }

  /**
    Nothing is held up by anything else: when an interrupt handler, the worker and the calls of `stops` can
    go on, in terms of what has happened so far.
    */
  lemma StepsWaitFor(r: QueueTrace, ok: bool)
    requires QueueRun(r)
    ensures var n := |r.steps|;
      var idle := Times(r.steps, WorkStart, n) == |Answers(r, n)|;
      var handled := Times(r.steps, QueueWork, n) == Times(r.steps, Interrupt, n);
      && (Enabled(r.Last(), QueueWork) <==> !handled)
      && (Enabled(r.Last(), WorkStart) <==> Queued(r, n) && idle)
      && (Enabled(r.Last(), WorkEnd(ok)) <==> !idle)
      && (Enabled(r.Last(), SyncIrq) <==> Times(r.steps, SyncIrq, n) == 0 && handled)
      && (Enabled(r.Last(), FreeIrq) <==> Times(r.steps, FreeIrq, n) < Times(r.steps, SyncIrq, n) && handled)
      && (Enabled(r.Last(), FlushQueue) <==>
            Times(r.steps, FlushQueue, n) < Times(r.steps, FreeIrq, n) && !Queued(r, n) && idle)
      && (Enabled(r.Last(), DestroyQueue) <==> Times(r.steps, DestroyQueue, n) < Times(r.steps, FlushQueue, n))
  {
    var n := |r.steps|;
    CountersCount(r, n);
    EveryInterruptAccounted(r, n);
    PhasesPassed(r, n, SyncIrq);
    PhasesPassed(r, n, FreeIrq);
    PhasesPassed(r, n, FlushQueue);
    PhasesPassed(r, n, DestroyQueue);
  }

  lemma Go(r: QueueTrace, l: Label) returns (u: QueueTrace)
    requires QueueRun(r) && Enabled(r.Last(), l)
    ensures QueueRun(u) && r.Begins(u) && u.Last() == Step(r.Last(), l)
  {
    ExtendIsRun(INIT, Next, r, l, Step(r.Last(), l));
    u := r.Extend(l, Step(r.Last(), l));
  }

  /** A step that brings the end of teardown closer; there always is one. */
  function Closer(s: State): Label {
    if s.inflight > 0 then QueueWork
    else if s.running then WorkEnd(true)
    else if s.pending then WorkStart
    else match s.phase
      case Live => SyncIrq
      case Synced => FreeIrq
      case IrqFreed => FlushQueue
      case _ => DestroyQueue
  }

  function Open(s: State): nat {
    3 * s.inflight + 2 * One(s.pending) + One(s.running)
  }

  lemma CloserWorks(s: State)
    requires Accounted(s) && s.phase != Destroyed
    ensures Enabled(s, Closer(s))
    ensures var s' := Step(s, Closer(s));
      ToGo(s'.phase) < ToGo(s.phase) || (ToGo(s'.phase) == ToGo(s.phase) && Open(s') < Open(s))
  {
  }

  /** Teardown never gets stuck: from every reachable state it can complete. */
  lemma {:induction false} TeardownCanFinish(r: QueueTrace) returns (u: QueueTrace)
    requires QueueRun(r)
    ensures QueueRun(u) && r.Begins(u) && u.Last().phase == Destroyed
    decreases ToGo(r.Last().phase), Open(r.Last())
  {
    EveryInterruptAccounted(r, |r.steps|);
    if r.Last().phase == Destroyed {
      u := r;
    } else {
      CloserWorks(r.Last());
      u := Go(r, Closer(r.Last()));
      u := TeardownCanFinish(u);
    }
  }

  /**
    The header comment promises that removal in mid-batch flushes the list.  The code flushes the work queue
    only: after teardown the list still holds moving_val nodes, so it is empty exactly when the number
    of handler runs without a failed allocation is a multiple of 15.
    */
  lemma ListAfterTeardown(r: QueueTrace)
    requires QueueRun(r) && r.Last().phase == Destroyed
    ensures r.Last().started == |r.Last().oks| >= Failed(r.Last().oks)
    ensures Holding(Calls(r.Last().oks), (r.Last().started - Failed(r.Last().oks)) % 15)
    ensures Calls(r.Last().oks).moving == 0 <==> (r.Last().started - Failed(r.Last().oks)) % 15 == 0
  {
    EveryInterruptAccounted(r, |r.steps|);
    CallsHold(r.Last().oks);
  }

  /** The same on the pointers: the handler runs of a run that ends in teardown, made on a new driver. */
  method DriverAfterTeardown(ghost r: QueueTrace, oks: seq<bool>) returns (d: Driver)
    requires QueueRun(r) && r.Last().phase == Destroyed && oks == r.Last().oks
    ensures d.Valid() && d.View() == Calls(oks)
    ensures |d.list.nodes| == (r.Last().started - Failed(oks)) % 15
    ensures d.list.nodes == [] <==> (r.Last().started - Failed(oks)) % 15 == 0
  {
    ListAfterTeardown(r);
    d := new Driver();
    d.HandleAll(oks);
  }

  lemma FirstCall()
    ensures Calls([true]).moving == 1
  {
    assert [true][..0] == [];
  }

  /** One interrupt and one handler run. */
  lemma OneRun() returns (r: QueueTrace)
    ensures QueueRun(r) && r.Last() == State(Live, 0, false, false, 1, 0, 1, [true])
  {
    r := Run([INIT], []);
    r := Go(r, Interrupt);
    r := Go(r, QueueWork);
    r := Go(r, WorkStart);
    r := Go(r, WorkEnd(true));
  }

  /** A run that ends with a node left on the list: one interrupt, one handler run, removal. */
  lemma OneNodeLeft() returns (r: QueueTrace)
    ensures QueueRun(r) && r.Last().phase == Destroyed && Calls(r.Last().oks).moving == 1
  {
    FirstCall();
    r := OneRun();
    r := Go(r, SyncIrq);
    r := Go(r, FreeIrq);
    r := Go(r, FlushQueue);
    r := Go(r, DestroyQueue);
  }
}
