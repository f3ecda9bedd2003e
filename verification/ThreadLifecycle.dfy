/**
  thread01/code.c: n kernel threads kept on a list of work items.  Module init wakes them one by one in list
  order; module exit stops them one by one in list order, waiting for each to end, and then frees the items.
  The threads loop on their own all the while.  Every step of init, exit and of each thread is separate.
  */
module ThreadLifecycle {
  import opened Basics

  /** A thread is created stopped; it then tests its stop flag and sleeps in turn, until it ends. */
  datatype Thread = Created | Testing | Sleeping | Ended

  /** Init: items woken so far.  Exit: items stopped so far, and whether kthread_stop is in progress; items freed so far. */
  datatype Main = Waking(k: nat) | Loaded | Stopping(k: nat, asked: bool) | Freeing(k: nat) | Gone

  datatype Item = Item(thread: Thread, shouldStop: bool, woken: nat, stopped: nat, freed: nat)

  datatype State = State(main: Main, items: seq<Item>)

  datatype Label = WakeNext | InitDone | ExitBegins | AskStop | StopReturns | StopsDone | FreeNext | ExitDone
                 | Test(i: nat) | SleepOver(i: nat)

  function Init(n: nat): State {
    State(Waking(0), seq(n, _ => Item(Created, false, 0, 0, 0)))
  }

  /** list_add puts each item at the front, so the k-th item met on the list is the k-th last allocated. */
  function OnList(n: nat, k: nat): nat
    requires k < n
  {
    n - 1 - k
  }

  lemma OnListIsListOrder<T>(work: seq<T>, k: nat)
    requires k < |work|
    ensures |Reverse(work)| == |work| && Reverse(work)[k] == work[OnList(|work|, k)]
  {
    ReverseAt(work);
  }

  predicate Enabled(s: State, l: Label) {
    var n := |s.items|;
    match l
    case WakeNext => s.main.Waking? && s.main.k < n
    case InitDone => s.main == Waking(n)
    case ExitBegins => s.main == Loaded
    case AskStop => s.main.Stopping? && !s.main.asked && s.main.k < n
    case StopReturns => s.main.Stopping? && s.main.asked && s.main.k < n && s.items[OnList(n, s.main.k)].thread == Ended
    case StopsDone => s.main == Stopping(n, false)
    case FreeNext => s.main.Freeing? && s.main.k < n
    case ExitDone => s.main == Freeing(n)
    case Test(i) => i < n && s.items[i].thread == Testing
    case SleepOver(i) => i < n && s.items[i].thread == Sleeping
  }

  function Put(s: State, i: nat, x: Item, m: Main): State
    requires i < |s.items|
  {
    State(m, s.items[i := x])
  }

  function Step(s: State, l: Label): State
    requires Enabled(s, l)
  {
    var n := |s.items|;
    match l
    case WakeNext =>
      var i := OnList(n, s.main.k);
      Put(s, i, s.items[i].(thread := Testing, woken := s.items[i].woken + 1), Waking(s.main.k + 1))
    case InitDone => s.(main := Loaded)
    case ExitBegins => s.(main := Stopping(0, false))
    case AskStop =>
      var i := OnList(n, s.main.k);
      Put(s, i, s.items[i].(shouldStop := true, stopped := s.items[i].stopped + 1), Stopping(s.main.k, true))
    case StopReturns => s.(main := Stopping(s.main.k + 1, false))
    case StopsDone => s.(main := Freeing(0))
    case FreeNext => Put(s, s.main.k, s.items[s.main.k].(freed := s.items[s.main.k].freed + 1), Freeing(s.main.k + 1))
    case ExitDone => s.(main := Gone)
    case Test(i) => Put(s, i, s.items[i].(thread := if s.items[i].shouldStop then Ended else Sleeping), s.main)
    case SleepOver(i) => Put(s, i, s.items[i].(thread := Testing), s.main)
  }

  predicate Next(s: State, l: Label, s': State) {
    Enabled(s, l) && s' == Step(s, l)
  }

  ghost predicate ThreadRun(n: nat, r: Run<State, Label>) {
    IsRun(Init(n), Next, r)
  }

  // ---------------------------------------------------------------- the invariant

  function Bit(b: bool): nat {
    if b then 1 else 0
  }

  /** What item i has been through, read off the progress of init and exit alone. */
  predicate InStep(m: Main, n: nat, i: nat, x: Item)
    requires i < n
  {
    var p := n - 1 - i;
    && x.woken == Bit(m.Waking? ==> p < m.k)
    && x.stopped == Bit((m.Stopping? && (p < m.k || (p == m.k && m.asked))) || m.Freeing? || m.Gone?)
    && x.freed == Bit((m.Freeing? && i < m.k) || m.Gone?)
    && (x.shouldStop <==> x.stopped == 1)
    && (x.thread == Created <==> x.woken == 0)
    && (x.thread == Ended ==> x.shouldStop)
    && ((m.Stopping? && p < m.k) || m.Freeing? || m.Gone? ==> x.thread == Ended)
  }

  ghost predicate Inv(n: nat, s: State) {
    && |s.items| == n
    && (s.main.Waking? || s.main.Stopping? || s.main.Freeing? ==> s.main.k <= n)
    && (s.main.Stopping? && s.main.asked ==> s.main.k < n)
    && forall i :: 0 <= i < n ==> InStep(s.main, n, i, s.items[i])
  }

  lemma InvKept(n: nat, s: State, l: Label)
    requires Inv(n, s) && Enabled(s, l)
    ensures Inv(n, Step(s, l))
  {
    var s' := Step(s, l);
    forall i | 0 <= i < n ensures InStep(s'.main, n, i, s'.items[i]) {
      assert InStep(s.main, n, i, s.items[i]);
    }
  }

  lemma {:induction false} RunInv(n: nat, r: Run<State, Label>, k: nat)
    requires ThreadRun(n, r) && k < |r.states|
    ensures Inv(n, r.states[k])
  {
    if k > 0 {
      RunInv(n, r, k - 1);
      assert StepAt(Next, r, k - 1);
      InvKept(n, r.states[k - 1], r.steps[k - 1]);
    } else {
      assert forall i :: 0 <= i < n ==> InStep(Waking(0), n, i, r.states[0].items[i]);
    }
  }

  // ---------------------------------------------------------------- the properties

  /**
    In every interleaving no item is woken, stopped or freed twice; as soon as any item has been freed,
    every thread has ended; and when the module is gone each item was woken, stopped and freed exactly once.
    */
  lemma OnceEach(n: nat, r: Run<State, Label>, k: nat, i: nat)
    requires ThreadRun(n, r) && k < |r.states| && i < n
    ensures |r.states[k].items| == n
    ensures var x := r.states[k].items[i]; x.freed <= x.stopped <= x.woken <= 1
    ensures r.states[k].items[i].freed > 0 ==> forall j :: 0 <= j < n ==> r.states[k].items[j].thread == Ended
    ensures r.states[k].main == Gone ==> r.states[k].items[i] == Item(Ended, true, 1, 1, 1)
  {
    RunInv(n, r, k);
    var s := r.states[k];
    forall j | 0 <= j < n ensures InStep(s.main, n, j, s.items[j]) {
    }
  }

  /**
    Init and exit go through the list, which holds the items last allocated first: in every interleaving an
    item is woken only after all those allocated later, and stopped only after all those allocated later
    have been stopped and have ended.  Exit begins only when all have been woken.  Frees run the other way.
    */
  lemma InListOrder(n: nat, r: Run<State, Label>, k: nat, i: nat, j: nat)
    requires ThreadRun(n, r) && k < |r.states| && i < j < n
    ensures |r.states[k].items| == n
    ensures var x, y := r.states[k].items[i], r.states[k].items[j];
      && (x.woken > 0 ==> y.woken > 0)
      && (x.stopped > 0 ==> y.stopped > 0 && y.thread == Ended)
      && (x.stopped > 0 || y.stopped > 0 ==> x.woken > 0 && y.woken > 0)
      && (y.freed > 0 ==> x.freed > 0)
  {
    RunInv(n, r, k);
    var s := r.states[k];
    assert InStep(s.main, n, i, s.items[i]) && InStep(s.main, n, j, s.items[j]);
  }

  /** After its test a thread sleeps, or has ended, until its sleep is over. */
  lemma RestsStep(n: nat, s: State, l: Label, i: nat)
    requires Inv(n, s) && Enabled(s, l) && i < n && l != SleepOver(i)
    requires s.items[i].thread == Sleeping || s.items[i].thread == Ended
    ensures Step(s, l).items[i].thread == s.items[i].thread
  {
    assert InStep(s.main, n, i, s.items[i]);
  }

  lemma {:induction false} RestsAfterTest(n: nat, r: Run<State, Label>, i: nat, a: nat, b: nat)
    requires ThreadRun(n, r) && i < n && a < b <= |r.steps| && r.steps[a] == Test(i)
    requires forall k :: a < k < b ==> r.steps[k] != SleepOver(i)
    ensures |r.states[b].items| == n && (r.states[b].items[i].thread == Sleeping || r.states[b].items[i].thread == Ended)
  {
    RunInv(n, r, b - 1);
    assert StepAt(Next, r, b - 1);
    if a + 1 < b {
      RestsAfterTest(n, r, i, a, b - 1);
      RestsStep(n, r.states[b - 1], r.steps[b - 1], i);
    }
  }

  /** A thread does not spin: between two tests of its stop flag it has slept. */
  lemma SleepsBetweenTests(n: nat, r: Run<State, Label>, i: nat, a: nat, b: nat)
    requires ThreadRun(n, r) && i < n && a < b < |r.steps| && r.steps[a] == Test(i) && r.steps[b] == Test(i)
    ensures exists k :: a < k < b && r.steps[k] == SleepOver(i)
  {
    assert StepAt(Next, r, b);
    if forall k :: a < k < b ==> r.steps[k] != SleepOver(i) {
      RestsAfterTest(n, r, i, a, b);
      assert false;
    }
  }

  /** A thread that was woken waits for nobody: until it ends it has a step to take, and it ends only when told to stop. */
  lemma ThreadsRunFreely(n: nat, r: Run<State, Label>, k: nat, i: nat)
    requires ThreadRun(n, r) && k < |r.states| && i < n
    ensures |r.states[k].items| == n
    ensures var s := r.states[k]; var x := s.items[i];
      && (Enabled(s, Test(i)) || Enabled(s, SleepOver(i)) <==> x.woken > 0 && x.thread != Ended)
      && (x.thread == Ended ==> x.stopped > 0)
  {
    RunInv(n, r, k);
    assert InStep(r.states[k].main, n, i, r.states[k].items[i]);
  }

  /** Own steps a thread that was told to stop still has before it ends. */
  function StepsLeft(t: Thread): nat {
    match t
    case Created => 0
    case Testing => 1
    case Sleeping => 2
    case Ended => 0
  }

  predicate Own(l: Label, i: nat) {
    l == Test(i) || l == SleepOver(i)
  }

  ghost function OwnSteps(r: Run<State, Label>, i: nat, a: nat, b: nat): nat
    requires a <= b <= |r.steps|
  {
    if a == b then 0 else OwnSteps(r, i, a, b - 1) + Bit(Own(r.steps[b - 1], i))
  }

  lemma OneStepLess(n: nat, s: State, l: Label, i: nat)
    requires Inv(n, s) && Enabled(s, l) && i < n && s.items[i].shouldStop
    ensures var x := Step(s, l).items[i];
      x.shouldStop && StepsLeft(x.thread) + Bit(Own(l, i)) == StepsLeft(s.items[i].thread)
  {
    assert InStep(s.main, n, i, s.items[i]);
  }

  /** A thread told to stop takes at most two more steps of its own, and until it ends it has one to take. */
  lemma {:induction false} EndsSoon(n: nat, r: Run<State, Label>, i: nat, a: nat, b: nat)
    requires ThreadRun(n, r) && i < n && a <= b <= |r.steps|
    requires |r.states[a].items| == n && r.states[a].items[i].shouldStop
    ensures |r.states[b].items| == n && r.states[b].items[i].shouldStop
    ensures OwnSteps(r, i, a, b) + StepsLeft(r.states[b].items[i].thread) == StepsLeft(r.states[a].items[i].thread) <= 2
    ensures r.states[b].items[i].thread == Ended || Enabled(r.states[b], Test(i)) || Enabled(r.states[b], SleepOver(i))
  {
    RunInv(n, r, b);
    if a < b {
      EndsSoon(n, r, i, a, b - 1);
      RunInv(n, r, b - 1);
      assert StepAt(Next, r, b - 1);
      OneStepLess(n, r.states[b - 1], r.steps[b - 1], i);
    }
    assert InStep(r.states[b].main, n, i, r.states[b].items[i]);
  }

  // ---------------------------------------------------------------- exit always can complete

  /** What is left to do for init and exit, and then for the thread that exit waits for. */
  function ToGo(n: nat, m: Main): int {
    match m
    case Waking(k) => 5 * n + 5 - k
    case Loaded => 4 * n + 4
    case Stopping(k, asked) => 4 * n + 3 - 2 * k - Bit(asked)
    case Freeing(k) => n + 1 - k
    case Gone => 0
  }

  function Waited(s: State): nat {
    if s.main.Stopping? && s.main.asked && s.main.k < |s.items|
    then StepsLeft(s.items[OnList(|s.items|, s.main.k)].thread) else 0
  }

  function Closer(s: State): Label {
    var n := |s.items|;
    match s.main
    case Waking(k) => if k < n then WakeNext else InitDone
    case Loaded => ExitBegins
    case Stopping(k, asked) =>
      if k >= n then StopsDone
      else if !asked then AskStop
      else (match s.items[OnList(n, k)].thread
        case Testing => Test(OnList(n, k))
        case Sleeping => SleepOver(OnList(n, k))
        case _ => StopReturns)
    case Freeing(k) => if k < n then FreeNext else ExitDone
    case Gone => ExitDone
  }

  lemma CloserWorks(n: nat, s: State)
    requires Inv(n, s) && s.main != Gone
    ensures Enabled(s, Closer(s))
    ensures var s' := Step(s, Closer(s));
      0 <= ToGo(n, s'.main) < ToGo(n, s.main) || (ToGo(n, s'.main) == ToGo(n, s.main) && Waited(s') < Waited(s))
  {
    if s.main.Stopping? && s.main.k < n {
      assert InStep(s.main, n, OnList(n, s.main.k), s.items[OnList(n, s.main.k)]);
    }
  }

  /** No deadlock: from every reachable state the module can be loaded, unloaded and gone. */
  lemma {:induction false} ExitCanFinish(n: nat, r: Run<State, Label>) returns (u: Run<State, Label>)
    requires ThreadRun(n, r)
    ensures ThreadRun(n, u) && r.Begins(u) && u.Last().main == Gone
    decreases ToGo(n, r.Last().main), Waited(r.Last())
  {
    RunInv(n, r, |r.steps|);
    if r.Last().main == Gone {
      u := r;
    } else {
      CloserWorks(n, r.Last());
      var l := Closer(r.Last());
      ExtendIsRun(Init(n), Next, r, l, Step(r.Last(), l));
      u := ExitCanFinish(n, r.Extend(l, Step(r.Last(), l)));
    }
  }
}
