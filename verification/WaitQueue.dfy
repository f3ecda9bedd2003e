/**
  wait_event and wake_up as wait_queue/code.c and work_queue_global/code.c use them: any number of waiters
  block until a condition holds, while one signaller carries out a fixed script of assignments to the
  condition and wake-ups.  Every access to the condition is a step of its own.

  A waiter first tests the condition; if it does not hold, it puts itself on the queue and marks itself
  not runnable (prepare_to_wait), tests again, and only then gives up the processor.  A wake-up makes every
  queued waiter runnable and takes it off the queue.  Signals are left out.
  */
module WaitQueue {
  import opened Basics

  datatype Action = Assign(v: int) | Wake

  /** `condition > 0` in wait_queue/code.c, `condition != 0` in work_queue_global/code.c */
  datatype Test = Positive | NonZero

  predicate Holds(test: Test, v: int) {
    match test
    case Positive => v > 0
    case NonZero => v != 0
  }

  datatype Config = Config(script: seq<Action>, initial: int, test: Test, waiters: nat)

  datatype Pc = NotStarted | FirstTest | Loop | Retest | Schedule | Passed

  datatype Waiter = Waiter(pc: Pc, runnable: bool, queued: bool)

  datatype State = State(cond: int, pos: nat, ws: seq<Waiter>)

  /** Act: the signaller's next action.  Move(i): the next step of waiter i. */
  datatype Label = Act | Move(i: nat)

  function Init(c: Config): State {
    State(c.initial, 0, seq(c.waiters, _ => Waiter(NotStarted, true, false)))
  }

  predicate Asleep(w: Waiter) {
    w.pc == Schedule && !w.runnable
  }

  predicate Enabled(c: Config, s: State, l: Label) {
    match l
    case Act => s.pos < |c.script|
    case Move(i) => i < |s.ws| && s.ws[i].pc != Passed && !Asleep(s.ws[i])
  }

  function Moved(test: Test, cond: int, w: Waiter): Waiter {
    match w.pc
    case NotStarted => w.(pc := FirstTest)
    case FirstTest => w.(pc := if Holds(test, cond) then Passed else Loop)
    case Loop => Waiter(Retest, false, true)
    case Retest => if Holds(test, cond) then Waiter(Passed, true, false) else w.(pc := Schedule)
    case Schedule => w.(pc := Loop)
    case Passed => w
  }

  function Woken(w: Waiter): Waiter {
    if w.queued && !w.runnable then w.(runnable := true, queued := false) else w
  }

  function Acted(s: State, a: Action): State {
    match a
    case Assign(v) => s.(cond := v, pos := s.pos + 1)
    case Wake => s.(pos := s.pos + 1, ws := seq(|s.ws|, i requires 0 <= i < |s.ws| => Woken(s.ws[i])))
  }

  function Step(c: Config, s: State, l: Label): State
    requires Enabled(c, s, l)
  {
    match l
    case Act => Acted(s, c.script[s.pos])
    case Move(i) => s.(ws := s.ws[i := Moved(c.test, s.cond, s.ws[i])])
  }

  function Next(c: Config): (State, Label, State) -> bool {
    (s, l, s') => Enabled(c, s, l) && s' == Step(c, s, l)
  }

  type WaitTrace = Run<State, Label>

  ghost predicate WaitRun(c: Config, r: WaitTrace) {
    IsRun(Init(c), Next(c), r)
  }

  /** The condition after the first j actions of the script. */
  function Value(c: Config, j: nat): int
    requires j <= |c.script|
  {
    if j == 0 then c.initial
    else match c.script[j - 1]
      case Assign(v) => v
      case Wake => Value(c, j - 1)
  }

  predicate HoldsAt(c: Config, j: nat) {
    j <= |c.script| && Holds(c.test, Value(c, j))
  }

  // ---------------------------------------------------------------- no early pass

  /** A waiter is on the queue exactly as long as it is not runnable, and then it is on its way to sleep or asleep. */
  predicate Sound(w: Waiter) {
    && (w.queued <==> !w.runnable)
    && (w.queued ==> w.pc == Retest || w.pc == Schedule)
  }

  ghost predicate Inv(c: Config, s: State) {
    && s.pos <= |c.script| && s.cond == Value(c, s.pos) && |s.ws| == c.waiters
    && (forall i :: 0 <= i < |s.ws| ==> Sound(s.ws[i]))
    && ((exists i :: 0 <= i < |s.ws| && s.ws[i].pc == Passed) ==> exists j :: 0 <= j <= s.pos && HoldsAt(c, j))
  }

  lemma InvKept(c: Config, s: State, l: Label)
    requires Inv(c, s) && Enabled(c, s, l)
    ensures Inv(c, Step(c, s, l))
  {
    var s' := Step(c, s, l);
    if i :| 0 <= i < |s'.ws| && s'.ws[i].pc == Passed {
      if s.ws[i].pc == Passed {
        var j :| 0 <= j <= s.pos && HoldsAt(c, j);
        assert 0 <= j <= s'.pos;
      } else {
        assert HoldsAt(c, s.pos);
      }
    }
  }

  lemma {:induction false} RunInv(c: Config, r: WaitTrace, i: nat)
    requires WaitRun(c, r) && i < |r.states|
    ensures Inv(c, r.states[i])
  {
    if i > 0 {
      RunInv(c, r, i - 1);
      assert StepAt(Next(c), r, i - 1);
      InvKept(c, r.states[i - 1], r.steps[i - 1]);
    }
  }

  /** Who is on the queue: nobody that has passed, has been woken or has not queued itself, and everybody asleep. */
  lemma WhoIsQueued(c: Config, r: WaitTrace, k: nat, i: nat)
    requires WaitRun(c, r) && k < |r.states| && i < c.waiters
    ensures |r.states[k].ws| == c.waiters
    ensures var w := r.states[k].ws[i];
      && (w.queued ==> w.pc == Retest || w.pc == Schedule)
      && (w.queued <==> !w.runnable)
      && (w.pc == Schedule ==> (w.queued <==> Asleep(w)))
  {
    RunInv(c, r, k);
    assert Sound(r.states[k].ws[i]);
  }

  /** No early pass: as long as the condition has not held yet, no waiter has got past its wait. */
  lemma NoEarlyPass(c: Config, r: WaitTrace, k: nat, i: nat)
    requires WaitRun(c, r) && k < |r.states| && i < |r.states[k].ws|
    requires forall j :: 0 <= j <= r.states[k].pos ==> !HoldsAt(c, j)
    ensures r.states[k].ws[i].pc != Passed
  {
    RunInv(c, r, k);
  }

  // ---------------------------------------------------------------- no lost wake, exactly when

  /** From action k on the condition holds for good. */
  ghost predicate HoldsFrom(c: Config, k: nat) {
    forall j :: k <= j <= |c.script| ==> HoldsAt(c, j)
  }

  /** The script wakes at k, and the condition holds from then on. */
  ghost predicate LastingWake(c: Config, k: nat) {
    k < |c.script| && c.script[k] == Wake && HoldsFrom(c, k)
  }

  /** The condition holds throughout, or there is a wake-up from which on it holds. */
  ghost predicate Settles(c: Config) {
    HoldsFrom(c, 0) || exists k: nat :: LastingWake(c, k)
  }

  /** Past a lasting wake-up, whoever is about to give up the processor has been made runnable. */
  ghost predicate AwakePast(c: Config, k: nat, s: State) {
    s.pos > k ==> forall i :: 0 <= i < |s.ws| && s.ws[i].pc == Schedule ==> s.ws[i].runnable
  }

  lemma AwakeKept(c: Config, k: nat, s: State, l: Label)
    requires Inv(c, s) && Enabled(c, s, l) && LastingWake(c, k) && AwakePast(c, k, s)
    ensures AwakePast(c, k, Step(c, s, l))
  {
    assert s.pos >= k ==> HoldsAt(c, s.pos);
  }

  lemma {:induction false} NoSleeperPastWake(c: Config, r: WaitTrace, k: nat, n: nat)
    requires WaitRun(c, r) && LastingWake(c, k) && n < |r.states|
    ensures AwakePast(c, k, r.states[n])
  {
    if n > 0 {
      NoSleeperPastWake(c, r, k, n - 1);
      RunInv(c, r, n - 1);
      assert StepAt(Next(c), r, n - 1);
      AwakeKept(c, k, r.states[n - 1], r.steps[n - 1]);
    }
  }

  ghost predicate NoneScheduled(s: State) {
    forall i :: 0 <= i < |s.ws| ==> s.ws[i].pc != Schedule
  }

  lemma NoneScheduledKept(c: Config, s: State, l: Label)
    requires NoneScheduled(s) && Enabled(c, s, l) && Holds(c.test, s.cond)
    ensures NoneScheduled(Step(c, s, l))
  {
  }

  lemma {:induction false} NeverSleeps(c: Config, r: WaitTrace, n: nat)
    requires WaitRun(c, r) && HoldsFrom(c, 0) && n < |r.states|
    ensures NoneScheduled(r.states[n])
  {
    if n > 0 {
      NeverSleeps(c, r, n - 1);
      RunInv(c, r, n - 1);
      assert StepAt(Next(c), r, n - 1) && HoldsAt(c, r.states[n - 1].pos);
      NoneScheduledKept(c, r.states[n - 1], r.steps[n - 1]);
    }
  }

  /** When the script has been carried out, waiter i is asleep and nobody will wake it. */
  ghost predicate Lost(c: Config, r: WaitTrace, i: nat) {
    && WaitRun(c, r) && i < c.waiters && var s := r.states[|r.states| - 1];
    s.pos == |c.script| && i < |s.ws| && Asleep(s.ws[i])
  }

  lemma SettledLosesNone(c: Config, r: WaitTrace, i: nat)
    requires Settles(c)
    ensures !Lost(c, r, i)
  {
    if Lost(c, r, i) {
      var n := |r.states| - 1;
      if HoldsFrom(c, 0) {
        NeverSleeps(c, r, n);
      } else {
        var k: nat :| LastingWake(c, k);
        NoSleeperPastWake(c, r, k, n);
      }
      assert false;
    }
  }

  /** The last moment of the script at which the condition does not hold. */
  lemma {:induction false} LastGap(c: Config, n: nat) returns (m: nat)
    requires n <= |c.script| && HoldsFrom(c, n + 1) && !HoldsFrom(c, 0)
    ensures m <= n && !HoldsAt(c, m) && HoldsFrom(c, m + 1)
  {
    if !HoldsAt(c, n) {
      m := n;
    } else {
      assert HoldsFrom(c, n);
      m := LastGap(c, n - 1);
    }
  }

  lemma Go(c: Config, r: WaitTrace, l: Label) returns (u: WaitTrace)
    requires WaitRun(c, r) && Enabled(c, r.states[|r.steps|], l)
    ensures WaitRun(c, u) && |u.steps| == |r.steps| + 1
    ensures u.states[|u.steps|] == Step(c, r.states[|r.steps|], l)
  {
    var s := Step(c, r.states[|r.steps|], l);
    ExtendIsRun(Init(c), Next(c), r, l, s);
    u := r.Extend(l, s);
  }

  /** The signaller alone carries out its script up to position m; no waiter has started yet. */
  lemma {:induction false} ActUpTo(c: Config, m: nat) returns (r: WaitTrace)
    requires m <= |c.script|
    ensures WaitRun(c, r) && r.states[|r.steps|] == State(Value(c, m), m, Init(c).ws)
  {
    if m == 0 {
      r := Run([Init(c)], []);
    } else {
      var b := ActUpTo(c, m - 1);
      r := Go(c, b, Act);
      assert r.states[|r.steps|].ws == Init(c).ws;
    }
  }

  lemma FallAsleep(c: Config, b: WaitTrace, i: nat) returns (r: WaitTrace)
    requires WaitRun(c, b) && i < c.waiters && b.states[|b.steps|].ws == Init(c).ws
    requires !Holds(c.test, b.states[|b.steps|].cond)
    ensures WaitRun(c, r) && i < |r.states[|r.steps|].ws| && Asleep(r.states[|r.steps|].ws[i])
    ensures r.states[|r.steps|].pos == b.states[|b.steps|].pos
  {
    r := Go(c, b, Move(i));
    r := Go(c, r, Move(i));
    r := Go(c, r, Move(i));
    r := Go(c, r, Move(i));
  }

  /** With no wake-up left in the script, whoever is asleep stays asleep to the end. */
  lemma {:induction false} SleepOn(c: Config, b: WaitTrace, i: nat) returns (r: WaitTrace)
    requires WaitRun(c, b) && b.states[|b.steps|].pos <= |c.script|
    requires i < |b.states[|b.steps|].ws| && Asleep(b.states[|b.steps|].ws[i]) && i < c.waiters
    requires forall k :: b.states[|b.steps|].pos <= k < |c.script| ==> c.script[k] != Wake
    ensures Lost(c, r, i)
    decreases |c.script| - b.states[|b.steps|].pos
  {
    if b.states[|b.steps|].pos == |c.script| {
      r := b;
    } else {
      r := Go(c, b, Act);
      r := SleepOn(c, r, i);
    }
  }

  lemma UnsettledLosesOne(c: Config) returns (r: WaitTrace)
    requires !Settles(c) && c.waiters > 0
    ensures Lost(c, r, 0)
  {
    var m := LastGap(c, |c.script|);
    r := ActUpTo(c, m);
    r := FallAsleep(c, r, 0);
    forall k: nat | m <= k < |c.script| ensures c.script[k] != Wake {
      if c.script[k] == Wake {
        assert Value(c, k + 1) == Value(c, k);
        assert HoldsAt(c, k + 1);
        if k > m {
          assert LastingWake(c, k);
        }
        assert false;
      }
    }
    r := SleepOn(c, r, 0);
  }

  /**
    No wake-up is ever lost, in any interleaving with any number of waiters, exactly when the condition holds
    throughout or the script contains a wake-up from which on the condition holds.
    */
  lemma NoLostWakeIff(c: Config)
    requires c.waiters > 0
    ensures (forall r, i :: !Lost(c, r, i)) <==> Settles(c)
  {
    if Settles(c) {
      forall r, i ensures !Lost(c, r, i) {
        SettledLosesNone(c, r, i);
      }
    } else {
      var r := UnsettledLosesOne(c);
    }
  }

  /** One assignment and one wake-up: which values let every waiter through, for either test. */
  lemma OneSignal(test: Test, v: int, n: nat)
    requires n > 0
    ensures (forall r, i :: !Lost(Config([Assign(v), Wake], 0, test, n), r, i)) <==>
      if test == Positive then v > 0 else v != 0
  {
    var c := Config([Assign(v), Wake], 0, test, n);
    assert Value(c, 0) == 0 && Value(c, 1) == v && Value(c, 2) == v;
    assert !HoldsAt(c, 0);
    assert Holds(test, v) ==> LastingWake(c, 1);
    NoLostWakeIff(c);
    if Settles(c) {
      var k: nat :| LastingWake(c, k);
      assert HoldsAt(c, 1);
    }
  }

  // ---------------------------------------------------------------- progress

  /** How many of its own steps a waiter still needs once the condition holds and it is not asleep. */
  function StepsLeft(w: Waiter): nat {
    match w.pc
    case NotStarted => 2
    case FirstTest => 1
    case Loop => 2
    case Retest => 1
    case Schedule => 3
    case Passed => 0
  }

  /** The steps of waiter i between two points of a run. */
  ghost function OwnMoves(r: WaitTrace, i: nat, a: nat, b: nat): nat
    requires a <= b <= |r.steps|
  {
    if a == b then 0 else OwnMoves(r, i, a, b - 1) + if r.steps[b - 1] == Move(i) then 1 else 0
  }

  lemma OneStepLess(c: Config, s: State, l: Label, i: nat)
    requires Enabled(c, s, l) && Holds(c.test, s.cond) && i < |s.ws|
    ensures var s' := Step(c, s, l);
      i < |s'.ws| && StepsLeft(s'.ws[i]) + (if l == Move(i) then 1 else 0) == StepsLeft(s.ws[i])
  {
  }

  /**
    Past a lasting wake-up every waiter, whenever its thread is first scheduled, gets through its wait within
    three steps of its own, and until then it always has a step to take.
    */
  lemma {:induction false} PassesSoon(c: Config, r: WaitTrace, k: nat, i: nat, a: nat, b: nat)
    requires WaitRun(c, r) && LastingWake(c, k) && i < c.waiters && a <= b <= |r.steps| && r.states[a].pos > k
    ensures r.states[b].pos > k && |r.states[b].ws| == c.waiters == |r.states[a].ws|
    ensures OwnMoves(r, i, a, b) + StepsLeft(r.states[b].ws[i]) == StepsLeft(r.states[a].ws[i]) <= 3
    ensures r.states[b].ws[i].pc == Passed || Enabled(c, r.states[b], Move(i))
  {
    RunInv(c, r, a);
    RunInv(c, r, b);
    if a < b {
      PassesSoon(c, r, k, i, a, b - 1);
      RunInv(c, r, b - 1);
      assert StepAt(Next(c), r, b - 1) && HoldsAt(c, r.states[b - 1].pos);
      OneStepLess(c, r.states[b - 1], r.steps[b - 1], i);
    }
    NoSleeperPastWake(c, r, k, b);
  }

  // ---------------------------------------------------------------- woken too early

  lemma OneStep(c: Config, r: WaitTrace, k: nat)
    requires WaitRun(c, r) && k < |r.steps|
    ensures Enabled(c, r.states[k], r.steps[k]) && r.states[k + 1] == Step(c, r.states[k], r.steps[k])
  {
    assert StepAt(Next(c), r, k);
  }

  /** Step k carries out the action at position p of the script. */
  predicate Acts(r: WaitTrace, k: nat, p: nat) {
    k < |r.steps| && k < |r.states| && r.steps[k] == Act && r.states[k].pos == p
  }

  /** A wake-up gives every sleeper a step to take; an assignment changes no waiter. */
  lemma WhatActionsDo(c: Config, r: WaitTrace, k: nat, i: nat)
    requires WaitRun(c, r) && k < |r.steps| && r.steps[k] == Act && i < c.waiters
    ensures r.states[k].pos < |c.script| && r.states[k + 1].pos == r.states[k].pos + 1
    ensures |r.states[k].ws| == c.waiters
    ensures c.script[r.states[k].pos] == Wake && Asleep(r.states[k].ws[i]) ==> Enabled(c, r.states[k + 1], Move(i))
    ensures c.script[r.states[k].pos] != Wake ==> r.states[k + 1].ws == r.states[k].ws
  {
    RunInv(c, r, k);
    OneStep(c, r, k);
    assert Sound(r.states[k].ws[i]);
  }

  /** How many wake-ups there were in the first k steps. */
  ghost function Wakes(c: Config, r: WaitTrace, k: nat): nat
    requires k <= |r.steps| < |r.states|
  {
    if k == 0 then 0
    else
      var p := r.states[k - 1].pos;
      Wakes(c, r, k - 1) + if r.steps[k - 1] == Act && p < |c.script| && c.script[p] == Wake then 1 else 0
  }

  predicate ScheduledOut(s: State, i: nat) {
    i < |s.ws| && s.ws[i].pc == Schedule
  }

  /** How often in the first k steps waiter i came back from having given up the processor. */
  ghost function Returns(r: WaitTrace, i: nat, k: nat): nat
    requires k <= |r.steps| < |r.states|
  {
    if k == 0 then 0
    else Returns(r, i, k - 1) + if r.steps[k - 1] == Move(i) && ScheduledOut(r.states[k - 1], i) then 1 else 0
  }

  /** Waiter i has been woken since it last queued itself and has not come back yet. */
  function Due(s: State, i: nat): nat {
    if i < |s.ws| && (s.ws[i].pc == Retest || s.ws[i].pc == Schedule) && s.ws[i].runnable then 1 else 0
  }

  lemma DueStep(c: Config, s: State, l: Label, i: nat)
    requires Enabled(c, s, l)
    ensures var returns' := if l == Move(i) && ScheduledOut(s, i) then 1 else 0;
      var wakes := if l == Act && c.script[s.pos] == Wake then 1 else 0;
      Due(Step(c, s, l), i) + returns' <= Due(s, i) + wakes
  {
  }

  lemma {:induction false} ReturnsOwed(c: Config, r: WaitTrace, i: nat, k: nat)
    requires WaitRun(c, r) && k <= |r.steps|
    ensures Returns(r, i, k) + Due(r.states[k], i) <= Wakes(c, r, k)
  {
    if k > 0 {
      ReturnsOwed(c, r, i, k - 1);
      OneStep(c, r, k - 1);
      DueStep(c, r.states[k - 1], r.steps[k - 1], i);
    }
  }

  /** Waiters do not spin: in every run a waiter comes back at most once for each wake-up. */
  lemma NoSpinning(c: Config, r: WaitTrace, i: nat, k: nat)
    requires WaitRun(c, r) && k <= |r.steps|
    ensures Returns(r, i, k) <= Wakes(c, r, k)
  {
    ReturnsOwed(c, r, i, k);
  }

  /** How many of its own steps a waiter takes until it sleeps, as long as the condition does not hold. */
  function ToSleep(w: Waiter): nat {
    match w.pc
    case NotStarted => 4
    case FirstTest => 3
    case Loop => 2
    case Retest => if w.runnable then 4 else 1
    case Schedule => if w.runnable then 3 else 0
    case Passed => 0
  }

  lemma OneStepToSleep(c: Config, s: State, l: Label, i: nat)
    requires Enabled(c, s, l) && l != Act && !Holds(c.test, s.cond) && i < |s.ws| && s.ws[i].pc != Passed
    ensures var s' := Step(c, s, l);
      && i < |s'.ws| && s'.ws[i].pc != Passed && s'.cond == s.cond && s'.pos == s.pos
      && ToSleep(s'.ws[i]) + (if l == Move(i) then 1 else 0) == ToSleep(s.ws[i])
  {
  }

  lemma {:induction false} PosGrows(c: Config, r: WaitTrace, a: nat, b: nat)
    requires WaitRun(c, r) && a <= b <= |r.steps|
    ensures r.states[a].pos <= r.states[b].pos
  {
    if a < b {
      PosGrows(c, r, a, b - 1);
      OneStep(c, r, b - 1);
    }
  }

  lemma NoAction(c: Config, r: WaitTrace, a: nat, b: nat)
    requires WaitRun(c, r) && a < b <= |r.steps| && r.states[a].pos == r.states[b].pos
    ensures r.states[b - 1].pos == r.states[a].pos && r.steps[b - 1] != Act
  {
    PosGrows(c, r, a, b - 1);
    OneStep(c, r, b - 1);
  }

  /**
    While the condition does not hold and the signaller does nothing, every waiter that has not passed,
    also one that was just woken, takes at most four steps of its own; it stops only to sleep on the queue.
    */
  lemma {:induction false} SleepsSoon(c: Config, r: WaitTrace, i: nat, a: nat, b: nat)
    requires WaitRun(c, r) && i < c.waiters && a <= b <= |r.steps| && r.states[a].pos == r.states[b].pos
    requires !Holds(c.test, r.states[a].cond) && i < |r.states[a].ws| && r.states[a].ws[i].pc != Passed
    ensures r.states[b].cond == r.states[a].cond && i < |r.states[b].ws| && r.states[b].ws[i].pc != Passed
    ensures OwnMoves(r, i, a, b) + ToSleep(r.states[b].ws[i]) == ToSleep(r.states[a].ws[i]) <= 4
    ensures Enabled(c, r.states[b], Move(i)) || (Asleep(r.states[b].ws[i]) && r.states[b].ws[i].queued)
  {
    if a < b {
      NoAction(c, r, a, b);
      SleepsSoon(c, r, i, a, b - 1);
      OneStep(c, r, b - 1);
      OneStepToSleep(c, r.states[b - 1], r.steps[b - 1], i);
    }
    RunInv(c, r, b);
    assert Sound(r.states[b].ws[i]);
  }

  // ---------------------------------------------------------------- the two modules

  /** wait_queue/code.c, with n waiters instead of one */
  function WaitModule(n: nat): Config {
    Config([Assign(0), Wake, Assign(1), Wake], 0, Positive, n)
  }

  /** work_queue_global/code.c: the handler signals, start waits */
  function GlobalModule(): Config {
    Config([Assign(5), Wake], 0, NonZero, 1)
  }

  lemma WaitModuleValues(n: nat)
    ensures forall j :: 0 <= j <= 4 ==> (HoldsAt(WaitModule(n), j) <==> j >= 3)
    ensures forall j :: 0 <= j <= |WaitModule(n).script| ==> Value(WaitModule(n), j) == if j < 3 then 0 else 1
    ensures LastingWake(WaitModule(n), 3)
  {
    var c := WaitModule(n);
    assert Value(c, 0) == 0 && Value(c, 1) == 0 && Value(c, 2) == 0 && Value(c, 3) == 1 && Value(c, 4) == 1;
  }

  /**
    wait_queue/code.c in every interleaving: the condition is 0 until the third action sets it to 1; no
    waiter passes before that, so the first wake-up releases none; once the second wake-up is done no
    waiter is asleep.
    */
  lemma WaitModuleCorrect(n: nat, r: WaitTrace, k: nat, i: nat)
    requires WaitRun(WaitModule(n), r) && k < |r.states| && i < n
    ensures |r.states[k].ws| == n && r.states[k].pos <= 4
    ensures r.states[k].cond == if r.states[k].pos < 3 then 0 else 1
    ensures r.states[k].ws[i].pc == Passed ==> r.states[k].pos >= 3 && r.states[k].cond == 1
    ensures r.states[k].pos == 4 ==> !Asleep(r.states[k].ws[i])
  {
    var c := WaitModule(n);
    WaitModuleValues(n);
    RunInv(c, r, k);
    if r.states[k].pos < 3 {
      NoEarlyPass(c, r, k, i);
    }
    NoSleeperPastWake(c, r, 3, k);
  }

  /** The signaller can always go on: it sets 0, wakes, sets 1 and wakes again, and then is done. */
  lemma WaitModuleSignals(n: nat, r: WaitTrace, k: nat, i: nat)
    requires WaitRun(WaitModule(n), r) && k < |r.states| && i < n
    ensures Enabled(WaitModule(n), r.states[k], Act) <==> r.states[k].pos < 4
    ensures Acts(r, k, 1) || Acts(r, k, 3) ==>
      i < |r.states[k].ws| && (Asleep(r.states[k].ws[i]) ==> Enabled(WaitModule(n), r.states[k + 1], Move(i)))
    ensures Acts(r, k, 0) || Acts(r, k, 2) ==> r.states[k + 1].ws == r.states[k].ws
  {
    if k < |r.steps| && r.steps[k] == Act {
      WhatActionsDo(WaitModule(n), r, k, i);
    }
  }

  /**
    The first wake-up: as long as the condition has not been set after it, each waiter takes at most four
    more steps and then is back on the queue, asleep.
    */
  lemma FirstWakeReturns(n: nat, r: WaitTrace, i: nat, a: nat, b: nat)
    requires WaitRun(WaitModule(n), r) && i < n && a <= b <= |r.steps|
    requires r.states[a].pos == 2 && r.states[b].pos == 2
    ensures |r.states[b].ws| == n && OwnMoves(r, i, a, b) <= 4
    ensures Enabled(WaitModule(n), r.states[b], Move(i)) || (Asleep(r.states[b].ws[i]) && r.states[b].ws[i].queued)
  {
    WaitModuleCorrect(n, r, a, i);
    WaitModuleCorrect(n, r, b, i);
    SleepsSoon(WaitModule(n), r, i, a, b);
  }

  lemma GlobalModuleValues()
    ensures forall j :: 0 <= j <= 2 ==> (HoldsAt(GlobalModule(), j) <==> j >= 1)
    ensures forall j :: 0 <= j <= |GlobalModule().script| ==> Value(GlobalModule(), j) == if j == 0 then 0 else 5
    ensures LastingWake(GlobalModule(), 1)
  {
    var c := GlobalModule();
    assert Value(c, 0) == 0 && Value(c, 1) == 5 && Value(c, 2) == 5;
  }

  /**
    work_queue_global/code.c: the condition is 0 until the handler sets it to 5; start passes its wait only
    after that, and is always woken.
    */
  lemma GlobalModuleCorrect(r: WaitTrace, k: nat)
    requires WaitRun(GlobalModule(), r) && k < |r.states|
    ensures |r.states[k].ws| == 1 && r.states[k].pos <= 2
    ensures r.states[k].cond == if r.states[k].pos == 0 then 0 else 5
    ensures r.states[k].ws[0].pc == Passed ==> r.states[k].pos >= 1 && r.states[k].cond == 5
    ensures r.states[k].pos == 2 ==> !Asleep(r.states[k].ws[0])
  {
    var c := GlobalModule();
    GlobalModuleValues();
    RunInv(c, r, k);
    if r.states[k].pos == 0 {
      NoEarlyPass(c, r, k, 0);
    }
    NoSleeperPastWake(c, r, 1, k);
  }

  /** The handler can always go on: it sets the condition, wakes start if it sleeps, and then is done. */
  lemma GlobalModuleSignals(r: WaitTrace, k: nat)
    requires WaitRun(GlobalModule(), r) && k < |r.states|
    ensures Enabled(GlobalModule(), r.states[k], Act) <==> r.states[k].pos < 2
    ensures Acts(r, k, 1) ==>
      |r.states[k].ws| == 1 && (Asleep(r.states[k].ws[0]) ==> Enabled(GlobalModule(), r.states[k + 1], Move(0)))
    ensures Acts(r, k, 0) ==> r.states[k + 1].ws == r.states[k].ws
  {
    if k < |r.steps| && r.steps[k] == Act {
      WhatActionsDo(GlobalModule(), r, k, 0);
    }
  }
}
