/** When a scenario switch can still return: the exact condition on the state, whatever has happened before. */
module ScenarioReturn {
  import opened ScenarioBarrier

  // ----- What keeps a switch from returning -------------------------------

  /** The scenario thread goes to sleep, or sleeps, although nobody is missing. */
  predicate MainSleepsOn(s: State) {
    (s.main.Dozing? || s.main.Asleep?) && s.sensorThreadsWaitCnt == 0
  }

  /** A sensor thread goes to sleep, or sleeps, although it has been released. */
  predicate ThreadSleepsOn(th: SensorThread) {
    (th.pc.FallingAsleep? || th.pc.Waiting?) && !th.needWait
  }

  /** Waiting for an active sensor, or about to. */
  predicate IsIdle(th: SensorThread) {
    th.pc.Idling? || th.pc.DroppingOff?
  }

  /** Traverses its sensors, or will do so before it can stop. */
  predicate IsFree(th: SensorThread) {
    th.pc.Running? || (th.pc.Ready? && !th.isScenChanging)
  }

  /** In the first phase some thread is idle, and none is left that could switch a sensor of it on. */
  predicate NobodyWakes(s: State) {
    && !s.main.Idle? && s.main.phase == 1
    && (exists t :: 0 <= t < |s.threads| && IsIdle(s.threads[t]))
    && forall t :: 0 <= t < |s.threads| ==> !IsFree(s.threads[t])
  }

  predicate Doomed(s: State) {
    || MainSleepsOn(s)
    || (exists t :: 0 <= t < |s.threads| && ThreadSleepsOn(s.threads[t]))
    || NobodyWakes(s)
  }

  // ----- A doomed switch stays doomed -------------------------------------

  /** Nobody can report when nobody is missing. */
  lemma NoReportAtZero(s: State, t: nat)
    requires Inv(s) && s.sensorThreadsWaitCnt == 0
    ensures !Enabled(s, Report(t))
  {
    hide Inv, AfterReport, Outstanding;
    if Enabled(s, Report(t)) {
      ReportLeaves(s, t);
      CounterIsNat(SetPc(s.(sensorThreadsWaitCnt := s.sensorThreadsWaitCnt - 1), t, AfterReport(s.threads[t].pc)));
    }
  }

  lemma MainStaysAsleep(s: State, step: Step)
    requires Inv(s) && Enabled(s, step) && MainSleepsOn(s)
    ensures MainSleepsOn(Next(s, step))
  {
    hide Inv, AddPrefix, Outstanding;
    if step.Report? {
      NoReportAtZero(s, step.t);
    }
  }

  lemma ThreadStaysAsleep(s: State, step: Step, t: nat)
    requires Inv(s) && Enabled(s, step) && !s.main.Idle? && t < |s.threads| && ThreadSleepsOn(s.threads[t])
    ensures !Next(s, step).main.Idle? && t < |Next(s, step).threads| && ThreadSleepsOn(Next(s, step).threads[t])
  {
    hide AllOld, AllNew, Settled, AddPrefix, Outstanding;
    assert ThreadInv(s, t);
    SignalsInRange(s, t);
    if Next(s, step).main.Idle? {
      SwitchNeedsReports(s, step, t);
    }
  }

  /** As long as an idle thread has not reported, the first phase cannot end. */
  lemma IdleIsAwaited(s: State, t: nat)
    requires Inv(s) && !s.main.Idle? && s.main.phase == 1 && t < |s.threads| && IsIdle(s.threads[t])
    ensures !s.main.Signalling? ==> s.sensorThreadsWaitCnt > 0
  {
    hide ThreadOk, Outstanding;
    NoneOverReported(s);
    CountsUp(s.main, s.threads, |s.threads|);
    if !s.main.Signalling? {
      assert Missing(s.main, s.threads[t], t) == 1;
    }
  }

  /** Nobody applies anything in the first phase. */
  lemma NobodyApplies(s: State, u: nat)
    requires Inv(s) && !s.main.Idle? && s.main.phase == 1 && u < |s.threads|
    ensures Traverses(s.threads[u].pc) ==> s.threads[u].pc.Running?
    ensures var pc := s.threads[u].pc; !pc.Released? && !pc.Applied? && !pc.Clearing? && !pc.Cleared?
    ensures s.threads[u].pc.Reported? ==> s.threads[u].needWait
  {
    hide AllOld, AllNew, Settled, Outstanding;
    assert ThreadInv(s, u);
  }

  /** Then no thread begins a round, and none switches a sensor. */
  lemma NobodyStirs(s: State, step: Step)
    requires Inv(s) && Enabled(s, step) && NobodyWakes(s)
    ensures !step.Activate? && !step.Deactivate? && !step.Look? && !step.Round?
    ensures !step.Arm? && !step.Apply? && !step.Clear? && !step.Begin?
    ensures step.Report? ==> s.threads[step.t].pc.Entered?
  {
    hide Inv;
    if step.Activate? || step.Deactivate? {
      NobodyApplies(s, step.u);
    } else if !step.Begin? && !step.Signal? && !step.AllSignalled? && !step.Test? && !step.Doze? {
      NobodyApplies(s, step.t);
    }
  }

  lemma NobodyWakesStays(s: State, step: Step)
    requires Inv(s) && Enabled(s, step) && NobodyWakes(s)
    ensures NobodyWakes(Next(s, step))
  {
    hide Inv, AddPrefix, Outstanding;
    var s' := Next(s, step);
    var t :| 0 <= t < |s.threads| && IsIdle(s.threads[t]);
    IdleIsAwaited(s, t);
    NobodyStirs(s, step);
    if step.Report? {
      ReportLeaves(s, step.t);
      IdleIsAwaited(SetPc(s.(sensorThreadsWaitCnt := s.sensorThreadsWaitCnt - 1), step.t, AfterReport(s.threads[step.t].pc)), t);
    }
    assert IsIdle(s'.threads[t]);
    forall u | 0 <= u < |s'.threads|
      ensures !IsFree(s'.threads[u])
    {
      assert !IsFree(s.threads[u]);
      NobodyApplies(s, u);
    }
  }

  lemma StepKeepsDoomed(s: State, step: Step)
    requires Inv(s) && !s.main.Idle? && Doomed(s) && Enabled(s, step)
    ensures !Next(s, step).main.Idle? && Doomed(Next(s, step))
  {
    hide Inv, Next, Enabled;
    if MainSleepsOn(s) {
      MainStaysAsleep(s, step);
    } else if NobodyWakes(s) {
      NobodyWakesStays(s, step);
    } else {
      var t :| 0 <= t < |s.threads| && ThreadSleepsOn(s.threads[t]);
      ThreadStaysAsleep(s, step, t);
    }
  }

  /** A doomed switch never returns, whatever the threads do. */
  lemma {:induction false} DoomedIsForGood(s: State, steps: seq<Step>, s': State)
    requires Inv(s) && !s.main.Idle? && Doomed(s) && Reaches(s, steps, s')
    ensures !s'.main.Idle? && Doomed(s')
    decreases |steps|
  {
    hide Inv, Doomed, Next, Enabled;
    if steps != [] {
      StepKeepsInv(s, steps[0]);
      StepKeepsDoomed(s, steps[0]);
      DoomedIsForGood(Next(s, steps[0]), steps[1..], s');
    }
  }

  // ----- A switch that can still return -----------------------------------

  /** Some run of the threads ends the switch. */
  ghost predicate Returns(s: State) { exists steps, s' :: Reaches(s, steps, s') && s'.main.Idle? }

  lemma StepReturns(s: State, step: Step)
    requires Enabled(s, step) && Returns(Next(s, step))
    ensures Returns(s)
  {
    hide Enabled, Next;
    var steps, s' :| Reaches(Next(s, step), steps, s') && s'.main.Idle?;
    assert ([step] + steps)[1..] == steps;
    assert Reaches(s, [step] + steps, s');
  }

  function Sum(cost: SensorThread -> nat, threads: seq<SensorThread>): nat {
    if threads == [] then 0 else cost(threads[0]) + Sum(cost, threads[1..])
  }

  lemma {:induction false} SumDrops(cost: SensorThread -> nat, threads: seq<SensorThread>, t: nat, th: SensorThread)
    requires t < |threads| && cost(th) < cost(threads[t])
    ensures Sum(cost, threads[t := th]) < Sum(cost, threads)
  {
    if t == 0 {
      assert threads[t := th][1..] == threads[1..];
    } else {
      SumDrops(cost, threads[1..], t - 1, th);
      assert threads[t := th][1..] == threads[1..][t - 1 := th];
    }
  }

  // ----- When every thread is awake or waits to be released ---------------

  predicate Calm(s: State) {
    && !s.main.Idle? && !MainSleepsOn(s)
    && (forall t | 0 <= t < |s.threads| :: !ThreadSleepsOn(s.threads[t]))
    && (s.main.phase == 1 ==> forall t | 0 <= t < |s.threads| :: !IsIdle(s.threads[t]))
  }

  /** Steps a thread can take before the scenario thread has to take one. */
  function Toil(th: SensorThread): nat {
    match th.pc
    case Running => if !th.isScenChanging then 0 else if th.numActive == 0 then 12 else 11
    case DroppingOff => 0
    case Idling => 0
    case Ready => if th.isScenChanging then 10 else 0
    case Entered => 9
    case Reported(p) => if p == 0 then 8 else 4
    case FallingAsleep(_) => 1
    case Waiting(_) => 0
    case Released => 7
    case Applying => 6
    case Applied => 5
    case Clearing => 3
    case Cleared => 2
  }

  /** Steps the scenario thread can take in one phase. */
  function MainToil(s: State): int {
    match s.main
    case Idle => 0
    case Signalling(_, k) => |s.threads| - k + 3
    case Testing(_) => 2
    case Dozing(_) => 1
    case Asleep(_) => 0
  }

  /** State s' is closer to the end of the switch than s, or there. */
  predicate Closer(s: State, s': State) {
    s'.main.Idle? || (Calm(s') && !s.main.Idle? && (
      || s'.main.phase > s.main.phase
      || (s'.main.phase == s.main.phase && MainToil(s') < MainToil(s))
      || (s'.main.phase == s.main.phase && MainToil(s') == MainToil(s) && Sum(Toil, s'.threads) < Sum(Toil, s.threads))))
  }

  /** A step inside a thread. */
  lemma MovesCloser(s: State, step: Step, t: nat)
    requires Calm(s) && Enabled(s, step) && Inner(step) && t == step.t
    requires var th := Next(s, step).threads[t]; Toil(th) < Toil(s.threads[t]) && !ThreadSleepsOn(th) && !IsIdle(th)
    ensures Closer(s, Next(s, step))
  {
    hide Toil, ThreadSleepsOn, IsIdle, Sum;
    var s' := Next(s, step);
    assert s'.threads == s.threads[t := s'.threads[t]];
    SumDrops(Toil, s.threads, t, s'.threads[t]);
  }

  lemma ReportsCloser(s: State, t: nat)
    requires Calm(s) && Enabled(s, Report(t)) && s.main.phase > 0 && !s.main.Dozing?
    requires s.threads[t].pc.Cleared? ==> !s.threads[t].isScenChanging
    ensures Closer(s, Next(s, Report(t)))
  {
    hide Sum;
    var s' := Next(s, Report(t));
    assert s'.threads == s.threads[t := s'.threads[t]];
    SumDrops(Toil, s.threads, t, s'.threads[t]);
  }

  /** Where a thread is that the scenario thread waits for. */
  lemma MissingIsAwake(s: State, t: nat)
    requires Inv(s) && Calm(s) && (s.main.Testing? || s.main.Asleep?)
    requires t < |s.threads| && Missing(s.main, s.threads[t], t) > 0
    ensures var (th, pc) := (s.threads[t], s.threads[t].pc);
            || ((pc.Running? || pc.Ready?) && th.isScenChanging) || pc.Entered? || (pc.Reported? && pc.phase <= 1 && !th.needWait)
            || pc.Released? || pc.Applying? || pc.Applied? || pc.Clearing? || (pc.Cleared? && !th.isScenChanging)
  {
    hide AllOld, AllNew, Settled, Outstanding;
    assert ThreadInv(s, t);
    assert !ThreadSleepsOn(s.threads[t]);
  }

  lemma MissingMoves(s: State, t: nat) returns (step: Step)
    requires Inv(s) && Calm(s) && (s.main.Testing? || s.main.Asleep?)
    requires t < |s.threads| && Missing(s.main, s.threads[t], t) > 0
    ensures Enabled(s, step) && Closer(s, Next(s, step))
  {
    hide Inv, Missing, Calm, Closer, AddPrefix;
    PhaseInRange(s);
    MissingIsAwake(s, t);
    var pc := s.threads[t].pc;
    step := match pc
      case Running => if s.threads[t].numActive == 0 then Activate(t, t) else Look(t)
      case Ready => Enter(t)
      case Reported(_) => TestWait(t)
      case Released => Arm(t)
      case Applying => Apply(t)
      case Clearing => Clear(t)
      case _ => Report(t);
    if step.Report? {
      ReportsCloser(s, t);
    } else {
      MovesCloser(s, step, t);
    }
  }

  lemma PhaseInRange(s: State)
    requires Inv(s) && !s.main.Idle?
    ensures 1 <= s.main.phase <= 3
    ensures s.main.Signalling? ==> s.main.k <= |s.threads|
  {}

  /** A signal reaches every thread that is not just falling asleep. */
  lemma SignalReaches(s: State)
    requires Inv(s) && Calm(s) && Enabled(s, Signal) && !s.threads[s.main.k].pc.FallingAsleep?
    ensures Closer(s, Next(s, Signal))
  {
    hide Outstanding, AllOld, AllNew, Settled, AddPrefix, Sum, Toil;
    var (k, s') := (s.main.k, Next(s, Signal));
    assert ThreadInv(s, k) && !ThreadSleepsOn(s.threads[k]);
    forall t | 0 <= t < |s'.threads|
      ensures !ThreadSleepsOn(s'.threads[t]) && (s'.main.phase == 1 ==> !IsIdle(s'.threads[t]))
    {
      assert !ThreadSleepsOn(s.threads[t]);
    }
  }

  lemma SignallingMoves(s: State) returns (step: Step)
    requires Inv(s) && Calm(s) && s.main.Signalling?
    ensures Enabled(s, step) && Closer(s, Next(s, step))
  {
    hide Inv, Sum, AddPrefix;
    PhaseInRange(s);
    var k := s.main.k;
    if k == |s.threads| {
      step := AllSignalled;
    } else if s.threads[k].pc.FallingAsleep? {
      step := Sleep(k);
      assert !ThreadSleepsOn(s.threads[k]);
      MovesCloser(s, step, k);
    } else {
      step := Signal;
      SignalReaches(s);
    }
  }

  /** The scenario thread finds nobody missing, or falls asleep while somebody is. */
  lemma MainMoves(s: State) returns (step: Step)
    requires Inv(s) && Calm(s) && ((s.main.Testing? && s.sensorThreadsWaitCnt == 0) || s.main.Dozing?)
    ensures Enabled(s, step) && Closer(s, Next(s, step))
  {
    hide Inv, Sum, Toil;
    PhaseInRange(s);
    step := if s.main.Testing? then Test else Doze;
    CounterIsNat(s);
  }

  lemma CalmMoves(s: State) returns (step: Step)
    requires Inv(s) && Calm(s)
    ensures Enabled(s, step) && Closer(s, Next(s, step))
  {
    hide Inv, Enabled, Next, Closer, Missing, Outstanding;
    if s.main.Signalling? {
      step := SignallingMoves(s);
    } else if s.main.Dozing? || (s.main.Testing? && s.sensorThreadsWaitCnt == 0) {
      step := MainMoves(s);
    } else {
      CounterIsNat(s);
      NoneOverReported(s);
      CounterCounts(s);
      CountsUp(s.main, s.threads, |s.threads|);
      var t: nat :| t < |s.threads| && Missing(s.main, s.threads[t], t) > 0;
      step := MissingMoves(s, t);
    }
  }

  lemma {:induction false} CalmReturns(s: State)
    requires Inv(s) && Calm(s)
    ensures Returns(s)
    decreases 3 - s.main.phase, MainToil(s), Sum(Toil, s.threads)
  {
    hide Inv, Enabled, Next, Calm, Sum, Toil, MainToil;
    var step := CalmMoves(s);
    var s' := Next(s, step);
    StepKeepsInv(s, step);
    if s'.main.Idle? {
      assert Reaches(s', [], s');
    } else {
      PhaseInRange(s');
      MainToilIsNat(s);
      CalmReturns(s');
    }
    StepReturns(s, step);
  }

  lemma MainToilIsNat(s: State)
    requires Inv(s)
    ensures MainToil(s) >= 0
  {}

  // ----- When an idle thread can be woken ---------------------------------

  /** Steps it takes to switch a sensor of an idle thread on such that the thread wakes up. */
  function WakeCost(th: SensorThread): nat {
    if th.pc.Idling? then th.numActive + 1 else if th.pc.DroppingOff? then th.numActive + 2 else 0
  }

  /** Thread u can switch sensors of the others on and off. */
  predicate CanWake(s: State, u: nat) {
    && !s.main.Idle? && s.main.phase == 1 && !MainSleepsOn(s)
    && (forall t | 0 <= t < |s.threads| :: !ThreadSleepsOn(s.threads[t]))
    && u < |s.threads| && s.threads[u].pc.Running?
  }

  /** An idle thread falls asleep first, is then freed of its active sensors, and is woken by the next one. */
  lemma WakingMoves(s: State, u: nat, t: nat) returns (step: Step)
    requires CanWake(s, u) && t < |s.threads| && IsIdle(s.threads[t])
    ensures Enabled(s, step) && CanWake(Next(s, step), u)
    ensures Sum(WakeCost, Next(s, step).threads) < Sum(WakeCost, s.threads)
  {
    hide Sum;
    var th := s.threads[t];
    step := if th.pc.DroppingOff? then DropOff(t) else if th.numActive > 0 then Deactivate(u, t) else Activate(u, t);
    var s' := Next(s, step);
    assert s'.threads == s.threads[t := s'.threads[t]];
    SumDrops(WakeCost, s.threads, t, s'.threads[t]);
  }

  lemma {:induction false} WakersReturn(s: State, u: nat)
    requires Inv(s) && CanWake(s, u)
    ensures Returns(s)
    decreases Sum(WakeCost, s.threads)
  {
    hide Inv, Enabled, Next, Sum, WakeCost, ThreadSleepsOn, IsIdle;
    if t: nat :| t < |s.threads| && IsIdle(s.threads[t]) {
      var step := WakingMoves(s, u, t);
      StepKeepsInv(s, step);
      WakersReturn(Next(s, step), u);
      StepReturns(s, step);
    } else {
      CalmReturns(s);
    }
  }

  /** A switch that is not doomed can return. */
  lemma UndoomedReturns(s: State)
    requires Inv(s) && !s.main.Idle? && !Doomed(s)
    ensures Returns(s)
  {
    hide Inv, ThreadSleepsOn, IsIdle, Sum;
    if s.main.phase == 1 && exists t :: 0 <= t < |s.threads| && IsIdle(s.threads[t]) {
      assert !NobodyWakes(s);
      var u: nat :| u < |s.threads| && IsFree(s.threads[u]);
      if s.threads[u].pc.Running? {
        WakersReturn(s, u);
      } else {
        RoundFreesWaker(s, u);
        StepKeepsInv(s, Round(u));
        WakersReturn(Next(s, Round(u)), u);
        StepReturns(s, Round(u));
      }
    } else {
      CalmReturns(s);
    }
  }

  lemma RoundFreesWaker(s: State, u: nat)
    requires !s.main.Idle? && s.main.phase == 1 && !Doomed(s) && Enabled(s, Round(u))
    ensures CanWake(Next(s, Round(u)), u)
  {
    var s' := Next(s, Round(u));
    forall t | 0 <= t < |s'.threads|
      ensures !ThreadSleepsOn(s'.threads[t])
    {
      assert !ThreadSleepsOn(s.threads[t]);
    }
  }

  /** From any state of a switch some run ends it, if and only if nobody sleeps through its own release and, in the
      first phase, an idle thread finds one that can still switch its sensors on. */
  lemma SwitchReturns(s: State)
    requires Inv(s) && !s.main.Idle?
    ensures Returns(s) <==> !Doomed(s)
  {
    hide Inv, Doomed, Reaches;
    if Doomed(s) {
      if Returns(s) {
        var steps, s' :| Reaches(s, steps, s') && s'.main.Idle?;
        DoomedIsForGood(s, steps, s');
      }
    } else {
      UndoomedReturns(s);
    }
  }

  // ----- Each of the three happens ----------------------------------------

  /** A thread that has slept through its release, and a phase in which all but an idle thread have halted. */
  lemma BlockedIsDoomed(s: State, t: nat)
    requires SleepsOnAt(s, t) || HaltedBut(s, t)
    ensures Doomed(s)
  {
    if SleepsOnAt(s, t) {
      assert ThreadSleepsOn(s.threads[t]);
    } else {
      assert IsIdle(s.threads[t]);
    }
  }

  lemma UntilDoze(x: seq<Sensor>)
    ensures Leads(One(x, Testing(1), 1, Running, false, true), Test, One(x, Dozing(1), 1, Running, false, true))
    ensures Leads(One(x, Dozing(1), 1, Running, false, true), Look(0), One(x, Dozing(1), 1, Ready, false, true))
    ensures Leads(One(x, Dozing(1), 1, Ready, false, true), Enter(0), One(x, Dozing(1), 1, Entered, true, true))
    ensures Leads(One(x, Dozing(1), 1, Entered, true, true), Report(0), One(x, Dozing(1), 0, Reported(0), true, true))
    ensures Leads(One(x, Dozing(1), 0, Reported(0), true, true), Doze, One(x, Asleep(1), 0, Reported(0), true, true))
  {}

  /** The scenario thread can sleep through its own wakeup too: the last report may come after it has tested the
      counter and before it waits. No other of the three conditions holds then. */
  lemma MainCanSleepOn(x: seq<Sensor>) returns (s0: State, steps: seq<Step>, s: State)
    requires Settled(x)
    ensures Init(s0) && Reaches(s0, steps, s) && MainSleepsOn(s) && !NobodyWakes(s)
    ensures forall t | 0 <= t < |s.threads| :: !ThreadSleepsOn(s.threads[t])
  {
    hide Enabled, Next, Reaches;
    UntilStop(x);
    UntilDoze(x);
    s0 := One(x, Idle, 0, Running, false, false);
    s := One(x, Asleep(1), 0, Reported(0), true, true);
    steps := [Begin("Game", false), Signal, AllSignalled, Test, Look(0), Enter(0), Report(0), Doze];
    RunOf([s0, One(x, Signalling(1, 0), 0, Running, false, false), One(x, Signalling(1, 1), 1, Running, false, true),
           One(x, Testing(1), 1, Running, false, true), One(x, Dozing(1), 1, Running, false, true),
           One(x, Dozing(1), 1, Ready, false, true), One(x, Dozing(1), 1, Entered, true, true),
           One(x, Dozing(1), 0, Reported(0), true, true), s], steps);
  }
}
