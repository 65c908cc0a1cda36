/** The three-phase barrier that switches every sensor thread to a new scenario.

    The scenario thread signals all sensor threads and waits until all have stopped, hands out the
    scenario and waits until all have applied it, and releases them and waits until all have cleared the
    old one. Each signal method is one atomic step; testing a flag and going to sleep are two, so a
    wakeup can be lost; nobody wakes up without being notified. */
module ScenarioBarrier {
  const OLD_PREFIX := "OLDSCEN_"

  datatype Sensor = Sensor(oldScen: string, newScen: string, algoItems: map<string, seq<nat>>)

  /** Where a sensor thread is. Phase 0 is the stop before the scenario is applied, phase 1 the one after. */
  datatype Pc =
    | Running                   // traversing its sensors, or in the timed sleep before the next round
    | DroppingOff               // numActive was 0, not yet waiting
    | Idling                    // in cond.wait, until a sensor is activated
    | Ready                     // past that wait, isScenChanging not yet tested
    | Entered                   // needWait is set, stop not yet reported
    | Reported(phase: nat)      // reported, needWait not yet tested
    | FallingAsleep(phase: nat) // needWait was set, not yet waiting
    | Waiting(phase: nat)       // in conds[phase].wait
    | Released                  // past the first stop, needWait not yet set again
    | Applying                  // needWait set again
    | Applied                   // new scenario in the sensors, not yet reported
    | Clearing                  // past the second stop
    | Cleared                   // old scenario gone, not yet reported

  datatype SensorThread = SensorThread(
    pc: Pc, numActive: nat, needWait: bool, isScenChanging: bool, newScen: string, sensors: seq<Sensor>)

  /** Outside changingScen. */
  predicate AtWork(pc: Pc) { pc.Running? || pc.DroppingOff? || pc.Idling? || pc.Ready? }

  /** Where the scenario thread is: phases 1 to 3 of scenUpdateWithSensorThread. */
  datatype MainPc =
    | Idle
    | Signalling(phase: nat, k: nat)  // threads below k have been signalled
    | Testing(phase: nat)             // in waitForAllSensorThreads, counter not yet tested
    | Dozing(phase: nat)              // counter was above 0, not yet waiting
    | Asleep(phase: nat)              // in cond.wait

  datatype State = State(
    main: MainPc, sensorThreadsWaitCnt: int, curScen: string, newScen: string, isSetOld: bool,
    threads: seq<SensorThread>)

  /** What the sensors are told to switch to. */
  function Target(s: State): string { if s.isSetOld then OLD_PREFIX + s.newScen else s.newScen }

  // ----- addPrefixScenName ------------------------------------------------

  lemma PrefixInjective(p: string, a: string, b: string)
    ensures p + a == p + b ==> a == b
  {
    assert (p + a)[|p|..] == a && (p + b)[|p|..] == b;
  }

  function AddPrefix(items: map<string, seq<nat>>): map<string, seq<nat>> {
    assert forall a, b | a in items && b in items && OLD_PREFIX + a == OLD_PREFIX + b :: a == b by {
      forall a, b | a in items && b in items {
        PrefixInjective(OLD_PREFIX, a, b);
      }
    }
    map k | k in items :: OLD_PREFIX + k := items[k]
  }

  /** Renaming loses nothing: every scenario's algorithms are found under the prefixed name, and nothing else is. */
  lemma AddPrefixKeepsAlgos(items: map<string, seq<nat>>)
    ensures |AddPrefix(items)| == |items|
    ensures forall k | k in items :: OLD_PREFIX + k in AddPrefix(items) && AddPrefix(items)[OLD_PREFIX + k] == items[k]
    ensures forall n | n in AddPrefix(items) :: OLD_PREFIX <= n && n[|OLD_PREFIX|..] in items
  {
    forall k | k in items
      ensures OLD_PREFIX + k in AddPrefix(items) && AddPrefix(items)[OLD_PREFIX + k] == items[k]
    {
      forall j | j in items
        ensures OLD_PREFIX + j == OLD_PREFIX + k ==> j == k
      {
        PrefixInjective(OLD_PREFIX, j, k);
      }
    }
    forall n | n in AddPrefix(items)
      ensures OLD_PREFIX <= n && n[|OLD_PREFIX|..] in items
    {
      var k :| k in items && n == OLD_PREFIX + k;
      assert n[|OLD_PREFIX|..] == k;
    }
    SameSize(items.Keys, AddPrefix(items).Keys);
  }

  lemma {:induction false} SameSize(a: set<string>, b: set<string>)
    requires forall k | k in a :: OLD_PREFIX + k in b
    requires forall n | n in b :: OLD_PREFIX <= n && n[|OLD_PREFIX|..] in a
    ensures |a| == |b|
  {
    if a != {} {
      var k :| k in a;
      var n := OLD_PREFIX + k;
      assert n[|OLD_PREFIX|..] == k;
      forall j | j in a - {k}
        ensures OLD_PREFIX + j in b - {n}
      {
        PrefixInjective(OLD_PREFIX, j, k);
      }
      forall m | m in b - {n}
        ensures m[|OLD_PREFIX|..] in a - {k}
      {
        assert m == OLD_PREFIX + m[|OLD_PREFIX|..];
      }
      SameSize(a - {k}, b - {n});
    } else {
      assert b == {};
    }
  }

  // ----- Steps ------------------------------------------------------------

  datatype Step =
    | Begin(scen: string, setOld: bool)  // scenUpdateWithSensorThread is called
    | Signal                             // the next sendSignalToSensorThread of the phase
    | AllSignalled                       // the signalling loop ends
    | Test                               // waitForAllSensorThreads tests the counter
    | Doze                               // and goes to sleep
    | Activate(u: nat, t: nat)           // thread u, traversing, activates a sensor of thread t
    | Deactivate(u: nat, t: nat)         // or deactivates one
    | Look(t: nat)                       // the next round begins: numActive is tested
    | DropOff(t: nat)                    // and the thread goes to sleep
    | Round(t: nat)                      // no change of scenario: the sensors are traversed
    | Enter(t: nat)                      // changingScen begins
    | Report(t: nat)                     // sendSignalToScenThreads
    | TestWait(t: nat)                   // waitForScenThread tests needWait
    | Sleep(t: nat)                      // and goes to sleep
    | Arm(t: nat)                        // needWait = true for the second stop
    | Apply(t: nat)                      // traverseSensors(true)
    | Clear(t: nat)                      // deactivateOldScen, setOldScenToNewScen

  /** traverseSensors, inside changingScen or outside, switches virtual sensors of any thread on and off. */
  predicate Traverses(pc: Pc) { pc.Running? || pc.Applying? }

  predicate Enabled(s: State, step: Step) {
    match step
    case Begin(_, _) => s.main.Idle?
    case Signal => s.main.Signalling? && s.main.k < |s.threads|
    case AllSignalled => s.main.Signalling? && s.main.k == |s.threads|
    case Test => s.main.Testing?
    case Doze => s.main.Dozing?
    case Activate(u, t) => t < |s.threads| && u < |s.threads| && Traverses(s.threads[u].pc)
    case Deactivate(u, t) => t < |s.threads| && u < |s.threads| && Traverses(s.threads[u].pc)
    case Look(t) => t < |s.threads| && s.threads[t].pc.Running?
    case DropOff(t) => t < |s.threads| && s.threads[t].pc.DroppingOff?
    case Round(t) => t < |s.threads| && s.threads[t].pc.Ready? && !s.threads[t].isScenChanging
    case Enter(t) => t < |s.threads| && s.threads[t].pc.Ready? && s.threads[t].isScenChanging
    case Report(t) => t < |s.threads| && (s.threads[t].pc.Entered? || s.threads[t].pc.Applied? || s.threads[t].pc.Cleared?)
    case TestWait(t) => t < |s.threads| && s.threads[t].pc.Reported?
    case Sleep(t) => t < |s.threads| && s.threads[t].pc.FallingAsleep?
    case Arm(t) => t < |s.threads| && s.threads[t].pc.Released?
    case Apply(t) => t < |s.threads| && s.threads[t].pc.Applying?
    case Clear(t) => t < |s.threads| && s.threads[t].pc.Clearing?
  }

  function Renamed(sensors: seq<Sensor>, setOld: bool): seq<Sensor> {
    if setOld then seq(|sensors|, i requires 0 <= i < |sensors| => sensors[i].(algoItems := AddPrefix(sensors[i].algoItems)))
    else sensors
  }

  /** activate: the first active sensor wakes the thread, if it is waiting. */
  function Activated(th: SensorThread): SensorThread {
    th.(numActive := th.numActive + 1, pc := if th.numActive == 0 && th.pc.Idling? then Ready else th.pc)
  }

  function Deactivated(th: SensorThread): SensorThread {
    th.(numActive := if th.numActive > 0 then th.numActive - 1 else 0)
  }

  /** Past the stop of a phase. */
  function Past(phase: nat): Pc { if phase == 0 then Released else Clearing }

  /** A signal of the given phase arrives at a sensor thread; notifying wakes it only if it is waiting. */
  function Signalled(th: SensorThread, phase: nat, target: string, setOld: bool): SensorThread {
    if phase == 1 then th.(isScenChanging := true)
    else if phase == 2 then
      th.(needWait := false, newScen := target, sensors := Renamed(th.sensors, setOld),
          pc := if th.pc == Waiting(0) then Past(0) else th.pc)
    else
      th.(needWait := false, isScenChanging := false, pc := if th.pc == Waiting(1) then Past(1) else th.pc)
  }

  function SetNewScen(sensors: seq<Sensor>, scen: string): seq<Sensor> {
    seq(|sensors|, i requires 0 <= i < |sensors| => sensors[i].(newScen := scen))
  }

  function ClearOldScen(sensors: seq<Sensor>): seq<Sensor> {
    seq(|sensors|, i requires 0 <= i < |sensors| => sensors[i].(oldScen := sensors[i].newScen))
  }

  /** The scenario thread leaves waitForAllSensorThreads of a phase. */
  function NextPhase(s: State, phase: nat): State {
    if phase < 3 then s.(main := Signalling(phase + 1, 0)) else s.(main := Idle, curScen := s.newScen)
  }

  function AfterReport(pc: Pc): Pc {
    if pc.Entered? then Reported(0) else if pc.Applied? then Reported(1) else Running
  }

  function SetPc(s: State, t: nat, pc: Pc): State
    requires t < |s.threads|
  {
    s.(threads := s.threads[t := s.threads[t].(pc := pc)])
  }

  function Next(s: State, step: Step): State
    requires Enabled(s, step)
  {
    match step
    case Begin(scen, setOld) => s.(main := Signalling(1, 0), newScen := scen, isSetOld := setOld)
    case Signal =>
      var (p, k) := (s.main.phase, s.main.k);
      s.(sensorThreadsWaitCnt := s.sensorThreadsWaitCnt + 1, main := Signalling(p, k + 1),
         threads := s.threads[k := Signalled(s.threads[k], p, Target(s), s.isSetOld)])
    case AllSignalled => s.(main := Testing(s.main.phase))
    case Test => if s.sensorThreadsWaitCnt > 0 then s.(main := Dozing(s.main.phase)) else NextPhase(s, s.main.phase)
    case Doze => s.(main := Asleep(s.main.phase))
    case Activate(_, t) => s.(threads := s.threads[t := Activated(s.threads[t])])
    case Deactivate(_, t) => s.(threads := s.threads[t := Deactivated(s.threads[t])])
    case Look(t) => SetPc(s, t, if s.threads[t].numActive == 0 then DroppingOff else Ready)
    case DropOff(t) => SetPc(s, t, Idling)
    case Round(t) => SetPc(s, t, Running)
    case Enter(t) => s.(threads := s.threads[t := s.threads[t].(pc := Entered, needWait := true)])
    case Report(t) =>
      var s' := SetPc(s.(sensorThreadsWaitCnt := s.sensorThreadsWaitCnt - 1), t, AfterReport(s.threads[t].pc));
      if s'.sensorThreadsWaitCnt == 0 && s.main.Asleep? then NextPhase(s', s.main.phase) else s'
    case TestWait(t) =>
      var p := s.threads[t].pc.phase;
      SetPc(s, t, if s.threads[t].needWait then FallingAsleep(p) else Past(p))
    case Sleep(t) => SetPc(s, t, Waiting(s.threads[t].pc.phase))
    case Arm(t) => s.(threads := s.threads[t := s.threads[t].(pc := Applying, needWait := true)])
    case Apply(t) =>
      var th := s.threads[t];
      s.(threads := s.threads[t := th.(pc := Applied, sensors := SetNewScen(th.sensors, th.newScen))])
    case Clear(t) =>
      var th := s.threads[t];
      s.(threads := s.threads[t := th.(pc := Cleared, sensors := ClearOldScen(th.sensors))])
  }

  // ----- The invariant ----------------------------------------------------

  /** Signals sent to thread t in this switch. */
  function Signals(main: MainPc, t: nat): int {
    match main
    case Idle => 0
    case Signalling(p, k) => if t < k then p else p - 1
    case Testing(p) => p
    case Dozing(p) => p
    case Asleep(p) => p
  }

  /** Reports a thread has made in this switch, given how often it was signalled. */
  function Reports(th: SensorThread, signals: int): int {
    match th.pc
    case Running => if signals == 3 then 3 else 0
    case DroppingOff => if signals == 3 then 3 else 0
    case Idling => if signals == 3 then 3 else 0
    case Ready => if signals == 3 then 3 else 0
    case Entered => 0
    case Reported(p) => p + 1
    case FallingAsleep(p) => p + 1
    case Waiting(p) => p + 1
    case Released => 1
    case Applying => 1
    case Applied => 1
    case Clearing => 2
    case Cleared => 2
  }

  /** Signalled but not yet reported, over all threads. */
  function Outstanding(main: MainPc, threads: seq<SensorThread>, n: nat): int
    requires n <= |threads|
  {
    if n == 0 then 0
    else Outstanding(main, threads, n - 1) + Signals(main, n - 1) - Reports(threads[n - 1], Signals(main, n - 1))
  }

  predicate AllNew(sensors: seq<Sensor>, scen: string) { forall x | x in sensors :: x.newScen == scen }

  predicate AllOld(sensors: seq<Sensor>, scen: string) { forall x | x in sensors :: x.oldScen == scen }

  /** Every sensor is settled in one scenario. */
  predicate Settled(sensors: seq<Sensor>) { forall x | x in sensors :: x.oldScen == x.newScen }

  /** At a stop: reported and not past it. */
  predicate Stopped(th: SensorThread, phase: nat) {
    th.pc == Reported(phase) || th.pc == FallingAsleep(phase) || th.pc == Waiting(phase)
  }

  /** What holds of a thread after so many signals. */
  predicate ThreadOk(th: SensorThread, signals: int, target: string) {
    if signals == 0 then AtWork(th.pc) && !th.isScenChanging && Settled(th.sensors)
    else if signals == 1 then
      && th.isScenChanging && Settled(th.sensors)
      && (AtWork(th.pc) || (th.needWait && (th.pc.Entered? || Stopped(th, 0))))
    else if signals == 2 then
      && th.isScenChanging && th.newScen == target
      && (if th.pc.Applied? || Stopped(th, 1) then th.needWait && AllNew(th.sensors, target)
          else Settled(th.sensors) && (if th.pc.Applying? then th.needWait else !th.needWait && (Stopped(th, 0) || th.pc.Released?)))
    else
      && signals == 3 && !th.isScenChanging && AllNew(th.sensors, target)
      && (if AtWork(th.pc) || th.pc.Cleared? then AllOld(th.sensors, target)
          else !th.needWait && (Stopped(th, 1) || th.pc.Clearing?))
  }

  predicate MainOk(s: State) {
    match s.main
    case Idle => true
    case Signalling(p, k) => 1 <= p <= 3 && k <= |s.threads|
    case Testing(p) => 1 <= p <= 3
    case Dozing(p) => 1 <= p <= 3
    case Asleep(p) => 1 <= p <= 3
  }

  /** The phase that every thread has completed: nobody is signalled for a phase before all have reported the last. */
  function PhasesDone(main: MainPc): int { if main.Idle? then 0 else main.phase - 1 }

  predicate ThreadInv(s: State, t: nat)
    requires t < |s.threads|
  {
    && ThreadOk(s.threads[t], Signals(s.main, t), Target(s))
    && PhasesDone(s.main) <= Reports(s.threads[t], Signals(s.main, t)) <= Signals(s.main, t)
  }

  predicate Inv(s: State) {
    && MainOk(s)
    && (forall t | 0 <= t < |s.threads| :: ThreadInv(s, t))
    && s.sensorThreadsWaitCnt == Outstanding(s.main, s.threads, |s.threads|)
  }

  predicate Init(s: State) {
    && s.main.Idle? && s.sensorThreadsWaitCnt == 0
    && forall th | th in s.threads :: AtWork(th.pc) && !th.isScenChanging && Settled(th.sensors)
  }

  // ----- Counting ---------------------------------------------------------

  function Missing(main: MainPc, th: SensorThread, t: nat): int { Signals(main, t) - Reports(th, Signals(main, t)) }

  lemma {:induction false} CountsUp(main: MainPc, threads: seq<SensorThread>, n: nat)
    requires n <= |threads| && forall t | 0 <= t < n :: Missing(main, threads[t], t) >= 0
    ensures Outstanding(main, threads, n) >= 0
    ensures Outstanding(main, threads, n) == 0 ==> forall t | 0 <= t < n :: Missing(main, threads[t], t) == 0
    ensures Outstanding(main, threads, n) > 0 ==> exists t :: 0 <= t < n && Missing(main, threads[t], t) > 0
  {
    hide Signals, Reports;
    if n > 0 {
      CountsUp(main, threads, n - 1);
      assert Outstanding(main, threads, n) == Outstanding(main, threads, n - 1) + Missing(main, threads[n - 1], n - 1);
    }
  }

  /** When one thread's count changes, the sum changes with it. */
  lemma {:induction false} CountChanges(m1: MainPc, th1: seq<SensorThread>, m2: MainPc, th2: seq<SensorThread>,
                                        n: nat, t: nat, delta: int)
    requires n <= |th1| == |th2| && t < |th1|
    requires forall u | 0 <= u < n && u != t :: Missing(m2, th2[u], u) == Missing(m1, th1[u], u)
    requires Missing(m2, th2[t], t) == Missing(m1, th1[t], t) + delta
    ensures Outstanding(m2, th2, n) == Outstanding(m1, th1, n) + if t < n then delta else 0
  {
    hide Signals, Reports;
    if n > 0 {
      CountChanges(m1, th1, m2, th2, n - 1, t, delta);
      assert Outstanding(m1, th1, n) == Outstanding(m1, th1, n - 1) + Missing(m1, th1[n - 1], n - 1);
      assert Outstanding(m2, th2, n) == Outstanding(m2, th2, n - 1) + Missing(m2, th2[n - 1], n - 1);
    }
  }

  lemma {:induction false} CountStays(m1: MainPc, th1: seq<SensorThread>, m2: MainPc, th2: seq<SensorThread>, n: nat)
    requires n <= |th1| == |th2|
    requires forall u | 0 <= u < n :: Missing(m2, th2[u], u) == Missing(m1, th1[u], u)
    ensures Outstanding(m2, th2, n) == Outstanding(m1, th1, n)
  {
    hide Signals, Reports;
    if n > 0 {
      CountStays(m1, th1, m2, th2, n - 1);
      assert Outstanding(m1, th1, n) == Outstanding(m1, th1, n - 1) + Missing(m1, th1[n - 1], n - 1);
      assert Outstanding(m2, th2, n) == Outstanding(m2, th2, n - 1) + Missing(m2, th2[n - 1], n - 1);
    }
  }

  // ----- What every step keeps --------------------------------------------

  lemma InitHolds(s: State)
    requires Init(s)
    ensures Inv(s)
  {
    CountsUpFromNothing(s.main, s.threads, |s.threads|);
    forall t | 0 <= t < |s.threads|
      ensures ThreadInv(s, t)
    {
      assert s.threads[t] in s.threads;
    }
  }

  lemma {:induction false} CountsUpFromNothing(main: MainPc, threads: seq<SensorThread>, n: nat)
    requires n <= |threads| && main.Idle? && forall th | th in threads :: AtWork(th.pc)
    ensures Outstanding(main, threads, n) == 0
  {
    if n > 0 {
      assert threads[n - 1] in threads;
      CountsUpFromNothing(main, threads, n - 1);
    }
  }

  /** A signal of the next phase reaches a thread that has completed the one before. */
  lemma SignalKeepsThread(th: SensorThread, phase: nat, target: string, setOld: bool)
    requires 1 <= phase <= 3 && ThreadOk(th, phase - 1, target) && Reports(th, phase - 1) == phase - 1
    ensures ThreadOk(Signalled(th, phase, target, setOld), phase, target)
    ensures Reports(Signalled(th, phase, target, setOld), phase) == phase - 1
  {
    hide AddPrefix;
  }

  lemma SignalKeepsInv(s: State)
    requires Inv(s) && Enabled(s, Signal)
    ensures Inv(Next(s, Signal))
  {
    hide ThreadOk, Signalled, Reports;
    var (p, k, s') := (s.main.phase, s.main.k, Next(s, Signal));
    forall t | 0 <= t < |s'.threads|
      ensures ThreadInv(s', t)
    {
      assert ThreadInv(s, t);
      if t == k {
        SignalKeepsThread(s.threads[k], p, Target(s), s.isSetOld);
      }
    }
    assert ThreadInv(s, k);
    SignalKeepsThread(s.threads[k], p, Target(s), s.isSetOld);
    CountChanges(s.main, s.threads, s'.main, s'.threads, |s.threads|, k, 1);
  }

  lemma NoneOverReported(s: State)
    requires Inv(s)
    ensures forall t | 0 <= t < |s.threads| :: Missing(s.main, s.threads[t], t) >= 0
  {
    hide ThreadOk, Reports, Signals, Outstanding;
    forall t | 0 <= t < |s.threads|
      ensures Missing(s.main, s.threads[t], t) >= 0
    {
      assert ThreadInv(s, t);
    }
  }

  /** Nobody is missing: the next phase may begin. */
  lemma NextPhaseKeepsInv(s: State, phase: nat)
    requires Inv(s) && s.sensorThreadsWaitCnt == 0
    requires !s.main.Idle? && !s.main.Signalling? && phase == s.main.phase
    ensures Inv(NextPhase(s, phase))
    ensures phase == 3 ==> forall t | 0 <= t < |s.threads| ::
              AllOld(s.threads[t].sensors, Target(s)) && AllNew(s.threads[t].sensors, Target(s))
  {
    hide AllOld, AllNew;
    var s' := NextPhase(s, phase);
    NoneOverReported(s);
    CountsUp(s.main, s.threads, |s.threads|);
    forall t | 0 <= t < |s.threads|
      ensures ThreadInv(s', t) && Missing(s'.main, s'.threads[t], t) == 0
      ensures phase == 3 ==> AllOld(s.threads[t].sensors, Target(s)) && AllNew(s.threads[t].sensors, Target(s))
    {
      assert ThreadInv(s, t) && Missing(s.main, s.threads[t], t) == 0;
      if phase == 3 {
        assert Settled(s.threads[t].sensors) by { OldIsNew(s.threads[t].sensors, Target(s)); }
      }
    }
    CountStays(s.main, s.threads, s'.main, s'.threads, |s.threads|);
  }

  lemma OldIsNew(sensors: seq<Sensor>, scen: string)
    ensures AllOld(sensors, scen) && AllNew(sensors, scen) ==> Settled(sensors)
  {}

  lemma ReportKeepsThread(th: SensorThread, signals: int, target: string)
    requires 0 <= signals <= 3 && ThreadOk(th, signals, target) && (th.pc.Entered? || th.pc.Applied? || th.pc.Cleared?)
    ensures var th' := th.(pc := AfterReport(th.pc));
            ThreadOk(th', signals, target) && Reports(th', signals) == Reports(th, signals) + 1
    ensures Reports(th, signals) + 1 <= signals
  {}

  lemma ReportKeepsInv(s: State, t: nat)
    requires Inv(s) && Enabled(s, Report(t))
    ensures Inv(Next(s, Report(t)))
  {
    hide ThreadOk, Reports, AfterReport;
    var s' := SetPc(s.(sensorThreadsWaitCnt := s.sensorThreadsWaitCnt - 1), t, AfterReport(s.threads[t].pc));
    assert ThreadInv(s, t);
    SignalsInRange(s, t);
    ReportKeepsThread(s.threads[t], Signals(s.main, t), Target(s));
    forall u | 0 <= u < |s'.threads|
      ensures ThreadInv(s', u)
    {
      assert ThreadInv(s, u);
    }
    CountChanges(s.main, s.threads, s'.main, s'.threads, |s.threads|, t, -1);
    if s'.sensorThreadsWaitCnt == 0 && s.main.Asleep? {
      NextPhaseKeepsInv(s', s.main.phase);
    }
  }

  lemma SignalsInRange(s: State, t: nat)
    requires MainOk(s)
    ensures 0 <= Signals(s.main, t) <= 3
  {}

  /** A step inside a thread: waiting, waking and working, without signals or reports. */
  predicate Inner(step: Step) {
    step.Activate? || step.Deactivate? || step.Look? || step.DropOff? || step.Round? || step.Enter? || step.TestWait? || step.Sleep? || step.Arm? || step.Apply?
    || step.Clear?
  }

  lemma InnerKeepsThread(s: State, step: Step)
    requires Inv(s) && Inner(step) && Enabled(s, step)
    ensures ThreadInv(Next(s, step), step.t)
    ensures Missing(s.main, Next(s, step).threads[step.t], step.t) == Missing(s.main, s.threads[step.t], step.t)
  {
    hide AddPrefix, Outstanding, AllOld, AllNew, Settled, ThreadOk, Reports;
    assert ThreadInv(s, step.t);
    SignalsInRange(s, step.t);
    var (th, th') := (s.threads[step.t], Next(s, step).threads[step.t]);
    if th.pc.Running? || th.pc.DroppingOff? || th.pc.Idling? || step.Round? || step.Activate? || step.Deactivate? {
      RoundKeepsThread(th, th', Signals(s.main, step.t), Target(s));
    } else {
      ChangeKeepsThread(s, step);
    }
  }

  /** A thread at work that stays at work, and the active count, which no stop depends on. */
  lemma RoundKeepsThread(th: SensorThread, th': SensorThread, signals: int, target: string)
    requires 0 <= signals <= 3 && ThreadOk(th, signals, target)
    requires th' == th.(pc := th'.pc, numActive := th'.numActive)
    requires th'.pc == th.pc || (AtWork(th.pc) && AtWork(th'.pc))
    ensures ThreadOk(th', signals, target) && Reports(th', signals) == Reports(th, signals)
  {
    hide AllOld, AllNew, Settled;
  }

  lemma ChangeKeepsThread(s: State, step: Step)
    requires Inner(step) && Enabled(s, step) && ThreadInv(s, step.t) && 0 <= Signals(s.main, step.t) <= 3
    requires step.Enter? || step.TestWait? || step.Sleep? || step.Arm? || step.Apply? || step.Clear?
    ensures ThreadInv(Next(s, step), step.t)
    ensures Missing(s.main, Next(s, step).threads[step.t], step.t) == Missing(s.main, s.threads[step.t], step.t)
  {
    hide Signals, Outstanding, AddPrefix;
    if step.Apply? || step.Clear? {
      WorkKeepsThread(s, step);
    } else {
      WaitKeepsThread(s, step);
    }
  }

  lemma WorkKeepsThread(s: State, step: Step)
    requires Inner(step) && Enabled(s, step) && ThreadInv(s, step.t) && 0 <= Signals(s.main, step.t) <= 3
    requires step.Apply? || step.Clear?
    ensures ThreadInv(Next(s, step), step.t)
    ensures Missing(s.main, Next(s, step).threads[step.t], step.t) == Missing(s.main, s.threads[step.t], step.t)
  {
    hide Signals, Outstanding, AddPrefix;
  }

  lemma WaitKeepsThread(s: State, step: Step)
    requires Inner(step) && Enabled(s, step) && ThreadInv(s, step.t) && 0 <= Signals(s.main, step.t) <= 3
    requires step.Enter? || step.TestWait? || step.Sleep? || step.Arm?
    ensures ThreadInv(Next(s, step), step.t)
    ensures Missing(s.main, Next(s, step).threads[step.t], step.t) == Missing(s.main, s.threads[step.t], step.t)
  {
    hide Signals, Outstanding, AddPrefix, AllOld, AllNew, Settled;
  }

  lemma InnerKeepsInv(s: State, step: Step)
    requires Inv(s) && Inner(step) && Enabled(s, step)
    ensures Inv(Next(s, step))
  {
    hide ThreadOk, Reports, Signals, AddPrefix;
    var s' := Next(s, step);
    InnerKeepsThread(s, step);
    forall u | 0 <= u < |s'.threads|
      ensures ThreadInv(s', u)
    {
      assert ThreadInv(s, u);
    }
    CountStays(s.main, s.threads, s'.main, s'.threads, |s.threads|);
  }

  lemma MainKeepsInv(s: State, step: Step)
    requires Inv(s) && Enabled(s, step) && (step.Begin? || step.AllSignalled? || step.Test? || step.Doze?)
    ensures Inv(Next(s, step))
  {
    hide ThreadOk, Reports;
    var s' := Next(s, step);
    if step.Test? && s.sensorThreadsWaitCnt == 0 {
      NextPhaseKeepsInv(s, s.main.phase);
    } else {
      assert !(step.Test? && s.sensorThreadsWaitCnt < 0) by { CounterIsNat(s); }
      forall u | 0 <= u < |s'.threads|
        ensures ThreadInv(s', u) && Missing(s'.main, s'.threads[u], u) == Missing(s.main, s.threads[u], u)
      {
        assert ThreadInv(s, u);
        if step.Begin? { FreshTarget(s.threads[u], Target(s), Target(s')); }
      }
      CountStays(s.main, s.threads, s'.main, s'.threads, |s.threads|);
    }
  }

  lemma FreshTarget(th: SensorThread, t1: string, t2: string)
    ensures ThreadOk(th, 0, t1) ==> ThreadOk(th, 0, t2)
  {}

  lemma CounterIsNat(s: State)
    requires Inv(s)
    ensures s.sensorThreadsWaitCnt >= 0
  {
    hide ThreadOk, Reports, Signals, Outstanding;
    NoneOverReported(s);
    CountsUp(s.main, s.threads, |s.threads|);
  }

  lemma StepKeepsInv(s: State, step: Step)
    requires Inv(s) && Enabled(s, step)
    ensures Inv(Next(s, step))
  {
    hide Inv, Next, Enabled;
    if step.Signal? { SignalKeepsInv(s); }
    else if step.Report? { ReportKeepsInv(s, step.t); }
    else if Inner(step) { InnerKeepsInv(s, step); }
    else { MainKeepsInv(s, step); }
  }

  // ----- Safety over whole runs -------------------------------------------

  predicate Reaches(s: State, steps: seq<Step>, s': State)
    decreases |steps|
  {
    if steps == [] then s == s' else Enabled(s, steps[0]) && Reaches(Next(s, steps[0]), steps[1..], s')
  }

  lemma {:induction false} RunKeepsInv(s: State, steps: seq<Step>, s': State)
    requires Inv(s) && Reaches(s, steps, s')
    ensures Inv(s')
    decreases |steps|
  {
    hide Inv;
    if steps != [] {
      StepKeepsInv(s, steps[0]);
      RunKeepsInv(Next(s, steps[0]), steps[1..], s');
    }
  }

  /** The thread works with the new scenario in this switch: it applies it, or has been released and runs with it. */
  predicate WorksWithNew(s: State, t: nat)
    requires t < |s.threads|
  {
    var pc := s.threads[t].pc;
    || (AtWork(pc) && Signals(s.main, t) == 3)
    || pc.Applying? || pc.Applied? || pc == Reported(1) || pc == FallingAsleep(1) || pc == Waiting(1) || pc.Clearing? || pc.Cleared?
  }

  /** The thread clears its old scenario, or has done so in this switch. */
  predicate LeavesOld(s: State, t: nat)
    requires t < |s.threads|
  {
    var pc := s.threads[t].pc;
    (AtWork(pc) && Signals(s.main, t) == 3) || pc.Clearing? || pc.Cleared?
  }

  /** The thread has reported its stop, and is not back at work before the switch has released it. */
  predicate HasStopped(s: State, t: nat)
    requires t < |s.threads|
  {
    Reports(s.threads[t], Signals(s.main, t)) >= 1
  }

  predicate HasApplied(s: State, t: nat)
    requires t < |s.threads|
  {
    Reports(s.threads[t], Signals(s.main, t)) >= 2 && AllNew(s.threads[t].sensors, Target(s))
  }

  /** No thread takes up the new scenario before all have stopped; none clears its old scenario before all
      have applied the new one; the counter is the number of signalled threads that have not reported. */
  lemma BarrierSafety(s0: State, steps: seq<Step>, s: State)
    requires Init(s0) && Reaches(s0, steps, s)
    ensures forall t, u | 0 <= t < |s.threads| && 0 <= u < |s.threads| :: WorksWithNew(s, t) ==> HasStopped(s, u)
    ensures forall t, u | 0 <= t < |s.threads| && 0 <= u < |s.threads| :: LeavesOld(s, t) ==> HasApplied(s, u)
    ensures s.sensorThreadsWaitCnt == Outstanding(s.main, s.threads, |s.threads|) >= 0
  {
    hide Init, Reaches, Outstanding, Inv, WorksWithNew, LeavesOld, HasStopped, HasApplied;
    InitHolds(s0);
    RunKeepsInv(s0, steps, s);
    CounterIsNat(s);
    forall t, u | 0 <= t < |s.threads| && 0 <= u < |s.threads|
      ensures WorksWithNew(s, t) ==> HasStopped(s, u)
      ensures LeavesOld(s, t) ==> HasApplied(s, u)
    {
      BarrierHolds(s, t, u);
    }
    assert s.sensorThreadsWaitCnt == Outstanding(s.main, s.threads, |s.threads|) by { CounterCounts(s); }
  }

  /** The same by where the threads are: while one applies the new scenario or is past that, no thread is on its way to the
      stop, and one that is back at work has the new scenario as its old and its new one; while one clears its old scenario,
      every sensor has the new one. */
  lemma BarrierByPlace(s0: State, steps: seq<Step>, s: State, t: nat, u: nat)
    requires Init(s0) && Reaches(s0, steps, s) && t < |s.threads| && u < |s.threads|
    ensures var (pc, th, target) := (s.threads[t].pc, s.threads[u], if s.isSetOld then "OLDSCEN_" + s.newScen else s.newScen);
            && (pc.Applying? || pc.Applied? || pc.Clearing? || pc.Cleared? ==>
                  && !th.pc.Entered?
                  && (th.pc.Running? || th.pc.DroppingOff? || th.pc.Idling? || th.pc.Ready? ==>
                        !th.isScenChanging && forall x | x in th.sensors :: x.oldScen == x.newScen == target))
            && (pc.Clearing? || pc.Cleared? ==> forall x | x in th.sensors :: x.newScen == target)
  {
    hide Init, Reaches, Outstanding;
    InitHolds(s0);
    RunKeepsInv(s0, steps, s);
    assert ThreadInv(s, t) && ThreadInv(s, u);
    SignalsInRange(s, t);
    SignalsInRange(s, u);
    PhaseOf(s, t, u);
  }

  lemma CounterCounts(s: State)
    requires Inv(s)
    ensures s.sensorThreadsWaitCnt == Outstanding(s.main, s.threads, |s.threads|)
  {
    hide ThreadOk, Outstanding;
  }

  /** The same of one state: where thread t may be depends on what every thread u has done. */
  lemma BarrierHolds(s: State, t: nat, u: nat)
    requires Inv(s) && t < |s.threads| && u < |s.threads|
    ensures WorksWithNew(s, t) || s.threads[t].pc.Released? ==> HasStopped(s, u)
    ensures LeavesOld(s, t) ==> HasApplied(s, u)
  {
    hide Outstanding;
    assert ThreadInv(s, t) && ThreadInv(s, u);
    SignalsInRange(s, t);
    SignalsInRange(s, u);
    PhaseOf(s, t, u);
  }

  /** A thread signalled for a phase means every thread has completed the one before. */
  lemma PhaseOf(s: State, t: nat, u: nat)
    requires MainOk(s)
    ensures Signals(s.main, t) - 1 <= PhasesDone(s.main) <= Signals(s.main, u)
  {}

  /** A sensor's algorithms are renamed by the signal that hands out the scenario with isSetOld, and by nothing else; the
      thread is stopped then. */
  lemma RenamedOnlyWhileStopped(s0: State, steps: seq<Step>, s: State, step: Step, t: nat, i: nat)
    requires Init(s0) && Reaches(s0, steps, s) && Enabled(s, step)
    requires t < |s.threads| && i < |s.threads[t].sensors|
    ensures var s' := Next(s, step);
            && t < |s'.threads| && i < |s'.threads[t].sensors|
            && (if step.Signal? && s.main.phase == 2 && s.main.k == t && s.isSetOld
                then Stopped(s.threads[t], 0) && s'.threads[t].sensors[i].algoItems == AddPrefix(s.threads[t].sensors[i].algoItems)
                else s'.threads[t].sensors[i].algoItems == s.threads[t].sensors[i].algoItems)
  {
    hide Init, Reaches, Outstanding, AddPrefix, AllOld, AllNew, Settled;
    InitHolds(s0);
    RunKeepsInv(s0, steps, s);
    assert ThreadInv(s, t);
    SignalsInRange(s, t);
  }

  /** When scenUpdateWithSensorThread returns, every sensor is in the scenario asked for. */
  lemma SwitchCompletes(s0: State, steps: seq<Step>, s: State, step: Step)
    requires Init(s0) && Reaches(s0, steps, s) && Enabled(s, step) && !s.main.Idle? && Next(s, step).main.Idle?
    ensures var s' := Next(s, step);
            && s'.curScen == s.newScen && s'.sensorThreadsWaitCnt == 0
            && forall t | 0 <= t < |s'.threads| ::
                 && AtWork(s'.threads[t].pc) && !s'.threads[t].isScenChanging
                 && AllOld(s'.threads[t].sensors, Target(s)) && AllNew(s'.threads[t].sensors, Target(s))
  {
    hide Init, Reaches, Outstanding, AllOld, AllNew;
    InitHolds(s0);
    RunKeepsInv(s0, steps, s);
    CounterIsNat(s);
    var s' := Next(s, step);
    var before := if step.Report?
                  then SetPc(s.(sensorThreadsWaitCnt := s.sensorThreadsWaitCnt - 1), step.t, AfterReport(s.threads[step.t].pc))
                  else s;
    if step.Report? {
      ReportLeaves(s, step.t);
    }
    NextPhaseKeepsInv(before, before.main.phase);
    forall t | 0 <= t < |s'.threads|
      ensures AtWork(s'.threads[t].pc) && !s'.threads[t].isScenChanging
    {
      assert ThreadInv(s', t);
    }
  }

  /** A report keeps the invariant also before the scenario thread has reacted to it. */
  lemma ReportLeaves(s: State, t: nat)
    requires Inv(s) && Enabled(s, Report(t))
    ensures Inv(SetPc(s.(sensorThreadsWaitCnt := s.sensorThreadsWaitCnt - 1), t, AfterReport(s.threads[t].pc)))
  {
    hide ThreadOk, Reports, AfterReport;
    var s' := SetPc(s.(sensorThreadsWaitCnt := s.sensorThreadsWaitCnt - 1), t, AfterReport(s.threads[t].pc));
    assert ThreadInv(s, t);
    SignalsInRange(s, t);
    ReportKeepsThread(s.threads[t], Signals(s.main, t), Target(s));
    forall u | 0 <= u < |s'.threads|
      ensures ThreadInv(s', u)
    {
      assert ThreadInv(s, u);
    }
    CountChanges(s.main, s.threads, s'.main, s'.threads, |s.threads|, t, -1);
  }

  // ----- What blocks a switch ---------------------------------------------

  /** A sensor thread sleeps although it has been released. */
  predicate SleepsOn(th: SensorThread) { th.pc.Waiting? && !th.needWait }

  /** Or although it has an active sensor again. */
  predicate MissedActivation(th: SensorThread) { th.pc.Idling? && th.numActive > 0 && th.isScenChanging }

  /** A wakeup has been lost: one of the two, or the scenario thread sleeps although nobody is missing. */
  predicate LostWakeup(s: State) {
    || (s.main.Asleep? && s.sensorThreadsWaitCnt == 0)
    || exists t :: 0 <= t < |s.threads| && (SleepsOn(s.threads[t]) || MissedActivation(s.threads[t]))
  }

  /** A thread without an active sensor has been told to stop: the signal does not reach its wait. */
  predicate IdleSignalled(th: SensorThread) { th.pc.Idling? && th.numActive == 0 && th.isScenChanging }

  /** Work that goes on beside a switch: sensors switched on and off, and rounds of threads that are not signalled. */
  predicate Background(s: State, step: Step)
    requires Enabled(s, step)
  {
    || step.Activate? || step.Deactivate? || step.Round?
    || ((step.Look? || step.DropOff?) && !s.threads[step.t].isScenChanging)
  }

  /** No step of a switch is possible, and none can begin. */
  ghost predicate Stuck(s: State) { forall step | Enabled(s, step) :: Background(s, step) }

  /** Only two things stop a switch: a lost wakeup, and a signalled thread none of whose sensors is active. */
  lemma WhatBlocks(s0: State, steps: seq<Step>, s: State)
    requires Init(s0) && Reaches(s0, steps, s) && Stuck(s)
    ensures LostWakeup(s) || exists t :: 0 <= t < |s.threads| && IdleSignalled(s.threads[t])
  {
    hide Init, Reaches, Outstanding, AllOld, AllNew, Settled;
    InitHolds(s0);
    RunKeepsInv(s0, steps, s);
    assert !Enabled(s, Begin("", false)) && !Enabled(s, Signal) && !Enabled(s, AllSignalled);
    assert !Enabled(s, Test) && !Enabled(s, Doze);
    CounterIsNat(s);
    if s.sensorThreadsWaitCnt > 0 {
      NoneOverReported(s);
      CountsUp(s.main, s.threads, |s.threads|);
      var t :| 0 <= t < |s.threads| && Missing(s.main, s.threads[t], t) > 0;
      MissingThreadMoves(s, t);
    }
  }

  /** A thread that still has to report can move on, unless it has slept through its wakeup or is idle. */
  lemma MissingThreadMoves(s: State, t: nat)
    requires Inv(s) && t < |s.threads| && Missing(s.main, s.threads[t], t) > 0 && Stuck(s)
    ensures SleepsOn(s.threads[t]) || MissedActivation(s.threads[t]) || IdleSignalled(s.threads[t])
  {
    hide Outstanding, AllOld, AllNew, Settled, Next, AddPrefix, Stuck;
    assert ThreadInv(s, t);
    SignalsInRange(s, t);
    StuckThread(s, t);
  }

  lemma StuckThread(s: State, t: nat)
    requires t < |s.threads| && Stuck(s)
    ensures var (th, pc) := (s.threads[t], s.threads[t].pc);
            || pc.Waiting? || pc.Idling? || ((pc.Running? || pc.DroppingOff? || pc.Ready?) && !th.isScenChanging)
  {
    hide Next;
    assert !Enabled(s, Enter(t)) && !Enabled(s, Report(t)) && !Enabled(s, TestWait(t)) && !Enabled(s, Sleep(t));
    assert !Enabled(s, Arm(t)) && !Enabled(s, Apply(t)) && !Enabled(s, Clear(t));
    assert Enabled(s, Look(t)) ==> Background(s, Look(t));
    assert Enabled(s, DropOff(t)) ==> Background(s, DropOff(t));
  }

  // ----- A lost wakeup is for good ----------------------------------------

  predicate SleepsOnAt(s: State, t: nat) { t < |s.threads| && SleepsOn(s.threads[t]) && !s.main.Idle? }

  lemma StepLeavesAsleep(s: State, step: Step, t: nat)
    requires Inv(s) && Enabled(s, step) && SleepsOnAt(s, t)
    ensures SleepsOnAt(Next(s, step), t)
  {
    hide AllOld, AllNew, Settled, AddPrefix, Outstanding;
    assert ThreadInv(s, t);
    SignalsInRange(s, t);
    StepKeepsInv(s, step);
    if Next(s, step).main.Idle? {
      SwitchNeedsReports(s, step, t);
    }
  }

  /** A switch returns only when every thread has made its third report. */
  lemma SwitchNeedsReports(s: State, step: Step, t: nat)
    requires Inv(s) && Enabled(s, step) && !s.main.Idle? && Next(s, step).main.Idle? && t < |s.threads|
    ensures AtWork(Next(s, step).threads[t].pc)
  {
    hide ThreadOk, Outstanding;
    StepKeepsInv(s, step);
    assert ThreadInv(Next(s, step), t);
    assert ThreadOk(Next(s, step).threads[t], 0, Target(Next(s, step)));
    ZeroSignals(Next(s, step).threads[t], Target(Next(s, step)));
  }

  lemma ZeroSignals(th: SensorThread, target: string)
    requires ThreadOk(th, 0, target)
    ensures AtWork(th.pc)
  {}

  /** A sensor thread that sleeps on never wakes, and the switch never returns, whatever the others do. */
  lemma {:induction false} LostWakeupIsForGood(s: State, steps: seq<Step>, s': State, t: nat)
    requires Inv(s) && SleepsOnAt(s, t) && Reaches(s, steps, s')
    ensures SleepsOnAt(s', t)
    decreases |steps|
  {
    hide Inv, SleepsOnAt;
    if steps != [] {
      StepKeepsInv(s, steps[0]);
      StepLeavesAsleep(s, steps[0], t);
      LostWakeupIsForGood(Next(s, steps[0]), steps[1..], s', t);
    }
  }

  // ----- Neither does an idle thread stop ---------------------------------

  /** Stopped, or on its way there. */
  predicate Halting(th: SensorThread) { th.pc.Entered? || Stopped(th, 0) }

  /** In the first phase every thread has halted or is idle without an active sensor, and thread t is idle. */
  predicate HaltedBut(s: State, t: nat) {
    && !s.main.Idle? && s.main.phase == 1
    && t < |s.threads| && s.threads[t].pc.Idling?
    && forall u | 0 <= u < |s.threads| ::
         (Halting(s.threads[u]) && s.threads[u].needWait) || (s.threads[u].pc.Idling? && s.threads[u].numActive == 0)
  }

  lemma StepLeavesIdle(s: State, step: Step, t: nat)
    requires Inv(s) && Enabled(s, step) && HaltedBut(s, t)
    ensures HaltedBut(Next(s, step), t)
  {
    hide AllOld, AllNew, Settled, AddPrefix, Outstanding, ThreadOk;
    var s' := Next(s, step);
    IdleIsMissing(s, t);
    if step.Report? {
      ReportLeaves(s, step.t);
      var r := SetPc(s.(sensorThreadsWaitCnt := s.sensorThreadsWaitCnt - 1), step.t, AfterReport(s.threads[step.t].pc));
      IdleIsMissing(r, t);
    }
    forall u | 0 <= u < |s'.threads|
      ensures (Halting(s'.threads[u]) && s'.threads[u].needWait) || (s'.threads[u].pc.Idling? && s'.threads[u].numActive == 0)
    {
      assert (Halting(s.threads[u]) && s.threads[u].needWait) || (s.threads[u].pc.Idling? && s.threads[u].numActive == 0);
    }
  }

  /** As long as thread t has not reported, the first phase cannot end. */
  lemma IdleIsMissing(s: State, t: nat)
    requires Inv(s) && !s.main.Idle? && s.main.phase == 1 && t < |s.threads| && s.threads[t].pc.Idling?
    ensures !s.main.Signalling? ==> s.sensorThreadsWaitCnt > 0
  {
    hide ThreadOk, Outstanding;
    NoneOverReported(s);
    CountsUp(s.main, s.threads, |s.threads|);
    if !s.main.Signalling? {
      assert Missing(s.main, s.threads[t], t) == 1;
    }
  }

  /** Once all others have halted, an idle thread stays idle and the switch never returns. */
  lemma {:induction false} IdleThreadBlocks(s: State, steps: seq<Step>, s': State, t: nat)
    requires Inv(s) && HaltedBut(s, t) && Reaches(s, steps, s')
    ensures HaltedBut(s', t)
    decreases |steps|
  {
    hide Inv, HaltedBut;
    if steps != [] {
      StepKeepsInv(s, steps[0]);
      StepLeavesIdle(s, steps[0], t);
      IdleThreadBlocks(Next(s, steps[0]), steps[1..], s', t);
    }
  }

  // ----- Both happen ------------------------------------------------------

  predicate Leads(s: State, step: Step, s': State) { Enabled(s, step) && Next(s, step) == s' }

  lemma {:induction false} RunOf(states: seq<State>, steps: seq<Step>)
    requires |states| == |steps| + 1
    requires forall i | 0 <= i < |steps| :: Leads(states[i], steps[i], states[i + 1])
    ensures Reaches(states[0], steps, states[|steps|])
    decreases |steps|
  {
    hide Enabled, Next;
    if steps != [] {
      assert Leads(states[0], steps[0], states[0 + 1]);
      RunOf(states[1..], steps[1..]);
    }
  }

  /** A system of one sensor thread with one active sensor on its way from Default to Game. */
  function One(sensors: seq<Sensor>, main: MainPc, cnt: int, pc: Pc, needWait: bool, changing: bool): State {
    State(main, cnt, "Default", "Game", false, [SensorThread(pc, 1, needWait, changing, "", sensors)])
  }

  /** The same after the scenario has been handed out. */
  function OneTold(sensors: seq<Sensor>, main: MainPc, cnt: int, pc: Pc): State {
    State(main, cnt, "Default", "Game", false, [SensorThread(pc, 1, false, true, "Game", sensors)])
  }

  lemma UntilStop(x: seq<Sensor>)
    ensures Leads(One(x, Idle, 0, Running, false, false), Begin("Game", false), One(x, Signalling(1, 0), 0, Running, false, false))
    ensures Leads(One(x, Signalling(1, 0), 0, Running, false, false), Signal, One(x, Signalling(1, 1), 1, Running, false, true))
    ensures Leads(One(x, Signalling(1, 1), 1, Running, false, true), AllSignalled, One(x, Testing(1), 1, Running, false, true))
    ensures Leads(One(x, Testing(1), 1, Running, false, true), Look(0), One(x, Testing(1), 1, Ready, false, true))
    ensures Leads(One(x, Testing(1), 1, Ready, false, true), Enter(0), One(x, Testing(1), 1, Entered, true, true))
    ensures Leads(One(x, Testing(1), 1, Entered, true, true), Report(0), One(x, Testing(1), 0, Reported(0), true, true))
    ensures Leads(One(x, Testing(1), 0, Reported(0), true, true), TestWait(0), One(x, Testing(1), 0, FallingAsleep(0), true, true))
  {}

  lemma SignalTooEarly(x: seq<Sensor>)
    ensures Leads(One(x, Testing(1), 0, FallingAsleep(0), true, true), Test, One(x, Signalling(2, 0), 0, FallingAsleep(0), true, true))
    ensures Leads(One(x, Signalling(2, 0), 0, FallingAsleep(0), true, true), Signal, OneTold(x, Signalling(2, 1), 1, FallingAsleep(0)))
    ensures Leads(OneTold(x, Signalling(2, 1), 1, FallingAsleep(0)), Sleep(0), OneTold(x, Signalling(2, 1), 1, Waiting(0)))
    ensures Leads(OneTold(x, Signalling(2, 1), 1, Waiting(0)), AllSignalled, OneTold(x, Testing(2), 1, Waiting(0)))
    ensures Leads(OneTold(x, Testing(2), 1, Waiting(0)), Test, OneTold(x, Dozing(2), 1, Waiting(0)))
    ensures Leads(OneTold(x, Dozing(2), 1, Waiting(0)), Doze, OneTold(x, Asleep(2), 1, Waiting(0)))
    ensures Stuck(OneTold(x, Asleep(2), 1, Waiting(0)))
  {}

  /** Wakeups do get lost: the signal of the second phase may come after needWait was tested and before the thread
      waits. Every sensor has an active thread, and yet nothing can move. */
  lemma WakeupsCanBeLost(x: seq<Sensor>) returns (s0: State, steps: seq<Step>, s: State)
    requires Settled(x)
    ensures Init(s0) && Reaches(s0, steps, s) && Stuck(s) && SleepsOnAt(s, 0)
  {
    hide Enabled, Next, Stuck, Reaches;
    UntilStop(x);
    SignalTooEarly(x);
    s0 := One(x, Idle, 0, Running, false, false);
    s := OneTold(x, Asleep(2), 1, Waiting(0));
    steps := [Begin("Game", false), Signal, AllSignalled, Look(0), Enter(0), Report(0), TestWait(0), Test, Signal, Sleep(0),
              AllSignalled, Test, Doze];
    RunOf([s0, One(x, Signalling(1, 0), 0, Running, false, false), One(x, Signalling(1, 1), 1, Running, false, true),
           One(x, Testing(1), 1, Running, false, true), One(x, Testing(1), 1, Ready, false, true),
           One(x, Testing(1), 1, Entered, true, true),
           One(x, Testing(1), 0, Reported(0), true, true), One(x, Testing(1), 0, FallingAsleep(0), true, true),
           One(x, Signalling(2, 0), 0, FallingAsleep(0), true, true), OneTold(x, Signalling(2, 1), 1, FallingAsleep(0)),
           OneTold(x, Signalling(2, 1), 1, Waiting(0)), OneTold(x, Testing(2), 1, Waiting(0)),
           OneTold(x, Dozing(2), 1, Waiting(0)), s], steps);
  }

  /** A working thread, and one whose only sensors are virtual ones that are switched off. */
  function Two(x: seq<Sensor>, y: seq<Sensor>, main: MainPc, cnt: int, pc: Pc, needWait: bool, c0: bool, c1: bool): State {
    State(main, cnt, "Default", "Game", false,
          [SensorThread(pc, 1, needWait, c0, "", x), SensorThread(Idling, 0, false, c1, "", y)])
  }

  lemma IdleRun(x: seq<Sensor>, y: seq<Sensor>)
    ensures Leads(Two(x, y, Idle, 0, Running, false, false, false), Begin("Game", false),
                  Two(x, y, Signalling(1, 0), 0, Running, false, false, false))
    ensures Leads(Two(x, y, Signalling(1, 0), 0, Running, false, false, false), Signal,
                  Two(x, y, Signalling(1, 1), 1, Running, false, true, false))
    ensures Leads(Two(x, y, Signalling(1, 1), 1, Running, false, true, false), Signal,
                  Two(x, y, Signalling(1, 2), 2, Running, false, true, true))
    ensures Leads(Two(x, y, Signalling(1, 2), 2, Running, false, true, true), Look(0),
                  Two(x, y, Signalling(1, 2), 2, Ready, false, true, true))
    ensures Leads(Two(x, y, Signalling(1, 2), 2, Ready, false, true, true), Enter(0),
                  Two(x, y, Signalling(1, 2), 2, Entered, true, true, true))
  {}

  /** From Entered on the working thread can never leave changingScen again: all have halted but the idle one. */
  lemma IdleThreadsHappen(x: seq<Sensor>, y: seq<Sensor>) returns (s0: State, steps: seq<Step>, s: State)
    requires Settled(x) && Settled(y)
    ensures Init(s0) && Reaches(s0, steps, s) && HaltedBut(s, 1) && !LostWakeup(s)
  {
    hide Enabled, Next, Reaches;
    IdleRun(x, y);
    s0 := Two(x, y, Idle, 0, Running, false, false, false);
    s := Two(x, y, Signalling(1, 2), 2, Entered, true, true, true);
    steps := [Begin("Game", false), Signal, Signal, Look(0), Enter(0)];
    RunOf([s0, Two(x, y, Signalling(1, 0), 0, Running, false, false, false),
           Two(x, y, Signalling(1, 1), 1, Running, false, true, false),
           Two(x, y, Signalling(1, 2), 2, Running, false, true, true),
           Two(x, y, Signalling(1, 2), 2, Ready, false, true, true), s], steps);
  }
}
