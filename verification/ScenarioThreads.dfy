/** The scenario thread and the sensor threads as the objects they are: each method is what the source
    does in one locked section or between two of them, and is proved to be a step of ScenarioBarrier. */
module ScenarioThreads {
  import opened ScenarioBarrier

  class Daemon {
    var main: MainPc
    var sensorThreadsWaitCnt: int
    var curScen: string
    var newScen: string
    var isSetOld: bool
    var threads: seq<SensorThread>

    ghost function Model(): State
      reads this
    {
      State(main, sensorThreadsWaitCnt, curScen, newScen, isSetOld, threads)
    }

    ghost predicate Valid()
      reads this
    {
      Inv(Model())
    }

    constructor (scen: string, sensors: seq<seq<Sensor>>)
      requires forall i | 0 <= i < |sensors| :: Settled(sensors[i])
      ensures Valid() && Init(Model()) && curScen == newScen == scen && |threads| == |sensors|
      ensures forall i | 0 <= i < |sensors| :: threads[i].sensors == sensors[i]
    {
      main, sensorThreadsWaitCnt, curScen, newScen, isSetOld := Idle, 0, scen, scen, false;
      threads := seq(|sensors|, i requires 0 <= i < |sensors| => SensorThread(Running, 0, false, false, "", sensors[i]));
      new;
      InitHolds(Model());
    }

    /** scenUpdateWithSensorThread is entered. */
    method BeginUpdate(scen: string, setOld: bool)
      requires Valid() && main.Idle?
      modifies this
      ensures Valid() && Model() == Next(old(Model()), Begin(scen, setOld))
    {
      StepKeepsInv(Model(), Begin(scen, setOld));
      newScen, isSetOld := scen, setOld;
      main := Signalling(1, 0);
    }

    /** sensorThreadsWaitCnt++ and sendSignalToSensorThread(true): nobody is woken, one more thread is to report. */
    method SignalStop()
      requires Valid() && main.Signalling? && main.phase == 1 && main.k < |threads|
      modifies this
      ensures Valid() && Model() == Next(old(Model()), Signal)
      ensures 0 < sensorThreadsWaitCnt == old(sensorThreadsWaitCnt) + 1
      ensures |threads| == old(|threads|) && forall u | 0 <= u < |threads| :: threads[u].pc == old(threads[u].pc)
    {
      StepKeepsInv(Model(), Signal);
      CounterIsNat(Model());
      var k := main.k;
      sensorThreadsWaitCnt := sensorThreadsWaitCnt + 1;
      threads := threads[k := threads[k].(isScenChanging := true)];
      main := Signalling(1, k + 1);
    }

    /** sensorThreadsWaitCnt++ and sendSignalToSensorThread(newScen, isSetOld): with isSetOld every sensor's algorithms are
        renamed, and the scenario's name too. */
    method SignalScenario()
      requires Valid() && main.Signalling? && main.phase == 2 && main.k < |threads|
      modifies this
      ensures Valid() && Model() == Next(old(Model()), Signal)
      ensures |threads| == old(|threads|) && var (k, was, now) := (old(main.k), old(threads[main.k]), threads[old(main.k)]);
              && now.newScen == (if isSetOld then "OLDSCEN_" + newScen else newScen)
              && |now.sensors| == |was.sensors|
              && forall i | 0 <= i < |now.sensors| ::
                   now.sensors[i] == if isSetOld then was.sensors[i].(algoItems := AddPrefix(was.sensors[i].algoItems))
                                     else was.sensors[i]
    {
      StepKeepsInv(Model(), Signal);
      var k := main.k;
      sensorThreadsWaitCnt := sensorThreadsWaitCnt + 1;
      var scenName := newScen;
      var sensors := threads[k].sensors;
      if isSetOld {
        var i := 0;
        while i < |sensors|
          invariant i <= |sensors| == |threads[k].sensors|
          invariant forall j | 0 <= j < |sensors| ::
                      sensors[j] == if j < i then threads[k].sensors[j].(algoItems := AddPrefix(threads[k].sensors[j].algoItems))
                                    else threads[k].sensors[j]
        {
          sensors := sensors[i := sensors[i].(algoItems := AddPrefix(sensors[i].algoItems))];
          i := i + 1;
        }
        scenName := OLD_PREFIX + scenName;
      }
      assert sensors == Renamed(threads[k].sensors, isSetOld);
      var th := threads[k].(newScen := scenName, needWait := false, sensors := sensors);
      threads := threads[k := if th.pc == Waiting(0) then th.(pc := Released) else th];
      main := Signalling(2, k + 1);
    }

    /** sensorThreadsWaitCnt++ and sendSignalToSensorThread(false): a thread is released to clear its old scenario, and
        by then every sensor of every thread has the new one. */
    method SignalClear()
      requires Valid() && main.Signalling? && main.phase == 3 && main.k < |threads|
      modifies this
      ensures Valid() && Model() == Next(old(Model()), Signal)
      ensures forall u | 0 <= u < |threads| :: AllNew(threads[u].sensors, Target(Model()))
    {
      NewInThirdPhase(Model());
      StepKeepsInv(Model(), Signal);
      var k := main.k;
      sensorThreadsWaitCnt := sensorThreadsWaitCnt + 1;
      var th := threads[k].(needWait := false);
      if th.pc == Waiting(1) {
        th := th.(pc := Clearing);
      }
      threads := threads[k := th.(isScenChanging := false)];
      main := Signalling(3, k + 1);
    }

    /** waitForAllSensorThreads, up to the decision whether to sleep. */
    method TestAllSensorThreads() returns (sleeps: bool)
      requires Valid() && main.Testing?
      modifies this
      ensures Valid() && Model() == Next(old(Model()), Test)
      ensures sleeps <==> main.Dozing?
      ensures !sleeps && old(main) == Testing(3) ==>
                main.Idle? && curScen == newScen &&
                forall t | 0 <= t < |threads| :: AllOld(threads[t].sensors, old(Target(Model()))) &&
                                                 AllNew(threads[t].sensors, old(Target(Model())))
    {
      StepKeepsInv(Model(), Test);
      sleeps := sensorThreadsWaitCnt > 0;
      if sleeps {
        main := Dozing(main.phase);
      } else {
        CounterIsNat(Model());
        NextPhaseKeepsInv(Model(), main.phase);
        LeavePhase();
      }
    }

    method LeavePhase()
      requires !main.Idle?
      modifies this
      ensures Model() == NextPhase(old(Model()), old(main.phase))
    {
      if main.phase < 3 {
        main := Signalling(main.phase + 1, 0);
      } else {
        curScen := newScen;
        main := Idle;
      }
    }

    /** sendSignalToScenThreads by thread t. */
    method SendSignalToScenThreads(t: nat)
      requires Valid() && t < |threads| && (threads[t].pc.Entered? || threads[t].pc.Applied? || threads[t].pc.Cleared?)
      modifies this
      ensures Valid() && Model() == Next(old(Model()), Report(t))
      ensures 0 <= sensorThreadsWaitCnt == old(sensorThreadsWaitCnt) - 1
      ensures old(main.Asleep?) && sensorThreadsWaitCnt == 0 ==> !main.Asleep?
    {
      ReportLeaves(Model(), t);
      CounterIsNat(SetPc(Model().(sensorThreadsWaitCnt := sensorThreadsWaitCnt - 1), t, AfterReport(threads[t].pc)));
      StepKeepsInv(Model(), Report(t));
      sensorThreadsWaitCnt := sensorThreadsWaitCnt - 1;
      threads := threads[t := threads[t].(pc := AfterReport(threads[t].pc))];
      if sensorThreadsWaitCnt == 0 && main.Asleep? {
        LeavePhase();
      }
    }

    /** waitForScenThread by thread t, after the report and up to the decision whether to sleep. A thread that goes on
        knows that every thread has reported this stop. */
    method TestNeedWait(t: nat) returns (sleeps: bool)
      requires Valid() && t < |threads| && threads[t].pc.Reported?
      modifies this
      ensures Valid() && Model() == Next(old(Model()), TestWait(t))
      ensures sleeps == old(threads[t].needWait)
      ensures !sleeps ==> forall u | 0 <= u < |threads| ::
                if old(threads[t].pc.phase) == 0 then HasStopped(Model(), u) else HasApplied(Model(), u)
    {
      StepKeepsInv(Model(), TestWait(t));
      PhasesInRange(Model(), t);
      sleeps := threads[t].needWait;
      var p := threads[t].pc.phase;
      threads := threads[t := threads[t].(pc := if sleeps then FallingAsleep(p) else Past(p))];
      EveryoneStopped(Model(), t);
    }

    /** traverseSensors(true) by thread t: its sensors take up the new scenario, after every thread has stopped. */
    method ApplyNewScenario(t: nat)
      requires Valid() && t < |threads| && threads[t].pc.Applying?
      modifies this
      ensures Valid() && Model() == Next(old(Model()), Apply(t))
      ensures AllNew(threads[t].sensors, Target(Model()))
      ensures forall u | 0 <= u < |threads| :: HasStopped(Model(), u)
    {
      StepKeepsInv(Model(), Apply(t));
      var sensors := threads[t].sensors;
      var i := 0;
      while i < |sensors|
        invariant i <= |sensors| == |threads[t].sensors|
        invariant forall j | 0 <= j < |sensors| ::
                    sensors[j] == if j < i then threads[t].sensors[j].(newScen := threads[t].newScen) else threads[t].sensors[j]
      {
        sensors := sensors[i := sensors[i].(newScen := threads[t].newScen)];
        i := i + 1;
      }
      assert sensors == SetNewScen(threads[t].sensors, threads[t].newScen);
      threads := threads[t := threads[t].(pc := Applied, sensors := sensors)];
      EveryoneStopped(Model(), t);
    }

    /** setOldScenToNewScen for every sensor of thread t, after every thread has applied the new scenario. */
    method ClearOldScenario(t: nat)
      requires Valid() && t < |threads| && threads[t].pc.Clearing?
      modifies this
      ensures Valid() && Model() == Next(old(Model()), Clear(t))
      ensures AllOld(threads[t].sensors, Target(Model()))
      ensures forall u | 0 <= u < |threads| :: HasApplied(Model(), u)
    {
      StepKeepsInv(Model(), Clear(t));
      var sensors := threads[t].sensors;
      var i := 0;
      while i < |sensors|
        invariant i <= |sensors| == |threads[t].sensors|
        invariant forall j | 0 <= j < |sensors| ::
                    sensors[j] == if j < i then threads[t].sensors[j].(oldScen := threads[t].sensors[j].newScen)
                                  else threads[t].sensors[j]
      {
        sensors := sensors[i := sensors[i].(oldScen := sensors[i].newScen)];
        i := i + 1;
      }
      assert sensors == ClearOldScen(threads[t].sensors);
      threads := threads[t := threads[t].(pc := Cleared, sensors := sensors)];
      EveryoneStopped(Model(), t);
    }

    /** activate, called on thread t by a thread that traverses its sensors. */
    method Activate(u: nat, t: nat)
      requires Valid() && t < |threads| && u < |threads| && Traverses(threads[u].pc)
      modifies this
      ensures Valid() && Model() == Next(old(Model()), ScenarioBarrier.Step.Activate(u, t))
      ensures threads[t].numActive == old(threads[t].numActive) + 1 && (old(threads[t].numActive) == 0 ==> !threads[t].pc.Idling?)
    {
      StepKeepsInv(Model(), ScenarioBarrier.Step.Activate(u, t));
      var th := threads[t];
      th := th.(numActive := th.numActive + 1);
      if th.numActive == 1 && th.pc.Idling? {
        th := th.(pc := Ready);
      }
      threads := threads[t := th];
    }

    /** deactivate: the count does not go below 0. */
    method Deactivate(u: nat, t: nat)
      requires Valid() && t < |threads| && u < |threads| && Traverses(threads[u].pc)
      modifies this
      ensures Valid() && Model() == Next(old(Model()), ScenarioBarrier.Step.Deactivate(u, t))
      ensures threads[t].pc == old(threads[t].pc)
      ensures threads[t].numActive == if old(threads[t].numActive) == 0 then 0 else old(threads[t].numActive) - 1
    {
      StepKeepsInv(Model(), ScenarioBarrier.Step.Deactivate(u, t));
      var th := threads[t];
      if th.numActive > 0 {
        th := th.(numActive := th.numActive - 1);
      }
      threads := threads[t := th];
    }

    /** The head of the sensor thread's loop: without an active sensor the thread is about to wait for one, whether or
        not it has been told to stop. */
    method BeginRound(t: nat) returns (sleeps: bool)
      requires Valid() && t < |threads| && threads[t].pc.Running?
      modifies this
      ensures Valid() && Model() == Next(old(Model()), Look(t))
      ensures sleeps <==> old(threads[t].numActive) == 0
    {
      StepKeepsInv(Model(), Look(t));
      sleeps := threads[t].numActive == 0;
      threads := threads[t := threads[t].(pc := if sleeps then DroppingOff else Ready)];
    }
  }

  /** In the third phase every sensor has the new scenario. */
  lemma NewInThirdPhase(s: State)
    requires Inv(s) && s.main.Signalling? && s.main.phase == 3
    ensures forall u | 0 <= u < |s.threads| :: AllNew(s.threads[u].sensors, Target(s))
  {
    hide Outstanding, AllNew, AllOld, Settled;
    forall u | 0 <= u < |s.threads|
      ensures AllNew(s.threads[u].sensors, Target(s))
    {
      assert ThreadInv(s, u);
    }
  }

  /** A thread reports only the two stops. */
  lemma PhasesInRange(s: State, t: nat)
    requires Inv(s) && t < |s.threads| && s.threads[t].pc.Reported?
    ensures s.threads[t].pc.phase <= 1
  {
    hide Outstanding, AllNew, AllOld, Settled;
    assert ThreadInv(s, t);
    SignalsInRange(s, t);
  }

  /** What a thread past a stop knows of all threads. */
  lemma EveryoneStopped(s: State, t: nat)
    requires Inv(s) && t < |s.threads|
    ensures s.threads[t].pc.Released? || s.threads[t].pc.Applied? ==>
              forall u | 0 <= u < |s.threads| :: HasStopped(s, u)
    ensures s.threads[t].pc.Applied? ==> AllNew(s.threads[t].sensors, Target(s))
    ensures s.threads[t].pc.Clearing? || s.threads[t].pc.Cleared? ==>
              forall u | 0 <= u < |s.threads| :: HasApplied(s, u)
    ensures s.threads[t].pc.Cleared? ==> AllOld(s.threads[t].sensors, Target(s))
  {
    hide Outstanding, AllNew, AllOld, Settled, HasStopped, HasApplied;
    assert ThreadInv(s, t);
    SignalsInRange(s, t);
    forall u | 0 <= u < |s.threads|
      ensures s.threads[t].pc.Released? || s.threads[t].pc.Applied? ==> HasStopped(s, u)
      ensures s.threads[t].pc.Clearing? || s.threads[t].pc.Cleared? ==> HasApplied(s, u)
    {
      BarrierHolds(s, t, u);
    }
  }
}
