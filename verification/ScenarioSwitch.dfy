/** What a whole switch leaves: from the call of scenUpdateWithSensorThread to its return. */
module ScenarioSwitch {
  import opened ScenarioBarrier

  /** Between call and return: nothing of the request changes, and a thread's sensors have been renamed exactly if it has
      been given the scenario. */
  predicate Underway(begin: State, scen: string, setOld: bool, s: State) {
    && !s.main.Idle? && s.newScen == scen && s.isSetOld == setOld && |s.threads| == |begin.threads|
    && forall t | 0 <= t < |s.threads| :: RenamedSince(begin.threads[t].sensors, s.threads[t].sensors, setOld && Signals(s.main, t) >= 2)
  }

  predicate RenamedSince(before: seq<Sensor>, after: seq<Sensor>, renamed: bool) {
    && |after| == |before|
    && forall i | 0 <= i < |after| ::
         after[i].algoItems == if renamed then AddPrefix(before[i].algoItems) else before[i].algoItems
  }

  lemma BeginsUnderway(s: State, scen: string, setOld: bool)
    requires s.main.Idle?
    ensures Underway(s, scen, setOld, Next(s, Begin(scen, setOld)))
  {
    hide AddPrefix;
  }

  lemma SignalStaysUnderway(begin: State, scen: string, setOld: bool, s: State)
    requires Inv(s) && Underway(begin, scen, setOld, s) && Enabled(s, Signal)
    ensures Underway(begin, scen, setOld, Next(s, Signal))
  {
    hide Inv, AddPrefix, RenamedSince;
    var (k, s') := (s.main.k, Next(s, Signal));
    SignalRenames(begin.threads[k].sensors, s.threads[k], s.main.phase, Target(s), setOld);
    forall t | 0 <= t < |s'.threads|
      ensures RenamedSince(begin.threads[t].sensors, s'.threads[t].sensors, setOld && Signals(s'.main, t) >= 2)
    {
      assert RenamedSince(begin.threads[t].sensors, s.threads[t].sensors, setOld && Signals(s.main, t) >= 2);
    }
  }

  lemma SignalRenames(before: seq<Sensor>, th: SensorThread, phase: nat, target: string, setOld: bool)
    requires RenamedSince(before, th.sensors, setOld && phase - 1 >= 2)
    ensures RenamedSince(before, Signalled(th, phase, target, setOld).sensors, setOld && phase >= 2)
  {
    hide AddPrefix;
  }

  lemma StepStaysUnderway(begin: State, scen: string, setOld: bool, s: State, step: Step)
    requires Inv(s) && Underway(begin, scen, setOld, s) && Enabled(s, step) && !Next(s, step).main.Idle?
    ensures Underway(begin, scen, setOld, Next(s, step))
  {
    hide Inv, AddPrefix, Signals, RenamedSince;
    var s' := Next(s, step);
    if step.Signal? {
      SignalStaysUnderway(begin, scen, setOld, s);
    } else {
      SameSignals(s, step);
      forall t | 0 <= t < |s'.threads|
        ensures RenamedSince(begin.threads[t].sensors, s'.threads[t].sensors, setOld && Signals(s'.main, t) >= 2)
      {
        assert RenamedSince(begin.threads[t].sensors, s.threads[t].sensors, setOld && Signals(s.main, t) >= 2);
        SameAlgos(begin.threads[t].sensors, s, step, t, setOld && Signals(s.main, t) >= 2);
      }
    }
  }

  /** Only a signal renames. */
  lemma SameAlgos(before: seq<Sensor>, s: State, step: Step, t: nat, renamed: bool)
    requires Enabled(s, step) && !step.Signal? && t < |s.threads| && RenamedSince(before, s.threads[t].sensors, renamed)
    ensures t < |Next(s, step).threads| && RenamedSince(before, Next(s, step).threads[t].sensors, renamed)
  {
    hide AddPrefix;
  }

  /** Only a signal counts as one. */
  lemma SameSignals(s: State, step: Step)
    requires Inv(s) && !s.main.Idle? && Enabled(s, step) && !step.Signal? && !Next(s, step).main.Idle?
    ensures |Next(s, step).threads| == |s.threads|
    ensures forall t | 0 <= t < |s.threads| :: Signals(Next(s, step).main, t) == Signals(s.main, t)
  {
    hide ThreadInv, Outstanding, AddPrefix;
  }

  lemma {:induction false} RunStaysUnderway(begin: State, scen: string, setOld: bool, s: State, steps: seq<Step>, s': State)
    requires Inv(s) && Underway(begin, scen, setOld, s) && Reaches(s, steps, s') && !s'.main.Idle?
    requires forall st | st in steps :: !st.Begin?
    ensures Inv(s') && Underway(begin, scen, setOld, s')
    decreases |steps|
  {
    hide Inv, Underway, Next, Enabled;
    if steps != [] {
      var next := Next(s, steps[0]);
      StepKeepsInv(s, steps[0]);
      assert forall st | st in steps[1..] :: st in steps;
      if next.main.Idle? {
        IdleStays(next, steps[1..], s');
      } else {
        StepStaysUnderway(begin, scen, setOld, s, steps[0]);
        RunStaysUnderway(begin, scen, setOld, next, steps[1..], s');
      }
    }
  }

  /** No switch begins by itself. */
  lemma {:induction false} IdleStays(s: State, steps: seq<Step>, s': State)
    requires s.main.Idle? && Reaches(s, steps, s') && forall st | st in steps :: !st.Begin?
    ensures s'.main.Idle?
    decreases |steps|
  {
    if steps != [] {
      assert steps[0] in steps && forall st | st in steps[1..] :: st in steps;
      OneStepIdle(s, steps[0]);
      IdleStays(Next(s, steps[0]), steps[1..], s');
    }
  }

  lemma OneStepIdle(s: State, step: Step)
    requires s.main.Idle? && Enabled(s, step) && !step.Begin?
    ensures Next(s, step).main.Idle?
  {
    hide AddPrefix;
  }

  /** What a sensor is left with by a switch that renames, and by one that does not. */
  lemma RenamedAfter(before: Sensor, after: Sensor, setOld: bool)
    requires after.algoItems == if setOld then AddPrefix(before.algoItems) else before.algoItems
    ensures if setOld then
              && |after.algoItems| == |before.algoItems|
              && forall k | k in before.algoItems ::
                   "OLDSCEN_" + k in after.algoItems && after.algoItems["OLDSCEN_" + k] == before.algoItems[k]
            else after.algoItems == before.algoItems
  {
    hide AddPrefix;
    AddPrefixKeepsAlgos(before.algoItems);
  }

  /** In every run: when a switch that was called with scen and setOld returns, every sensor of every thread has that
      scenario, with the prefix if setOld, as its old and as its new one, and its algorithms are found under the names they
      had when it was called, with the prefix if setOld. */
  lemma SwitchResult(s0: State, before: seq<Step>, begin: State, scen: string, setOld: bool, during: seq<Step>, last: State,
                     step: Step)
    requires Init(s0) && Reaches(s0, before, begin) && begin.main.Idle?
    requires Reaches(Next(begin, Begin(scen, setOld)), during, last) && forall st | st in during :: !st.Begin?
    requires !last.main.Idle? && Enabled(last, step) && Next(last, step).main.Idle?
    ensures var end := Next(last, step);
            && end.curScen == scen && |end.threads| == |begin.threads|
            && (forall t | 0 <= t < |end.threads| :: |end.threads[t].sensors| == |begin.threads[t].sensors|)
            && forall t, i | 0 <= t < |end.threads| && 0 <= i < |end.threads[t].sensors| ::
                 var (was, now) := (begin.threads[t].sensors[i], end.threads[t].sensors[i]);
                    && now.oldScen == now.newScen == (if setOld then "OLDSCEN_" + scen else scen)
                    && if setOld then
                         && |now.algoItems| == |was.algoItems|
                         && forall k | k in was.algoItems ::
                              "OLDSCEN_" + k in now.algoItems && now.algoItems["OLDSCEN_" + k] == was.algoItems[k]
                       else now.algoItems == was.algoItems
  {
    hide Inv, AddPrefix, Init, Reaches;
    InitHolds(s0);
    RunKeepsInv(s0, before, begin);
    StepKeepsInv(begin, Begin(scen, setOld));
    BeginsUnderway(begin, scen, setOld);
    RunStaysUnderway(begin, scen, setOld, Next(begin, Begin(scen, setOld)), during, last);
    ReturnLeaves(last, step);
    var end := Next(last, step);
    forall t | 0 <= t < |end.threads|
      ensures |end.threads[t].sensors| == |begin.threads[t].sensors|
    {
      assert RenamedSince(begin.threads[t].sensors, last.threads[t].sensors, setOld && Signals(last.main, t) >= 2);
    }
    forall t, i | 0 <= t < |end.threads| && 0 <= i < |end.threads[t].sensors|
      ensures var (was, now) := (begin.threads[t].sensors[i], end.threads[t].sensors[i]);
              && now.oldScen == now.newScen == (if setOld then "OLDSCEN_" + scen else scen)
              && if setOld then
                   && |now.algoItems| == |was.algoItems|
                   && forall k | k in was.algoItems ::
                        "OLDSCEN_" + k in now.algoItems && now.algoItems["OLDSCEN_" + k] == was.algoItems[k]
                 else now.algoItems == was.algoItems
    {
      assert end.threads[t].sensors[i] in end.threads[t].sensors;
      assert RenamedSince(begin.threads[t].sensors, last.threads[t].sensors, setOld && Signals(last.main, t) >= 2);
      RenamedAfter(begin.threads[t].sensors[i], end.threads[t].sensors[i], setOld);
    }
  }

  /** The step that ends a switch changes no sensor, and by then every thread has had its third signal. */
  lemma ReturnLeaves(s: State, step: Step)
    requires Inv(s) && Enabled(s, step) && !s.main.Idle? && Next(s, step).main.Idle?
    ensures Next(s, step).curScen == s.newScen && |Next(s, step).threads| == |s.threads|
    ensures forall t | 0 <= t < |s.threads| ::
              && Signals(s.main, t) == 3 && Next(s, step).threads[t].sensors == s.threads[t].sensors
              && AllOld(s.threads[t].sensors, Target(s)) && AllNew(s.threads[t].sensors, Target(s))
  {
    hide Outstanding, AllOld, AllNew, AddPrefix;
    if step.Report? {
      ReportLeaves(s, step.t);
      NextPhaseKeepsInv(SetPc(s.(sensorThreadsWaitCnt := s.sensorThreadsWaitCnt - 1), step.t,
                              AfterReport(s.threads[step.t].pc)), s.main.phase);
    } else {
      CounterIsNat(s);
      NextPhaseKeepsInv(s, s.main.phase);
    }
  }
}
