/** Many algorithm threads on shared devices. Each deviceControl and each statusApply is one atomic
    step under the device's lock; the steps of different threads interleave freely.

    A thread works off a plan of such calls. Plans come from decisions: a monitor releases its old
    level, requests the new one and then applies every device it touched. */
module ThermalArbitration {
  import opened Common
  import opened ThermalDevice
  import opened ThermalMonitor

  datatype Call = Control(dev: nat, action: int) | Apply(dev: nat)

  /** A level: the devices it limits and the actions it asks of them. */
  datatype Level = Level(devs: seq<nat>, actions: seq<int>)

  datatype Algorithm =
    | Ladder(levels: seq<Level>)  // a monitor
    | Other                       // any algorithm that applies what it requests

  /** A thread: the calls it still has to make, the devices it has controlled and not yet applied, and
      the level it is moving to. */
  datatype AlgoThread = AlgoThread(algo: Algorithm, todo: seq<Call>, dirty: set<nat>, level: nat)

  /** A device; hasTable is false for one whose statusApply finds no level table and leaves its status alone. */
  datatype DeviceState = DeviceState(request: map<string, int>, currentStatus: int, hasTable: bool)

  /** statusApply. */
  ghost function Applied(dev: DeviceState): DeviceState {
    if dev.hasTable then dev.(currentStatus := Lowest(dev.request)) else dev
  }

  /** What applying leaves: the strongest request, or the status from the start. */
  ghost predicate SettledState(dev: DeviceState) {
    dev.currentStatus == if dev.hasTable then Lowest(dev.request) else 0
  }

  datatype System = System(devices: seq<DeviceState>, threads: map<string, AlgoThread>)

  // ----- Plans ------------------------------------------------------------

  predicate CallOk(c: Call, n: nat) { c.dev < n }

  /** Every control is followed by an apply of the same device. */
  predicate Closed(todo: seq<Call>) {
    forall i | 0 <= i < |todo| && todo[i].Control? :: Apply(todo[i].dev) in todo[i + 1..]
  }

  function Controls(l: Level): seq<Call>
    requires |l.devs| == |l.actions|
  {
    seq(|l.devs|, i requires 0 <= i < |l.devs| => Control(l.devs[i], l.actions[i]))
  }

  function Releases(l: Level): seq<Call> { seq(|l.devs|, i requires 0 <= i < |l.devs| => Control(l.devs[i], 0)) }

  function Applies(l: Level): seq<Call> { seq(|l.devs|, i requires 0 <= i < |l.devs| => Apply(l.devs[i])) }

  predicate LevelsOk(levels: seq<Level>, n: nat) {
    forall l | l in levels :: |l.devs| == |l.actions| && forall d | d in l.devs :: d < n
  }

  function LevelAt(levels: seq<Level>, level: nat): Level
    requires level <= |levels|
  {
    if level == 0 then Level([], []) else levels[level - 1]
  }

  /** The calls of Monitor::decision, and of Monitor::deactivate when it moves to level 0. */
  function MonitorPlan(levels: seq<Level>, from: nat, to: nat): seq<Call>
    requires from <= |levels| && to <= |levels|
    requires forall l | l in levels :: |l.devs| == |l.actions|
  {
    var (was, now) := (LevelAt(levels, from), LevelAt(levels, to));
    Releases(was) + Controls(now) + Applies(was) + Applies(now)
  }

  /** What a level asks of a device. */
  function Wanted(levels: seq<Level>, level: nat, d: nat): int
    requires level <= |levels|
    requires forall l | l in levels :: |l.devs| == |l.actions|
  {
    LastAction<nat>(LevelAt(levels, level).devs, LevelAt(levels, level).actions, d, 0)
  }

  /** It is the action at the last mention of the device, or 0 without one, and at level 0. */
  lemma WantedIs(levels: seq<Level>, level: nat, d: nat, i: nat)
    requires level <= |levels| && forall l | l in levels :: |l.devs| == |l.actions|
    ensures level == 0 || d !in levels[level - 1].devs ==> Wanted(levels, level, d) == 0
    ensures level > 0 && i < |levels[level - 1].devs| && levels[level - 1].devs[i] == d && d !in levels[level - 1].devs[i + 1..] ==>
              i < |levels[level - 1].actions| && Wanted(levels, level, d) == levels[level - 1].actions[i]
  {
    if level > 0 {
      var l := levels[level - 1];
      assert l in levels;
      LastActionUntouched<nat>(l.devs, l.actions, d, 0, 0);
      if i < |l.devs| && l.devs[i] == d && d !in l.devs[i + 1..] {
        LastMention<nat>(l.devs, l.actions, i, 0);
      }
    }
  }

  /** The request on d after the calls in todo. */
  function After(todo: seq<Call>, request: int, d: nat): int {
    if todo == [] then request
    else After(todo[1..], if todo[0].Control? && todo[0].dev == d then todo[0].action else request, d)
  }

  lemma {:induction false} AfterAppend(a: seq<Call>, b: seq<Call>, request: int, d: nat)
    ensures After(a + b, request, d) == After(b, After(a, request, d), d)
  {
    if a == [] {
      assert a + b == b;
    } else {
      assert (a + b)[1..] == a[1..] + b;
      AfterAppend(a[1..], b, if a[0].Control? && a[0].dev == d then a[0].action else request, d);
    }
  }

  lemma {:induction false} AfterControls(devs: seq<nat>, actions: seq<int>, request: int, d: nat)
    requires |devs| == |actions|
    ensures After(Controls(Level(devs, actions)), request, d) == LastAction<nat>(devs, actions, d, request)
  {
    if devs != [] {
      var n := |devs| - 1;
      AfterControls(devs[..n], actions[..n], request, d);
      assert Controls(Level(devs, actions)) == Controls(Level(devs[..n], actions[..n])) + [Control(devs[n], actions[n])];
      AfterAppend(Controls(Level(devs[..n], actions[..n])), [Control(devs[n], actions[n])], request, d);
      LastActionPrefix(devs[..n], actions, n, d, request);
    }
  }

  lemma {:induction false} LastActionPrefix(devs: seq<nat>, actions: seq<int>, n: nat, d: nat, request: int)
    requires |devs| <= n <= |actions|
    ensures LastAction<nat>(devs, actions, d, request) == LastAction<nat>(devs, actions[..n], d, request)
  {
    if devs != [] {
      LastActionPrefix(devs[..|devs| - 1], actions, n, d, request);
    }
  }

  lemma {:induction false} AfterApplies(todo: seq<Call>, request: int, d: nat)
    requires forall c | c in todo :: c.Apply?
    ensures After(todo, request, d) == request
  {
    if todo != [] {
      assert todo[0] in todo && todo[0].Apply?;
      AfterApplies(todo[1..], request, d);
    }
  }

  /** What a plan leaves on a device, whatever was asked of it before. */
  lemma PlanOn(levels: seq<Level>, from: nat, to: nat, r: int, d: nat)
    requires from <= |levels| && to <= |levels|
    requires forall l | l in levels :: |l.devs| == |l.actions|
    ensures After(MonitorPlan(levels, from, to), r, d) ==
            if d in LevelAt(levels, to).devs then Wanted(levels, to, d)
            else if d in LevelAt(levels, from).devs then 0 else r
  {
    var (was, now) := (LevelAt(levels, from), LevelAt(levels, to));
    var zeros := seq(|was.devs|, i => 0);
    assert Releases(was) == Controls(Level(was.devs, zeros));
    AfterControls(was.devs, zeros, r, d);
    LastActionUntouched<nat>(was.devs, zeros, d, r, 0);
    var released := After(Releases(was), r, d);
    AfterControls(now.devs, now.actions, released, d);
    LastActionUntouched<nat>(now.devs, now.actions, d, released, 0);
    AfterAppend(Releases(was), Controls(now), r, d);
    AfterApplies(Applies(was) + Applies(now), After(Releases(was) + Controls(now), r, d), d);
    AfterAppend(Releases(was) + Controls(now), Applies(was) + Applies(now), r, d);
    assert MonitorPlan(levels, from, to) == Releases(was) + Controls(now) + (Applies(was) + Applies(now));
  }

  /** Starting from the requests of one level, the plan leads to the requests of the other. */
  lemma PlanLeadsTo(levels: seq<Level>, from: nat, to: nat, d: nat)
    requires from <= |levels| && to <= |levels|
    requires forall l | l in levels :: |l.devs| == |l.actions|
    ensures After(MonitorPlan(levels, from, to), Wanted(levels, from, d), d) == Wanted(levels, to, d)
  {
    var (was, now) := (LevelAt(levels, from), LevelAt(levels, to));
    PlanOn(levels, from, to, Wanted(levels, from, d), d);
    LastActionUntouched<nat>(was.devs, was.actions, d, 0, 0);
    LastActionUntouched<nat>(now.devs, now.actions, d, 0, 0);
  }

  /** A monitor applies whatever it controls, and touches only its own devices. */
  lemma PlanIsClosed(levels: seq<Level>, from: nat, to: nat, n: nat)
    requires from <= |levels| && to <= |levels| && LevelsOk(levels, n)
    ensures Closed(MonitorPlan(levels, from, to))
    ensures forall c | c in MonitorPlan(levels, from, to) :: CallOk(c, n)
  {
    var (was, now) := (LevelAt(levels, from), LevelAt(levels, to));
    var (p, k) := (MonitorPlan(levels, from, to), |was.devs| + |now.devs|);
    forall i | 0 <= i < |p| && p[i].Control?
      ensures Apply(p[i].dev) in p[i + 1..]
    {
      assert i < k && p[k + i] == Apply(p[i].dev);
      assert p[i + 1..][k - 1] == p[k + i];
    }
    LevelDevices(levels, from, n);
    LevelDevices(levels, to, n);
    forall i | 0 <= i < |p|
      ensures CallOk(p[i], n)
    {
      var m := if i < k then i else i - k;
      assert p[i].dev == if m < |was.devs| then was.devs[m] else now.devs[m - |was.devs|];
    }
  }

  lemma LevelDevices(levels: seq<Level>, level: nat, n: nat)
    requires level <= |levels| && LevelsOk(levels, n)
    ensures forall i | 0 <= i < |LevelAt(levels, level).devs| :: LevelAt(levels, level).devs[i] < n
  {
    if level > 0 {
      var l := levels[level - 1];
      assert l in levels;
      forall i | 0 <= i < |l.devs|
        ensures l.devs[i] < n
      {
        assert l.devs[i] in l.devs;
      }
    }
  }

  // ----- Steps ------------------------------------------------------------

  datatype Step =
    | Call(name: string)                       // the next call of a thread's plan
    | Decide(name: string, to: nat)            // a monitor at rest decides for a level
    | Plan(name: string, calls: seq<Call>)     // another algorithm at rest makes a plan

  predicate Enabled(s: System, step: Step) {
    && step.name in s.threads
    && var t := s.threads[step.name];
    match step
    case Call(_) => t.todo != []
    case Decide(_, to) => t.todo == [] && t.algo.Ladder? && to <= |t.algo.levels| && to != t.level
    case Plan(_, calls) => t.todo == [] && t.algo.Other? && Closed(calls) && forall c | c in calls :: CallOk(c, |s.devices|)
  }

  /** Every call of every plan goes to a device, and every level has its actions. */
  predicate WellFormed(s: System) {
    forall name | name in s.threads :: ThreadWellFormed(s.threads[name], |s.devices|)
  }

  predicate ThreadWellFormed(t: AlgoThread, n: nat) {
    && (forall c | c in t.todo :: CallOk(c, n))
    && (t.algo.Ladder? ==> t.level <= |t.algo.levels| && LevelsOk(t.algo.levels, n))
  }

  ghost function Next(s: System, step: Step): System
    requires WellFormed(s) && Enabled(s, step)
  {
    var t := s.threads[step.name];
    assert ThreadWellFormed(t, |s.devices|);
    match step
    case Call(name) =>
      var c := t.todo[0];
      assert CallOk(c, |s.devices|);
      var dev := s.devices[c.dev];
      var (dev', dirty') := if c.Control? then (dev.(request := dev.request[name := c.action]), t.dirty + {c.dev})
                            else (Applied(dev), t.dirty - {c.dev});
      System(s.devices[c.dev := dev'], s.threads[name := t.(todo := t.todo[1..], dirty := dirty')])
    case Decide(name, to) =>
      s.(threads := s.threads[name := t.(todo := MonitorPlan(t.algo.levels, t.level, to), level := to)])
    case Plan(name, calls) => s.(threads := s.threads[name := t.(todo := calls)])
  }

  // ----- What every step keeps --------------------------------------------

  /** No thread is between its deviceControl and its statusApply on device d. */
  ghost predicate Quiet(s: System, d: nat) {
    forall name | name in s.threads :: d !in s.threads[name].dirty
  }

  function RequestOf(dev: DeviceState, name: string): int {
    if name in dev.request then dev.request[name] else 0
  }

  /** A thread applies every device it has dirtied, and its calls lead to the requests of its level. */
  ghost predicate ThreadInv(s: System, name: string)
    requires name in s.threads
  {
    var t := s.threads[name];
    && Closed(t.todo)
    && (forall d | d in t.dirty :: Apply(d) in t.todo)
    && (t.algo.Ladder? && ThreadWellFormed(t, |s.devices|) ==>
          forall d | 0 <= d < |s.devices| ::
            After(t.todo, RequestOf(s.devices[d], name), d) == Wanted(t.algo.levels, t.level, d))
  }

  ghost predicate Inv(s: System) {
    && WellFormed(s)
    && (forall name | name in s.threads :: ThreadInv(s, name))
    && (forall d | 0 <= d < |s.devices| && (Quiet(s, d) || !s.devices[d].hasTable) :: SettledState(s.devices[d]))
  }

  /** Nobody has asked for anything yet. */
  ghost predicate Init(s: System) {
    && WellFormed(s)
    && (forall d | 0 <= d < |s.devices| :: s.devices[d] == DeviceState(map[], 0, s.devices[d].hasTable))
    && (forall name | name in s.threads ::
          s.threads[name].todo == [] && s.threads[name].dirty == {} && s.threads[name].level == 0)
  }

  lemma InitHolds(s: System)
    requires Init(s)
    ensures Inv(s)
  {
    NoRequests();
    forall name | name in s.threads
      ensures ThreadInv(s, name)
    {
      var t := s.threads[name];
      assert ThreadWellFormed(t, |s.devices|) && t.todo == [] && t.dirty == {} && t.level == 0;
      if t.algo.Ladder? {
        forall d | 0 <= d < |s.devices|
          ensures After(t.todo, RequestOf(s.devices[d], name), d) == Wanted(t.algo.levels, t.level, d)
        {
          assert s.devices[d] == DeviceState(map[], 0, s.devices[d].hasTable);
        }
      }
    }
    forall d | 0 <= d < |s.devices|
      ensures SettledState(s.devices[d])
    {
      assert s.devices[d] == DeviceState(map[], 0, s.devices[d].hasTable);
    }
  }

  lemma StepKeepsWellFormed(s: System, step: Step)
    requires WellFormed(s) && Enabled(s, step)
    ensures WellFormed(Next(s, step)) && |Next(s, step).devices| == |s.devices|
    ensures Next(s, step).threads.Keys == s.threads.Keys
  {
    hide Lowest, Closed, MonitorPlan;
    var t := s.threads[step.name];
    assert ThreadWellFormed(t, |s.devices|);
    if step.Decide? {
      PlanIsClosed(t.algo.levels, t.level, step.to, |s.devices|);
    }
    var s' := Next(s, step);
    if step.Call? {
      assert CallOk(t.todo[0], |s.devices|);
    }
    assert |s'.devices| == |s.devices| && s'.threads.Keys == s.threads.Keys;
    forall name | name in s'.threads
      ensures ThreadWellFormed(s'.threads[name], |s'.devices|)
    {
      assert ThreadWellFormed(s.threads[name], |s.devices|);
      if name == step.name {
        assert forall c | c in s'.threads[name].todo :: CallOk(c, |s.devices|) by {
          if step.Call? {
            assert s'.threads[name].todo == t.todo[1..] && forall c | c in t.todo[1..] :: c in t.todo;
          }
        }
      } else {
        assert s'.threads[name] == s.threads[name];
      }
    }
  }

  /** One call changes one device: its own request when it controls, nothing of any request when it applies. */
  lemma CallEffect(s: System, step: Step, name: string, d: nat)
    requires WellFormed(s) && Enabled(s, step) && step.Call? && d < |s.devices|
    ensures var (c, s') := (s.threads[step.name].todo[0], Next(s, step));
            && |s'.devices| == |s.devices|
            && RequestOf(s'.devices[d], name) ==
               if name == step.name && c.Control? && c.dev == d then c.action else RequestOf(s.devices[d], name)
  {
    hide Lowest, LevelsOk;
    var t := s.threads[step.name];
    assert ThreadWellFormed(t, |s.devices|) && CallOk(t.todo[0], |s.devices|);
  }

  lemma CallKeepsThreads(s: System, step: Step, name: string)
    requires Inv(s) && Enabled(s, step) && step.Call? && name in s.threads
    ensures name in Next(s, step).threads && ThreadInv(Next(s, step), name)
  {
    hide Lowest, Wanted, LevelsOk, Closed, RequestOf;
    var (t, s') := (s.threads[name], Next(s, step));
    assert ThreadInv(s, name) && ThreadWellFormed(t, |s.devices|);
    var c := s.threads[step.name].todo[0];
    assert ThreadWellFormed(s.threads[step.name], |s.devices|) && CallOk(c, |s.devices|);
    var t' := s'.threads[name];
    if step.name == name {
      RestIsClosed(t.todo);
      DirtyStaysCovered(t, t');
    } else {
      assert t' == t;
    }
    if t.algo.Ladder? {
      LevelsHaveActions(t.algo.levels, |s.devices|);
      forall d | 0 <= d < |s'.devices|
        ensures After(t'.todo, RequestOf(s'.devices[d], name), d) == Wanted(t.algo.levels, t.level, d)
      {
        CallEffect(s, step, name, d);
        assert After(t.todo, RequestOf(s.devices[d], name), d) == Wanted(t.algo.levels, t.level, d);
      }
    }
  }

  lemma DirtyStaysCovered(t: AlgoThread, t': AlgoThread)
    requires t.todo != [] && Closed(t.todo) && t'.todo == t.todo[1..]
    requires forall d | d in t.dirty :: Apply(d) in t.todo
    requires var c := t.todo[0]; t'.dirty == if c.Control? then t.dirty + {c.dev} else t.dirty - {c.dev}
    ensures forall d | d in t'.dirty :: Apply(d) in t'.todo
  {
    var c := t.todo[0];
    forall d | d in t'.dirty
      ensures Apply(d) in t'.todo
    {
      if c.Control? && d == c.dev {
        assert Apply(c.dev) in t.todo[0 + 1..];
      } else {
        assert Apply(d) in t.todo && Apply(d) != c;
      }
    }
  }

  lemma RestIsClosed(todo: seq<Call>)
    requires todo != [] && Closed(todo)
    ensures Closed(todo[1..])
  {
    var rest := todo[1..];
    forall i | 0 <= i < |rest| && rest[i].Control?
      ensures Apply(rest[i].dev) in rest[i + 1..]
    {
      assert rest[i] == todo[i + 1];
      assert todo[i + 1 + 1..] == rest[i + 1..];
    }
  }

  lemma DecisionKeepsThreads(s: System, step: Step, name: string)
    requires Inv(s) && Enabled(s, step) && !step.Call? && name in s.threads
    ensures name in Next(s, step).threads && ThreadInv(Next(s, step), name)
  {
    hide Lowest, Wanted, MonitorPlan, LevelsOk, Closed;
    var t := s.threads[name];
    assert ThreadInv(s, name) && ThreadWellFormed(t, |s.devices|);
    if step.name == name {
      NothingToDo(t);
      if step.Decide? {
        LevelsHaveActions(t.algo.levels, |s.devices|);
        PlanIsClosed(t.algo.levels, t.level, step.to, |s.devices|);
        forall d | 0 <= d < |s.devices|
          ensures After(MonitorPlan(t.algo.levels, t.level, step.to), RequestOf(s.devices[d], name), d)
                  == Wanted(t.algo.levels, step.to, d)
        {
          assert After(t.todo, RequestOf(s.devices[d], name), d) == RequestOf(s.devices[d], name);
          PlanLeadsTo(t.algo.levels, t.level, step.to, d);
        }
      }
    } else {
      assert Next(s, step).threads[name] == t;
    }
  }

  lemma LevelsHaveActions(levels: seq<Level>, n: nat)
    requires LevelsOk(levels, n)
    ensures forall l | l in levels :: |l.devs| == |l.actions|
  {}

  lemma NothingToDo(t: AlgoThread)
    requires forall d | d in t.dirty :: Apply(d) in t.todo
    ensures t.todo == [] ==> t.dirty == {}
  {
    assert t.todo == [] ==> forall d :: d !in t.dirty;
  }

  lemma StepKeepsSettled(s: System, step: Step, d: nat)
    requires Inv(s) && Enabled(s, step) && d < |s.devices| && d < |Next(s, step).devices|
    requires Quiet(Next(s, step), d) || !Next(s, step).devices[d].hasTable
    ensures SettledState(Next(s, step).devices[d])
  {
    hide Lowest, ThreadInv, MonitorPlan, LevelsOk, Closed;
    var (t, s') := (s.threads[step.name], Next(s, step));
    assert ThreadWellFormed(t, |s.devices|);
    if step.Call? {
      assert CallOk(t.todo[0], |s.devices|);
    }
    if !s'.devices[d].hasTable {
      assert SettledState(s.devices[d]);
    } else if step.Call? && t.todo[0].dev == d {
      assert d !in s'.threads[step.name].dirty;
    } else {
      assert Quiet(s, d) by {
        forall name | name in s.threads
          ensures d !in s.threads[name].dirty
        {
          assert name in s'.threads && d !in s'.threads[name].dirty;
          if step.Call? && name == step.name {
            assert CallOk(t.todo[0], |s.devices|);
          }
        }
      }
    }
  }

  lemma StepKeepsInv(s: System, step: Step)
    requires Inv(s) && Enabled(s, step)
    ensures Inv(Next(s, step))
  {
    hide Next, ThreadInv, Quiet, Lowest, WellFormed, Enabled;
    StepKeepsWellFormed(s, step);
    var s' := Next(s, step);
    forall name | name in s'.threads
      ensures ThreadInv(s', name)
    {
      if step.Call? { CallKeepsThreads(s, step, name); } else { DecisionKeepsThreads(s, step, name); }
    }
    forall d | 0 <= d < |s'.devices| && (Quiet(s', d) || !s'.devices[d].hasTable)
      ensures SettledState(s'.devices[d])
    {
      StepKeepsSettled(s, step, d);
    }
  }

  // ----- Runs -------------------------------------------------------------

  /** s' follows from s by the steps of a run. */
  ghost predicate Reaches(s: System, steps: seq<Step>, s': System)
    decreases |steps|
  {
    if steps == [] then s == s'
    else WellFormed(s) && Enabled(s, steps[0]) && Reaches(Next(s, steps[0]), steps[1..], s')
  }

  lemma {:induction false} RunKeepsInv(s: System, steps: seq<Step>, s': System)
    requires Inv(s) && Reaches(s, steps, s')
    ensures Inv(s')
    decreases |steps|
  {
    hide Inv;
    if steps != [] {
      StepKeepsInv(s, steps[0]);
      RunKeepsInv(Next(s, steps[0]), steps[1..], s');
    }
  }

  /** However the threads interleave: a device no thread is busy with runs at the strongest request, if it has a level
      table. One without a table stays at 0 all along, whatever it is asked for. */
  lemma QuietDeviceIsSettled(s: System, steps: seq<Step>, s': System, d: nat)
    requires Init(s) && Reaches(s, steps, s') && d < |s'.devices| && Quiet(s', d)
    ensures var dev := s'.devices[d];
            && dev.currentStatus >= 0
            && (dev.hasTable ==> forall name | name in dev.request :: dev.request[name] <= dev.currentStatus)
            && (dev.currentStatus == 0 || exists name :: name in dev.request && dev.request[name] == dev.currentStatus)
            && (!dev.hasTable ==> dev.currentStatus == 0)
  {
    hide Init, Reaches, Lowest, Quiet;
    InitHolds(s);
    RunKeepsInv(s, steps, s');
    LowestIsMax(s'.devices[d].request);
  }

  /** A system of one device without a level table and one thread that works off `todo`. */
  function Untabled(request: map<string, int>, todo: seq<Call>, dirty: set<nat>): System {
    System([DeviceState(request, 0, false)], map["LIMIT" := AlgoThread(Other, todo, dirty, 0)])
  }

  ghost predicate Leads(s: System, step: Step, s': System) {
    WellFormed(s) && Enabled(s, step) && Next(s, step) == s'
  }

  lemma UntabledPlans()
    ensures Leads(Untabled(map[], [], {}), Plan("LIMIT", [Control(0, 3), Apply(0)]),
                  Untabled(map[], [Control(0, 3), Apply(0)], {}))
  {
    assert [Control(0, 3), Apply(0)][0 + 1..] == [Apply(0)];
  }

  lemma UntabledAsks()
    ensures Leads(Untabled(map[], [Control(0, 3), Apply(0)], {}), Call("LIMIT"),
                  Untabled(map["LIMIT" := 3], [Apply(0)], {0}))
  {
    var (s, s') := (Untabled(map[], [Control(0, 3), Apply(0)], {}), Untabled(map["LIMIT" := 3], [Apply(0)], {0}));
    assert [Control(0, 3), Apply(0)][1..] == [Apply(0)] && {} + {0} == {0};
    assert Next(s, Call("LIMIT")).threads == s'.threads && Next(s, Call("LIMIT")).devices == s'.devices;
  }

  lemma UntabledApplies()
    ensures Leads(Untabled(map["LIMIT" := 3], [Apply(0)], {0}), Call("LIMIT"), Untabled(map["LIMIT" := 3], [], {}))
  {
    var (s, s') := (Untabled(map["LIMIT" := 3], [Apply(0)], {0}), Untabled(map["LIMIT" := 3], [], {}));
    assert [Apply(0)][1..] == [] && {0} - {0} == {};
    assert Next(s, Call("LIMIT")).threads == s'.threads && Next(s, Call("LIMIT")).devices == s'.devices;
  }

  /** The device without a table is asked for status 3, is applied and is quiet, and its status is still 0. */
  lemma UntabledStaysAtZero() returns (s: System, steps: seq<Step>, s': System)
    ensures Init(s) && Reaches(s, steps, s') && |s'.devices| == 1 && Quiet(s', 0)
    ensures s'.devices[0] == DeviceState(map["LIMIT" := 3], 0, false)
  {
    hide WellFormed, Enabled, Next;
    s := Untabled(map[], [], {});
    s' := Untabled(map["LIMIT" := 3], [], {});
    var (first, second, third) := (Plan("LIMIT", [Control(0, 3), Apply(0)]), Call("LIMIT"), Call("LIMIT"));
    steps := [first, second, third];
    UntabledPlans();
    UntabledAsks();
    UntabledApplies();
    assert steps[1..] == [second, third] && [second, third][1..] == [third] && [third][1..] == [];
    assert Reaches(s', [], s');
    assert Reaches(Untabled(map["LIMIT" := 3], [Apply(0)], {0}), [third], s');
    assert Reaches(Untabled(map[], [Control(0, 3), Apply(0)], {}), [second, third], s');
    assert Init(s) by { UntabledBegins(); }
  }

  lemma UntabledBegins()
    ensures Init(Untabled(map[], [], {}))
  {}

  /** A system of one device and one monitor with one level, which asks for status 3. */
  function Laddered(request: map<string, int>, status: int, todo: seq<Call>, dirty: set<nat>, level: nat): System {
    System([DeviceState(request, status, true)],
           map["LADDER" := AlgoThread(Ladder([Level([0], [3])]), todo, dirty, level)])
  }

  lemma LadderDecides()
    ensures Leads(Laddered(map[], 0, [], {}, 0), Decide("LADDER", 1), Laddered(map[], 0, [Control(0, 3), Apply(0)], {}, 1))
  {
    var levels := [Level([0], [3])];
    assert Releases(LevelAt(levels, 0)) == [] && Applies(LevelAt(levels, 0)) == [];
    assert Controls(LevelAt(levels, 1)) == [Control(0, 3)] && Applies(LevelAt(levels, 1)) == [Apply(0)];
    assert MonitorPlan(levels, 0, 1) == [Control(0, 3), Apply(0)];
  }

  lemma LadderAsks()
    ensures Leads(Laddered(map[], 0, [Control(0, 3), Apply(0)], {}, 1), Call("LADDER"),
                  Laddered(map["LADDER" := 3], 0, [Apply(0)], {0}, 1))
  {
    var (s, s') := (Laddered(map[], 0, [Control(0, 3), Apply(0)], {}, 1), Laddered(map["LADDER" := 3], 0, [Apply(0)], {0}, 1));
    assert [Control(0, 3), Apply(0)][1..] == [Apply(0)] && {} + {0} == {0};
    assert Next(s, Call("LADDER")).threads == s'.threads && Next(s, Call("LADDER")).devices == s'.devices;
  }

  lemma LadderApplies()
    ensures Leads(Laddered(map["LADDER" := 3], 0, [Apply(0)], {0}, 1), Call("LADDER"),
                  Laddered(map["LADDER" := 3], 3, [], {}, 1))
  {
    var (s, s') := (Laddered(map["LADDER" := 3], 0, [Apply(0)], {0}, 1), Laddered(map["LADDER" := 3], 3, [], {}, 1));
    assert [Apply(0)][1..] == [] && {0} - {0} == {};
    var request: map<string, int> := map["LADDER" := 3];
    assert "LADDER" in request && request["LADDER"] == 3;
    LowestUnique(request, 3);
    assert Next(s, Call("LADDER")).threads == s'.threads && Next(s, Call("LADDER")).devices == s'.devices;
  }

  lemma LadderBegins()
    ensures Init(Laddered(map[], 0, [], {}, 0))
  {}

  /** The monitor decides for its level, asks and applies, and the device runs at status 3. */
  lemma LadderRuns() returns (s: System, steps: seq<Step>, s': System)
    ensures Init(s) && Reaches(s, steps, s') && Quiet(s', 0)
    ensures s'.devices == [DeviceState(map["LADDER" := 3], 3, true)]
  {
    hide WellFormed, Enabled, Next, Init;
    s := Laddered(map[], 0, [], {}, 0);
    s' := Laddered(map["LADDER" := 3], 3, [], {}, 1);
    var (first, second, third) := (Decide("LADDER", 1), Call("LADDER"), Call("LADDER"));
    steps := [first, second, third];
    LadderBegins();
    LadderDecides();
    LadderAsks();
    LadderApplies();
    assert steps[1..] == [second, third] && [second, third][1..] == [third] && [third][1..] == [];
    assert Reaches(s', [], s');
    assert Reaches(Laddered(map["LADDER" := 3], 0, [Apply(0)], {0}, 1), [third], s');
    assert Reaches(Laddered(map[], 0, [Control(0, 3), Apply(0)], {}, 1), [second, third], s');
  }

  /** However the threads interleave: a monitor at rest asks for exactly the actions of its level. */
  lemma MonitorAtRestAsksForItsLevel(s: System, steps: seq<Step>, s': System, name: string, d: nat)
    requires Init(s) && Reaches(s, steps, s') && name in s'.threads && d < |s'.devices|
    requires s'.threads[name].algo.Ladder? && s'.threads[name].todo == []
    ensures var t := s'.threads[name];
            && t.dirty == {} && t.level <= |t.algo.levels| && LevelsOk(t.algo.levels, |s'.devices|)
            && (if name in s'.devices[d].request then s'.devices[d].request[name] else 0) == Wanted(t.algo.levels, t.level, d)
  {
    hide Init, Reaches, Lowest, Quiet, Wanted, LevelsOk;
    InitHolds(s);
    RunKeepsInv(s, steps, s');
    assert ThreadInv(s', name) && ThreadWellFormed(s'.threads[name], |s'.devices|);
    NothingToDo(s'.threads[name]);
  }

  // ----- The monitor object makes these plans -----------------------------

  /** Numbers for the devices of a monitor. */
  ghost predicate Numbered(m: Monitor, ids: map<Device, nat>) {
    && m.Devices() <= ids.Keys
    && forall d, e | d in m.Devices() && e in m.Devices() && ids[d] == ids[e] :: d == e
  }

  ghost function Ids(devs: seq<Device>, ids: map<Device, nat>): seq<nat>
    requires forall d | d in devs :: d in ids
  {
    seq(|devs|, i requires 0 <= i < |devs| => ids[devs[i]])
  }

  ghost function LevelsOf(m: Monitor, ids: map<Device, nat>): (levels: seq<Level>)
    requires m.Configured() && Numbered(m, ids)
    reads m
    ensures |levels| == |m.device| && forall l | l in levels :: |l.devs| == |l.actions|
  {
    assert forall i | 0 <= i < |m.device| :: forall d | d in m.device[i] :: d in m.Devices();
    seq(|m.device|, i requires 0 <= i < |m.device| && m.Configured() && Numbered(m, ids) &&
                               (forall d | d in m.device[i] :: d in m.Devices()) reads m =>
      Level(Ids(m.device[i], ids), m.actionInfo[i]))
  }

  /** Numbering the devices does not change the last action. */
  lemma {:induction false} LastActionById(devs: seq<Device>, actions: seq<int>, ids: map<Device, nat>, d: Device, before: int)
    requires |devs| <= |actions| && d in ids && forall e | e in devs :: e in ids && (ids[e] == ids[d] ==> e == d)
    ensures LastAction<nat>(Ids(devs, ids), actions, ids[d], before) == LastAction<Device>(devs, actions, d, before)
  {
    if devs != [] {
      var n := |devs| - 1;
      assert devs[n] in devs && Ids(devs, ids)[..n] == Ids(devs[..n], ids);
      LastActionById(devs[..n], actions, ids, d, before);
    }
  }

  /** The requests that Monitor.Decision leaves are those at the end of the plan. */
  lemma DecisionMakesPlan(m: Monitor, ids: map<Device, nat>, to: nat, d: Device, before: map<string, int>)
    requires m.Configured() && Numbered(m, ids) && to <= |m.device| && to != m.status && d in m.Devices()
    ensures var after := m.RequestAfter(to, d, before);
            After(MonitorPlan(LevelsOf(m, ids), m.status, to), if m.name in before then before[m.name] else 0, ids[d])
            == if m.name in after then after[m.name] else 0
  {
    var levels := LevelsOf(m, ids);
    var r := if m.name in before then before[m.name] else 0;
    PlanOn(levels, m.status, to, r, ids[d]);
    LevelHas(m, ids, m.status, d);
    LevelHas(m, ids, to, d);
    hide After, MonitorPlan, LastAction, Monitor.Configured;
    if to > 0 {
      m.InDevices(to - 1);
      LastActionById(m.device[to - 1], m.actionInfo[to - 1], ids, d, 0);
    }
  }

  /** A level limits the devices it names. */
  lemma LevelHas(m: Monitor, ids: map<Device, nat>, level: nat, d: Device)
    requires m.Configured() && Numbered(m, ids) && level <= |m.device| && d in m.Devices()
    ensures ids[d] in LevelAt(LevelsOf(m, ids), level).devs <==> level > 0 && d in m.device[level - 1]
  {
    if level > 0 {
      m.InDevices(level - 1);
      var devs := m.device[level - 1];
      var level' := LevelsOf(m, ids)[level - 1];
      if d in devs {
        var i :| 0 <= i < |devs| && devs[i] == d;
        assert level'.devs[i] == ids[d];
      }
      if ids[d] in level'.devs {
        var i :| 0 <= i < |devs| && level'.devs[i] == ids[d];
        assert devs[i] in devs;
      }
    }
  }
}
