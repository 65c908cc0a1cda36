/** SS: an algorithm that moves its level by whole degrees, counting from the temperature of the last
    decision. */
module ThermalStep {
  import opened Common
  import opened ThermalDevice
  import ThermalMonitor
  import opened Bytes

  /** C division of milli-degrees by 1000: toward zero. */
  function Degrees(t: int): int { if t >= 0 then t / 1000 else -((-t) / 1000) }

  lemma DegreesAreWhole(t: int)
    ensures t >= 0 ==> 1000 * Degrees(t) <= t < 1000 * Degrees(t) + 1000
    ensures t <= 0 ==> 1000 * Degrees(t) - 1000 < t <= 1000 * Degrees(t)
  {}

  /** The level a temperature stands for, whatever came before. */
  function LevelAt(triggerPoint: int, clearPoint: int, temp: int): nat {
    if temp < clearPoint then 0 else Max(0, Degrees(temp) - Degrees(triggerPoint) + 1)
  }

  /** What does not change between decisions. */
  datatype Points = Points(trigger: int, clear: int, floor: int, tickTrigger: int)

  /** What a decision leaves for the next one. */
  datatype Control = Control(status: nat, prev: int, tick: int)

  /** The degrees that leave a level as it is: those of the last decision, or those just below the trigger. */
  function Base(p: Points, c: Control): int {
    if c.status == 0 then Degrees(p.trigger) - 1 else Degrees(c.prev)
  }

  /** One decision at a temperature, with the status of the device. */
  function Decide(p: Points, c: Control, temp: int, device: int): Control {
    if temp < p.clear then Control(0, c.prev, 0) else
    var diff := Degrees(temp) - Base(p, c);
    var counted := diff == 0 && device <= p.floor;
    var tick := if p.tickTrigger == 0 then c.tick else if counted then c.tick + 1 else 0;
    var fires := p.tickTrigger != 0 && counted && tick == p.tickTrigger;
    var next := Max(0, c.status + diff + if fires then 1 else 0);
    Control(next, temp, if next != c.status then 0 else tick)
  }

  // ----- Laws of runs -----------------------------------------------------

  /** A reading of the sensor and the status the device has then. */
  datatype Reading = Reading(temp: int, device: int)

  function Run(p: Points, c: Control, readings: seq<Reading>): Control {
    if readings == [] then c
    else
      var r := readings[|readings| - 1];
      Decide(p, Run(p, c, readings[..|readings| - 1]), r.temp, r.device)
  }

  const START := Control(0, 0, 0)

  /** Without ticks the controller is history-free: after every run of readings the level is the one
      the last reading stands for. */
  lemma {:induction false} HistoryFree(p: Points, readings: seq<Reading>)
    requires readings != [] && p.tickTrigger == 0
    ensures var c := Run(p, START, readings);
            && c.status == LevelAt(p.trigger, p.clear, readings[|readings| - 1].temp)
            && (c.status > 0 ==> c.status == Degrees(c.prev) - Degrees(p.trigger) + 1)
  {
    hide Degrees;
    var before := readings[..|readings| - 1];
    if before != [] {
      HistoryFree(p, before);
    }
  }

  /** With ticks, decisions at one degree with the device at or below the floor are counted: every time the counter runs
      full the level rises by one, and it never does otherwise. */
  lemma {:induction false} TicksRaiseTheLevel(p: Points, c: Control, readings: seq<Reading>, degree: int)
    requires p.tickTrigger > 0 && 0 <= c.tick < p.tickTrigger
    requires degree == if c.status > 0 then Degrees(c.prev) else Degrees(p.trigger) - 1
    requires forall r | r in readings :: r.temp >= p.clear && Degrees(r.temp) == degree && r.device <= p.floor
    ensures var (c', n) := (Run(p, c, readings), c.tick + |readings|);
            && c'.status == c.status + n / p.tickTrigger && c'.tick == n % p.tickTrigger
            && (readings != [] ==> c'.prev == readings[|readings| - 1].temp)
  {
    hide Degrees;
    if readings == [] {
      Parts(c.tick, p.tickTrigger, 0, c.tick);
    } else {
      var before := readings[..|readings| - 1];
      TicksRaiseTheLevel(p, c, before, degree);
      assert readings[|readings| - 1] in readings;
      var n := c.tick + |before|;
      DivIsNat(n, p.tickTrigger);
      NextCount(n, p.tickTrigger);
    }
  }

  lemma NextCount(n: nat, m: nat)
    requires m > 0
    ensures if n % m + 1 == m then (n + 1) / m == n / m + 1 && (n + 1) % m == 0
            else (n + 1) / m == n / m && (n + 1) % m == n % m + 1
  {
    var (q, r) := (n / m, n % m);
    assert n == m * q + r;
    if r + 1 == m {
      assert n + 1 == m * (q + 1);
      Parts(n + 1, m, q + 1, 0);
    } else {
      Parts(n + 1, m, q, r + 1);
    }
  }

  /** So from a level just reached, as many decisions as the tick trigger raise it by exactly one, and fewer do not. */
  lemma OneLevelPerTick(p: Points, c: Control, readings: seq<Reading>, degree: int)
    requires p.tickTrigger > 0 && c.tick == 0 && |readings| <= p.tickTrigger
    requires degree == if c.status > 0 then Degrees(c.prev) else Degrees(p.trigger) - 1
    requires forall r | r in readings :: r.temp >= p.clear && Degrees(r.temp) == degree && r.device <= p.floor
    ensures Run(p, c, readings).status == if |readings| == p.tickTrigger then c.status + 1 else c.status
  {
    TicksRaiseTheLevel(p, c, readings, degree);
    if |readings| == p.tickTrigger {
      Parts(|readings|, p.tickTrigger, 1, 0);
    } else {
      Parts(|readings|, p.tickTrigger, 0, |readings|);
    }
  }

  /** A decision at another degree, or with the device above the floor, moves the level by the difference in degrees, not
      below 0, and the count starts again. */
  lemma OtherwiseByDegrees(p: Points, c: Control, temp: int, device: int)
    requires temp >= p.clear && p.tickTrigger != 0
    requires var base := if c.status > 0 then Degrees(c.prev) else Degrees(p.trigger) - 1;
             Degrees(temp) != base || device > p.floor
    ensures var base := if c.status > 0 then Degrees(c.prev) else Degrees(p.trigger) - 1;
            var c' := Decide(p, c, temp, device);
            && c'.status == Max(0, c.status + Degrees(temp) - base) && c'.tick == 0 && c'.prev == temp
  {}

  /** Over every run: the level is at least the one the last reading stands for, and above it by no more than the counter
      can have run full. */
  lemma LevelOverRuns(p: Points, readings: seq<Reading>)
    requires p.tickTrigger > 0 && readings != []
    ensures var (c, temp) := (Run(p, START, readings), readings[|readings| - 1].temp);
            && LevelAt(p.trigger, p.clear, temp) <= c.status
            && c.status <= if temp < p.clear then 0
                           else Max(0, Degrees(temp) - Degrees(p.trigger) + 1 + |readings| / p.tickTrigger)
  {
    hide Degrees;
    var fires := CountFires(p, readings);
    TimesAtMost(|readings|, p.tickTrigger, fires);
  }

  lemma TimesAtMost(n: nat, m: nat, k: nat)
    requires m > 0 && m * k <= n
    ensures k <= n / m
  {
    var q := n / m;
    assert n == m * q + n % m;
    assert m * (q + 1) == m * q + m;
    Cancel(m, k, q + 1);
  }

  lemma Cancel(m: nat, k: nat, j: nat)
    requires m * k < m * j
    ensures k < j
  {
    if k >= j {
      MulMono(j, k, m);
    }
  }

  /** How often the counter has run full, as far as the level shows it. */
  lemma {:induction false} CountFires(p: Points, readings: seq<Reading>) returns (fires: nat)
    requires p.tickTrigger > 0
    ensures var (c, l) := (Run(p, START, readings), Degrees(Run(p, START, readings).prev) - Degrees(p.trigger) + 1);
            && 0 <= c.tick < p.tickTrigger && p.tickTrigger * fires + c.tick <= |readings|
            && (c.status > 0 ==> l <= c.status <= Max(0, l + fires))
            && (readings != [] ==>
                  var temp := readings[|readings| - 1].temp;
                  if temp < p.clear then c.status == 0 else c.prev == temp && l <= c.status <= Max(0, l + fires))
  {
    hide Degrees;
    if readings == [] {
      fires := 0;
    } else {
      var before := readings[..|readings| - 1];
      fires := CountFires(p, before);
      var (c, r) := (Run(p, START, before), readings[|readings| - 1]);
      if r.temp >= p.clear && Degrees(r.temp) == Base(p, c) && r.device <= p.floor && c.tick + 1 == p.tickTrigger {
        assert p.tickTrigger * (fires + 1) == p.tickTrigger * fires + p.tickTrigger;
        fires := fires + 1;
      }
    }
  }

  class SS {
    const name: string
    const isNegative: bool
    const triggerPoint: int
    const clearPoint: int
    const startLevel: int
    const devicePerfFloor: int
    const timeTickTrigger: int
    const device: Device
    const thread: ThermalMonitor.AlgoThread
    var status: nat
    var activeStatus: bool
    var prevTemperature: int
    var timeTick: int

    constructor (name: string, isNegative: bool, triggerPoint: int, clearPoint: int, startLevel: int,
                 devicePerfFloor: int, timeTickTrigger: int, device: Device, thread: ThermalMonitor.AlgoThread)
      ensures this.name == name && this.device == device && this.thread == thread && this.isNegative == isNegative
      ensures this.triggerPoint == (if isNegative then -triggerPoint else triggerPoint)
      ensures this.clearPoint == (if isNegative then -clearPoint else clearPoint)
      ensures this.startLevel == startLevel && this.devicePerfFloor == devicePerfFloor
      ensures this.timeTickTrigger == timeTickTrigger && status == 0 && timeTick == 0 && !activeStatus
      ensures State() == START && TickInRange()
    {
      this.name, this.isNegative, this.device, this.thread := name, isNegative, device, thread;
      this.triggerPoint := if isNegative then -triggerPoint else triggerPoint;
      this.clearPoint := if isNegative then -clearPoint else clearPoint;
      this.startLevel, this.devicePerfFloor, this.timeTickTrigger := startLevel, devicePerfFloor, timeTickTrigger;
      status, activeStatus, prevTemperature, timeTick := 0, false, 0, 0;
    }

    /** What the device is asked for at a level: an unsigned comparison with the table size caps it. */
    function Request(level: nat): int
      reads this
    {
      var raw := level + startLevel - 1;
      Min(if raw < 0 || raw >= device.levels then device.levels - 1 else raw, devicePerfFloor)
    }

    function Settings(): Points { Points(triggerPoint, clearPoint, devicePerfFloor, timeTickTrigger) }

    function State(): Control
      reads this
    {
      Control(status, prevTemperature, timeTick)
    }

    /** A positive level is what the device has been asked for. */
    ghost predicate AskedFor()
      reads this, device
    {
      status > 0 ==> name in device.request && device.request[name] == Request(status)
    }

    ghost predicate TickInRange()
      reads this
    {
      timeTickTrigger > 0 ==> 0 <= timeTick < timeTickTrigger
    }

    method Deactivate()
      requires device.Bounded()
      modifies this, thread, device
      ensures status == 0 && timeTick == 0 && !activeStatus && prevTemperature == old(prevTemperature)
      ensures device.request == old(device.request)[name := 0] && device.Bounded()
      ensures device.currentStatus == if !device.dummy && device.levels == 0 then old(device.currentStatus)
                                      else Lowest(device.request)
      ensures thread.numActive == old(thread.numActive) - if old(thread.numActive) > 0 then 1 else 0
    {
      timeTick, status := 0, 0;
      device.DeviceControl(name, 0);
      device.BoundedIsInTable();
      device.StatusApply();
      activeStatus := false;
      thread.Deactivate();
    }

    /** SS::decision. */
    method Decision(sensorTemp: int)
      requires device.Bounded() && TickInRange()
      modifies this, thread, device
      ensures device.Bounded() && TickInRange()
      ensures old(AskedFor()) ==> AskedFor()
      ensures var temp := if isNegative then -sensorTemp else sensorTemp;
              && State() == old(Decide(Settings(), State(), temp, device.currentStatus))
              && (temp < clearPoint ==> status == 0 && timeTick == 0 && prevTemperature == old(prevTemperature))
              && (temp >= clearPoint ==> prevTemperature == temp)
              && (temp >= clearPoint && timeTickTrigger == 0 ==>
                    timeTick == if status == old(status) then old(timeTick) else 0)
              && (temp >= clearPoint && timeTickTrigger != 0 ==>
                    timeTick == if status == old(status) && old(device.currentStatus) <= devicePerfFloor
                                   && Degrees(temp) == (if old(status) > 0 then Degrees(old(prevTemperature))
                                                        else Degrees(triggerPoint) - 1)
                                then old(timeTick) + 1 else 0)
      ensures var temp := if isNegative then -sensorTemp else sensorTemp;
              && (temp < clearPoint ==> device.request == old(device.request)[name := 0] && !activeStatus)
              && (temp >= clearPoint && status != old(status) ==>
                    device.request == old(device.request)[name := Request(status)])
              && (temp >= clearPoint && status == old(status) ==>
                    device.request == old(device.request) && device.currentStatus == old(device.currentStatus))
              && (temp < clearPoint || status != old(status) ==>
                    device.currentStatus == if !device.dummy && device.levels == 0 then old(device.currentStatus)
                                            else Lowest(device.request))
              && (temp >= clearPoint ==> activeStatus == old(activeStatus) && thread.numActive == old(thread.numActive))
    {
      hide Degrees, Lowest;
      var temp := if isNegative then -sensorTemp else sensorTemp;
      var tickTriggered := 0;
      if temp < clearPoint {
        Deactivate();
        return;
      }
      var tempDiff := if status == 0 then Degrees(temp) - Degrees(triggerPoint) + 1
                      else Degrees(temp) - Degrees(prevTemperature);
      if timeTickTrigger != 0 {
        if tempDiff == 0 && device.currentStatus <= devicePerfFloor {
          timeTick := timeTick + 1;
          if timeTick == timeTickTrigger {
            tickTriggered := 1;
          }
        } else {
          timeTick := 0;
        }
      }
      var nextStatus := status + tempDiff + tickTriggered;
      if nextStatus < 0 {
        nextStatus := 0;
      }
      if nextStatus != status {
        MoveTo(nextStatus);
      }
      prevTemperature := temp;
    }

    /** The branch of SS::decision for a new level. */
    method MoveTo(level: nat)
      requires device.Bounded()
      modifies this`status, this`timeTick, device
      ensures status == level && timeTick == 0 && device.Bounded()
      ensures device.currentStatus == if !device.dummy && device.levels == 0 then old(device.currentStatus)
                                      else Lowest(device.request)
      ensures device.request == old(device.request)[name := Request(level)]
    {
      status := level;
      var nextStatus := level + startLevel - 1;
      if nextStatus < 0 || nextStatus >= device.levels {
        nextStatus := device.levels - 1;
      }
      var nextValue := if nextStatus < devicePerfFloor then nextStatus else devicePerfFloor;
      device.DeviceControl(name, nextValue);
      device.BoundedIsInTable();
      device.StatusApply();
      timeTick := 0;
    }
  }

  /** A positive level asks for the level itself, counted from the start level, but never beyond the table or the floor;
      a start level so low that this is negative asks for the end of the table. */
  lemma RequestIsMin(ss: SS)
    requires ss.status > 0
    ensures var raw := ss.status + ss.startLevel - 1;
            && (ss.device.levels == 0 ==> ss.Request(ss.status) == Min(-1, ss.devicePerfFloor))
            && (raw >= 0 && ss.device.levels > 0 ==> ss.Request(ss.status) == Min(Min(raw, ss.device.levels - 1), ss.devicePerfFloor))
            && (raw < 0 ==> ss.Request(ss.status) == Min(ss.device.levels - 1, ss.devicePerfFloor))
  {}

  /** Decisions between clear point and trigger point leave no level, however hot it was before. */
  lemma NoLevelBelowTrigger(triggerPoint: int, clearPoint: int, temp: int)
    requires Degrees(temp) < Degrees(triggerPoint)
    ensures LevelAt(triggerPoint, clearPoint, temp) == 0
  {}

  /** From the trigger on, every whole degree is one level. */
  lemma OneLevelPerDegree(triggerPoint: int, clearPoint: int, temp: int, k: nat)
    requires clearPoint <= temp && triggerPoint <= temp && 0 <= triggerPoint
    ensures LevelAt(triggerPoint, clearPoint, temp) >= 1
    ensures LevelAt(triggerPoint, clearPoint, temp + 1000 * k) == LevelAt(triggerPoint, clearPoint, temp) + k
  {
    Thousands(temp, k);
    assert triggerPoint / 1000 <= temp / 1000;
  }

  lemma Thousands(t: nat, k: nat)
    ensures (t + 1000 * k) / 1000 == t / 1000 + k
  {}
}
