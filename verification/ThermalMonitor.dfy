/** Monitor: an algorithm that walks a ladder of levels with hysteresis and asks its devices for the
    actions of the current level. */
module ThermalMonitor {
  import opened ThermalDevice
  import opened ThermalHysteresis

  /** The action a list of requests leaves on d: the last one made, or the one before. */
  function LastAction<D(==)>(devs: seq<D>, actions: seq<int>, d: D, before: int): int
    requires |devs| <= |actions|
  {
    if devs == [] then before
    else if devs[|devs| - 1] == d then actions[|devs| - 1]
    else LastAction(devs[..|devs| - 1], actions, d, before)
  }

  lemma {:induction false} LastActionAppend<D>(devs: seq<D>, actions: seq<int>, n: nat, d: D, before: int)
    requires n < |devs| <= |actions|
    ensures LastAction(devs[..n + 1], actions, d, before)
            == if devs[n] == d then actions[n] else LastAction(devs[..n], actions, d, before)
  {
    assert devs[..n + 1][..n] == devs[..n];
  }

  lemma {:induction false} LastActionUntouched<D>(devs: seq<D>, actions: seq<int>, d: D, b1: int, b2: int)
    requires |devs| <= |actions|
    ensures d !in devs ==> LastAction(devs, actions, d, b1) == b1
    ensures d in devs ==> LastAction(devs, actions, d, b1) == LastAction(devs, actions, d, b2)
    ensures d in devs ==> exists i :: 0 <= i < |devs| && devs[i] == d && LastAction(devs, actions, d, b1) == actions[i]
  {
    if devs != [] && devs[|devs| - 1] != d {
      LastActionUntouched(devs[..|devs| - 1], actions, d, b1, b2);
    }
  }

  /** It is the action listed with the last mention of the device. */
  lemma {:induction false} LastMention<D>(devs: seq<D>, actions: seq<int>, i: nat, before: int)
    requires |devs| <= |actions| && i < |devs| && devs[i] !in devs[i + 1..]
    ensures LastAction(devs, actions, devs[i], before) == actions[i]
  {
    var n := |devs| - 1;
    if i < n {
      assert devs[n] in devs[i + 1..];
      assert devs[i + 1..] == devs[..n][i + 1..] + [devs[n]];
      LastMention(devs[..n], actions, i, before);
    }
  }

  /** Falling-temperature algorithms work on negated numbers. */
  function Signed(isNegative: bool, ts: seq<int>): seq<int> {
    if isNegative then seq(|ts|, i requires 0 <= i < |ts| => -ts[i]) else ts
  }

  /** So they count the leading thresholds that the sensor has fallen to. */
  lemma LowActiveCount(ts: seq<int>, sensorTemp: int)
    ensures var n := CountUpTo(Signed(true, ts), -sensorTemp);
            && n <= |ts| && (forall i | 0 <= i < n :: sensorTemp <= ts[i]) && (n < |ts| ==> ts[n] < sensorTemp)
  {
    var negated := Signed(true, ts);
    LeadingCount(negated, -sensorTemp);
    forall i | 0 <= i < CountUpTo(negated, -sensorTemp)
      ensures sensorTemp <= ts[i]
    {
      assert negated[i] <= -sensorTemp;
    }
  }

  class AlgoThread {
    var numActive: int

    method Deactivate()
      modifies this
      ensures numActive == if old(numActive) > 0 then old(numActive) - 1 else old(numActive)
    {
      if numActive > 0 {
        numActive := numActive - 1;
      }
    }
  }

  class Monitor {
    const name: string
    const isNegative: bool
    const thresholds: seq<int>
    const clears: seq<int>
    const device: seq<seq<Device>>
    const actionInfo: seq<seq<int>>
    const thread: AlgoThread
    var status: nat
    var activeStatus: bool

    constructor (name: string, isNegative: bool, thresholds: seq<int>, clears: seq<int>,
                 device: seq<seq<Device>>, actionInfo: seq<seq<int>>, thread: AlgoThread)
      ensures this.name == name && this.isNegative == isNegative && this.thread == thread
      ensures this.device == device && this.actionInfo == actionInfo && status == 0 && !activeStatus
      ensures this.thresholds == Signed(isNegative, thresholds) && this.clears == Signed(isNegative, clears)
      ensures |this.thresholds| == |thresholds| && |this.clears| == |clears|
      ensures forall i | 0 <= i < |thresholds| :: this.thresholds[i] == if isNegative then -thresholds[i] else thresholds[i]
      ensures forall i | 0 <= i < |clears| :: this.clears[i] == if isNegative then -clears[i] else clears[i]
    {
      this.name, this.isNegative, this.thread := name, isNegative, thread;
      this.thresholds, this.clears := Signed(isNegative, thresholds), Signed(isNegative, clears);
      this.device, this.actionInfo := device, actionInfo;
      status, activeStatus := 0, false;
    }

    /** The configuration fits together: an action for every device of every level, found in its table. */
    predicate Configured()
      reads this
    {
      && |thresholds| == |clears| == |device| == |actionInfo| && status <= |thresholds|
      && (forall i | 0 <= i < |device| :: |device[i]| == |actionInfo[i]|)
      && (forall i, j | 0 <= i < |device| && 0 <= j < |device[i]| ::
            device[i][j].dummy || device[i][j].levels == 0 || actionInfo[i][j] < device[i][j].levels)
    }

    ghost function Devices(): set<Device> {
      set i, j | 0 <= i < |device| && 0 <= j < |device[i]| :: device[i][j]
    }

    ghost predicate DevicesBounded()
      reads Devices()
    {
      forall d | d in Devices() :: d.Bounded()
    }

    /** What a level asks of device d. */
    function LevelAction(level: nat, d: Device): int
      requires Configured() && level <= |device|
      reads this
    {
      if level == 0 then 0 else LastAction<Device>(device[level - 1], actionInfo[level - 1], d, 0)
    }

    ghost function RequestOn(d: Device): int
      reads d
    {
      if name in d.request then d.request[name] else 0
    }

    /** The monitor's requests are exactly the actions of its level. */
    ghost predicate AsksForLevel()
      requires Configured()
      reads this, Devices()
    {
      forall d | d in Devices() :: RequestOn(d) == LevelAction(status, d)
    }

    method Release(devs: seq<Device>)
      modifies devs`request
      ensures forall d | d in devs :: d.request == old(d.request)[name := 0]
    {
      for i := 0 to |devs|
        invariant forall d | d in devs[..i] :: d.request == old(d.request)[name := 0]
        invariant forall d | d in devs && d !in devs[..i] :: d.request == old(d.request)
      {
        assert devs[..i + 1] == devs[..i] + [devs[i]];
        devs[i].DeviceControl(name, 0);
      }
    }

    method Request(devs: seq<Device>, actions: seq<int>)
      requires |devs| <= |actions|
      modifies devs`request
      ensures forall d | d in devs :: d.request == old(d.request)[name := LastAction<Device>(devs, actions, d, 0)]
    {
      var i := 0;
      while i < |devs|
        invariant i <= |devs|
        invariant forall d | d in devs[..i] ::
                    d.request == old(d.request)[name := LastAction<Device>(devs[..i], actions, d, 0)]
        invariant forall d | d in devs && d !in devs[..i] :: d.request == old(d.request)
      {
        assert devs[..i + 1] == devs[..i] + [devs[i]];
        forall d: Device
          ensures LastAction<Device>(devs[..i + 1], actions, d, 0)
                  == if devs[i] == d then actions[i] else LastAction<Device>(devs[..i], actions, d, 0)
        {
          LastActionAppend<Device>(devs, actions, i, d, 0);
        }
        devs[i].DeviceControl(name, actions[i]);
        i := i + 1;
      }
      assert devs[..i] == devs;
    }

    method ApplyAll(devs: seq<Device>)
      requires forall d | d in devs :: d.Bounded()
      modifies devs`currentStatus
      ensures forall d | d in devs :: d.Settled() || (!d.dummy && d.levels == 0)
    {
      for i := 0 to |devs|
        invariant forall d | d in devs :: d.Bounded()
        invariant forall d | d in devs[..i] :: d.Settled() || (!d.dummy && d.levels == 0)
      {
        assert devs[..i + 1] == devs[..i] + [devs[i]];
        devs[i].BoundedIsInTable();
        devs[i].StatusApply();
      }
      assert devs[..|devs|] == devs;
    }

    /** What a decision that moves to newStatus leaves on device d. */
    ghost function RequestAfter(newStatus: nat, d: Device, before: map<string, int>): map<string, int>
      requires Configured() && newStatus <= |device|
      reads this
    {
      if newStatus == status then before
      else if newStatus > 0 && d in device[newStatus - 1] then before[name := LevelAction(newStatus, d)]
      else if status > 0 && d in device[status - 1] then before[name := 0]
      else before
    }

    /** A decision that moves to newStatus calls on device d. */
    predicate Touched(newStatus: nat, d: Device)
      requires Configured() && newStatus <= |device|
      reads this
    {
      newStatus != status && ((newStatus > 0 && d in device[newStatus - 1]) || (status > 0 && d in device[status - 1]))
    }

    /** The device has just been told to take its strongest request, if it has a table at all. */
    ghost predicate AppliedOn(d: Device)
      reads d
    {
      d.Settled() || (!d.dummy && d.levels == 0)
    }

    /** A monitor that asks for its level has on each device the action of its last mention there, or 0. */
    lemma AskedForLevel(d: Device, i: nat)
      requires Configured() && AsksForLevel() && d in Devices()
      ensures var asked := if name in d.request then d.request[name] else 0;
              && (status == 0 || d !in device[status - 1] ==> asked == 0)
              && (status > 0 && i < |device[status - 1]| && device[status - 1][i] == d && d !in device[status - 1][i + 1..] ==>
                    asked == actionInfo[status - 1][i])
    {
      assert RequestOn(d) == LevelAction(status, d);
      if status > 0 {
        LastActionUntouched<Device>(device[status - 1], actionInfo[status - 1], d, 0, 0);
        if i < |device[status - 1]| && device[status - 1][i] == d && d !in device[status - 1][i + 1..] {
          LastMention<Device>(device[status - 1], actionInfo[status - 1], i, 0);
        }
      }
    }

    /** Which devices a decision applies, and what that means. */
    lemma TouchedIs(newStatus: nat, d: Device)
      requires Configured() && newStatus <= |device|
      ensures Touched(newStatus, d) <==>
              newStatus != status && ((newStatus > 0 && d in device[newStatus - 1]) || (status > 0 && d in device[status - 1]))
      ensures AppliedOn(d) <==> (d.dummy || d.levels > 0 ==> d.currentStatus == Lowest(d.request))
    {}

    /** What that is for a device mentioned at place i of the new level, and for one that the new level does not mention. */
    lemma RequestAfterIs(newStatus: nat, d: Device, before: map<string, int>, i: nat)
      requires Configured() && newStatus <= |device| && newStatus != status
      ensures newStatus > 0 && i < |device[newStatus - 1]| && device[newStatus - 1][i] == d && d !in device[newStatus - 1][i + 1..] ==>
                RequestAfter(newStatus, d, before) == before[name := actionInfo[newStatus - 1][i]]
      ensures newStatus == 0 || d !in device[newStatus - 1] ==>
                RequestAfter(newStatus, d, before) == if status > 0 && d in device[status - 1] then before[name := 0] else before
    {
      hide LastAction;
      if newStatus > 0 && i < |device[newStatus - 1]| && device[newStatus - 1][i] == d && d !in device[newStatus - 1][i + 1..] {
        LastMention<Device>(device[newStatus - 1], actionInfo[newStatus - 1], i, 0);
      }
    }

    method Deactivate()
      requires Configured() && DevicesBounded()
      modifies this, thread, Devices()
      ensures status == 0 && Configured() && DevicesBounded()
      ensures if old(status) > 0 then !activeStatus else activeStatus == old(activeStatus)
      ensures thread.numActive == old(thread.numActive) - (if old(status) > 0 && old(thread.numActive) > 0 then 1 else 0)
      ensures forall d | d in Devices() :: d.request == old(RequestAfter(0, d, d.request))
      ensures forall d | d in Devices() :: if old(status > 0 && d in device[status - 1]) then AppliedOn(d)
                                           else d.currentStatus == old(d.currentStatus)
    {
      hide LastAction;
      if status > 0 {
        ReleaseLevel();
        ApplyLevel(status);
        activeStatus := false;
        status := 0;
        thread.Deactivate();
      }
    }

    lemma InDevices(i: nat)
      requires i < |device|
      ensures forall d | d in device[i] :: d in Devices()
    {}

    /** The actions of a level are found in its devices' tables. */
    lemma ActionInTable(level: nat, d: Device)
      requires Configured() && 0 < level <= |device| && d in device[level - 1]
      ensures d.dummy || d.levels == 0 || LevelAction(level, d) < d.levels
    {
      LastActionUntouched<Device>(device[level - 1], actionInfo[level - 1], d, 0, 0);
    }

    /** Every device of the old level is asked for 0, and no other request changes. */
    method ReleaseLevel()
      requires Configured() && DevicesBounded()
      modifies Devices()`request
      ensures DevicesBounded()
      ensures forall d | d in Devices() ::
                d.request == if status > 0 && d in device[status - 1] then old(d.request)[name := 0] else old(d.request)
    {
      if status > 0 {
        InDevices(status - 1);
        Release(device[status - 1]);
      }
      forall d | d in Devices()
        ensures d.Bounded()
      {
        assert old(d.Bounded());
      }
    }

    /** Every device of the level is asked for its last action there, which is in its table. */
    method RequestLevel(level: nat)
      requires Configured() && DevicesBounded() && 0 < level <= |device|
      modifies Devices()`request
      ensures DevicesBounded()
      ensures forall d | d in Devices() ::
                d.request == if d in device[level - 1] then old(d.request)[name := LevelAction(level, d)] else old(d.request)
    {
      hide LastAction;
      InDevices(level - 1);
      Request(device[level - 1], actionInfo[level - 1]);
      forall d | d in Devices()
        ensures d.Bounded()
      {
        assert old(d.Bounded());
        if d in device[level - 1] {
          ActionInTable(level, d);
        }
      }
    }

    /** Every device of the level runs at its strongest request, and the status of no other changes. */
    method ApplyLevel(level: nat)
      requires Configured() && DevicesBounded() && level <= |device|
      modifies Devices()`currentStatus
      ensures DevicesBounded()
      ensures level > 0 ==> forall d | d in device[level - 1] :: AppliedOn(d)
      ensures forall d | d in Devices() && old(AppliedOn(d)) :: AppliedOn(d)
      ensures forall d | d in Devices() && !(level > 0 && d in device[level - 1]) :: d.currentStatus == old(d.currentStatus)
    {
      if level > 0 {
        InDevices(level - 1);
        ApplyAll(device[level - 1]);
      }
    }

    /** The branch of Monitor::decision for a new level above 0. */
    method MoveTo(newStatus: nat)
      requires Configured() && DevicesBounded() && 0 < newStatus <= |device| && newStatus != status
      modifies this`status, Devices()
      ensures status == newStatus && Configured() && DevicesBounded()
      ensures forall d | d in Devices() :: d.request == old(RequestAfter(newStatus, d, d.request))
      ensures forall d | d in device[newStatus - 1] || (old(status) > 0 && d in device[old(status) - 1]) :: AppliedOn(d)
      ensures forall d | d in Devices() && old(!Touched(newStatus, d)) :: d.currentStatus == old(d.currentStatus)
    {
      hide LastAction;
      InDevices(newStatus - 1);
      if status > 0 {
        InDevices(status - 1);
      }
      ReleaseLevel();
      RequestLevel(newStatus);
      ApplyLevel(status);
      ApplyLevel(newStatus);
      status := newStatus;
    }

    /** Monitor::decision. */
    method Decision(sensorTemp: int)
      requires Configured() && DevicesBounded()
      modifies this, thread, Devices()
      ensures Configured() && DevicesBounded()
      ensures status == old(NextStatus(thresholds, clears, status, if isNegative then -sensorTemp else sensorTemp))
      ensures forall d | d in Devices() :: d.request == old(RequestAfter(
        NextStatus(thresholds, clears, status, if isNegative then -sensorTemp else sensorTemp), d, d.request))
      ensures forall d | d in Devices() ::
                if old(Touched(NextStatus(thresholds, clears, status, if isNegative then -sensorTemp else sensorTemp), d))
                then AppliedOn(d) else d.currentStatus == old(d.currentStatus)
      ensures activeStatus == old(activeStatus && !(status > 0 && NextStatus(thresholds, clears, status,
                                                      if isNegative then -sensorTemp else sensorTemp) == 0))
      ensures thread.numActive == old(thread.numActive)
                                  - (if old(status) > 0 && status == 0 && old(thread.numActive) > 0 then 1 else 0)
      ensures old(AsksForLevel()) ==> AsksForLevel()
    {
      hide LastAction;
      var temp := if isNegative then -sensorTemp else sensorTemp;
      var newStatus: nat := 0;
      if status == 0 || (status < |thresholds| && temp >= thresholds[status]) {
        newStatus := CountLoop(thresholds, temp);
      } else if temp < clears[status - 1] {
        newStatus := CountLoop(clears, temp);
      } else {
        newStatus := status;
      }
      if newStatus != status {
        if newStatus == 0 {
          Deactivate();
        } else {
          MoveTo(newStatus);
        }
      }
      forall d | d in Devices() && old(AsksForLevel())
        ensures RequestOn(d) == LevelAction(status, d)
      {
        if old(status) > 0 {
          LastActionUntouched<Device>(device[old(status) - 1], actionInfo[old(status) - 1], d, 0, 0);
        }
        if newStatus > 0 {
          LastActionUntouched<Device>(device[newStatus - 1], actionInfo[newStatus - 1], d, 0, 0);
        }
      }
    }
  }
}
