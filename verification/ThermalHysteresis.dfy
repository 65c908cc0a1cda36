/** The multi-level hysteresis of Monitor::decision: which level follows from a temperature and the
    level before. */
module ThermalHysteresis {
  /** How many leading entries lie at or below temp: what the counting loops of the source compute. */
  function CountUpTo(ts: seq<int>, temp: int): (n: nat)
    ensures n <= |ts|
  {
    if ts == [] || ts[0] > temp then 0 else 1 + CountUpTo(ts[1..], temp)
  }

  lemma {:induction false} LeadingCount(ts: seq<int>, temp: int)
    ensures var n := CountUpTo(ts, temp);
            (forall i | 0 <= i < n :: ts[i] <= temp) && (n < |ts| ==> temp < ts[n])
  {
    if ts != [] && ts[0] <= temp {
      LeadingCount(ts[1..], temp);
      forall i | 0 <= i < CountUpTo(ts, temp)
        ensures ts[i] <= temp
      {
        if i > 0 {
          assert ts[i] == ts[1..][i - 1];
        }
      }
    }
  }

  method CountLoop(ts: seq<int>, temp: int) returns (newStatus: nat)
    ensures newStatus == CountUpTo(ts, temp)
    ensures newStatus <= |ts| && (forall i | 0 <= i < newStatus :: ts[i] <= temp)
    ensures newStatus < |ts| ==> temp < ts[newStatus]
  {
    LeadingCount(ts, temp);
    newStatus := 0;
    for i := 0 to |ts|
      invariant newStatus == i && CountUpTo(ts, temp) == i + CountUpTo(ts[i..], temp)
    {
      if ts[i] > temp {
        break;
      }
      assert ts[i..][1..] == ts[i + 1..];
      newStatus := newStatus + 1;
    }
  }

  /** The level chosen by the branches of Monitor::decision. (The source reads thresholds[status] before
      it compares status with the size; at status == size the comparison alone decides.) */
  function NextStatus(thresholds: seq<int>, clears: seq<int>, status: nat, temp: int): nat
    requires status <= |thresholds| == |clears|
  {
    if status == 0 || (status < |thresholds| && temp >= thresholds[status]) then CountUpTo(thresholds, temp)
    else if temp < clears[status - 1] then CountUpTo(clears, temp)
    else status
  }

  predicate Sorted(ts: seq<int>) { forall i, j | 0 <= i < j < |ts| :: ts[i] <= ts[j] }

  /** Sorted thresholds, each with a clear value at or below it. */
  predicate Hysteresis(thresholds: seq<int>, clears: seq<int>) {
    && |thresholds| == |clears| && Sorted(thresholds) && Sorted(clears)
    && forall i | 0 <= i < |thresholds| :: clears[i] <= thresholds[i]
  }

  function Clamp(status: nat, lo: nat, hi: nat): nat {
    if status < lo then lo else if status > hi then hi else status
  }

  /** On a sorted list the count splits it. */
  lemma {:induction false} CountSplits(ts: seq<int>, temp: int)
    requires Sorted(ts)
    ensures forall i | 0 <= i < |ts| :: ts[i] <= temp <==> i < CountUpTo(ts, temp)
  {
    if ts != [] {
      CountSplits(ts[1..], temp);
      forall i | 0 <= i < |ts|
        ensures ts[i] <= temp <==> i < CountUpTo(ts, temp)
      {
        if i > 0 {
          assert ts[i] == ts[1..][i - 1];
        }
      }
    }
  }

  /** Fewer thresholds than clear values lie below a temperature. */
  lemma ThresholdsBelowClears(thresholds: seq<int>, clears: seq<int>, temp: int)
    requires Hysteresis(thresholds, clears)
    ensures CountUpTo(thresholds, temp) <= CountUpTo(clears, temp)
  {
    CountSplits(thresholds, temp);
    CountSplits(clears, temp);
    var n := CountUpTo(thresholds, temp);
    if n > 0 {
      assert clears[n - 1] <= thresholds[n - 1] <= temp;
    }
  }

  /** The next level is the old one, forced between the two counts. */
  lemma NextIsClamp(thresholds: seq<int>, clears: seq<int>, status: nat, temp: int)
    requires Hysteresis(thresholds, clears) && status <= |thresholds|
    ensures NextStatus(thresholds, clears, status, temp)
            == Clamp(status, CountUpTo(thresholds, temp), CountUpTo(clears, temp))
  {
    CountSplits(thresholds, temp);
    CountSplits(clears, temp);
    ThresholdsBelowClears(thresholds, clears, temp);
  }

  /** A second decision at the same temperature changes nothing. */
  lemma Idempotent(thresholds: seq<int>, clears: seq<int>, status: nat, temp: int)
    requires Hysteresis(thresholds, clears) && status <= |thresholds|
    ensures var s := NextStatus(thresholds, clears, status, temp);
            s <= |thresholds| && NextStatus(thresholds, clears, s, temp) == s
  {
    var s := NextStatus(thresholds, clears, status, temp);
    NextIsClamp(thresholds, clears, status, temp);
    NextIsClamp(thresholds, clears, s, temp);
    ThresholdsBelowClears(thresholds, clears, temp);
  }

  /** Hotter never means a lower level, and neither does a higher level before. */
  lemma Monotone(thresholds: seq<int>, clears: seq<int>, s1: nat, s2: nat, t1: int, t2: int)
    requires Hysteresis(thresholds, clears) && s1 <= s2 <= |thresholds| && t1 <= t2
    ensures NextStatus(thresholds, clears, s1, t1) <= NextStatus(thresholds, clears, s2, t2)
  {
    NextIsClamp(thresholds, clears, s1, t1);
    NextIsClamp(thresholds, clears, s2, t2);
    ThresholdsBelowClears(thresholds, clears, t1);
    ThresholdsBelowClears(thresholds, clears, t2);
    CountMonotone(thresholds, t1, t2);
    CountMonotone(clears, t1, t2);
  }

  lemma {:induction false} CountMonotone(ts: seq<int>, t1: int, t2: int)
    requires t1 <= t2
    ensures CountUpTo(ts, t1) <= CountUpTo(ts, t2)
  {
    if ts != [] {
      CountMonotone(ts[1..], t1, t2);
    }
  }

  // ----- Runs -------------------------------------------------------------

  /** The level after a run of readings. */
  function Run(thresholds: seq<int>, clears: seq<int>, status: nat, temps: seq<int>): (s: nat)
    requires status <= |thresholds| == |clears|
    ensures s <= |thresholds|
    decreases |temps|
  {
    if temps == [] then status
    else NextStatus(thresholds, clears, Run(thresholds, clears, status, temps[..|temps| - 1]), temps[|temps| - 1])
  }

  /** As long as the readings stay in the band of the current level, the level stays. */
  lemma {:induction false} ConstantInBand(thresholds: seq<int>, clears: seq<int>, status: nat, temps: seq<int>)
    requires Hysteresis(thresholds, clears) && status <= |thresholds|
    requires forall t | t in temps :: CountUpTo(thresholds, t) <= status <= CountUpTo(clears, t)
    ensures Run(thresholds, clears, status, temps) == status
    decreases |temps|
  {
    if temps != [] {
      ConstantInBand(thresholds, clears, status, temps[..|temps| - 1]);
      NextIsClamp(thresholds, clears, status, temps[|temps| - 1]);
    }
  }

  /** However the readings got there, the level lies between the counts of the last one; and between
      two starting levels that run through the same readings the order is never inverted. */
  lemma {:induction false} RunBounds(thresholds: seq<int>, clears: seq<int>, s1: nat, s2: nat, temps: seq<int>)
    requires Hysteresis(thresholds, clears) && s1 <= s2 <= |thresholds| && temps != []
    ensures var last := temps[|temps| - 1];
            CountUpTo(thresholds, last) <= Run(thresholds, clears, s1, temps)
            <= Run(thresholds, clears, s2, temps) <= CountUpTo(clears, last)
    decreases |temps|
  {
    var (front, last) := (temps[..|temps| - 1], temps[|temps| - 1]);
    if front != [] {
      RunBounds(thresholds, clears, s1, s2, front);
    }
    var (r1, r2) := (Run(thresholds, clears, s1, front), Run(thresholds, clears, s2, front));
    NextIsClamp(thresholds, clears, r1, last);
    NextIsClamp(thresholds, clears, r2, last);
    ThresholdsBelowClears(thresholds, clears, last);
    Monotone(thresholds, clears, r1, r2, last, last);
  }
}
