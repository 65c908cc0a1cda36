/** Devices of the thermal daemon: every algorithm holds one request on a device, and the device runs
    at the strongest of them. */
module ThermalDevice {
  import opened Common

  /** The strongest request, 0 when there is none. */
  ghost function Lowest(request: map<string, int>): int
    decreases |request|
  {
    if request == map[] then 0 else
    var k :| k in request;
    Max(request[k], Lowest(request - {k}))
  }

  lemma PickOne(request: map<string, int>) returns (k: string)
    requires request != map[]
    ensures k in request && Lowest(request) == Max(request[k], Lowest(request - {k}))
  {
    k :| k in request && Lowest(request) == Max(request[k], Lowest(request - {k}));
  }

  lemma {:induction false} LowestIsMax(request: map<string, int>)
    ensures Lowest(request) >= 0
    ensures forall k | k in request :: request[k] <= Lowest(request)
    ensures Lowest(request) == 0 || exists k :: k in request && request[k] == Lowest(request)
    decreases |request|
  {
    hide Lowest;
    if request != map[] {
      var k := PickOne(request);
      var rest := request - {k};
      LowestIsMax(rest);
      assert forall j | j in request :: j == k || (j in rest && rest[j] == request[j]);
      if Lowest(request) != request[k] && Lowest(request) != 0 {
        var j :| j in rest && rest[j] == Lowest(rest);
        assert j in request && request[j] == Lowest(request);
      }
    } else {
      assert Lowest(request) == 0 by { NoRequests(); }
    }
  }

  lemma NoRequests()
    ensures Lowest(map[]) == 0
  {}

  /** Only one number is the maximum of 0 and the requests. */
  lemma LowestUnique(request: map<string, int>, v: int)
    requires v >= 0 && (forall k | k in request :: request[k] <= v)
    requires v == 0 || exists k :: k in request && request[k] == v
    ensures v == Lowest(request)
  {
    LowestIsMax(request);
  }

  class Device {
    var request: map<string, int>
    var currentStatus: int
    const levels: nat
    const dummy: bool

    constructor (levels: nat, dummy: bool)
      ensures request == map[] && currentStatus == 0 && this.levels == levels && this.dummy == dummy
    {
      this.levels, this.dummy := levels, dummy;
      request, currentStatus := map[], 0;
    }

    /** Applying the requests finds a level in the table; a dummy device has no table, and an empty one is skipped. */
    ghost predicate InTable()
      reads this
    {
      dummy || levels == 0 || Lowest(request) < levels
    }

    /** Every single request is a level of the table. */
    ghost predicate Bounded()
      reads this
    {
      dummy || levels == 0 || forall k | k in request :: request[k] < levels
    }

    lemma BoundedIsInTable()
      requires Bounded()
      ensures InTable()
    {
      LowestIsMax(request);
    }

    /** The status the device has been told to take is the strongest request. */
    ghost predicate Settled()
      reads this
    {
      currentStatus == Lowest(request)
    }

    method GetLowestStatus() returns (i: int)
      ensures i == Lowest(request)
    {
      i := 0;
      var rest := request.Keys;
      while rest != {}
        invariant rest <= request.Keys && i >= 0
        invariant forall k | k in request && k !in rest :: request[k] <= i
        invariant i == 0 || exists k :: k in request && request[k] == i
        decreases |rest|
      {
        var k :| k in rest;
        if request[k] > i {
          i := request[k];
        }
        rest := rest - {k};
      }
      LowestUnique(request, i);
    }

    method DeviceControl(algoName: string, action: int)
      modifies this`request
      ensures request == old(request)[algoName := action]
    {
      request := request[algoName := action];
    }

    method StatusApply()
      requires InTable()
      modifies this`currentStatus
      ensures currentStatus == if !dummy && levels == 0 then old(currentStatus) else Lowest(request)
    {
      var i := GetLowestStatus();
      if !dummy && levels == 0 {
        return;
      }
      if currentStatus != i {
        currentStatus := i;
      }
    }
  }
}
