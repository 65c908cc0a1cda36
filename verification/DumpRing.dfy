/** Retention of crash dump directories (cpboot_v3/Log.cpp, organize_dump_files): a ring of 21 directories of which the
    most recent few are kept. */
module DumpRing {
  import opened Common

  const MAX_DUMP_INDEX: int := 20
  const SLOTS: int := 21

  /** How many dumps ago a slot was written, when the current one is `index`. */
  function Age(index: int, slot: int): (a: nat)
    requires 0 <= index < SLOTS && 0 <= slot < SLOTS
    ensures a < SLOTS
  {
    if slot <= index then index - slot else index + SLOTS - slot
  }

  lemma AgeIsModular(index: int)
    requires 0 <= index < SLOTS
    ensures forall slot :: 0 <= slot < SLOTS ==> Age(index, slot) == (index - slot) % 21
  {}

  /** The configured limit, or the largest one if it is not usable. */
  function Allowed(limit: int): (b: int)
    ensures 1 <= b <= MAX_DUMP_INDEX
  {
    if limit > MAX_DUMP_INDEX || limit < 1 then MAX_DUMP_INDEX else limit
  }

  function Next(index: int): int {
    if index == MAX_DUMP_INDEX then 0 else index + 1
  }

  /** The directories of the most recent dumps. */
  function Recent<T>(dirs: map<int, T>, index: int, keep: int): map<int, T>
    requires 0 <= index < SLOTS && InRing(dirs)
  {
    map s | s in dirs && Age(index, s) < keep :: dirs[s]
  }

  predicate InRing<T>(dirs: map<int, T>) {
    forall s :: s in dirs ==> 0 <= s < SLOTS
  }

  /** Those are the ones written fewer than `keep` dumps ago. */
  lemma KeepsYoung<T>(dirs: map<int, T>, index: int, keep: int)
    requires 0 <= index < SLOTS && InRing(dirs)
    ensures forall s :: s in Recent(dirs, index, keep) <==> s in dirs && (index - s) % 21 < keep
    ensures forall s :: s in Recent(dirs, index, keep) ==> Recent(dirs, index, keep)[s] == dirs[s]
  {
    AgeIsModular(index);
    hide Age;
  }

  class Log<T> {
    var indexProperty: int
    var limitProperty: int
    var dirs: map<int, T>

    predicate Valid()
      reads this
    {
      0 <= indexProperty < SLOTS && InRing(dirs)
    }

    /** organize_dump_files: a limit from 1 to 20 is kept, any other becomes 20; a slot written fewer dumps ago than the
        limit keeps its directory, and no other does. */
    method OrganizeDumpFiles() returns (ghost steps: nat)
      requires Valid()
      modifies this
      ensures Valid()
      ensures limitProperty == if 1 <= old(limitProperty) <= 20 then old(limitProperty) else 20
      ensures forall s :: s in dirs <==> s in old(dirs) && (old(indexProperty) - s) % 21 < limitProperty
      ensures forall s :: s in dirs ==> dirs[s] == old(dirs)[s]
      ensures indexProperty == (old(indexProperty) + 1) % 21
      ensures dirs == Recent(old(dirs), old(indexProperty), Allowed(old(limitProperty)))
      ensures steps == SLOTS - limitProperty
    {
      hide Recent, Age;
      var current := indexProperty;
      var allowed := limitProperty;
      if allowed > MAX_DUMP_INDEX || allowed < 1 {
        limitProperty := MAX_DUMP_INDEX;
        allowed := MAX_DUMP_INDEX;
      }
      var removal :=
        if current < allowed then MAX_DUMP_INDEX + current - allowed + 1 else current - allowed;
      steps := RemoveDirectories(current, allowed, removal);
      KeepsYoung(old(dirs), current, allowed);
      indexProperty := if current == MAX_DUMP_INDEX then 0 else current + 1;
    }

    /** Its loop: goes round the ring down to the current slot, removing what it passes. */
    method RemoveDirectories(current: int, allowed: int, start: int) returns (ghost steps: nat)
      requires Valid() && 0 <= current < SLOTS && 1 <= allowed <= MAX_DUMP_INDEX && start == First(current, allowed)
      modifies this`dirs
      ensures Valid() && dirs == Recent(old(dirs), current, allowed)
      ensures steps == SLOTS - allowed && current == BackBy(First(current, allowed), steps)
    {
      hide BackBy;
      var removal := start;
      steps := 0;
      NoneBack(start);
      while removal != current
        invariant 0 <= removal < SLOTS && InRing(dirs)
        invariant allowed + steps == if removal == current then SLOTS else Age(current, removal)
        invariant allowed + steps <= SLOTS && removal == BackBy(start, steps)
        invariant forall s :: s in dirs <==> s in old(dirs) && !(allowed <= Age(current, s) < allowed + steps)
        invariant forall s :: s in dirs ==> dirs[s] == old(dirs)[s]
        decreases SLOTS - steps - allowed
      {
        dirs := dirs - {removal};
        OneBack(start, steps);
        if removal != 0 {
          removal := removal - 1;
        } else {
          removal := MAX_DUMP_INDEX;
        }
        steps := steps + 1;
      }
      ghost var recent := Recent(old(dirs), current, allowed);
      assert forall s :: s in dirs <==> s in recent;
      assert dirs == recent;
    }
  }

  // ----- When the loop ends -----------------------------------------------

  /** Where the loop starts, for any value of the index property. */
  function First(index: int, allowed: int): int {
    if index < allowed then MAX_DUMP_INDEX + index - allowed + 1 else index - allowed
  }

  /** One step round the ring. */
  function Back(removal: int): int {
    if removal != 0 then removal - 1 else MAX_DUMP_INDEX
  }

  function BackBy(removal: int, n: nat): int
    decreases n
  {
    if n == 0 then removal else BackBy(Back(removal), n - 1)
  }

  lemma NoneBack(removal: int)
    ensures BackBy(removal, 0) == removal
  {}

  lemma {:induction false} OneBack(removal: int, n: nat)
    ensures BackBy(removal, n + 1) == Back(BackBy(removal, n))
    decreases n
  {
    if n > 0 {
      OneBack(Back(removal), n - 1);
    }
  }

  lemma {:induction false} DownTo(from: int, n: nat)
    requires from < 0 || n <= from
    ensures BackBy(from, n) == from - n
    decreases n
  {
    if n > 0 {
      DownTo(from - 1, n - 1);
    }
  }

  lemma {:induction false} StaysUp(from: int, n: nat)
    requires from >= 0
    ensures 0 <= BackBy(from, n) <= Max(from, MAX_DUMP_INDEX)
    decreases n
  {
    if n > 0 {
      StaysUp(Back(from), n - 1);
    }
  }

  lemma {:induction false} ThroughZero(from: nat, to: nat)
    requires from < to <= MAX_DUMP_INDEX
    ensures BackBy(from, from + SLOTS - to) == to
  {
    if from == 0 {
      DownTo(MAX_DUMP_INDEX, MAX_DUMP_INDEX - to);
    } else {
      ThroughZero(from - 1, to);
    }
  }

  /** The loop reaches the current index exactly when the index lies in the ring, or so far below it that the slots it
      passes have no directories. */
  lemma LoopEnds(index: int, allowed: int)
    requires 1 <= allowed <= MAX_DUMP_INDEX
    ensures (exists n: nat :: BackBy(First(index, allowed), n) == index) <==>
            0 <= index <= MAX_DUMP_INDEX || index < allowed - SLOTS
  {
    var from := First(index, allowed);
    if 0 <= index <= MAX_DUMP_INDEX {
      if index < allowed {
        DownTo(from, from - index);
        assert BackBy(from, from - index) == index;
      } else {
        ThroughZero(from, index);
        assert BackBy(from, from + SLOTS - index) == index;
      }
    } else if index < allowed - SLOTS {
      DownTo(from, from - index);
      assert BackBy(from, from - index) == index;
    } else {
      forall n: nat
        ensures BackBy(from, n) != index
      {
        StaysUp(from, n);
      }
    }
  }

  /** From index 21 with five dumps allowed the loop goes round the ring for ever. */
  lemma LoopExample(n: nat)
    ensures BackBy(First(21, 5), n) != 21
  {
    StaysUp(First(21, 5), n);
  }

  // ----- Runs -------------------------------------------------------------

  /** After dump number `count` (counted from 0) the ring holds the last `kept` dumps, dump j in slot j mod 21. */
  ghost predicate HoldsLast(dirs: map<int, nat>, index: int, count: nat, kept: nat) {
    && kept <= count && kept <= MAX_DUMP_INDEX
    && index == count % SLOTS
    && InRing(dirs)
    && (forall s :: s in dirs <==> 0 <= s < SLOTS && 1 <= Age(index, s) <= kept)
    && (forall s :: s in dirs ==> dirs[s] == count - Age(index, s))
  }

  /** One dump is written to the current slot and the ring is organised. */
  function Dump(dirs: map<int, nat>, index: int, count: nat, limit: int): map<int, nat>
    requires 0 <= index < SLOTS && InRing(dirs)
  {
    Recent(dirs[index := count], index, Allowed(limit))
  }

  lemma NextIsModular(count: nat)
    ensures Next(count % SLOTS) == (count + 1) % SLOTS
  {}

  lemma AgeGrows(index: int, s: int)
    requires 0 <= index < SLOTS && 0 <= s < SLOTS
    ensures Age(Next(index), s) == if s == Next(index) then 0 else Age(index, s) + 1
  {}

  /** The step: one more dump is kept unless the limit is reached, the slot for the next dump is free, and no dump is
      overwritten. */
  lemma DumpKeepsLast(dirs: map<int, nat>, index: int, count: nat, kept: nat, limit: int)
    requires HoldsLast(dirs, index, count, kept)
    ensures index !in dirs
    ensures HoldsLast(Dump(dirs, index, count, limit), Next(index), count + 1, Min(kept + 1, Allowed(limit)))
    ensures Next(index) !in Dump(dirs, index, count, limit)
  {
    NextIsModular(count);
    var dirs', index' := Dump(dirs, index, count, limit), Next(index);
    forall s
      ensures s in dirs' <==> 0 <= s < SLOTS && 1 <= Age(index', s) <= Min(kept + 1, Allowed(limit))
      ensures s in dirs' ==> dirs'[s] == count + 1 - Age(index', s)
    {
      if 0 <= s < SLOTS {
        AgeGrows(index, s);
      }
    }
  }

  /** All dumps of a run, with the limit configured at each. */
  function Run(limits: seq<int>): (map<int, nat>, int)
    ensures 0 <= Run(limits).1 < SLOTS && InRing(Run(limits).0)
  {
    if limits == [] then (map[], 0)
    else
      var (dirs, index) := Run(limits[..|limits| - 1]);
      (Dump(dirs, index, |limits| - 1, limits[|limits| - 1]), Next(index))
  }

  /** How many dumps are left: every limit of the run has had its say. */
  function Kept(limits: seq<int>): nat {
    if limits == [] then 0 else Min(Kept(limits[..|limits| - 1]) + 1, Allowed(limits[|limits| - 1]))
  }

  lemma {:induction false} RunHoldsLast(limits: seq<int>)
    ensures HoldsLast(Run(limits).0, Run(limits).1, |limits|, Kept(limits))
    ensures Run(limits).1 !in Run(limits).0
  {
    hide HoldsLast, Dump;
    if limits == [] {
      EmptyRing();
    } else {
      var before := limits[..|limits| - 1];
      RunHoldsLast(before);
      DumpKeepsLast(Run(before).0, Run(before).1, |before|, Kept(before), limits[|limits| - 1]);
    }
  }

  lemma EmptyRing()
    ensures HoldsLast(map[], 0, 0, 0)
  {}

  /** With one limit throughout, exactly that many of the latest dumps are there, or all if there are fewer. */
  lemma {:induction false} SteadyLimit(limits: seq<int>, limit: int)
    requires forall i :: 0 <= i < |limits| ==> limits[i] == limit
    ensures 1 <= limit <= 20 ==> Kept(limits) == Min(|limits|, limit)
    ensures !(1 <= limit <= 20) ==> Kept(limits) == Min(|limits|, 20)
  {
    if limits != [] {
      SteadyLimit(limits[..|limits| - 1], limit);
    }
  }
}
