// ExtendedSensor's scan-rate limiter, and UnreachableTargetSensor's
// record of the last time the brain owner could not path to its target.
module Sensors {
  import opened Wrappers
  import opened Domain
  import opened Brains
  import opened BrainUtilities

  /** The default scan rate, in ticks. */
  const DEFAULT_SCAN_RATE: int := 20

  /** One scan: the game time doTick ran at, and the scan rate sampled for it. */
  datatype Scan = Scan(time: int, rate: int)

  /** Each scan ran strictly after the next tick time the previous one set. */
  ghost predicate Spaced(scans: seq<Scan>) {
    forall i :: 0 < i < |scans| ==> scans[i - 1].time + scans[i - 1].rate < scans[i].time
  }

  /** With non-negative rates, any two scans are more than the earlier one's rate apart. */
  lemma {:induction false} SpacedScansApart(scans: seq<Scan>, i: nat, j: nat)
    requires Spaced(scans) && forall k :: 0 <= k < |scans| ==> 0 <= scans[k].rate
    requires i < j < |scans|
    ensures scans[i].time + scans[i].rate < scans[j].time
  {
    if j > i + 1 {
      SpacedScansApart(scans, i, j - 1);
      assert scans[j - 1].time + scans[j - 1].rate < scans[j].time;
    }
  }

  class ExtendedSensor {
    /** memoriesUsed(): the memory types the sensor writes. */
    const memoriesUsed: seq<MemoryType>
    var nextTickTime: int
    /** Every scan so far, oldest first: each ran doTick once and then the scan callback once. */
    var scans: seq<Scan>

    ghost predicate Valid()
      reads this
    {
      Spaced(scans) &&
      (|scans| == 0 ==> nextTickTime == 0) &&
      (|scans| > 0 ==> 0 < scans[0].time && nextTickTime == scans[|scans| - 1].time + scans[|scans| - 1].rate)
    }

    /** A new sensor: the next tick time starts at 0 and nothing has been scanned. */
    constructor (memoriesUsed: seq<MemoryType>)
      ensures Valid() && this.memoriesUsed == memoriesUsed && nextTickTime == 0 && scans == []
    {
      this.memoriesUsed := memoriesUsed;
      nextTickTime := 0;
      scans := [];
    }

    /**
     * tick: scans only once the next tick time has passed, and then sets
     * the next tick time `rate` ticks (the sampled scan rate) ahead.
     */
    method Tick(gameTime: int, rate: int) returns (scanned: bool)
      requires Valid()
      modifies this
      ensures Valid()
      ensures scanned <==> old(nextTickTime) < gameTime
      ensures scanned ==> nextTickTime == gameTime + rate && scans == old(scans) + [Scan(gameTime, rate)]
      ensures !scanned ==> nextTickTime == old(nextTickTime) && scans == old(scans)
    {
      scanned := nextTickTime < gameTime;
      if scanned {
        nextTickTime := gameTime + rate;
        scans := scans + [Scan(gameTime, rate)];
      }
    }

    /** requires: the set of the memory types used. */
    function Requires(): (r: set<MemoryType>)
      ensures forall t :: t in r <==> t in memoriesUsed
    {
      set t | t in memoriesUsed
    }
  }

  /** UnreachableTargetSensor's memory list. */
  const UNREACHABLE_TARGET_MEMORIES: seq<MemoryType> := [CantReachWalkTargetSince, AttackTarget, TargetUnreachable]

  /** What one scan does to the TARGET_UNREACHABLE memory. */
  datatype FlagUpdate = KeepFlag | ClearFlag | SetFlag(above: bool)

  /** The TARGET_UNREACHABLE value after an update. */
  function FlagAfter(before: Option<Value>, u: FlagUpdate): (r: Option<Value>)
    ensures u.KeepFlag? ==> r == before
    ensures u.ClearFlag? ==> r == None
    ensures u.SetFlag? ==> r == Some(FlagValue(u.above))
  {
    match u
    case KeepFlag => before
    case ClearFlag => None
    case SetFlag(above) => Some(FlagValue(above))
  }

  /** The CANT_REACH_WALK_TARGET_SINCE time the memories hold, if any. */
  function SinceOf(m: Memories): (r: Option<int>)
    ensures r.Some? <==> ValueOf(m, CantReachWalkTargetSince).Some? && ValueOf(m, CantReachWalkTargetSince).value.TimeValue?
    ensures r.Some? ==> r.value == ValueOf(m, CantReachWalkTargetSince).value.time
  {
    var v := ValueOf(m, CantReachWalkTargetSince);
    if v.Some? && v.value.TimeValue? then Some(v.value.time) else None
  }

  /**
   * One scan of UnreachableTargetSensor, from the last recorded time, whether
   * there is a target, the time the owner has been unable to reach it since,
   * and whether the target is above the owner's eyes: the new recorded time
   * and the update to TARGET_UNREACHABLE.
   */
  function UnreachableStep(last: int, hasTarget: bool, since: Option<int>, above: bool): (r: (int, FlagUpdate))
    // no target or no time: the state is reset, and the flag cleared only if a time had been recorded
    ensures !hasTarget || since.None? ==> r.0 == 0 && (r.1.ClearFlag? <==> 0 < last) && !r.1.SetFlag?
    // the first time observed is only recorded
    ensures hasTarget && since.Some? && last == 0 ==> r == (since.value, KeepFlag)
    // a time seen again means the owner is not being newly blocked: the flag is cleared
    ensures hasTarget && since.Some? && last != 0 && since.value == last ==> r == (last, ClearFlag)
    // a newer time is recorded, and the flag says whether the target is above
    ensures hasTarget && since.Some? && last != 0 && since.value > last ==> r == (since.value, SetFlag(above))
    // an older time changes nothing
    ensures hasTarget && since.Some? && last != 0 && since.value < last ==> r == (last, KeepFlag)
  {
    if !hasTarget || since.None? then
      (0, if last > 0 then ClearFlag else KeepFlag)
    else if last == 0 then
      (since.value, KeepFlag)
    else if last == since.value then
      (last, ClearFlag)
    else if last < since.value then
      (since.value, SetFlag(above))
    else
      (last, KeepFlag)
  }

  /** One scan's inputs. */
  datatype Observation = Observation(hasTarget: bool, since: Option<int>, above: bool)

  /** The recorded time after a run of scans. */
  function LastAfter(last: int, obs: seq<Observation>): (r: int)
    decreases |obs|
  {
    if |obs| == 0 then last
    else LastAfter(UnreachableStep(last, obs[0].hasTarget, obs[0].since, obs[0].above).0, obs[1..])
  }

  /**
   * Between resets the recorded time never goes down: after a run of scans
   * that each saw a target and a time, it is at least what it was (once a
   * time is recorded).
   */
  lemma {:induction false} LastNeverDecreases(last: int, obs: seq<Observation>)
    requires 0 < last
    requires forall i :: 0 <= i < |obs| ==> obs[i].hasTarget && obs[i].since.Some?
    ensures last <= LastAfter(last, obs)
    decreases |obs|
  {
    if |obs| > 0 {
      var next := UnreachableStep(last, obs[0].hasTarget, obs[0].since, obs[0].above).0;
      assert last <= next;
      LastNeverDecreases(next, obs[1..]);
    }
  }

  /** Two memory tables hold the same values (registrations aside). */
  ghost predicate SameValues(a: Memories, b: Memories) {
    forall t :: ValueOf(a, t) == ValueOf(b, t)
  }

  /** Two memory tables hold the same values for every type outside xs. */
  ghost predicate SameValuesOutside(a: Memories, b: Memories, xs: set<MemoryType>) {
    forall t :: t !in xs ==> ValueOf(a, t) == ValueOf(b, t)
  }

  /** The entity a memory holds, if it holds one. */
  function EntityOf(m: Memories, t: MemoryType): (r: Option<EntityId>)
    ensures r.Some? <==> ValueOf(m, t).Some? && ValueOf(m, t).value.EntityValue?
    ensures r.Some? ==> ValueOf(m, t) == Some(EntityValue(r.value))
  {
    var v := ValueOf(m, t);
    if v.Some? && v.value.EntityValue? then Some(v.value.entity) else None
  }

  /** BrainUtils.getMemory on a SmartBrain: the value held; the type is registered and no value changes. */
  method ReadMemory(brain: SmartBrain, t: MemoryType) returns (v: Option<Value>)
    requires brain.Valid()
    modifies brain`memories
    ensures brain.Valid() && (old(brain.ExpiryTracked()) ==> brain.ExpiryTracked())
    ensures v == ValueOf(old(brain.memories), t) && SameValues(brain.memories, old(brain.memories))
  {
    ghost var m0 := brain.memories;
    v := GetMemory(brain, t);
    RegisteredKeepsValues(m0, [t]);
  }

  class UnreachableTargetSensor {
    const sensor: ExtendedSensor
    var lastUnpathableTime: int

    constructor ()
      ensures fresh(sensor) && sensor.Valid() && sensor.memoriesUsed == UNREACHABLE_TARGET_MEMORIES
      ensures sensor.nextTickTime == 0 && sensor.scans == [] && lastUnpathableTime == 0
    {
      sensor := new ExtendedSensor(UNREACHABLE_TARGET_MEMORIES);
      lastUnpathableTime := 0;
    }

    /** resetState: clears TARGET_UNREACHABLE only when a time had been recorded; forgets the time. */
    method ResetState(brain: SmartBrain)
      requires brain.Valid()
      modifies this`lastUnpathableTime, brain`memories, brain`expirable
      ensures brain.Valid() && (old(brain.ExpiryTracked()) ==> brain.ExpiryTracked())
      ensures lastUnpathableTime == 0
      ensures ValueOf(brain.memories, TargetUnreachable) ==
        FlagAfter(ValueOf(old(brain.memories), TargetUnreachable), if 0 < old(lastUnpathableTime) then ClearFlag else KeepFlag)
      ensures SameValuesOutside(brain.memories, old(brain.memories), {TargetUnreachable})
    {
      if lastUnpathableTime > 0 {
        ClearMemory(brain, TargetUnreachable);
      }
      lastUnpathableTime := 0;
    }

    /** getMemory(CANT_REACH_WALK_TARGET_SINCE), as a time: registers the type and changes no value. */
    method ReadSince(brain: SmartBrain) returns (since: Option<int>)
      requires brain.Valid()
      modifies brain`memories
      ensures brain.Valid() && (old(brain.ExpiryTracked()) ==> brain.ExpiryTracked())
      ensures since == SinceOf(old(brain.memories)) && SameValues(brain.memories, old(brain.memories))
    {
      var held := ReadMemory(brain, CantReachWalkTargetSince);
      since := if held.Some? && held.value.TimeValue? then Some(held.value.time) else None;
    }

    /** The three-way comparison of a time observed with the one recorded. */
    method Record(brain: SmartBrain, unpathableTime: int, above: bool)
      requires brain.Valid()
      modifies this`lastUnpathableTime, brain`memories, brain`expirable
      ensures brain.Valid() && (old(brain.ExpiryTracked()) ==> brain.ExpiryTracked())
      ensures var step := UnreachableStep(old(lastUnpathableTime), true, Some(unpathableTime), above);
        lastUnpathableTime == step.0 &&
        ValueOf(brain.memories, TargetUnreachable) == FlagAfter(ValueOf(old(brain.memories), TargetUnreachable), step.1)
      ensures SameValuesOutside(brain.memories, old(brain.memories), {TargetUnreachable})
    {
      if lastUnpathableTime == 0 {
        lastUnpathableTime := unpathableTime;
      } else if lastUnpathableTime == unpathableTime {
        ClearMemory(brain, TargetUnreachable);
      } else if lastUnpathableTime < unpathableTime {
        lastUnpathableTime := unpathableTime;
        SetMemory(brain, TargetUnreachable, FlagValue(above));
      }
    }

    /**
     * doTick: TARGET_UNREACHABLE and the recorded time change as
     * UnreachableStep says; no other memory's value changes.
     */
    method DoTick(brain: SmartBrain, above: bool)
      requires brain.Valid()
      modifies this`lastUnpathableTime, brain`memories, brain`expirable
      ensures brain.Valid() && (old(brain.ExpiryTracked()) ==> brain.ExpiryTracked())
      ensures var step := UnreachableStep(old(lastUnpathableTime),
          ValueOf(old(brain.memories), AttackTarget).Some?, SinceOf(old(brain.memories)), above);
        lastUnpathableTime == step.0 &&
        ValueOf(brain.memories, TargetUnreachable) == FlagAfter(ValueOf(old(brain.memories), TargetUnreachable), step.1)
      ensures SameValuesOutside(brain.memories, old(brain.memories), {TargetUnreachable})
    {
      ghost var m0 := brain.memories;
      var target := GetTargetOfEntity(brain, None);
      RegisteredKeepsValues(m0, [AttackTarget]);
      assert SameValues(brain.memories, m0);
      if target.None? {
        ResetState(brain);
        return;
      }
      var since := ReadSince(brain);
      if since.None? {
        ResetState(brain);
        return;
      }
      Record(brain, since.value, above);
    }

    /** The sensor's tick: doTick runs exactly on the scans the rate limiter lets through. */
    method Tick(brain: SmartBrain, gameTime: int, rate: int, above: bool) returns (scanned: bool)
      requires brain.Valid() && sensor.Valid()
      modifies sensor, this`lastUnpathableTime, brain`memories, brain`expirable
      ensures brain.Valid() && sensor.Valid() && (old(brain.ExpiryTracked()) ==> brain.ExpiryTracked())
      ensures scanned <==> old(sensor.nextTickTime) < gameTime
      ensures scanned ==>
        sensor.scans == old(sensor.scans) + [Scan(gameTime, rate)] &&
        lastUnpathableTime == UnreachableStep(old(lastUnpathableTime),
          ValueOf(old(brain.memories), AttackTarget).Some?, SinceOf(old(brain.memories)), above).0
      ensures !scanned ==>
        sensor.scans == old(sensor.scans) && lastUnpathableTime == old(lastUnpathableTime) &&
        brain.memories == old(brain.memories)
      ensures SameValuesOutside(brain.memories, old(brain.memories), {TargetUnreachable})
    {
      scanned := sensor.Tick(gameTime, rate);
      if scanned {
        DoTick(brain, above);
      }
    }
  }
}
