// BrainUtils: the static helpers, as they act on a SmartBrain's memory
// store, sensor list and schedule.
module BrainUtilities {
  import opened Wrappers
  import opened Domain
  import opened Schedules
  import opened BrainRules
  import opened Brains

  /** A Mob's own (non-brain) attack target, which setTargetOfEntity keeps in step with ATTACK_TARGET. */
  class Mob {
    var target: Option<EntityId>

    constructor ()
      ensures target == None
    {
      target := None;
    }
  }

  /** The store after erasing each listed type: listed types become empty (registering them), the rest are kept. */
  function Cleared(m: Memories, ts: seq<MemoryType>): (r: Memories)
    ensures forall t :: t in ts ==> t in r && r[t] == None
    ensures forall t :: t !in ts ==> (t in r <==> t in m) && (t in m ==> r[t] == m[t])
  {
    map t | t in m.Keys + (set x | x in ts) :: if t in ts then None else m[t]
  }

  /** The store after registering each listed type: unknown types become empty, values held are kept. */
  function Registering(m: Memories, ts: seq<MemoryType>): (r: Memories)
    ensures forall t :: t in m ==> t in r && r[t] == m[t]
    ensures forall t :: t in ts && t !in m ==> t in r && r[t] == None
    ensures forall t :: t in r ==> t in m || t in ts
  {
    map t | t in m.Keys + (set x | x in ts) :: if t in m then m[t] else None
  }

  lemma ClearedSnoc(m: Memories, ts: seq<MemoryType>, t: MemoryType)
    ensures Cleared(m, ts + [t]) == Cleared(m, ts)[t := None]
  {
  }

  lemma RegisteringSnoc(m: Memories, ts: seq<MemoryType>, t: MemoryType)
    ensures Registering(m, ts + [t]) == Registering(Registering(m, ts), [t])
  {
  }

  /** After clearMemories every listed memory is registered with no value. */
  lemma ClearedAbsent(m: Memories, ts: seq<MemoryType>, t: MemoryType)
    requires t in ts
    ensures CheckMemory(Cleared(m, ts), t, ValueAbsent) && !CheckMemory(Cleared(m, ts), t, ValuePresent)
    ensures ValueOf(Cleared(m, ts), t) == None
  {
  }

  /** Clearing twice is clearing once. */
  lemma ClearedIdempotent(m: Memories, ts: seq<MemoryType>)
    ensures Cleared(Cleared(m, ts), ts) == Cleared(m, ts)
  {
  }

  /** addMemories changes no value: every query answers as before, and each listed type is registered. */
  lemma RegisteredKeepsValues(m: Memories, ts: seq<MemoryType>)
    ensures forall t :: ValueOf(Registering(m, ts), t) == ValueOf(m, t)
    ensures forall t :: t in ts ==> CheckMemory(Registering(m, ts), t, Registered)
  {
  }

  /** memoryOrDefault: the value held, or the fallback when there is none; the type is registered as a side effect. */
  method MemoryOrDefault(brain: SmartBrain, t: MemoryType, fallback: Value) returns (v: Value)
    requires brain.Valid()
    modifies brain`memories
    ensures brain.Valid() && (old(brain.ExpiryTracked()) ==> brain.ExpiryTracked())
    ensures brain.memories == Registering(old(brain.memories), [t])
    ensures v == GetOrElse(ValueOf(old(brain.memories), t), fallback)
  {
    var held := brain.GetMemory(t);
    v := GetOrElse(held, fallback);
  }

  /** getMemory: null (None) exactly when no value is held. */
  method GetMemory(brain: SmartBrain, t: MemoryType) returns (v: Option<Value>)
    requires brain.Valid()
    modifies brain`memories
    ensures brain.Valid() && (old(brain.ExpiryTracked()) ==> brain.ExpiryTracked())
    ensures brain.memories == Registering(old(brain.memories), [t])
    ensures v.None? <==> !(t in old(brain.memories) && old(brain.memories)[t].Some?)
    ensures v.Some? ==> v.value == old(brain.memories)[t].value.value
  {
    v := brain.GetMemory(t);
  }

  /** hasMemory: a value is held, which is when getMemory would not answer null. */
  function HasMemory(brain: SmartBrain, t: MemoryType): (b: bool)
    reads brain
    ensures b <==> ValueOf(brain.memories, t).Some?
  {
    CheckMemory(brain.memories, t, ValuePresent)
  }

  /** setMemory: stores a value that never expires (an empty list is stored as absent). */
  method SetMemory(brain: SmartBrain, t: MemoryType, v: Value)
    requires brain.Valid()
    modifies brain`memories, brain`expirable
    ensures brain.Valid() && (old(brain.ExpiryTracked()) ==> brain.ExpiryTracked())
    ensures brain.memories == old(brain.memories)[t := Stored(Some(Expirable(v, LONG_MAX_VALUE)))]
    ensures brain.expirable == old(brain.expirable)
    ensures ValueOf(brain.memories, t) == if IsEmptyCollection(v) then None else Some(v)
  {
    brain.SetMemoryInternal(t, Some(Expirable(v, LONG_MAX_VALUE)));
  }

  /** setForgettableMemory: stores a value that expires after `ticks`, listing it for expiry. */
  method SetForgettableMemory(brain: SmartBrain, t: MemoryType, v: Value, ticks: int)
    requires brain.Valid()
    modifies brain`memories, brain`expirable
    ensures brain.Valid() && (old(brain.ExpiryTracked()) ==> brain.ExpiryTracked())
    ensures brain.memories == old(brain.memories)[t := Stored(Some(Expirable(v, ticks)))]
    ensures brain.expirable == ListedAfter(brain.edition, old(brain.expirable), t, Stored(Some(Expirable(v, ticks))))
    ensures !IsEmptyCollection(v) ==> ValueOf(brain.memories, t) == Some(v)
    ensures !IsEmptyCollection(v) && ticks != LONG_MAX_VALUE ==> t in brain.expirable
  {
    brain.SetMemoryInternal(t, Some(Expirable(v, ticks)));
    ListedAfterFacts(brain.edition, old(brain.expirable), t, Stored(Some(Expirable(v, ticks))));
  }

  /** clearMemory: erases one memory. */
  method ClearMemory(brain: SmartBrain, t: MemoryType)
    requires brain.Valid()
    modifies brain`memories, brain`expirable
    ensures brain.Valid() && (old(brain.ExpiryTracked()) ==> brain.ExpiryTracked())
    ensures brain.memories == Cleared(old(brain.memories), [t]) && brain.expirable == old(brain.expirable)
  {
    brain.EraseMemory(t);
  }

  /** clearMemories: erases each listed memory in turn and touches no other. */
  method ClearMemories(brain: SmartBrain, ts: seq<MemoryType>)
    requires brain.Valid()
    modifies brain`memories, brain`expirable
    ensures brain.Valid() && (old(brain.ExpiryTracked()) ==> brain.ExpiryTracked())
    ensures brain.memories == Cleared(old(brain.memories), ts) && brain.expirable == old(brain.expirable)
  {
    var i := 0;
    while i < |ts|
      invariant 0 <= i <= |ts|
      invariant brain.Valid() && (old(brain.ExpiryTracked()) ==> brain.ExpiryTracked())
      invariant brain.memories == Cleared(old(brain.memories), ts[..i]) && brain.expirable == old(brain.expirable)
    {
      brain.EraseMemory(ts[i]);
      assert ts[..i + 1] == ts[..i] + [ts[i]];
      ClearedSnoc(old(brain.memories), ts[..i], ts[i]);
      i := i + 1;
    }
    assert ts[..i] == ts;
  }

  /** addMemories: registers each listed type through getMemory. */
  method AddMemories(brain: SmartBrain, ts: seq<MemoryType>)
    requires brain.Valid()
    modifies brain`memories
    ensures brain.Valid() && (old(brain.ExpiryTracked()) ==> brain.ExpiryTracked())
    ensures brain.memories == Registering(old(brain.memories), ts)
  {
    var i := 0;
    while i < |ts|
      invariant 0 <= i <= |ts|
      invariant brain.Valid() && (old(brain.ExpiryTracked()) ==> brain.ExpiryTracked())
      invariant brain.memories == Registering(old(brain.memories), ts[..i])
    {
      var _ := brain.GetMemory(ts[i]);
      assert ts[..i + 1] == ts[..i] + [ts[i]];
      RegisteringSnoc(old(brain.memories), ts[..i], ts[i]);
      i := i + 1;
    }
    assert ts[..i] == ts;
  }

  /** getTargetOfEntity(entity, fallback): the ATTACK_TARGET value, else the fallback entity, else null. */
  method GetTargetOfEntity(brain: SmartBrain, fallback: Option<EntityId>) returns (target: Option<Value>)
    requires brain.Valid()
    modifies brain`memories
    ensures brain.Valid() && (old(brain.ExpiryTracked()) ==> brain.ExpiryTracked())
    ensures brain.memories == Registering(old(brain.memories), [AttackTarget])
    ensures ValueOf(old(brain.memories), AttackTarget).Some? ==> target == ValueOf(old(brain.memories), AttackTarget)
    ensures ValueOf(old(brain.memories), AttackTarget).None? ==>
      target == if fallback.Some? then Some(EntityValue(fallback.value)) else None
  {
    var held := brain.GetMemory(AttackTarget);
    if held.Some? {
      target := held;
    } else if fallback.Some? {
      target := Some(EntityValue(fallback.value));
    } else {
      target := None;
    }
  }

  /**
   * setTargetOfEntity: an entity that is a Mob (`mob` non-null) gets the target
   * as its own target too; then null clears ATTACK_TARGET and an entity is
   * stored there. Nothing else changes.
   */
  method SetTargetOfEntity(brain: SmartBrain, mob: Mob?, target: Option<EntityId>)
    requires brain.Valid()
    modifies brain`memories, brain`expirable, mob
    ensures brain.Valid() && (old(brain.ExpiryTracked()) ==> brain.ExpiryTracked())
    ensures mob != null ==> mob.target == target
    ensures brain.memories == old(brain.memories)[AttackTarget :=
      if target.Some? then Some(Expirable(EntityValue(target.value), LONG_MAX_VALUE)) else None]
    ensures brain.expirable == old(brain.expirable)
    ensures ValueOf(brain.memories, AttackTarget) == if target.Some? then Some(EntityValue(target.value)) else None
  {
    if mob != null {
      mob.target := target;
    }
    if target.None? {
      ClearMemory(brain, AttackTarget);
    } else {
      SetMemory(brain, AttackTarget, EntityValue(target.value));
    }
  }

  /** addSensor on a SmartBrain: only extended sensors are accepted; any other throws and adds nothing. */
  method AddSensor(brain: SmartBrain, s: SensorId, extended: bool) returns (r: Result<()>)
    modifies brain`sensors
    ensures !extended ==> r == Throws(IllegalArgument) && brain.sensors == old(brain.sensors)
    ensures extended ==> r == Ok(()) && brain.sensors == old(brain.sensors) + [s]
  {
    if !extended {
      return Throws(IllegalArgument);
    }
    brain.AddSensor(s);
    r := Ok(());
  }

  /**
   * addScheduledActivityTransition on a SmartBrain: a schedule of the given
   * type is created only when the brain has none; the transition is then
   * recorded on whichever schedule the brain holds.
   */
  method AddScheduledActivityTransition(brain: SmartBrain, activity: Activity, tickTime: int, tickType: ScheduleType)
    requires brain.Valid() && brain.edition == Current
    modifies brain`schedule, brain.schedule
    ensures brain.Valid() && brain.schedule != null
    ensures old(brain.schedule) != null ==>
      brain.schedule == old(brain.schedule) &&
      brain.schedule.timeline == Put(old(brain.schedule.timeline), tickTime, activity) &&
      brain.schedule.callbacks == old(brain.schedule.callbacks)
    ensures old(brain.schedule) == null ==>
      fresh(brain.schedule) && brain.schedule.kind == tickType &&
      brain.schedule.timeline == [(tickTime, activity)] && brain.schedule.callbacks == map[]
    ensures Lookup(brain.schedule.timeline, tickTime) == Some(activity)
    ensures brain.memories == old(brain.memories) && brain.table == old(brain.table)
  {
    var schedule := brain.schedule;
    if schedule == null {
      schedule := new SmartBrainSchedule(tickType);
      brain.SetSchedule(schedule);
    }
    schedule.ActivityAt(tickTime, activity);
  }
}
