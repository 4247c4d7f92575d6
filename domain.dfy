// The vocabulary shared by the whole model: activities, memory types, memory
// values with their time-to-live, behaviour status, and the Java integer
// arithmetic the library relies on.
module Domain {
  import opened Wrappers

  /** Activities are compared by identity in the library; here by value. */
  datatype Activity = Core | Idle | Fight | Rest | OtherActivity(id: nat)

  /** The memory module types the modelled code names, plus all others. */
  datatype MemoryType =
    | AttackTarget
    | CantReachWalkTargetSince
    | TargetUnreachable
    | HurtByEntity
    | LookTarget
    | NearestLivingEntities
    | NearestVisibleLivingEntities
    | NearestPlayers
    | NearestVisiblePlayer
    | NearestVisibleAttackablePlayer
    | NearestAttackable
    | OtherMemory(id: nat)

  /** Vanilla MemoryStatus. */
  datatype MemoryStatus = ValuePresent | ValueAbsent | Registered

  /** Behavior.Status. */
  datatype Status = Stopped | Running

  /** Entities are known only by identity. */
  type EntityId = nat

  /** What a memory can hold. Only entity lists are collections. */
  datatype Value =
    | EntityValue(entity: EntityId)
    | EntityList(entities: seq<EntityId>)
    | TimeValue(time: int)
    | FlagValue(flag: bool)
    | OtherValue(id: int)

  predicate IsEmptyCollection(v: Value) {
    v.EntityList? && |v.entities| == 0
  }

  const LONG_MAX_VALUE: int := 0x7fff_ffff_ffff_ffff
  const INT_MAX_VALUE: int := 0x7fff_ffff

  /** Java `int`. */
  type JavaInt = x: int | -0x8000_0000 <= x <= 0x7fff_ffff

  /**
   * Vanilla ExpirableValue: a timeToLive of Long.MAX_VALUE means "never
   * expires"; a value has expired once its timeToLive has reached 0.
   */
  datatype Expirable = Expirable(value: Value, timeToLive: int)
  {
    predicate CanExpire() { timeToLive != LONG_MAX_VALUE }
    predicate HasExpired() { timeToLive <= 0 }

    /** ExpirableValue.tick: counts down only a value that can expire. */
    function Ticked(): (e: Expirable)
      ensures e.value == value
      ensures CanExpire() ==> e.timeToLive == timeToLive - 1
      ensures !CanExpire() ==> e == this
    {
      if CanExpire() then Expirable(value, timeToLive - 1) else this
    }
  }

  /** The brain's memory table: a registered type maps to a value or to empty. */
  type Memories = map<MemoryType, Option<Expirable>>

  /** Vanilla Brain.checkMemory. An unregistered type satisfies nothing. */
  predicate CheckMemory(m: Memories, t: MemoryType, s: MemoryStatus) {
    t in m &&
    match s
    case Registered => true
    case ValuePresent => m[t].Some?
    case ValueAbsent => m[t].None?
  }

  /** A (memory type, status) pair, as used in activity and behaviour conditions. */
  type Requirement = (MemoryType, MemoryStatus)

  /** Every requirement in the list holds; vacuously true for none. */
  predicate AllRequirementsMet(m: Memories, reqs: seq<Requirement>) {
    forall i :: 0 <= i < |reqs| ==> CheckMemory(m, reqs[i].0, reqs[i].1)
  }

  /** Every requirement in the set holds (the activity-requirement check). */
  predicate ConditionsMet(m: Memories, reqs: set<Requirement>) {
    forall r :: r in reqs ==> CheckMemory(m, r.0, r.1)
  }

  /** The value a memory currently holds, if any (Brain.getMemory). */
  function ValueOf(m: Memories, t: MemoryType): (r: Option<Value>)
    ensures r.Some? <==> t in m && m[t].Some?
    ensures r.Some? ==> r.value == m[t].value.value
  {
    if t in m && m[t].Some? then Some(m[t].value.value) else None
  }

  // Default SmartBrainOwner configuration.
  const DEFAULT_ACTIVITY_PRIORITIES: seq<Activity> := [Fight, Idle]
  const DEFAULT_ALWAYS_RUNNING: set<Activity> := {Core}
  const DEFAULT_ACTIVITY: Activity := Idle
  const DEFAULT_SCHEDULE_IGNORING: set<Activity> := {Fight}

  /** Java's `%`: truncates toward zero, so the result has the dividend's sign. */
  function JavaRem(a: int, b: int): (r: int)
    requires b > 0
    ensures a >= 0 ==> r == a % b
    ensures a < 0 ==> r == -((-a) % b) && -b < r <= 0
  {
    if a >= 0 then a % b else -((-a) % b)
  }

  /** Java `int` addition: two's-complement wrap-around to 32 bits. */
  function WrapInt(x: int): (r: int)
    ensures -0x8000_0000 <= r <= INT_MAX_VALUE
    ensures -0x8000_0000 <= x <= INT_MAX_VALUE ==> r == x
  {
    (x + 0x8000_0000) % 0x1_0000_0000 - 0x8000_0000
  }
}
