// Three behaviours about the brain owner's attack target: reacting after the
// target has been unreachable for a while, dropping a target that is no
// longer worth pursuing, and choosing a target (or retaliating). Each class
// models the hooks the behaviour overrides; the lifecycle around them is
// the ExtendedBehaviour one. Entity facts and predicates are oracles.
module TargetBehaviours {
  import opened Wrappers
  import opened Domain
  import opened Brains
  import opened BrainUtilities
  import opened Sensors
  import opened NearestVisible

  // ReactToUnreachableTarget

  /** The default reaction delay, in ticks. */
  const DEFAULT_TICKS_TO_REACT: int := 100

  /** Both memories must hold a value. */
  const REACT_REQUIREMENTS: seq<Requirement> :=
    [(CantReachWalkTargetSince, ValuePresent), (TargetUnreachable, ValuePresent)]

  class ReactToUnreachableTarget {
    var reactAtTime: int
    /** The TARGET_UNREACHABLE value handed to each run of the reaction callback, oldest first. */
    var reactions: seq<Option<Value>>

    constructor ()
      ensures reactAtTime == 0 && reactions == []
    {
      reactAtTime := 0;
      reactions := [];
    }

    /** timedOut: no reaction pending, or its time has passed. */
    function TimedOut(gameTime: int): (b: bool)
      reads this
      ensures b <==> reactAtTime == 0 || reactAtTime < gameTime
    {
      reactAtTime == 0 || reactAtTime < gameTime
    }

    /** shouldKeepRunning: the required memories are still present. */
    function ShouldKeepRunning(m: Memories): (b: bool)
      ensures b <==> CheckMemory(m, CantReachWalkTargetSince, ValuePresent) && CheckMemory(m, TargetUnreachable, ValuePresent)
    {
      assert |REACT_REQUIREMENTS| == 2 && REACT_REQUIREMENTS[0] == (CantReachWalkTargetSince, ValuePresent) &&
        REACT_REQUIREMENTS[1] == (TargetUnreachable, ValuePresent);
      AllRequirementsMet(m, REACT_REQUIREMENTS)
    }

    /** start: the reaction is due `ticksToReact` (the sampled delay) ticks from now. */
    method Start(gameTime: int, ticksToReact: int)
      modifies this`reactAtTime
      ensures reactAtTime == gameTime + ticksToReact
    {
      reactAtTime := gameTime + ticksToReact;
    }

    /** stop: no reaction pending. */
    method Stop()
      modifies this`reactAtTime
      ensures reactAtTime == 0
    {
      reactAtTime := 0;
    }

    /**
     * tick: the callback runs, with the TARGET_UNREACHABLE value, only on
     * the tick that is exactly the reaction time. The memory is one the
     * behaviour requires, so reading it registers nothing new.
     */
    method Tick(gameTime: int, m: Memories)
      modifies this`reactions
      ensures reactions == old(reactions) + if gameTime == reactAtTime then [ValueOf(m, TargetUnreachable)] else []
    {
      if gameTime == reactAtTime {
        reactions := reactions + [ValueOf(m, TargetUnreachable)];
      }
    }
  }

  /**
   * A run started at `startTime` and ticked every game tick until it times
   * out (the memories staying present) reacts exactly once when the delay
   * is non-negative and the reaction time is not 0, and never otherwise.
   */
  method ReactionRun(startTime: int, ticksToReact: int, m: Memories) returns (reactions: seq<Option<Value>>, stoppedAt: int)
    requires CheckMemory(m, CantReachWalkTargetSince, ValuePresent) && CheckMemory(m, TargetUnreachable, ValuePresent)
    ensures |reactions| == if 0 <= ticksToReact && startTime + ticksToReact != 0 then 1 else 0
    ensures forall i :: 0 <= i < |reactions| ==> reactions[i] == ValueOf(m, TargetUnreachable)
    ensures stoppedAt == if 0 <= ticksToReact && startTime + ticksToReact != 0 then startTime + ticksToReact + 1 else startTime
  {
    var r := new ReactToUnreachableTarget();
    r.Start(startTime, ticksToReact);
    var g := startTime;
    while !r.TimedOut(g) && r.ShouldKeepRunning(m)
      invariant r.reactAtTime == startTime + ticksToReact
      invariant startTime <= g
      invariant g != startTime ==> 0 <= ticksToReact && r.reactAtTime != 0 && g <= r.reactAtTime + 1
      invariant |r.reactions| == (if g > r.reactAtTime && g != startTime then 1 else 0)
      invariant forall i :: 0 <= i < |r.reactions| ==> r.reactions[i] == ValueOf(m, TargetUnreachable)
      decreases r.reactAtTime + 1 - g
    {
      r.Tick(g, m);
      g := g + 1;
    }
    r.Stop();
    reactions := r.reactions;
    stoppedAt := g;
  }

  // InvalidateAttackTarget

  /** The default attention span for failed pathfinding, in ticks. */
  const DEFAULT_ATTENTION_SPAN: int := 200

  /** What the game knows about a target: the checks start makes, as oracle answers. */
  datatype TargetFacts = TargetFacts(
    sameLevel: bool, deadOrDying: bool, removed: bool, attackable: bool, customInvalid: bool)

  /** isTargetInvalid: a target in another level always; otherwise a dead, dying or removed one. */
  function IsTargetInvalid(f: TargetFacts): (b: bool)
    ensures !f.sameLevel ==> b
    ensures f.sameLevel ==> (b <==> f.deadOrDying || f.removed)
  {
    !f.sameLevel || f.deadOrDying || f.removed
  }

  /**
   * isTiredOfPathing: never with a span of 0 or less; otherwise when the owner
   * has been unable to reach its walk target for strictly longer than the span.
   */
  function IsTiredOfPathing(span: int, m: Memories, gameTime: int): (b: bool)
    ensures span <= 0 ==> !b
    ensures 0 < span ==> (b <==> SinceOf(m).Some? && gameTime - SinceOf(m).value > span)
  {
    if span <= 0 then false
    else
      var since := SinceOf(m);
      since.Some? && gameTime - since.value > span
  }

  /** The four reasons start drops a target, in the order it tries them. */
  predicate ShouldDrop(f: TargetFacts, span: int, m: Memories, gameTime: int) {
    IsTargetInvalid(f) || !f.attackable || IsTiredOfPathing(span, m, gameTime) || f.customInvalid
  }

  class InvalidateAttackTarget {
    var pathfindingAttentionSpan: int

    constructor ()
      ensures pathfindingAttentionSpan == DEFAULT_ATTENTION_SPAN
    {
      pathfindingAttentionSpan := DEFAULT_ATTENTION_SPAN;
    }

    /** stopTryingToPathAfter: the span becomes `ticks`. */
    method StopTryingToPathAfter(ticks: int) returns (self: InvalidateAttackTarget)
      modifies this
      ensures self == this && pathfindingAttentionSpan == ticks
    {
      pathfindingAttentionSpan := ticks;
      self := this;
    }

    /** ignoreFailedPathfinding: a span of 0, so pathing never tires. */
    method IgnoreFailedPathfinding() returns (self: InvalidateAttackTarget)
      modifies this
      ensures self == this && pathfindingAttentionSpan == 0
      ensures forall m, g :: !IsTiredOfPathing(pathfindingAttentionSpan, m, g)
    {
      self := StopTryingToPathAfter(0);
    }

    /**
     * start: with no target nothing changes; otherwise ATTACK_TARGET is
     * cleared exactly when one of the four reasons holds. No other memory's
     * value changes.
     */
    method Start(brain: SmartBrain, gameTime: int, facts: EntityId -> TargetFacts)
      requires brain.Valid()
      modifies brain`memories, brain`expirable
      ensures brain.Valid() && (old(brain.ExpiryTracked()) ==> brain.ExpiryTracked())
      ensures var target := EntityOf(old(brain.memories), AttackTarget);
        ValueOf(brain.memories, AttackTarget) ==
          if target.Some? && ShouldDrop(facts(target.value), pathfindingAttentionSpan, old(brain.memories), gameTime)
          then None else ValueOf(old(brain.memories), AttackTarget)
      ensures SameValuesOutside(brain.memories, old(brain.memories), {AttackTarget})
    {
      ghost var m0 := brain.memories;
      var held := ReadMemory(brain, AttackTarget);
      if held.None? || !held.value.EntityValue? {
        return;
      }
      var f := facts(held.value.entity);
      if IsTargetInvalid(f) || !f.attackable || IsTiredOfPathing(pathfindingAttentionSpan, brain.memories, gameTime) || f.customInvalid {
        ClearMemory(brain, AttackTarget);
      }
    }
  }

  // TargetOrRetaliate

  /** How often, in ticks, a behaviour that may swap targets looks again while it has one. */
  const TARGET_SWAP_INTERVAL: int := 100

  /** The first entity of the NEAREST_VISIBLE_LIVING_ENTITIES list the attack predicate accepts. */
  function VisibleCandidate(m: Memories, canAttack: EntityId -> bool, los: EntityId -> bool): (r: Option<EntityId>)
    ensures r.Some? ==>
      ValueOf(m, NearestVisibleLivingEntities).Some? && ValueOf(m, NearestVisibleLivingEntities).value.EntityList? &&
      r == FirstVisible(ValueOf(m, NearestVisibleLivingEntities).value.entities, canAttack, los)
    ensures r.Some? ==> canAttack(r.value)
    ensures ValueOf(m, NearestVisibleLivingEntities).None? ==> r.None?
  {
    var nearby := ValueOf(m, NearestVisibleLivingEntities);
    if nearby.Some? && nearby.value.EntityList? then FirstVisible(nearby.value.entities, canAttack, los)
    else None
  }

  /**
   * The candidate target before the final checks: the priority memory's
   * entity, else HURT_BY_ENTITY's, else the first visible entity the attack
   * predicate accepts; none exactly when every source is empty.
   */
  function Candidate(m: Memories, priority: MemoryType, canAttack: EntityId -> bool, los: EntityId -> bool): (r: Option<EntityId>)
    ensures r.Some? ==> r == EntityOf(m, priority) || r == EntityOf(m, HurtByEntity) || r == VisibleCandidate(m, canAttack, los)
    ensures r.None? <==> EntityOf(m, priority).None? && EntityOf(m, HurtByEntity).None? && VisibleCandidate(m, canAttack, los).None?
    ensures EntityOf(m, priority).Some? ==> r == EntityOf(m, priority)
    ensures EntityOf(m, priority).None? && EntityOf(m, HurtByEntity).Some? ==> r == EntityOf(m, HurtByEntity)
  {
    var first := EntityOf(m, priority);
    if first.Some? then first
    else
      var hurtBy := EntityOf(m, HurtByEntity);
      if hurtBy.Some? then hurtBy
      else VisibleCandidate(m, canAttack, los)
  }

  /**
   * getTarget: the candidate, unless it is the existing target or the attack
   * predicate refuses it.
   */
  function GetTarget(m: Memories, priority: MemoryType, existing: Option<EntityId>,
                     canAttack: EntityId -> bool, los: EntityId -> bool): (r: Option<EntityId>)
    ensures r.Some? ==> r == Candidate(m, priority, canAttack, los)
    ensures r.Some? ==> canAttack(r.value) && r != existing
    ensures var c := Candidate(m, priority, canAttack, los);
      c.Some? && c != existing && canAttack(c.value) ==>
        r.Some?
  {
    var c := Candidate(m, priority, canAttack, los);
    if c.None? || c == existing then None
    else if canAttack(c.value) then c
    else None
  }

  /** The read of NEAREST_VISIBLE_LIVING_ENTITIES and its closest match. */
  method ReadVisibleCandidate(brain: SmartBrain, canAttack: EntityId -> bool, los: EntityId -> bool)
    returns (candidate: Option<EntityId>)
    requires brain.Valid()
    modifies brain`memories
    ensures brain.Valid() && (old(brain.ExpiryTracked()) ==> brain.ExpiryTracked())
    ensures candidate == VisibleCandidate(old(brain.memories), canAttack, los)
    ensures SameValues(brain.memories, old(brain.memories))
  {
    var nearby := ReadMemory(brain, NearestVisibleLivingEntities);
    candidate := if nearby.Some? && nearby.value.EntityList? then FirstVisible(nearby.value.entities, canAttack, los) else None;
  }

  /** The read of one memory holding an entity. */
  method ReadEntity(brain: SmartBrain, t: MemoryType) returns (e: Option<EntityId>)
    requires brain.Valid()
    modifies brain`memories
    ensures brain.Valid() && (old(brain.ExpiryTracked()) ==> brain.ExpiryTracked())
    ensures e == EntityOf(old(brain.memories), t)
    ensures SameValues(brain.memories, old(brain.memories))
  {
    var held := ReadMemory(brain, t);
    e := if held.Some? && held.value.EntityValue? then Some(held.value.entity) else None;
  }

  /**
   * The memory reads of getTarget, in its order: each source is read only
   * when the earlier ones held nothing.
   */
  method ReadCandidate(brain: SmartBrain, priority: MemoryType, canAttack: EntityId -> bool, los: EntityId -> bool)
    returns (candidate: Option<EntityId>)
    requires brain.Valid()
    modifies brain`memories
    ensures brain.Valid() && (old(brain.ExpiryTracked()) ==> brain.ExpiryTracked())
    ensures candidate == Candidate(old(brain.memories), priority, canAttack, los)
    ensures SameValues(brain.memories, old(brain.memories))
  {
    candidate := ReadEntity(brain, priority);
    if candidate.None? {
      candidate := ReadEntity(brain, HurtByEntity);
      if candidate.None? {
        candidate := ReadVisibleCandidate(brain, canAttack, los);
      }
    }
  }

  /** The memory writes of start: the new ATTACK_TARGET, and CANT_REACH_WALK_TARGET_SINCE cleared. */
  method Retarget(brain: SmartBrain, mob: Mob?, target: Option<EntityId>)
    requires brain.Valid()
    modifies brain`memories, brain`expirable, mob
    ensures brain.Valid() && (old(brain.ExpiryTracked()) ==> brain.ExpiryTracked())
    ensures mob != null ==> mob.target == target
    ensures ValueOf(brain.memories, AttackTarget) == if target.Some? then Some(EntityValue(target.value)) else None
    ensures ValueOf(brain.memories, CantReachWalkTargetSince) == None
    ensures SameValuesOutside(brain.memories, old(brain.memories), {AttackTarget, CantReachWalkTargetSince})
  {
    ghost var m0 := brain.memories;
    SetTargetOfEntity(brain, mob, target);
    ghost var m1 := brain.memories;
    assert SameValuesOutside(m1, m0, {AttackTarget});
    ClearMemory(brain, CantReachWalkTargetSince);
    assert ValueOf(brain.memories, AttackTarget) == ValueOf(m1, AttackTarget);
  }

  class TargetOrRetaliate {
    var canSwapTarget: bool
    var toTarget: Option<EntityId>
    var priorityTargetMemory: MemoryType
    /** How many times alertAllies ran. */
    var alerts: nat

    constructor ()
      ensures canSwapTarget && toTarget == None && priorityTargetMemory == NearestAttackable && alerts == 0
    {
      canSwapTarget := true;
      toTarget := None;
      priorityTargetMemory := NearestAttackable;
      alerts := 0;
    }

    /** noTargetSwapping: a held target is never swapped. */
    method NoTargetSwapping() returns (self: TargetOrRetaliate)
      modifies this`canSwapTarget
      ensures self == this && !canSwapTarget
    {
      canSwapTarget := false;
      self := this;
    }

    /** useMemory: the memory looked at first. */
    method UseMemory(t: MemoryType) returns (self: TargetOrRetaliate)
      modifies this`priorityTargetMemory
      ensures self == this && priorityTargetMemory == t
    {
      priorityTargetMemory := t;
      self := this;
    }

    /**
     * doStartCheck: the base check, and either no ATTACK_TARGET or, with
     * swapping allowed, a tick count that is a multiple of 100.
     */
    function DoStartCheck(brain: SmartBrain, tickCount: int, baseOk: bool): (b: bool)
      reads this, brain
      ensures b <==>
        baseOk && (ValueOf(brain.memories, AttackTarget).None? || (canSwapTarget && JavaRem(tickCount, TARGET_SWAP_INTERVAL) == 0))
      ensures !canSwapTarget && ValueOf(brain.memories, AttackTarget).Some? ==> !b
    {
      (!HasMemory(brain, AttackTarget) || (canSwapTarget && JavaRem(tickCount, TARGET_SWAP_INTERVAL) == 0)) && baseOk
    }

    /**
     * checkExtraStartConditions: remembers the target getTarget chooses and
     * passes exactly when there is one. Reading the memories registers them
     * and changes no value.
     */
    method CheckExtraStartConditions(brain: SmartBrain, canAttack: EntityId -> bool, los: EntityId -> bool) returns (b: bool)
      requires brain.Valid()
      modifies this`toTarget, brain`memories
      ensures brain.Valid() && (old(brain.ExpiryTracked()) ==> brain.ExpiryTracked())
      ensures toTarget == GetTarget(old(brain.memories), priorityTargetMemory,
        EntityOf(old(brain.memories), AttackTarget), canAttack, los)
      ensures b <==> toTarget.Some?
      ensures SameValues(brain.memories, old(brain.memories))
    {
      var existingEntity := ReadEntity(brain, AttackTarget);
      var candidate := ReadCandidate(brain, priorityTargetMemory, canAttack, los);
      if candidate.None? || candidate == existingEntity {
        toTarget := None;
      } else if canAttack(candidate.value) {
        toTarget := candidate;
      } else {
        toTarget := None;
      }
      b := toTarget.Some?;
    }

    /**
     * start: the chosen target becomes ATTACK_TARGET, CANT_REACH_WALK_TARGET_SINCE
     * is cleared, allies are alerted only when the alert predicate holds and
     * there was no target before, and the chosen target is forgotten.
     */
    method Start(brain: SmartBrain, mob: Mob?, alertWanted: bool)
      requires brain.Valid()
      modifies this`toTarget, this`alerts, brain`memories, brain`expirable, mob
      ensures brain.Valid() && (old(brain.ExpiryTracked()) ==> brain.ExpiryTracked())
      ensures mob != null ==> mob.target == old(toTarget)
      ensures ValueOf(brain.memories, AttackTarget) == if old(toTarget).Some? then Some(EntityValue(old(toTarget).value)) else None
      ensures ValueOf(brain.memories, CantReachWalkTargetSince) == None
      ensures SameValuesOutside(brain.memories, old(brain.memories), {AttackTarget, CantReachWalkTargetSince})
      ensures alerts == old(alerts) + if alertWanted && ValueOf(old(brain.memories), AttackTarget).None? then 1 else 0
      ensures toTarget == None
    {
      var existing := ReadMemory(brain, AttackTarget);
      Retarget(brain, mob, toTarget);
      if alertWanted && existing.None? {
        alerts := alerts + 1;
      }
      toTarget := None;
    }
  }
}
