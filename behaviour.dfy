// ExtendedBehaviour and its timed variants: start/stop bookkeeping with a
// cooldown and a runtime, a delayed action, and a held-running counter.
module Behaviours {
  import opened Wrappers
  import opened Domain

  const DEFAULT_RUNTIME: int := 60
  const DEFAULT_COOLDOWN: int := 0
  /** The runtime a DelayedBehaviour sets for itself is never below this. */
  const MIN_DELAYED_RUNTIME: int := 60

  /** An IntProvider: a constant, or a uniform draw from a closed range. */
  datatype IntProvider = ConstantInt(value: int) | UniformInt(lo: int, hi: int)

  /** `s` is one of the values `p` can sample. */
  predicate IsSample(p: IntProvider, s: int) {
    match p
    case ConstantInt(c) => s == c
    case UniformInt(lo, hi) => lo <= s <= hi
  }

  /**
   * The entry-condition map built from a requirement list by putting each
   * pair in order: every listed type is a key, and a type listed more than
   * once keeps its last status.
   */
  function EntryConditionOf(reqs: seq<Requirement>): (r: map<MemoryType, MemoryStatus>)
    ensures forall t :: t in r <==> exists i :: 0 <= i < |reqs| && reqs[i].0 == t
  {
    if |reqs| == 0 then map[]
    else
      var init := EntryConditionOf(reqs[..|reqs| - 1]);
      assert forall i :: 0 <= i < |reqs| - 1 ==> reqs[..|reqs| - 1][i] == reqs[i];
      init[reqs[|reqs| - 1].0 := reqs[|reqs| - 1].1]
  }

  /** The status kept for a type is the one its last occurrence in the list gives. */
  lemma {:induction false} EntryConditionLastWins(reqs: seq<Requirement>, i: nat)
    requires i < |reqs|
    requires forall j :: i < j < |reqs| ==> reqs[j].0 != reqs[i].0
    ensures reqs[i].0 in EntryConditionOf(reqs) && EntryConditionOf(reqs)[reqs[i].0] == reqs[i].1
  {
    if i < |reqs| - 1 {
      var init := reqs[..|reqs| - 1];
      assert forall j :: i < j < |init| ==> init[j] == reqs[j];
      EntryConditionLastWins(init, i);
    }
  }

  /** With no duplicate types, the map holds exactly the listed pairs. */
  lemma EntryConditionExact(reqs: seq<Requirement>)
    requires forall i, j :: 0 <= i < j < |reqs| ==> reqs[i].0 != reqs[j].0
    ensures forall i :: 0 <= i < |reqs| ==> EntryConditionOf(reqs)[reqs[i].0] == reqs[i].1
  {
    forall i | 0 <= i < |reqs| ensures EntryConditionOf(reqs)[reqs[i].0] == reqs[i].1 {
      EntryConditionLastWins(reqs, i);
    }
  }

  /**
   * ExtendedBehaviour with the vanilla Behavior fields it drives: status and
   * endTimestamp. Callbacks are counted, random samples are parameters that
   * must be values the provider can produce.
   */
  class ExtendedBehaviour {
    /** getMemoryRequirements(). */
    const requirements: seq<Requirement>
    /** Vanilla entryCondition. */
    var entryCondition: map<MemoryType, MemoryStatus>
    var status: Status
    var endTimestamp: int
    var cooldownFinishedAt: int
    var runtimeProvider: IntProvider
    var cooldownProvider: IntProvider
    /** How often the start and stop callbacks (and start/stop hooks) have run. */
    var startCallbacks: nat
    var stopCallbacks: nat
    /** How often the tick hook has run. */
    var ticks: nat

    /** Copies every requirement into the entry conditions; runtime 60, cooldown 0. */
    constructor (requirements: seq<Requirement>)
      ensures this.requirements == requirements && entryCondition == EntryConditionOf(requirements)
      ensures status == Stopped && endTimestamp == 0 && cooldownFinishedAt == 0
      ensures runtimeProvider == ConstantInt(DEFAULT_RUNTIME) && cooldownProvider == ConstantInt(DEFAULT_COOLDOWN)
      ensures startCallbacks == 0 && stopCallbacks == 0 && ticks == 0
    {
      var conditions: map<MemoryType, MemoryStatus> := map[];
      var i := 0;
      while i < |requirements|
        invariant 0 <= i <= |requirements|
        invariant conditions == EntryConditionOf(requirements[..i])
      {
        assert requirements[..i + 1][..i] == requirements[..i];
        conditions := conditions[requirements[i].0 := requirements[i].1];
        i := i + 1;
      }
      assert requirements[..i] == requirements;
      this.requirements := requirements;
      entryCondition := conditions;
      status := Stopped;
      endTimestamp := 0;
      cooldownFinishedAt := 0;
      runtimeProvider := ConstantInt(DEFAULT_RUNTIME);
      cooldownProvider := ConstantInt(DEFAULT_COOLDOWN);
      startCallbacks := 0;
      stopCallbacks := 0;
      ticks := 0;
    }

    method RunFor(p: IntProvider) returns (self: ExtendedBehaviour)
      modifies this`runtimeProvider
      ensures self == this && runtimeProvider == p
    {
      runtimeProvider := p;
      self := this;
    }

    method CooldownFor(p: IntProvider) returns (self: ExtendedBehaviour)
      modifies this`cooldownProvider
      ensures self == this && cooldownProvider == p
    {
      cooldownProvider := p;
      self := this;
    }

    /** hasRequiredMemories: every requirement holds; vacuously true for none. */
    method HasRequiredMemories(m: Memories) returns (b: bool)
      ensures b <==> AllRequirementsMet(m, requirements)
    {
      var i := 0;
      while i < |requirements|
        invariant 0 <= i <= |requirements|
        invariant AllRequirementsMet(m, requirements[..i])
      {
        if !CheckMemory(m, requirements[i].0, requirements[i].1) {
          return false;
        }
        assert requirements[..i + 1][i] == requirements[i];
        i := i + 1;
      }
      assert requirements[..i] == requirements;
      b := true;
    }

    /**
     * tryStart: refuses while cooling down, when a memory requirement fails or
     * when `extra` (checkExtraStartConditions, true by default) is false;
     * otherwise runs for `runtime` ticks from now and calls the start hook.
     */
    method TryStart(m: Memories, gameTime: int, extra: bool, runtime: int) returns (started: bool)
      requires IsSample(runtimeProvider, runtime)
      modifies this`status, this`endTimestamp, this`startCallbacks
      ensures started <==> cooldownFinishedAt <= gameTime && AllRequirementsMet(m, requirements) && extra
      ensures started ==> status == Running && endTimestamp == gameTime + runtime && startCallbacks == old(startCallbacks) + 1
      ensures !started ==> status == old(status) && endTimestamp == old(endTimestamp) && startCallbacks == old(startCallbacks)
    {
      if cooldownFinishedAt > gameTime {
        return false;
      }
      var memoriesMet := HasRequiredMemories(m);
      if !memoriesMet || !extra {
        return false;
      }
      status := Running;
      endTimestamp := gameTime + runtime;
      startCallbacks := startCallbacks + 1;
      started := true;
    }

    /** stop: the cooldown runs from now, then the stop callback runs. */
    method Stop(gameTime: int, cooldown: int)
      requires IsSample(cooldownProvider, cooldown)
      modifies this`cooldownFinishedAt, this`stopCallbacks
      ensures cooldownFinishedAt == gameTime + cooldown && stopCallbacks == old(stopCallbacks) + 1
    {
      cooldownFinishedAt := gameTime + cooldown;
      stopCallbacks := stopCallbacks + 1;
    }

    /** Vanilla doStop: marks the behaviour stopped, then stops it. */
    method DoStop(gameTime: int, cooldown: int)
      requires IsSample(cooldownProvider, cooldown)
      modifies this`status, this`cooldownFinishedAt, this`stopCallbacks
      ensures status == Stopped && cooldownFinishedAt == gameTime + cooldown && stopCallbacks == old(stopCallbacks) + 1
    {
      status := Stopped;
      Stop(gameTime, cooldown);
    }

    /** Vanilla timedOut: past the end timestamp. */
    function TimedOut(gameTime: int): (b: bool)
      reads this
      ensures b <==> endTimestamp < gameTime
    {
      gameTime > endTimestamp
    }

    /** canStillUse: false unless a subclass overrides it. */
    function CanStillUse(gameTime: int): (b: bool)
      ensures !b
    {
      false
    }

    /** Vanilla tickOrStop: ticks while not timed out and still usable, otherwise stops. */
    method TickOrStop(gameTime: int, usable: bool, cooldown: int)
      requires IsSample(cooldownProvider, cooldown)
      modifies this`status, this`cooldownFinishedAt, this`stopCallbacks, this`ticks
      ensures !TimedOut(gameTime) && usable ==> ticks == old(ticks) + 1 && status == old(status) && stopCallbacks == old(stopCallbacks)
      ensures TimedOut(gameTime) || !usable ==>
        ticks == old(ticks) && status == Stopped && cooldownFinishedAt == gameTime + cooldown && stopCallbacks == old(stopCallbacks) + 1
    {
      if !TimedOut(gameTime) && usable {
        ticks := ticks + 1;
      } else {
        DoStop(gameTime, cooldown);
      }
    }
  }

  /**
   * With the default cooldown of 0, a behaviour stopped at `gameTime` may
   * start again at that same tick: only its memory requirements and extra
   * conditions decide.
   */
  method RestartAtStopTick(b: ExtendedBehaviour, m: Memories, gameTime: int, runtime: int) returns (started: bool)
    requires b.cooldownProvider == ConstantInt(DEFAULT_COOLDOWN) && IsSample(b.runtimeProvider, runtime)
    modifies b
    ensures b.cooldownFinishedAt == gameTime
    ensures started <==> AllRequirementsMet(m, b.requirements)
  {
    b.DoStop(gameTime, DEFAULT_COOLDOWN);
    started := b.TryStart(m, gameTime, true, runtime);
  }

  /**
   * DelayedBehaviour: an ExtendedBehaviour whose action runs `delayTime`
   * ticks after it starts (at once when the delay is not positive).
   */
  class DelayedBehaviour {
    const base: ExtendedBehaviour
    const delayTime: int
    var delayFinishedAt: int
    /** How often doDelayedAction and the delayed callback have run. */
    var delayedActions: nat
    var delayedCallbacks: nat

    /** The runtime is fixed at max(delay, 60). */
    constructor (delayTicks: int, requirements: seq<Requirement>)
      ensures delayTime == delayTicks && delayFinishedAt == 0 && delayedActions == 0 && delayedCallbacks == 0
      ensures fresh(base) && base.requirements == requirements && base.status == Stopped && base.cooldownFinishedAt == 0
      ensures base.runtimeProvider == ConstantInt(if delayTicks > MIN_DELAYED_RUNTIME then delayTicks else MIN_DELAYED_RUNTIME)
      ensures base.cooldownProvider == ConstantInt(DEFAULT_COOLDOWN)
    {
      delayTime := delayTicks;
      delayFinishedAt := 0;
      delayedActions := 0;
      delayedCallbacks := 0;
      var b := new ExtendedBehaviour(requirements);
      var _ := b.RunFor(ConstantInt(if delayTicks > MIN_DELAYED_RUNTIME then delayTicks else MIN_DELAYED_RUNTIME));
      base := b;
    }

    /** tryStart, with the delayed start hook: a positive delay arms the timer, otherwise the action runs now. */
    method TryStart(m: Memories, gameTime: int, extra: bool, runtime: int) returns (started: bool)
      requires IsSample(base.runtimeProvider, runtime)
      modifies this, base
      ensures started <==> base.cooldownFinishedAt <= gameTime && AllRequirementsMet(m, base.requirements) && extra
      ensures started ==> base.status == Running && base.endTimestamp == gameTime + runtime
      ensures started && delayTime > 0 ==> delayFinishedAt == gameTime + delayTime && delayedActions == old(delayedActions)
      ensures started && delayTime <= 0 ==> delayFinishedAt == old(delayFinishedAt) && delayedActions == old(delayedActions) + 1
      ensures !started ==> delayFinishedAt == old(delayFinishedAt) && delayedActions == old(delayedActions) && base.status == old(base.status)
      ensures delayedCallbacks == old(delayedCallbacks) && base.cooldownFinishedAt == old(base.cooldownFinishedAt)
      ensures base.runtimeProvider == old(base.runtimeProvider) && base.cooldownProvider == old(base.cooldownProvider)
    {
      started := base.TryStart(m, gameTime, extra, runtime);
      if started {
        if delayTime > 0 {
          delayFinishedAt := gameTime + delayTime;
        } else {
          delayedActions := delayedActions + 1;
        }
      }
    }

    /** stop: the base stop, then the timer is disarmed. */
    method Stop(gameTime: int, cooldown: int)
      requires IsSample(base.cooldownProvider, cooldown)
      modifies this`delayFinishedAt, base`cooldownFinishedAt, base`stopCallbacks
      ensures delayFinishedAt == 0 && base.cooldownFinishedAt == gameTime + cooldown
      ensures base.stopCallbacks == old(base.stopCallbacks) + 1
    {
      base.Stop(gameTime, cooldown);
      delayFinishedAt := 0;
    }

    /** canStillUse: until the tick the timer fires on, inclusive. */
    function CanStillUse(gameTime: int): (b: bool)
      reads this
      ensures b <==> gameTime <= delayFinishedAt
    {
      delayFinishedAt >= gameTime
    }

    /** tick: the base tick hook, then, once the timer has elapsed, the action and the callback, on every such tick. */
    method Tick(gameTime: int)
      modifies this`delayedActions, this`delayedCallbacks, base`ticks
      ensures base.ticks == old(base.ticks) + 1
      ensures delayFinishedAt <= gameTime ==> delayedActions == old(delayedActions) + 1 && delayedCallbacks == old(delayedCallbacks) + 1
      ensures delayFinishedAt > gameTime ==> delayedActions == old(delayedActions) && delayedCallbacks == old(delayedCallbacks)
    {
      base.ticks := base.ticks + 1;
      if delayFinishedAt <= gameTime {
        delayedActions := delayedActions + 1;
        delayedCallbacks := delayedCallbacks + 1;
      }
    }

    /** Vanilla tickOrStop with this class's canStillUse. */
    method TickOrStop(gameTime: int, cooldown: int)
      requires IsSample(base.cooldownProvider, cooldown)
      modifies this, base
      ensures !base.TimedOut(gameTime) && old(CanStillUse(gameTime)) ==>
        base.status == old(base.status) && delayFinishedAt == old(delayFinishedAt) &&
        delayedActions == old(delayedActions) + (if delayFinishedAt <= gameTime then 1 else 0)
      ensures base.TimedOut(gameTime) || !old(CanStillUse(gameTime)) ==>
        base.status == Stopped && delayFinishedAt == 0 && delayedActions == old(delayedActions)
      ensures base.endTimestamp == old(base.endTimestamp)
    {
      if !base.TimedOut(gameTime) && CanStillUse(gameTime) {
        Tick(gameTime);
      } else {
        base.status := Stopped;
        Stop(gameTime, cooldown);
      }
    }
  }

  /**
   * A delayed behaviour with a positive delay, started at `gameTime`, is
   * still running with its timer due when that many ticks have passed, so
   * that tick runs the action.
   */
  method DelayFiresOnTime(d: DelayedBehaviour, m: Memories, gameTime: int, runtime: int, cooldown: int) returns (started: bool)
    requires d.delayTime > 0 && IsSample(d.base.runtimeProvider, runtime) && IsSample(d.base.cooldownProvider, cooldown)
    requires d.base.runtimeProvider == ConstantInt(if d.delayTime > MIN_DELAYED_RUNTIME then d.delayTime else MIN_DELAYED_RUNTIME)
    modifies d, d.base
    ensures started <==> old(d.base.cooldownFinishedAt) <= gameTime && AllRequirementsMet(m, d.base.requirements)
    ensures started ==> d.delayedActions == old(d.delayedActions) + 1 && d.base.status == Running
  {
    started := d.TryStart(m, gameTime, true, runtime);
    if started {
      d.TickOrStop(gameTime + d.delayTime, cooldown);
    }
  }

  /**
   * HeldBehaviour: an ExtendedBehaviour that runs until its tick consumer
   * answers false, counting the ticks it has run. It never times out and
   * always wants to keep running.
   */
  class HeldBehaviour {
    const base: ExtendedBehaviour
    /** A Java int, incremented with wrap-around. */
    var runningTime: int

    constructor (requirements: seq<Requirement>)
      ensures runningTime == 0
      ensures fresh(base) && base.requirements == requirements && base.status == Stopped && base.cooldownFinishedAt == 0
      ensures base.startCallbacks == 0 && base.stopCallbacks == 0 && base.ticks == 0
      ensures base.cooldownProvider == ConstantInt(DEFAULT_COOLDOWN)
    {
      base := new ExtendedBehaviour(requirements);
      runningTime := 0;
    }

    function GetRunningTime(): (r: int)
      reads this
      ensures r == runningTime
    {
      runningTime
    }

    /** shouldKeepRunning: always. */
    function ShouldKeepRunning(): (b: bool)
      ensures b
    {
      true
    }

    /**
     * The constructor calls noTimeout(). ExtendedBehaviour.noTimeout is not
     * part of this model; it is taken to disable the timeout, so timedOut
     * never holds.
     */
    function TimedOut(gameTime: int): (b: bool)
      ensures !b
    {
      false
    }

    /** tryStart, with this class's start hook: the base start hook, then the counter restarts. */
    method TryStart(m: Memories, gameTime: int, extra: bool, runtime: int) returns (started: bool)
      requires IsSample(base.runtimeProvider, runtime)
      modifies this`runningTime, base`status, base`endTimestamp, base`startCallbacks
      ensures started <==> base.cooldownFinishedAt <= gameTime && AllRequirementsMet(m, base.requirements) && extra
      ensures started ==> base.status == Running && runningTime == 0 && base.startCallbacks == old(base.startCallbacks) + 1
      ensures !started ==> base.status == old(base.status) && runningTime == old(runningTime) &&
                           base.startCallbacks == old(base.startCallbacks)
    {
      started := base.TryStart(m, gameTime, extra, runtime);
      if started {
        runningTime := 0;
      }
    }

    /**
     * tick: the base tick hook; a false answer from the consumer ends in
     * doStop, which starts the cooldown; the counter advances either way.
     */
    method Tick(gameTime: int, consumerAnswer: bool, cooldown: int)
      requires IsSample(base.cooldownProvider, cooldown)
      modifies this`runningTime, base`status, base`cooldownFinishedAt, base`stopCallbacks, base`ticks
      ensures runningTime == WrapInt(old(runningTime) + 1)
      ensures -0x8000_0000 <= old(runningTime) < INT_MAX_VALUE ==> runningTime == old(runningTime) + 1
      ensures base.ticks == old(base.ticks) + 1
      ensures !consumerAnswer ==> base.status == Stopped && base.cooldownFinishedAt == gameTime + cooldown &&
                                  base.stopCallbacks == old(base.stopCallbacks) + 1
      ensures consumerAnswer ==> base.status == old(base.status) && base.cooldownFinishedAt == old(base.cooldownFinishedAt) &&
                                 base.stopCallbacks == old(base.stopCallbacks)
    {
      base.ticks := base.ticks + 1;
      if !consumerAnswer {
        base.DoStop(gameTime, cooldown);
      }
      runningTime := WrapInt(runningTime + 1);
    }
  }

  /**
   * A held behaviour whose consumer answers false at `gameTime` cools down:
   * it can start again at `later` exactly when the cooldown has run out and
   * its requirements hold, and a restart puts the counter back to 0.
   */
  method HeldRestartAfterCooldown(h: HeldBehaviour, m: Memories, gameTime: int, later: int, runtime: int, cooldown: int)
    returns (started: bool)
    requires IsSample(h.base.cooldownProvider, cooldown) && IsSample(h.base.runtimeProvider, runtime)
    modifies h, h.base
    ensures started <==> gameTime + cooldown <= later && AllRequirementsMet(m, h.base.requirements)
    ensures started ==> h.GetRunningTime() == 0
    ensures !started ==> h.base.status == Stopped
  {
    h.Tick(gameTime, false, cooldown);
    started := h.TryStart(m, later, true, runtime);
  }
}
