// RepeatableBehaviour (a group that restarts its first child up to a limit)
// and RepeatingBehaviour (a wrapper that restarts one child while repeats
// remain).
module Repeats {
  import opened Wrappers
  import opened Domain
  import opened Behaviours
  import opened GroupBehaviours

  /** The Common edition's RepeatableBehaviour. */
  class RepeatableBehaviour {
    const group: GroupBehaviour
    var repeatCount: int
    var maxRepeat: int

    ghost predicate Valid()
      reads this, group
    {
      group.Valid()
    }

    /** Both counters start at 0, so by default no repeat is ever started. */
    constructor (ids: seq<ChildId>)
      ensures Valid() && fresh(group) && group.ids == ids && repeatCount == 0 && maxRepeat == 0
      ensures group.childStatus == (map c | c in ids :: Stopped) && group.calls == [] && group.running == None
    {
      group := new GroupBehaviour(ids);
      repeatCount := 0;
      maxRepeat := 0;
    }

    method Repeat(n: int) returns (self: RepeatableBehaviour)
      modifies this`maxRepeat
      ensures self == this && maxRepeat == n
    {
      maxRepeat := n;
      self := this;
    }

    /**
     * pickBehaviour: nothing once repeatCount has reached maxRepeat; otherwise
     * child 0 (an empty list throws), tried only when the repeat predicate
     * holds. A start makes it the running child and counts one repeat.
     */
    method Pick(repeatOk: bool, starts: ChildId -> bool) returns (r: Result<Option<ChildId>>)
      requires Valid()
      modifies this`repeatCount, group`running, group`childStatus, group`calls
      ensures Valid()
      ensures old(repeatCount) <= maxRepeat ==> repeatCount <= maxRepeat
      ensures old(repeatCount) >= maxRepeat ==>
        r == Ok(None) && repeatCount == old(repeatCount) && group.running == old(group.running) &&
        group.childStatus == old(group.childStatus) && group.calls == old(group.calls)
      ensures old(repeatCount) < maxRepeat && |group.ids| == 0 ==>
        r == Throws(IndexOutOfBounds) && repeatCount == old(repeatCount) && group.running == old(group.running) &&
        group.childStatus == old(group.childStatus) && group.calls == old(group.calls)
      ensures old(repeatCount) < maxRepeat && |group.ids| > 0 ==>
        var c := group.ids[0];
        group.calls == old(group.calls) + (if repeatOk then [TryStartCall(c)] else []) &&
        (repeatOk && starts(c) ==>
          r == Ok(Some(c)) && group.running == Some(c) && repeatCount == old(repeatCount) + 1 &&
          group.childStatus == old(group.childStatus)[c := Running]) &&
        (!(repeatOk && starts(c)) ==>
          r == Ok(None) && group.running == old(group.running) && repeatCount == old(repeatCount) &&
          group.childStatus == old(group.childStatus))
    {
      if repeatCount >= maxRepeat {
        return Ok(None);
      }
      if |group.ids| == 0 {
        return Throws(IndexOutOfBounds);
      }
      var c := group.ids[0];
      if repeatOk {
        var ok := group.TryStartChild(c, starts(c));
        if ok {
          group.running := Some(c);
          repeatCount := repeatCount + 1;
          return Ok(Some(c));
        }
      }
      r := Ok(None);
    }

    /** doStartCheck: the base checks, then the picked child is stored as the running one; an exception propagates. */
    method DoStartCheck(baseOk: bool, repeatOk: bool, starts: ChildId -> bool) returns (r: Result<bool>)
      requires Valid()
      modifies this`repeatCount, group`running, group`childStatus, group`calls
      ensures Valid()
      ensures !baseOk ==>
        r == Ok(false) && repeatCount == old(repeatCount) && group.running == old(group.running) &&
        group.childStatus == old(group.childStatus) && group.calls == old(group.calls)
      ensures r.Throws? <==> baseOk && old(repeatCount) < maxRepeat && |group.ids| == 0
      ensures r.Throws? ==> r == Throws(IndexOutOfBounds)
      ensures baseOk ==>
        group.calls == old(group.calls) + if old(repeatCount) < maxRepeat && |group.ids| > 0 && repeatOk then [TryStartCall(group.ids[0])] else []
      ensures baseOk && r.Ok? ==>
        (r.value <==> old(repeatCount) < maxRepeat && |group.ids| > 0 && repeatOk && starts(group.ids[0])) &&
        group.running == (if r.value then Some(group.ids[0]) else None) &&
        repeatCount == old(repeatCount) + (if r.value then 1 else 0)
    {
      if !baseOk {
        return Ok(false);
      }
      var picked := Pick(repeatOk, starts);
      if picked.Throws? {
        return Throws(picked.exception);
      }
      group.running := picked.value;
      r := Ok(picked.value.Some?);
    }

    /** shouldKeepRunning: a child is running and has not stopped. */
    function ShouldKeepRunning(): (b: bool)
      requires Valid()
      reads this, group
      ensures b <==> group.GetStatus() == Running
    {
      group.RunningChildActive()
    }

    /** timedOut: with no running child; otherwise only once the child has timed out and no repeat is left. */
    function TimedOut(childTimedOut: ChildId -> bool): (b: bool)
      reads this, group
      ensures group.running.None? ==> b
      ensures group.running.Some? && repeatCount < maxRepeat ==> !b
      ensures group.running.Some? && repeatCount >= maxRepeat ==> (b <==> childTimedOut(group.running.value))
    {
      if group.running.Some? then group.TimedOut(childTimedOut) && repeatCount >= maxRepeat else group.TimedOut(childTimedOut)
    }

    /** stop: the group's stop, and the repeat count starts over. */
    method Stop(gameTime: int, cooldown: int)
      requires Valid()
      modifies this`repeatCount, group`cooldownFinishedAt, group`stopCallbacks, group`calls, group`running
      ensures Valid() && repeatCount == 0 && group.running == None
      ensures group.cooldownFinishedAt == gameTime + cooldown && group.stopCallbacks == old(group.stopCallbacks) + 1
      ensures group.calls == old(group.calls) + if old(group.running).Some? then [StopHookCall(old(group.running).value)] else []
    {
      group.Stop(gameTime, cooldown);
      repeatCount := 0;
    }

    /**
     * tick as written: ticks the running child; once it has stopped, a repeat
     * is tried, and when none starts the group stops. The finished child is
     * still the running one then, so its stop hook is called a second time.
     */
    method Tick(gameTime: int, cooldown: int, keeps: bool, repeatOk: bool, starts: ChildId -> bool) returns (r: Result<()>)
      requires Valid() && group.running.Some? && group.GetStatus() == Running
      modifies this`repeatCount, group`childStatus, group`calls, group`running, group`cooldownFinishedAt, group`stopCallbacks
      ensures Valid()
      ensures var c := old(group.running).value;
        var repeats := old(repeatCount) < maxRepeat && |group.ids| > 0;
        var restarts := repeats && repeatOk && starts(group.ids[0]);
        var tried := if repeats && repeatOk then [TryStartCall(group.ids[0])] else [];
        (keeps ==>
          r == Ok(()) && group.calls == old(group.calls) + [TickOrStopCall(c)] &&
          group.childStatus == old(group.childStatus) && group.running == old(group.running) && repeatCount == old(repeatCount)) &&
        (!keeps && old(repeatCount) < maxRepeat && |group.ids| == 0 ==> r == Throws(IndexOutOfBounds)) &&
        (!keeps && restarts ==>
          r == Ok(()) && group.calls == old(group.calls) + [TickOrStopCall(c)] + tried &&
          group.childStatus == old(group.childStatus)[c := Stopped][group.ids[0] := Running] &&
          group.running == Some(group.ids[0]) && repeatCount == old(repeatCount) + 1) &&
        (!keeps && !restarts && (repeats || old(repeatCount) >= maxRepeat) ==>
          r == Ok(()) && group.calls == old(group.calls) + [TickOrStopCall(c)] + tried + [StopHookCall(c)] &&
          group.childStatus == old(group.childStatus)[c := Stopped] && group.running == None && repeatCount == 0 &&
          group.cooldownFinishedAt == gameTime + cooldown && group.stopCallbacks == old(group.stopCallbacks) + 1)
    {
      var c := group.running.value;
      group.TickOrStopChild(c, keeps);
      if group.childStatus[c] == Stopped {
        var picked := Pick(repeatOk, starts);
        if picked.Throws? {
          return Throws(picked.exception);
        }
        if picked.value.Some? {
          return Ok(());
        }
        Stop(gameTime, cooldown);
      }
      r := Ok(());
    }

    /** tick as evidently intended: the finished child is cleared before the group stops, so its stop hook runs once. */
    method TickClearingFinished(gameTime: int, cooldown: int, keeps: bool, repeatOk: bool, starts: ChildId -> bool) returns (r: Result<()>)
      requires Valid() && group.running.Some? && group.GetStatus() == Running
      modifies this`repeatCount, group`childStatus, group`calls, group`running, group`cooldownFinishedAt, group`stopCallbacks
      ensures Valid()
      ensures var c := old(group.running).value;
        var repeats := old(repeatCount) < maxRepeat && |group.ids| > 0;
        var restarts := repeats && repeatOk && starts(group.ids[0]);
        var tried := if repeats && repeatOk then [TryStartCall(group.ids[0])] else [];
        (keeps ==>
          r == Ok(()) && group.calls == old(group.calls) + [TickOrStopCall(c)] &&
          group.childStatus == old(group.childStatus) && group.running == old(group.running) && repeatCount == old(repeatCount)) &&
        (!keeps && old(repeatCount) < maxRepeat && |group.ids| == 0 ==> r == Throws(IndexOutOfBounds)) &&
        (!keeps && restarts ==>
          r == Ok(()) && group.calls == old(group.calls) + [TickOrStopCall(c)] + tried &&
          group.childStatus == old(group.childStatus)[c := Stopped][group.ids[0] := Running] &&
          group.running == Some(group.ids[0]) && repeatCount == old(repeatCount) + 1) &&
        (!keeps && !restarts && (repeats || old(repeatCount) >= maxRepeat) ==>
          r == Ok(()) && group.calls == old(group.calls) + [TickOrStopCall(c)] + tried &&
          group.childStatus == old(group.childStatus)[c := Stopped] && group.running == None && repeatCount == 0 &&
          group.cooldownFinishedAt == gameTime + cooldown && group.stopCallbacks == old(group.stopCallbacks) + 1)
    {
      var c := group.running.value;
      group.TickOrStopChild(c, keeps);
      if group.childStatus[c] == Stopped {
        var picked := Pick(repeatOk, starts);
        if picked.Throws? {
          return Throws(picked.exception);
        }
        if picked.value.Some? {
          return Ok(());
        }
        group.running := None;
        Stop(gameTime, cooldown);
      }
      r := Ok(());
    }
  }

  /** With the default maxRepeat of 0 a RepeatableBehaviour never starts, and never asks a child. */
  method DefaultNeverStarts(ids: seq<ChildId>, starts: ChildId -> bool) returns (r: Result<bool>, calls: seq<ChildCall>)
    ensures r == Ok(false) && calls == []
  {
    var g := new RepeatableBehaviour(ids);
    r := g.DoStartCheck(true, true, starts);
    calls := g.group.calls;
  }

  /** The repeat count a RepeatingBehaviour starts with unless told otherwise. */
  const DEFAULT_REPEATS: int := INT_MAX_VALUE

  /** The common edition's RepeatingBehaviour, wrapping one child. */
  class RepeatingBehaviour {
    const child: ChildId
    /** getMemoryRequirements: the child's own. */
    const requirements: seq<Requirement>
    var entryCondition: map<MemoryType, MemoryStatus>
    var status: Status
    var startCallbacks: nat
    var stopCallbacks: nat
    var cooldownFinishedAt: int
    /** What the repeat-count provider answers. */
    var repeatCountProvided: int
    var repeats: int
    var childStatus: Status
    /** Every call made to the child, oldest first. */
    var calls: seq<ChildCall>
    /** How many times the base tick hook ran. */
    var ticks: nat

    /**
     * While the base constructor runs the child is still unset, so it copies
     * no requirements; the constructor then copies the child's.
     */
    constructor (child: ChildId, childRequirements: seq<Requirement>, childStatus: Status)
      ensures this.child == child && requirements == childRequirements
      ensures entryCondition == EntryConditionOf(childRequirements)
      ensures status == Stopped && startCallbacks == 0 && stopCallbacks == 0 && cooldownFinishedAt == 0
      ensures repeatCountProvided == DEFAULT_REPEATS && repeats == 0
      ensures this.childStatus == childStatus && calls == [] && ticks == 0
    {
      var conditions: map<MemoryType, MemoryStatus> := map[];
      var i := 0;
      while i < |childRequirements|
        invariant 0 <= i <= |childRequirements|
        invariant conditions == EntryConditionOf(childRequirements[..i])
      {
        assert childRequirements[..i + 1][..i] == childRequirements[..i];
        conditions := conditions[childRequirements[i].0 := childRequirements[i].1];
        i := i + 1;
      }
      assert childRequirements[..i] == childRequirements;
      this.child := child;
      requirements := childRequirements;
      entryCondition := conditions;
      status := Stopped;
      startCallbacks := 0;
      stopCallbacks := 0;
      cooldownFinishedAt := 0;
      repeatCountProvided := DEFAULT_REPEATS;
      repeats := 0;
      this.childStatus := childStatus;
      calls := [];
      ticks := 0;
    }

    /** repeatNTimes(n): n repeats, so the child runs n + 1 times. */
    method RepeatNTimes(n: int) returns (self: RepeatingBehaviour)
      modifies this`repeatCountProvided
      ensures self == this && repeatCountProvided == n
    {
      repeatCountProvided := n;
      self := this;
    }

    /** doStartCheck: the base checks and then a successful child tryStart; the child is not asked when the base fails. */
    method DoStartCheck(baseOk: bool, childStarts: bool) returns (b: bool)
      modifies this`childStatus, this`calls
      ensures b <==> baseOk && childStarts
      ensures calls == old(calls) + if baseOk then [TryStartCall(child)] else []
      ensures childStatus == if b then Running else old(childStatus)
    {
      if !baseOk {
        return false;
      }
      calls := calls + [TryStartCall(child)];
      if childStarts {
        childStatus := Running;
      }
      b := childStarts;
    }

    /** start: the start callback, and repeats from the provider. */
    method Start()
      modifies this`startCallbacks, this`repeats
      ensures startCallbacks == old(startCallbacks) + 1 && repeats == repeatCountProvided
    {
      startCallbacks := startCallbacks + 1;
      repeats := repeatCountProvided;
    }

    /** tryStart: when doStartCheck passes this runs, and start sets up the repeats. */
    method TryStart(baseOk: bool, childStarts: bool) returns (started: bool)
      modifies this`childStatus, this`calls, this`status, this`startCallbacks, this`repeats
      ensures started <==> baseOk && childStarts
      ensures calls == old(calls) + if baseOk then [TryStartCall(child)] else []
      ensures started ==> status == Running && childStatus == Running && repeats == repeatCountProvided && startCallbacks == old(startCallbacks) + 1
      ensures !started ==>
        status == old(status) && childStatus == old(childStatus) && repeats == old(repeats) && startCallbacks == old(startCallbacks)
    {
      started := DoStartCheck(baseOk, childStarts);
      if started {
        status := Running;
        Start();
      }
    }

    /** canStillUse: no stop condition, and the child still runs or a repeat is left. */
    function CanStillUse(stopCondition: bool): (b: bool)
      reads this
      ensures b ==> !stopCondition
      ensures !stopCondition ==> (b <==> childStatus == Running || repeats > 0)
    {
      !stopCondition && (childStatus != Stopped || repeats > 0)
    }

    /**
     * tick: the base tick hook, then a running child is ticked; a stopped one
     * is restarted only while repeats remain and the repeat predicate holds,
     * spending one repeat.
     */
    method Tick(repeatOk: bool, childStarts: bool, childKeeps: bool)
      modifies this`childStatus, this`calls, this`repeats, this`ticks
      ensures ticks == old(ticks) + 1
      ensures old(repeats) >= 0 ==> repeats >= 0
      ensures old(childStatus) == Running ==>
        calls == old(calls) + [TickOrStopCall(child)] && repeats == old(repeats) &&
        childStatus == if childKeeps then Running else Stopped
      ensures old(childStatus) == Stopped && !(old(repeats) > 0 && repeatOk) ==>
        calls == old(calls) && repeats == old(repeats) && childStatus == Stopped
      ensures old(childStatus) == Stopped && old(repeats) > 0 && repeatOk ==>
        calls == old(calls) + [TryStartCall(child)] &&
        repeats == old(repeats) - (if childStarts then 1 else 0) &&
        childStatus == if childStarts then Running else Stopped
    {
      ticks := ticks + 1;
      if childStatus != Stopped {
        calls := calls + [TickOrStopCall(child)];
        if !childKeeps {
          childStatus := Stopped;
        }
        return;
      }
      if repeats > 0 && repeatOk {
        calls := calls + [TryStartCall(child)];
        if childStarts {
          childStatus := Running;
          repeats := repeats - 1;
        }
      }
    }

    /** stop: the cooldown and stop callback, and a child still running is stopped too. */
    method Stop(gameTime: int, cooldown: int)
      modifies this`cooldownFinishedAt, this`stopCallbacks, this`childStatus, this`calls
      ensures childStatus == Stopped
      ensures cooldownFinishedAt == gameTime + cooldown && stopCallbacks == old(stopCallbacks) + 1
      ensures calls == old(calls) + if old(childStatus) == Running then [DoStopCall(child)] else []
    {
      cooldownFinishedAt := gameTime + cooldown;
      stopCallbacks := stopCallbacks + 1;
      if childStatus != Stopped {
        calls := calls + [DoStopCall(child)];
        childStatus := Stopped;
      }
    }
  }

  /**
   * One repeat runs the child twice: it is started with the wrapper, restarted
   * once after it stops, and after its second stop the wrapper can no longer
   * be used.
   */
  method OneRepeatRunsTwice(child: ChildId) returns (usable: bool, calls: seq<ChildCall>)
    ensures !usable
    ensures calls == [TryStartCall(child), TickOrStopCall(child), TryStartCall(child), TickOrStopCall(child)]
  {
    var r := new RepeatingBehaviour(child, [], Stopped);
    var _ := r.RepeatNTimes(1);
    var started := r.TryStart(true, true);
    r.Tick(true, true, false);
    r.Tick(true, true, true);
    r.Tick(true, true, false);
    r.Tick(true, true, true);
    usable := r.CanStillUse(false);
    calls := r.calls;
  }
}
