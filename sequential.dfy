// The two SequentialBehaviour combinators: the Forge one walks its children
// with an index and keeps running through them within one start; the Common
// one remembers the child it last started and starts the one after it on
// its next start.
module Sequentials {
  import opened Wrappers
  import opened Domain
  import opened GroupBehaviours

  /** The index-based SequentialBehaviour of the Forge edition. */
  class SequentialBehaviour {
    const group: GroupBehaviour
    var runningIndex: int

    ghost predicate Valid()
      reads this, group
    {
      group.Valid() && 0 <= runningIndex <= |group.ids|
    }

    /** pickBehaviour would try the child at runningIndex: there is one, and no early reset applies to it. */
    ghost predicate WouldTry(earlyReset: ChildId -> bool)
      requires Valid()
      reads this, group
    {
      runningIndex < |group.ids| && !(group.running.Some? && earlyReset(group.ids[runningIndex]))
    }

    constructor (ids: seq<ChildId>)
      ensures Valid() && fresh(group) && group.ids == ids && runningIndex == 0
      ensures group.childStatus == (map c | c in ids :: Stopped) && group.calls == [] && group.running == None
    {
      group := new GroupBehaviour(ids);
      runningIndex := 0;
    }

    /**
     * pickBehaviour: tries the child at runningIndex only; on success it
     * becomes the running child and the index moves on by one. Past the end,
     * or when a child runs and the early-reset predicate holds for the next
     * one, nothing is tried.
     */
    method Pick(starts: ChildId -> bool, earlyReset: ChildId -> bool) returns (picked: Option<ChildId>)
      requires Valid()
      modifies this`runningIndex, group`running, group`childStatus, group`calls
      ensures Valid()
      ensures !old(WouldTry(earlyReset)) ==>
        picked == None && runningIndex == old(runningIndex) && group.running == old(group.running) &&
        group.childStatus == old(group.childStatus) && group.calls == old(group.calls)
      ensures old(WouldTry(earlyReset)) ==>
        var next := group.ids[old(runningIndex)];
        group.calls == old(group.calls) + [TryStartCall(next)] &&
        (starts(next) ==>
          picked == Some(next) && group.running == picked && runningIndex == old(runningIndex) + 1 &&
          group.childStatus == old(group.childStatus)[next := Running]) &&
        (!starts(next) ==>
          picked == None && group.running == old(group.running) && runningIndex == old(runningIndex) &&
          group.childStatus == old(group.childStatus))
    {
      if runningIndex >= |group.ids| {
        return None;
      }
      var next := group.ids[runningIndex];
      if group.running.Some? && earlyReset(next) {
        return None;
      }
      var ok := group.TryStartChild(next, starts(next));
      if ok {
        group.running := Some(next);
        runningIndex := runningIndex + 1;
        return group.running;
      }
      picked := None;
    }

    /** doStartCheck: the base checks, then the picked child is stored as the running one. */
    method DoStartCheck(baseOk: bool, starts: ChildId -> bool, earlyReset: ChildId -> bool) returns (b: bool)
      requires Valid()
      modifies this`runningIndex, group`running, group`childStatus, group`calls
      ensures Valid()
      ensures !baseOk ==>
        !b && runningIndex == old(runningIndex) && group.running == old(group.running) &&
        group.childStatus == old(group.childStatus) && group.calls == old(group.calls)
      ensures baseOk ==>
        group.calls == old(group.calls) + (if old(WouldTry(earlyReset)) then [TryStartCall(group.ids[old(runningIndex)])] else []) &&
        (b <==> old(WouldTry(earlyReset)) && starts(group.ids[old(runningIndex)])) &&
        group.childStatus == (if b then old(group.childStatus)[group.ids[old(runningIndex)] := Running] else old(group.childStatus)) &&
        (b ==> group.running == Some(group.ids[old(runningIndex)]) && runningIndex == old(runningIndex) + 1) &&
        (!b ==> group.running == None && runningIndex == old(runningIndex))
    {
      if !baseOk {
        return false;
      }
      var picked := Pick(starts, earlyReset);
      group.running := picked;
      b := picked.Some?;
    }

    /** shouldKeepRunning: a child is running and has not stopped. */
    function ShouldKeepRunning(): (b: bool)
      requires Valid()
      reads this, group
      ensures b <==> group.GetStatus() == Running
    {
      group.RunningChildActive()
    }

    /** timedOut: with no running child; otherwise only once the child has timed out and no child is left. */
    function TimedOut(childTimedOut: ChildId -> bool): (b: bool)
      requires Valid()
      reads this, group
      ensures group.running.None? ==> b
      ensures group.running.Some? && runningIndex < |group.ids| ==> !b
      ensures group.running.Some? && runningIndex == |group.ids| ==> (b <==> childTimedOut(group.running.value))
    {
      group.running.None? || (childTimedOut(group.running.value) && runningIndex >= |group.ids|)
    }

    /** stop: the group's stop, and the sequence restarts from its first child. */
    method Stop(gameTime: int, cooldown: int)
      requires Valid()
      modifies this`runningIndex, group`cooldownFinishedAt, group`stopCallbacks, group`calls, group`running
      ensures Valid() && runningIndex == 0 && group.running == None
      ensures group.cooldownFinishedAt == gameTime + cooldown && group.stopCallbacks == old(group.stopCallbacks) + 1
      ensures group.calls == old(group.calls) + if old(group.running).Some? then [StopHookCall(old(group.running).value)] else []
    {
      group.Stop(gameTime, cooldown);
      runningIndex := 0;
    }

    /**
     * tick as written: ticks the running child; once it has stopped, the next
     * child is tried, and when none starts the sequence stops. The finished
     * child is still the running one at that point, so the group's stop calls
     * its stop hook a second time.
     */
    method Tick(gameTime: int, cooldown: int, keeps: bool, starts: ChildId -> bool, earlyReset: ChildId -> bool)
      requires Valid() && group.running.Some? && group.GetStatus() == Running
      modifies this`runningIndex, group`childStatus, group`calls, group`running, group`cooldownFinishedAt, group`stopCallbacks
      ensures Valid()
      ensures var c := old(group.running).value;
        var i := old(runningIndex);
        var tries := i < |group.ids| && !earlyReset(group.ids[i]);
        var tried := if tries then [TryStartCall(group.ids[i])] else [];
        (keeps ==>
          group.calls == old(group.calls) + [TickOrStopCall(c)] && group.childStatus == old(group.childStatus) &&
          group.running == old(group.running) && runningIndex == i) &&
        (!keeps && tries && starts(group.ids[i]) ==>
          group.calls == old(group.calls) + [TickOrStopCall(c)] + tried &&
          group.childStatus == old(group.childStatus)[c := Stopped][group.ids[i] := Running] &&
          group.running == Some(group.ids[i]) && runningIndex == i + 1) &&
        (!keeps && !(tries && starts(group.ids[i])) ==>
          group.calls == old(group.calls) + [TickOrStopCall(c)] + tried + [StopHookCall(c)] &&
          group.childStatus == old(group.childStatus)[c := Stopped] &&
          group.running == None && runningIndex == 0 &&
          group.cooldownFinishedAt == gameTime + cooldown && group.stopCallbacks == old(group.stopCallbacks) + 1)
    {
      var c := group.running.value;
      group.TickOrStopChild(c, keeps);
      if group.childStatus[c] == Stopped {
        var picked := Pick(starts, earlyReset);
        if picked.Some? {
          return;
        }
        Stop(gameTime, cooldown);
      }
    }

    /**
     * tick as evidently intended: as above, but the finished child is cleared
     * before the sequence stops, as the base group's tick does, so its stop
     * hook runs only once (from its own tickOrStop).
     */
    method TickClearingFinished(gameTime: int, cooldown: int, keeps: bool, starts: ChildId -> bool, earlyReset: ChildId -> bool)
      requires Valid() && group.running.Some? && group.GetStatus() == Running
      modifies this`runningIndex, group`childStatus, group`calls, group`running, group`cooldownFinishedAt, group`stopCallbacks
      ensures Valid()
      ensures var c := old(group.running).value;
        var i := old(runningIndex);
        var tries := i < |group.ids| && !earlyReset(group.ids[i]);
        var tried := if tries then [TryStartCall(group.ids[i])] else [];
        (keeps ==>
          group.calls == old(group.calls) + [TickOrStopCall(c)] && group.childStatus == old(group.childStatus) &&
          group.running == old(group.running) && runningIndex == i) &&
        (!keeps && tries && starts(group.ids[i]) ==>
          group.calls == old(group.calls) + [TickOrStopCall(c)] + tried &&
          group.childStatus == old(group.childStatus)[c := Stopped][group.ids[i] := Running] &&
          group.running == Some(group.ids[i]) && runningIndex == i + 1) &&
        (!keeps && !(tries && starts(group.ids[i])) ==>
          group.calls == old(group.calls) + [TickOrStopCall(c)] + tried &&
          group.childStatus == old(group.childStatus)[c := Stopped] &&
          group.running == None && runningIndex == 0 &&
          group.cooldownFinishedAt == gameTime + cooldown && group.stopCallbacks == old(group.stopCallbacks) + 1)
    {
      var c := group.running.value;
      group.TickOrStopChild(c, keeps);
      if group.childStatus[c] == Stopped {
        var picked := Pick(starts, earlyReset);
        if picked.Some? {
          return;
        }
        group.running := None;
        Stop(gameTime, cooldown);
      }
    }
  }

  /**
   * A single child that stops at its first tick: with the tick as written its
   * stop hook is called again by the group after it stopped itself.
   */
  method SoleChildStoppedTwice(c: ChildId) returns (calls: seq<ChildCall>)
    ensures calls == [TryStartCall(c), TickOrStopCall(c), StopHookCall(c)]
  {
    var s := new SequentialBehaviour([c]);
    var ok := s.DoStartCheck(true, x => true, x => false);
    s.Tick(0, 0, false, x => true, x => false);
    calls := s.group.calls;
  }

  /** The same run with the intended tick: the child's stop hook is not called again. */
  method SoleChildStoppedOnce(c: ChildId) returns (calls: seq<ChildCall>)
    ensures calls == [TryStartCall(c), TickOrStopCall(c)]
  {
    var s := new SequentialBehaviour([c]);
    var ok := s.DoStartCheck(true, x => true, x => false);
    s.TickClearingFinished(0, 0, false, x => true, x => false);
    calls := s.group.calls;
  }

  /** The position after the first occurrence of `x`, when it is not the last one. */
  function PositionAfter(ids: seq<ChildId>, x: ChildId): (r: Option<nat>)
    ensures r.Some? ==> 0 < r.value < |ids| && ids[r.value - 1] == x && x !in ids[..r.value - 1]
    ensures r.None? ==> x !in ids || (ids[|ids| - 1] == x && x !in ids[..|ids| - 1])
  {
    if |ids| == 0 then None
    else if ids[0] == x then (if |ids| > 1 then Some(1) else None)
    else
      match PositionAfter(ids[1..], x)
      case None =>
        assert |ids| > 1 ==> ids[..|ids| - 1] == [ids[0]] + ids[1..][..|ids| - 2];
        None
      case Some(k) =>
        assert ids[..k] == [ids[0]] + ids[1..][..k - 1];
        Some(k + 1)
  }

  /** The position the lastRun scan tries: the first one with no last run, else the one after it. */
  function NextPosition(ids: seq<ChildId>, last: Option<ChildId>): (r: Option<nat>)
    ensures r.Some? ==> r.value < |ids|
    ensures last.None? ==> r == if |ids| > 0 then Some(0) else None
  {
    if last.None? then (if |ids| > 0 then Some(0) else None) else PositionAfter(ids, last.value)
  }

  /** Over distinct children the scan tries each child after the previous one, and none after the last. */
  lemma NextPositionDistinct(ids: seq<ChildId>, k: nat)
    requires forall i, j :: 0 <= i < j < |ids| ==> ids[i] != ids[j]
    requires k < |ids|
    ensures NextPosition(ids, Some(ids[k])) == if k + 1 < |ids| then Some(k + 1) else None
  {
    forall j | 0 <= j < k
      ensures ids[..k][j] != ids[k]
    {
      assert ids[..k][j] == ids[j];
    }
    PositionAfterAt(ids, k);
  }

  /** The lastRun-based SequentialBehaviour of the Common edition. */
  class LastRunSequentialBehaviour {
    const group: GroupBehaviour
    var lastRun: Option<ChildId>

    ghost predicate Valid()
      reads this, group
    {
      group.Valid()
    }

    /** The last run the scan starts from: none when the early-reset predicate holds for it. */
    function EffectiveLast(earlyReset: ChildId -> bool): (last: Option<ChildId>)
      reads this
      ensures lastRun.None? ==> last == None
      ensures lastRun.Some? ==> last == if earlyReset(lastRun.value) then None else lastRun
    {
      if lastRun.Some? && earlyReset(lastRun.value) then None else lastRun
    }

    constructor (ids: seq<ChildId>)
      ensures Valid() && fresh(group) && group.ids == ids && lastRun == None
      ensures group.childStatus == (map c | c in ids :: Stopped) && group.calls == [] && group.running == None
    {
      group := new GroupBehaviour(ids);
      lastRun := None;
    }

    /**
     * pickBehaviour: at most one child is tried, the one at NextPosition; on
     * success it becomes lastRun. When there is no such position lastRun is
     * reset and nothing is tried.
     */
    method Pick(starts: ChildId -> bool, earlyReset: ChildId -> bool) returns (picked: Option<ChildId>)
      requires Valid()
      modifies this`lastRun, group`childStatus, group`calls
      ensures Valid() && group.running == old(group.running)
      ensures var last := old(EffectiveLast(earlyReset));
        var pos := NextPosition(group.ids, last);
        (pos.None? ==>
          picked == None && lastRun == None && group.calls == old(group.calls) && group.childStatus == old(group.childStatus)) &&
        (pos.Some? ==>
          var c := group.ids[pos.value];
          group.calls == old(group.calls) + [TryStartCall(c)] &&
          (starts(c) ==> picked == Some(c) && lastRun == picked && group.childStatus == old(group.childStatus)[c := Running]) &&
          (!starts(c) ==> picked == None && lastRun == last && group.childStatus == old(group.childStatus)))
    {
      var pickNext := lastRun.None?;
      if lastRun.Some? && earlyReset(lastRun.value) {
        pickNext := true;
        lastRun := None;
      }
      ghost var last := lastRun;
      var ids := group.ids;
      var i := 0;
      while i < |ids|
        invariant 0 <= i <= |ids| && lastRun == last
        invariant group.calls == old(group.calls) && group.childStatus == old(group.childStatus)
        invariant pickNext ==> (last.None? && i == 0) || (last.Some? && 0 < i && ids[i - 1] == last.value && last.value !in ids[..i - 1])
        invariant !pickNext ==> last.Some? && last.value !in ids[..i]
      {
        if pickNext {
          if last.Some? {
            PositionAfterAt(ids, i - 1);
          }
          var ok := group.TryStartChild(ids[i], starts(ids[i]));
          if ok {
            lastRun := Some(ids[i]);
            return lastRun;
          }
          return None;
        }
        if ids[i] == lastRun.value {
          pickNext := true;
        }
        assert ids[..i + 1] == ids[..i] + [ids[i]];
        i := i + 1;
      }
      assert ids[..i] == ids;
      if pickNext && last.Some? {
        PositionAfterAt(ids, i - 1);
      }
      lastRun := None;
      picked := None;
    }

    /** doStartCheck: the base checks, then the picked child is stored as the running one. */
    method DoStartCheck(baseOk: bool, starts: ChildId -> bool, earlyReset: ChildId -> bool) returns (b: bool)
      requires Valid()
      modifies this`lastRun, group`running, group`childStatus, group`calls
      ensures Valid()
      ensures !baseOk ==>
        !b && lastRun == old(lastRun) && group.running == old(group.running) &&
        group.childStatus == old(group.childStatus) && group.calls == old(group.calls)
      ensures baseOk ==>
        var pos := NextPosition(group.ids, old(EffectiveLast(earlyReset)));
        group.calls == old(group.calls) + (if pos.Some? then [TryStartCall(group.ids[pos.value])] else []) &&
        (b <==> pos.Some? && starts(group.ids[pos.value])) &&
        group.childStatus == (if b then old(group.childStatus)[group.ids[pos.value] := Running] else old(group.childStatus)) &&
        group.running == (if b then Some(group.ids[pos.value]) else None) &&
        (b ==> lastRun == group.running)
    {
      if !baseOk {
        return false;
      }
      var picked := Pick(starts, earlyReset);
      group.running := picked;
      b := picked.Some?;
    }
  }

  /** A scan that meets the first occurrence of `x` at i, not at the end, tries i + 1 next. */
  lemma PositionAfterAt(ids: seq<ChildId>, i: nat)
    requires i < |ids| && ids[i] !in ids[..i]
    ensures PositionAfter(ids, ids[i]) == if i + 1 < |ids| then Some(i + 1) else None
  {
  }
}
