// AllApplicableBehaviours: a group that tries to start every child and is
// running while any of them is. The common edition reports the last child
// that started; the Forge edition's pickBehaviour reports none.
module AllApplicable {
  import opened Wrappers
  import opened Domain
  import opened GroupBehaviours

  /** Statuses after each listed child was asked to start: those that start are running. */
  function StartedAll(st: map<ChildId, Status>, ids: seq<ChildId>, starts: ChildId -> bool): map<ChildId, Status>
  {
    map c | c in st :: if c in ids && starts(c) then Running else st[c]
  }

  /** The position of the last listed child that starts, if any. */
  function LastStartedAt(ids: seq<ChildId>, starts: ChildId -> bool): (r: Option<nat>)
    ensures r.None? <==> forall i :: 0 <= i < |ids| ==> !starts(ids[i])
    ensures r.Some? ==> r.value < |ids| && starts(ids[r.value]) && forall j :: r.value < j < |ids| ==> !starts(ids[j])
  {
    if |ids| == 0 then None
    else if starts(ids[|ids| - 1]) then Some(|ids| - 1)
    else
      var r := LastStartedAt(ids[..|ids| - 1], starts);
      assert forall i :: 0 <= i < |ids| - 1 ==> ids[..|ids| - 1][i] == ids[i];
      r
  }

  /** The last listed child that starts, if any. */
  function LastStarted(ids: seq<ChildId>, starts: ChildId -> bool): Option<ChildId>
  {
    var k := LastStartedAt(ids, starts);
    if k.Some? then Some(ids[k.value]) else None
  }

  /** Some listed child was running and keeps going. */
  predicate AnyKept(st: map<ChildId, Status>, ids: seq<ChildId>, keeps: ChildId -> bool)
  {
    exists j :: 0 <= j < |ids| && ids[j] in st && st[ids[j]] == Running && keeps(ids[j])
  }

  lemma AnyKeptSnoc(st: map<ChildId, Status>, ids: seq<ChildId>, c: ChildId, keeps: ChildId -> bool)
    ensures AnyKept(st, ids + [c], keeps) <==> AnyKept(st, ids, keeps) || (c in st && st[c] == Running && keeps(c))
  {
    var s := ids + [c];
    if AnyKept(st, ids, keeps) {
      var j :| 0 <= j < |ids| && ids[j] in st && st[ids[j]] == Running && keeps(ids[j]);
      assert s[j] == ids[j];
    }
    if c in st && st[c] == Running && keeps(c) {
      assert s[|ids|] == c;
    }
    if AnyKept(st, s, keeps) && !(c in st && st[c] == Running && keeps(c)) {
      var j :| 0 <= j < |s| && s[j] in st && st[s[j]] == Running && keeps(s[j]);
      assert j < |ids| && s[j] == ids[j];
    }
  }

  lemma StartedAllSnoc(st: map<ChildId, Status>, ids: seq<ChildId>, c: ChildId, starts: ChildId -> bool)
    requires c in st
    ensures StartedAll(st, ids + [c], starts) == if starts(c) then StartedAll(st, ids, starts)[c := Running] else StartedAll(st, ids, starts)
  {
    assert forall d :: d in ids + [c] <==> d in ids || d == c;
  }

  /** Statuses after the tick loop: each listed child still running when reached is ticked, and stops unless it keeps going. */
  function Ticked(st: map<ChildId, Status>, ids: seq<ChildId>, keeps: ChildId -> bool): map<ChildId, Status>
  {
    if |ids| == 0 then st
    else
      var c := ids[|ids| - 1];
      var before := Ticked(st, ids[..|ids| - 1], keeps);
      if c in before && before[c] == Running && !keeps(c) then before[c := Stopped] else before
  }

  /** The tick calls of that loop, in order. */
  function TickCalls(st: map<ChildId, Status>, ids: seq<ChildId>, keeps: ChildId -> bool): seq<ChildCall>
  {
    if |ids| == 0 then []
    else
      var c := ids[|ids| - 1];
      var before := Ticked(st, ids[..|ids| - 1], keeps);
      TickCalls(st, ids[..|ids| - 1], keeps) + if c in before && before[c] == Running then [TickOrStopCall(c)] else []
  }

  /** Statuses after the stop loop: each listed child still running when reached is stopped. */
  function StoppedAll(st: map<ChildId, Status>, ids: seq<ChildId>): map<ChildId, Status>
  {
    if |ids| == 0 then st
    else
      var c := ids[|ids| - 1];
      var before := StoppedAll(st, ids[..|ids| - 1]);
      if c in before && before[c] == Running then before[c := Stopped] else before
  }

  /** The doStop calls of that loop, in order. */
  function StopCalls(st: map<ChildId, Status>, ids: seq<ChildId>): seq<ChildCall>
  {
    if |ids| == 0 then []
    else
      var c := ids[|ids| - 1];
      var before := StoppedAll(st, ids[..|ids| - 1]);
      StopCalls(st, ids[..|ids| - 1]) + if c in before && before[c] == Running then [DoStopCall(c)] else []
  }

  /** After the tick loop a child has stopped exactly when it is listed, was running and did not keep going; nothing else changes. */
  lemma {:induction false} TickedAt(st: map<ChildId, Status>, ids: seq<ChildId>, keeps: ChildId -> bool, c: ChildId)
    ensures Ticked(st, ids, keeps).Keys == st.Keys
    ensures c in st ==> Ticked(st, ids, keeps)[c] == if c in ids && st[c] == Running && !keeps(c) then Stopped else st[c]
    decreases |ids|
  {
    if |ids| > 0 {
      var init := ids[..|ids| - 1];
      TickedAt(st, init, keeps, c);
      TickedAt(st, init, keeps, ids[|ids| - 1]);
      assert ids == init + [ids[|ids| - 1]];
    }
  }

  /** After the stop loop no listed child is running; the others are as they were. */
  lemma {:induction false} StoppedAllAt(st: map<ChildId, Status>, ids: seq<ChildId>, c: ChildId)
    ensures StoppedAll(st, ids).Keys == st.Keys
    ensures c in st ==> StoppedAll(st, ids)[c] == if c in ids && st[c] == Running then Stopped else st[c]
    decreases |ids|
  {
    if |ids| > 0 {
      var init := ids[..|ids| - 1];
      StoppedAllAt(st, init, c);
      StoppedAllAt(st, init, ids[|ids| - 1]);
      assert ids == init + [ids[|ids| - 1]];
    }
  }

  /** Exactly the listed children that were running when the tick began are ticked, and only they. */
  lemma {:induction false} TickCallsAreRunning(st: map<ChildId, Status>, ids: seq<ChildId>, keeps: ChildId -> bool, c: ChildId)
    ensures TickOrStopCall(c) in TickCalls(st, ids, keeps) <==> c in ids && c in st && st[c] == Running
    ensures forall call :: call in TickCalls(st, ids, keeps) ==> call.TickOrStopCall?
    decreases |ids|
  {
    if |ids| > 0 {
      var init := ids[..|ids| - 1];
      var d := ids[|ids| - 1];
      TickCallsAreRunning(st, init, keeps, c);
      TickedAt(st, init, keeps, c);
      assert ids == init + [d];
    }
  }

  /** Exactly the listed children that were running are stopped, and only they. */
  lemma {:induction false} StopCallsAreRunning(st: map<ChildId, Status>, ids: seq<ChildId>, c: ChildId)
    ensures DoStopCall(c) in StopCalls(st, ids) <==> c in ids && c in st && st[c] == Running
    ensures forall call :: call in StopCalls(st, ids) ==> call.DoStopCall?
    decreases |ids|
  {
    if |ids| > 0 {
      var init := ids[..|ids| - 1];
      var d := ids[|ids| - 1];
      StopCallsAreRunning(st, init, c);
      StoppedAllAt(st, init, c);
      assert ids == init + [d];
    }
  }

  /** AllApplicableBehaviours; `running` is the child doStartCheck recorded. */
  class AllApplicableBehaviours {
    const group: GroupBehaviour

    ghost predicate Valid()
      reads this, group
    {
      group.Valid()
    }

    /** Some listed child is running. */
    ghost predicate AnyRunning()
      requires Valid()
      reads this, group
    {
      exists i :: 0 <= i < |group.ids| && group.childStatus[group.ids[i]] == Running
    }

    constructor (ids: seq<ChildId>)
      ensures Valid() && fresh(group) && group.ids == ids
      ensures group.childStatus == (map c | c in ids :: Stopped) && group.calls == [] && group.running == None
      ensures group.cooldownFinishedAt == 0 && group.stopCallbacks == 0
    {
      group := new GroupBehaviour(ids);
    }

    /** The loop both editions share: every child is asked to start, in order; the last that started is returned. */
    method TryAll(starts: ChildId -> bool) returns (last: Option<ChildId>)
      requires Valid()
      modifies group`childStatus, group`calls
      ensures Valid()
      ensures group.calls == old(group.calls) + TryEach(group.ids)
      ensures group.childStatus == StartedAll(old(group.childStatus), group.ids, starts)
      ensures last == LastStarted(group.ids, starts)
    {
      var ids := group.ids;
      last := None;
      var i := 0;
      while i < |ids|
        invariant 0 <= i <= |ids| && Valid()
        invariant group.calls == old(group.calls) + TryEach(ids[..i])
        invariant group.childStatus == StartedAll(old(group.childStatus), ids[..i], starts)
        invariant last == LastStarted(ids[..i], starts)
      {
        var ok := group.TryStartChild(ids[i], starts(ids[i]));
        if ok {
          last := Some(ids[i]);
        }
        assert ids[..i + 1] == ids[..i] + [ids[i]];
        StartedAllSnoc(old(group.childStatus), ids[..i], ids[i], starts);
        assert ids[..i + 1][..i] == ids[..i];
        assert TryEach(ids[..i + 1]) == TryEach(ids[..i]) + [TryStartCall(ids[i])];
        i := i + 1;
      }
      assert ids[..i] == ids;
    }

    /** pickBehaviour (common edition): the last child that started, or none when none did. */
    method Pick(starts: ChildId -> bool) returns (picked: Option<ChildId>)
      requires Valid()
      modifies group`childStatus, group`calls
      ensures Valid()
      ensures group.calls == old(group.calls) + TryEach(group.ids)
      ensures group.childStatus == StartedAll(old(group.childStatus), group.ids, starts)
      ensures var k := LastStartedAt(group.ids, starts);
        picked == if k.Some? then Some(group.ids[k.value]) else None
    {
      picked := TryAll(starts);
    }

    /** doStartCheck (common edition): the base checks, then it succeeds exactly when some child started. */
    method DoStartCheck(baseOk: bool, starts: ChildId -> bool) returns (b: bool)
      requires Valid()
      modifies group`childStatus, group`calls, group`running
      ensures Valid()
      ensures !baseOk ==>
        !b && group.calls == old(group.calls) && group.childStatus == old(group.childStatus) && group.running == old(group.running)
      ensures baseOk ==>
        group.calls == old(group.calls) + TryEach(group.ids) &&
        group.childStatus == StartedAll(old(group.childStatus), group.ids, starts) &&
        group.running == LastStarted(group.ids, starts)
      ensures b <==> baseOk && exists i :: 0 <= i < |group.ids| && starts(group.ids[i])
    {
      if !baseOk {
        return false;
      }
      var picked := Pick(starts);
      group.running := picked;
      b := picked.Some?;
    }

    /** pickBehaviour (Forge edition): every child is asked to start, and none is reported. */
    method ForgePick(starts: ChildId -> bool) returns (picked: Option<ChildId>)
      requires Valid()
      modifies group`childStatus, group`calls
      ensures Valid()
      ensures group.calls == old(group.calls) + TryEach(group.ids)
      ensures group.childStatus == StartedAll(old(group.childStatus), group.ids, starts)
      ensures picked == None
    {
      var _ := TryAll(starts);
      picked := None;
    }

    /**
     * doStartCheck (Forge edition): its own cooldown, memory, start-condition
     * and extra checks in that order, then the Forge pick; it therefore never
     * succeeds, even when children were started.
     */
    method ForgeDoStartCheck(gameTime: int, memoriesMet: bool, startConditionOk: bool, extraOk: bool, starts: ChildId -> bool)
      returns (b: bool)
      requires Valid()
      modifies group`childStatus, group`calls, group`running
      ensures Valid() && !b
      ensures var checks := group.cooldownFinishedAt <= gameTime && memoriesMet && startConditionOk && extraOk;
        (!checks ==>
          group.calls == old(group.calls) && group.childStatus == old(group.childStatus) && group.running == old(group.running)) &&
        (checks ==>
          group.calls == old(group.calls) + TryEach(group.ids) &&
          group.childStatus == StartedAll(old(group.childStatus), group.ids, starts) && group.running == None)
    {
      if group.cooldownFinishedAt > gameTime || !memoriesMet || !startConditionOk || !extraOk {
        return false;
      }
      var picked := ForgePick(starts);
      group.running := picked;
      b := picked.Some?;
    }

    /** getStatus: running exactly when some child is running. */
    method GetStatus() returns (s: Status)
      requires Valid()
      ensures s == Running <==> AnyRunning()
    {
      var i := 0;
      while i < |group.ids|
        invariant 0 <= i <= |group.ids|
        invariant forall j :: 0 <= j < i ==> group.childStatus[group.ids[j]] != Running
      {
        if group.childStatus[group.ids[i]] == Running {
          return Running;
        }
        i := i + 1;
      }
      s := Stopped;
    }

    /** shouldKeepRunning: some running child can still be used. */
    method ShouldKeepRunning(usable: ChildId -> bool) returns (b: bool)
      requires Valid()
      ensures b <==> exists i :: 0 <= i < |group.ids| && group.childStatus[group.ids[i]] == Running && usable(group.ids[i])
    {
      b := false;
      var i := 0;
      while i < |group.ids|
        invariant 0 <= i <= |group.ids|
        invariant b <==> exists j :: 0 <= j < i && group.childStatus[group.ids[j]] == Running && usable(group.ids[j])
      {
        b := b || (group.childStatus[group.ids[i]] == Running && usable(group.ids[i]));
        i := i + 1;
      }
    }

    /** timedOut: every running child has timed out (vacuously so when none runs). */
    method TimedOut(childTimedOut: ChildId -> bool) returns (b: bool)
      requires Valid()
      ensures b <==> forall i :: 0 <= i < |group.ids| && group.childStatus[group.ids[i]] == Running ==> childTimedOut(group.ids[i])
      ensures !AnyRunning() ==> b
    {
      b := true;
      var i := 0;
      while i < |group.ids|
        invariant 0 <= i <= |group.ids|
        invariant b <==> forall j :: 0 <= j < i && group.childStatus[group.ids[j]] == Running ==> childTimedOut(group.ids[j])
      {
        if group.childStatus[group.ids[i]] == Running && !childTimedOut(group.ids[i]) {
          b := false;
        }
        i := i + 1;
      }
    }

    /** The stop loop: every listed child still running is stopped through its doStop, in order. */
    method StopChildren()
      requires Valid()
      modifies group`childStatus, group`calls
      ensures Valid()
      ensures group.childStatus == StoppedAll(old(group.childStatus), group.ids)
      ensures group.calls == old(group.calls) + StopCalls(old(group.childStatus), group.ids)
    {
      var ids := group.ids;
      var i := 0;
      while i < |ids|
        invariant 0 <= i <= |ids| && Valid()
        invariant group.childStatus == StoppedAll(old(group.childStatus), ids[..i])
        invariant group.calls == old(group.calls) + StopCalls(old(group.childStatus), ids[..i])
      {
        assert ids[..i + 1] == ids[..i] + [ids[i]];
        assert ids[..i + 1][..i] == ids[..i];
        if group.childStatus[ids[i]] == Running {
          group.DoStopChild(ids[i]);
        }
        i := i + 1;
      }
      assert ids[..i] == ids;
    }

    /**
     * stop: the cooldown runs from now, the stop callback runs, and every
     * child still running is stopped through its doStop.
     */
    method Stop(gameTime: int, cooldown: int)
      requires Valid()
      modifies group`cooldownFinishedAt, group`stopCallbacks, group`childStatus, group`calls
      ensures Valid() && !AnyRunning()
      ensures group.cooldownFinishedAt == gameTime + cooldown && group.stopCallbacks == old(group.stopCallbacks) + 1
      ensures group.childStatus == StoppedAll(old(group.childStatus), group.ids)
      ensures group.calls == old(group.calls) + StopCalls(old(group.childStatus), group.ids)
    {
      group.cooldownFinishedAt := gameTime + cooldown;
      group.stopCallbacks := group.stopCallbacks + 1;
      StopChildren();
      forall j | 0 <= j < |group.ids|
        ensures group.childStatus[group.ids[j]] != Running
      {
        StoppedAllAt(old(group.childStatus), group.ids, group.ids[j]);
      }
    }

    /** The tick loop: each listed child still running is ticked, in order; the answer is whether any kept running. */
    method TickChildren(keeps: ChildId -> bool) returns (stillRunning: bool)
      requires Valid()
      modifies group`childStatus, group`calls
      ensures Valid()
      ensures group.childStatus == Ticked(old(group.childStatus), group.ids, keeps)
      ensures group.calls == old(group.calls) + TickCalls(old(group.childStatus), group.ids, keeps)
      ensures stillRunning == AnyKept(old(group.childStatus), group.ids, keeps)
    {
      var ids := group.ids;
      ghost var st := group.childStatus;
      stillRunning := false;
      var i := 0;
      while i < |ids|
        invariant 0 <= i <= |ids| && Valid()
        invariant group.childStatus == Ticked(st, ids[..i], keeps)
        invariant group.calls == old(group.calls) + TickCalls(st, ids[..i], keeps)
        invariant stillRunning == AnyKept(st, ids[..i], keeps)
      {
        assert ids[..i + 1] == ids[..i] + [ids[i]];
        TickedAt(st, ids[..i], keeps, ids[i]);
        AnyKeptSnoc(st, ids[..i], ids[i], keeps);
        assert ids[..i + 1][..i] == ids[..i];
        if group.childStatus[ids[i]] == Running {
          group.TickOrStopChild(ids[i], keeps(ids[i]));
          if group.childStatus[ids[i]] != Stopped {
            stillRunning := true;
          }
        }
        i := i + 1;
      }
      assert ids[..i] == ids;
    }

    /**
     * tick: every running child is ticked in order; when none of them is
     * still running afterwards the group stops.
     */
    method Tick(gameTime: int, cooldown: int, keeps: ChildId -> bool)
      requires Valid()
      modifies group`cooldownFinishedAt, group`stopCallbacks, group`childStatus, group`calls
      ensures Valid()
      ensures group.childStatus == Ticked(old(group.childStatus), group.ids, keeps)
      ensures group.calls == old(group.calls) + TickCalls(old(group.childStatus), group.ids, keeps)
      ensures var still := AnyKept(old(group.childStatus), group.ids, keeps);
        (still ==> group.cooldownFinishedAt == old(group.cooldownFinishedAt) && group.stopCallbacks == old(group.stopCallbacks)) &&
        (!still ==>
          !AnyRunning() && group.cooldownFinishedAt == gameTime + cooldown && group.stopCallbacks == old(group.stopCallbacks) + 1)
    {
      var stillRunning := TickChildren(keeps);
      if !stillRunning {
        forall j | 0 <= j < |group.ids|
          ensures group.childStatus[group.ids[j]] != Running
        {
          TickedAt(old(group.childStatus), group.ids, keeps, group.ids[j]);
        }
        NothingToStop(group.childStatus, group.ids);
        Stop(gameTime, cooldown);
      }
    }
  }

  /** The stop loop changes nothing when no listed child runs. */
  lemma {:induction false} NothingToStop(st: map<ChildId, Status>, ids: seq<ChildId>)
    requires forall j :: 0 <= j < |ids| ==> ids[j] in st && st[ids[j]] != Running
    ensures StoppedAll(st, ids) == st && StopCalls(st, ids) == []
    decreases |ids|
  {
    if |ids| > 0 {
      NothingToStop(st, ids[..|ids| - 1]);
    }
  }

  /**
   * One child that starts: the Forge doStartCheck reports failure although
   * the child was started and the group's status is running.
   */
  method ForgeStartedChildUnreported(c: ChildId) returns (started: bool, status: Status)
    ensures !started && status == Running
  {
    var g := new AllApplicableBehaviours([c]);
    started := g.ForgeDoStartCheck(0, true, true, true, x => true);
    assert g.group.ids[0] == c && g.group.childStatus[c] == Running;
    status := g.GetStatus();
  }

  /** The same child with the common edition's doStartCheck: the start is reported. */
  method StartedChildReported(c: ChildId) returns (started: bool, status: Status)
    ensures started && status == Running
  {
    var g := new AllApplicableBehaviours([c]);
    started := g.DoStartCheck(true, x => true);
    assert g.group.ids[0] == c && g.group.childStatus[c] == Running;
    status := g.GetStatus();
  }
}
