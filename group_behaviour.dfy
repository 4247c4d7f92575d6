// GroupBehaviour: a behaviour that runs one of an ordered list of child
// behaviours. Children are known by identity; what a child does when asked
// to start or tick is an oracle answer, and every call the group makes to a
// child is recorded in order.
module GroupBehaviours {
  import opened Wrappers
  import opened Domain

  type ChildId = nat

  /** A call a group makes to one of its children. */
  datatype ChildCall =
    | TryStartCall(child: ChildId)
    | TickOrStopCall(child: ChildId)
    /** The child's protected stop hook alone: its status is left as it was. */
    | StopHookCall(child: ChildId)
    /** The child's doStop: marked stopped, then its stop hook. */
    | DoStopCall(child: ChildId)

  /** One tryStart call per listed child, in list order. */
  function TryEach(ids: seq<ChildId>): (r: seq<ChildCall>)
    ensures |r| == |ids| && forall i :: 0 <= i < |ids| ==> r[i] == TryStartCall(ids[i])
  {
    seq(|ids|, i requires 0 <= i < |ids| => TryStartCall(ids[i]))
  }

  class GroupBehaviour {
    /** The SBLShufflingList of children with their weights. */
    const ids: seq<ChildId>
    const weights: seq<int>
    var childStatus: map<ChildId, Status>
    /** Every call made to a child, oldest first. */
    var calls: seq<ChildCall>
    /** runningBehaviour; None is null. */
    var running: Option<ChildId>
    var cooldownFinishedAt: int
    var stopCallbacks: nat

    ghost predicate Valid()
      reads this
    {
      |weights| == |ids| &&
      (forall i :: 0 <= i < |ids| ==> ids[i] in childStatus) &&
      (running.Some? ==> running.value in childStatus)
    }

    /** The varargs constructor: every child with weight 1, in order, none running. */
    constructor (ids: seq<ChildId>)
      ensures Valid()
      ensures this.ids == ids && |weights| == |ids| && forall i :: 0 <= i < |ids| ==> weights[i] == 1
      ensures childStatus == (map c | c in ids :: Stopped) && calls == [] && running == None
      ensures cooldownFinishedAt == 0 && stopCallbacks == 0
    {
      this.ids := ids;
      weights := seq(|ids|, i => 1);
      childStatus := map c | c in ids :: Stopped;
      calls := [];
      running := None;
      cooldownFinishedAt := 0;
      stopCallbacks := 0;
    }

    /** A child's tryStart, answering `starts`: a child that starts is running. */
    method TryStartChild(c: ChildId, starts: bool) returns (ok: bool)
      requires Valid() && c in childStatus
      modifies this`childStatus, this`calls
      ensures Valid() && ok == starts && calls == old(calls) + [TryStartCall(c)]
      ensures childStatus == if starts then old(childStatus)[c := Running] else old(childStatus)
    {
      calls := calls + [TryStartCall(c)];
      if starts {
        childStatus := childStatus[c := Running];
      }
      ok := starts;
    }

    /** A child's tickOrStop: it keeps running when `keeps`, otherwise it has stopped itself. */
    method TickOrStopChild(c: ChildId, keeps: bool)
      requires Valid() && c in childStatus
      modifies this`childStatus, this`calls
      ensures Valid() && calls == old(calls) + [TickOrStopCall(c)]
      ensures childStatus == if keeps then old(childStatus) else old(childStatus)[c := Stopped]
    {
      calls := calls + [TickOrStopCall(c)];
      if !keeps {
        childStatus := childStatus[c := Stopped];
      }
    }

    method StopHookChild(c: ChildId)
      modifies this`calls
      ensures calls == old(calls) + [StopHookCall(c)]
    {
      calls := calls + [StopHookCall(c)];
    }

    method DoStopChild(c: ChildId)
      requires Valid() && c in childStatus
      modifies this`childStatus, this`calls
      ensures Valid() && calls == old(calls) + [DoStopCall(c)] && childStatus == old(childStatus)[c := Stopped]
    {
      calls := calls + [DoStopCall(c)];
      childStatus := childStatus[c := Stopped];
    }

    /** getStatus: stopped with no running child, else the running child's status. */
    function GetStatus(): (s: Status)
      requires Valid()
      reads this
      ensures running.None? ==> s == Stopped
      ensures running.Some? ==> s == childStatus[running.value]
    {
      if running.None? then Stopped else childStatus[running.value]
    }

    /**
     * The shouldKeepRunning override SequentialBehaviour and RepeatableBehaviour
     * share: a child is running and has not stopped.
     */
    function RunningChildActive(): (b: bool)
      requires Valid()
      reads this
      ensures b <==> GetStatus() == Running
    {
      running.Some? && childStatus[running.value] != Stopped
    }

    /** shouldKeepRunning: there is a running child and it can still be used. */
    function ShouldKeepRunning(usable: ChildId -> bool): (b: bool)
      reads this
      ensures b <==> running.Some? && usable(running.value)
    {
      running.Some? && usable(running.value)
    }

    /** timedOut: no running child, or the running child has timed out. */
    function TimedOut(childTimedOut: ChildId -> bool): (b: bool)
      reads this
      ensures running.None? ==> b
      ensures running.Some? ==> (b <==> childTimedOut(running.value))
    {
      running.None? || childTimedOut(running.value)
    }

    /**
     * stop: the cooldown runs from now and the stop callback runs, the running
     * child's stop hook is called, and no child is running afterwards.
     */
    method Stop(gameTime: int, cooldown: int)
      requires Valid()
      modifies this`cooldownFinishedAt, this`stopCallbacks, this`calls, this`running
      ensures Valid() && running == None
      ensures cooldownFinishedAt == gameTime + cooldown && stopCallbacks == old(stopCallbacks) + 1
      ensures calls == old(calls) + if old(running).Some? then [StopHookCall(old(running).value)] else []
    {
      cooldownFinishedAt := gameTime + cooldown;
      stopCallbacks := stopCallbacks + 1;
      if running.Some? {
        StopHookChild(running.value);
      }
      running := None;
    }

    /**
     * tick (the base version): ticks the running child; once that child has
     * stopped, it is cleared and the group stops.
     */
    method Tick(gameTime: int, cooldown: int, keeps: bool)
      requires Valid() && running.Some?
      modifies this`childStatus, this`calls, this`running, this`cooldownFinishedAt, this`stopCallbacks
      ensures Valid()
      ensures var c := old(running).value;
        childStatus == (if keeps then old(childStatus) else old(childStatus)[c := Stopped]) &&
        (childStatus[c] != Stopped ==> running == old(running) && calls == old(calls) + [TickOrStopCall(c)]) &&
        (childStatus[c] == Stopped ==>
          running == None && GetStatus() == Stopped && calls == old(calls) + [TickOrStopCall(c)] &&
          cooldownFinishedAt == gameTime + cooldown && stopCallbacks == old(stopCallbacks) + 1)
    {
      var c := running.value;
      TickOrStopChild(c, keeps);
      if childStatus[c] == Stopped {
        running := None;
        Stop(gameTime, cooldown);
      }
    }
  }
}
