// The BrainActivityGroup builder: one activity, a starting priority, an
// ordered list of behaviours, the memory conditions the activity needs before
// it may start, and the memories to wipe when it ends.
module ActivityGroups {
  import opened Wrappers
  import opened Domain
  import opened BehaviourTables

  /** Adding one to a wrapped value wraps like adding one first. */
  lemma WrapSucc(x: int)
    ensures WrapInt(WrapInt(x) + 1) == WrapInt(x + 1)
  {
    var y := x + 0x8000_0000;
    var r := y % 0x1_0000_0000;
    assert y == (y / 0x1_0000_0000) * 0x1_0000_0000 + r;
    if r + 1 == 0x1_0000_0000 {
      assert y + 1 == (y / 0x1_0000_0000 + 1) * 0x1_0000_0000;
    } else {
      assert y + 1 == (y / 0x1_0000_0000) * 0x1_0000_0000 + (r + 1);
    }
  }

  /**
   * The pairs pairBehaviourPriorities builds: behaviour i gets priority
   * priorityStart + i, computed with Java's wrapping `priority++`.
   */
  function Paired(start: int, bs: seq<Node>): (r: seq<(int, Node)>)
    ensures |r| == |bs|
    ensures forall i :: 0 <= i < |bs| ==> r[i] == (WrapInt(start + i), bs[i])
  {
    seq(|bs|, i requires 0 <= i < |bs| => (WrapInt(start + i), bs[i]))
  }

  /** The counting loop of pairBehaviourPriorities. */
  method PairPriorities(start: JavaInt, bs: seq<Node>) returns (pairs: seq<(int, Node)>)
    ensures pairs == Paired(start, bs)
  {
    var priority: int := start;
    pairs := [];
    var i := 0;
    while i < |bs|
      invariant 0 <= i <= |bs|
      invariant priority == WrapInt(start + i)
      invariant pairs == Paired(start, bs[..i])
    {
      pairs := pairs + [(priority, bs[i])];
      WrapSucc(start + i);
      priority := WrapInt(priority + 1);
      i := i + 1;
    }
    assert bs[..i] == bs;
  }

  /** Without overflow the priorities are consecutive, starting at `start`. */
  lemma PairedConsecutive(start: JavaInt, bs: seq<Node>)
    requires start + |bs| <= INT_MAX_VALUE + 1
    ensures forall i :: 0 <= i < |bs| ==> Paired(start, bs)[i].0 == start + i
    ensures forall i :: 0 < i < |bs| ==> Paired(start, bs)[i].0 == Paired(start, bs)[i - 1].0 + 1
  {
  }

  /** Past Integer.MAX_VALUE the next priority wraps to Integer.MIN_VALUE. */
  lemma PairedWraps(n: Node, m: Node)
    ensures Paired(INT_MAX_VALUE, [n, m]) == [(INT_MAX_VALUE, n), (-0x8000_0000, m)]
  {
  }

  /** What addActivity reads from a group: its activity, prioritised behaviours, conditions and wipe set. */
  datatype TaskGroup = TaskGroup(activity: Activity, pairs: seq<(int, Node)>, conditions: set<Requirement>, wiped: set<MemoryType>)

  class BrainActivityGroup {
    const activity: Activity
    var priorityStart: JavaInt
    var behaviours: seq<Node>
    var conditions: set<Requirement>
    /** None until the first wipe request, like the nullable field. */
    var wiped: Option<set<MemoryType>>

    constructor(activity: Activity)
      ensures this.activity == activity && priorityStart == 0
      ensures behaviours == [] && conditions == {} && wiped == None
    {
      this.activity := activity;
      priorityStart := 0;
      behaviours := [];
      conditions := {};
      wiped := None;
    }

    method Priority(start: JavaInt) returns (self: BrainActivityGroup)
      modifies this`priorityStart
      ensures self == this && priorityStart == start
    {
      priorityStart := start;
      self := this;
    }

    /** Appends the arguments, in order, to the existing behaviours. */
    method Behaviours(bs: seq<Node>) returns (self: BrainActivityGroup)
      modifies this`behaviours
      ensures self == this && behaviours == old(behaviours) + bs
    {
      behaviours := behaviours + bs;
      self := this;
    }

    method OnlyStartWithMemoryStatus(memory: MemoryType, status: MemoryStatus) returns (self: BrainActivityGroup)
      modifies this`conditions
      ensures self == this && conditions == old(conditions) + {(memory, status)}
    {
      conditions := conditions + {(memory, status)};
      self := this;
    }

    /** Accumulates the union of every call's arguments. */
    method WipeMemoriesWhenFinished(memories: seq<MemoryType>) returns (self: BrainActivityGroup)
      modifies this`wiped
      ensures self == this
      ensures wiped == Some(GetOrElse(old(wiped), {}) + set t | t in memories)
    {
      var added := set t | t in memories;
      if wiped.None? {
        wiped := Some(added);
        assert GetOrElse(old(wiped), {}) + added == added;
      } else {
        wiped := Some(wiped.value + added);
      }
      self := this;
    }

    /** Each memory becomes a VALUE_PRESENT start condition and a wiped memory. */
    method RequireAndWipeMemoriesOnUse(memories: seq<MemoryType>) returns (self: BrainActivityGroup)
      modifies this`conditions, this`wiped
      ensures self == this
      ensures conditions == old(conditions) + set t | t in memories :: (t, ValuePresent)
      ensures wiped == Some(GetOrElse(old(wiped), {}) + set t | t in memories)
    {
      var i := 0;
      while i < |memories|
        invariant 0 <= i <= |memories|
        invariant conditions == old(conditions) + set t | t in memories[..i] :: (t, ValuePresent)
        invariant wiped == old(wiped)
      {
        var _ := OnlyStartWithMemoryStatus(memories[i], ValuePresent);
        assert memories[..i + 1] == memories[..i] + [memories[i]];
        i := i + 1;
      }
      assert memories[..i] == memories;
      ghost var required := conditions;
      self := WipeMemoriesWhenFinished(memories);
      assert conditions == required;
    }

    /** The wipe set, empty when nothing was ever added. */
    function WipedMemoriesOnFinish(): (r: set<MemoryType>)
      reads this
      ensures wiped.None? ==> r == {}
      ensures wiped.Some? ==> r == wiped.value
    {
      GetOrElse(wiped, {})
    }

    method PairBehaviourPriorities() returns (pairs: seq<(int, Node)>)
      ensures pairs == Paired(priorityStart, behaviours)
    {
      pairs := PairPriorities(priorityStart, behaviours);
    }

    /** The group as the brain's addActivity sees it. */
    function Compiled(): (g: TaskGroup)
      reads this
      ensures g.activity == activity && g.conditions == conditions
      ensures g.pairs == Paired(priorityStart, behaviours) && g.wiped == WipedMemoriesOnFinish()
    {
      TaskGroup(activity, Paired(priorityStart, behaviours), conditions, WipedMemoriesOnFinish())
    }
  }

  /** The groups of a task list as the brain's addActivity sees them, in order. */
  function Compile(gs: seq<BrainActivityGroup>): (r: seq<TaskGroup>)
    reads gs
    ensures |r| == |gs|
    ensures forall i :: 0 <= i < |gs| ==> r[i] == gs[i].Compiled()
  {
    if |gs| == 0 then [] else Compile(gs[..|gs| - 1]) + [gs[|gs| - 1].Compiled()]
  }

  /**
   * Requiring and wiping the same memories twice leaves the group as one
   * call does: the conditions and the wipe set are sets.
   */
  method RequireAndWipeTwiceIsOnce(g: BrainActivityGroup, memories: seq<MemoryType>)
    modifies g
    ensures g.conditions == old(g.conditions) + set t | t in memories :: (t, ValuePresent)
    ensures g.WipedMemoriesOnFinish() == old(g.WipedMemoriesOnFinish()) + set t | t in memories
    ensures g.behaviours == old(g.behaviours) && g.priorityStart == old(g.priorityStart)
  {
    var _ := g.RequireAndWipeMemoriesOnUse(memories);
    var _ := g.RequireAndWipeMemoriesOnUse(memories);
  }

  method Empty() returns (g: BrainActivityGroup)
    ensures fresh(g) && g.activity == Rest && g.priorityStart == 0
    ensures g.behaviours == [] && g.conditions == {} && g.WipedMemoriesOnFinish() == {}
  {
    g := new BrainActivityGroup(Rest);
  }

  method CoreTasks(bs: seq<Node>) returns (g: BrainActivityGroup)
    ensures fresh(g) && g.activity == Core && g.priorityStart == 0
    ensures g.behaviours == bs && g.conditions == {} && g.WipedMemoriesOnFinish() == {}
  {
    g := new BrainActivityGroup(Core);
    g := g.Priority(0);
    g := g.Behaviours(bs);
  }

  method IdleTasks(bs: seq<Node>) returns (g: BrainActivityGroup)
    ensures fresh(g) && g.activity == Idle && g.priorityStart == 10
    ensures g.behaviours == bs && g.conditions == {} && g.WipedMemoriesOnFinish() == {}
  {
    g := new BrainActivityGroup(Idle);
    g := g.Priority(10);
    g := g.Behaviours(bs);
  }

  /** Fight tasks need an attack target to start and wipe it when the activity ends. */
  method FightTasks(bs: seq<Node>) returns (g: BrainActivityGroup)
    ensures fresh(g) && g.activity == Fight && g.priorityStart == 10 && g.behaviours == bs
    ensures g.conditions == {(AttackTarget, ValuePresent)}
    ensures g.WipedMemoriesOnFinish() == {AttackTarget}
  {
    g := new BrainActivityGroup(Fight);
    g := g.Priority(10);
    g := g.Behaviours(bs);
    g := g.RequireAndWipeMemoriesOnUse([AttackTarget]);
  }
}
