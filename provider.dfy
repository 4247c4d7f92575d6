// SmartBrainProvider: builds an owner's brain. It compiles the owner's task
// groups, derives the memory list from the behaviours and the sensors
// (cached per entity type unless the owner's memories are per instance),
// constructs the brain and applies the owner's activity configuration.
module Providers {
  import opened Wrappers
  import opened Domain
  import opened Schedules
  import opened BehaviourTables
  import opened ActivityGroups
  import opened BrainRules
  import opened Brains

  type EntityTypeId = nat

  /** The memory types a leaf behaviour names in its entry conditions. */
  type EntryConditions = BehaviourId -> set<MemoryType>

  /** The memory types a sensor reports through memoriesUsed. */
  type SensorMemories = SensorId -> set<MemoryType>

  /**
   * collectMemoriesFromTask: a gate or group behaviour contributes only what
   * its children contribute; any other behaviour contributes its entry conditions.
   */
  function TaskMemories(n: Node, entry: EntryConditions): set<MemoryType>
    decreases n
  {
    match n
    case Leaf(id) => entry(id)
    case Parent(_, _, cs) => set i, t | 0 <= i < |cs| && t in TaskMemories(cs[i], entry) :: t
  }

  /** Leaf `id` occurs somewhere in the tree rooted at `n`. */
  ghost predicate HasLeaf(n: Node, id: BehaviourId)
    decreases n
  {
    match n
    case Leaf(x) => x == id
    case Parent(_, _, cs) => exists i :: 0 <= i < |cs| && HasLeaf(cs[i], id)
  }

  /** A task's memories are exactly the entry conditions of the leaves beneath it. */
  lemma {:induction false} TaskMemoriesLeaves(n: Node, entry: EntryConditions, t: MemoryType)
    ensures t in TaskMemories(n, entry) <==> exists id :: HasLeaf(n, id) && t in entry(id)
    decreases n
  {
    match n
    case Leaf(x) =>
      assert HasLeaf(n, x);
    case Parent(_, _, cs) =>
      if t in TaskMemories(n, entry) {
        var i :| 0 <= i < |cs| && t in TaskMemories(cs[i], entry);
        TaskMemoriesLeaves(cs[i], entry, t);
        var id :| HasLeaf(cs[i], id) && t in entry(id);
        assert HasLeaf(n, id);
      }
      if exists id :: HasLeaf(n, id) && t in entry(id) {
        var id :| HasLeaf(n, id) && t in entry(id);
        var i :| 0 <= i < |cs| && HasLeaf(cs[i], id);
        TaskMemoriesLeaves(cs[i], entry, t);
      }
  }

  /** The memories of a run of behaviours, in order. */
  function NodesMemories(bs: seq<Node>, entry: EntryConditions): set<MemoryType> {
    if |bs| == 0 then {} else NodesMemories(bs[..|bs| - 1], entry) + TaskMemories(bs[|bs| - 1], entry)
  }

  /** A run's memories are those of its members. */
  lemma {:induction false} NodesMemoriesMembers(bs: seq<Node>, entry: EntryConditions, t: MemoryType)
    ensures t in NodesMemories(bs, entry) <==> exists i :: 0 <= i < |bs| && t in TaskMemories(bs[i], entry)
  {
    if |bs| > 0 {
      var n := |bs| - 1;
      NodesMemoriesMembers(bs[..n], entry, t);
      if exists i :: 0 <= i < |bs| && t in TaskMemories(bs[i], entry) {
        var i :| 0 <= i < |bs| && t in TaskMemories(bs[i], entry);
        if i < n { assert bs[..n][i] == bs[i]; }
      }
      if exists i :: 0 <= i < n && t in TaskMemories(bs[..n][i], entry) {
        var i :| 0 <= i < n && t in TaskMemories(bs[..n][i], entry);
        assert bs[..n][i] == bs[i];
      }
    }
  }

  /** The memories of every group's behaviours, in order. */
  function ListsMemories(lists: seq<seq<Node>>, entry: EntryConditions): set<MemoryType> {
    if |lists| == 0 then {} else ListsMemories(lists[..|lists| - 1], entry) + NodesMemories(lists[|lists| - 1], entry)
  }

  /** The memoriesUsed of every sensor, in order. */
  function SensorsMemories(sensors: seq<SensorId>, used: SensorMemories): set<MemoryType> {
    if |sensors| == 0 then {} else SensorsMemories(sensors[..|sensors| - 1], used) + used(sensors[|sensors| - 1])
  }

  /**
   * createMemoryList before the copy: the union of every task's memories and
   * every sensor's memoriesUsed. Being a set, it holds each type once.
   */
  function MemoryList(lists: seq<seq<Node>>, sensors: seq<SensorId>, entry: EntryConditions, used: SensorMemories): set<MemoryType> {
    ListsMemories(lists, entry) + SensorsMemories(sensors, used)
  }

  lemma {:induction false} ListsMemoriesMembers(lists: seq<seq<Node>>, entry: EntryConditions, t: MemoryType)
    ensures t in ListsMemories(lists, entry) <==> exists i :: 0 <= i < |lists| && t in NodesMemories(lists[i], entry)
  {
    if |lists| > 0 {
      var n := |lists| - 1;
      ListsMemoriesMembers(lists[..n], entry, t);
      if exists i :: 0 <= i < |lists| && t in NodesMemories(lists[i], entry) {
        var i :| 0 <= i < |lists| && t in NodesMemories(lists[i], entry);
        if i < n { assert lists[..n][i] == lists[i]; }
      }
      if exists i :: 0 <= i < n && t in NodesMemories(lists[..n][i], entry) {
        var i :| 0 <= i < n && t in NodesMemories(lists[..n][i], entry);
        assert lists[..n][i] == lists[i];
      }
    }
  }

  lemma {:induction false} SensorsMemoriesMembers(sensors: seq<SensorId>, used: SensorMemories, t: MemoryType)
    ensures t in SensorsMemories(sensors, used) <==> exists k :: 0 <= k < |sensors| && t in used(sensors[k])
  {
    if |sensors| > 0 {
      var n := |sensors| - 1;
      SensorsMemoriesMembers(sensors[..n], used, t);
      if exists k :: 0 <= k < |sensors| && t in used(sensors[k]) {
        var k :| 0 <= k < |sensors| && t in used(sensors[k]);
        if k < n { assert sensors[..n][k] == sensors[k]; }
      }
      if exists k :: 0 <= k < n && t in used(sensors[..n][k]) {
        var k :| 0 <= k < n && t in used(sensors[..n][k]);
        assert sensors[..n][k] == sensors[k];
      }
    }
  }

  /** A type is on the memory list exactly when some leaf of some group, or some sensor, names it. */
  lemma MemoryListMembers(lists: seq<seq<Node>>, sensors: seq<SensorId>, entry: EntryConditions, used: SensorMemories, t: MemoryType)
    ensures t in MemoryList(lists, sensors, entry, used) <==>
      (exists i, j, id :: 0 <= i < |lists| && 0 <= j < |lists[i]| && HasLeaf(lists[i][j], id) && t in entry(id)) ||
      (exists k :: 0 <= k < |sensors| && t in used(sensors[k]))
  {
    ListsMemoriesMembers(lists, entry, t);
    SensorsMemoriesMembers(sensors, used, t);
    if t in ListsMemories(lists, entry) {
      var i :| 0 <= i < |lists| && t in NodesMemories(lists[i], entry);
      NodesMemoriesMembers(lists[i], entry, t);
      var j :| 0 <= j < |lists[i]| && t in TaskMemories(lists[i][j], entry);
      TaskMemoriesLeaves(lists[i][j], entry, t);
    }
    if exists i, j, id :: 0 <= i < |lists| && 0 <= j < |lists[i]| && HasLeaf(lists[i][j], id) && t in entry(id) {
      var i, j, id :| 0 <= i < |lists| && 0 <= j < |lists[i]| && HasLeaf(lists[i][j], id) && t in entry(id);
      TaskMemoriesLeaves(lists[i][j], entry, t);
      NodesMemoriesMembers(lists[i], entry, t);
    }
  }

  /** A composite's memories are those of its children, as a run. */
  lemma ParentMemories(kind: Composite, id: BehaviourId, cs: seq<Node>, entry: EntryConditions)
    ensures TaskMemories(Parent(kind, id, cs), entry) == NodesMemories(cs, entry)
  {
    forall t ensures t in TaskMemories(Parent(kind, id, cs), entry) <==> t in NodesMemories(cs, entry) {
      NodesMemoriesMembers(cs, entry, t);
    }
  }

  lemma Prefix<T>(xs: seq<T>, k: nat)
    requires k < |xs|
    ensures xs[..k + 1][..k] == xs[..k] && xs[..k + 1][k] == xs[k]
  {
  }

  /** collectMemoriesFromTask: adds a task node's memories to the set being filled. */
  method CollectMemoriesFromTask(memories: set<MemoryType>, n: Node, entry: EntryConditions) returns (r: set<MemoryType>)
    ensures r == memories + TaskMemories(n, entry)
    decreases n
  {
    match n
    case Leaf(id) =>
      r := memories + entry(id);
    case Parent(kind, id, cs) =>
      r := memories;
      var i := 0;
      while i < |cs|
        invariant 0 <= i <= |cs|
        invariant r == memories + NodesMemories(cs[..i], entry)
      {
        r := CollectMemoriesFromTask(r, cs[i], entry);
        Prefix(cs, i);
        i := i + 1;
      }
      assert cs[..i] == cs;
      ParentMemories(kind, id, cs, entry);
  }

  /** The behaviour lists of the compiled groups, in order. */
  function BehaviourLists(gs: seq<BrainActivityGroup>): (r: seq<seq<Node>>)
    reads gs
    ensures |r| == |gs| && forall i :: 0 <= i < |gs| ==> r[i] == gs[i].behaviours
  {
    if |gs| == 0 then [] else BehaviourLists(gs[..|gs| - 1]) + [gs[|gs| - 1].behaviours]
  }

  /** createMemoryList: every group's behaviours, then every sensor. */
  method CreateMemoryList(gs: seq<BrainActivityGroup>, sensors: seq<SensorId>, entry: EntryConditions, used: SensorMemories)
    returns (memories: set<MemoryType>)
    ensures memories == MemoryList(BehaviourLists(gs), sensors, entry, used)
  {
    ghost var lists := BehaviourLists(gs);
    memories := {};
    var i := 0;
    while i < |gs|
      invariant 0 <= i <= |gs|
      invariant memories == ListsMemories(lists[..i], entry)
    {
      var bs := gs[i].behaviours;
      ghost var before := memories;
      var j := 0;
      while j < |bs|
        invariant 0 <= j <= |bs|
        invariant memories == before + NodesMemories(bs[..j], entry)
      {
        memories := CollectMemoriesFromTask(memories, bs[j], entry);
        Prefix(bs, j);
        j := j + 1;
      }
      assert bs[..j] == bs;
      Prefix(lists, i);
      i := i + 1;
    }
    assert lists[..i] == lists;
    ghost var fromTasks := memories;
    var k := 0;
    while k < |sensors|
      invariant 0 <= k <= |sensors|
      invariant memories == fromTasks + SensorsMemories(sensors[..k], used)
    {
      memories := memories + used(sensors[k]);
      Prefix(sensors, k);
      k := k + 1;
    }
    assert sensors[..k] == sensors;
  }

  /** What the owner supplies to the provider. */
  datatype Owner = Owner(
    entityType: EntityTypeId,
    sensors: seq<SensorId>,
    coreTasks: BrainActivityGroup,
    idleTasks: BrainActivityGroup,
    fightTasks: BrainActivityGroup,
    additionalTasks: seq<BrainActivityGroup>,
    alwaysRunning: set<Activity>,
    defaultActivity: Activity,
    schedule: SmartBrainSchedule?)

  /** The group, when it has any behaviours. */
  function IfNonEmpty(g: BrainActivityGroup): (r: seq<BrainActivityGroup>)
    reads g
    ensures |r| <= 1 && (|r| == 1 <==> |g.behaviours| > 0) && (|r| == 1 ==> r[0] == g)
  {
    if |g.behaviours| > 0 then [g] else []
  }

  /**
   * The memory list makeBrain uses and the cache it leaves: with static
   * memories a cached list is reused and a computed one is cached; with
   * per-instance memories the cache is neither read nor written.
   */
  function CachedMemories(cache: map<EntityTypeId, set<MemoryType>>, entityType: EntityTypeId, nonStatic: bool, computed: set<MemoryType>)
    : (r: (set<MemoryType>, map<EntityTypeId, set<MemoryType>>))
  {
    if !nonStatic && entityType in cache then (cache[entityType], cache)
    else if !nonStatic then (computed, cache[entityType := computed])
    else (computed, cache)
  }

  /** Per-instance memories ignore the cache and leave it as it was. */
  lemma NonStaticBypassesCache(cache: map<EntityTypeId, set<MemoryType>>, entityType: EntityTypeId, computed: set<MemoryType>)
    ensures CachedMemories(cache, entityType, true, computed) == (computed, cache)
  {
  }

  /** After one static lookup, the next for the same type reuses the cached list, whatever it would compute. */
  lemma CachedListReused(cache: map<EntityTypeId, set<MemoryType>>, entityType: EntityTypeId, first: set<MemoryType>, second: set<MemoryType>)
    ensures var (m1, c1) := CachedMemories(cache, entityType, false, first);
      CachedMemories(c1, entityType, false, second) == (m1, c1)
  {
  }

  /** A static lookup caches only its own type. */
  lemma CacheTouchesOneType(cache: map<EntityTypeId, set<MemoryType>>, entityType: EntityTypeId, nonStatic: bool, computed: set<MemoryType>)
    ensures var c := CachedMemories(cache, entityType, nonStatic, computed).1;
      c.Keys <= cache.Keys + {entityType} &&
      forall e :: e in cache ==> e in c && c[e] == cache[e]
  {
  }

  /** BRAIN_MEMORY_CACHE: the memory lists computed so far, per entity type. */
  class BrainMemoryCache {
    var entries: map<EntityTypeId, set<MemoryType>>

    constructor ()
      ensures entries == map[]
    {
      entries := map[];
    }
  }

  class SmartBrainProvider {
    const owner: Owner
    const nonStaticMemories: bool
    /** The cache shared by every provider. */
    const cache: BrainMemoryCache
    /** The owners' behaviours' entry conditions and sensors' memoriesUsed. */
    const entry: EntryConditions
    const used: SensorMemories
    /** The brains handed to the owner's handleAdditionalBrainSetup hook, in order. */
    var setupBrains: seq<SmartBrain>

    constructor (owner: Owner, nonStaticMemories: bool, cache: BrainMemoryCache, entry: EntryConditions, used: SensorMemories)
      ensures this.owner == owner && this.nonStaticMemories == nonStaticMemories && this.cache == cache
      ensures this.entry == entry && this.used == used && setupBrains == []
    {
      setupBrains := [];
      this.owner := owner;
      this.nonStaticMemories := nonStaticMemories;
      this.cache := cache;
      this.entry := entry;
      this.used := used;
    }

    /** compileTasks: core, idle and fight groups that have behaviours, in that order, then every additional group. */
    function CompileTasks(): (tasks: seq<BrainActivityGroup>)
      reads owner.coreTasks, owner.idleTasks, owner.fightTasks
      ensures |owner.additionalTasks| <= |tasks| <= |owner.additionalTasks| + 3
      ensures tasks[|tasks| - |owner.additionalTasks|..] == owner.additionalTasks
      ensures forall i :: 0 <= i < |tasks| - |owner.additionalTasks| ==> |tasks[i].behaviours| > 0
      ensures forall i :: 0 <= i < |tasks| - |owner.additionalTasks| ==> tasks[i] in {owner.coreTasks, owner.idleTasks, owner.fightTasks}
      ensures |owner.coreTasks.behaviours| > 0 ==> owner.coreTasks in tasks
      ensures |owner.idleTasks.behaviours| > 0 ==> owner.idleTasks in tasks
      ensures |owner.fightTasks.behaviours| > 0 ==> owner.fightTasks in tasks
    {
      var front := IfNonEmpty(owner.coreTasks) + IfNonEmpty(owner.idleTasks) + IfNonEmpty(owner.fightTasks);
      assert (front + owner.additionalTasks)[|front|..] == owner.additionalTasks;
      front + owner.additionalTasks
    }

    /** The memory list for `tasks`, through the cache as makeBrain reads and writes it. */
    method BrainMemories(tasks: seq<BrainActivityGroup>) returns (memories: set<MemoryType>)
      modifies cache
      ensures (memories, cache.entries) ==
        CachedMemories(old(cache.entries), owner.entityType, nonStaticMemories, old(MemoryList(BehaviourLists(tasks), owner.sensors, entry, used)))
    {
      if !nonStaticMemories && owner.entityType in cache.entries {
        memories := cache.entries[owner.entityType];
      } else {
        memories := CreateMemoryList(tasks, owner.sensors, entry, used);
        if !nonStaticMemories {
          cache.entries := cache.entries[owner.entityType := memories];
        }
      }
    }

    /**
     * makeBrain: the current edition's brain over the compiled tasks and the
     * (possibly cached) memory list, finalised from the owner's configuration.
     */
    method MakeBrain() returns (brain: SmartBrain)
      requires owner.schedule != null ==> owner.schedule.Valid()
      modifies cache, this`setupBrains
      ensures fresh(brain) && brain.Valid() && brain.edition == Current
      ensures setupBrains == old(setupBrains) + [brain]
      ensures var computed := old(MemoryList(BehaviourLists(CompileTasks()), owner.sensors, entry, used));
        var cached := CachedMemories(old(cache.entries), owner.entityType, nonStaticMemories, computed);
        cache.entries == cached.1 && brain.memories == (map t | t in cached.0 :: None)
      ensures brain.table == TableAfter([], old(Compile(CompileTasks())))
      ensures brain.sensors == owner.sensors && brain.schedule == owner.schedule
      ensures brain.coreActivities == owner.alwaysRunning && brain.defaultActivity == owner.defaultActivity
      ensures brain.activeActivities == owner.alwaysRunning + {owner.defaultActivity}
    {
      var tasks := CompileTasks();
      var compiled := Compile(tasks);
      var memories := BrainMemories(tasks);
      brain := NewBrain(memories, compiled);
    }

    /** The steps of makeBrain after the memory list: the brain's constructor, then finaliseBrain. */
    method NewBrain(memories: set<MemoryType>, compiled: seq<TaskGroup>) returns (brain: SmartBrain)
      requires owner.schedule != null ==> owner.schedule.Valid()
      modifies this`setupBrains
      ensures fresh(brain) && brain.Valid() && brain.edition == Current
      ensures setupBrains == old(setupBrains) + [brain]
      ensures brain.memories == (map t | t in memories :: None) && brain.table == TableAfter([], compiled)
      ensures brain.sensors == owner.sensors && brain.schedule == owner.schedule
      ensures brain.coreActivities == owner.alwaysRunning && brain.defaultActivity == owner.defaultActivity
      ensures brain.activeActivities == owner.alwaysRunning + {owner.defaultActivity}
    {
      brain := new SmartBrain(Current, memories, owner.sensors, Some(compiled));
      FinaliseBrain(brain);
    }

    /**
     * finaliseBrain: core activities, default activity (made active) and
     * schedule from the owner, then the brain is handed to the owner's
     * handleAdditionalBrainSetup hook, which is recorded.
     */
    method FinaliseBrain(brain: SmartBrain)
      requires brain.Valid() && brain.edition == Current && brain.activeActivities == {}
      requires owner.schedule != null ==> owner.schedule.Valid()
      modifies brain, this`setupBrains
      ensures brain.Valid()
      ensures setupBrains == old(setupBrains) + [brain]
      ensures brain.coreActivities == owner.alwaysRunning && brain.defaultActivity == owner.defaultActivity
      ensures brain.activeActivities == owner.alwaysRunning + {owner.defaultActivity}
      ensures brain.memories == old(brain.memories) && brain.schedule == owner.schedule
      ensures brain.table == old(brain.table) && brain.sensors == old(brain.sensors)
    {
      brain.SetCoreActivities(owner.alwaysRunning);
      brain.SetDefaultActivity(owner.defaultActivity);
      assert WipedFor(brain.activeActivities, brain.wipeOnStop, owner.defaultActivity) == {};
      brain.UseDefaultActivity();
      brain.SetSchedule(owner.schedule);
      setupBrains := setupBrains + [brain];
    }
  }
}
