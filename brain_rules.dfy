// The value-level rules of the SmartBrain: what its passes over the behaviour
// table do to behaviour status, how the expiry list ages memories, how a
// memory is stored, and which activity becomes active.
module BrainRules {
  import opened Wrappers
  import opened Domain
  import opened Seqs
  import opened BehaviourTables
  import opened ActivityGroups

  /**
   * The three editions of SmartBrain in the repository: common/ (Current),
   * Common/ (Legacy) and src/ (Oldest).
   */
  datatype Edition = Current | Legacy | Oldest

  // ---- Behaviour status. ----

  /** The status of every behaviour, by identity; a behaviour never started is STOPPED. */
  type StatusMap = map<BehaviourId, Status>

  function StatusOf(st: StatusMap, b: BehaviourId): Status {
    if b in st then st[b] else Stopped
  }

  /** The status a behaviour ends a pass with: a chosen one in status `from` takes `outcome`. */
  function Visited(s: Status, chosen: bool, from: Status, outcome: Status): Status {
    if chosen && s == from then outcome else s
  }

  /** The status a behaviour takes once handed over: RUNNING when the oracle says it runs on. */
  function Outcome(runs: BehaviourId -> bool): BehaviourId -> Status {
    (b: BehaviourId) => if runs(b) then Running else Stopped
  }

  /**
   * One pass over behaviour ids in visit order: each id found in status `from`
   * is handed to the behaviour (and recorded) and takes the status `outcome` gives it.
   */
  function Pass(ids: seq<BehaviourId>, from: Status, outcome: BehaviourId -> Status, st0: StatusMap): (StatusMap, seq<BehaviourId>) {
    if |ids| == 0 then (st0, [])
    else
      var front := Pass(ids[..|ids| - 1], from, outcome, st0);
      var b := ids[|ids| - 1];
      if StatusOf(front.0, b) == from then (front.0[b := outcome(b)], front.1 + [b]) else front
  }

  /** A pass over two runs of ids is the pass over the second started where the first ended. */
  lemma {:induction false} PassAppend(x: seq<BehaviourId>, y: seq<BehaviourId>, from: Status, outcome: BehaviourId -> Status, st0: StatusMap)
    ensures Pass(x + y, from, outcome, st0).0 == Pass(y, from, outcome, Pass(x, from, outcome, st0).0).0
    ensures Pass(x + y, from, outcome, st0).1 == Pass(x, from, outcome, st0).1 + Pass(y, from, outcome, Pass(x, from, outcome, st0).0).1
    decreases |y|
  {
    if |y| == 0 {
      assert x + y == x;
    } else {
      var n := |y| - 1;
      assert (x + y)[..|x + y| - 1] == x + y[..n];
      PassAppend(x, y[..n], from, outcome, st0);
    }
  }

  /**
   * The closed form of a pass: a behaviour ends in `outcome` exactly when it
   * was among the ids and started the pass in `from`; it is handed over
   * exactly then, so visits to a behaviour repeated later in the order change nothing.
   */
  lemma {:induction false} PassClosedForm(ids: seq<BehaviourId>, from: Status, outcome: BehaviourId -> Status, st0: StatusMap)
    ensures forall b :: StatusOf(Pass(ids, from, outcome, st0).0, b) == Visited(StatusOf(st0, b), b in ids, from, outcome(b))
    ensures forall b :: b in Pass(ids, from, outcome, st0).1 <==> b in ids && StatusOf(st0, b) == from
  {
    if |ids| > 0 {
      var n := |ids| - 1;
      var front := ids[..n];
      PassClosedForm(front, from, outcome, st0);
      assert ids == front + [ids[n]];
      forall b ensures b in ids <==> b in front || b == ids[n] {
      }
    }
  }

  /** Selects the lists whose activity is active, as checkForNewBehaviours does. */
  function ListsActive(active: set<Activity>): Selector {
    ListsIn((a: Activity) => a in active)
  }

  /** Selects every list, as tickRunningBehaviours does. */
  function AllLists(): Selector {
    ListsIn((a: Activity) => true)
  }

  /** Selects the RUNNING behaviours, as getRunningBehaviors does. */
  function RunningIn(st: StatusMap): Selector {
    (p: int, a: Activity, n: Node) => StatusOf(st, n.id) == Running
  }

  /** Stops whatever it is handed (removeBehaviour's doStop). */
  function Halt(): BehaviourId -> Status {
    (b: BehaviourId) => Stopped
  }

  /**
   * checkForNewBehaviours: exactly the STOPPED behaviours of the active
   * activities' lists are tried, and a behaviour is RUNNING afterwards exactly
   * when it was before or was tried and started.
   */
  lemma StartPassFacts(t: Table, active: set<Activity>, starts: BehaviourId -> bool, st0: StatusMap)
    ensures var r := Pass(Selected(t, ListsActive(active)), Stopped, Outcome(starts), st0);
      (forall b :: b in r.1 <==> Sits(t, ListsActive(active), b) && StatusOf(st0, b) == Stopped) &&
      (forall b :: StatusOf(r.0, b) == if b in r.1 && starts(b) then Running else StatusOf(st0, b))
  {
    var ids := Selected(t, ListsActive(active));
    PassClosedForm(ids, Stopped, Outcome(starts), st0);
    forall b ensures b in ids <==> Sits(t, ListsActive(active), b) {
      SelectedMembers(t, ListsActive(active), b);
    }
  }

  /**
   * tickRunningBehaviours: exactly the RUNNING behaviours are ticked, whatever
   * their activity, and one stays RUNNING exactly when the oracle keeps it.
   */
  lemma TickPassFacts(t: Table, keeps: BehaviourId -> bool, st0: StatusMap)
    ensures var r := Pass(Selected(t, AllLists()), Running, Outcome(keeps), st0);
      (forall b :: b in r.1 <==> Sits(t, AllLists(), b) && StatusOf(st0, b) == Running) &&
      (forall b :: StatusOf(r.0, b) == if b in r.1 && !keeps(b) then Stopped else StatusOf(st0, b))
  {
    var ids := Selected(t, AllLists());
    PassClosedForm(ids, Running, Outcome(keeps), st0);
    forall b ensures b in ids <==> Sits(t, AllLists(), b) {
      SelectedMembers(t, AllLists(), b);
    }
  }

  /** A behaviour started by the start pass is ticked by the tick pass of the same brain tick. */
  lemma StartedIsTicked(t: Table, active: set<Activity>, starts: BehaviourId -> bool, keeps: BehaviourId -> bool, st0: StatusMap, b: BehaviourId)
    requires var r := Pass(Selected(t, ListsActive(active)), Stopped, Outcome(starts), st0);
      b in r.1 && starts(b)
    ensures var r := Pass(Selected(t, ListsActive(active)), Stopped, Outcome(starts), st0);
      b in Pass(Selected(t, AllLists()), Running, Outcome(keeps), r.0).1
  {
    var r := Pass(Selected(t, ListsActive(active)), Stopped, Outcome(starts), st0);
    StartPassFacts(t, active, starts, st0);
    TickPassFacts(t, keeps, r.0);
    var i, j, k :| 0 <= i < |t| && 0 <= j < |t[i].lists| &&
      ListHas(t[i].priority, t[i].lists[j].activity, t[i].lists[j].behaviours, ListsActive(active), b, k);
    assert ListHas(t[i].priority, t[i].lists[j].activity, t[i].lists[j].behaviours, AllLists(), b, k);
  }

  /** getRunningBehaviors holds exactly the RUNNING behaviours of the table. */
  lemma RunningMembers(t: Table, st: StatusMap, b: BehaviourId)
    ensures b in Selected(t, RunningIn(st)) <==> Sits(t, AllLists(), b) && StatusOf(st, b) == Running
  {
    SelectedMembers(t, RunningIn(st), b);
    SelectedMembers(t, AllLists(), b);
    if Sits(t, AllLists(), b) && StatusOf(st, b) == Running {
      var i, j, k :| 0 <= i < |t| && 0 <= j < |t[i].lists| &&
        ListHas(t[i].priority, t[i].lists[j].activity, t[i].lists[j].behaviours, AllLists(), b, k);
      assert ListHas(t[i].priority, t[i].lists[j].activity, t[i].lists[j].behaviours, RunningIn(st), b, k);
    }
    if Sits(t, RunningIn(st), b) {
      var i, j, k :| 0 <= i < |t| && 0 <= j < |t[i].lists| &&
        ListHas(t[i].priority, t[i].lists[j].activity, t[i].lists[j].behaviours, RunningIn(st), b, k);
      assert ListHas(t[i].priority, t[i].lists[j].activity, t[i].lists[j].behaviours, AllLists(), b, k);
    }
  }

  /** removeBehaviour stops exactly the RUNNING top-level behaviours it removes. */
  lemma RemovalStops(t: Table, m: Matcher, st0: StatusMap)
    ensures var st := Pass(Selected(t, RemovedBy(m)), Running, Halt(), st0).0;
      forall b :: StatusOf(st, b) == if Sits(t, RemovedBy(m), b) then Stopped else StatusOf(st0, b)
  {
    var ids := Selected(t, RemovedBy(m));
    PassClosedForm(ids, Running, Halt(), st0);
    forall b ensures b in ids <==> Sits(t, RemovedBy(m), b) {
      SelectedMembers(t, RemovedBy(m), b);
    }
  }

  /** stopAll stops every RUNNING behaviour of the table and leaves every other status alone. */
  lemma StopAllStops(t: Table, st0: StatusMap)
    ensures var st := Pass(Selected(t, AllLists()), Running, Halt(), st0).0;
      forall b :: StatusOf(st, b) == if Sits(t, AllLists(), b) then Stopped else StatusOf(st0, b)
  {
    var ids := Selected(t, AllLists());
    PassClosedForm(ids, Running, Halt(), st0);
    forall b ensures b in ids <==> Sits(t, AllLists(), b) {
      SelectedMembers(t, AllLists(), b);
    }
  }

  // ---- Adding activities. ----

  /** The table after addBehaviour for each (priority, behaviour) pair in turn. */
  function AddPairs(t: Table, a: Activity, pairs: seq<(int, Node)>): Table {
    if |pairs| == 0 then t
    else
      var n := |pairs| - 1;
      WithBehaviour(AddPairs(t, a, pairs[..n]), pairs[n].0, a, pairs[n].1)
  }

  /** One more pair is one more addBehaviour. */
  lemma AddPairsSnoc(t: Table, a: Activity, pairs: seq<(int, Node)>, k: nat)
    requires k < |pairs|
    ensures AddPairs(t, a, pairs[..k + 1]) == WithBehaviour(AddPairs(t, a, pairs[..k]), pairs[k].0, a, pairs[k].1)
  {
    assert pairs[..k + 1][..k] == pairs[..k];
  }

  /** The priorities of a run of pairs, as a set. */
  function PriorityKeys(pairs: seq<(int, Node)>): (r: set<int>)
    ensures forall i :: 0 <= i < |pairs| ==> pairs[i].0 in r
    ensures forall p :: p in r ==> exists i :: 0 <= i < |pairs| && pairs[i].0 == p
  {
    set i | 0 <= i < |pairs| :: pairs[i].0
  }

  lemma PriorityKeysSnoc(pairs: seq<(int, Node)>)
    requires |pairs| > 0
    ensures PriorityKeys(pairs) == PriorityKeys(pairs[..|pairs| - 1]) + {pairs[|pairs| - 1].0}
  {
    var n := |pairs| - 1;
    forall q | q in PriorityKeys(pairs) ensures q in PriorityKeys(pairs[..n]) + {pairs[n].0} {
      var i :| 0 <= i < |pairs| && pairs[i].0 == q;
      if i < n { assert pairs[..n][i] == pairs[i]; }
    }
    forall q | q in PriorityKeys(pairs[..n]) ensures q in PriorityKeys(pairs) {
      var i :| 0 <= i < n && pairs[..n][i].0 == q;
      assert pairs[i] == pairs[..n][i];
    }
  }

  /** Adding behaviours keeps the table well-formed. */
  lemma {:induction false} AddPairsWellFormed(t: Table, a: Activity, pairs: seq<(int, Node)>)
    requires WellFormed(t)
    ensures WellFormed(AddPairs(t, a, pairs))
  {
    if |pairs| > 0 {
      var n := |pairs| - 1;
      AddPairsWellFormed(t, a, pairs[..n]);
      AddBehaviourWellFormed(AddPairs(t, a, pairs[..n]), pairs[n].0, a, pairs[n].1);
    }
  }

  /** The priorities after adding behaviours are the old ones and those of the pairs. */
  lemma {:induction false} AddPairsPriorities(t: Table, a: Activity, pairs: seq<(int, Node)>)
    ensures Priorities(AddPairs(t, a, pairs)) == Priorities(t) + PriorityKeys(pairs)
  {
    if |pairs| > 0 {
      var n := |pairs| - 1;
      AddPairsPriorities(t, a, pairs[..n]);
      AddBehaviourPriorities(AddPairs(t, a, pairs[..n]), pairs[n].0, a, pairs[n].1);
      PriorityKeysSnoc(pairs);
    }
  }

  /** The behaviour table after the brain's constructor adds each group's pairs in turn. */
  function TableAfter(t: Table, gs: seq<TaskGroup>): Table {
    if |gs| == 0 then t
    else
      var n := |gs| - 1;
      AddPairs(TableAfter(t, gs[..n]), gs[n].activity, gs[n].pairs)
  }

  lemma {:induction false} TableAfterWellFormed(t: Table, gs: seq<TaskGroup>)
    requires WellFormed(t)
    ensures WellFormed(TableAfter(t, gs))
  {
    if |gs| > 0 {
      var n := |gs| - 1;
      TableAfterWellFormed(t, gs[..n]);
      AddPairsWellFormed(TableAfter(t, gs[..n]), gs[n].activity, gs[n].pairs);
    }
  }

  /** Each group's start conditions, the later group of an activity replacing the earlier. */
  function RequirementsAfter(r: map<Activity, set<Requirement>>, gs: seq<TaskGroup>): map<Activity, set<Requirement>> {
    if |gs| == 0 then r
    else
      var n := |gs| - 1;
      RequirementsAfter(r, gs[..n])[gs[n].activity := gs[n].conditions]
  }

  /** Each group's wipe set, recorded only when it is not empty. */
  function WipesAfter(w: map<Activity, set<MemoryType>>, gs: seq<TaskGroup>): map<Activity, set<MemoryType>> {
    if |gs| == 0 then w
    else
      var n := |gs| - 1;
      var before := WipesAfter(w, gs[..n]);
      if gs[n].wiped == {} then before else before[gs[n].activity := gs[n].wiped]
  }

  /** The last group of an activity decides its requirements; every group's activity gets an entry. */
  lemma {:induction false} RequirementsAfterLast(r: map<Activity, set<Requirement>>, gs: seq<TaskGroup>, a: Activity)
    ensures (exists i :: 0 <= i < |gs| && gs[i].activity == a) ==> a in RequirementsAfter(r, gs)
    ensures (forall i :: 0 <= i < |gs| ==> gs[i].activity != a) ==>
      (a in RequirementsAfter(r, gs) <==> a in r) && (a in r ==> RequirementsAfter(r, gs)[a] == r[a])
    ensures |gs| > 0 && gs[|gs| - 1].activity == a ==> RequirementsAfter(r, gs)[a] == gs[|gs| - 1].conditions
  {
    if |gs| > 0 {
      var n := |gs| - 1;
      RequirementsAfterLast(r, gs[..n], a);
      if exists i :: 0 <= i < |gs| && gs[i].activity == a {
        var i :| 0 <= i < |gs| && gs[i].activity == a;
        if i < n { assert gs[..n][i] == gs[i]; }
      }
      if forall i :: 0 <= i < |gs| ==> gs[i].activity != a {
        assert forall i :: 0 <= i < n ==> gs[..n][i] == gs[i];
      }
    }
  }

  // ---- Memories. ----

  /** setMemoryInternal stores an empty collection as an absent value. */
  function Stored(memory: Option<Expirable>): (r: Option<Expirable>)
    ensures r.Some? ==> !IsEmptyCollection(r.value.value) && r == memory
    ensures memory.Some? && !IsEmptyCollection(memory.value.value) ==> r == memory
    ensures memory.None? ==> r.None?
  {
    if memory.Some? && IsEmptyCollection(memory.value.value) then None else memory
  }

  /** The expiry list after setMemoryInternal stores `stored` under `t`. */
  function ListedAfter(edition: Edition, e: seq<MemoryType>, t: MemoryType, stored: Option<Expirable>): seq<MemoryType> {
    if stored.Some? && stored.value.CanExpire() && (edition != Current || t !in e) then e + [t] else e
  }

  /**
   * The expiry list grows by at most `t`, and lists `t` afterwards exactly
   * when it did before or an expiring value was stored. Only the current
   * edition keeps the list free of duplicates; the older ones append `t`
   * again on every store.
   */
  lemma ListedAfterFacts(edition: Edition, e: seq<MemoryType>, t: MemoryType, stored: Option<Expirable>)
    ensures var r := ListedAfter(edition, e, t, stored);
      (forall x :: x in r <==> x in e || (x == t && stored.Some? && stored.value.CanExpire())) &&
      (edition == Current && NoDuplicates(e) ==> NoDuplicates(r)) &&
      (edition != Current && stored.Some? && stored.value.CanExpire() ==> r == e + [t])
  {
  }

  /** What forgetOutdatedMemories does to one value it finds listed. */
  function Aged(o: Option<Expirable>): (r: Option<Expirable>)
    ensures o.None? ==> r.None?
    ensures o.Some? && !o.value.CanExpire() ==> r == o
    ensures o.Some? && o.value.CanExpire() && o.value.HasExpired() ==> r.None?
    ensures o.Some? && o.value.CanExpire() && !o.value.HasExpired() ==>
      r.Some? && r.value.value == o.value.value && r.value.timeToLive == o.value.timeToLive - 1
  {
    match o
    case None => None
    case Some(v) => if !v.CanExpire() then o else if v.HasExpired() then None else Some(v.Ticked())
  }

  /** A listed value stays listed: present, expiring and not yet expired. */
  predicate StaysListed(o: Option<Expirable>) {
    o.Some? && o.value.CanExpire() && !o.value.HasExpired()
  }

  /** One step of forgetOutdatedMemories: the new memories, and whether `t` stays listed. */
  function ForgetStep(m: Memories, t: MemoryType): (Memories, bool) {
    if t !in m then (m, false) else (m[t := Aged(m[t])], StaysListed(m[t]))
  }

  /** forgetOutdatedMemories over the expiry list `e`: the final memories and the list it keeps. */
  function Forget(m: Memories, e: seq<MemoryType>): (r: (Memories, seq<MemoryType>))
    ensures r.0.Keys == m.Keys
    ensures |r.1| <= |e|
  {
    if |e| == 0 then (m, [])
    else
      var step := ForgetStep(m, e[0]);
      var rest := Forget(step.0, e[1..]);
      (rest.0, (if step.1 then [e[0]] else []) + rest.1)
  }

  /**
   * With a duplicate-free list every listed value is aged exactly once:
   * an empty one stays empty, a non-expiring one is kept, an expired one is
   * erased and any other is ticked once; values not listed are untouched.
   */
  lemma {:induction false} ForgetOutcome(m: Memories, e: seq<MemoryType>)
    requires NoDuplicates(e)
    ensures forall t :: t in m ==> Forget(m, e).0[t] == if t in e then Aged(m[t]) else m[t]
  {
    if |e| > 0 {
      var m1 := ForgetStep(m, e[0]).0;
      var tail := e[1..];
      assert NoDuplicates(tail) by {
        forall i, j | 0 <= i < j < |tail| ensures tail[i] != tail[j] { assert tail[i] == e[i + 1] && tail[j] == e[j + 1]; }
      }
      ForgetOutcome(m1, tail);
      forall t | t in m ensures Forget(m, e).0[t] == if t in e then Aged(m[t]) else m[t] {
        assert t in m1;
        if t == e[0] {
          assert t !in tail by {
            forall i | 0 <= i < |tail| ensures tail[i] != t { assert tail[i] == e[i + 1]; }
          }
        } else {
          assert m1[t] == m[t];
          assert t in e <==> t in tail by { assert e == [e[0]] + tail; }
        }
      }
    }
  }

  /** Filters that agree on every element give the same result. */
  lemma {:induction false} FilterCongruent<T>(s: seq<T>, p: T -> bool, q: T -> bool)
    requires forall x :: x in s ==> p(x) == q(x)
    ensures Filter(s, p) == Filter(s, q)
  {
    if |s| > 0 {
      FilterCongruent(s[1..], p, q);
    }
  }

  /** Which types stay listed, judged on the memories forgetting started with. */
  function StillListed(m: Memories): MemoryType -> bool {
    (t: MemoryType) => t in m && StaysListed(m[t])
  }

  /**
   * With a duplicate-free list, the kept list is the order-preserving filter
   * of the types whose value is present, expiring and not yet expired.
   */
  lemma {:induction false} ForgetKept(m: Memories, e: seq<MemoryType>)
    requires NoDuplicates(e)
    ensures Forget(m, e).1 == Filter(e, StillListed(m))
  {
    if |e| > 0 {
      var m1 := ForgetStep(m, e[0]).0;
      var tail := e[1..];
      assert NoDuplicates(tail) by {
        forall i, j | 0 <= i < j < |tail| ensures tail[i] != tail[j] { assert tail[i] == e[i + 1] && tail[j] == e[j + 1]; }
      }
      ForgetKept(m1, tail);
      forall t | t in tail ensures StillListed(m1)(t) == StillListed(m)(t) {
        var i :| 0 <= i < |tail| && tail[i] == t;
        assert tail[i] == e[i + 1];
      }
      FilterCongruent(tail, StillListed(m1), StillListed(m));
    }
  }

  /** The kept list is drawn from the old one in order and stays free of duplicates. */
  lemma ForgetKeptFacts(m: Memories, e: seq<MemoryType>)
    requires NoDuplicates(e)
    ensures IsSublist(Forget(m, e).1, e)
    ensures NoDuplicates(Forget(m, e).1)
    ensures forall t :: t in Forget(m, e).1 <==> t in e && t in m && StaysListed(m[t])
  {
    ForgetKept(m, e);
    FilterIsSublist(e, StillListed(m));
    FilterNoDuplicates(e, StillListed(m));
    forall t ensures t in Forget(m, e).1 <==> t in e && StillListed(m)(t) {
      FilterMembers(e, StillListed(m), t);
    }
  }

  lemma {:induction false} FilterNoDuplicates<T>(s: seq<T>, p: T -> bool)
    requires NoDuplicates(s)
    ensures NoDuplicates(Filter(s, p))
  {
    if |s| > 0 {
      var tail := s[1..];
      assert NoDuplicates(tail) by {
        forall i, j | 0 <= i < j < |tail| ensures tail[i] != tail[j] { assert tail[i] == s[i + 1] && tail[j] == s[j + 1]; }
      }
      FilterNoDuplicates(tail, p);
      FilterMembers(tail, p, s[0]);
      assert s[0] !in tail by {
        forall i | 0 <= i < |tail| ensures tail[i] != s[0] { assert tail[i] == s[i + 1]; }
      }
    }
  }

  /** Every type left on the list after forgetting is still registered. */
  lemma ForgetKeepsRegistered(m: Memories, e: seq<MemoryType>)
    ensures forall t :: t in Forget(m, e).1 ==> t in Forget(m, e).0
    decreases |e|
  {
    if |e| > 0 {
      var step := ForgetStep(m, e[0]);
      ForgetKeepsRegistered(step.0, e[1..]);
    }
  }

  /** A present value that can expire. */
  predicate PresentExpiring(m: Memories, t: MemoryType) {
    t in m && m[t].Some? && m[t].value.CanExpire()
  }

  /** Every present, expiring memory is on the expiry list, so forgetting reaches it. */
  ghost predicate Tracked(m: Memories, e: seq<MemoryType>) {
    forall t :: PresentExpiring(m, t) ==> t in e
  }

  /** A value forgetting leaves present and expiring was kept on the list, or was never listed. */
  lemma {:induction false} ForgetTracksStep(m: Memories, e: seq<MemoryType>)
    ensures forall t :: PresentExpiring(Forget(m, e).0, t) ==>
      t in Forget(m, e).1 || (t !in e && PresentExpiring(m, t))
  {
    if |e| > 0 {
      var step := ForgetStep(m, e[0]);
      ForgetTracksStep(step.0, e[1..]);
      assert e == [e[0]] + e[1..];
      forall t | PresentExpiring(Forget(m, e).0, t) && t !in Forget(m, e).1
        ensures t !in e && PresentExpiring(m, t)
      {
        assert t !in e[1..] && PresentExpiring(step.0, t);
      }
    }
  }

  /** forgetOutdatedMemories keeps every present, expiring memory on the list. */
  lemma ForgetTracks(m: Memories, e: seq<MemoryType>)
    requires Tracked(m, e)
    ensures Tracked(Forget(m, e).0, Forget(m, e).1)
  {
    ForgetTracksStep(m, e);
  }

  /** Storing a value keeps every present, expiring memory listed, in every edition. */
  lemma StoreTracks(edition: Edition, m: Memories, e: seq<MemoryType>, t: MemoryType, memory: Option<Expirable>)
    requires Tracked(m, e)
    ensures Tracked(m[t := Stored(memory)], ListedAfter(edition, e, t, Stored(memory)))
  {
  }

  /**
   * The older editions list a type again each time an expiring value is
   * stored, and forgetting then ages it once per listing: stored twice with a
   * time-to-live of 5, it is down to 3 after one pass.
   */
  lemma LegacyStoreTwiceAgesTwice()
    ensures var v := Some(Expirable(EntityValue(1), 5));
      var e := ListedAfter(Legacy, ListedAfter(Legacy, [], AttackTarget, v), AttackTarget, v);
      e == [AttackTarget, AttackTarget] &&
      Forget(map[AttackTarget := v], e).0[AttackTarget] == Some(Expirable(EntityValue(1), 3))
  {
    var v := Some(Expirable(EntityValue(1), 5));
    var m := map[AttackTarget := v];
    var e := [AttackTarget, AttackTarget];
    assert ListedAfter(Legacy, [], AttackTarget, v) == [AttackTarget];
    var v4 := Some(Expirable(EntityValue(1), 4));
    var v3 := Some(Expirable(EntityValue(1), 3));
    assert Aged(v) == v4 && Aged(v4) == v3;
    var m4 := map[AttackTarget := v4];
    assert ForgetStep(m, AttackTarget) == (m4, true) by { assert m[AttackTarget := v4] == m4; }
    assert ForgetStep(m4, AttackTarget).0 == map[AttackTarget := v3] by { assert m4[AttackTarget := v3] == map[AttackTarget := v3]; }
    assert e[1..] == [AttackTarget] && e[1..][1..] == [];
    assert Forget(m4, [AttackTarget]).0 == map[AttackTarget := v3];
  }

  /**
   * The current edition lists a type once however often it is stored, so
   * one pass of forgetting ages the value exactly once.
   */
  lemma CurrentStoreTwiceAgesOnce(m: Memories, e: seq<MemoryType>, t: MemoryType, v: Expirable)
    requires NoDuplicates(e) && v.CanExpire() && !IsEmptyCollection(v.value)
    ensures var e2 := ListedAfter(Current, ListedAfter(Current, e, t, Some(v)), t, Some(v));
      NoDuplicates(e2) && t in e2 && Forget(m[t := Some(v)], e2).0[t] == Aged(Some(v))
  {
    var e1 := ListedAfter(Current, e, t, Some(v));
    ListedAfterFacts(Current, e, t, Some(v));
    ListedAfterFacts(Current, e1, t, Some(v));
    var e2 := ListedAfter(Current, e1, t, Some(v));
    ForgetOutcome(m[t := Some(v)], e2);
  }

  /**
   * copyWithoutBehaviors copies every memory but lists none for expiry: a
   * value with one tick to live is gone from the original after two passes
   * but still held by the copy, whose own passes never remove it.
   */
  lemma CopyNeverForgets()
    ensures var m := map[AttackTarget := Some(Expirable(EntityValue(1), 1))];
      var original := Forget(m, [AttackTarget]);
      var copy := Forget(m, []);
      !Tracked(m, []) &&
      Forget(original.0, original.1).0[AttackTarget] == None &&
      Forget(copy.0, copy.1).0[AttackTarget] == Some(Expirable(EntityValue(1), 1))
  {
    var v1 := Some(Expirable(EntityValue(1), 1));
    var v0 := Some(Expirable(EntityValue(1), 0));
    var m := map[AttackTarget := v1];
    assert PresentExpiring(m, AttackTarget);
    assert Aged(v1) == v0 && StaysListed(v1);
    assert Aged(v0) == None && !StaysListed(v0);
    var once := map[AttackTarget := v0];
    assert ForgetStep(m, AttackTarget) == (once, true) by { assert m[AttackTarget := v0] == once; }
    assert [AttackTarget][1..] == [] && [AttackTarget] + [] == [AttackTarget];
    assert Forget(once, []) == (once, []);
    assert Forget(m, [AttackTarget]) == (once, [AttackTarget]);
    assert ForgetStep(once, AttackTarget) == (map[AttackTarget := None], false) by {
      assert once[AttackTarget := None] == map[AttackTarget := None];
    }
    assert Forget(once, [AttackTarget]).0 == map[AttackTarget := None];
  }

  // ---- Activities. ----

  type Requirements = map<Activity, set<Requirement>>

  /** Vanilla activityRequirementsAreMet: an activity with no entry never qualifies. */
  predicate RequirementsAreMet(m: Memories, reqs: Requirements, a: Activity) {
    a in reqs && ConditionsMet(m, reqs[a])
  }

  /** The position of the first activity, in priority order, whose requirements are met; |ps| if none. */
  function FirstValidIndex(m: Memories, reqs: Requirements, ps: seq<Activity>): (i: nat)
    ensures i <= |ps|
    ensures i < |ps| ==> RequirementsAreMet(m, reqs, ps[i])
    ensures forall j :: 0 <= j < i ==> !RequirementsAreMet(m, reqs, ps[j])
  {
    if |ps| == 0 then 0
    else if RequirementsAreMet(m, reqs, ps[0]) then 0
    else 1 + FirstValidIndex(m, reqs, ps[1..])
  }

  /** getFirstValidActivity: the first activity whose requirements hold, or none. */
  function FirstValid(m: Memories, reqs: Requirements, ps: seq<Activity>): (r: Option<Activity>)
    ensures r.Some? ==> r.value in ps && RequirementsAreMet(m, reqs, r.value)
    ensures r.None? <==> forall j :: 0 <= j < |ps| ==> !RequirementsAreMet(m, reqs, ps[j])
    ensures r.Some? ==> exists i :: 0 <= i < |ps| && ps[i] == r.value && forall j :: 0 <= j < i ==> !RequirementsAreMet(m, reqs, ps[j])
  {
    var i := FirstValidIndex(m, reqs, ps);
    if i == |ps| then None else Some(ps[i])
  }

  /** The active set after vanilla setActiveActivity(a). */
  function Activated(active: set<Activity>, core: set<Activity>, a: Activity): (r: set<Activity>)
    ensures a in r
    ensures a in active ==> r == active
    ensures a !in active ==> core <= r && r - core <= {a}
  {
    if a in active then active else core + {a}
  }

  /** The memories to wipe on switching to `a`: those of every other active activity. */
  function WipedFor(active: set<Activity>, wipe: map<Activity, set<MemoryType>>, a: Activity): (r: set<MemoryType>)
    ensures forall t :: t in r <==> exists x :: x in active && x != a && x in wipe && t in wipe[x]
  {
    set x, t | x in active && x != a && x in wipe && t in wipe[x] :: t
  }

  /** eraseMemory for each type: registered as empty. */
  function Erase(m: Memories, ts: set<MemoryType>): (r: Memories)
    ensures r.Keys == m.Keys + ts
    ensures forall t :: t in ts ==> r[t].None?
    ensures forall t :: t in m && t !in ts ==> r[t] == m[t]
  {
    map t | t in m.Keys + ts :: if t in ts then None else m[t]
  }

  /** The memories after vanilla setActiveActivity(a). */
  function ActivationMemories(m: Memories, active: set<Activity>, wipe: map<Activity, set<MemoryType>>, a: Activity): Memories {
    if a in active then m else Erase(m, WipedFor(active, wipe, a))
  }

  /** The memories and active set after handing `choice`, if any, to setActiveActivity. */
  function Switch(m: Memories, active: set<Activity>, core: set<Activity>, wipe: map<Activity, set<MemoryType>>, choice: Option<Activity>): (Memories, set<Activity>) {
    if choice.Some? then (ActivationMemories(m, active, wipe, choice.value), Activated(active, core, choice.value)) else (m, active)
  }

  /** Activating an activity twice is activating it once. */
  lemma ActivationIdempotent(m: Memories, active: set<Activity>, core: set<Activity>, wipe: map<Activity, set<MemoryType>>, a: Activity)
    ensures var active' := Activated(active, core, a);
      var m' := ActivationMemories(m, active, wipe, a);
      Activated(active', core, a) == active' && ActivationMemories(m', active', wipe, a) == m'
  {
  }

  /**
   * The activity findAndSetActiveActivity hands to setActiveActivity, if any:
   * a schedule-ignoring first valid activity wins; then the scheduled activity
   * when its requirements hold; then the first valid activity.
   */
  function Chosen(next: Option<Activity>, ignoring: set<Activity>, scheduled: Option<Activity>, scheduledMet: bool): (r: Option<Activity>)
    ensures next.Some? && next.value in ignoring ==> r == next
    ensures !(next.Some? && next.value in ignoring) && scheduled.Some? && scheduledMet ==> r == scheduled
    ensures !(next.Some? && next.value in ignoring) && !(scheduled.Some? && scheduledMet) ==> r == next
  {
    if next.Some? && next.value in ignoring then next
    else if scheduled.Some? && scheduledMet then scheduled
    else next
  }

  /** A chosen activity is either the first valid one or a scheduled one whose requirements hold. */
  lemma ChosenIsValid(m: Memories, reqs: Requirements, ps: seq<Activity>, ignoring: set<Activity>, scheduled: Option<Activity>)
    ensures var met := scheduled.Some? && RequirementsAreMet(m, reqs, scheduled.value);
      var r := Chosen(FirstValid(m, reqs, ps), ignoring, scheduled, met);
      r.Some? ==> RequirementsAreMet(m, reqs, r.value) && (r.value in ps || r == scheduled)
    ensures var met := scheduled.Some? && RequirementsAreMet(m, reqs, scheduled.value);
      Chosen(FirstValid(m, reqs, ps), ignoring, scheduled, met).None? <==>
        !met && forall j :: 0 <= j < |ps| ==> !RequirementsAreMet(m, reqs, ps[j])
  {
  }
}
