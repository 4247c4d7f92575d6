// SmartBrain: the brain that replaces vanilla's, in its three editions. It
// owns the behaviour table, the memory store with its expiry list, the
// activity bookkeeping and, in the current edition, a SmartBrainSchedule.
module Brains {
  import opened Wrappers
  import opened Domain
  import opened Seqs
  import opened Schedules
  import opened BehaviourTables
  import opened ActivityGroups
  import opened BrainRules

  /** An ExtendedSensor, known by identity. */
  type SensorId = nat

  // ---- The brain's nested loops over its behaviour table. ----

  /** The innermost loop of a status pass, over one (priority, activity) list. */
  method PassList(p: int, a: Activity, bs: seq<Node>, sel: Selector, from: Status, outcome: BehaviourId -> Status, st0: StatusMap)
    returns (st: StatusMap, visited: seq<BehaviourId>)
    ensures (st, visited) == Pass(ListSelected(p, a, bs, sel), from, outcome, st0)
  {
    st, visited := st0, [];
    var k := 0;
    while k < |bs|
      invariant 0 <= k <= |bs|
      invariant (st, visited) == Pass(ListSelected(p, a, bs[..k], sel), from, outcome, st0)
    {
      ghost var ids := ListSelected(p, a, bs[..k], sel);
      assert bs[..k + 1][..k] == bs[..k];
      if sel(p, a, bs[k]) {
        var b := bs[k].id;
        assert ListSelected(p, a, bs[..k + 1], sel) == ids + [b];
        assert (ids + [b])[..|ids|] == ids && (ids + [b])[|ids|] == b;
        ghost var front := Pass((ids + [b])[..|ids + [b]| - 1], from, outcome, st0);
        assert front == (st, visited);
        if StatusOf(st, b) == from {
          st, visited := st[b := outcome(b)], visited + [b];
        }
        assert (st, visited) == Pass(ids + [b], from, outcome, st0);
      } else {
        assert ListSelected(p, a, bs[..k + 1], sel) == ids + [];
        assert ids + [] == ids;
      }
      k := k + 1;
    }
    assert bs[..k] == bs;
  }

  /** The middle loop of a status pass, over the lists of one priority group. */
  method PassGroup(p: int, ls: seq<ActivityList>, sel: Selector, from: Status, outcome: BehaviourId -> Status, st0: StatusMap)
    returns (st: StatusMap, visited: seq<BehaviourId>)
    ensures (st, visited) == Pass(GroupSelected(p, ls, sel), from, outcome, st0)
  {
    st, visited := st0, [];
    var j := 0;
    while j < |ls|
      invariant 0 <= j <= |ls|
      invariant (st, visited) == Pass(GroupSelected(p, ls[..j], sel), from, outcome, st0)
    {
      var st', more := PassList(p, ls[j].activity, ls[j].behaviours, sel, from, outcome, st);
      PassAppend(GroupSelected(p, ls[..j], sel), ListSelected(p, ls[j].activity, ls[j].behaviours, sel), from, outcome, st0);
      assert ls[..j + 1][..j] == ls[..j];
      st, visited := st', visited + more;
      j := j + 1;
    }
    assert ls[..j] == ls;
  }

  /** A status pass over the whole table: groups in order, then lists, then behaviours. */
  method PassTable(t: Table, sel: Selector, from: Status, outcome: BehaviourId -> Status, st0: StatusMap)
    returns (st: StatusMap, visited: seq<BehaviourId>)
    ensures (st, visited) == Pass(Selected(t, sel), from, outcome, st0)
  {
    st, visited := st0, [];
    var i := 0;
    while i < |t|
      invariant 0 <= i <= |t|
      invariant (st, visited) == Pass(Selected(t[..i], sel), from, outcome, st0)
    {
      var st', more := PassGroup(t[i].priority, t[i].lists, sel, from, outcome, st);
      PassAppend(Selected(t[..i], sel), GroupSelected(t[i].priority, t[i].lists, sel), from, outcome, st0);
      assert t[..i + 1][..i] == t[..i];
      st, visited := st', visited + more;
      i := i + 1;
    }
    assert t[..i] == t;
  }

  /** Collects the chosen behaviours of one list, in order. */
  method CollectList(p: int, a: Activity, bs: seq<Node>, sel: Selector) returns (r: seq<BehaviourId>)
    ensures r == ListSelected(p, a, bs, sel)
  {
    r := [];
    var k := 0;
    while k < |bs|
      invariant 0 <= k <= |bs|
      invariant r == ListSelected(p, a, bs[..k], sel)
    {
      assert bs[..k + 1][..k] == bs[..k];
      if sel(p, a, bs[k]) {
        r := r + [bs[k].id];
      }
      k := k + 1;
    }
    assert bs[..k] == bs;
  }

  method CollectGroup(p: int, ls: seq<ActivityList>, sel: Selector) returns (r: seq<BehaviourId>)
    ensures r == GroupSelected(p, ls, sel)
  {
    r := [];
    var j := 0;
    while j < |ls|
      invariant 0 <= j <= |ls|
      invariant r == GroupSelected(p, ls[..j], sel)
    {
      var more := CollectList(p, ls[j].activity, ls[j].behaviours, sel);
      assert ls[..j + 1][..j] == ls[..j];
      r := r + more;
      j := j + 1;
    }
    assert ls[..j] == ls;
  }

  /** Collects the chosen behaviours of the whole table, in the brain's iteration order. */
  method CollectTable(t: Table, sel: Selector) returns (r: seq<BehaviourId>)
    ensures r == Selected(t, sel)
  {
    r := [];
    var i := 0;
    while i < |t|
      invariant 0 <= i <= |t|
      invariant r == Selected(t[..i], sel)
    {
      var more := CollectGroup(t[i].priority, t[i].lists, sel);
      assert t[..i + 1][..i] == t[..i];
      r := r + more;
      i := i + 1;
    }
    assert t[..i] == t;
  }

  /**
   * removeBehaviour's innermost loop: each behaviour is pruned by
   * checkBehaviour; one that goes is stopped first if it is RUNNING.
   */
  method RemoveFromList(p: int, a: Activity, bs: seq<Node>, m: Matcher, st0: StatusMap) returns (kept: seq<Node>, st: StatusMap)
    ensures kept == PruneTop(p, a, bs, m)
    ensures st == Pass(ListSelected(p, a, bs, RemovedBy(m)), Running, Halt(), st0).0
  {
    kept, st := [], st0;
    ghost var stopped: seq<BehaviourId> := [];
    var k := 0;
    while k < |bs|
      invariant 0 <= k <= |bs|
      invariant kept == PruneTop(p, a, bs[..k], m)
      invariant (st, stopped) == Pass(ListSelected(p, a, bs[..k], RemovedBy(m)), Running, Halt(), st0)
    {
      assert bs[..k + 1][..k] == bs[..k];
      ghost var ids := ListSelected(p, a, bs[..k], RemovedBy(m));
      var b := bs[k];
      var pruned := PruneNode(p, a, b, None, m);
      if pruned.None? {
        assert ListSelected(p, a, bs[..k + 1], RemovedBy(m)) == ids + [b.id];
        assert (ids + [b.id])[..|ids|] == ids && (ids + [b.id])[|ids|] == b.id;
        ghost var front := Pass((ids + [b.id])[..|ids + [b.id]| - 1], Running, Halt(), st0);
        assert front == (st, stopped);
        if StatusOf(st, b.id) == Running {
          st, stopped := st[b.id := Stopped], stopped + [b.id];
        }
        assert (st, stopped) == Pass(ids + [b.id], Running, Halt(), st0);
      } else {
        assert ListSelected(p, a, bs[..k + 1], RemovedBy(m)) == ids + [];
        assert ids + [] == ids;
        kept := kept + [pruned.value];
      }
      k := k + 1;
    }
    assert bs[..k] == bs;
  }

  method RemoveFromGroup(g: PriorityGroup, m: Matcher, st0: StatusMap) returns (r: PriorityGroup, st: StatusMap)
    ensures r == PruneGroup(g, m)
    ensures st == Pass(GroupSelected(g.priority, g.lists, RemovedBy(m)), Running, Halt(), st0).0
  {
    var lists: seq<ActivityList> := [];
    ghost var want := PruneGroup(g, m).lists;
    st := st0;
    var j := 0;
    while j < |g.lists|
      invariant 0 <= j <= |g.lists|
      invariant lists == want[..j]
      invariant st == Pass(GroupSelected(g.priority, g.lists[..j], RemovedBy(m)), Running, Halt(), st0).0
    {
      var l := g.lists[j];
      var kept, st' := RemoveFromList(g.priority, l.activity, l.behaviours, m, st);
      ghost var before := GroupSelected(g.priority, g.lists[..j], RemovedBy(m));
      ghost var here := ListSelected(g.priority, l.activity, l.behaviours, RemovedBy(m));
      PassAppend(before, here, Running, Halt(), st0);
      assert g.lists[..j + 1][..j] == g.lists[..j];
      assert GroupSelected(g.priority, g.lists[..j + 1], RemovedBy(m)) == before + here;
      assert want[j] == ActivityList(l.activity, kept);
      assert want[..j + 1] == want[..j] + [want[j]];
      lists, st := lists + [ActivityList(l.activity, kept)], st';
      j := j + 1;
    }
    assert g.lists[..j] == g.lists;
    assert want[..j] == want;
    r := PriorityGroup(g.priority, lists);
  }

  method RemoveFromTable(t: Table, m: Matcher, st0: StatusMap) returns (r: Table, st: StatusMap)
    ensures r == PruneTable(t, m)
    ensures st == Pass(Selected(t, RemovedBy(m)), Running, Halt(), st0).0
  {
    r, st := [], st0;
    var i := 0;
    while i < |t|
      invariant 0 <= i <= |t|
      invariant |r| == i
      invariant forall x :: 0 <= x < i ==> r[x] == PruneGroup(t[x], m)
      invariant st == Pass(Selected(t[..i], RemovedBy(m)), Running, Halt(), st0).0
    {
      var g, st' := RemoveFromGroup(t[i], m, st);
      PassAppend(Selected(t[..i], RemovedBy(m)), GroupSelected(t[i].priority, t[i].lists, RemovedBy(m)), Running, Halt(), st0);
      assert t[..i + 1][..i] == t[..i];
      r, st := r + [g], st';
      i := i + 1;
    }
    assert t[..i] == t;
    assert r == PruneTable(t, m);
  }

  /** One behaviour of LegacyRemoveFromList whose walk finished: what the kept list becomes. */
  lemma {:induction false} LegacyListKept(p: int, a: Activity, bs: seq<Node>, m: Matcher, k: nat)
    requires k < |bs| && LegacyPruneNode(p, a, bs[k], None, m).Finished?
    ensures var v := LegacyPruneNode(p, a, bs[k], None, m).value;
      PruneTop(p, a, bs[..k + 1], m) == PruneTop(p, a, bs[..k], m) + (if v.Some? then [v.value] else [])
  {
    LegacyPruneNodeAgrees(p, a, bs[k], None, m);
    assert bs[..k + 1][..k] == bs[..k];
  }

  /** One behaviour of LegacyRemoveFromList whose walk finished: what the statuses become. */
  lemma {:induction false} LegacyListTurn(p: int, a: Activity, bs: seq<Node>, m: Matcher, k: nat, st0: StatusMap, st: StatusMap)
    requires k < |bs| && LegacyPruneNode(p, a, bs[k], None, m).Finished?
    requires st == Pass(ListSelected(p, a, bs[..k], RemovedBy(m)), Running, Halt(), st0).0
    ensures var v := LegacyPruneNode(p, a, bs[k], None, m).value;
      Pass(ListSelected(p, a, bs[..k + 1], RemovedBy(m)), Running, Halt(), st0).0 ==
        if v.None? && StatusOf(st, bs[k].id) == Running then st[bs[k].id := Stopped] else st
  {
    LegacyPruneNodeAgrees(p, a, bs[k], None, m);
    assert bs[..k + 1][..k] == bs[..k];
    var ids := ListSelected(p, a, bs[..k], RemovedBy(m));
    if PruneNode(p, a, bs[k], None, m).None? {
      assert ListSelected(p, a, bs[..k + 1], RemovedBy(m)) == ids + [bs[k].id];
      PassAppend(ids, [bs[k].id], Running, Halt(), st0);
      assert [bs[k].id][..0] == [];
    } else {
      assert ListSelected(p, a, bs[..k + 1], RemovedBy(m)) == ids + [];
      assert ids + [] == ids;
    }
  }

  /** A behaviour of LegacyRemoveFromList whose walk threw: the list's walk ends there, with the list as left. */
  lemma {:induction false} LegacyListThrows(p: int, a: Activity, bs: seq<Node>, m: Matcher, k: nat, kept: seq<Node>)
    requires k < |bs| && k <= ThrowIndex(p, a, bs, m) && LegacyPruneNode(p, a, bs[k], None, m).Interrupted?
    requires kept == PruneTop(p, a, bs[..k], m)
    ensures ThrowIndex(p, a, bs, m) == k
    ensures LegacyPruneNode(p, a, bs[k], None, m).exception == UnsupportedOperation
    ensures kept + [LegacyPruneNode(p, a, bs[k], None, m).left.value] + bs[k + 1..] == LegacyLeftList(p, a, bs, m)
    ensures LegacyStoppedList(p, a, bs, m) == ListSelected(p, a, bs[..k], RemovedBy(m))
  {
    if k < ThrowIndex(p, a, bs, m) {
      ThrowIndexFirst(p, a, bs, m, k);
    }
    LegacyPruneNodeAgrees(p, a, bs[k], None, m);
  }

  /**
   * The middle edition's loop over one list: as RemoveFromList until the walk
   * of a behaviour throws, which ends the loop with the list as left.
   */
  method LegacyRemoveFromList(p: int, a: Activity, bs: seq<Node>, m: Matcher, st0: StatusMap) returns (w: Walk<seq<Node>>, st: StatusMap)
    ensures w.Finished? <==> ThrowIndex(p, a, bs, m) == |bs|
    ensures w.Finished? ==> w.value == PruneTop(p, a, bs, m)
    ensures w.Interrupted? ==> w.exception == UnsupportedOperation && w.left == LegacyLeftList(p, a, bs, m)
    ensures st == Pass(LegacyStoppedList(p, a, bs, m), Running, Halt(), st0).0
  {
    var kept: seq<Node> := [];
    st := st0;
    var k := 0;
    while k < |bs|
      invariant 0 <= k <= |bs|
      invariant k <= ThrowIndex(p, a, bs, m)
      invariant kept == PruneTop(p, a, bs[..k], m)
      invariant st == Pass(ListSelected(p, a, bs[..k], RemovedBy(m)), Running, Halt(), st0).0
    {
      var walked := LegacyPruneNode(p, a, bs[k], None, m);
      if walked.Interrupted? {
        LegacyListThrows(p, a, bs, m, k, kept);
        return Interrupted(walked.exception, kept + [walked.left.value] + bs[k + 1..]), st;
      }
      LegacyListKept(p, a, bs, m, k);
      LegacyListTurn(p, a, bs, m, k, st0, st);
      if walked.value.None? {
        if StatusOf(st, bs[k].id) == Running {
          st := st[bs[k].id := Stopped];
        }
      } else {
        kept := kept + [walked.value.value];
      }
      k := k + 1;
    }
    assert bs[..k] == bs;
    w := Finished(kept);
  }

  /** A list of LegacyRemoveFromGroup whose walk finished: the group's walk goes on with one more list. */
  lemma {:induction false} LegacyGroupContinues(g: PriorityGroup, m: Matcher, j: nat, st0: StatusMap, st: StatusMap, v: seq<Node>, st': StatusMap)
    requires j < |g.lists| && j <= ThrowList(g.priority, g.lists, m)
    requires st == Pass(GroupSelected(g.priority, g.lists[..j], RemovedBy(m)), Running, Halt(), st0).0
    requires ThrowIndex(g.priority, g.lists[j].activity, g.lists[j].behaviours, m) == |g.lists[j].behaviours|
    requires v == PruneTop(g.priority, g.lists[j].activity, g.lists[j].behaviours, m)
    requires st' == Pass(LegacyStoppedList(g.priority, g.lists[j].activity, g.lists[j].behaviours, m), Running, Halt(), st).0
    ensures j + 1 <= ThrowList(g.priority, g.lists, m)
    ensures PruneGroup(g, m).lists[j] == ActivityList(g.lists[j].activity, v)
    ensures st' == Pass(GroupSelected(g.priority, g.lists[..j + 1], RemovedBy(m)), Running, Halt(), st0).0
  {
    PassAppend(GroupSelected(g.priority, g.lists[..j], RemovedBy(m)), LegacyStoppedList(g.priority, g.lists[j].activity, g.lists[j].behaviours, m), Running, Halt(), st0);
    LegacyGroupStep(g, m, j);
  }

  /** A list of LegacyRemoveFromGroup whose walk threw: the group's walk ends there, with the group as left. */
  lemma {:induction false} LegacyGroupThrows(g: PriorityGroup, m: Matcher, j: nat, lists: seq<ActivityList>, st0: StatusMap, st: StatusMap, left: seq<Node>, st': StatusMap)
    requires j < |g.lists| && j <= ThrowList(g.priority, g.lists, m)
    requires lists == PruneGroup(g, m).lists[..j]
    requires st == Pass(GroupSelected(g.priority, g.lists[..j], RemovedBy(m)), Running, Halt(), st0).0
    requires ThrowIndex(g.priority, g.lists[j].activity, g.lists[j].behaviours, m) < |g.lists[j].behaviours|
    requires left == LegacyLeftList(g.priority, g.lists[j].activity, g.lists[j].behaviours, m)
    requires st' == Pass(LegacyStoppedList(g.priority, g.lists[j].activity, g.lists[j].behaviours, m), Running, Halt(), st).0
    ensures ThrowList(g.priority, g.lists, m) == j
    ensures PriorityGroup(g.priority, lists + [ActivityList(g.lists[j].activity, left)] + g.lists[j + 1..]) == LegacyLeftGroup(g, m)
    ensures st' == Pass(LegacyStoppedGroup(g, m), Running, Halt(), st0).0
  {
    PassAppend(GroupSelected(g.priority, g.lists[..j], RemovedBy(m)), LegacyStoppedList(g.priority, g.lists[j].activity, g.lists[j].behaviours, m), Running, Halt(), st0);
    LegacyGroupStep(g, m, j);
    LegacyLeftGroupIs(g, m, lists, left);
  }

  method LegacyRemoveFromGroup(g: PriorityGroup, m: Matcher, st0: StatusMap) returns (w: Walk<PriorityGroup>, st: StatusMap)
    ensures w.Finished? <==> ThrowList(g.priority, g.lists, m) == |g.lists|
    ensures w.Finished? ==> w.value == PruneGroup(g, m)
    ensures w.Interrupted? ==> w.exception == UnsupportedOperation && w.left == LegacyLeftGroup(g, m)
    ensures st == Pass(LegacyStoppedGroup(g, m), Running, Halt(), st0).0
  {
    var lists: seq<ActivityList> := [];
    st := st0;
    var j := 0;
    while j < |g.lists|
      invariant 0 <= j <= |g.lists|
      invariant j <= ThrowList(g.priority, g.lists, m)
      invariant lists == PruneGroup(g, m).lists[..j]
      invariant st == Pass(GroupSelected(g.priority, g.lists[..j], RemovedBy(m)), Running, Halt(), st0).0
    {
      var l := g.lists[j];
      var walked, st' := LegacyRemoveFromList(g.priority, l.activity, l.behaviours, m, st);
      if walked.Interrupted? {
        LegacyGroupThrows(g, m, j, lists, st0, st, walked.left, st');
        return Interrupted(walked.exception, PriorityGroup(g.priority, lists + [ActivityList(l.activity, walked.left)] + g.lists[j + 1..])), st';
      }
      LegacyGroupContinues(g, m, j, st0, st, walked.value, st');
      PrefixGrows(PruneGroup(g, m).lists, j);
      lists, st := lists + [ActivityList(l.activity, walked.value)], st';
      j := j + 1;
    }
    assert PruneGroup(g, m).lists[..j] == PruneGroup(g, m).lists && g.lists[..j] == g.lists;
    LegacyGroupDone(g, m);
    w := Finished(PriorityGroup(g.priority, lists));
  }

  /** A group of LegacyRemoveFromTable whose walk finished: the table's walk goes on with one more group. */
  lemma {:induction false} LegacyTableContinues(t: Table, m: Matcher, i: nat, st0: StatusMap, st: StatusMap, st': StatusMap)
    requires i < |t| && i <= ThrowGroup(t, m)
    requires st == Pass(Selected(t[..i], RemovedBy(m)), Running, Halt(), st0).0
    requires ThrowList(t[i].priority, t[i].lists, m) == |t[i].lists|
    requires st' == Pass(LegacyStoppedGroup(t[i], m), Running, Halt(), st).0
    ensures i + 1 <= ThrowGroup(t, m)
    ensures st' == Pass(Selected(t[..i + 1], RemovedBy(m)), Running, Halt(), st0).0
  {
    PassAppend(Selected(t[..i], RemovedBy(m)), LegacyStoppedGroup(t[i], m), Running, Halt(), st0);
    LegacyTableStep(t, m, i);
  }

  /** A group of LegacyRemoveFromTable whose walk threw: the table's walk ends there, with the table as left. */
  lemma {:induction false} LegacyTableThrows(t: Table, m: Matcher, i: nat, r: Table, st0: StatusMap, st: StatusMap, g: PriorityGroup, st': StatusMap)
    requires i < |t| && i <= ThrowGroup(t, m)
    requires r == PruneTable(t, m)[..i]
    requires st == Pass(Selected(t[..i], RemovedBy(m)), Running, Halt(), st0).0
    requires ThrowList(t[i].priority, t[i].lists, m) < |t[i].lists|
    requires g == LegacyLeftGroup(t[i], m)
    requires st' == Pass(LegacyStoppedGroup(t[i], m), Running, Halt(), st).0
    ensures ThrowGroup(t, m) == i
    ensures r + [g] + t[i + 1..] == LegacyLeftTable(t, m)
    ensures st' == Pass(LegacyStopped(t, m), Running, Halt(), st0).0
  {
    PassAppend(Selected(t[..i], RemovedBy(m)), LegacyStoppedGroup(t[i], m), Running, Halt(), st0);
    LegacyTableStep(t, m, i);
    LegacyLeftTableIs(t, m, r, g);
  }

  method LegacyRemoveFromTable(t: Table, m: Matcher, st0: StatusMap) returns (w: Walk<Table>, st: StatusMap)
    ensures w.Finished? <==> ThrowGroup(t, m) == |t|
    ensures w.Finished? ==> w.value == PruneTable(t, m)
    ensures w.Interrupted? ==> w.exception == UnsupportedOperation && w.left == LegacyLeftTable(t, m)
    ensures st == Pass(LegacyStopped(t, m), Running, Halt(), st0).0
  {
    var r: Table := [];
    st := st0;
    var i := 0;
    while i < |t|
      invariant 0 <= i <= |t|
      invariant i <= ThrowGroup(t, m)
      invariant r == PruneTable(t, m)[..i]
      invariant st == Pass(Selected(t[..i], RemovedBy(m)), Running, Halt(), st0).0
    {
      var walked, st' := LegacyRemoveFromGroup(t[i], m, st);
      if walked.Interrupted? {
        LegacyTableThrows(t, m, i, r, st0, st, walked.left, st');
        return Interrupted(walked.exception, r + [walked.left] + t[i + 1..]), st';
      }
      LegacyTableContinues(t, m, i, st0, st, st');
      PrefixGrows(PruneTable(t, m), i);
      r, st := r + [walked.value], st';
      i := i + 1;
    }
    assert PruneTable(t, m)[..i] == PruneTable(t, m) && t[..i] == t;
    LegacyTableDone(t, m);
    w := Finished(r);
  }

  // ---- The brain. ----

  /** No present value is an empty collection: setMemoryInternal stores those as absent. */
  predicate NoEmptyCollections(m: Memories) {
    forall t :: t in m && m[t].Some? ==> !IsEmptyCollection(m[t].value.value)
  }

  // ---- The searches of addBehaviour and removeBehaviour(priority, activity, behaviour). ----

  /** The first group with priority `p`, or |t|. */
  method FindGroup(t: Table, p: int) returns (i: nat)
    ensures i == PriorityIndex(t, p)
  {
    i := 0;
    while i < |t| && t[i].priority != p
      invariant 0 <= i <= |t|
      invariant forall x :: 0 <= x < i ==> t[x].priority != p
    {
      i := i + 1;
    }
  }

  /** The first list for activity `a`, or |ls|. */
  method FindList(ls: seq<ActivityList>, a: Activity) returns (j: nat)
    ensures j == ActivityIndex(ls, a)
  {
    j := 0;
    while j < |ls| && ls[j].activity != a
      invariant 0 <= j <= |ls|
      invariant forall x :: 0 <= x < j ==> ls[x].activity != a
    {
      j := j + 1;
    }
  }

  /** The first behaviour with id `b`, or |bs|. */
  method FindBehaviour(bs: seq<Node>, b: BehaviourId) returns (k: nat)
    ensures k == NodeIndex(bs, b)
  {
    k := 0;
    while k < |bs| && bs[k].id != b
      invariant 0 <= k <= |bs|
      invariant forall x :: 0 <= x < k ==> bs[x].id != b
    {
      k := k + 1;
    }
  }

  /**
   * One turn of forgetOutdatedMemories' loop: a type whose value is absent,
   * cannot expire or has expired leaves the list (eraseMemory then stores an
   * empty value); any other value is ticked and stays.
   */
  method ForgetOne(m0: Memories, t: MemoryType) returns (m: Memories, stays: bool)
    requires t in m0
    ensures (m, stays) == ForgetStep(m0, t)
    ensures NoEmptyCollections(m0) ==> NoEmptyCollections(m)
  {
    m, stays := m0, false;
    var memory := m[t];
    if memory.None? {
      assert m[t := memory] == m;
    } else if !memory.value.CanExpire() {
      assert m[t := memory] == m;
    } else if memory.value.HasExpired() {
      m := m[t := None];
    } else {
      m := m[t := Some(memory.value.Ticked())];
      stays := true;
    }
  }

  /** One more step of forgetOutdatedMemories' loop keeps it on course for Forget over the whole list. */
  lemma ForgetAdvance(m0: Memories, e: seq<MemoryType>, i: nat, m: Memories, kept: seq<MemoryType>, m': Memories, stays: bool)
    requires i < |e|
    requires Forget(m0, e).0 == Forget(m, e[i..]).0
    requires Forget(m0, e).1 == kept + Forget(m, e[i..]).1
    requires (m', stays) == ForgetStep(m, e[i])
    ensures Forget(m0, e).0 == Forget(m', e[i + 1..]).0
    ensures Forget(m0, e).1 == (if stays then kept + [e[i]] else kept) + Forget(m', e[i + 1..]).1
  {
    assert e[i..][0] == e[i] && e[i..][1..] == e[i + 1..];
    var rest := Forget(m', e[i + 1..]);
    assert Forget(m, e[i..]) == (rest.0, (if stays then [e[i]] else []) + rest.1);
    if stays {
      assert kept + ([e[i]] + rest.1) == (kept + [e[i]]) + rest.1;
    } else {
      assert [] + rest.1 == rest.1;
    }
  }

  /** forgetOutdatedMemories' loop over the expiry list, removing through the iterator. */
  method ForgetLoop(m0: Memories, e: seq<MemoryType>) returns (m: Memories, kept: seq<MemoryType>)
    requires forall t :: t in e ==> t in m0
    requires NoEmptyCollections(m0)
    ensures (m, kept) == Forget(m0, e)
    ensures NoEmptyCollections(m)
  {
    m, kept := m0, [];
    var i := 0;
    assert e[i..] == e;
    assert kept + Forget(m, e[i..]).1 == Forget(m0, e).1;
    while i < |e|
      invariant 0 <= i <= |e|
      invariant m.Keys == m0.Keys && NoEmptyCollections(m)
      invariant Forget(m0, e).0 == Forget(m, e[i..]).0
      invariant Forget(m0, e).1 == kept + Forget(m, e[i..]).1
    {
      var t := e[i];
      var m', stays := ForgetOne(m, t);
      ForgetAdvance(m0, e, i, m, kept, m', stays);
      if stays {
        kept := kept + [t];
      }
      m := m';
      i := i + 1;
    }
    assert e[i..] == [];
    assert Forget(m, e[i..]) == (m, []);
    assert kept + [] == kept;
  }

  /** The sort flag after one more addBehaviour still says whether a new priority has appeared. */
  lemma FlagStep(before: set<int>, now: set<int>, p: int, flag: bool, flag0: bool)
    requires before <= now && flag == (flag0 || now != before)
    ensures before <= now + {p}
    ensures (flag || p !in now) == (flag0 || now + {p} != before)
  {
    if now == before && p !in now {
      assert p in now + {p};
    }
  }

  /** Two steps that each raise the sort flag on a new priority raise it on a new priority overall. */
  lemma FlagGrows(before: set<int>, mid: set<int>, now: set<int>, flag: bool, flag': bool, flag0: bool)
    requires before <= mid <= now
    requires flag == (flag0 || mid != before)
    requires flag' == (flag || now != mid)
    ensures flag' == (flag0 || now != before)
  {
  }

  /** Storing a value that is not an empty collection keeps the memory invariants of the brain. */
  lemma StoreKeepsMemoriesValid(m: Memories, e: seq<MemoryType>, e': seq<MemoryType>, t: MemoryType, stored: Option<Expirable>)
    requires NoEmptyCollections(m) && forall x :: x in e ==> x in m
    requires stored.Some? ==> !IsEmptyCollection(stored.value.value)
    requires forall x :: x in e' ==> x in e || x == t
    ensures NoEmptyCollections(m[t := stored])
    ensures forall x :: x in e' ==> x in m[t := stored]
  {
  }

  /**
   * copyWithoutBehaviors' loop: every present value of `m` is put into
   * `into`, whose types are those of `m`, all registered empty.
   */
  method CopyPresent(m: Memories, into: Memories) returns (r: Memories)
    requires into == map t | t in m :: None
    ensures r == m
  {
    r := into;
    var todo := m.Keys;
    while todo != {}
      invariant todo <= m.Keys && r.Keys == m.Keys
      invariant forall t :: t in m && t !in todo ==> r[t] == m[t]
      invariant forall t :: t in todo ==> r[t].None?
      decreases |todo|
    {
      var t :| t in todo;
      if m[t].Some? {
        r := r[t := m[t]];
      }
      todo := todo - {t};
    }
  }

  class SmartBrain {
    const edition: Edition
    /** The memory store, registered types only (vanilla's `memories`). */
    var memories: Memories
    /** expirableMemories: the types forgetOutdatedMemories visits, in order. */
    var expirable: seq<MemoryType>
    /** The `behaviours` list of ActivityBehaviours records. */
    var table: Table
    var sortBehaviours: bool
    /** Each behaviour's own status, by identity. */
    var status: StatusMap
    var sensors: seq<SensorId>
    /** The current edition's schedule; null until one is set or a task is scheduled. */
    var schedule: SmartBrainSchedule?
    var coreActivities: set<Activity>
    var activeActivities: set<Activity>
    var defaultActivity: Activity
    /** Vanilla activityRequirements. */
    var requirements: Requirements
    /** Vanilla activityMemoriesToEraseWhenStopped. */
    var wipeOnStop: map<Activity, set<MemoryType>>

    ghost predicate Valid()
      reads this, schedule
    {
      WellFormed(table) &&
      (forall t :: t in expirable ==> t in memories) &&
      NoEmptyCollections(memories) &&
      (edition == Current ==> NoDuplicates(expirable)) &&
      (edition != Current ==> schedule == null) &&
      (schedule != null ==> schedule.Valid())
    }

    /** Every present, expiring memory is on the expiry list, so it will be forgotten in time. */
    ghost predicate ExpiryTracked()
      reads this
    {
      Tracked(memories, expirable)
    }

    /**
     * The brain for the given memory types, sensors and task list, each
     * group given as it compiles (BrainActivityGroup.Compiled). The current
     * and middle editions add each group with addActivity; the oldest adds
     * each group's behaviours at consecutive priorities itself and registers
     * neither start conditions nor wipe sets.
     */
    constructor (edition: Edition, memoryTypes: set<MemoryType>, sensors: seq<SensorId>, taskList: Option<seq<TaskGroup>>)
      ensures Valid() && ExpiryTracked()
      ensures this.edition == edition && this.sensors == sensors
      ensures memories == (map t | t in memoryTypes :: None) && expirable == []
      ensures var gs := if taskList.Some? then taskList.value else [];
        table == TableAfter([], gs) &&
        requirements == (if edition == Oldest then map[] else RequirementsAfter(map[], gs)) &&
        wipeOnStop == (if edition == Oldest then map[] else WipesAfter(map[], gs))
      ensures sortBehaviours <==> Priorities(table) != {}
      ensures status == map[] && schedule == null
      ensures coreActivities == {} && activeActivities == {} && defaultActivity == Idle
    {
      this.edition := edition;
      memories := map t | t in memoryTypes :: None;
      expirable := [];
      table := [];
      sortBehaviours := false;
      status := map[];
      this.sensors := sensors;
      schedule := null;
      coreActivities := {};
      activeActivities := {};
      defaultActivity := Idle;
      requirements := map[];
      wipeOnStop := map[];
      new;
      if taskList.Some? {
        ghost var h := (memories, expirable, status, schedule, coreActivities, activeActivities, defaultActivity, this.sensors);
        assert Tracked(memories, expirable);
        AddTaskList(taskList.value);
        assert h == (memories, expirable, status, schedule, coreActivities, activeActivities, defaultActivity, this.sensors);
        assert Tracked(memories, expirable);
        assert Priorities([]) == {};
      }
    }

    /**
     * The constructor's loop over the list of task groups, one group at a time, as
     * each group compiles: the middle and current editions hand it to
     * addActivity; the oldest adds its behaviours at their `priority++`
     * priorities and records no conditions and no wipe set.
     */
    method AddTaskList(cs: seq<TaskGroup>)
      requires Valid()
      modifies this`table, this`sortBehaviours, this`requirements, this`wipeOnStop
      ensures Valid()
      ensures table == TableAfter(old(table), cs)
      ensures requirements == (if edition == Oldest then old(requirements) else RequirementsAfter(old(requirements), cs))
      ensures wipeOnStop == (if edition == Oldest then old(wipeOnStop) else WipesAfter(old(wipeOnStop), cs))
      ensures Priorities(old(table)) <= Priorities(table)
      ensures sortBehaviours == (old(sortBehaviours) || Priorities(table) != Priorities(old(table)))
    {
      var i := 0;
      while i < |cs|
        invariant 0 <= i <= |cs|
        invariant Valid()
        invariant table == TableAfter(old(table), cs[..i])
        invariant requirements == (if edition == Oldest then old(requirements) else RequirementsAfter(old(requirements), cs[..i]))
        invariant wipeOnStop == (if edition == Oldest then old(wipeOnStop) else WipesAfter(old(wipeOnStop), cs[..i]))
        invariant Priorities(old(table)) <= Priorities(table)
        invariant sortBehaviours == (old(sortBehaviours) || Priorities(table) != Priorities(old(table)))
      {
        var c := cs[i];
        ghost var t0, f0 := table, sortBehaviours;
        if edition == Oldest {
          AddBehaviours(c.activity, c.pairs);
        } else {
          AddActivityAndRemoveMemoriesWhenStopped(c.activity, c.pairs, c.conditions, c.wiped);
        }
        FlagGrows(Priorities(old(table)), Priorities(t0), Priorities(table), f0, sortBehaviours, old(sortBehaviours));
        assert cs[..i + 1][..i] == cs[..i];
        i := i + 1;
      }
      assert cs[..i] == cs;
    }

    // ---- Behaviours. ----

    /**
     * addBehaviour: appends to the (p, a) list, or adds an (a, [b]) list to
     * the p group, or adds a new p group and raises the sort flag.
     */
    method AddBehaviour(p: int, a: Activity, b: Node)
      requires Valid()
      modifies this`table, this`sortBehaviours
      ensures Valid()
      ensures table == WithBehaviour(old(table), p, a, b)
      ensures Priorities(table) == Priorities(old(table)) + {p}
      ensures sortBehaviours == (old(sortBehaviours) || p !in Priorities(old(table)))
    {
      AddBehaviourWellFormed(table, p, a, b);
      AddBehaviourPriorities(table, p, a, b);
      var i := FindGroup(table, p);
      if i < |table| {
        var lists := table[i].lists;
        var j := FindList(lists, a);
        if j < |lists| {
          table := table[i := PriorityGroup(p, lists[j := ActivityList(a, lists[j].behaviours + [b])])];
        } else {
          table := table[i := PriorityGroup(p, lists + [ActivityList(a, [b])])];
        }
      } else {
        table := table + [PriorityGroup(p, [ActivityList(a, [b])])];
        sortBehaviours := true;
      }
    }

    /** addActivityAndRemoveMemoriesWhenStopped: records the conditions and wipe set, then adds each pair. */
    method AddActivityAndRemoveMemoriesWhenStopped(activity: Activity, tasks: seq<(int, Node)>, conditions: set<Requirement>, wiped: set<MemoryType>)
      requires Valid()
      modifies this`requirements, this`wipeOnStop, this`table, this`sortBehaviours
      ensures Valid()
      ensures requirements == old(requirements)[activity := conditions]
      ensures wipeOnStop == if wiped == {} then old(wipeOnStop) else old(wipeOnStop)[activity := wiped]
      ensures table == AddPairs(old(table), activity, tasks)
      ensures Priorities(old(table)) <= Priorities(table)
      ensures sortBehaviours == (old(sortBehaviours) || Priorities(table) != Priorities(old(table)))
    {
      requirements := requirements[activity := conditions];
      if wiped != {} {
        wipeOnStop := wipeOnStop[activity := wiped];
      }
      AddBehaviours(activity, tasks);
    }

    /** The loop shared by both ways of adding an activity: addBehaviour for each pair, in order. */
    method AddBehaviours(activity: Activity, tasks: seq<(int, Node)>)
      requires Valid()
      modifies this`table, this`sortBehaviours
      ensures Valid()
      ensures table == AddPairs(old(table), activity, tasks)
      ensures Priorities(old(table)) <= Priorities(table)
      ensures sortBehaviours == (old(sortBehaviours) || Priorities(table) != Priorities(old(table)))
    {
      ghost var t00, f00 := table, sortBehaviours;
      var k := 0;
      while k < |tasks|
        invariant 0 <= k <= |tasks|
        invariant Valid()
        invariant table == AddPairs(t00, activity, tasks[..k])
        invariant Priorities(t00) <= Priorities(table)
        invariant sortBehaviours == (f00 || Priorities(table) != Priorities(t00))
      {
        ghost var t0, f0 := table, sortBehaviours;
        AddBehaviour(tasks[k].0, activity, tasks[k].1);
        FlagStep(Priorities(t00), Priorities(t0), tasks[k].0, f0, f00);
        AddPairsSnoc(t00, activity, tasks, k);
        k := k + 1;
      }
      assert tasks[..k] == tasks;
    }

    /** addActivity: the group's activity, prioritised behaviours, start conditions and wipe set. */
    method AddActivity(g: BrainActivityGroup)
      requires Valid()
      modifies this`requirements, this`wipeOnStop, this`table, this`sortBehaviours
      ensures Valid()
      ensures var c := g.Compiled();
        requirements == old(requirements)[c.activity := c.conditions] &&
        wipeOnStop == (if c.wiped == {} then old(wipeOnStop) else old(wipeOnStop)[c.activity := c.wiped]) &&
        table == AddPairs(old(table), c.activity, c.pairs)
      ensures Priorities(old(table)) <= Priorities(table)
      ensures sortBehaviours == (old(sortBehaviours) || Priorities(table) != Priorities(old(table)))
    {
      var pairs := g.PairBehaviourPriorities();
      AddActivityAndRemoveMemoriesWhenStopped(g.activity, pairs, g.conditions, g.WipedMemoriesOnFinish());
    }

    /** checkForNewBehaviours: tries to start every STOPPED behaviour of an active activity, in table order. */
    method CheckForNewBehaviours(starts: BehaviourId -> bool) returns (tried: seq<BehaviourId>)
      modifies this`status
      ensures (status, tried) == Pass(Selected(table, ListsActive(activeActivities)), Stopped, Outcome(starts), old(status))
    {
      status, tried := PassTable(table, ListsActive(activeActivities), Stopped, Outcome(starts), status);
    }

    /** tickRunningBehaviours: ticks every RUNNING behaviour, whatever its activity; each runs on or stops. */
    method TickRunningBehaviours(keeps: BehaviourId -> bool) returns (ticked: seq<BehaviourId>)
      modifies this`status
      ensures (status, ticked) == Pass(Selected(table, AllLists()), Running, Outcome(keeps), old(status))
    {
      status, ticked := PassTable(table, AllLists(), Running, Outcome(keeps), status);
    }

    /** stopAll: stops every RUNNING behaviour. */
    method StopAll()
      modifies this`status
      ensures status == Pass(Selected(table, AllLists()), Running, Halt(), old(status)).0
    {
      var stopped;
      status, stopped := PassTable(table, AllLists(), Running, Halt(), status);
    }

    /** getRunningBehaviors: the RUNNING behaviours in table order. */
    method GetRunningBehaviors() returns (running: seq<BehaviourId>)
      ensures running == Selected(table, RunningIn(status))
    {
      running := CollectTable(table, RunningIn(status));
    }

    /** removeAllBehaviors. */
    method RemoveAllBehaviors()
      requires Valid()
      modifies this`table
      ensures Valid() && table == []
    {
      table := [];
    }

    /**
     * removeBehaviour(entity, predicate) with checkBehaviour: top-level
     * behaviours that match, or composites left without children, are taken
     * out, and each of those is stopped first if it is RUNNING. In the middle
     * edition a gate's children cannot be removed: the walk throws there, and
     * what it removed and stopped before the throw stays so.
     */
    method RemoveBehaviour(m: Matcher) returns (r: Result<()>)
      requires Valid() && edition != Oldest
      modifies this`table, this`status
      ensures Valid()
      ensures r.Throws? <==> edition == Legacy && ThrowGroup(old(table), m) < |old(table)|
      ensures r.Throws? <==> edition == Legacy && SomeGateLosesChild(old(table), m)
      ensures r.Throws? ==> r.exception == UnsupportedOperation
      ensures r.Ok? ==> table == PruneTable(old(table), m)
      ensures r.Ok? ==> status == Pass(Selected(old(table), RemovedBy(m)), Running, Halt(), old(status)).0
      ensures r.Throws? ==> table == LegacyLeftTable(old(table), m)
      ensures r.Throws? ==> status == Pass(LegacyStopped(old(table), m), Running, Halt(), old(status)).0
    {
      LegacyRemovalThrows(table, m);
      PruneTableWellFormed(table, m);
      if edition == Legacy {
        var walked;
        ghost var t0 := table;
        walked, status := LegacyRemoveFromTable(table, m, status);
        if walked.Interrupted? {
          LegacyLeftTableWellFormed(t0, m);
          table, r := walked.left, Throws(walked.exception);
        } else {
          LegacyTableDone(t0, m);
          table, r := walked.value, Ok(());
        }
      } else {
        table, status := RemoveFromTable(table, m, status);
        r := Ok(());
      }
    }

    /**
     * The oldest edition's removeBehaviour(priority, activity, behaviour):
     * only the first group with the priority and its first list for the
     * activity are searched, and the first matching behaviour is dropped.
     */
    method RemoveBehaviourAt(p: int, a: Activity, b: BehaviourId)
      requires Valid() && edition == Oldest
      modifies this`table
      ensures Valid()
      ensures table == WithoutBehaviour(old(table), p, a, b)
    {
      WithoutBehaviourWellFormed(table, p, a, b);
      var i := FindGroup(table, p);
      if i == |table| {
        return;
      }
      var lists := table[i].lists;
      var j := FindList(lists, a);
      if j == |lists| {
        return;
      }
      var bs := lists[j].behaviours;
      var k := FindBehaviour(bs, b);
      if k == |bs| {
        return;
      }
      table := table[i := PriorityGroup(p, lists[j := ActivityList(a, bs[..k] + bs[k + 1..])])];
    }

    // ---- Memories. ----

    /**
     * setMemoryInternal: an empty collection is stored as absent; a present,
     * expiring value lists its type for expiry (once, in the current edition).
     */
    method SetMemoryInternal(t: MemoryType, memory: Option<Expirable>)
      requires Valid()
      modifies this`memories, this`expirable
      ensures Valid()
      ensures memories == old(memories)[t := Stored(memory)]
      ensures expirable == ListedAfter(edition, old(expirable), t, Stored(memory))
      ensures old(ExpiryTracked()) ==> ExpiryTracked()
    {
      var stored := memory;
      if memory.Some? && IsEmptyCollection(memory.value.value) {
        stored := None;
      }
      assert stored == Stored(memory);
      ghost var listed := ListedAfter(edition, expirable, t, stored);
      ListedAfterFacts(edition, expirable, t, stored);
      StoreKeepsMemoriesValid(memories, expirable, listed, t, stored);
      if Tracked(memories, expirable) {
        StoreTracks(edition, memories, expirable, t, memory);
      }
      memories := memories[t := stored];
      if stored.Some? && stored.value.CanExpire() && (edition != Current || t !in expirable) {
        expirable := expirable + [t];
      }
      assert expirable == listed;
    }

    /** Vanilla eraseMemory: stores an absent value. */
    method EraseMemory(t: MemoryType)
      requires Valid()
      modifies this`memories, this`expirable
      ensures Valid()
      ensures memories == old(memories)[t := None] && expirable == old(expirable)
      ensures old(ExpiryTracked()) ==> ExpiryTracked()
    {
      SetMemoryInternal(t, None);
    }

    /** getMemory: registers an unknown type as empty, then answers with the value held, if any. */
    method GetMemory(t: MemoryType) returns (value: Option<Value>)
      requires Valid()
      modifies this`memories
      ensures Valid()
      ensures memories == if t in old(memories) then old(memories) else old(memories)[t := None]
      ensures value == ValueOf(old(memories), t)
      ensures old(ExpiryTracked()) ==> ExpiryTracked()
    {
      if t !in memories {
        memories := memories[t := None];
      }
      value := if memories[t].Some? then Some(memories[t].value.value) else None;
    }

    /** isMemoryValue: the memory holds a value, and it equals `v`. */
    method IsMemoryValue(t: MemoryType, v: Value) returns (b: bool)
      requires Valid()
      modifies this`memories
      ensures Valid()
      ensures memories == if t in old(memories) then old(memories) else old(memories)[t := None]
      ensures b <==> ValueOf(old(memories), t) == Some(v)
      ensures old(ExpiryTracked()) ==> ExpiryTracked()
    {
      var value := GetMemory(t);
      b := value.Some? && value.value == v;
    }

    /**
     * forgetOutdatedMemories: walks the expiry list once, dropping types whose
     * value is absent, cannot expire or has expired (erasing the last),
     * and ticking every other value.
     */
    method ForgetOutdatedMemories()
      requires Valid()
      modifies this`memories, this`expirable
      ensures Valid()
      ensures (memories, expirable) == Forget(old(memories), old(expirable))
      ensures old(ExpiryTracked()) ==> ExpiryTracked()
    {
      var e := expirable;
      ghost var m0 := memories;
      var m, kept := ForgetLoop(memories, e);
      if edition == Current {
        ForgetKeptFacts(m0, e);
      }
      ForgetKeepsRegistered(m0, e);
      if Tracked(m0, e) {
        ForgetTracks(m0, e);
      }
      memories, expirable := m, kept;
    }

    // ---- Activities. ----

    method SetCoreActivities(core: set<Activity>)
      modifies this`coreActivities
      ensures coreActivities == core
    {
      coreActivities := core;
    }

    method SetDefaultActivity(a: Activity)
      modifies this`defaultActivity
      ensures defaultActivity == a
    {
      defaultActivity := a;
    }

    /**
     * Vanilla setActiveActivity: switching to an inactive activity wipes the
     * memories of every other active activity, and the active set becomes
     * the core activities plus the new one.
     */
    method SetActiveActivity(a: Activity)
      requires Valid()
      modifies this`activeActivities, this`memories
      ensures Valid()
      ensures (memories, activeActivities) == Switch(old(memories), old(activeActivities), coreActivities, wipeOnStop, Some(a))
      ensures old(ExpiryTracked()) ==> ExpiryTracked()
    {
      if a !in activeActivities {
        memories := Erase(memories, WipedFor(activeActivities, wipeOnStop, a));
        activeActivities := coreActivities + {a};
      }
    }

    /** Vanilla useDefaultActivity. */
    method UseDefaultActivity()
      requires Valid()
      modifies this`activeActivities, this`memories
      ensures Valid()
      ensures (memories, activeActivities) == Switch(old(memories), old(activeActivities), coreActivities, wipeOnStop, Some(defaultActivity))
      ensures old(ExpiryTracked()) ==> ExpiryTracked()
    {
      SetActiveActivity(defaultActivity);
    }

    /** Vanilla setActiveActivityToFirstValid, the older editions' activity choice. */
    method SetActiveActivityToFirstValid(priorities: seq<Activity>)
      requires Valid()
      modifies this`activeActivities, this`memories
      ensures Valid()
      ensures (memories, activeActivities) == Switch(old(memories), old(activeActivities), coreActivities, wipeOnStop, FirstValid(old(memories), requirements, priorities))
      ensures old(ExpiryTracked()) ==> ExpiryTracked()
    {
      var next := FirstValid(memories, requirements, priorities);
      if next.Some? {
        SetActiveActivity(next.value);
      }
    }

    /**
     * findAndSetActiveActivity: a schedule-ignoring first valid activity wins
     * without ticking the schedule; otherwise the schedule is ticked and its
     * activity taken when its requirements hold; otherwise the first valid
     * activity. `scheduled` is what the schedule answered, `ran` the tasks it ran.
     */
    method FindAndSetActiveActivity(priorities: seq<Activity>, ignoring: set<Activity>, dayTime: int, tickCount: int)
      returns (scheduled: Option<Activity>, ran: seq<CallbackId>)
      requires Valid()
      modifies this`activeActivities, this`memories, schedule
      ensures Valid()
      ensures var next := FirstValid(old(memories), requirements, priorities);
        var met := scheduled.Some? && RequirementsAreMet(old(memories), requirements, scheduled.value);
        (memories, activeActivities) == Switch(old(memories), old(activeActivities), coreActivities, wipeOnStop, Chosen(next, ignoring, scheduled, met))
      ensures var next := FirstValid(old(memories), requirements, priorities);
        (next.Some? && next.value in ignoring) || schedule == null ==> scheduled.None? && ran == [] && (schedule != null ==> unchanged(schedule))
      ensures var next := FirstValid(old(memories), requirements, priorities);
        !(next.Some? && next.value in ignoring) && schedule != null ==>
          ran == CallbacksAt(old(schedule.callbacks), Resolve(schedule.kind, dayTime, tickCount))
      ensures old(ExpiryTracked()) ==> ExpiryTracked()
    {
      scheduled, ran := None, [];
      var next := FirstValid(memories, requirements, priorities);
      if next.Some? && next.value in ignoring {
        SetActiveActivity(next.value);
        return;
      }
      if schedule != null {
        scheduled, ran := schedule.Tick(dayTime, tickCount);
        if scheduled.Some? && RequirementsAreMet(memories, requirements, scheduled.value) {
          if scheduled.value !in activeActivities {
            SetActiveActivity(scheduled.value);
          }
          return;
        }
      }
      if next.Some? {
        SetActiveActivity(next.value);
      }
    }

    /**
     * tick: sorts the groups if a new priority was added, forgets outdated
     * memories, tries to start behaviours, ticks the running ones, then
     * chooses the activity (with the schedule in the current edition, by
     * the first valid priority in the older ones).
     */
    method Tick(starts: BehaviourId -> bool, keeps: BehaviourId -> bool, priorities: seq<Activity>, ignoring: set<Activity>, dayTime: int, tickCount: int)
      returns (tried: seq<BehaviourId>, ticked: seq<BehaviourId>, scheduled: Option<Activity>, ran: seq<CallbackId>)
      requires Valid()
      modifies this`table, this`status, this`memories, this`expirable, this`activeActivities, schedule
      ensures Valid()
      ensures table == if sortBehaviours then SortByPriority(old(table)) else old(table)
      ensures var s1 := Pass(Selected(table, ListsActive(old(activeActivities))), Stopped, Outcome(starts), old(status));
        var s2 := Pass(Selected(table, AllLists()), Running, Outcome(keeps), s1.0);
        tried == s1.1 && ticked == s2.1 && status == s2.0
      ensures var f := Forget(old(memories), old(expirable));
        var next := FirstValid(f.0, requirements, priorities);
        var met := scheduled.Some? && RequirementsAreMet(f.0, requirements, scheduled.value);
        var choice := if edition == Current then Chosen(next, ignoring, scheduled, met) else next;
        expirable == f.1 && (memories, activeActivities) == Switch(f.0, old(activeActivities), coreActivities, wipeOnStop, choice)
      ensures edition != Current ==> scheduled.None? && ran == []
      ensures old(ExpiryTracked()) ==> ExpiryTracked()
    {
      tried, ticked := TickBehaviours(starts, keeps);
      scheduled, ran := ChooseActivity(priorities, ignoring, dayTime, tickCount);
    }

    /** The first steps of tick: the sort, then forgetOutdatedMemories and the two status passes. */
    method TickBehaviours(starts: BehaviourId -> bool, keeps: BehaviourId -> bool) returns (tried: seq<BehaviourId>, ticked: seq<BehaviourId>)
      requires Valid()
      modifies this`table, this`status, this`memories, this`expirable
      ensures Valid()
      ensures table == if sortBehaviours then SortByPriority(old(table)) else old(table)
      ensures var s1 := Pass(Selected(table, ListsActive(activeActivities)), Stopped, Outcome(starts), old(status));
        var s2 := Pass(Selected(table, AllLists()), Running, Outcome(keeps), s1.0);
        tried == s1.1 && ticked == s2.1 && status == s2.0
      ensures (memories, expirable) == Forget(old(memories), old(expirable))
      ensures old(ExpiryTracked()) ==> ExpiryTracked()
    {
      SortBehaviours();
      ghost var sorted := table;
      tried, ticked := ForgetAndPass(starts, keeps);
      assert table == sorted;
    }

    /** forgetOutdatedMemories, then the two status passes. */
    method ForgetAndPass(starts: BehaviourId -> bool, keeps: BehaviourId -> bool) returns (tried: seq<BehaviourId>, ticked: seq<BehaviourId>)
      requires Valid()
      modifies this`status, this`memories, this`expirable
      ensures Valid()
      ensures var s1 := Pass(Selected(table, ListsActive(activeActivities)), Stopped, Outcome(starts), old(status));
        var s2 := Pass(Selected(table, AllLists()), Running, Outcome(keeps), s1.0);
        tried == s1.1 && ticked == s2.1 && status == s2.0
      ensures (memories, expirable) == Forget(old(memories), old(expirable))
      ensures old(ExpiryTracked()) ==> ExpiryTracked()
    {
      ForgetOutdatedMemories();
      ghost var forgotten := (memories, expirable);
      tried, ticked := RunPasses(starts, keeps);
      assert (memories, expirable) == forgotten;
    }

    /** The two status passes of tick: start what may start, then tick what runs. */
    method RunPasses(starts: BehaviourId -> bool, keeps: BehaviourId -> bool) returns (tried: seq<BehaviourId>, ticked: seq<BehaviourId>)
      modifies this`status
      ensures var s1 := Pass(Selected(table, ListsActive(activeActivities)), Stopped, Outcome(starts), old(status));
        var s2 := Pass(Selected(table, AllLists()), Running, Outcome(keeps), s1.0);
        tried == s1.1 && ticked == s2.1 && status == s2.0
    {
      tried := CheckForNewBehaviours(starts);
      ghost var s1 := status;
      ticked := TickRunningBehaviours(keeps);
      assert (status, ticked) == Pass(Selected(table, AllLists()), Running, Outcome(keeps), s1);
    }

    /** tick's first step: the groups are sorted by priority whenever the sort flag is up. */
    method SortBehaviours()
      requires Valid()
      modifies this`table
      ensures Valid()
      ensures table == if sortBehaviours then SortByPriority(old(table)) else old(table)
      ensures sortBehaviours ==> SortedByPriority(table) && multiset(table) == multiset(old(table))
    {
      if sortBehaviours {
        SortByPriorityFacts(table);
        table := SortByPriority(table);
      }
    }

    /** The last step of tick: findAndSetActiveActivity in the current edition, setActiveActivityToFirstValid before it. */
    method ChooseActivity(priorities: seq<Activity>, ignoring: set<Activity>, dayTime: int, tickCount: int)
      returns (scheduled: Option<Activity>, ran: seq<CallbackId>)
      requires Valid()
      modifies this`activeActivities, this`memories, schedule
      ensures Valid()
      ensures var next := FirstValid(old(memories), requirements, priorities);
        var met := scheduled.Some? && RequirementsAreMet(old(memories), requirements, scheduled.value);
        var choice := if edition == Current then Chosen(next, ignoring, scheduled, met) else next;
        (memories, activeActivities) == Switch(old(memories), old(activeActivities), coreActivities, wipeOnStop, choice)
      ensures edition != Current ==> scheduled.None? && ran == []
      ensures old(ExpiryTracked()) ==> ExpiryTracked()
    {
      if edition == Current {
        scheduled, ran := FindAndSetActiveActivity(priorities, ignoring, dayTime, tickCount);
      } else {
        scheduled, ran := None, [];
        SetActiveActivityToFirstValid(priorities);
      }
    }

    // ---- Copies, schedule and sensors. ----

    /**
     * copyWithoutBehaviors: a brain with the same memory types and sensors and
     * no tasks, given every present value directly, so its expiry list stays empty.
     */
    method CopyWithoutBehaviors() returns (copy: SmartBrain)
      requires Valid()
      ensures fresh(copy) && copy.Valid()
      ensures copy.edition == edition && copy.sensors == sensors
      ensures copy.memories == memories && copy.expirable == []
      ensures copy.table == [] && copy.status == map[] && copy.schedule == null
      ensures copy.requirements == map[] && copy.wipeOnStop == map[]
    {
      copy := new SmartBrain(edition, memories.Keys, sensors, None);
      var copied := CopyPresent(memories, copy.memories);
      copy.memories := copied;
    }

    /** The copy with every present value stored through setMemoryInternal, so it keeps expiring. */
    method CopyWithoutBehaviorsTracked() returns (copy: SmartBrain)
      requires Valid()
      ensures fresh(copy) && copy.Valid() && copy.ExpiryTracked()
      ensures copy.edition == edition && copy.sensors == sensors
      ensures copy.memories == memories
      ensures forall t :: t in copy.expirable ==> PresentExpiring(memories, t)
      ensures copy.table == [] && copy.status == map[] && copy.schedule == null
    {
      copy := new SmartBrain(edition, memories.Keys, sensors, None);
      copy.StorePresent(memories);
    }

    /** Stores every present value of `m` through setMemoryInternal into a brain whose types are those of `m`, all empty. */
    method StorePresent(m: Memories)
      requires Valid() && ExpiryTracked() && NoEmptyCollections(m)
      requires memories == (map t | t in m :: None) && expirable == []
      modifies this`memories, this`expirable
      ensures Valid() && ExpiryTracked()
      ensures memories == m
      ensures forall t :: t in expirable ==> PresentExpiring(m, t)
    {
      var todo := m.Keys;
      while todo != {}
        invariant todo <= m.Keys
        invariant Valid() && ExpiryTracked()
        invariant memories.Keys == m.Keys
        invariant forall t :: t in m && t !in todo ==> memories[t] == m[t]
        invariant forall t :: t in todo ==> memories[t].None?
        invariant forall t :: t in expirable ==> PresentExpiring(m, t) && t !in todo
        decreases |todo|
      {
        var t :| t in todo;
        if m[t].Some? {
          SetMemoryInternal(t, m[t]);
        }
        todo := todo - {t};
      }
    }

    /** The current edition's setSchedule. */
    method SetSchedule(s: SmartBrainSchedule?)
      requires Valid() && edition == Current && (s != null ==> s.Valid())
      modifies this`schedule
      ensures Valid() && schedule == s
    {
      schedule := s;
    }

    /** scheduleTask: creates a DAYTIME schedule if there is none, then schedules the callback after `delay`. */
    method ScheduleTask(dayTime: int, tickCount: int, delay: int, callback: CallbackId)
      requires Valid() && edition == Current
      modifies this`schedule, schedule
      ensures Valid() && schedule != null
      ensures old(schedule) != null ==> (schedule == old(schedule) && schedule.timeline == old(schedule.timeline) &&
        schedule.callbacks == AddCallback(old(schedule.callbacks), ResolveDelay(schedule.kind, dayTime, tickCount, delay), callback))
      ensures old(schedule) == null ==> (fresh(schedule) && schedule.kind == Daytime && schedule.timeline == [] &&
        schedule.callbacks == AddCallback(map[], ResolveDelay(Daytime, dayTime, tickCount, delay), callback))
    {
      if schedule == null {
        schedule := new SmartBrainSchedule(Daytime);
      }
      schedule.ScheduleTask(dayTime, tickCount, delay, callback);
    }

    /** addSensor. */
    method AddSensor(s: SensorId)
      modifies this`sensors
      ensures sensors == old(sensors) + [s]
    {
      sensors := sensors + [s];
    }
  }
}
