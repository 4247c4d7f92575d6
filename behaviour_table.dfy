// The SmartBrain behaviour table: one group per priority, each holding one
// list of behaviours per activity. This module holds the pure rules that give
// the table its shape: adding a behaviour, sorting the groups, flattening the
// table in iteration order, and pruning behaviours by a predicate.
module BehaviourTables {
  import opened Wrappers
  import opened Domain
  import opened Seqs

  type BehaviourId = nat

  /** Behaviours that own children: vanilla's GateBehavior and the library's GroupBehaviour. */
  datatype Composite = Gate | Group

  /** A behaviour as the table sees it: its identity and, for a composite, its children. */
  datatype Node =
    | Leaf(id: BehaviourId)
    | Parent(kind: Composite, id: BehaviourId, children: seq<Node>)

  datatype ActivityList = ActivityList(activity: Activity, behaviours: seq<Node>)

  /** The record ActivityBehaviours(priority, behaviours). */
  datatype PriorityGroup = PriorityGroup(priority: int, lists: seq<ActivityList>)

  type Table = seq<PriorityGroup>

  predicate OneListPerActivity(lists: seq<ActivityList>) {
    forall i, j :: 0 <= i < j < |lists| ==> lists[i].activity != lists[j].activity
  }

  /** At most one group per priority, and one list per activity within a group. */
  predicate WellFormed(t: Table) {
    (forall i, j :: 0 <= i < j < |t| ==> t[i].priority != t[j].priority) &&
    (forall i :: 0 <= i < |t| ==> OneListPerActivity(t[i].lists))
  }

  /** Index of the first group with priority `p`, or |t| when there is none. */
  function PriorityIndex(t: Table, p: int): (i: nat)
    ensures i <= |t|
    ensures i < |t| ==> t[i].priority == p
    ensures forall j :: 0 <= j < i ==> t[j].priority != p
  {
    if |t| == 0 then 0
    else if t[0].priority == p then 0
    else 1 + PriorityIndex(t[1..], p)
  }

  /** Index of the first list for activity `a`, or |lists| when there is none. */
  function ActivityIndex(lists: seq<ActivityList>, a: Activity): (i: nat)
    ensures i <= |lists|
    ensures i < |lists| ==> lists[i].activity == a
    ensures forall j :: 0 <= j < i ==> lists[j].activity != a
  {
    if |lists| == 0 then 0
    else if lists[0].activity == a then 0
    else 1 + ActivityIndex(lists[1..], a)
  }

  /** The behaviours registered under priority `p` and activity `a`. */
  function BehavioursAt(t: Table, p: int, a: Activity): seq<Node> {
    var gi := PriorityIndex(t, p);
    if gi == |t| then []
    else
      var li := ActivityIndex(t[gi].lists, a);
      if li == |t[gi].lists| then [] else t[gi].lists[li].behaviours
  }

  /**
   * The table after addBehaviour(p, a, b): appended to the existing (p, a)
   * list, or a new (a, [b]) list in the p group, or a new p group at the end.
   */
  function WithBehaviour(t: Table, p: int, a: Activity, b: Node): Table {
    var gi := PriorityIndex(t, p);
    if gi == |t| then t + [PriorityGroup(p, [ActivityList(a, [b])])]
    else
      var lists := t[gi].lists;
      var li := ActivityIndex(lists, a);
      if li == |lists| then t[gi := PriorityGroup(p, lists + [ActivityList(a, [b])])]
      else t[gi := PriorityGroup(p, lists[li := ActivityList(a, lists[li].behaviours + [b])])]
  }

  lemma {:induction false} PriorityIndexSamePriorities(t: Table, u: Table, p: int)
    requires |t| == |u| && forall j :: 0 <= j < |t| ==> t[j].priority == u[j].priority
    ensures PriorityIndex(t, p) == PriorityIndex(u, p)
  {
    if |t| > 0 && t[0].priority != p {
      PriorityIndexSamePriorities(t[1..], u[1..], p);
    }
  }

  lemma PriorityIndexUpdate(t: Table, i: int, g: PriorityGroup, p: int)
    requires 0 <= i < |t| && g.priority == t[i].priority
    ensures PriorityIndex(t[i := g], p) == PriorityIndex(t, p)
  {
    PriorityIndexSamePriorities(t, t[i := g], p);
  }

  lemma {:induction false} PriorityIndexAppend(t: Table, g: PriorityGroup, p: int)
    ensures PriorityIndex(t + [g], p) ==
      if PriorityIndex(t, p) < |t| then PriorityIndex(t, p) else if g.priority == p then |t| else |t| + 1
  {
    if |t| > 0 && t[0].priority != p {
      PriorityIndexAppend(t[1..], g, p);
      assert (t + [g])[1..] == t[1..] + [g];
    }
  }

  lemma {:induction false} ActivityIndexSameActivities(ls: seq<ActivityList>, us: seq<ActivityList>, a: Activity)
    requires |ls| == |us| && forall j :: 0 <= j < |ls| ==> ls[j].activity == us[j].activity
    ensures ActivityIndex(ls, a) == ActivityIndex(us, a)
  {
    if |ls| > 0 && ls[0].activity != a {
      ActivityIndexSameActivities(ls[1..], us[1..], a);
    }
  }

  lemma ActivityIndexUpdate(ls: seq<ActivityList>, i: int, x: ActivityList, a: Activity)
    requires 0 <= i < |ls| && x.activity == ls[i].activity
    ensures ActivityIndex(ls[i := x], a) == ActivityIndex(ls, a)
  {
    ActivityIndexSameActivities(ls, ls[i := x], a);
  }

  lemma {:induction false} ActivityIndexAppend(ls: seq<ActivityList>, x: ActivityList, a: Activity)
    ensures ActivityIndex(ls + [x], a) ==
      if ActivityIndex(ls, a) < |ls| then ActivityIndex(ls, a) else if x.activity == a then |ls| else |ls| + 1
  {
    if |ls| > 0 && ls[0].activity != a {
      ActivityIndexAppend(ls[1..], x, a);
      assert (ls + [x])[1..] == ls[1..] + [x];
    }
  }

  /** addBehaviour keeps at most one group per priority and one list per activity. */
  lemma AddBehaviourWellFormed(t: Table, p: int, a: Activity, b: Node)
    requires WellFormed(t)
    ensures WellFormed(WithBehaviour(t, p, a, b))
  {
    var u := WithBehaviour(t, p, a, b);
    var gi := PriorityIndex(t, p);
    if gi == |t| {
      forall i, j | 0 <= i < j < |u| ensures u[i].priority != u[j].priority {
        assert u[i] == t[i];
        if j < |t| { assert u[j] == t[j]; }
      }
      forall i | 0 <= i < |u| ensures OneListPerActivity(u[i].lists) {
        if i < |t| { assert u[i] == t[i]; }
      }
    } else {
      var lists := t[gi].lists;
      assert OneListPerActivity(lists);
      var li := ActivityIndex(lists, a);
      var ul := u[gi].lists;
      forall x, y | 0 <= x < y < |ul| ensures ul[x].activity != ul[y].activity {
        if y == |lists| { assert ul[x] == lists[x]; }
        else if li < |lists| { assert ul[x].activity == lists[x].activity && ul[y].activity == lists[y].activity; }
      }
      forall i | 0 <= i < |u| ensures OneListPerActivity(u[i].lists) {
        if i != gi { assert u[i] == t[i]; }
      }
    }
  }

  /** addBehaviour appends `b` to what is registered under (p, a). */
  lemma AddBehaviourAppends(t: Table, p: int, a: Activity, b: Node)
    ensures BehavioursAt(WithBehaviour(t, p, a, b), p, a) == BehavioursAt(t, p, a) + [b]
  {
    var u := WithBehaviour(t, p, a, b);
    var gi := PriorityIndex(t, p);
    if gi == |t| {
      PriorityIndexAppend(t, PriorityGroup(p, [ActivityList(a, [b])]), p);
    } else {
      var lists := t[gi].lists;
      var li := ActivityIndex(lists, a);
      PriorityIndexUpdate(t, gi, u[gi], p);
      if li == |lists| {
        ActivityIndexAppend(lists, ActivityList(a, [b]), a);
      } else {
        ActivityIndexUpdate(lists, li, ActivityList(a, lists[li].behaviours + [b]), a);
      }
    }
  }

  /** addBehaviour leaves the lists of every other priority as they were. */
  lemma AddBehaviourKeepsOtherPriorities(t: Table, p: int, a: Activity, b: Node, p': int, a': Activity)
    requires p' != p
    ensures BehavioursAt(WithBehaviour(t, p, a, b), p', a') == BehavioursAt(t, p', a')
  {
    var u := WithBehaviour(t, p, a, b);
    var gi := PriorityIndex(t, p);
    var gj := PriorityIndex(t, p');
    if gi == |t| {
      PriorityIndexAppend(t, PriorityGroup(p, [ActivityList(a, [b])]), p');
      if gj < |t| { assert u[gj] == t[gj]; }
    } else {
      PriorityIndexUpdate(t, gi, u[gi], p');
      if gj < |t| { assert gj != gi; assert u[gj] == t[gj]; }
    }
  }

  /** addBehaviour leaves the other activities' lists of the same priority as they were. */
  lemma AddBehaviourKeepsOtherActivities(t: Table, p: int, a: Activity, b: Node, a': Activity)
    requires a' != a
    ensures BehavioursAt(WithBehaviour(t, p, a, b), p, a') == BehavioursAt(t, p, a')
  {
    var gi := PriorityIndex(t, p);
    if gi == |t| {
      PriorityIndexAppend(t, PriorityGroup(p, [ActivityList(a, [b])]), p);
    } else {
      var lists := t[gi].lists;
      var li := ActivityIndex(lists, a);
      var lists' := if li == |lists| then lists + [ActivityList(a, [b])] else lists[li := ActivityList(a, lists[li].behaviours + [b])];
      assert WithBehaviour(t, p, a, b) == t[gi := PriorityGroup(p, lists')];
      PriorityIndexUpdate(t, gi, PriorityGroup(p, lists'), p);
      OtherActivityList(lists, li, a, b, a');
    }
  }

  /** Adding to activity `a`'s list, or appending one for it, leaves the lookup of another activity as it was. */
  lemma OtherActivityList(lists: seq<ActivityList>, li: nat, a: Activity, b: Node, a': Activity)
    requires a' != a && li == ActivityIndex(lists, a)
    ensures var lists' := if li == |lists| then lists + [ActivityList(a, [b])] else lists[li := ActivityList(a, lists[li].behaviours + [b])];
      var lj, lj' := ActivityIndex(lists, a'), ActivityIndex(lists', a');
      (lj == |lists| <==> lj' == |lists'|) && (lj < |lists| ==> lj' == lj && lists'[lj'] == lists[lj])
  {
    var lj := ActivityIndex(lists, a');
    if li == |lists| {
      ActivityIndexAppend(lists, ActivityList(a, [b]), a');
    } else {
      ActivityIndexUpdate(lists, li, ActivityList(a, lists[li].behaviours + [b]), a');
      if lj < |lists| { assert lj != li; }
    }
  }

  /** The priorities that have a group. */
  function Priorities(t: Table): set<int> {
    set i | 0 <= i < |t| :: t[i].priority
  }

  /** addBehaviour creates a group exactly when its priority had none. */
  lemma AddBehaviourPriorities(t: Table, p: int, a: Activity, b: Node)
    ensures Priorities(WithBehaviour(t, p, a, b)) == Priorities(t) + {p}
    ensures p in Priorities(t) <==> PriorityIndex(t, p) < |t|
  {
    var u := WithBehaviour(t, p, a, b);
    var gi := PriorityIndex(t, p);
    if gi == |t| {
      assert u[|t|].priority == p;
      forall q | q in Priorities(u) ensures q in Priorities(t) + {p} {
        var i :| 0 <= i < |u| && u[i].priority == q;
        if i < |t| { assert u[i] == t[i]; }
      }
      forall q | q in Priorities(t) ensures q in Priorities(u) {
        var i :| 0 <= i < |t| && t[i].priority == q;
        assert u[i] == t[i];
      }
    } else {
      forall q | q in Priorities(u) ensures q in Priorities(t) {
        var i :| 0 <= i < |u| && u[i].priority == q;
        assert u[i].priority == t[i].priority;
      }
      forall q | q in Priorities(t) ensures q in Priorities(u) {
        var i :| 0 <= i < |t| && t[i].priority == q;
        assert u[i].priority == t[i].priority;
      }
    }
    if p in Priorities(t) {
      var i :| 0 <= i < |t| && t[i].priority == p;
    }
  }

  // ---- Sorting the groups by priority (List.sort with a priority comparator; stable). ----

  predicate SortedByPriority(t: Table) {
    forall i, j :: 0 <= i < j < |t| ==> t[i].priority <= t[j].priority
  }

  /** Inserts `g` before the first group whose priority is not smaller, keeping equal groups in order. */
  function InsertByPriority(g: PriorityGroup, t: Table): Table {
    if |t| == 0 then [g]
    else if g.priority <= t[0].priority then [g] + t
    else [t[0]] + InsertByPriority(g, t[1..])
  }

  function SortByPriority(t: Table): Table {
    if |t| == 0 then [] else InsertByPriority(t[0], SortByPriority(t[1..]))
  }

  lemma {:induction false} InsertByPriorityMultiset(g: PriorityGroup, t: Table)
    ensures multiset(InsertByPriority(g, t)) == multiset(t) + multiset{g}
  {
    if |t| > 0 && g.priority > t[0].priority {
      InsertByPriorityMultiset(g, t[1..]);
      assert t == [t[0]] + t[1..];
    }
  }

  /** Inserting never puts a priority below a bound that `g` and all of `t` respect. */
  lemma {:induction false} InsertByPriorityLower(g: PriorityGroup, t: Table, lo: int)
    requires lo <= g.priority
    requires forall i :: 0 <= i < |t| ==> lo <= t[i].priority
    ensures forall i :: 0 <= i < |InsertByPriority(g, t)| ==> lo <= InsertByPriority(g, t)[i].priority
  {
    if |t| > 0 && g.priority > t[0].priority {
      var r := InsertByPriority(g, t[1..]);
      InsertByPriorityLower(g, t[1..], lo);
      forall i | 0 <= i < |[t[0]] + r| ensures lo <= ([t[0]] + r)[i].priority {
        if i > 0 { assert ([t[0]] + r)[i] == r[i - 1]; }
      }
    } else if |t| > 0 {
      forall i | 0 <= i < |[g] + t| ensures lo <= ([g] + t)[i].priority {
        if i > 0 { assert ([g] + t)[i] == t[i - 1]; }
      }
    }
  }

  lemma {:induction false} InsertByPrioritySorted(g: PriorityGroup, t: Table)
    requires SortedByPriority(t)
    ensures SortedByPriority(InsertByPriority(g, t))
  {
    if |t| > 0 && g.priority > t[0].priority {
      var rest := t[1..];
      assert SortedByPriority(rest) by {
        forall i, j | 0 <= i < j < |rest| ensures rest[i].priority <= rest[j].priority {
          assert rest[i] == t[i + 1] && rest[j] == t[j + 1];
        }
      }
      InsertByPrioritySorted(g, rest);
      forall i | 0 <= i < |rest| ensures t[0].priority <= rest[i].priority {
        assert rest[i] == t[i + 1];
      }
      InsertByPriorityLower(g, rest, t[0].priority);
      var r := InsertByPriority(g, rest);
      var out := [t[0]] + r;
      forall i, j | 0 <= i < j < |out| ensures out[i].priority <= out[j].priority {
        assert out[j] == r[j - 1];
        if i > 0 { assert out[i] == r[i - 1]; }
      }
    } else if |t| > 0 {
      var out := [g] + t;
      forall i, j | 0 <= i < j < |out| ensures out[i].priority <= out[j].priority {
        assert out[j] == t[j - 1];
        if i > 0 { assert out[i] == t[i - 1]; }
      }
    }
  }

  /** Putting a group with a new priority in front of a well-formed table keeps it well-formed. */
  lemma ConsWellFormed(h: PriorityGroup, r: Table)
    requires WellFormed(r) && OneListPerActivity(h.lists)
    requires forall x :: x in r ==> x.priority != h.priority
    ensures WellFormed([h] + r)
  {
    var out := [h] + r;
    forall i, j | 0 <= i < j < |out| ensures out[i].priority != out[j].priority {
      if i == 0 { assert out[j] in r; } else { assert out[i] == r[i - 1] && out[j] == r[j - 1]; }
    }
    forall i | 0 <= i < |out| ensures OneListPerActivity(out[i].lists) {
      if i > 0 { assert out[i] == r[i - 1]; }
    }
  }

  lemma TailWellFormed(t: Table)
    requires WellFormed(t) && |t| > 0
    ensures WellFormed(t[1..])
  {
    var rest := t[1..];
    forall i, j | 0 <= i < j < |rest| ensures rest[i].priority != rest[j].priority {
      assert rest[i] == t[i + 1] && rest[j] == t[j + 1];
    }
    forall i | 0 <= i < |rest| ensures OneListPerActivity(rest[i].lists) {
      assert rest[i] == t[i + 1];
    }
  }

  /** Inserting a group whose priority is new keeps the table well-formed. */
  lemma {:induction false} InsertByPriorityWellFormed(g: PriorityGroup, t: Table)
    requires WellFormed(t) && OneListPerActivity(g.lists)
    requires forall x :: x in t ==> x.priority != g.priority
    ensures WellFormed(InsertByPriority(g, t))
  {
    if |t| > 0 && g.priority > t[0].priority {
      var rest := t[1..];
      TailWellFormed(t);
      InsertByPriorityWellFormed(g, rest);
      InsertByPriorityMultiset(g, rest);
      var r := InsertByPriority(g, rest);
      forall x | x in r ensures x.priority != t[0].priority {
        assert x in multiset(r);
        assert x == g || x in multiset(rest);
        if x != g {
          var k :| 0 <= k < |rest| && rest[k] == x;
          assert rest[k] == t[k + 1];
        }
      }
      assert OneListPerActivity(t[0].lists);
      ConsWellFormed(t[0], r);
    } else if |t| > 0 {
      ConsWellFormed(g, t);
    }
  }

  /** The sort yields the same groups ordered by priority; a well-formed table stays well-formed. */
  lemma SortByPriorityFacts(t: Table)
    ensures SortedByPriority(SortByPriority(t))
    ensures multiset(SortByPriority(t)) == multiset(t)
    ensures |SortByPriority(t)| == |t|
    ensures WellFormed(t) ==> WellFormed(SortByPriority(t))
  {
    SortByPrioritySorted(t);
    SortByPriorityPermutes(t);
    if WellFormed(t) {
      SortByPriorityWellFormed(t);
    }
  }

  lemma {:induction false} SortByPrioritySorted(t: Table)
    ensures SortedByPriority(SortByPriority(t))
  {
    if |t| > 0 {
      SortByPrioritySorted(t[1..]);
      InsertByPrioritySorted(t[0], SortByPriority(t[1..]));
    }
  }

  lemma {:induction false} SortByPriorityPermutes(t: Table)
    ensures multiset(SortByPriority(t)) == multiset(t)
    ensures |SortByPriority(t)| == |t|
  {
    if |t| > 0 {
      var rest := t[1..];
      SortByPriorityPermutes(rest);
      InsertByPriorityMultiset(t[0], SortByPriority(rest));
      assert t == [t[0]] + rest;
      assert |multiset(SortByPriority(t))| == |multiset(t)|;
    }
  }

  lemma {:induction false} SortByPriorityWellFormed(t: Table)
    requires WellFormed(t)
    ensures WellFormed(SortByPriority(t))
  {
    if |t| > 0 {
      var rest := t[1..];
      TailWellFormed(t);
      SortByPriorityWellFormed(rest);
      SortByPriorityPermutes(rest);
      var s := SortByPriority(rest);
      forall x | x in s ensures x.priority != t[0].priority {
        assert x in multiset(rest);
        var k :| 0 <= k < |rest| && rest[k] == x;
        assert rest[k] == t[k + 1];
      }
      assert OneListPerActivity(t[0].lists);
      InsertByPriorityWellFormed(t[0], s);
    }
  }

  /** In a well-formed table the lookup by priority finds the group itself. */
  lemma PriorityIndexFinds(t: Table, g: PriorityGroup)
    requires WellFormed(t) && g in t
    ensures PriorityIndex(t, g.priority) < |t| && t[PriorityIndex(t, g.priority)] == g
  {
    var j :| 0 <= j < |t| && t[j] == g;
    var i := PriorityIndex(t, g.priority);
    assert i <= j;
    assert i == j;
  }

  /** Two well-formed tables holding the same groups answer every lookup alike. */
  lemma SameGroupsSameBehaviours(t: Table, u: Table, p: int, a: Activity)
    requires WellFormed(t) && WellFormed(u)
    requires forall g :: g in t <==> g in u
    ensures BehavioursAt(t, p, a) == BehavioursAt(u, p, a)
  {
    var i, k := PriorityIndex(t, p), PriorityIndex(u, p);
    if i < |t| {
      PriorityIndexFinds(u, t[i]);
    }
    if k < |u| {
      PriorityIndexFinds(t, u[k]);
    }
  }

  /** Sorting the groups never changes which behaviours are registered under (p, a). */
  lemma SortKeepsBehaviours(t: Table, p: int, a: Activity)
    requires WellFormed(t)
    ensures BehavioursAt(SortByPriority(t), p, a) == BehavioursAt(t, p, a)
  {
    SortByPriorityFacts(t);
    forall g ensures g in SortByPriority(t) <==> g in t {
      assert g in SortByPriority(t) <==> g in multiset(SortByPriority(t));
      assert g in t <==> g in multiset(t);
    }
    SameGroupsSameBehaviours(SortByPriority(t), t, p, a);
  }

  // ---- Flattening the table in iteration order (group, then list, then behaviour). ----

  /** Chooses behaviours by (priority, activity, behaviour). */
  type Selector = (int, Activity, Node) -> bool

  /** Chooses whole lists by their activity, as the brain's start pass does. */
  function ListsIn(f: Activity -> bool): Selector {
    (p: int, a: Activity, n: Node) => f(a)
  }

  /** Slot k of list `bs` under (p, a) holds behaviour `b` and is chosen by `sel`. */
  predicate ListHas(p: int, a: Activity, bs: seq<Node>, sel: Selector, b: BehaviourId, k: int) {
    0 <= k < |bs| && bs[k].id == b && sel(p, a, bs[k])
  }

  function ListSelected(p: int, a: Activity, bs: seq<Node>, sel: Selector): seq<BehaviourId> {
    if |bs| == 0 then []
    else ListSelected(p, a, bs[..|bs| - 1], sel) + (if sel(p, a, bs[|bs| - 1]) then [bs[|bs| - 1].id] else [])
  }

  function GroupSelected(p: int, ls: seq<ActivityList>, sel: Selector): seq<BehaviourId> {
    if |ls| == 0 then []
    else GroupSelected(p, ls[..|ls| - 1], sel) + ListSelected(p, ls[|ls| - 1].activity, ls[|ls| - 1].behaviours, sel)
  }

  /** The ids of the top-level behaviours chosen by `sel`, in the order the brain's loops visit them. */
  function Selected(t: Table, sel: Selector): seq<BehaviourId> {
    if |t| == 0 then []
    else Selected(t[..|t| - 1], sel) + GroupSelected(t[|t| - 1].priority, t[|t| - 1].lists, sel)
  }

  /** Behaviour `b` sits in some slot of the table that `sel` accepts. */
  ghost predicate Sits(t: Table, sel: Selector, b: BehaviourId) {
    exists i, j, k :: 0 <= i < |t| && 0 <= j < |t[i].lists| && ListHas(t[i].priority, t[i].lists[j].activity, t[i].lists[j].behaviours, sel, b, k)
  }

  /** A behaviour is selected exactly when it sits in some slot that the selector accepts. */
  lemma {:induction false} SelectedMembers(t: Table, sel: Selector, b: BehaviourId)
    ensures b in Selected(t, sel) <==> Sits(t, sel, b)
  {
    if |t| > 0 {
      var n := |t| - 1;
      var front := t[..n];
      SelectedMembers(front, sel, b);
      GroupSelectedMembers(t[n].priority, t[n].lists, sel, b);
      if b in Selected(front, sel) {
        var i, j, k :| 0 <= i < |front| && 0 <= j < |front[i].lists| && ListHas(front[i].priority, front[i].lists[j].activity, front[i].lists[j].behaviours, sel, b, k);
        assert front[i] == t[i];
      }
      if b in GroupSelected(t[n].priority, t[n].lists, sel) {
        var j, k :| 0 <= j < |t[n].lists| && ListHas(t[n].priority, t[n].lists[j].activity, t[n].lists[j].behaviours, sel, b, k);
      }
      if exists i, j, k :: 0 <= i < |t| && 0 <= j < |t[i].lists| && ListHas(t[i].priority, t[i].lists[j].activity, t[i].lists[j].behaviours, sel, b, k) {
        var i, j, k :| 0 <= i < |t| && 0 <= j < |t[i].lists| && ListHas(t[i].priority, t[i].lists[j].activity, t[i].lists[j].behaviours, sel, b, k);
        if i < n { assert front[i] == t[i]; }
      }
    }
  }

  lemma {:induction false} GroupSelectedMembers(p: int, ls: seq<ActivityList>, sel: Selector, b: BehaviourId)
    ensures b in GroupSelected(p, ls, sel) <==>
      exists j, k :: 0 <= j < |ls| && ListHas(p, ls[j].activity, ls[j].behaviours, sel, b, k)
  {
    if |ls| > 0 {
      var n := |ls| - 1;
      var front := ls[..n];
      GroupSelectedMembers(p, front, sel, b);
      ListSelectedMembers(p, ls[n].activity, ls[n].behaviours, sel, b);
      if b in GroupSelected(p, front, sel) {
        var j, k :| 0 <= j < |front| && ListHas(p, front[j].activity, front[j].behaviours, sel, b, k);
        assert front[j] == ls[j];
      }
      if exists j, k :: 0 <= j < |ls| && ListHas(p, ls[j].activity, ls[j].behaviours, sel, b, k) {
        var j, k :| 0 <= j < |ls| && ListHas(p, ls[j].activity, ls[j].behaviours, sel, b, k);
        if j < n { assert front[j] == ls[j]; }
      }
    }
  }

  lemma {:induction false} ListSelectedMembers(p: int, a: Activity, bs: seq<Node>, sel: Selector, b: BehaviourId)
    ensures b in ListSelected(p, a, bs, sel) <==> exists k :: ListHas(p, a, bs, sel, b, k)
  {
    if |bs| > 0 {
      var n := |bs| - 1;
      var front := bs[..n];
      var last := if sel(p, a, bs[n]) then [bs[n].id] else [];
      ListSelectedMembers(p, a, front, sel, b);
      assert ListSelected(p, a, bs, sel) == ListSelected(p, a, front, sel) + last;
      if b in ListSelected(p, a, bs, sel) {
        if b in ListSelected(p, a, front, sel) {
          var k :| ListHas(p, a, front, sel, b, k);
          assert front[k] == bs[k];
          assert ListHas(p, a, bs, sel, b, k);
        } else {
          assert b in last;
          assert ListHas(p, a, bs, sel, b, n);
        }
      }
      if exists k :: ListHas(p, a, bs, sel, b, k) {
        var k :| ListHas(p, a, bs, sel, b, k);
        if k < n {
          assert front[k] == bs[k];
          assert ListHas(p, a, front, sel, b, k);
        } else {
          assert b in last;
        }
      }
    }
  }

  /** The ids of a list's behaviours, in order. */
  function Ids(bs: seq<Node>): (r: seq<BehaviourId>)
    ensures |r| == |bs|
    ensures forall k :: 0 <= k < |bs| ==> r[k] == bs[k].id
  {
    if |bs| == 0 then [] else Ids(bs[..|bs| - 1]) + [bs[|bs| - 1].id]
  }

  /** A list the activity filter accepts contributes all its ids; one it rejects, none. */
  lemma {:induction false} ListSelectedListsIn(p: int, a: Activity, bs: seq<Node>, f: Activity -> bool)
    ensures ListSelected(p, a, bs, ListsIn(f)) == if f(a) then Ids(bs) else []
  {
    if |bs| > 0 {
      ListSelectedListsIn(p, a, bs[..|bs| - 1], f);
    }
  }

  // ---- removeBehaviour / checkBehaviour: pruning by a predicate. ----

  /** BrainBehaviourPredicate: (priority, activity, behaviour, parent) -> match. */
  type Matcher = (int, Activity, BehaviourId, Option<BehaviourId>) -> bool

  /**
   * checkBehaviour on one behaviour: None when it is removed. A matching
   * behaviour is removed; otherwise a composite has its children pruned and is
   * removed itself once it has no children left.
   */
  function PruneNode(p: int, a: Activity, n: Node, parent: Option<BehaviourId>, m: Matcher): Option<Node>
    decreases n, 1
  {
    if m(p, a, n.id, parent) then None
    else match n
      case Leaf(_) => Some(n)
      case Parent(kind, id, children) =>
        var kept := PruneList(p, a, children, id, m);
        if |kept| == 0 then None else Some(Parent(kind, id, kept))
  }

  /** The children that survive checkBehaviour, in order. */
  function PruneList(p: int, a: Activity, cs: seq<Node>, parent: BehaviourId, m: Matcher): seq<Node>
    decreases cs, 0
  {
    if |cs| == 0 then []
    else
      var rest := PruneList(p, a, cs[1..], parent, m);
      match PruneNode(p, a, cs[0], Some(parent), m)
      case None => rest
      case Some(n) => [n] + rest
  }

  /** Nothing in the tree matches, and every composite still has children. */
  predicate Clean(p: int, a: Activity, n: Node, parent: Option<BehaviourId>, m: Matcher)
    decreases n, 1
  {
    !m(p, a, n.id, parent) &&
    (n.Parent? ==> |n.children| > 0 && CleanList(p, a, n.children, n.id, m))
  }

  predicate CleanList(p: int, a: Activity, cs: seq<Node>, parent: BehaviourId, m: Matcher)
    decreases cs, 0
  {
    forall i :: 0 <= i < |cs| ==> Clean(p, a, cs[i], Some(parent), m)
  }

  /** What survives pruning is clean and keeps its identity. */
  lemma {:induction false} PruneNodeClean(p: int, a: Activity, n: Node, parent: Option<BehaviourId>, m: Matcher)
    ensures PruneNode(p, a, n, parent, m).Some? ==>
      PruneNode(p, a, n, parent, m).value.id == n.id && Clean(p, a, PruneNode(p, a, n, parent, m).value, parent, m)
    decreases n, 1
  {
    if !m(p, a, n.id, parent) && n.Parent? {
      PruneListClean(p, a, n.children, n.id, m);
    }
  }

  lemma {:induction false} PruneListClean(p: int, a: Activity, cs: seq<Node>, parent: BehaviourId, m: Matcher)
    ensures CleanList(p, a, PruneList(p, a, cs, parent, m), parent, m)
    decreases cs, 0
  {
    if |cs| > 0 {
      PruneListClean(p, a, cs[1..], parent, m);
      PruneNodeClean(p, a, cs[0], Some(parent), m);
    }
  }

  /** Pruning a clean tree changes nothing. */
  lemma {:induction false} PruneNodeIdentity(p: int, a: Activity, n: Node, parent: Option<BehaviourId>, m: Matcher)
    requires Clean(p, a, n, parent, m)
    ensures PruneNode(p, a, n, parent, m) == Some(n)
    decreases n, 1
  {
    if n.Parent? {
      PruneListIdentity(p, a, n.children, n.id, m);
    }
  }

  lemma {:induction false} PruneListIdentity(p: int, a: Activity, cs: seq<Node>, parent: BehaviourId, m: Matcher)
    requires CleanList(p, a, cs, parent, m)
    ensures PruneList(p, a, cs, parent, m) == cs
    decreases cs, 0
  {
    if |cs| > 0 {
      PruneListIdentity(p, a, cs[1..], parent, m);
      PruneNodeIdentity(p, a, cs[0], Some(parent), m);
      assert cs == [cs[0]] + cs[1..];
    }
  }

  /** Running removeBehaviour twice with the same predicate removes nothing more. */
  lemma PruneIdempotent(p: int, a: Activity, n: Node, parent: Option<BehaviourId>, m: Matcher)
    ensures PruneNode(p, a, n, parent, m).Some? ==>
      PruneNode(p, a, PruneNode(p, a, n, parent, m).value, parent, m) == PruneNode(p, a, n, parent, m)
  {
    PruneNodeClean(p, a, n, parent, m);
    if PruneNode(p, a, n, parent, m).Some? {
      PruneNodeIdentity(p, a, PruneNode(p, a, n, parent, m).value, parent, m);
    }
  }

  /** The top-level behaviours that survive in one (priority, activity) list, each pruned. */
  function PruneTop(p: int, a: Activity, bs: seq<Node>, m: Matcher): seq<Node> {
    if |bs| == 0 then []
    else
      var front := PruneTop(p, a, bs[..|bs| - 1], m);
      match PruneNode(p, a, bs[|bs| - 1], None, m)
      case None => front
      case Some(n) => front + [n]
  }

  function PruneGroup(g: PriorityGroup, m: Matcher): (r: PriorityGroup)
    ensures r.priority == g.priority && |r.lists| == |g.lists|
    ensures forall j :: 0 <= j < |g.lists| ==> r.lists[j].activity == g.lists[j].activity
  {
    PriorityGroup(g.priority, seq(|g.lists|, j requires 0 <= j < |g.lists| =>
      ActivityList(g.lists[j].activity, PruneTop(g.priority, g.lists[j].activity, g.lists[j].behaviours, m))))
  }

  function PruneTable(t: Table, m: Matcher): (r: Table)
    ensures |r| == |t|
  {
    seq(|t|, i requires 0 <= i < |t| => PruneGroup(t[i], m))
  }

  /** Selects the top-level behaviours that removeBehaviour takes out of the table. */
  function RemovedBy(m: Matcher): Selector {
    (p: int, a: Activity, n: Node) => PruneNode(p, a, n, None, m).None?
  }

  /** removeBehaviour never breaks the table's shape: lists and groups stay where they were. */
  lemma PruneTableWellFormed(t: Table, m: Matcher)
    requires WellFormed(t)
    ensures WellFormed(PruneTable(t, m))
  {
    var r := PruneTable(t, m);
    forall i | 0 <= i < |r| ensures OneListPerActivity(r[i].lists) {
      assert r[i] == PruneGroup(t[i], m);
      assert OneListPerActivity(t[i].lists);
    }
  }

  /** Every top-level behaviour left after removeBehaviour is clean. */
  lemma {:induction false} PruneTopClean(p: int, a: Activity, bs: seq<Node>, m: Matcher)
    ensures forall k :: 0 <= k < |PruneTop(p, a, bs, m)| ==> Clean(p, a, PruneTop(p, a, bs, m)[k], None, m)
  {
    if |bs| > 0 {
      PruneTopClean(p, a, bs[..|bs| - 1], m);
      PruneNodeClean(p, a, bs[|bs| - 1], None, m);
    }
  }

  // ---- checkBehaviour of the middle edition. ----

  /**
   * The outcome of a walk that may be cut short by an exception: the value it
   * computed, or the exception together with the state it left behind.
   */
  datatype Walk<T> = Finished(value: T) | Interrupted(exception: JavaException, left: T)

  /**
   * The middle edition walks a gate's children through an iterator of a
   * stream, whose remove() throws UnsupportedOperationException: removing any
   * child of a gate (a matching one, or a composite left empty) throws. The
   * removals done before the throw stay done, so an interrupted walk leaves
   * the behaviour in place with its children as far as the walk got.
   */
  function LegacyPruneNode(p: int, a: Activity, n: Node, parent: Option<BehaviourId>, m: Matcher): (r: Walk<Option<Node>>)
    ensures r.Interrupted? ==> r.left.Some?
    decreases n, 1
  {
    if m(p, a, n.id, parent) then Finished(None)
    else match n
      case Leaf(_) => Finished(Some(n))
      case Parent(kind, id, children) =>
        match LegacyPruneList(p, a, kind, children, id, m)
        case Interrupted(x, left) => Interrupted(x, Some(Parent(kind, id, left)))
        case Finished(kept) => if |kept| == 0 then Finished(None) else Finished(Some(Parent(kind, id, kept)))
  }

  /**
   * A child whose removal a gate's iterator refused, as it is left: a matching
   * child untouched, a composite emptied by its own walk.
   */
  function Refused(p: int, a: Activity, n: Node, parent: Option<BehaviourId>, m: Matcher): Node {
    if m(p, a, n.id, parent) || n.Leaf? then n else Parent(n.kind, n.id, [])
  }

  /** The children loop of the middle edition, for a composite of the given kind. */
  function LegacyPruneList(p: int, a: Activity, kind: Composite, cs: seq<Node>, parent: BehaviourId, m: Matcher): Walk<seq<Node>>
    decreases cs, 0
  {
    if |cs| == 0 then Finished([])
    else match LegacyPruneNode(p, a, cs[0], Some(parent), m)
      case Interrupted(x, c) => Interrupted(x, [c.value] + cs[1..])
      case Finished(None) =>
        if kind == Gate then Interrupted(UnsupportedOperation, [Refused(p, a, cs[0], Some(parent), m)] + cs[1..])
        else LegacyPruneList(p, a, kind, cs[1..], parent, m)
      case Finished(Some(c)) =>
        match LegacyPruneList(p, a, kind, cs[1..], parent, m)
        case Finished(rest) => Finished([c] + rest)
        case Interrupted(x, rest) => Interrupted(x, [c] + rest)
  }

  /** Somewhere below a behaviour that is not itself removed, pruning takes a child out of a gate. */
  predicate GateLosesChild(p: int, a: Activity, n: Node, parent: Option<BehaviourId>, m: Matcher)
    decreases n, 1
  {
    !m(p, a, n.id, parent) && n.Parent? && GateLosesChildIn(p, a, n.kind, n.children, n.id, m)
  }

  predicate GateLosesChildIn(p: int, a: Activity, kind: Composite, cs: seq<Node>, parent: BehaviourId, m: Matcher)
    decreases cs, 0
  {
    |cs| > 0 &&
    (GateLosesChild(p, a, cs[0], Some(parent), m) ||
     (kind == Gate && PruneNode(p, a, cs[0], Some(parent), m).None?) ||
     GateLosesChildIn(p, a, kind, cs[1..], parent, m))
  }

  /**
   * The middle edition throws exactly when pruning would take a child out of
   * a gate, always with UnsupportedOperationException, and otherwise prunes
   * as the current edition does.
   */
  lemma {:induction false} LegacyPruneNodeAgrees(p: int, a: Activity, n: Node, parent: Option<BehaviourId>, m: Matcher)
    ensures LegacyPruneNode(p, a, n, parent, m).Interrupted? <==> GateLosesChild(p, a, n, parent, m)
    ensures LegacyPruneNode(p, a, n, parent, m).Interrupted? ==> LegacyPruneNode(p, a, n, parent, m).exception == UnsupportedOperation
    ensures LegacyPruneNode(p, a, n, parent, m).Finished? ==> LegacyPruneNode(p, a, n, parent, m).value == PruneNode(p, a, n, parent, m)
    decreases n, 1
  {
    if !m(p, a, n.id, parent) && n.Parent? {
      LegacyPruneListAgrees(p, a, n.kind, n.children, n.id, m);
    }
  }

  lemma {:induction false} LegacyPruneListAgrees(p: int, a: Activity, kind: Composite, cs: seq<Node>, parent: BehaviourId, m: Matcher)
    ensures LegacyPruneList(p, a, kind, cs, parent, m).Interrupted? <==> GateLosesChildIn(p, a, kind, cs, parent, m)
    ensures LegacyPruneList(p, a, kind, cs, parent, m).Interrupted? ==> LegacyPruneList(p, a, kind, cs, parent, m).exception == UnsupportedOperation
    ensures LegacyPruneList(p, a, kind, cs, parent, m).Finished? ==> LegacyPruneList(p, a, kind, cs, parent, m).value == PruneList(p, a, cs, parent, m)
    decreases cs, 0
  {
    if |cs| > 0 {
      LegacyPruneNodeAgrees(p, a, cs[0], Some(parent), m);
      LegacyPruneListAgrees(p, a, kind, cs[1..], parent, m);
    }
  }

  /**
   * A gate of two leaves, asked to lose one: the middle edition throws and
   * leaves the gate as it was, where the current one prunes.
   */
  lemma LegacyGateRemovalThrows()
    ensures var m: Matcher := (p: int, a: Activity, b: BehaviourId, parent: Option<BehaviourId>) => b == 2;
      var gate := Parent(Gate, 1, [Leaf(2), Leaf(3)]);
      LegacyPruneNode(0, Idle, gate, None, m) == Interrupted(UnsupportedOperation, Some(gate)) &&
      PruneNode(0, Idle, gate, None, m) == Some(Parent(Gate, 1, [Leaf(3)]))
  {
    var m: Matcher := (p: int, a: Activity, b: BehaviourId, parent: Option<BehaviourId>) => b == 2;
    var cs := [Leaf(2), Leaf(3)];
    assert cs[1..] == [Leaf(3)] && cs[1..][1..] == [];
    assert PruneList(0, Idle, [Leaf(3)], 1, m) == [Leaf(3)];
    assert [Leaf(2)] + cs[1..] == cs;
  }

  // ---- removeBehaviour(entity, predicate) of the middle edition. ----

  /** Index of the first top-level behaviour whose walk throws, or |bs| when none does. */
  function ThrowIndex(p: int, a: Activity, bs: seq<Node>, m: Matcher): (k: nat)
    ensures k <= |bs|
    ensures k < |bs| ==> LegacyPruneNode(p, a, bs[k], None, m).Interrupted?
  {
    if |bs| == 0 then 0
    else if LegacyPruneNode(p, a, bs[0], None, m).Interrupted? then 0
    else 1 + ThrowIndex(p, a, bs[1..], m)
  }

  /** Index of the first activity list in which the walk throws, or |ls|. */
  function ThrowList(p: int, ls: seq<ActivityList>, m: Matcher): (j: nat)
    ensures j <= |ls|
    ensures j < |ls| ==> ThrowIndex(p, ls[j].activity, ls[j].behaviours, m) < |ls[j].behaviours|
  {
    if |ls| == 0 then 0
    else if ThrowIndex(p, ls[0].activity, ls[0].behaviours, m) < |ls[0].behaviours| then 0
    else 1 + ThrowList(p, ls[1..], m)
  }

  /** Index of the first priority group in which the walk throws, or |t|. */
  function ThrowGroup(t: Table, m: Matcher): (i: nat)
    ensures i <= |t|
    ensures i < |t| ==> ThrowList(t[i].priority, t[i].lists, m) < |t[i].lists|
  {
    if |t| == 0 then 0
    else if ThrowList(t[0].priority, t[0].lists, m) < |t[0].lists| then 0
    else 1 + ThrowGroup(t[1..], m)
  }

  /** Every top-level behaviour before the throwing one finishes its walk. */
  lemma {:induction false} ThrowIndexFirst(p: int, a: Activity, bs: seq<Node>, m: Matcher, x: nat)
    requires x < ThrowIndex(p, a, bs, m)
    ensures LegacyPruneNode(p, a, bs[x], None, m).Finished?
  {
    if x > 0 {
      ThrowIndexFirst(p, a, bs[1..], m, x - 1);
    }
  }

  /** Every list before the throwing one finishes its walk. */
  lemma {:induction false} ThrowListFirst(p: int, ls: seq<ActivityList>, m: Matcher, x: nat)
    requires x < ThrowList(p, ls, m)
    ensures ThrowIndex(p, ls[x].activity, ls[x].behaviours, m) == |ls[x].behaviours|
  {
    if x > 0 {
      ThrowListFirst(p, ls[1..], m, x - 1);
    }
  }

  /** Every group before the throwing one finishes its walk. */
  lemma {:induction false} ThrowGroupFirst(t: Table, m: Matcher, x: nat)
    requires x < ThrowGroup(t, m)
    ensures ThrowList(t[x].priority, t[x].lists, m) == |t[x].lists|
  {
    if x > 0 {
      ThrowGroupFirst(t[1..], m, x - 1);
    }
  }

  /**
   * The list as the throw leaves it: the behaviours before the throwing one
   * pruned, the throwing one as far as its walk got, the rest untouched.
   */
  function LegacyLeftList(p: int, a: Activity, bs: seq<Node>, m: Matcher): seq<Node>
    requires ThrowIndex(p, a, bs, m) < |bs|
  {
    var k := ThrowIndex(p, a, bs, m);
    PruneTop(p, a, bs[..k], m) + [LegacyPruneNode(p, a, bs[k], None, m).left.value] + bs[k + 1..]
  }

  /** The group as the throw leaves it: earlier lists pruned, later ones untouched. */
  function LegacyLeftGroup(g: PriorityGroup, m: Matcher): PriorityGroup
    requires ThrowList(g.priority, g.lists, m) < |g.lists|
  {
    var j := ThrowList(g.priority, g.lists, m);
    PriorityGroup(g.priority, seq(|g.lists|, x requires 0 <= x < |g.lists| =>
      if x < j then PruneGroup(g, m).lists[x]
      else if x == j then ActivityList(g.lists[x].activity, LegacyLeftList(g.priority, g.lists[x].activity, g.lists[x].behaviours, m))
      else g.lists[x]))
  }

  /** The table as the throw leaves it: earlier groups pruned, later ones untouched. */
  function LegacyLeftTable(t: Table, m: Matcher): Table
    requires ThrowGroup(t, m) < |t|
  {
    var i := ThrowGroup(t, m);
    seq(|t|, x requires 0 <= x < |t| =>
      if x < i then PruneGroup(t[x], m)
      else if x == i then LegacyLeftGroup(t[x], m)
      else t[x])
  }

  /** Pruned groups, then the group as the throw left it, then untouched groups, make up the table as left. */
  lemma {:induction false} LegacyLeftTableIs(t: Table, m: Matcher, front: Table, g: PriorityGroup)
    requires ThrowGroup(t, m) < |t| && |front| == ThrowGroup(t, m)
    requires forall x :: 0 <= x < |front| ==> front[x] == PruneGroup(t[x], m)
    requires g == LegacyLeftGroup(t[|front|], m)
    ensures front + [g] + t[|front| + 1..] == LegacyLeftTable(t, m)
  {
    var r := front + [g] + t[|front| + 1..];
    forall x | 0 <= x < |t| ensures r[x] == LegacyLeftTable(t, m)[x] {
      if x > |front| {
        assert r[x] == t[|front| + 1..][x - |front| - 1];
      }
    }
  }

  /** Pruned lists, then the list as the throw left it, then untouched lists, make up the group as left. */
  lemma {:induction false} LegacyLeftGroupIs(g: PriorityGroup, m: Matcher, front: seq<ActivityList>, left: seq<Node>)
    requires ThrowList(g.priority, g.lists, m) < |g.lists| && |front| == ThrowList(g.priority, g.lists, m)
    requires front == PruneGroup(g, m).lists[..|front|]
    requires left == LegacyLeftList(g.priority, g.lists[|front|].activity, g.lists[|front|].behaviours, m)
    ensures PriorityGroup(g.priority, front + [ActivityList(g.lists[|front|].activity, left)] + g.lists[|front| + 1..]) == LegacyLeftGroup(g, m)
  {
    var ls := front + [ActivityList(g.lists[|front|].activity, left)] + g.lists[|front| + 1..];
    forall x | 0 <= x < |g.lists| ensures ls[x] == LegacyLeftGroup(g, m).lists[x] {
      if x > |front| {
        assert ls[x] == g.lists[|front| + 1..][x - |front| - 1];
      }
    }
  }

  /** The top-level behaviours of one list that the walk removes, and so stops, before any throw. */
  function LegacyStoppedList(p: int, a: Activity, bs: seq<Node>, m: Matcher): seq<BehaviourId> {
    ListSelected(p, a, bs[..ThrowIndex(p, a, bs, m)], RemovedBy(m))
  }

  function LegacyStoppedGroup(g: PriorityGroup, m: Matcher): seq<BehaviourId> {
    var j := ThrowList(g.priority, g.lists, m);
    GroupSelected(g.priority, g.lists[..j], RemovedBy(m)) +
      (if j < |g.lists| then LegacyStoppedList(g.priority, g.lists[j].activity, g.lists[j].behaviours, m) else [])
  }

  /** The top-level behaviours removed, and so stopped, before any throw, in visiting order. */
  function LegacyStopped(t: Table, m: Matcher): seq<BehaviourId> {
    var i := ThrowGroup(t, m);
    Selected(t[..i], RemovedBy(m)) + (if i < |t| then LegacyStoppedGroup(t[i], m) else [])
  }

  /** One list of the middle edition's group loop: either it throws there, or the stopped prefix grows by that list. */
  lemma {:induction false} LegacyGroupStep(g: PriorityGroup, m: Matcher, j: nat)
    requires j < |g.lists| && j <= ThrowList(g.priority, g.lists, m)
    ensures var l := g.lists[j];
      var here := LegacyStoppedList(g.priority, l.activity, l.behaviours, m);
      if ThrowIndex(g.priority, l.activity, l.behaviours, m) < |l.behaviours| then
        ThrowList(g.priority, g.lists, m) == j &&
        LegacyStoppedGroup(g, m) == GroupSelected(g.priority, g.lists[..j], RemovedBy(m)) + here
      else
        here == ListSelected(g.priority, l.activity, l.behaviours, RemovedBy(m)) &&
        GroupSelected(g.priority, g.lists[..j + 1], RemovedBy(m)) == GroupSelected(g.priority, g.lists[..j], RemovedBy(m)) + here
  {
    var l := g.lists[j];
    if j < ThrowList(g.priority, g.lists, m) {
      ThrowListFirst(g.priority, g.lists, m, j);
    }
    assert l.behaviours[..|l.behaviours|] == l.behaviours;
    assert g.lists[..j + 1][..j] == g.lists[..j];
  }

  /** A group whose lists all finish: the walk stops exactly what the current edition's does. */
  lemma {:induction false} LegacyGroupDone(g: PriorityGroup, m: Matcher)
    requires ThrowList(g.priority, g.lists, m) == |g.lists|
    ensures LegacyStoppedGroup(g, m) == GroupSelected(g.priority, g.lists, RemovedBy(m))
  {
    assert g.lists[..|g.lists|] == g.lists;
  }

  /** One group of the middle edition's table loop: either it throws there, or the stopped prefix grows by that group. */
  lemma {:induction false} LegacyTableStep(t: Table, m: Matcher, i: nat)
    requires i < |t| && i <= ThrowGroup(t, m)
    ensures var here := LegacyStoppedGroup(t[i], m);
      if ThrowList(t[i].priority, t[i].lists, m) < |t[i].lists| then
        ThrowGroup(t, m) == i &&
        LegacyStopped(t, m) == Selected(t[..i], RemovedBy(m)) + here
      else
        here == GroupSelected(t[i].priority, t[i].lists, RemovedBy(m)) &&
        Selected(t[..i + 1], RemovedBy(m)) == Selected(t[..i], RemovedBy(m)) + here
  {
    if i < ThrowGroup(t, m) {
      ThrowGroupFirst(t, m, i);
    }
    assert t[i].lists[..|t[i].lists|] == t[i].lists;
    assert t[..i + 1][..i] == t[..i];
  }

  /** A table whose groups all finish: the walk stops exactly what the current edition's does. */
  lemma {:induction false} LegacyTableDone(t: Table, m: Matcher)
    requires ThrowGroup(t, m) == |t|
    ensures LegacyStopped(t, m) == Selected(t, RemovedBy(m))
  {
    assert t[..|t|] == t;
  }

  /** A throw leaves the table's shape alone: every group and list stays where it was. */
  lemma {:induction false} LegacyLeftTableWellFormed(t: Table, m: Matcher)
    requires WellFormed(t) && ThrowGroup(t, m) < |t|
    ensures WellFormed(LegacyLeftTable(t, m))
  {
    var r := LegacyLeftTable(t, m);
    var n := ThrowGroup(t, m);
    var g := LegacyLeftGroup(t[n], m);
    assert |g.lists| == |t[n].lists| && forall j :: 0 <= j < |g.lists| ==> g.lists[j].activity == t[n].lists[j].activity;
    forall i | 0 <= i < |r| ensures OneListPerActivity(r[i].lists) {
      assert OneListPerActivity(t[i].lists);
    }
  }

  /** Some top-level behaviour of the table has a gate below it that would lose a child. */
  ghost predicate SomeGateLosesChild(t: Table, m: Matcher) {
    exists i, j, k :: 0 <= i < |t| && 0 <= j < |t[i].lists| && 0 <= k < |t[i].lists[j].behaviours| &&
      GateLosesChild(t[i].priority, t[i].lists[j].activity, t[i].lists[j].behaviours[k], None, m)
  }

  /** The middle edition's removeBehaviour throws exactly when some gate would lose a child. */
  lemma {:induction false} LegacyRemovalThrows(t: Table, m: Matcher)
    ensures ThrowGroup(t, m) < |t| <==> SomeGateLosesChild(t, m)
  {
    var i := ThrowGroup(t, m);
    if i < |t| {
      var j := ThrowList(t[i].priority, t[i].lists, m);
      var k := ThrowIndex(t[i].priority, t[i].lists[j].activity, t[i].lists[j].behaviours, m);
      LegacyPruneNodeAgrees(t[i].priority, t[i].lists[j].activity, t[i].lists[j].behaviours[k], None, m);
    } else if SomeGateLosesChild(t, m) {
      var i', j, k :| 0 <= i' < |t| && 0 <= j < |t[i'].lists| && 0 <= k < |t[i'].lists[j].behaviours| &&
        GateLosesChild(t[i'].priority, t[i'].lists[j].activity, t[i'].lists[j].behaviours[k], None, m);
      ThrowGroupFirst(t, m, i');
      ThrowListFirst(t[i'].priority, t[i'].lists, m, j);
      ThrowIndexFirst(t[i'].priority, t[i'].lists[j].activity, t[i'].lists[j].behaviours, m, k);
      LegacyPruneNodeAgrees(t[i'].priority, t[i'].lists[j].activity, t[i'].lists[j].behaviours[k], None, m);
    }
  }

  // ---- removeBehaviour(priority, activity, behaviour) of the oldest edition. ----

  /** Index of the first behaviour with identity `b`, or |bs| when there is none. */
  function NodeIndex(bs: seq<Node>, b: BehaviourId): (k: nat)
    ensures k <= |bs|
    ensures k < |bs| ==> bs[k].id == b
    ensures forall j :: 0 <= j < k ==> bs[j].id != b
  {
    if |bs| == 0 then 0
    else if bs[0].id == b then 0
    else 1 + NodeIndex(bs[1..], b)
  }

  /**
   * The table after removeBehaviour(p, a, b): only the first group with priority p,
   * only its first list for a, and in it only the first behaviour that is `b`.
   */
  function WithoutBehaviour(t: Table, p: int, a: Activity, b: BehaviourId): Table {
    var gi := PriorityIndex(t, p);
    if gi == |t| then t
    else
      var lists := t[gi].lists;
      var li := ActivityIndex(lists, a);
      if li == |lists| then t
      else
        var bs := lists[li].behaviours;
        var k := NodeIndex(bs, b);
        if k == |bs| then t
        else t[gi := PriorityGroup(p, lists[li := ActivityList(a, bs[..k] + bs[k + 1..])])]
  }

  lemma WithoutBehaviourWellFormed(t: Table, p: int, a: Activity, b: BehaviourId)
    requires WellFormed(t)
    ensures WellFormed(WithoutBehaviour(t, p, a, b))
  {
    var u := WithoutBehaviour(t, p, a, b);
    var gi := PriorityIndex(t, p);
    if u != t {
      var lists := t[gi].lists;
      assert OneListPerActivity(lists);
      var ul := u[gi].lists;
      forall x, y | 0 <= x < y < |ul| ensures ul[x].activity != ul[y].activity {
        assert ul[x].activity == lists[x].activity && ul[y].activity == lists[y].activity;
      }
      forall i | 0 <= i < |u| ensures OneListPerActivity(u[i].lists) {
        if i != gi { assert u[i] == t[i]; }
      }
    }
  }

  /** The (p, a) list loses exactly its first `b`, and nothing when it holds none. */
  lemma WithoutBehaviourRemovesFirst(t: Table, p: int, a: Activity, b: BehaviourId)
    ensures var bs := BehavioursAt(t, p, a);
      var k := NodeIndex(bs, b);
      BehavioursAt(WithoutBehaviour(t, p, a, b), p, a) == if k == |bs| then bs else bs[..k] + bs[k + 1..]
  {
    var u := WithoutBehaviour(t, p, a, b);
    var gi := PriorityIndex(t, p);
    if u != t {
      var lists := t[gi].lists;
      var li := ActivityIndex(lists, a);
      PriorityIndexUpdate(t, gi, u[gi], p);
      ActivityIndexUpdate(lists, li, u[gi].lists[li], a);
    }
  }

  /** At most one behaviour leaves the table: the (p, a) list loses one copy of `b` exactly when it held `b`. */
  lemma WithoutBehaviourRemovesAtMostOne(t: Table, p: int, a: Activity, b: BehaviourId)
    ensures var bs := BehavioursAt(t, p, a);
      var rs := BehavioursAt(WithoutBehaviour(t, p, a, b), p, a);
      var k := NodeIndex(bs, b);
      if k < |bs| then multiset(rs) + multiset{bs[k]} == multiset(bs) else rs == bs
  {
    WithoutBehaviourRemovesFirst(t, p, a, b);
    var bs := BehavioursAt(t, p, a);
    var k := NodeIndex(bs, b);
    if k < |bs| {
      SliceOut(bs, k);
    }
  }

  /** Every other (priority, activity) list is left as it was. */
  lemma WithoutBehaviourKeepsOthers(t: Table, p: int, a: Activity, b: BehaviourId, p': int, a': Activity)
    requires p' != p || a' != a
    ensures BehavioursAt(WithoutBehaviour(t, p, a, b), p', a') == BehavioursAt(t, p', a')
  {
    var u := WithoutBehaviour(t, p, a, b);
    var gi := PriorityIndex(t, p);
    if u != t {
      var lists := t[gi].lists;
      var li := ActivityIndex(lists, a);
      var gj := PriorityIndex(t, p');
      PriorityIndexUpdate(t, gi, u[gi], p');
      if p' == p {
        ActivityIndexUpdate(lists, li, u[gi].lists[li], a');
        var lj := ActivityIndex(lists, a');
        if lj < |lists| { assert lj != li; assert u[gi].lists[lj] == lists[lj]; }
      } else if gj < |t| {
        assert gj != gi; assert u[gj] == t[gj];
      }
    }
  }
}
