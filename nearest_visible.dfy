// NearestVisibleLivingEntities: a distance-ordered list of nearby entities
// queried with a condition together with a line-of-sight test. Entities
// are known by identity; the condition and the line-of-sight test are
// oracles.
module NearestVisible {
  import opened Wrappers
  import opened Domain
  import opened Seqs

  /** An entity the query accepts: it satisfies the condition and is in line of sight. */
  predicate Matches(e: EntityId, cond: EntityId -> bool, los: EntityId -> bool) {
    cond(e) && los(e)
  }

  /** The index of the first accepted entity, in list order. */
  function FirstVisibleIndex(es: seq<EntityId>, cond: EntityId -> bool, los: EntityId -> bool): (r: Option<nat>)
    ensures r.Some? ==> r.value < |es| && Matches(es[r.value], cond, los)
    ensures r.Some? ==> forall j :: 0 <= j < r.value ==> !Matches(es[j], cond, los)
    ensures r.None? ==> forall j :: 0 <= j < |es| ==> !Matches(es[j], cond, los)
    decreases |es|
  {
    if |es| == 0 then None
    else
      var front := FirstVisibleIndex(es[..|es| - 1], cond, los);
      assert forall j :: 0 <= j < |es| - 1 ==> es[..|es| - 1][j] == es[j];
      if front.Some? then front
      else if Matches(es[|es| - 1], cond, los) then Some(|es| - 1)
      else None
  }

  /** The first-match index is pinned down by being accepted with nothing accepted before it. */
  lemma FirstVisibleIndexIs(es: seq<EntityId>, cond: EntityId -> bool, los: EntityId -> bool, i: nat)
    requires i < |es| && Matches(es[i], cond, los)
    requires forall j :: 0 <= j < i ==> !Matches(es[j], cond, los)
    ensures FirstVisibleIndex(es, cond, los) == Some(i)
  {
  }

  /** findClosest / findFirstMatchingEntry: the first accepted entity, or empty. */
  function FirstVisible(es: seq<EntityId>, cond: EntityId -> bool, los: EntityId -> bool): (r: Option<EntityId>)
    ensures r.Some? ==> r.value in es && Matches(r.value, cond, los)
    ensures r.None? <==> forall j :: 0 <= j < |es| ==> !Matches(es[j], cond, los)
  {
    var k := FirstVisibleIndex(es, cond, los);
    if k.Some? then Some(es[k.value]) else None
  }

  /** findAll / find: the accepted entities, in list order. */
  function AllVisible(es: seq<EntityId>, cond: EntityId -> bool, los: EntityId -> bool): (r: seq<EntityId>)
    ensures |r| <= |es|
    ensures forall x :: x in r <==> x in es && Matches(x, cond, los)
    decreases |es|
  {
    if |es| == 0 then []
    else
      var front := es[..|es| - 1];
      assert es == front + [es[|es| - 1]];
      AllVisible(front, cond, los) + (if Matches(es[|es| - 1], cond, los) then [es[|es| - 1]] else [])
  }

  /** The first match is the head of the full match list: findClosest agrees with findAll. */
  lemma {:induction false} FirstVisibleHeadsAll(es: seq<EntityId>, cond: EntityId -> bool, los: EntityId -> bool)
    ensures FirstVisible(es, cond, los) == if |AllVisible(es, cond, los)| == 0 then None else Some(AllVisible(es, cond, los)[0])
    decreases |es|
  {
    if |es| > 0 {
      var front := es[..|es| - 1];
      FirstVisibleHeadsAll(front, cond, los);
      assert forall j :: 0 <= j < |front| ==> front[j] == es[j];
    }
  }

  /** The full match list keeps the list's order: it is a sublist of it. */
  lemma {:induction false} AllVisibleIsSublist(es: seq<EntityId>, cond: EntityId -> bool, los: EntityId -> bool)
    ensures IsSublist(AllVisible(es, cond, los), es)
    decreases |es|
  {
    if |es| > 0 {
      var front := es[..|es| - 1];
      var last := es[|es| - 1];
      AllVisibleIsSublist(front, cond, los);
      SublistSnoc(AllVisible(front, cond, los), front, last, Matches(last, cond, los));
      assert es == front + [last];
    }
  }

  /** Appending one element to the list, and optionally to the sublist, keeps the sublist relation. */
  lemma {:induction false} SublistSnoc<T>(a: seq<T>, b: seq<T>, x: T, keep: bool)
    requires IsSublist(a, b)
    ensures IsSublist(a + (if keep then [x] else []), b + [x])
    decreases |b|
  {
    if |a| == 0 {
      if keep {
        SingletonSublist(x, b);
        assert a + [x] == [x];
      }
    } else if a[0] == b[0] {
      SublistSnoc(a[1..], b[1..], x, keep);
      assert (a + (if keep then [x] else []))[1..] == a[1..] + (if keep then [x] else []);
      assert (b + [x])[1..] == b[1..] + [x];
    } else {
      SublistSnoc(a, b[1..], x, keep);
      assert (b + [x])[1..] == b[1..] + [x];
    }
  }

  lemma {:induction false} SingletonSublist<T>(x: T, b: seq<T>)
    ensures IsSublist([x], b + [x])
    decreases |b|
  {
    if |b| > 0 {
      assert (b + [x])[1..] == b[1..] + [x];
      SingletonSublist(x, b[1..]);
      if x != b[0] {
        assert IsSublist([x], (b + [x])[1..]);
      }
    }
  }

  /**
   * The backported NearestVisibleLivingEntities: the line-of-sight test asks
   * the targeting oracle about an entity once and remembers the answer.
   */
  class NearestVisibleLivingEntities {
    const nearbyEntities: seq<EntityId>
    /** Sensor.isEntityTargetable from the owner. */
    const targetable: EntityId -> bool
    /** The visibility map that computeIfAbsent fills. */
    var visibility: map<EntityId, bool>
    /** Every entity the oracle was asked about, in order. */
    var asked: seq<EntityId>

    /** The oracle is asked about an entity at most once, and the map holds its answers. */
    ghost predicate Valid()
      reads this
    {
      NoDuplicates(asked) &&
      (forall e :: e in visibility <==> e in asked) &&
      (forall e :: e in visibility ==> visibility[e] == targetable(e))
    }

    constructor (nearbyEntities: seq<EntityId>, targetable: EntityId -> bool)
      ensures Valid() && this.nearbyEntities == nearbyEntities && this.targetable == targetable
      ensures visibility == map[] && asked == []
    {
      this.nearbyEntities := nearbyEntities;
      this.targetable := targetable;
      visibility := map[];
      asked := [];
    }

    /** EMPTY: no entities, and nothing is ever in line of sight. */
    constructor Empty()
      ensures Valid() && nearbyEntities == [] && (forall e :: !targetable(e)) && asked == []
    {
      nearbyEntities := [];
      targetable := e => false;
      visibility := map[];
      asked := [];
    }

    /** lineOfSightTest: the oracle's answer, asked for only the first time. */
    method LineOfSight(e: EntityId) returns (b: bool)
      requires Valid()
      modifies this`visibility, this`asked
      ensures Valid() && b == targetable(e)
      ensures asked == old(asked) + (if e in old(visibility) then [] else [e])
    {
      if e in visibility {
        b := visibility[e];
      } else {
        b := targetable(e);
        visibility := visibility[e := b];
        asked := asked + [e];
      }
    }

    /** findClosest: the first entity, in list order, satisfying the predicate and in line of sight. */
    method FindClosest(p: EntityId -> bool) returns (r: Option<EntityId>)
      requires Valid()
      modifies this`visibility, this`asked
      ensures Valid() && r == FirstVisible(nearbyEntities, p, targetable)
    {
      var i := 0;
      while i < |nearbyEntities|
        invariant Valid() && 0 <= i <= |nearbyEntities|
        invariant forall j :: 0 <= j < i ==> !Matches(nearbyEntities[j], p, targetable)
      {
        var e := nearbyEntities[i];
        if p(e) {
          var seen := LineOfSight(e);
          if seen {
            FirstVisibleIndexIs(nearbyEntities, p, targetable, i);
            return Some(e);
          }
        }
        i := i + 1;
      }
      r := None;
    }

    /** findAll (and the stream find returns): the accepted entities, in list order. */
    method FindAll(p: EntityId -> bool) returns (r: seq<EntityId>)
      requires Valid()
      modifies this`visibility, this`asked
      ensures Valid() && r == AllVisible(nearbyEntities, p, targetable)
    {
      r := [];
      var i := 0;
      while i < |nearbyEntities|
        invariant Valid() && 0 <= i <= |nearbyEntities|
        invariant r == AllVisible(nearbyEntities[..i], p, targetable)
      {
        var e := nearbyEntities[i];
        var accepted := false;
        if p(e) {
          accepted := LineOfSight(e);
        }
        assert nearbyEntities[..i + 1][..i] == nearbyEntities[..i];
        if accepted {
          r := r + [e];
        }
        i := i + 1;
      }
      assert nearbyEntities[..i] == nearbyEntities;
    }

    /** contains(entity): the entity is listed and in line of sight (line of sight is checked only for a listed entity). */
    method Contains(e: EntityId) returns (b: bool)
      requires Valid()
      modifies this`visibility, this`asked
      ensures Valid() && (b <==> e in nearbyEntities && targetable(e))
      ensures e !in nearbyEntities ==> asked == old(asked)
    {
      b := e in nearbyEntities;
      if b {
        b := LineOfSight(e);
      }
    }

    /** contains(predicate): some entity is accepted, which is when findClosest finds one. */
    method ContainsMatching(p: EntityId -> bool) returns (b: bool)
      requires Valid()
      modifies this`visibility, this`asked
      ensures Valid() && (b <==> FirstVisible(nearbyEntities, p, targetable).Some?)
    {
      var i := 0;
      while i < |nearbyEntities|
        invariant Valid() && 0 <= i <= |nearbyEntities|
        invariant forall j :: 0 <= j < i ==> !Matches(nearbyEntities[j], p, targetable)
      {
        var e := nearbyEntities[i];
        if p(e) {
          var seen := LineOfSight(e);
          if seen {
            return true;
          }
        }
        i := i + 1;
      }
      b := false;
    }
  }

  /**
   * The oldest edition: the list itself, with a line-of-sight test that is
   * not remembered.
   */
  class VisibleEntityList {
    const entries: seq<EntityId>
    const lineOfSight: EntityId -> bool

    constructor (entries: seq<EntityId>, lineOfSight: EntityId -> bool)
      ensures this.entries == entries && this.lineOfSight == lineOfSight
    {
      this.entries := entries;
      this.lineOfSight := lineOfSight;
    }

    /** The empty instance: no entries, and a test that always fails. */
    constructor Empty()
      ensures entries == [] && forall e :: !lineOfSight(e)
    {
      entries := [];
      lineOfSight := e => false;
    }

    /** findFirstMatchingEntry: the first entry satisfying the condition and in line of sight. */
    method FindFirstMatchingEntry(cond: EntityId -> bool) returns (r: Option<EntityId>)
      ensures r == FirstVisible(entries, cond, lineOfSight)
    {
      var i := 0;
      while i < |entries|
        invariant 0 <= i <= |entries|
        invariant forall j :: 0 <= j < i ==> !Matches(entries[j], cond, lineOfSight)
      {
        if cond(entries[i]) && lineOfSight(entries[i]) {
          FirstVisibleIndexIs(entries, cond, lineOfSight, i);
          return Some(entries[i]);
        }
        i := i + 1;
      }
      r := None;
    }

    /** findAllMatchingEntries: exactly the accepted entries, each once (a HashSet: the order is not kept). */
    method FindAllMatchingEntries(cond: EntityId -> bool) returns (r: set<EntityId>)
      ensures forall e :: e in r <==> e in entries && Matches(e, cond, lineOfSight)
      ensures r == set e | e in AllVisible(entries, cond, lineOfSight)
    {
      r := {};
      var i := 0;
      while i < |entries|
        invariant 0 <= i <= |entries|
        invariant forall e :: e in r <==> e in entries[..i] && Matches(e, cond, lineOfSight)
      {
        if cond(entries[i]) && lineOfSight(entries[i]) {
          r := r + {entries[i]};
        }
        assert entries[..i + 1] == entries[..i] + [entries[i]];
        i := i + 1;
      }
      assert entries[..i] == entries;
    }

    /** contains: listed and in line of sight. */
    function Contains(e: EntityId): (b: bool)
      reads this
      ensures b <==> e in entries && lineOfSight(e)
      ensures b <==> e in AllVisible(entries, x => true, lineOfSight)
    {
      e in entries && lineOfSight(e)
    }

    /** containsEntryMatching: true exactly when findFirstMatchingEntry finds an entry. */
    method ContainsEntryMatching(cond: EntityId -> bool) returns (b: bool)
      ensures b <==> FirstVisible(entries, cond, lineOfSight).Some?
    {
      var i := 0;
      while i < |entries|
        invariant 0 <= i <= |entries|
        invariant forall j :: 0 <= j < i ==> !Matches(entries[j], cond, lineOfSight)
      {
        if cond(entries[i]) && lineOfSight(entries[i]) {
          return true;
        }
        i := i + 1;
      }
      b := false;
    }
  }
}
