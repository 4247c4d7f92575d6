// EntityRetrievalUtil: nearest-entity, filter, first-match and
// take-at-most-max searches over the entities of a level. The level's
// spatial lookup is an oracle: `found` is the list of entities it hands
// to the search callback (already of the minimum class and inside the
// bounds), in its order. Part entities are given as their cast result
// and whether their bounding box meets the bounds. Squared distances to
// the origin are an oracle `dist`.
module EntityRetrieval {
  import opened Wrappers
  import opened Domain
  import opened Seqs

  /** Java's Double.MAX_VALUE, (2^53 - 1) * 2^971: the starting distance of every nearest search. */
  const DOUBLE_MAX_VALUE: real := 179769313486231570814527423731704356798070567525844996598917476803157260780028538760589558632766878171540458953514382464234321326889464182768467546703537516986049910576551282076245490090389328944075868508455133942304583236903222948165808559332123348274797826204144723168738177180919299881250404026184124858368.0

  /** A part entity (a piece of a multi-part entity): the entity it casts to, if any, and whether it meets the bounds. */
  datatype Part = Part(cast: Option<EntityId>, intersects: bool)

  /** A part counts when it casts to an entity of the class, meets the bounds, and its entity passes the predicate. */
  predicate PartMatches(part: Part, pred: EntityId -> bool) {
    part.cast.Some? && part.intersects && pred(part.cast.value)
  }

  /** The entities of the matching parts, in part order. */
  function PartEntities(parts: seq<Part>, pred: EntityId -> bool): (r: seq<EntityId>)
    ensures |r| <= |parts|
    ensures forall k :: 0 <= k < |r| ==> pred(r[k]) && Part(Some(r[k]), true) in parts
    ensures (forall i :: 0 <= i < |parts| ==> !PartMatches(parts[i], pred)) ==> r == []
    decreases |parts|
  {
    if |parts| == 0 then []
    else
      var last := parts[|parts| - 1];
      assert forall q :: q in parts[..|parts| - 1] ==> q in parts;
      PartEntities(parts[..|parts| - 1], pred) + if PartMatches(last, pred) then [last.cast.value] else []
  }

  /** Both predicates hold (Predicate.and, short-circuiting). */
  function Both(p: EntityId -> bool, q: EntityId -> bool): (r: EntityId -> bool)
    ensures forall e :: r(e) <==> p(e) && q(e)
  {
    (e: EntityId) => p(e) && q(e)
  }

  /** The predicate an origin-taking overload passes on: not the origin, then the caller's predicate. */
  function Excluding(origin: EntityId, pred: EntityId -> bool): (r: EntityId -> bool)
    ensures !r(origin)
    ensures forall e :: e != origin ==> (r(e) <==> pred(e))
  {
    (e: EntityId) => e != origin && pred(e)
  }

  /** The first element of a list, if any. */
  function Head(s: seq<EntityId>): (r: Option<EntityId>)
    ensures r.None? <==> s == []
    ensures r.Some? ==> r.value == s[0]
  {
    if s == [] then None else Some(s[0])
  }

  /** The first `n` elements of a list, or all of it when it is shorter. */
  function Take(s: seq<EntityId>, n: int): (r: seq<EntityId>)
    ensures |r| == if n <= 0 then 0 else if n < |s| then n else |s|
    ensures r <= s
  {
    if n <= 0 then [] else if n < |s| then s[..n] else s
  }

  /** The index a left-to-right nearest scan keeps: a later entity replaces it only when strictly nearer. */
  function NearestIndex(es: seq<EntityId>, dist: EntityId -> real): (r: Option<nat>)
    ensures r.Some? ==> r.value < |es|
    decreases |es|
  {
    if |es| == 0 then None
    else
      var front := es[..|es| - 1];
      var best := NearestIndex(front, dist);
      var bound := if best.Some? then dist(front[best.value]) else DOUBLE_MAX_VALUE;
      if dist(es[|es| - 1]) < bound then Some(|es| - 1) else best
  }

  /**
   * The scan finds the nearest entity: strictly below Double.MAX_VALUE, no
   * farther than any other, and strictly nearer than every earlier one
   * (the earliest wins a tie). It finds none exactly when no distance is
   * below Double.MAX_VALUE.
   */
  lemma {:induction false} NearestIndexIsNearest(es: seq<EntityId>, dist: EntityId -> real)
    ensures var r := NearestIndex(es, dist);
      (r.Some? ==> dist(es[r.value]) < DOUBLE_MAX_VALUE) &&
      (r.Some? ==> forall j :: 0 <= j < |es| ==> dist(es[r.value]) <= dist(es[j])) &&
      (r.Some? ==> forall j :: 0 <= j < r.value ==> dist(es[r.value]) < dist(es[j])) &&
      (r.None? <==> forall j :: 0 <= j < |es| ==> dist(es[j]) >= DOUBLE_MAX_VALUE)
    decreases |es|
  {
    if |es| > 0 {
      var front := es[..|es| - 1];
      NearestIndexIsNearest(front, dist);
      assert forall k :: 0 <= k < |front| ==> front[k] == es[k];
    }
  }

  /** The entity at the nearest index. */
  function Nearest(es: seq<EntityId>, dist: EntityId -> real): (r: Option<EntityId>)
    ensures r.Some? ==> r.value in es
    ensures r.None? <==> forall j :: 0 <= j < |es| ==> dist(es[j]) >= DOUBLE_MAX_VALUE
  {
    NearestIndexIsNearest(es, dist);
    var k := NearestIndex(es, dist);
    if k.Some? then Some(es[k.value]) else None
  }

  /** The distance a nearest scan compares the next entity with: the kept entity's, or Double.MAX_VALUE. */
  function Bound(es: seq<EntityId>, dist: EntityId -> real): real {
    var k := NearestIndex(es, dist);
    if k.Some? then dist(es[k.value]) else DOUBLE_MAX_VALUE
  }

  /** One step of a nearest scan: the new entity is kept only when strictly nearer than the bound. */
  lemma NearestSnoc(es: seq<EntityId>, x: EntityId, dist: EntityId -> real)
    ensures Nearest(es + [x], dist) == if dist(x) < Bound(es, dist) then Some(x) else Nearest(es, dist)
    ensures Bound(es + [x], dist) == if dist(x) < Bound(es, dist) then dist(x) else Bound(es, dist)
  {
    assert (es + [x])[..|es|] == es;
    var k := NearestIndex(es, dist);
    if k.Some? {
      assert (es + [x])[k.value] == es[k.value];
    }
  }

  /** getNearest: the nearest entity of an existing list, null for an empty list. */
  method GetNearest(entities: seq<EntityId>, dist: EntityId -> real) returns (closest: Option<EntityId>)
    ensures closest == Nearest(entities, dist)
    ensures entities == [] ==> closest == None
  {
    if |entities| == 0 {
      return None;
    }
    var d := DOUBLE_MAX_VALUE;
    closest := None;
    var i := 0;
    while i < |entities|
      invariant 0 <= i <= |entities|
      invariant closest == Nearest(entities[..i], dist) && d == Bound(entities[..i], dist)
    {
      assert entities[..i + 1] == entities[..i] + [entities[i]];
      NearestSnoc(entities[..i], entities[i], dist);
      var entityDist := dist(entities[i]);
      if entityDist < d {
        d := entityDist;
        closest := Some(entities[i]);
      }
      i := i + 1;
    }
    assert entities[..i] == entities;
  }

  /**
   * getNearestEntity over bounds: the nearest entity the lookup hands over
   * that passes the predicate. Part entities are not searched.
   */
  method GetNearestEntity(found: seq<EntityId>, pred: EntityId -> bool, dist: EntityId -> real) returns (closest: Option<EntityId>)
    ensures closest == Nearest(Filter(found, pred), dist)
    ensures closest.Some? ==> closest.value in found && pred(closest.value)
  {
    var d := DOUBLE_MAX_VALUE;
    closest := None;
    var i := 0;
    while i < |found|
      invariant 0 <= i <= |found|
      invariant closest == Nearest(Filter(found[..i], pred), dist) && d == Bound(Filter(found[..i], pred), dist)
    {
      ghost var before := Filter(found[..i], pred);
      FilterPrefixSnoc(found, i, pred);
      if pred(found[i]) {
        assert Filter(found[..i + 1], pred) == before + [found[i]];
        NearestSnoc(before, found[i], dist);
        var entityDist := dist(found[i]);
        if entityDist < d {
          d := entityDist;
          closest := Some(found[i]);
        }
      } else {
        assert Filter(found[..i + 1], pred) == before;
      }
      i := i + 1;
    }
    assert found[..i] == found;
    if closest.Some? {
      FilterMembers(found, pred, closest.value);
    }
  }

  /** getNearestPlayer over bounds: the nearest of the level's players that is inside the bounds and passes the predicate. */
  method GetNearestPlayer(players: seq<EntityId>, inBounds: EntityId -> bool, pred: EntityId -> bool, dist: EntityId -> real)
    returns (closest: Option<EntityId>)
    ensures closest == Nearest(Filter(players, Both(inBounds, pred)), dist)
    ensures closest.Some? ==> closest.value in players && inBounds(closest.value) && pred(closest.value)
  {
    var d := DOUBLE_MAX_VALUE;
    closest := None;
    ghost var p := Both(inBounds, pred);
    var i := 0;
    while i < |players|
      invariant 0 <= i <= |players|
      invariant closest == Nearest(Filter(players[..i], p), dist) && d == Bound(Filter(players[..i], p), dist)
    {
      ghost var before := Filter(players[..i], p);
      FilterPrefixSnoc(players, i, p);
      assert p(players[i]) == (inBounds(players[i]) && pred(players[i]));
      if inBounds(players[i]) && pred(players[i]) {
        assert Filter(players[..i + 1], p) == before + [players[i]];
        NearestSnoc(before, players[i], dist);
        var playerDist := dist(players[i]);
        if playerDist < d {
          d := playerDist;
          closest := Some(players[i]);
        }
      } else {
        assert Filter(players[..i + 1], p) == before;
      }
      i := i + 1;
    }
    assert players[..i] == players;
    if closest.Some? {
      FilterMembers(players, p, closest.value);
    }
  }

  /** getPlayers over bounds: exactly the players inside the bounds that pass the predicate, in the level's order. */
  method GetPlayers(players: seq<EntityId>, inBounds: EntityId -> bool, pred: EntityId -> bool) returns (r: seq<EntityId>)
    ensures r == Filter(players, Both(inBounds, pred))
    ensures forall e :: e in r <==> e in players && inBounds(e) && pred(e)
  {
    r := [];
    var i := 0;
    while i < |players|
      invariant 0 <= i <= |players|
      invariant r == Filter(players[..i], Both(inBounds, pred))
    {
      FilterPrefixSnoc(players, i, Both(inBounds, pred));
      if inBounds(players[i]) && pred(players[i]) {
        r := r + [players[i]];
      }
      i := i + 1;
    }
    assert players[..i] == players;
    forall e ensures e in r <==> e in players && inBounds(e) && pred(e) {
      FilterMembers(players, Both(inBounds, pred), e);
    }
  }

  /** findPlayer over bounds: the first player inside the bounds that passes the predicate, which is the head of getPlayers. */
  method FindPlayer(players: seq<EntityId>, inBounds: EntityId -> bool, pred: EntityId -> bool) returns (r: Option<EntityId>)
    ensures r == Head(Filter(players, Both(inBounds, pred)))
    ensures r.None? <==> forall i :: 0 <= i < |players| ==> !(inBounds(players[i]) && pred(players[i]))
  {
    var i := 0;
    while i < |players|
      invariant 0 <= i <= |players|
      invariant Filter(players[..i], Both(inBounds, pred)) == []
    {
      FilterPrefixSnoc(players, i, Both(inBounds, pred));
      if inBounds(players[i]) && pred(players[i]) {
        FilterAppend(players[..i + 1], players[i + 1..], Both(inBounds, pred));
        assert players[..i + 1] + players[i + 1..] == players;
        FilterMembers(players[..i], Both(inBounds, pred), players[i]);
        return Some(players[i]);
      }
      i := i + 1;
    }
    assert players[..i] == players;
    forall j | 0 <= j < |players| ensures !(inBounds(players[j]) && pred(players[j])) {
      FilterMembers(players, Both(inBounds, pred), players[j]);
    }
    r := None;
  }

  /** The level's part entities that match, as getEntities collects them. */
  method CollectParts(parts: seq<Part>, pred: EntityId -> bool) returns (r: seq<EntityId>)
    ensures r == PartEntities(parts, pred)
  {
    r := [];
    var i := 0;
    while i < |parts|
      invariant 0 <= i <= |parts|
      invariant r == PartEntities(parts[..i], pred)
    {
      assert parts[..i + 1][..i] == parts[..i];
      var part := parts[i];
      if part.cast.Some? && part.intersects && pred(part.cast.value) {
        r := r + [part.cast.value];
      }
      i := i + 1;
    }
    assert parts[..i] == parts;
  }

  /** getEntities over bounds: the matching entities the lookup hands over, then the matching part entities. */
  method GetEntities(found: seq<EntityId>, parts: seq<Part>, pred: EntityId -> bool) returns (r: seq<EntityId>)
    ensures r == Filter(found, pred) + PartEntities(parts, pred)
    ensures forall k :: 0 <= k < |r| ==> pred(r[k])
  {
    r := [];
    var i := 0;
    while i < |found|
      invariant 0 <= i <= |found|
      invariant r == Filter(found[..i], pred)
    {
      FilterPrefixSnoc(found, i, pred);
      if pred(found[i]) {
        r := r + [found[i]];
      }
      i := i + 1;
    }
    assert found[..i] == found;
    var more := CollectParts(parts, pred);
    r := r + more;
  }

  /** The first matching entity the lookup hands over; the callback aborts the lookup there. */
  method FirstFound(found: seq<EntityId>, pred: EntityId -> bool) returns (r: Option<EntityId>)
    ensures r == Head(Filter(found, pred))
  {
    var i := 0;
    while i < |found|
      invariant 0 <= i <= |found|
      invariant Filter(found[..i], pred) == []
    {
      FilterPrefixSnoc(found, i, pred);
      if pred(found[i]) {
        FilterAppend(found[..i + 1], found[i + 1..], pred);
        assert found[..i + 1] + found[i + 1..] == found;
        return Some(found[i]);
      }
      i := i + 1;
    }
    assert found[..i] == found;
    r := None;
  }

  /** The first matching part entity; the loop breaks there. */
  method FirstPart(parts: seq<Part>, pred: EntityId -> bool) returns (r: Option<EntityId>)
    ensures r == Head(PartEntities(parts, pred))
  {
    var i := 0;
    while i < |parts|
      invariant 0 <= i <= |parts|
      invariant PartEntities(parts[..i], pred) == []
    {
      assert parts[..i + 1][..i] == parts[..i];
      var part := parts[i];
      if part.cast.Some? && part.intersects && pred(part.cast.value) {
        PartsPrefix(parts, pred, i + 1);
        return part.cast;
      }
      i := i + 1;
    }
    assert parts[..i] == parts;
    r := None;
  }

  /** The matching parts of a prefix come first among those of the whole list. */
  lemma {:induction false} PartsPrefix(parts: seq<Part>, pred: EntityId -> bool, n: nat)
    requires n <= |parts|
    ensures PartEntities(parts[..n], pred) <= PartEntities(parts, pred)
    decreases |parts| - n
  {
    if n < |parts| {
      PartsPrefix(parts, pred, n + 1);
      assert parts[..n + 1][..n] == parts[..n];
    } else {
      assert parts[..n] == parts;
    }
  }

  /**
   * findEntity over bounds: the first matching entity the lookup hands
   * over, else the first matching part entity, which is the head of
   * getEntities. Parts are searched only when the lookup found nothing.
   */
  method FindEntity(found: seq<EntityId>, parts: seq<Part>, pred: EntityId -> bool) returns (r: Option<EntityId>, searchedParts: bool)
    ensures r == Head(Filter(found, pred) + PartEntities(parts, pred))
    ensures searchedParts <==> Filter(found, pred) == []
  {
    r := FirstFound(found, pred);
    searchedParts := false;
    if r.None? {
      searchedParts := true;
      r := FirstPart(parts, pred);
    }
  }

  /**
   * The lookup's part of findEntities: each match is added, and the lookup
   * aborts once the list holds `max` or more, so at least one match is
   * taken even when max is 0.
   */
  method TakeFound(found: seq<EntityId>, pred: EntityId -> bool, max: int) returns (r: seq<EntityId>)
    ensures r == Take(Filter(found, pred), if max < 1 then 1 else max)
  {
    var cap := if max < 1 then 1 else max;
    r := [];
    var i := 0;
    while i < |found|
      invariant 0 <= i <= |found|
      invariant r == Filter(found[..i], pred) && |r| < cap
    {
      FilterPrefixSnoc(found, i, pred);
      if pred(found[i]) {
        r := r + [found[i]];
        if |r| >= max {
          FilterAppend(found[..i + 1], found[i + 1..], pred);
          assert found[..i + 1] + found[i + 1..] == found;
          return;
        }
      }
      i := i + 1;
    }
    assert found[..i] == found;
  }

  /** The part search of findEntities: matches are added until the list holds `max`. */
  method TakeParts(parts: seq<Part>, pred: EntityId -> bool, room: int) returns (r: seq<EntityId>)
    requires room >= 1
    ensures r == Take(PartEntities(parts, pred), room)
  {
    r := [];
    var i := 0;
    while i < |parts|
      invariant 0 <= i <= |parts|
      invariant r == PartEntities(parts[..i], pred) && |r| < room
    {
      assert parts[..i + 1][..i] == parts[..i];
      var part := parts[i];
      if part.cast.Some? && part.intersects && pred(part.cast.value) {
        r := r + [part.cast.value];
        if |r| >= room {
          PartsPrefix(parts, pred, i + 1);
          return;
        }
      }
      i := i + 1;
    }
    assert parts[..i] == parts;
  }

  /**
   * findEntities over bounds, as written. A negative max is refused by the
   * list's initial capacity. Otherwise up to max matches are gathered from
   * the lookup, but at least one when there is one, and parts are searched
   * only while fewer than max were found.
   */
  method FindEntities(found: seq<EntityId>, parts: seq<Part>, pred: EntityId -> bool, max: int)
    returns (r: Result<seq<EntityId>>, searchedParts: bool)
    ensures max < 0 ==> r == Throws(IllegalArgument) && !searchedParts
    ensures max == 0 ==> r == Ok(Take(Filter(found, pred), 1)) && !searchedParts
    ensures max >= 1 ==> r == Ok(Take(Filter(found, pred) + PartEntities(parts, pred), max))
    ensures searchedParts <==> max >= 1 && |Filter(found, pred)| < max
  {
    if max < 0 {
      return Throws(IllegalArgument), false;
    }
    var list := TakeFound(found, pred, max);
    searchedParts := false;
    if |list| < max {
      searchedParts := true;
      var more := TakeParts(parts, pred, max - |list|);
      TakeBeyondFront(Filter(found, pred), PartEntities(parts, pred), max);
      list := list + more;
    } else if max >= 1 {
      TakeWithinFront(Filter(found, pred), PartEntities(parts, pred), max);
    }
    r := Ok(list);
  }

  /**
   * findEntities with the size test moved before the add, so a max of 0
   * collects nothing and at most max entities are returned for every max.
   */
  method FindEntitiesCorrected(found: seq<EntityId>, parts: seq<Part>, pred: EntityId -> bool, max: int)
    returns (r: Result<seq<EntityId>>, searchedParts: bool)
    ensures max < 0 ==> r == Throws(IllegalArgument) && !searchedParts
    ensures max >= 0 ==> r == Ok(Take(Filter(found, pred) + PartEntities(parts, pred), max))
    ensures max >= 0 ==> |r.value| <= max
    ensures searchedParts <==> max >= 1 && |Filter(found, pred)| < max
  {
    if max < 0 {
      return Throws(IllegalArgument), false;
    }
    if max == 0 {
      return Ok([]), false;
    }
    r, searchedParts := FindEntities(found, parts, pred, max);
  }

  /** With a max of 0 and one matching entity, findEntities as written returns that entity. */
  method FindNoneAsWritten(e: EntityId) returns (r: Result<seq<EntityId>>)
    ensures r == Ok([e])
  {
    var any: EntityId -> bool := _ => true;
    assert Filter([e], any) == [e] by {
      assert [e][1..] == [];
    }
    var searched;
    r, searched := FindEntities([e], [], any, 0);
  }

  /** The corrected search returns nothing for a max of 0. */
  method FindNoneCorrected(e: EntityId) returns (r: Result<seq<EntityId>>)
    ensures r == Ok([])
  {
    var searched;
    r, searched := FindEntitiesCorrected([e], [], _ => true, 0);
  }

  /** Taking max elements of a concatenation whose first part is shorter than max. */
  lemma TakeBeyondFront(a: seq<EntityId>, b: seq<EntityId>, max: int)
    requires |a| < max
    ensures Take(a + b, max) == a + Take(b, max - |a|)
  {
    if max < |a + b| {
      assert (a + b)[..max] == a + b[..max - |a|];
    }
  }

  /** Taking max elements of a concatenation whose first part has at least max. */
  lemma TakeWithinFront(a: seq<EntityId>, b: seq<EntityId>, max: int)
    requires 1 <= max <= |a|
    ensures Take(a + b, max) == Take(a, max)
  {
    assert (a + b)[..max] == a[..max];
  }

  // Origin-taking overloads: the origin is excluded before the caller's predicate runs.

  /** getNearestEntity(origin, radii): the nearest entity around the origin that is not the origin. */
  method GetNearestEntityAround(origin: EntityId, found: seq<EntityId>, dist: EntityId -> real) returns (closest: Option<EntityId>)
    ensures closest == Nearest(Filter(found, Excluding(origin, _ => true)), dist)
    ensures closest != Some(origin)
  {
    closest := GetNearestEntity(found, Excluding(origin, _ => true), dist);
  }

  /** getNearestEntity(origin, radii, predicate): the origin is never returned. */
  method GetNearestMatchingAround(origin: EntityId, found: seq<EntityId>, pred: EntityId -> bool, dist: EntityId -> real)
    returns (closest: Option<EntityId>)
    ensures closest == Nearest(Filter(found, Excluding(origin, pred)), dist)
    ensures closest != Some(origin)
  {
    closest := GetNearestEntity(found, Excluding(origin, pred), dist);
  }

  /** getPlayers(origin, radii, predicate): the players around the origin other than the origin itself. */
  method GetPlayersAround(origin: EntityId, players: seq<EntityId>, inBounds: EntityId -> bool, pred: EntityId -> bool)
    returns (r: seq<EntityId>)
    ensures forall e :: e in r <==> e in players && e != origin && inBounds(e) && pred(e)
    ensures origin !in r
  {
    r := GetPlayers(players, inBounds, Excluding(origin, pred));
  }
}
