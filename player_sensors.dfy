// Two vanilla-replacement sensors: the nearby-players sensor, which sorts
// the players around its owner and derives the visible and attackable
// ones, and the warden's sensor, which prefers players as its nearest
// attackable entity. The level's player list, the bounds test, distances,
// spectator mode and the targetable/attackable checks are oracles.
module PlayerSensors {
  import opened Wrappers
  import opened Domain
  import opened Seqs
  import opened Brains
  import opened BrainUtilities
  import opened Sensors
  import opened EntityRetrieval

  /** Ascending distance to the owner. */
  ghost predicate SortedByDistance(s: seq<EntityId>, dist: EntityId -> real) {
    forall i, j :: 0 <= i < j < |s| ==> dist(s[i]) <= dist(s[j])
  }

  /** Insert x before the first element strictly farther than it, so equal distances keep their order. */
  function InsertByDistance(x: EntityId, s: seq<EntityId>, dist: EntityId -> real): (r: seq<EntityId>)
    ensures multiset(r) == multiset(s) + multiset{x}
    ensures |r| == |s| + 1
    decreases |s|
  {
    if |s| == 0 then [x]
    else if dist(x) < dist(s[0]) then [x] + s
    else
      assert s == [s[0]] + s[1..];
      [s[0]] + InsertByDistance(x, s[1..], dist)
  }

  /** List.sort by distance: an insertion sort, which is stable like the library's. */
  function SortByDistance(s: seq<EntityId>, dist: EntityId -> real): (r: seq<EntityId>)
    ensures multiset(r) == multiset(s)
    ensures |r| == |s|
    decreases |s|
  {
    if |s| == 0 then []
    else
      assert s == [s[0]] + s[1..];
      InsertByDistance(s[0], SortByDistance(s[1..], dist), dist)
  }

  /** Every element is at least `b` away. */
  ghost predicate AtLeast(s: seq<EntityId>, b: real, dist: EntityId -> real) {
    forall k :: 0 <= k < |s| ==> b <= dist(s[k])
  }

  lemma {:induction false} InsertAtLeast(x: EntityId, s: seq<EntityId>, dist: EntityId -> real, b: real)
    requires b <= dist(x) && AtLeast(s, b, dist)
    ensures AtLeast(InsertByDistance(x, s, dist), b, dist)
    decreases |s|
  {
    if |s| > 0 && dist(x) >= dist(s[0]) {
      InsertAtLeast(x, s[1..], dist, b);
    }
  }

  lemma {:induction false} InsertKeepsSorted(x: EntityId, s: seq<EntityId>, dist: EntityId -> real)
    requires SortedByDistance(s, dist)
    ensures SortedByDistance(InsertByDistance(x, s, dist), dist)
    decreases |s|
  {
    if |s| > 0 {
      if dist(x) >= dist(s[0]) {
        InsertKeepsSorted(x, s[1..], dist);
        InsertAtLeast(x, s[1..], dist, dist(s[0]));
      } else {
        assert AtLeast(s, dist(x), dist);
      }
    }
  }

  /** NEAREST_PLAYERS is sorted by ascending distance. */
  lemma {:induction false} SortIsSorted(s: seq<EntityId>, dist: EntityId -> real)
    ensures SortedByDistance(SortByDistance(s, dist), dist)
    decreases |s|
  {
    if |s| > 0 {
      SortIsSorted(s[1..], dist);
      InsertKeepsSorted(s[0], SortByDistance(s[1..], dist), dist);
    }
  }

  /** The NEAREST_VISIBLE_* value for a list: its first element, or nothing for an empty list. */
  function HeadValue(s: seq<EntityId>): (r: Option<Value>)
    ensures r.None? <==> s == []
    ensures r.Some? ==> r.value == EntityValue(s[0])
  {
    if s == [] then None else Some(EntityValue(s[0]))
  }

  /** A scan radius: horizontal and vertical. */
  datatype SquareRadius = SquareRadius(xz: real, y: real)

  /** The three lists a nearby-players scan derives. */
  datatype PlayerScan = PlayerScan(players: seq<EntityId>, targetable: seq<EntityId>, attackable: seq<EntityId>)

  /**
   * The scan: the players around the owner passing the sensor's predicate,
   * sorted by distance; the targetable ones among them; the attackable
   * ones among those.
   */
  function ScanPlayers(around: seq<EntityId>, dist: EntityId -> real,
                       targetable: EntityId -> bool, attackable: EntityId -> bool): (r: PlayerScan)
    ensures multiset(r.players) == multiset(around)
    ensures SortedByDistance(r.players, dist)
    ensures IsSublist(r.targetable, r.players) && IsSublist(r.attackable, r.targetable)
    ensures forall e :: e in r.targetable <==> e in around && targetable(e)
    ensures forall e :: e in r.attackable <==> e in around && targetable(e) && attackable(e)
  {
    var sorted := SortByDistance(around, dist);
    SortIsSorted(around, dist);
    var t := Filter(sorted, targetable);
    var a := Filter(t, attackable);
    FilterIsSublist(sorted, targetable);
    FilterIsSublist(t, attackable);
    assert forall e :: e in sorted <==> e in around by {
      forall e ensures e in sorted <==> e in around {
        assert e in sorted <==> e in multiset(sorted);
        assert e in around <==> e in multiset(around);
      }
    }
    assert forall e :: e in t <==> e in sorted && targetable(e) by {
      forall e ensures e in t <==> e in sorted && targetable(e) {
        FilterMembers(sorted, targetable, e);
      }
    }
    assert forall e :: e in a <==> e in t && attackable(e) by {
      forall e ensures e in a <==> e in t && attackable(e) {
        FilterMembers(t, attackable, e);
      }
    }
    PlayerScan(sorted, t, a)
  }

  /** The default player predicate: no spectators. */
  function NotSpectator(spectator: EntityId -> bool): (r: EntityId -> bool)
    ensures forall e :: r(e) <==> !spectator(e)
  {
    (e: EntityId) => !spectator(e)
  }

  class NearbyPlayersSensor {
    /** The radius set on the sensor, if any. */
    var radius: Option<SquareRadius>
    /** The spectator-mode oracle the default predicate consults. */
    const spectator: EntityId -> bool
    var test: EntityId -> bool

    /** The default sensor: no radius of its own, and spectators excluded. */
    constructor (spectator: EntityId -> bool)
      ensures radius == None && this.spectator == spectator
      ensures forall e :: test(e) <==> !spectator(e)
    {
      radius := None;
      this.spectator := spectator;
      test := NotSpectator(spectator);
    }

    /** setRadius(xz, y). */
    method SetRadius(xz: real, y: real) returns (self: NearbyPlayersSensor)
      modifies this`radius
      ensures self == this && radius == Some(SquareRadius(xz, y))
    {
      radius := Some(SquareRadius(xz, y));
      self := this;
    }

    /** setRadius(radius): the same radius on both axes. */
    method SetRadiusBoth(r: real) returns (self: NearbyPlayersSensor)
      modifies this`radius
      ensures self == this && radius == Some(SquareRadius(r, r))
    {
      self := SetRadius(r, r);
    }

    /** The radius a scan uses: the one set, else the owner's follow range on both axes. */
    function EffectiveRadius(followRange: real): (r: SquareRadius)
      reads this
      ensures radius.Some? ==> r == radius.value
      ensures radius.None? ==> r.xz == followRange && r.y == followRange
    {
      if radius.Some? then radius.value else SquareRadius(followRange, followRange)
    }

    /**
     * doTick: the players within the radius other than the owner that pass
     * the predicate become NEAREST_PLAYERS, nearest first; the head of the
     * targetable ones becomes NEAREST_VISIBLE_PLAYER and the head of the
     * attackable ones NEAREST_VISIBLE_ATTACKABLE_PLAYER, each cleared when
     * its list is empty. No other memory's value changes.
     */
    method DoTick(brain: SmartBrain, owner: EntityId, followRange: real, levelPlayers: seq<EntityId>,
                  inRadius: SquareRadius -> EntityId -> bool, dist: EntityId -> real,
                  targetable: EntityId -> bool, attackable: EntityId -> bool)
      returns (ghost scan: PlayerScan)
      requires brain.Valid()
      modifies brain`memories, brain`expirable
      ensures brain.Valid() && (old(brain.ExpiryTracked()) ==> brain.ExpiryTracked())
      ensures forall e :: e in scan.players <==>
        e in levelPlayers && e != owner && inRadius(EffectiveRadius(followRange))(e) && test(e)
      ensures SortedByDistance(scan.players, dist)
      ensures IsSublist(scan.targetable, scan.players) && IsSublist(scan.attackable, scan.targetable)
      ensures forall e :: e in scan.targetable <==> e in scan.players && targetable(e)
      ensures forall e :: e in scan.attackable <==> e in scan.targetable && attackable(e)
      ensures ValueOf(brain.memories, NearestPlayers) == if scan.players == [] then None else Some(EntityList(scan.players))
      ensures ValueOf(brain.memories, NearestVisiblePlayer) == HeadValue(scan.targetable)
      ensures ValueOf(brain.memories, NearestVisibleAttackablePlayer) == HeadValue(scan.attackable)
      ensures SameValuesOutside(brain.memories, old(brain.memories), {NearestPlayers, NearestVisiblePlayer, NearestVisibleAttackablePlayer})
    {
      var r := EffectiveRadius(followRange);
      var around := GetPlayersAround(owner, levelPlayers, inRadius(r), test);
      scan := ScanPlayers(around, dist, targetable, attackable);
      assert forall e :: e in scan.players <==> e in around by {
        forall e ensures e in scan.players <==> e in around {
          assert e in scan.players <==> e in multiset(scan.players);
          assert e in around <==> e in multiset(around);
        }
      }
      var sorted := SortByDistance(around, dist);
      var visible := Filter(sorted, targetable);
      var canAttack := Filter(visible, attackable);
      WritePlayers(brain, sorted, visible, canAttack);
    }
  }

  /** The three memory writes of the nearby-players scan. */
  method WritePlayers(brain: SmartBrain, players: seq<EntityId>, targetable: seq<EntityId>, attackable: seq<EntityId>)
    requires brain.Valid()
    modifies brain`memories, brain`expirable
    ensures brain.Valid() && (old(brain.ExpiryTracked()) ==> brain.ExpiryTracked())
    ensures ValueOf(brain.memories, NearestPlayers) == if players == [] then None else Some(EntityList(players))
    ensures ValueOf(brain.memories, NearestVisiblePlayer) == HeadValue(targetable)
    ensures ValueOf(brain.memories, NearestVisibleAttackablePlayer) == HeadValue(attackable)
    ensures SameValuesOutside(brain.memories, old(brain.memories), {NearestPlayers, NearestVisiblePlayer, NearestVisibleAttackablePlayer})
  {
    SetMemory(brain, NearestPlayers, EntityList(players));
    ghost var m1 := brain.memories;
    WriteHead(brain, NearestVisiblePlayer, targetable);
    ghost var m2 := brain.memories;
    WriteHead(brain, NearestVisibleAttackablePlayer, attackable);
    assert ValueOf(m2, NearestPlayers) == ValueOf(m1, NearestPlayers);
  }

  /** setMemory with a list's head, or clearing when the list is empty (a null value). */
  method WriteHead(brain: SmartBrain, t: MemoryType, s: seq<EntityId>)
    requires brain.Valid()
    modifies brain`memories, brain`expirable
    ensures brain.Valid() && (old(brain.ExpiryTracked()) ==> brain.ExpiryTracked())
    ensures ValueOf(brain.memories, t) == HeadValue(s)
    ensures SameValuesOutside(brain.memories, old(brain.memories), {t})
  {
    if s == [] {
      ClearMemory(brain, t);
    } else {
      SetMemory(brain, t, EntityValue(s[0]));
    }
  }

  // WardenSpecificSensor

  /** The warden's nearest attackable entity: the first player of the list, else its first entity. */
  function WardenTarget(es: seq<EntityId>, isPlayer: EntityId -> bool): (r: Option<EntityId>)
    ensures Filter(es, isPlayer) != [] ==> r == Some(Filter(es, isPlayer)[0])
    ensures Filter(es, isPlayer) == [] ==> r == Head(es)
  {
    var players := Filter(es, isPlayer);
    if players != [] then Some(players[0]) else Head(es)
  }

  /** Players are preferred: with a player anywhere in the list the target is a player of the list. */
  lemma WardenPrefersPlayers(es: seq<EntityId>, isPlayer: EntityId -> bool, k: nat)
    requires k < |es| && isPlayer(es[k])
    ensures WardenTarget(es, isPlayer).Some? && isPlayer(WardenTarget(es, isPlayer).value)
    ensures WardenTarget(es, isPlayer).value in es
  {
    FilterMembers(es, isPlayer, es[k]);
    FilterMembers(es, isPlayer, Filter(es, isPlayer)[0]);
  }

  /**
   * The warden's scan of the list: it stops at the first player, and keeps
   * the first entity as the fallback.
   */
  method WardenScan(entities: seq<EntityId>, isPlayer: EntityId -> bool) returns (target: Option<EntityId>)
    ensures target == WardenTarget(entities, isPlayer)
  {
    var fallbackTarget: Option<EntityId> := None;
    var i := 0;
    while i < |entities|
      invariant 0 <= i <= |entities|
      invariant Filter(entities[..i], isPlayer) == []
      invariant fallbackTarget == Head(entities[..i])
    {
      FilterPrefixSnoc(entities, i, isPlayer);
      if isPlayer(entities[i]) {
        FilterAppend(entities[..i + 1], entities[i + 1..], isPlayer);
        assert entities[..i + 1] + entities[i + 1..] == entities;
        return Some(entities[i]);
      } else if fallbackTarget.None? {
        fallbackTarget := Some(entities[i]);
      }
      assert entities[..i + 1][0] == entities[0];
      i := i + 1;
    }
    assert entities[..i] == entities;
    target := fallbackTarget;
  }

  /**
   * WardenSpecificSensor's part of doTick (after the nearby-entities scan):
   * with a NEAREST_LIVING_ENTITIES list, NEAREST_ATTACKABLE becomes the
   * first player, else the first entity, and is cleared for an empty list;
   * without one nothing changes.
   */
  method WardenTick(brain: SmartBrain, isPlayer: EntityId -> bool)
    requires brain.Valid()
    modifies brain`memories, brain`expirable
    ensures brain.Valid() && (old(brain.ExpiryTracked()) ==> brain.ExpiryTracked())
    ensures var nearby := ValueOf(old(brain.memories), NearestLivingEntities);
      nearby.Some? && nearby.value.EntityList? ==>
        ValueOf(brain.memories, NearestAttackable) ==
          (var w := WardenTarget(nearby.value.entities, isPlayer); if w.Some? then Some(EntityValue(w.value)) else None)
    ensures SameValuesOutside(brain.memories, old(brain.memories), {NearestAttackable})
    ensures var nearby := ValueOf(old(brain.memories), NearestLivingEntities);
      !(nearby.Some? && nearby.value.EntityList?) ==>
        SameValues(brain.memories, old(brain.memories))
  {
    var nearby := ReadMemory(brain, NearestLivingEntities);
    if nearby.None? || !nearby.value.EntityList? {
      return;
    }
    var target := WardenScan(nearby.value.entities, isPlayer);
    if target.Some? {
      SetMemory(brain, NearestAttackable, EntityValue(target.value));
    } else {
      ClearMemory(brain, NearestAttackable);
    }
  }
}
