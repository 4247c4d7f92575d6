// The integer scans of the extended navigators: path-type classification,
// the stride look-ahead for a change in elevation, the descending shortcut
// search, the search for the nearest vertical traversal, and the control
// flow of following a path. Collision tests and the floating-point
// closeness test are oracles; widths are reals.
module Navigation {
  import opened Wrappers

  /** The block path types the classification distinguishes; every other type is OtherPathType. */
  datatype PathType =
    | Blocked | Open | Walkable | Water | Lava
    | DangerFire | DamageFire | DangerOther | DamageOther
    | OtherPathType(id: nat)

  /** canPathOnto: every type is a surface except water, lava and open air. */
  function CanPathOnto(t: PathType): (b: bool)
    ensures !b <==> t == Water || t == Lava || t == Open
  {
    match t
    case Water => false
    case Lava => false
    case Open => false
    case _ => true
  }

  /** canPathInto: only fire and other damaging types count as free space to path into. */
  function CanPathInto(t: PathType): (b: bool)
    ensures b <==> t == DamageFire || t == DangerFire || t == DamageOther
  {
    match t
    case DamageFire => true
    case DangerFire => true
    case DamageOther => true
    case _ => false
  }

  datatype Node = Node(x: int, y: int, z: int)

  /** Mth.ceil on a real. */
  function Ceil(v: real): (r: int)
    ensures (r - 1) as real < v <= r as real
  {
    var f := v.Floor;
    if f as real == v then f else f + 1
  }

  /** A path: its fixed nodes and the index of the next node to reach. */
  class Path {
    const nodes: seq<Node>
    var nextNodeIndex: int

    /** The index stays within [0, node count]; at the count the path is done. */
    predicate Valid()
      reads this
    {
      0 <= nextNodeIndex <= |nodes|
    }

    constructor (nodes: seq<Node>)
      ensures this.nodes == nodes && nextNodeIndex == 0 && Valid()
    {
      this.nodes := nodes;
      nextNodeIndex := 0;
    }

    /** getNode: the node at an index, which must lie in the list. */
    function GetNode(i: int): (r: Result<Node>)
      ensures 0 <= i < |nodes| ==> r == Ok(nodes[i])
      ensures !(0 <= i < |nodes|) ==> r == Throws(IndexOutOfBounds)
    {
      if 0 <= i < |nodes| then Ok(nodes[i]) else Throws(IndexOutOfBounds)
    }

    /** advance: on to the next node. */
    method Advance()
      modifies this`nextNodeIndex
      ensures nextNodeIndex == old(nextNodeIndex) + 1
    {
      nextNodeIndex := nextNodeIndex + 1;
    }
  }

  /** The end (exclusive) of the nodes a mob of this width can stride over from `from`. */
  function StrideEnd(count: int, from: int, width: real): (r: int)
    ensures r <= count && r <= from + Ceil(width * 0.5) + 1
    ensures r == count || r == from + Ceil(width * 0.5) + 1
  {
    var toNode := from + Ceil(width * 0.5) + 1;
    if count < toNode then count else toNode
  }

  /** Some node within the stride has a height other than the next node's. */
  ghost predicate HeightChangesWithin(nodes: seq<Node>, from: int, width: real)
    requires 0 <= from < |nodes|
  {
    exists i :: from < i < StrideEnd(|nodes|, from, width) && nodes[i].y != nodes[from].y
  }

  /**
   * The descending shortcut scan from node k down to (but excluding) the
   * next node: the first index whose traversal is collision-free, none,
   * or an index outside the path.
   */
  function ShortcutScan(k: int, next: int, count: int, free: int -> bool): (r: Result<Option<int>>)
    ensures r.Ok? && r.value.Some? ==> next < r.value.value <= k && r.value.value < count && free(r.value.value)
    ensures r.Ok? && r.value.Some? ==> forall j :: r.value.value < j <= k ==> !free(j)
    ensures r == Ok(None) ==> forall j :: next < j <= k ==> !free(j)
    ensures 0 <= next && k < count ==> r.Ok?
    decreases k - next
  {
    if k <= next then Ok(None)
    else if !(0 <= k < count) then Throws(IndexOutOfBounds)
    else if free(k) then Ok(Some(k))
    else ShortcutScan(k - 1, next, count, free)
  }

  /**
   * Within the path the shortcut is the highest free index strictly between
   * the next node and the target, and there is one exactly when some index
   * there is free.
   */
  lemma ShortcutIsHighestFree(target: int, next: int, count: int, free: int -> bool)
    requires 0 <= next && target <= count
    ensures ShortcutScan(target - 1, next, count, free).Ok?
    ensures ShortcutScan(target - 1, next, count, free).value.Some? <==> exists i :: next < i < target && free(i)
  {
    var r := ShortcutScan(target - 1, next, count, free);
    if r.value.Some? {
      assert next < r.value.value < target && free(r.value.value);
    }
  }

  class SmoothGroundNavigation {
    const path: Path
    /** The mob's bounding-box width. */
    const bbWidth: real
    var maxDistanceToWaypoint: real
    /** How many times stuck detection ran. */
    var stuckChecks: nat

    constructor (path: Path, bbWidth: real)
      ensures this.path == path && this.bbWidth == bbWidth && maxDistanceToWaypoint == 0.5 && stuckChecks == 0
    {
      this.path := path;
      this.bbWidth := bbWidth;
      maxDistanceToWaypoint := 0.5;
      stuckChecks := 0;
    }

    /**
     * isAboutToTraverseVertically: whether some node within the mob's stride
     * after the next one has another height. A path that is done has no
     * next node to read.
     */
    method IsAboutToTraverseVertically() returns (r: Result<bool>)
      requires path.Valid()
      ensures path.nextNodeIndex == |path.nodes| ==> r == Throws(IndexOutOfBounds)
      ensures path.nextNodeIndex < |path.nodes| ==>
        r == Ok(HeightChangesWithin(path.nodes, path.nextNodeIndex, bbWidth))
    {
      var fromNode := path.nextNodeIndex;
      var from := path.GetNode(fromNode);
      if from.Throws? {
        return Throws(from.exception);
      }
      var fromNodeHeight := from.value.y;
      var toNode := StrideEnd(|path.nodes|, fromNode, bbWidth);
      var i := fromNode + 1;
      while i < toNode
        invariant fromNode + 1 <= i
        invariant i <= toNode || i == fromNode + 1
        invariant forall j :: fromNode < j < i && j < toNode ==> path.nodes[j].y == fromNodeHeight
      {
        if path.nodes[i].y != fromNodeHeight {
          return Ok(true);
        }
        i := i + 1;
      }
      return Ok(false);
    }

    /**
     * attemptShortcut: scanning down from the node before the target, the
     * first node whose traversal is collision-free becomes the next node and
     * the shortcut succeeds; with none the path is unchanged. A node outside
     * the path cannot be read.
     */
    method AttemptShortcut(targetNode: int, free: int -> bool) returns (r: Result<bool>)
      requires path.Valid()
      modifies path`nextNodeIndex
      ensures path.Valid()
      ensures var s := ShortcutScan(targetNode - 1, old(path.nextNodeIndex), |path.nodes|, free);
        (s.Throws? ==> r == Throws(s.exception) && path.nextNodeIndex == old(path.nextNodeIndex)) &&
        (s == Ok(None) ==> r == Ok(false) && path.nextNodeIndex == old(path.nextNodeIndex)) &&
        (s.Ok? && s.value.Some? ==> r == Ok(true) && path.nextNodeIndex == s.value.value)
    {
      var nodeIndex := targetNode - 1;
      while nodeIndex > path.nextNodeIndex
        invariant ShortcutScan(nodeIndex, path.nextNodeIndex, |path.nodes|, free) ==
          ShortcutScan(targetNode - 1, path.nextNodeIndex, |path.nodes|, free)
        invariant path.nextNodeIndex == old(path.nextNodeIndex)
        decreases nodeIndex - path.nextNodeIndex
      {
        if !(0 <= nodeIndex < |path.nodes|) {
          return Throws(IndexOutOfBounds);
        }
        if free(nodeIndex) {
          path.nextNodeIndex := nodeIndex;
          return Ok(true);
        }
        nodeIndex := nodeIndex - 1;
      }
      return Ok(false);
    }

    /**
     * getClosestVerticalTraversal: the first index from the next node on
     * whose height is not the safe surface height, or the node count when
     * every remaining node is at that height.
     */
    method GetClosestVerticalTraversal(safeSurfaceHeight: int) returns (r: int)
      requires path.Valid()
      ensures path.nextNodeIndex <= r <= |path.nodes|
      ensures forall i :: path.nextNodeIndex <= i < r ==> path.nodes[i].y == safeSurfaceHeight
      ensures r < |path.nodes| ==> path.nodes[r].y != safeSurfaceHeight
    {
      var nodesLength := |path.nodes|;
      var nodeIndex := path.nextNodeIndex;
      while nodeIndex < nodesLength
        invariant path.nextNodeIndex <= nodeIndex <= nodesLength
        invariant forall i :: path.nextNodeIndex <= i < nodeIndex ==> path.nodes[i].y == safeSurfaceHeight
      {
        if path.nodes[nodeIndex].y != safeSurfaceHeight {
          return nodeIndex;
        }
        nodeIndex := nodeIndex + 1;
      }
      return nodesLength;
    }

    /** The waypoint distance followThePath sets for the mob's width. */
    function WaypointDistance(): (d: real)
      ensures bbWidth > 0.75 ==> d == bbWidth / 2.0
      ensures bbWidth <= 0.75 ==> d == 0.75 - bbWidth / 2.0
      ensures d > 0.375 || bbWidth <= 0.75
    {
      if bbWidth > 0.75 then bbWidth / 2.0 else 0.75 - bbWidth / 2.0
    }

    /**
     * followThePath, on a path that is not done: shortcut to the nearest
     * vertical traversal when possible; only when that fails, advance one
     * node if close to the next one, or else about to change height and
     * within the waypoint distance; then always run stuck detection.
     */
    method FollowThePath(safeSurfaceY: int, free: int -> bool, closeTo: real -> bool) returns (ghost shortcut: int)
      requires path.Valid() && path.nextNodeIndex < |path.nodes|
      modifies path`nextNodeIndex, this`maxDistanceToWaypoint, this`stuckChecks
      ensures path.Valid()
      ensures maxDistanceToWaypoint == WaypointDistance()
      ensures stuckChecks == old(stuckChecks) + 1
      ensures old(path.nextNodeIndex) <= shortcut <= |path.nodes|
      ensures forall i :: old(path.nextNodeIndex) <= i < shortcut ==> path.nodes[i].y == safeSurfaceY
      ensures shortcut < |path.nodes| ==> path.nodes[shortcut].y != safeSurfaceY
      ensures var s := ShortcutScan(shortcut - 1, old(path.nextNodeIndex), |path.nodes|, free);
        s.Ok? &&
        (s.value.Some? ==> path.nextNodeIndex == s.value.value) &&
        (s.value.None? ==>
          var advance := closeTo(0.5) ||
            (HeightChangesWithin(path.nodes, old(path.nextNodeIndex), bbWidth) && closeTo(WaypointDistance()));
          path.nextNodeIndex == old(path.nextNodeIndex) + if advance then 1 else 0)
    {
      var shortcutNode := GetClosestVerticalTraversal(safeSurfaceY);
      shortcut := shortcutNode;
      maxDistanceToWaypoint := if bbWidth > 0.75 then bbWidth / 2.0 else 0.75 - bbWidth / 2.0;
      var shortcutTaken := AttemptShortcut(shortcutNode, free);
      if shortcutTaken == Ok(false) {
        var advance := closeTo(0.5);
        if !advance {
          var about := IsAboutToTraverseVertically();
          advance := about == Ok(true) && closeTo(maxDistanceToWaypoint);
        }
        if advance {
          path.Advance();
        }
      }
      stuckChecks := stuckChecks + 1;
    }
  }
}
