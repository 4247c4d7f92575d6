// The position helpers backported from later game versions: climbing out of
// and above solid ground, keeping the best of ten supplied candidates, and
// drawing a random offset. Random draws, the position supplier and the
// weighting are parameters.
module RandomPositions {
  import opened Wrappers
  import Domain

  datatype BlockPos = BlockPos(x: int, y: int, z: int)

  datatype Vec3 = Vec3(x: real, y: real, z: real)

  /** BlockPos.above: one block up. */
  function Above(p: BlockPos): (r: BlockPos)
    ensures r.x == p.x && r.y == p.y + 1 && r.z == p.z
  {
    BlockPos(p.x, p.y + 1, p.z)
  }

  /** The position in the same column at height y. */
  function AtHeight(p: BlockPos, y: int): BlockPos {
    BlockPos(p.x, y, p.z)
  }

  /**
   * The first position from p upwards (p included) that is at or above the
   * height limit or fails the predicate.
   */
  function ClimbFrom(p: BlockPos, maxY: int, test: BlockPos -> bool): (r: BlockPos)
    ensures r.x == p.x && r.z == p.z && p.y <= r.y
    ensures r.y >= maxY || !test(r)
    ensures p.y < maxY ==> r.y <= maxY
    ensures p.y >= maxY ==> r == p
    decreases if p.y < maxY then maxY - p.y else 0
  {
    if p.y < maxY && test(p) then ClimbFrom(Above(p), maxY, test) else p
  }

  /** Every position the climb passes satisfies the predicate. */
  lemma {:induction false} ClimbFromPasses(p: BlockPos, maxY: int, test: BlockPos -> bool)
    ensures forall y :: p.y <= y < ClimbFrom(p, maxY, test).y ==> test(AtHeight(p, y))
    decreases if p.y < maxY then maxY - p.y else 0
  {
    if p.y < maxY && test(p) {
      var top := ClimbFrom(p, maxY, test).y;
      assert top == ClimbFrom(Above(p), maxY, test).y;
      ClimbFromPasses(Above(p), maxY, test);
      forall y | p.y <= y < top
        ensures test(AtHeight(p, y))
      {
        if y == p.y {
          assert AtHeight(p, y) == p;
        } else {
          assert AtHeight(Above(p), y) == AtHeight(p, y);
        }
      }
    } else {
      assert ClimbFrom(p, maxY, test) == p;
    }
  }

  /**
   * moveUpOutOfSolid: a position failing the predicate is returned as it is;
   * otherwise the result is strictly higher in the same column, every
   * position from the start up to it satisfies the predicate, and it is at
   * the height limit or fails the predicate.
   */
  method MoveUpOutOfSolid(pos: BlockPos, maxY: int, test: BlockPos -> bool) returns (r: BlockPos)
    ensures !test(pos) ==> r == pos
    ensures test(pos) ==> r == ClimbFrom(Above(pos), maxY, test)
    ensures test(pos) ==> r.x == pos.x && r.z == pos.z && r.y > pos.y
    ensures test(pos) ==> forall y :: pos.y <= y < r.y ==> test(AtHeight(pos, y))
    ensures test(pos) ==> r.y >= maxY || !test(r)
  {
    if !test(pos) {
      return pos;
    }
    r := Above(pos);
    while r.y < maxY && test(r)
      invariant r.x == pos.x && r.z == pos.z && pos.y < r.y
      invariant ClimbFrom(r, maxY, test) == ClimbFrom(Above(pos), maxY, test)
      decreases maxY - r.y
    {
      r := Above(r);
    }
    ClimbFromPasses(Above(pos), maxY, test);
    forall y | pos.y <= y < r.y
      ensures test(AtHeight(pos, y))
    {
      if y == pos.y {
        assert AtHeight(pos, y) == pos;
      } else {
        assert AtHeight(Above(pos), y) == AtHeight(pos, y);
      }
    }
  }

  /**
   * moveUpToAboveSolid: a position failing the predicate is returned as it
   * is. Otherwise, from the surface found as in moveUpOutOfSolid, it rises
   * further through positions failing the predicate, by at most the ground
   * clearance and never past the height limit, stopping below the first
   * position that satisfies it.
   */
  method MoveUpToAboveSolid(pos: BlockPos, minGroundClearance: int, maxY: int, test: BlockPos -> bool)
    returns (r: BlockPos)
    ensures !test(pos) ==> r == pos
    ensures test(pos) ==>
      var s := ClimbFrom(Above(pos), maxY, test);
      r.x == pos.x && r.z == pos.z && s.y <= r.y &&
      r.y - s.y <= (if minGroundClearance < 0 then 0 else minGroundClearance) &&
      (s.y < maxY ==> r.y <= maxY) && (s.y >= maxY ==> r == s) &&
      (forall y :: s.y < y <= r.y ==> !test(AtHeight(pos, y))) &&
      (r.y >= maxY || r.y - s.y >= minGroundClearance || test(Above(r)))
  {
    if !test(pos) {
      return pos;
    }
    var surface := MoveUpOutOfSolid(pos, maxY, test);
    var testPos := surface;
    while testPos.y < maxY && testPos.y - surface.y < minGroundClearance
      invariant testPos.x == pos.x && testPos.z == pos.z && surface.y <= testPos.y
      invariant testPos.y - surface.y <= (if minGroundClearance < 0 then 0 else minGroundClearance)
      invariant surface.y < maxY ==> testPos.y <= maxY
      invariant surface.y >= maxY ==> testPos == surface
      invariant forall y :: surface.y < y <= testPos.y ==> !test(AtHeight(pos, y))
      decreases maxY - testPos.y
    {
      var lastGoodPos := Above(testPos);
      if test(lastGoodPos) {
        break;
      }
      assert lastGoodPos == AtHeight(pos, testPos.y + 1);
      testPos := lastGoodPos;
    }
    return testPos;
  }

  /** A path weight: a double that is negative infinity or finite (not-a-number is not modelled). */
  datatype Weight = NegativeInfinity | Finite(value: real)

  /** The strict `>` on doubles. */
  predicate Exceeds(a: Weight, b: Weight) {
    a.Finite? && (b.NegativeInfinity? || a.value > b.value)
  }

  /**
   * The index of the candidate a best-of scan keeps: a non-null candidate
   * replaces the kept one only when its weight strictly exceeds the kept
   * weight (negative infinity at first).
   */
  function BestIndex(cands: seq<Option<BlockPos>>, weight: BlockPos -> Weight): (r: Option<nat>)
    ensures r.Some? ==> r.value < |cands| && cands[r.value].Some?
    decreases |cands|, 0
  {
    if |cands| == 0 then None
    else
      var front := cands[..|cands| - 1];
      var best := BestIndex(front, weight);
      var last := cands[|cands| - 1];
      if last.Some? && Exceeds(weight(last.value), BestWeight(front, weight)) then Some(|cands| - 1) else best
  }

  /** The weight a best-of scan compares the next candidate with. */
  function BestWeight(cands: seq<Option<BlockPos>>, weight: BlockPos -> Weight): Weight
    decreases |cands|, 1
  {
    var k := BestIndex(cands, weight);
    if k.Some? then weight(cands[k.value].value) else NegativeInfinity
  }

  /**
   * The kept candidate has a weight above negative infinity, at least that
   * of every candidate, and strictly above that of every earlier one (the
   * earliest wins a tie); none is kept exactly when every non-null candidate
   * weighs negative infinity.
   */
  lemma {:induction false} BestIndexIsBest(cands: seq<Option<BlockPos>>, weight: BlockPos -> Weight)
    ensures var r := BestIndex(cands, weight);
      (r.Some? ==> weight(cands[r.value].value).Finite?) &&
      (r.Some? ==> forall j :: 0 <= j < |cands| && cands[j].Some? ==>
        !Exceeds(weight(cands[j].value), weight(cands[r.value].value))) &&
      (r.Some? ==> forall j :: 0 <= j < r.value && cands[j].Some? ==>
        Exceeds(weight(cands[r.value].value), weight(cands[j].value))) &&
      (r.None? <==> forall j :: 0 <= j < |cands| && cands[j].Some? ==> weight(cands[j].value).NegativeInfinity?)
    decreases |cands|
  {
    if |cands| > 0 {
      var front := cands[..|cands| - 1];
      BestIndexIsBest(front, weight);
      assert forall k :: 0 <= k < |front| ==> front[k] == cands[k];
    }
  }

  /** One step of a best-of scan. */
  lemma BestSnoc(cands: seq<Option<BlockPos>>, c: Option<BlockPos>, weight: BlockPos -> Weight)
    ensures var keep := c.Some? && Exceeds(weight(c.value), BestWeight(cands, weight));
      BestPos(cands + [c], weight) == (if keep then c else BestPos(cands, weight)) &&
      BestWeight(cands + [c], weight) == (if keep then weight(c.value) else BestWeight(cands, weight))
  {
    assert (cands + [c])[..|cands|] == cands;
    var k := BestIndex(cands, weight);
    if k.Some? {
      assert (cands + [c])[k.value] == cands[k.value];
    }
  }

  /** The kept candidate itself, null when none is kept. */
  function BestPos(cands: seq<Option<BlockPos>>, weight: BlockPos -> Weight): (r: Option<BlockPos>)
    ensures r.Some? ==> r in cands
  {
    var k := BestIndex(cands, weight);
    if k.Some? then cands[k.value] else None
  }

  /** Vec3.atBottomCenterOf. */
  function BottomCentre(p: BlockPos): (v: Vec3)
    ensures v.x - p.x as real == 0.5 && v.y == p.y as real && v.z - p.z as real == 0.5
  {
    Vec3(p.x as real + 0.5, p.y as real, p.z as real + 0.5)
  }

  /** The first n results of the supplier, indexed by call. */
  function Supplied(supply: nat -> Option<BlockPos>, n: nat): (s: seq<Option<BlockPos>>)
    ensures |s| == n && forall i :: 0 <= i < n ==> s[i] == supply(i)
  {
    if n == 0 then [] else Supplied(supply, n - 1) + [supply(n - 1)]
  }

  /** The number of candidates generateRandomPos draws. */
  const TRIES := 10

  /**
   * generateRandomPos: the supplier is called exactly ten times (`supply(i)`
   * is the result of call i), and the result is the bottom centre of the
   * best-weighted candidate, null when no candidate is kept.
   */
  method GenerateRandomPos(supply: nat -> Option<BlockPos>, weight: BlockPos -> Weight)
    returns (r: Option<Vec3>, calls: nat)
    ensures calls == TRIES
    ensures var best := BestPos(Supplied(supply, TRIES), weight);
      r == if best.Some? then Some(BottomCentre(best.value)) else None
  {
    var minWeight := NegativeInfinity;
    var pos: Option<BlockPos> := None;
    calls := 0;
    var i := 0;
    while i < TRIES
      invariant 0 <= i <= TRIES && calls == i
      invariant pos == BestPos(Supplied(supply, i), weight)
      invariant minWeight == BestWeight(Supplied(supply, i), weight)
    {
      var nextPos := supply(i);
      calls := calls + 1;
      BestSnoc(Supplied(supply, i), nextPos, weight);
      if nextPos.Some? {
        var pathWeight := weight(nextPos.value);
        if Exceeds(pathWeight, minWeight) {
          minWeight := pathWeight;
          pos := nextPos;
        }
      }
      i := i + 1;
    }
    r := if pos.Some? then Some(BottomCentre(pos.value)) else None;
  }

  /**
   * generateRandomDirection, with `nextInt(k, n)` the k-th draw of
   * Random.nextInt(n): one lateral, one vertical, one lateral draw, each
   * shifted down by its radius. The bounds 2r+1 and the shifts are Java
   * `int` arithmetic and wrap; a bound that is not positive throws, which
   * every radius of 2^30 or more does.
   */
  function RandomDirection(nextInt: (nat, int) -> int, lateralRadius: Domain.JavaInt, verticalRadius: Domain.JavaInt)
    : (r: Result<BlockPos>)
    ensures r.Throws? <==> Domain.WrapInt(2 * lateralRadius + 1) <= 0 || Domain.WrapInt(2 * verticalRadius + 1) <= 0
    ensures r.Throws? ==> r.exception == IllegalArgument
    ensures lateralRadius >= 0x4000_0000 || verticalRadius >= 0x4000_0000 ==> r.Throws?
    ensures 0 <= lateralRadius < 0x4000_0000 && 0 <= verticalRadius < 0x4000_0000 ==> r.Ok?
  {
    BoundWraps(lateralRadius);
    BoundWraps(verticalRadius);
    var lateral := Domain.WrapInt(2 * lateralRadius + 1);
    var vertical := Domain.WrapInt(2 * verticalRadius + 1);
    if lateral <= 0 || vertical <= 0 then Throws(IllegalArgument)
    else Ok(BlockPos(Domain.WrapInt(nextInt(0, lateral) - lateralRadius),
                     Domain.WrapInt(nextInt(1, vertical) - verticalRadius),
                     Domain.WrapInt(nextInt(2, lateral) - lateralRadius)))
  }

  /** The Java bound 2r+1: exact below 2^30, negative from 2^30 up to Integer.MAX_VALUE. */
  lemma BoundWraps(radius: Domain.JavaInt)
    ensures 0 <= radius < 0x4000_0000 ==> Domain.WrapInt(2 * radius + 1) == 2 * radius + 1
    ensures radius >= 0x4000_0000 ==> Domain.WrapInt(2 * radius + 1) == 2 * radius + 1 - 0x1_0000_0000 < 0
  {
    if radius >= 0x4000_0000 {
      var x := 2 * radius + 1 + 0x8000_0000;
      assert 0x1_0000_0000 <= x < 2 * 0x1_0000_0000;
      assert x % 0x1_0000_0000 == x - 0x1_0000_0000;
    }
  }

  /** Random.nextInt(n) is in [0, n) for every positive bound. */
  ghost predicate NextIntInRange(nextInt: (nat, int) -> int) {
    forall k: nat, n: int :: n > 0 ==> 0 <= nextInt(k, n) < n
  }

  /**
   * With non-negative radii and draws in range, the offset lies within the
   * radii; every offset within them is drawn by some in-range draws.
   */
  lemma RandomDirectionBounds(nextInt: (nat, int) -> int, lateralRadius: Domain.JavaInt, verticalRadius: Domain.JavaInt)
    requires NextIntInRange(nextInt) && 0 <= lateralRadius < 0x4000_0000 && 0 <= verticalRadius < 0x4000_0000
    ensures RandomDirection(nextInt, lateralRadius, verticalRadius).Ok?
    ensures var p := RandomDirection(nextInt, lateralRadius, verticalRadius).value;
      -lateralRadius <= p.x <= lateralRadius && -verticalRadius <= p.y <= verticalRadius &&
      -lateralRadius <= p.z <= lateralRadius
  {
    BoundWraps(lateralRadius);
    BoundWraps(verticalRadius);
    var lateral := 2 * lateralRadius + 1;
    var vertical := 2 * verticalRadius + 1;
    assert 0 <= nextInt(0, lateral) < lateral;
    assert 0 <= nextInt(1, vertical) < vertical;
    assert 0 <= nextInt(2, lateral) < lateral;
  }

  /** Every offset within radii below 2^30 is reachable by in-range draws. */
  lemma RandomDirectionCovers(lateralRadius: Domain.JavaInt, verticalRadius: Domain.JavaInt, p: BlockPos)
    requires lateralRadius < 0x4000_0000 && verticalRadius < 0x4000_0000
    requires -p.x <= lateralRadius && p.x <= lateralRadius && -p.y <= verticalRadius && p.y <= verticalRadius
    requires -p.z <= lateralRadius && p.z <= lateralRadius
    ensures exists nextInt: (nat, int) -> int ::
      NextIntInRange(nextInt) && RandomDirection(nextInt, lateralRadius, verticalRadius) == Ok(p)
  {
    var wanted := (k: nat) =>
      if k == 0 then p.x + lateralRadius else if k == 1 then p.y + verticalRadius else p.z + lateralRadius;
    var draws := (k: nat, n: int) => if 0 <= wanted(k) < n then wanted(k) else 0;
    BoundWraps(lateralRadius);
    BoundWraps(verticalRadius);
    assert NextIntInRange(draws);
    assert RandomDirection(draws, lateralRadius, verticalRadius) == Ok(p);
  }
}
