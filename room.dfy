/** Room placement (src/room.rs): rejection sampling of padded, non-overlapping rectangles and
    the random choice of each room's doorways. This file works with its own module constants
    rather than with a `Configuration`. Positions are whole grid cells. */
module Rooms {
  import opened Geometry
  import opened Rng
  import opened Collections

  const MaxGridSize: nat := 256
  const MinRoomDimension: nat := 5
  const MaxRoomDimension: nat := 50
  const MinPadding: nat := 3
  const DoorwayOffset: nat := 2
  const MaxFailCount: nat := 10

  /** The doorway sides, numbered by their bit in the doorway mask. */
  const East: nat := 0
  const North: nat := 1
  const West: nat := 2
  const South: nat := 3

  /** A placed room: its rectangle and the first `doorwayCount` of its four doorway slots. */
  datatype Room = Room(rectangle: Rectangle, doorways: seq<Vector2>, doorwayCount: nat)

  /** The shape `Room` has in the source: four slots, of which at least one and at most four
      are in use. */
  predicate WellFormed(room: Room) {
    |room.doorways| == 4 && 1 <= room.doorwayCount <= 4
  }

  // ---------------------------------------------------------------------------------------
  // Overlap

  /** The rectangle grown by `MinPadding` to the right and downwards; its corner stays put. */
  function Padded(r: Rectangle): (p: Rectangle)
    ensures p.x == r.x && p.y == r.y
    ensures p.width == r.width + MinPadding && p.height == r.height + MinPadding
  {
    Rectangle(r.x, r.y, r.width + MinPadding, r.height + MinPadding)
  }

  /** `overlap_with_padding`: the two rectangles collide once both are padded. */
  predicate OverlapWithPadding(a: Rectangle, b: Rectangle) {
    CheckCollisionRecs(Padded(a), Padded(b))
  }

  /** The padded test spelled out: the rectangles are closer than `MinPadding` along both axes. */
  lemma OverlapMeansClose(a: Rectangle, b: Rectangle)
    ensures OverlapWithPadding(a, b) <==>
              && a.x < b.x + b.width + MinPadding && b.x < a.x + a.width + MinPadding
              && a.y < b.y + b.height + MinPadding && b.y < a.y + a.height + MinPadding
  {
  }

  /** The test does not depend on which rectangle comes first. */
  lemma OverlapSymmetric(a: Rectangle, b: Rectangle)
    ensures OverlapWithPadding(a, b) == OverlapWithPadding(b, a)
  {
  }

  /** Rectangles that collide unpadded also collide padded. */
  lemma CollisionImpliesOverlap(a: Rectangle, b: Rectangle)
    requires CheckCollisionRecs(a, b)
    ensures OverlapWithPadding(a, b)
  {
  }

  // ---------------------------------------------------------------------------------------
  // Doorways

  /** `mask & (1 << side) != 0`. */
  predicate HasSide(mask: nat, side: nat)
    requires side < 4
  {
    (mask / (if side == 0 then 1 else if side == 1 then 2 else if side == 2 then 4 else 8)) % 2 == 1
  }

  /** The sides below `k` whose bit is set, in the order the source tests them: east, north,
      west and south. */
  function SidesBelow(mask: nat, k: nat): (sides: seq<nat>)
    requires k <= 4
    ensures |sides| <= k
  {
    if k == 0 then [] else SidesBelow(mask, k - 1) + (if HasSide(mask, k - 1) then [k - 1] else [])
  }

  /** The sides with a doorway under `mask`. */
  function Sides(mask: nat): seq<nat> {
    SidesBelow(mask, 4)
  }

  lemma SidesSpelledOut(mask: nat)
    ensures Sides(mask) == (if HasSide(mask, East) then [East] else []) + (if HasSide(mask, North) then [North] else [])
                           + (if HasSide(mask, West) then [West] else []) + (if HasSide(mask, South) then [South] else [])
  {
    assert SidesBelow(mask, 1) == if HasSide(mask, East) then [East] else [];
    assert SidesBelow(mask, 2) == SidesBelow(mask, 1) + if HasSide(mask, North) then [North] else [];
    assert SidesBelow(mask, 3) == SidesBelow(mask, 2) + if HasSide(mask, West) then [West] else [];
  }

  /** `Sides` lists exactly the set bits, each once, in increasing order. */
  lemma SidesAreSetBits(mask: nat)
    ensures forall side: nat :: side in Sides(mask) <==> side < 4 && HasSide(mask, side)
    ensures forall i, j :: 0 <= i < j < |Sides(mask)| ==> Sides(mask)[i] < Sides(mask)[j]
  {
    SidesBelowAreSetBits(mask, 4);
  }

  lemma {:induction false} SidesBelowAreSetBits(mask: nat, k: nat)
    requires k <= 4
    ensures forall side: nat :: side in SidesBelow(mask, k) <==> side < k && HasSide(mask, side)
    ensures forall i :: 0 <= i < |SidesBelow(mask, k)| ==> SidesBelow(mask, k)[i] < k
    ensures forall i, j :: 0 <= i < j < |SidesBelow(mask, k)| ==> SidesBelow(mask, k)[i] < SidesBelow(mask, k)[j]
  {
    if k > 0 {
      SidesBelowAreSetBits(mask, k - 1);
    }
  }

  /** Any mask in `1..=15` sets between one and four bits, so every room gets a doorway. */
  lemma SidesOfMask(mask: nat)
    requires 1 <= mask <= 15
    ensures 1 <= |Sides(mask)| <= 4
  {
    SidesSpelledOut(mask);
  }

  /** The upper end of the offset range for a doorway on `side`: the side's length less
      `DoorwayOffset`. */
  function OffsetLimit(r: Rectangle, side: nat): int {
    (if side == East || side == West then r.height else r.width) - DoorwayOffset
  }

  /** Where the source puts the doorway of `side` at offset `offset`. East and north doorways
      are relative to the corner of the rectangle; west and south doorways, as written, are not. */
  function DoorwayAt(r: Rectangle, side: nat, offset: nat): Vector2 {
    if side == East then Vector2(r.x, r.y).Plus(Vector2(r.width, offset))
    else if side == North then Vector2(r.x, r.y).Plus(Vector2(offset, 0))
    else if side == West then Vector2(0, offset)
    else Vector2(offset, r.height)
  }

  /** `generate_doorways`: draws a mask in `1..=15`, then for each set bit, in the order east,
      north, west, south, draws an offset in `DoorwayOffset..=side - DoorwayOffset` and fills the
      next free slot. The source panics on an empty offset range, hence the requires. */
  method GenerateDoorways(r: Rectangle, rng: Source, calls: nat)
    returns (doorways: seq<Vector2>, doorwayCount: nat, callsAfter: nat)
    requires r.width >= 2 * DoorwayOffset && r.height >= 2 * DoorwayOffset
    ensures |doorways| == 4
    ensures doorwayCount == |Sides(rng(calls, 1, 15))|
    ensures callsAfter == calls + 1 + doorwayCount
    ensures forall j :: 0 <= j < doorwayCount ==>
              var side := Sides(rng(calls, 1, 15))[j];
              doorways[j] == DoorwayAt(r, side, rng(calls + 1 + j, DoorwayOffset, OffsetLimit(r, side)))
    ensures forall j :: doorwayCount <= j < 4 ==> doorways[j] == Zero()
  {
    var mask := rng(calls, 1, 15);
    var corner := Vector2(r.x, r.y);
    doorways := [Zero(), Zero(), Zero(), Zero()];
    doorwayCount := 0;
    callsAfter := calls + 1;
    ghost var done: seq<nat> := [];
    if HasSide(mask, East) {
      var offset := rng(callsAfter, DoorwayOffset, r.height - DoorwayOffset);
      var doorway := corner.Plus(Vector2(r.width, offset));
      FillStep(r, rng, calls, done, doorways, doorwayCount, callsAfter, East, doorway);
      doorways := doorways[doorwayCount := doorway];
      doorwayCount := doorwayCount + 1;
      callsAfter := callsAfter + 1;
      done := done + [East];
    }
    assert done == SidesBelow(mask, 1) && doorwayCount == |done| <= 1;
    if HasSide(mask, North) {
      var offset := rng(callsAfter, DoorwayOffset, r.width - DoorwayOffset);
      var doorway := corner.Plus(Vector2(offset, 0));
      FillStep(r, rng, calls, done, doorways, doorwayCount, callsAfter, North, doorway);
      doorways := doorways[doorwayCount := doorway];
      doorwayCount := doorwayCount + 1;
      callsAfter := callsAfter + 1;
      done := done + [North];
    }
    assert done == SidesBelow(mask, 2) && doorwayCount == |done| <= 2;
    if HasSide(mask, West) {
      var offset := rng(callsAfter, DoorwayOffset, r.height - DoorwayOffset);
      var doorway := Vector2(0, offset);
      FillStep(r, rng, calls, done, doorways, doorwayCount, callsAfter, West, doorway);
      doorways := doorways[doorwayCount := doorway];
      doorwayCount := doorwayCount + 1;
      callsAfter := callsAfter + 1;
      done := done + [West];
    }
    assert done == SidesBelow(mask, 3) && doorwayCount == |done| <= 3;
    if HasSide(mask, South) {
      var offset := rng(callsAfter, DoorwayOffset, r.width - DoorwayOffset);
      var doorway := Vector2(offset, r.height);
      FillStep(r, rng, calls, done, doorways, doorwayCount, callsAfter, South, doorway);
      doorways := doorways[doorwayCount := doorway];
      doorwayCount := doorwayCount + 1;
      callsAfter := callsAfter + 1;
      done := done + [South];
    }
    assert done == Sides(mask);
  }

  /** Filling the next free slot with the doorway of `side` keeps `Filled`. */
  lemma FillStep(r: Rectangle, rng: Source, calls: nat, done: seq<nat>, doorways: seq<Vector2>,
                 doorwayCount: nat, callsAfter: nat, side: nat, doorway: Vector2)
    requires Filled(r, rng, calls, done, doorways, doorwayCount, callsAfter) && doorwayCount < 4
    requires doorway == DoorwayAt(r, side, rng(callsAfter, DoorwayOffset, OffsetLimit(r, side)))
    ensures Filled(r, rng, calls, done + [side], doorways[doorwayCount := doorway], doorwayCount + 1, callsAfter + 1)
  {
  }

  /** The state `generate_doorways` keeps between its four tests: the slots in use hold the
      doorways of the sides handled so far, the others are still zero. */
  ghost predicate Filled(r: Rectangle, rng: Source, calls: nat, done: seq<nat>, doorways: seq<Vector2>,
                         doorwayCount: nat, callsAfter: nat)
  {
    && r.width >= 2 * DoorwayOffset && r.height >= 2 * DoorwayOffset
    && |doorways| == 4 && doorwayCount == |done| <= 4 && callsAfter == calls + 1 + doorwayCount
    && (forall j :: 0 <= j < doorwayCount ==>
          doorways[j] == DoorwayAt(r, done[j], rng(calls + 1 + j, DoorwayOffset, OffsetLimit(r, done[j]))))
    && forall j :: doorwayCount <= j < 4 ==> doorways[j] == Zero()
  }

  /** With a source that keeps to its ranges, every doorway lies in the offset range of its
      side: east doorways on the right edge, north doorways on the top edge, and the west and
      south doorways, as written, at the same offsets from the grid's origin. */
  lemma DoorwayPlacement(r: Rectangle, rng: Source, side: nat, call: nat)
    requires HonoursRanges(rng) && r.width >= 2 * DoorwayOffset && r.height >= 2 * DoorwayOffset
    requires side < 4
    ensures var d := DoorwayAt(r, side, rng(call, DoorwayOffset, OffsetLimit(r, side)));
            && (side == East ==> d.x == r.x + r.width && r.y + DoorwayOffset <= d.y <= r.y + r.height - DoorwayOffset)
            && (side == North ==> d.y == r.y && r.x + DoorwayOffset <= d.x <= r.x + r.width - DoorwayOffset)
            && (side == West ==> d.x == 0 && DoorwayOffset <= d.y <= r.height - DoorwayOffset)
            && (side == South ==> d.y == r.height && DoorwayOffset <= d.x <= r.width - DoorwayOffset)
  {
    var limit := OffsetLimit(r, side);
    assert DoorwayOffset <= rng(call, DoorwayOffset, limit) <= limit;
  }

  /** With a source that keeps to its ranges, a generated room has between one and four
      doorways. */
  lemma DoorwayCount(rng: Source, calls: nat)
    requires HonoursRanges(rng)
    ensures 1 <= |Sides(rng(calls, 1, 15))| <= 4
  {
    SidesOfMask(rng(calls, 1, 15));
  }

  /** `d` lies on an edge of `r`, not at a corner. */
  predicate OnOutline(r: Rectangle, d: Vector2) {
    || ((d.x == r.x || d.x == r.x + r.width) && r.y < d.y < r.y + r.height)
    || ((d.y == r.y || d.y == r.y + r.height) && r.x < d.x < r.x + r.width)
  }

  /** As written, the west and south doorways of a room away from the grid's origin are not on
      the room: for the room at (10, 10) of size 5 by 5 they land at (0, 2) and (2, 5). */
  lemma WestAndSouthDoorwaysMissTheRoom()
    ensures var r := Rectangle(10, 10, 5, 5);
            && DoorwayAt(r, West, 2) == Vector2(0, 2) && !OnOutline(r, DoorwayAt(r, West, 2))
            && DoorwayAt(r, South, 2) == Vector2(2, 5) && !OnOutline(r, DoorwayAt(r, South, 2))
  {
  }

  /** The placement the east and north branches use, applied to all four sides: every doorway
      relative to the corner of the rectangle. */
  function IntendedDoorwayAt(r: Rectangle, side: nat, offset: nat): Vector2 {
    Vector2(r.x, r.y).Plus(
      if side == East then Vector2(r.width, offset)
      else if side == North then Vector2(offset, 0)
      else if side == West then Vector2(0, offset)
      else Vector2(offset, r.height))
  }

  /** Placed relative to the corner, a doorway drawn from its side's offset range lies on the
      matching edge of the room, strictly between its corners. */
  lemma IntendedDoorwayOnOutline(r: Rectangle, side: nat, offset: nat)
    requires side < 4 && DoorwayOffset <= offset <= OffsetLimit(r, side)
    ensures OnOutline(r, IntendedDoorwayAt(r, side, offset))
    ensures var d := IntendedDoorwayAt(r, side, offset);
            && (side == East ==> d.x == r.x + r.width)
            && (side == North ==> d.y == r.y)
            && (side == West ==> d.x == r.x)
            && (side == South ==> d.y == r.y + r.height)
  {
  }

  // ---------------------------------------------------------------------------------------
  // Rooms

  /** The bounds `generate_rooms` draws a room within: the corner leaves room for a minimal
      room and its padding, and each side is at least `MinRoomDimension` and at most both
      `MaxRoomDimension` and what is left of the grid past the corner, less the padding. */
  predicate Placed(grid: Vector2, r: Rectangle) {
    && 0 <= r.x <= grid.x - MinRoomDimension - MinPadding
    && 0 <= r.y <= grid.y - MinRoomDimension - MinPadding
    && MinRoomDimension <= r.width <= grid.x - r.x - MinPadding && r.width <= MaxRoomDimension
    && MinRoomDimension <= r.height <= grid.y - r.y - MinPadding && r.height <= MaxRoomDimension
  }

  /** No room of `rooms` overlaps, padded, a room placed before it. */
  predicate Apart(rooms: seq<Room>) {
    forall i, j :: 0 <= i < j < |rooms| ==> !OverlapWithPadding(rooms[i].rectangle, rooms[j].rectangle)
  }

  function Min(a: int, b: int): (m: int)
    ensures m <= a && m <= b && (m == a || m == b)
  {
    if a <= b then a else b
  }

  /** `generate_rooms`: draws a corner and a size, rejects the rectangle when it overlaps a room
      already placed (counting a failure), and otherwise gives it doorways, resets the failure
      count and keeps it; it stops at `target` rooms or after `MaxFailCount` failures in a row.
      The grid must leave room for one minimal padded room (the source's ranges underflow
      otherwise), and the source must keep to its ranges (the source's later subtractions
      underflow otherwise). */
  method GenerateRooms(grid: Vector2, targetRoomCount: Option<nat>, rng: Source, calls: nat)
    returns (result: seq<Room>, callsAfter: nat, ghost failures: nat)
    requires grid.x >= MinRoomDimension + MinPadding && grid.y >= MinRoomDimension + MinPadding
    requires HonoursRanges(rng)
    ensures |result| <= (if targetRoomCount.Some? then targetRoomCount.value else grid.x * grid.y)
    ensures forall i :: 0 <= i < |result| ==> Placed(grid, result[i].rectangle) && WellFormed(result[i])
    ensures Apart(result)
    ensures |result| == (if targetRoomCount.Some? then targetRoomCount.value else grid.x * grid.y)
            || failures == MaxFailCount
    ensures callsAfter >= calls
  {
    result := [];
    var target: nat := if targetRoomCount.Some? then targetRoomCount.value else grid.x * grid.y;
    var xHi: nat := grid.x - MinRoomDimension - MinPadding;
    var yHi: nat := grid.y - MinRoomDimension - MinPadding;
    var roomCount: nat := 0;
    var failCount: nat := 0;
    callsAfter := calls;
    label outer: while roomCount < target
      invariant roomCount == |result| <= target && failCount <= MaxFailCount && callsAfter >= calls
      invariant forall i :: 0 <= i < |result| ==> Placed(grid, result[i].rectangle) && WellFormed(result[i])
      invariant Apart(result)
      decreases target - roomCount, MaxFailCount - failCount
    {
      if failCount >= MaxFailCount {
        break;
      }
      var x := rng(callsAfter, 0, xHi);
      var y := rng(callsAfter + 1, 0, yHi);
      var width := rng(callsAfter + 2, MinRoomDimension, Min(grid.x - x - MinPadding, MaxRoomDimension));
      var height := rng(callsAfter + 3, MinRoomDimension, Min(grid.y - y - MinPadding, MaxRoomDimension));
      callsAfter := callsAfter + 4;
      var rectangle := Rectangle(x, y, width, height);
      for i := 0 to |result|
        invariant forall k :: 0 <= k < i ==> !OverlapWithPadding(result[k].rectangle, rectangle)
      {
        if OverlapWithPadding(result[i].rectangle, rectangle) {
          failCount := failCount + 1;
          continue outer;
        }
      }
      var doorways, doorwayCount;
      DoorwayCount(rng, callsAfter);
      doorways, doorwayCount, callsAfter := GenerateDoorways(rectangle, rng, callsAfter);
      failCount := 0;
      roomCount := roomCount + 1;
      result := result + [Room(rectangle, doorways, doorwayCount)];
    }
    failures := failCount;
  }
}
