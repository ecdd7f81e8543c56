/** The combinatorial part of the Bowyer-Watson triangulation of src/triangulation.rs. The
    floating-point circumcircle test is a parameter `inCircle(p, a, b, c)`: "p lies inside the
    circle through a, b and c". The `HashSet` of edges is a `set`, and the order in which the
    source happens to iterate it is any order, chosen by `Enumerate`. */
module Triangulation {
  import opened Geometry
  import opened Collections
  import opened Rooms

  /** A doorway of the room `roomIndex`, or a corner of the super triangle. */
  datatype Point = Point(roomIndex: nat, position: Vector2)

  /** The result: the doorway points and the edges between them, by index. */
  datatype Triangulation = Triangulation(points: seq<Point>, edges: seq<(nat, nat)>)

  type Edge = (nat, nat)
  type Triangle = (nat, nat, nat)
  type CircleTest = (Vector2, Vector2, Vector2, Vector2) -> bool

  /** `make_edge`: the two endpoints, smaller one first. */
  function MakeEdge(a: nat, b: nat): (e: Edge)
    ensures e.0 <= e.1
    ensures (e.0 == a && e.1 == b) || (e.0 == b && e.1 == a)
  {
    (if a <= b then a else b, if a <= b then b else a)
  }

  /** The edge does not depend on the order of its endpoints. */
  lemma MakeEdgeSymmetric(a: nat, b: nat)
    ensures MakeEdge(a, b) == MakeEdge(b, a)
  {
  }

  /** The three edges of a triangle, in the order the source visits them. */
  function TriangleEdges(t: Triangle): seq<Edge> {
    [MakeEdge(t.0, t.1), MakeEdge(t.0, t.2), MakeEdge(t.1, t.2)]
  }

  /** Every vertex of every triangle is a point index below `n`. */
  predicate Within(triangles: seq<Triangle>, n: nat) {
    forall k :: 0 <= k < |triangles| ==> triangles[k].0 < n && triangles[k].1 < n && triangles[k].2 < n
  }

  /** No two entries are equal. */
  predicate NoDuplicates<T(==)>(s: seq<T>) {
    forall i, j :: 0 <= i < j < |s| ==> s[i] != s[j]
  }

  // ---------------------------------------------------------------------------------------
  // Points

  /** Every room uses at most its four slots. */
  predicate SlotsInUse(rooms: seq<Room>) {
    forall k :: 0 <= k < |rooms| ==> rooms[k].doorwayCount <= |rooms[k].doorways|
  }

  /** The points of room `k`: its used doorway slots, in slot order, tagged with `k`. */
  function RoomPoints(k: nat, room: Room): (ps: seq<Point>)
    requires room.doorwayCount <= |room.doorways|
    ensures |ps| == room.doorwayCount
  {
    seq(room.doorwayCount, i requires 0 <= i < room.doorwayCount => Point(k, room.doorways[i]))
  }

  /** The doorway points of all rooms, room by room. */
  function DoorwayPoints(rooms: seq<Room>): seq<Point>
    requires SlotsInUse(rooms)
  {
    if rooms == [] then []
    else DoorwayPoints(rooms[..|rooms| - 1]) + RoomPoints(|rooms| - 1, rooms[|rooms| - 1])
  }

  /** The number of doorways of the rooms. */
  function DoorwayTotal(rooms: seq<Room>): nat {
    if rooms == [] then 0 else DoorwayTotal(rooms[..|rooms| - 1]) + rooms[|rooms| - 1].doorwayCount
  }

  /** `DoorwayPoints` holds one point per doorway and nothing else: doorway `i` of room `k`
      sits right after the doorways of the rooms before `k`, tagged with `k`. */
  lemma {:induction false} DoorwayPointsAt(rooms: seq<Room>, k: nat, i: nat)
    requires SlotsInUse(rooms) && k < |rooms| && i < rooms[k].doorwayCount
    ensures |DoorwayPoints(rooms)| == DoorwayTotal(rooms)
    ensures DoorwayTotal(rooms[..k]) + i < DoorwayTotal(rooms)
    ensures DoorwayPoints(rooms)[DoorwayTotal(rooms[..k]) + i] == Point(k, rooms[k].doorways[i])
    decreases |rooms|
  {
    var init := rooms[..|rooms| - 1];
    assert SlotsInUse(init);
    if k < |rooms| - 1 {
      assert init[k] == rooms[k] && init[..k] == rooms[..k];
      DoorwayPointsAt(init, k, i);
    } else {
      assert rooms[..k] == init;
      DoorwayPointsLength(init);
    }
  }

  lemma {:induction false} DoorwayPointsLength(rooms: seq<Room>)
    requires SlotsInUse(rooms)
    ensures |DoorwayPoints(rooms)| == DoorwayTotal(rooms)
    decreases |rooms|
  {
    if rooms != [] {
      var init := rooms[..|rooms| - 1];
      assert SlotsInUse(init);
      DoorwayPointsLength(init);
    }
  }

  /** Lines 28-37: one point per used doorway slot, room by room. */
  method CollectPoints(rooms: seq<Room>) returns (points: seq<Point>)
    requires SlotsInUse(rooms)
    ensures points == DoorwayPoints(rooms)
  {
    points := [];
    for roomIndex := 0 to |rooms|
      invariant SlotsInUse(rooms[..roomIndex]) && points == DoorwayPoints(rooms[..roomIndex])
    {
      var room := rooms[roomIndex];
      ghost var before := points;
      for i := 0 to room.doorwayCount
        invariant points == before + RoomPoints(roomIndex, room)[..i]
      {
        points := points + [Point(roomIndex, room.doorways[i])];
      }
      assert rooms[..roomIndex + 1][..roomIndex] == rooms[..roomIndex];
      assert RoomPoints(roomIndex, room)[..room.doorwayCount] == RoomPoints(roomIndex, room);
    }
    assert rooms[..|rooms|] == rooms;
  }

  /** Lines 40-53: the corners of a right triangle around the whole grid, tagged with the
      index one past the last room. */
  function SuperPoints(grid: Vector2, noRoom: nat): seq<Point> {
    [Point(noRoom, Vector2(-1, -1)), Point(noRoom, Vector2(-1, 2 * grid.y + 1)), Point(noRoom, Vector2(2 * grid.x + 1, -1))]
  }

  // ---------------------------------------------------------------------------------------
  // One insertion step

  /** Whether point `p` lies in the circumcircle of triangle `t`. */
  predicate InCircumcircle(inCircle: CircleTest, points: seq<Point>, t: Triangle, p: Vector2)
    requires t.0 < |points| && t.1 < |points| && t.2 < |points|
  {
    inCircle(p, points[t.0].position, points[t.1].position, points[t.2].position)
  }

  /** Lines 68-80: the indices of the triangles whose circumcircle contains `p`, in index order. */
  method BadTriangles(inCircle: CircleTest, points: seq<Point>, triangles: seq<Triangle>, p: Vector2)
    returns (bad: seq<nat>)
    requires Within(triangles, |points|)
    ensures StrictlyIncreasing(bad)
    ensures forall k :: 0 <= k < |bad| ==> bad[k] < |triangles|
    ensures forall i: nat :: i in bad <==> i < |triangles| && InCircumcircle(inCircle, points, triangles[i], p)
  {
    bad := [];
    for triangleIndex := 0 to |triangles|
      invariant StrictlyIncreasing(bad)
      invariant forall k :: 0 <= k < |bad| ==> bad[k] < triangleIndex
      invariant forall i: nat :: i in bad <==> i < triangleIndex && InCircumcircle(inCircle, points, triangles[i], p)
    {
      if InCircumcircle(inCircle, points, triangles[triangleIndex], p) {
        bad := bad + [triangleIndex];
      }
    }
  }

  /** The edges of the triangles at `indices`, three per triangle, in order. */
  function EdgesOf(triangles: seq<Triangle>, indices: seq<nat>): seq<Edge>
    requires forall k :: 0 <= k < |indices| ==> indices[k] < |triangles|
  {
    if indices == [] then []
    else EdgesOf(triangles, indices[..|indices| - 1]) + TriangleEdges(triangles[indices[|indices| - 1]])
  }

  /** The closure `add_if_not_shared`: an edge seen before leaves the set, a new one joins it. */
  function Toggle(polygon: set<Edge>, e: Edge): (r: set<Edge>)
    ensures e in r <==> e !in polygon
    ensures forall x :: x != e ==> (x in r <==> x in polygon)
  {
    if e in polygon then polygon - {e} else polygon + {e}
  }

  /** The set holds exactly the edges seen an odd number of times. */
  ghost predicate OddEdges(polygon: set<Edge>, seen: seq<Edge>) {
    forall e :: e in polygon <==> multiset(seen)[e] % 2 == 1
  }

  /** Toggling one more edge keeps the set equal to the edges seen an odd number of times. */
  lemma ToggleKeepsOdd(polygon: set<Edge>, seen: seq<Edge>, e: Edge)
    requires OddEdges(polygon, seen)
    ensures OddEdges(Toggle(polygon, e), seen + [e])
  {
    assert multiset(seen + [e]) == multiset(seen) + multiset{e};
  }

  /** Lines 83-100: the boundary of the hole the bad triangles leave, as the edges that occur
      among their edges an odd number of times (an edge shared by two bad triangles cancels). */
  method Boundary(triangles: seq<Triangle>, bad: seq<nat>) returns (polygon: set<Edge>)
    requires forall k :: 0 <= k < |bad| ==> bad[k] < |triangles|
    ensures OddEdges(polygon, EdgesOf(triangles, bad))
  {
    polygon := {};
    for k := 0 to |bad|
      invariant OddEdges(polygon, EdgesOf(triangles, bad[..k]))
    {
      var triangle := triangles[bad[k]];
      ghost var seen := EdgesOf(triangles, bad[..k]);
      assert bad[..k + 1][..k] == bad[..k];
      assert EdgesOf(triangles, bad[..k + 1]) == seen + [MakeEdge(triangle.0, triangle.1)]
                                                     + [MakeEdge(triangle.0, triangle.2)] + [MakeEdge(triangle.1, triangle.2)];
      ToggleKeepsOdd(polygon, seen, MakeEdge(triangle.0, triangle.1));
      polygon := Toggle(polygon, MakeEdge(triangle.0, triangle.1));
      ToggleKeepsOdd(polygon, seen + [MakeEdge(triangle.0, triangle.1)], MakeEdge(triangle.0, triangle.2));
      polygon := Toggle(polygon, MakeEdge(triangle.0, triangle.2));
      ToggleKeepsOdd(polygon, seen + [MakeEdge(triangle.0, triangle.1)] + [MakeEdge(triangle.0, triangle.2)],
                     MakeEdge(triangle.1, triangle.2));
      polygon := Toggle(polygon, MakeEdge(triangle.1, triangle.2));
    }
    assert bad[..|bad|] == bad;
  }

  /** The edges of triangles with vertices below `n` have endpoints below `n`. */
  lemma {:induction false} EdgesOfWithin(triangles: seq<Triangle>, indices: seq<nat>, n: nat)
    requires Within(triangles, n) && forall k :: 0 <= k < |indices| ==> indices[k] < |triangles|
    ensures forall e :: e in EdgesOf(triangles, indices) ==> e.0 < n && e.1 < n
    decreases |indices|
  {
    if indices != [] {
      EdgesOfWithin(triangles, indices[..|indices| - 1], n);
    }
  }

  /** The triangles at `indices`, in that order. */
  function Chosen(triangles: seq<Triangle>, indices: seq<nat>): (r: seq<Triangle>)
    requires forall k :: 0 <= k < |indices| ==> indices[k] < |triangles|
    ensures |r| == |indices|
  {
    seq(|indices|, k requires 0 <= k < |indices| => triangles[indices[k]])
  }

  /** Lines 106-108: `swap_remove` of every bad triangle, highest index first. Because the
      indices increase, each removal only moves a triangle from the end, past every index still
      to be removed, so exactly the bad triangles go. */
  method RemoveBad(triangles: seq<Triangle>, bad: seq<nat>) returns (rest: seq<Triangle>)
    requires StrictlyIncreasing(bad) && forall k :: 0 <= k < |bad| ==> bad[k] < |triangles|
    ensures multiset(rest) + multiset(Chosen(triangles, bad)) == multiset(triangles)
  {
    rest := triangles;
    var k := |bad|;
    while k > 0
      invariant 0 <= k <= |bad|
      invariant k > 0 ==> bad[k - 1] < |rest| && rest[..bad[k - 1] + 1] == triangles[..bad[k - 1] + 1]
      invariant multiset(rest) + multiset(Chosen(triangles, bad)[k..]) == multiset(triangles)
    {
      var index := bad[k - 1];
      assert rest[index] == triangles[index] by {
        assert rest[..index + 1][index] == triangles[..index + 1][index];
      }
      RemoveStep(triangles, bad, k, rest);
      rest := SwapRemove(rest, index);
      k := k - 1;
    }
  }

  /** One removal of `RemoveBad` keeps its invariant. */
  lemma RemoveStep(triangles: seq<Triangle>, bad: seq<nat>, k: nat, rest: seq<Triangle>)
    requires StrictlyIncreasing(bad) && forall j :: 0 <= j < |bad| ==> bad[j] < |triangles|
    requires 0 < k <= |bad| && bad[k - 1] < |rest| && rest[bad[k - 1]] == triangles[bad[k - 1]]
    requires rest[..bad[k - 1] + 1] == triangles[..bad[k - 1] + 1]
    requires multiset(rest) + multiset(Chosen(triangles, bad)[k..]) == multiset(triangles)
    ensures var r := SwapRemove(rest, bad[k - 1]);
            && (k - 1 > 0 ==> bad[k - 2] < |r| && r[..bad[k - 2] + 1] == triangles[..bad[k - 2] + 1])
            && multiset(r) + multiset(Chosen(triangles, bad)[k - 1..]) == multiset(triangles)
  {
    var index := bad[k - 1];
    var r := SwapRemove(rest, index);
    var chosen := Chosen(triangles, bad);
    assert chosen[k - 1..] == [triangles[index]] + chosen[k..];
    if k - 1 > 0 {
      var j := bad[k - 2];
      assert j < index;
      assert r[..j + 1] == rest[..j + 1];
      assert rest[..j + 1] == rest[..index + 1][..j + 1];
      assert triangles[..j + 1] == triangles[..index + 1][..j + 1];
    }
  }

  /** Some order of the elements of a set, each once: the order in which a `HashSet` happens
      to iterate or drain. */
  method Enumerate(s: set<Edge>) returns (order: seq<Edge>)
    ensures forall e :: e in order <==> e in s
    ensures NoDuplicates(order) && |order| == |s|
  {
    order := [];
    var rest := s;
    while rest != {}
      invariant rest <= s && forall e :: e in s <==> e in order || e in rest
      invariant forall e :: e in order ==> e !in rest
      invariant NoDuplicates(order) && |order| + |rest| == |s|
      decreases |rest|
    {
      var e :| e in rest;
      order := order + [e];
      rest := rest - {e};
    }
  }

  /** Lines 111-113: a new triangle from each boundary edge to the point just inserted. */
  method Fan(triangles: seq<Triangle>, polygon: set<Edge>, pointIndex: nat) returns (result: seq<Triangle>)
    ensures |result| == |triangles| + |polygon| && result[..|triangles|] == triangles
    ensures forall j :: |triangles| <= j < |result| ==> result[j].2 == pointIndex && (result[j].0, result[j].1) in polygon
    ensures forall e :: e in polygon ==> exists j :: |triangles| <= j < |result| && (result[j].0, result[j].1) == e
  {
    var order := Enumerate(polygon);
    result := triangles;
    for k := 0 to |order|
      invariant |result| == |triangles| + k && result[..|triangles|] == triangles
      invariant forall j :: |triangles| <= j < |result| ==> result[j] == (order[j - |triangles|].0, order[j - |triangles|].1, pointIndex)
    {
      result := result + [(order[k].0, order[k].1, pointIndex)];
    }
    forall e | e in polygon
      ensures exists j :: |triangles| <= j < |result| && (result[j].0, result[j].1) == e
    {
      var k :| 0 <= k < |order| && order[k] == e;
      assert result[|triangles| + k] == (e.0, e.1, pointIndex);
    }
  }

  /** Lines 67-114 for one point: the triangles left after removing those whose circumcircle
      holds the point (`bad`), followed from `kept` on by one new triangle from each edge that
      occurs an odd number of times among the bad triangles' edges to the point; `boundary` is
      the set of those edges, one new triangle each. */
  method InsertPoint(inCircle: CircleTest, points: seq<Point>, triangles: seq<Triangle>, pointIndex: nat)
    returns (result: seq<Triangle>, ghost bad: seq<nat>, ghost kept: nat, ghost boundary: set<Edge>)
    requires pointIndex < |points| && Within(triangles, |points|)
    ensures StrictlyIncreasing(bad) && forall k :: 0 <= k < |bad| ==> bad[k] < |triangles|
    ensures forall i: nat :: i in bad <==> i < |triangles| && InCircumcircle(inCircle, points, triangles[i], points[pointIndex].position)
    ensures kept <= |result| && multiset(result[..kept]) + multiset(Chosen(triangles, bad)) == multiset(triangles)
    ensures forall j :: kept <= j < |result| ==>
              result[j].2 == pointIndex && multiset(EdgesOf(triangles, bad))[(result[j].0, result[j].1)] % 2 == 1
    ensures forall e :: multiset(EdgesOf(triangles, bad))[e] % 2 == 1 ==>
              exists j :: kept <= j < |result| && (result[j].0, result[j].1) == e
    ensures OddEdges(boundary, EdgesOf(triangles, bad)) && |result| == kept + |boundary|
    ensures Within(result, |points|)
  {
    var badIndices := BadTriangles(inCircle, points, triangles, points[pointIndex].position);
    var polygon := Boundary(triangles, badIndices);
    EdgesOfWithin(triangles, badIndices, |points|);
    var rest := RemoveBad(triangles, badIndices);
    RemovedWithin(triangles, rest, Chosen(triangles, badIndices), |points|);
    result := Fan(rest, polygon, pointIndex);
    FanWithin(rest, result, polygon, EdgesOf(triangles, badIndices), pointIndex, |points|);
    bad := badIndices;
    kept := |rest|;
    boundary := polygon;
  }

  /** The fan keeps every vertex below `n`: the old triangles were, and each new one joins the
      new point to a boundary edge, which is an edge of a bad triangle. */
  lemma FanWithin(rest: seq<Triangle>, result: seq<Triangle>, polygon: set<Edge>, seen: seq<Edge>, pointIndex: nat, n: nat)
    requires Within(rest, n) && pointIndex < n
    requires OddEdges(polygon, seen) && forall e :: e in seen ==> e.0 < n && e.1 < n
    requires |result| >= |rest| && result[..|rest|] == rest
    requires forall j :: |rest| <= j < |result| ==> result[j].2 == pointIndex && (result[j].0, result[j].1) in polygon
    ensures Within(result, n)
  {
    forall j | 0 <= j < |result|
      ensures result[j].0 < n && result[j].1 < n && result[j].2 < n
    {
      if j < |rest| {
        assert result[j] == result[..|rest|][j];
      } else {
        var e := (result[j].0, result[j].1);
        assert multiset(seen)[e] > 0;
      }
    }
  }

  /** What is left of a set of triangles after removals has its vertices where they were. */
  lemma RemovedWithin(triangles: seq<Triangle>, rest: seq<Triangle>, removed: seq<Triangle>, n: nat)
    requires Within(triangles, n) && multiset(rest) + multiset(removed) == multiset(triangles)
    ensures Within(rest, n)
  {
    forall k | 0 <= k < |rest| ensures rest[k].0 < n && rest[k].1 < n && rest[k].2 < n {
      assert rest[k] in multiset(rest);
      assert rest[k] in multiset(triangles);
    }
  }

  // ---------------------------------------------------------------------------------------
  // After the insertions

  /** No vertex of the triangle is a super point. */
  predicate Inner(t: Triangle, first: nat) {
    t.0 < first && t.1 < first && t.2 < first
  }

  /** Lines 118-129: `swap_remove` of every triangle with a super point, re-examining the
      index the last triangle moved into. */
  method RemoveSuper(triangles: seq<Triangle>, first: nat) returns (result: seq<Triangle>)
    ensures forall k :: 0 <= k < |result| ==> Inner(result[k], first)
    ensures forall t :: multiset(result)[t] == if Inner(t, first) then multiset(triangles)[t] else 0
  {
    result := triangles;
    var triangleIndex: nat := 0;
    while triangleIndex < |result|
      invariant triangleIndex <= |result|
      invariant forall k :: 0 <= k < triangleIndex ==> Inner(result[k], first)
      invariant forall t :: Inner(t, first) ==> multiset(result)[t] == multiset(triangles)[t]
      invariant forall t :: !Inner(t, first) ==> multiset(result)[t] <= multiset(triangles)[t]
      decreases |result| - triangleIndex
    {
      var triangle := result[triangleIndex];
      var containsSuperPoint := triangle.0 >= first || triangle.1 >= first || triangle.2 >= first;
      if containsSuperPoint {
        SwapRemoveOuter(triangles, result, triangleIndex, first);
        result := SwapRemove(result, triangleIndex);
        continue;
      }
      triangleIndex := triangleIndex + 1;
    }
    forall t | !Inner(t, first) ensures multiset(result)[t] == 0 {
      assert t !in result;
    }
  }

  /** Removing a triangle with a super point keeps the counts of the inner triangles, does not
      raise any other count, and keeps the already examined prefix. */
  lemma SwapRemoveOuter(triangles: seq<Triangle>, current: seq<Triangle>, i: nat, first: nat)
    requires i < |current| && !Inner(current[i], first)
    requires forall t :: Inner(t, first) ==> multiset(current)[t] == multiset(triangles)[t]
    requires forall t :: !Inner(t, first) ==> multiset(current)[t] <= multiset(triangles)[t]
    ensures var next := SwapRemove(current, i);
      (forall k :: 0 <= k < i ==> next[k] == current[k]) &&
      (forall t :: Inner(t, first) ==> multiset(next)[t] == multiset(triangles)[t]) &&
      (forall t :: !Inner(t, first) ==> multiset(next)[t] <= multiset(triangles)[t])
  {
    var next := SwapRemove(current, i);
    assert multiset(next) == multiset(current) - multiset{current[i]};
  }

  /** The edges of all triangles, three per triangle. */
  function AllEdges(triangles: seq<Triangle>): seq<Edge> {
    if triangles == [] then [] else AllEdges(triangles[..|triangles| - 1]) + TriangleEdges(triangles[|triangles| - 1])
  }

  /** Lines 138-143: the set of the edges of the triangles. */
  method EdgeSet(triangles: seq<Triangle>) returns (polygon: set<Edge>)
    ensures forall e :: e in polygon <==> e in AllEdges(triangles)
  {
    polygon := {};
    for k := 0 to |triangles|
      invariant forall e :: e in polygon <==> e in AllEdges(triangles[..k])
    {
      var triangle := triangles[k];
      assert triangles[..k + 1][..k] == triangles[..k];
      polygon := polygon + {MakeEdge(triangle.0, triangle.1)};
      polygon := polygon + {MakeEdge(triangle.0, triangle.2)};
      polygon := polygon + {MakeEdge(triangle.1, triangle.2)};
    }
    assert triangles[..|triangles|] == triangles;
  }

  /** Edges of triangles whose vertices are below `n` are ordered and have endpoints below `n`. */
  lemma {:induction false} AllEdgesWithin(triangles: seq<Triangle>, n: nat)
    requires forall k :: 0 <= k < |triangles| ==> Inner(triangles[k], n)
    ensures forall e :: e in AllEdges(triangles) ==> e.0 <= e.1 < n
    decreases |triangles|
  {
    if triangles != [] {
      AllEdgesWithin(triangles[..|triangles| - 1], n);
    }
  }

  /** `triangulate`: the Delaunay triangulation of the doorways of `rooms`, as in Bowyer-Watson,
      around a super triangle covering the grid. The points are the doorways, room by room, and
      the edges are those of the final triangles (`triangles`), each once, smaller endpoint
      first, between doorway points only. */
  method Triangulate(inCircle: CircleTest, grid: Vector2, rooms: seq<Room>)
    returns (result: Triangulation, ghost triangles: seq<Triangle>)
    requires SlotsInUse(rooms)
    ensures result.points == DoorwayPoints(rooms)
    ensures forall k :: 0 <= k < |result.edges| ==> result.edges[k].0 <= result.edges[k].1 < |result.points|
    ensures NoDuplicates(result.edges)
    ensures forall e :: e in result.edges <==> e in AllEdges(triangles)
    ensures forall k :: 0 <= k < |triangles| ==> Inner(triangles[k], |result.points|)
  {
    var points := CollectPoints(rooms);
    var noRoomIndex := |rooms|;
    points := points + SuperPoints(grid, noRoomIndex);
    var first := |points| - 3;
    var current: seq<Triangle> := [(first, first + 1, first + 2)];
    for pointIndex := 0 to first
      invariant |points| == first + 3 && points[..first] == DoorwayPoints(rooms)
      invariant Within(current, |points|)
    {
      ghost var bad, kept, boundary;
      current, bad, kept, boundary := InsertPoint(inCircle, points, current, pointIndex);
    }
    current := RemoveSuper(current, first);
    points := points[..|points| - 1];
    points := points[..|points| - 1];
    points := points[..|points| - 1];
    var polygon := EdgeSet(current);
    var edges := Enumerate(polygon);
    AllEdgesWithin(current, first);
    result := Triangulation(points, edges);
    triangles := current;
  }
}
