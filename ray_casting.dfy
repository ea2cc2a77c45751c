/** The ray-casting land test of `singapore/generate_singapore_grid.py`.

    A point is inside a polygon when a ray from it towards larger longitude
    crosses the boundary an odd number of times (the even-odd rule).
    Coordinates are exact reals, standing in for Python floats. */
module RayCasting {

  /** A query point or polygon vertex, the source's `(lat, lon)` tuple:
      latitude plays the part of y, longitude that of x. */
  datatype Point = Point(lat: real, lon: real)

  type Polygon = seq<Point>

  /** The pair of vertices the loop looks at in one iteration: vertex `i`
      (`yi`, `xi`) and the trailing vertex `j` (`yj`, `xj`). */
  datatype Edge = Edge(cur: Point, prev: Point)

  /** The edges in the order the loop visits them: first the closing edge
      from the last vertex to vertex 0, then each vertex with the one
      before it. */
  function Edges(polygon: Polygon): seq<Edge> {
    if polygon == [] then []
    else [Edge(polygon[0], polygon[|polygon| - 1])] +
         seq(|polygon| - 1, k requires 0 <= k < |polygon| - 1 => Edge(polygon[k + 1], polygon[k]))
  }

  /** `(yi > lat) != (yj > lat)`: the edge reaches from one side of the
      horizontal line through the point to the other. */
  predicate Straddles(e: Edge, lat: real) {
    (e.cur.lat > lat) != (e.prev.lat > lat)
  }

  /** The longitude where a straddling edge meets the horizontal line:
      `(xj - xi) * (lat - yi) / (yj - yi) + xi`. */
  function CrossingLon(e: Edge, lat: real): real
    requires Straddles(e, lat)
  {
    (e.prev.lon - e.cur.lon) * (lat - e.cur.lat) / (e.prev.lat - e.cur.lat) + e.cur.lon
  }

  /** The test that toggles `inside`. The division in `CrossingLon` is
      reached only when the edge straddles, as the source's `and`
      short-circuits. */
  predicate Crosses(e: Edge, lat: real, lon: real) {
    Straddles(e, lat) && lon < CrossingLon(e, lat)
  }

  /** The number of edges in `edges` that the ray crosses. */
  function CrossingCount(edges: seq<Edge>, lat: real, lon: real): nat
    decreases |edges|
  {
    if edges == [] then 0
    else
      var last := if Crosses(edges[|edges| - 1], lat, lon) then 1 else 0;
      CrossingCount(edges[..|edges| - 1], lat, lon) + last
  }

  /** The even-odd rule. */
  predicate Inside(polygon: Polygon, lat: real, lon: real) {
    CrossingCount(Edges(polygon), lat, lon) % 2 == 1
  }

  // ---------------------------------------------------------------------------
  // Properties

  /** The edge the loop looks at in iteration `i` is vertex `i` with vertex
      `i - 1`, or with the last vertex when `i` is 0. */
  lemma EdgeAt(polygon: Polygon, i: int)
    requires 0 <= i < |polygon|
    ensures |Edges(polygon)| == |polygon|
    ensures Edges(polygon)[i] == Edge(polygon[i], polygon[if i == 0 then |polygon| - 1 else i - 1])
  {
  }

  /** A straddling edge is never horizontal, so the division is safe. */
  lemma StraddlingEdgeNotHorizontal(e: Edge, lat: real)
    requires Straddles(e, lat)
    ensures e.prev.lat - e.cur.lat != 0.0
  {
  }

  /** A horizontal or degenerate edge (`yi == yj`) never toggles `inside`. */
  lemma HorizontalEdgeNeverCrosses(e: Edge, lat: real, lon: real)
    requires e.cur.lat == e.prev.lat
    ensures !Crosses(e, lat, lon)
  {
  }

  /** The count over a concatenation is the sum of the counts. */
  lemma {:induction false} CrossingCountAppend(a: seq<Edge>, b: seq<Edge>, lat: real, lon: real)
    ensures CrossingCount(a + b, lat, lon) == CrossingCount(a, lat, lon) + CrossingCount(b, lat, lon)
    decreases |b|
  {
    if b != [] {
      var b0 := b[..|b| - 1];
      assert (a + b)[..|a + b| - 1] == a + b0;
      CrossingCountAppend(a, b0, lat, lon);
    } else {
      assert a + b == a;
    }
  }

  /** Extending the examined prefix by one edge adds one when that edge is
      crossed. */
  lemma CrossingCountPrefix(edges: seq<Edge>, i: int, lat: real, lon: real)
    requires 0 <= i < |edges|
    ensures CrossingCount(edges[..i + 1], lat, lon) ==
            CrossingCount(edges[..i], lat, lon) + if Crosses(edges[i], lat, lon) then 1 else 0
  {
    assert edges[..i + 1][..i] == edges[..i];
  }

  /** No edge whose end points lie on the same side of the line is crossed. */
  lemma {:induction false} NoStraddleNoCrossing(edges: seq<Edge>, lat: real, lon: real)
    requires forall k :: 0 <= k < |edges| ==> !Straddles(edges[k], lat)
    ensures CrossingCount(edges, lat, lon) == 0
    decreases |edges|
  {
    if edges != [] {
      NoStraddleNoCrossing(edges[..|edges| - 1], lat, lon);
    }
  }

  /** An empty polygon contains no point. */
  lemma EmptyPolygonContainsNothing(lat: real, lon: real)
    ensures !Inside([], lat, lon)
  {
  }

  /** A polygon lying wholly above, or wholly on or below, the point's
      latitude contains no point at that latitude. */
  lemma OneSidedPolygonContainsNothing(polygon: Polygon, lat: real, lon: real)
    requires (forall k :: 0 <= k < |polygon| ==> polygon[k].lat > lat) ||
             (forall k :: 0 <= k < |polygon| ==> polygon[k].lat <= lat)
    ensures CrossingCount(Edges(polygon), lat, lon) == 0
    ensures !Inside(polygon, lat, lon)
  {
    var edges := Edges(polygon);
    forall k | 0 <= k < |edges| ensures !Straddles(edges[k], lat) {
      EdgeAt(polygon, k);
    }
    NoStraddleNoCrossing(edges, lat, lon);
  }

  /** The edges of a polygon with its first vertex repeated at the end: a
      degenerate edge, then the polygon's own edges with the closing edge
      moved to the end. */
  lemma ClosedEdges(polygon: Polygon)
    requires polygon != []
    ensures Edges(polygon + [polygon[0]]) ==
            [Edge(polygon[0], polygon[0])] + Edges(polygon)[1..] + [Edges(polygon)[0]]
  {
    var n := |polygon|;
    var closed := polygon + [polygon[0]];
    var lhs := Edges(closed);
    var rhs := [Edge(polygon[0], polygon[0])] + Edges(polygon)[1..] + [Edges(polygon)[0]];
    assert |lhs| == n + 1 == |rhs|;
    forall k | 0 <= k <= n ensures lhs[k] == rhs[k] {
      EdgeAt(closed, k);
      if 0 < k < n {
        EdgeAt(polygon, k);
      } else if k == n {
        EdgeAt(polygon, 0);
      }
    }
  }

  /** Moving one edge from the front to the back and prefixing an edge that
      is not crossed leaves the count unchanged. */
  lemma RotatedCount(d: Edge, f: Edge, inner: seq<Edge>, lat: real, lon: real)
    requires !Crosses(d, lat, lon)
    ensures CrossingCount([d] + inner + [f], lat, lon) == CrossingCount([f] + inner, lat, lon)
  {
    CrossingCountAppend([f], inner, lat, lon);
    CrossingCountAppend([d], inner, lat, lon);
    CrossingCountAppend([d] + inner, [f], lat, lon);
    assert CrossingCount([d], lat, lon) == 0 by {
      assert [d][..0] == [];
    }
    assert CrossingCount([f], lat, lon) == CrossingCount([f][..0], lat, lon) + (if Crosses(f, lat, lon) then 1 else 0);
    assert [f][..0] == [];
  }

  /** Repeating the first vertex at the end (as `MAIN_ISLAND` does) changes
      nothing: the extra edge is degenerate and the rest are the same edges
      in another order. */
  lemma ClosingVertexIrrelevant(polygon: Polygon, lat: real, lon: real)
    requires polygon != []
    ensures CrossingCount(Edges(polygon + [polygon[0]]), lat, lon) == CrossingCount(Edges(polygon), lat, lon)
    ensures Inside(polygon + [polygon[0]], lat, lon) == Inside(polygon, lat, lon)
  {
    var edges := Edges(polygon);
    ClosedEdges(polygon);
    assert edges == [edges[0]] + edges[1..];
    HorizontalEdgeNeverCrosses(Edge(polygon[0], polygon[0]), lat, lon);
    RotatedCount(Edge(polygon[0], polygon[0]), edges[0], edges[1..], lat, lon);
  }

  /** The `SENTOSA` rectangle of the source, one of the land polygons. */
  const Sentosa: Polygon :=
    [Point(1.240, 103.825), Point(1.240, 103.860), Point(1.252, 103.860), Point(1.252, 103.825)]

  /** A point in the middle of the rectangle is inside (the ray crosses the
      eastern side only); one east of it is outside (no side is crossed). */
  lemma SentosaExample()
    ensures Inside(Sentosa, 1.246, 103.840)
    ensures !Inside(Sentosa, 1.246, 103.900)
  {
    var edges := Edges(Sentosa);
    assert edges == [Edge(Sentosa[0], Sentosa[3]), Edge(Sentosa[1], Sentosa[0]),
                     Edge(Sentosa[2], Sentosa[1]), Edge(Sentosa[3], Sentosa[2])];
    assert CrossingLon(edges[0], 1.246) == 103.825;
    assert CrossingLon(edges[2], 1.246) == 103.860;
    assert edges[..0] == [] && edges[..4] == edges;
    CrossingCountPrefix(edges, 0, 1.246, 103.840);
    CrossingCountPrefix(edges, 1, 1.246, 103.840);
    CrossingCountPrefix(edges, 2, 1.246, 103.840);
    CrossingCountPrefix(edges, 3, 1.246, 103.840);
    CrossingCountPrefix(edges, 0, 1.246, 103.900);
    CrossingCountPrefix(edges, 1, 1.246, 103.900);
    CrossingCountPrefix(edges, 2, 1.246, 103.900);
    CrossingCountPrefix(edges, 3, 1.246, 103.900);
  }

  // ---------------------------------------------------------------------------
  // The loops

  /** `point_in_polygon`: walks the vertices with the trailing index `j` and
      toggles `inside` at every crossed edge, so the answer is the parity of
      the number of crossed edges. */
  method PointInPolygon(lat: real, lon: real, polygon: Polygon) returns (inside: bool)
    ensures inside == Inside(polygon, lat, lon)
  {
    var n := |polygon|;
    ghost var edges := Edges(polygon);
    assert |edges| == n;
    inside := false;
    var j := n - 1;
    for i := 0 to n
      invariant j == if i == 0 then n - 1 else i - 1
      invariant inside == (CrossingCount(edges[..i], lat, lon) % 2 == 1)
    {
      EdgeAt(polygon, i);
      CrossingCountPrefix(edges, i, lat, lon);
      if Crosses(Edge(polygon[i], polygon[j]), lat, lon) {
        inside := !inside;
      }
      j := i;
    }
    assert edges[..n] == edges;
  }

  /** `point_in_any_polygon`: true as soon as one polygon contains the
      point, false when none does (in particular for no polygons). */
  method PointInAnyPolygon(lat: real, lon: real, polygons: seq<Polygon>) returns (found: bool)
    ensures found <==> exists k :: 0 <= k < |polygons| && Inside(polygons[k], lat, lon)
  {
    for k := 0 to |polygons|
      invariant forall m :: 0 <= m < k ==> !Inside(polygons[m], lat, lon)
    {
      var inside := PointInPolygon(lat, lon, polygons[k]);
      if inside {
        return true;
      }
    }
    return false;
  }
}
