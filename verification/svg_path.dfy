/** `polygonToPath`, `multiPolygonToPath` and `geometryToPath` of
    `src/utils.ts`: the structure of the SVG path built from a GeoJSON
    geometry. Projecting a position and printing it with two decimals is
    floating-point work; it is the parameter `pointText`, about which nothing
    is assumed unless a lemma says so. */
module SvgPath {
  import opened Text

  /** A GeoJSON position: longitude first, then latitude. */
  datatype Position = Position(lon: real, lat: real)

  /** A GeoJSON geometry. Types other than Polygon and MultiPolygon keep only
      their type name, which GeoJSON never spells `Polygon` or
      `MultiPolygon` for them: `OtherGeometry("Polygon")` does not occur. */
  datatype Geometry =
    | Polygon(rings: seq<seq<Position>>)
    | MultiPolygon(polygons: seq<seq<seq<Position>>>)
    | OtherGeometry(kind: string)

  /** The text of each point of a ring. */
  function PointTexts(ring: seq<Position>, pointText: Position -> string): (r: seq<string>)
    ensures |r| == |ring|
    ensures forall i :: 0 <= i < |r| ==> r[i] == pointText(ring[i])
  {
    seq(|ring|, i requires 0 <= i < |ring| => pointText(ring[i]))
  }

  /** One closed subpath: move to the first point, lines to the others, close. */
  function RingToPath(ring: seq<Position>, pointText: Position -> string): (r: string)
    ensures |r| >= 2 && r[0] == 'M' && r[|r| - 1] == 'Z'
  {
    "M" + Join(PointTexts(ring, pointText), "L") + "Z"
  }

  /** The subpaths of the rings of a polygon, one per ring. */
  function RingPaths(rings: seq<seq<Position>>, pointText: Position -> string): (r: seq<string>)
    ensures |r| == |rings|
    ensures forall i :: 0 <= i < |r| ==> r[i] == RingToPath(rings[i], pointText)
  {
    seq(|rings|, i requires 0 <= i < |rings| => RingToPath(rings[i], pointText))
  }

  /** `polygonToPath`: the ring subpaths separated by single spaces. */
  function PolygonToPath(rings: seq<seq<Position>>, pointText: Position -> string): (r: string)
    ensures r == "" <==> |rings| == 0
    ensures |rings| > 0 ==> r[0] == 'M' && r[|r| - 1] == 'Z'
  {
    var parts := RingPaths(rings, pointText);
    JoinEnds(parts, " ");
    Join(parts, " ")
  }

  /** Joining non-empty parts starts with the first part's first character
      and ends with the last part's last character. */
  lemma {:induction false} JoinEnds(parts: seq<string>, sep: string)
    requires forall i :: 0 <= i < |parts| ==> |parts[i]| > 0
    ensures Join(parts, sep) == "" <==> |parts| == 0
    ensures |parts| > 0 ==> Join(parts, sep)[0] == parts[0][0]
    ensures |parts| > 0 ==> var j := Join(parts, sep); j[|j| - 1] == parts[|parts| - 1][|parts[|parts| - 1]| - 1]
  {
    if |parts| > 1 {
      JoinEnds(parts[1..], sep);
    }
  }

  /** The path of each polygon of a multi-polygon. */
  function PolygonPaths(polygons: seq<seq<seq<Position>>>, pointText: Position -> string): (r: seq<string>)
    ensures |r| == |polygons|
    ensures forall i :: 0 <= i < |r| ==> r[i] == PolygonToPath(polygons[i], pointText)
  {
    seq(|polygons|, i requires 0 <= i < |polygons| => PolygonToPath(polygons[i], pointText))
  }

  /** `multiPolygonToPath`: the polygon paths separated by single spaces. */
  function MultiPolygonToPath(polygons: seq<seq<seq<Position>>>, pointText: Position -> string): (r: string)
    ensures |polygons| == 0 ==> r == ""
    ensures |polygons| == 1 ==> r == PolygonToPath(polygons[0], pointText)
  {
    Join(PolygonPaths(polygons, pointText), " ")
  }

  /** `geometryToPath`: Polygon and MultiPolygon are drawn, every other type
      gives the empty path. */
  function GeometryToPath(geometry: Geometry, pointText: Position -> string): (r: string)
    ensures geometry.OtherGeometry? ==> r == ""
    ensures geometry.Polygon? ==> r == PolygonToPath(geometry.rings, pointText)
    ensures geometry.Polygon? ==> (r == "" <==> |geometry.rings| == 0)
    ensures geometry.Polygon? && |geometry.rings| > 0 ==> r[0] == 'M' && r[|r| - 1] == 'Z'
    ensures geometry.MultiPolygon? ==> r == MultiPolygonToPath(geometry.polygons, pointText)
    ensures geometry.MultiPolygon? && |geometry.polygons| == 0 ==> r == ""
    ensures geometry.MultiPolygon? && (forall i :: 0 <= i < |geometry.polygons| ==> |geometry.polygons[i]| > 0) ==>
              r == PolygonToPath(Flatten(geometry.polygons), pointText)
  {
    match geometry
    case Polygon(rings) => PolygonToPath(rings, pointText)
    case MultiPolygon(polygons) =>
      assert (forall i :: 0 <= i < |polygons| ==> |polygons[i]| > 0) ==>
             MultiPolygonToPath(polygons, pointText) == PolygonToPath(Flatten(polygons), pointText) by {
        if forall i :: 0 <= i < |polygons| ==> |polygons[i]| > 0 {
          MultiPolygonFlattens(polygons, pointText);
        }
      }
      MultiPolygonToPath(polygons, pointText)
    case OtherGeometry(_) => ""
  }

  // ---------------------------------------------------------------------
  // Reading a path back

  /** Point texts as `toFixed` prints them never contain a space or an `L`. */
  ghost predicate PlainPointText(pointText: Position -> string) {
    forall p :: ' ' !in pointText(p) && 'L' !in pointText(p)
  }

  /** Splitting a polygon's path at spaces gives back one subpath per ring,
      and splitting the inside of each subpath at `L` gives back the ring's
      point texts, when point texts contain neither character. */
  lemma PolygonPathParses(rings: seq<seq<Position>>, pointText: Position -> string)
    requires |rings| > 0
    requires PlainPointText(pointText)
    ensures Split(PolygonToPath(rings, pointText), ' ') == RingPaths(rings, pointText)
    ensures forall i :: 0 <= i < |rings| && |rings[i]| > 0 ==>
      var sub := RingPaths(rings, pointText)[i];
      Split(sub[1..|sub| - 1], 'L') == PointTexts(rings[i], pointText)
  {
    var parts := RingPaths(rings, pointText);
    forall i | 0 <= i < |parts|
      ensures ' ' !in parts[i]
    {
      NoCharInJoin(PointTexts(rings[i], pointText), "L", ' ');
    }
    SplitJoin(parts, ' ');
    forall i | 0 <= i < |rings| && |rings[i]| > 0
      ensures var sub := parts[i]; Split(sub[1..|sub| - 1], 'L') == PointTexts(rings[i], pointText)
    {
      var texts := PointTexts(rings[i], pointText);
      var sub := parts[i];
      assert sub[1..|sub| - 1] == Join(texts, "L");
      SplitJoin(texts, 'L');
    }
  }

  /** A character absent from the parts and the separator is absent from the join. */
  lemma {:induction false} NoCharInJoin(parts: seq<string>, sep: string, c: char)
    requires c !in sep
    requires forall i :: 0 <= i < |parts| ==> c !in parts[i]
    ensures c !in Join(parts, sep)
  {
    if |parts| > 1 {
      NoCharInJoin(parts[1..], sep, c);
    }
  }

  /** When every polygon has at least one ring, the multi-polygon path is
      the path of all rings taken together, polygon after polygon. */
  lemma {:induction false} MultiPolygonFlattens(polygons: seq<seq<seq<Position>>>, pointText: Position -> string)
    requires forall i :: 0 <= i < |polygons| ==> |polygons[i]| > 0
    ensures MultiPolygonToPath(polygons, pointText) == PolygonToPath(Flatten(polygons), pointText)
  {
    if |polygons| > 1 {
      var head := polygons[0];
      var tail := polygons[1..];
      MultiPolygonFlattens(tail, pointText);
      assert PolygonPaths(polygons, pointText)[1..] == PolygonPaths(tail, pointText);
      assert Flatten(polygons) == head + Flatten(tail);
      FlattenNonEmpty(tail);
      assert RingPaths(head + Flatten(tail), pointText) ==
             RingPaths(head, pointText) + RingPaths(Flatten(tail), pointText);
      JoinAppend(RingPaths(head, pointText), RingPaths(Flatten(tail), pointText), " ");
    } else if |polygons| == 1 {
      assert Flatten(polygons) == polygons[0] + Flatten([]);
      assert polygons[0] + [] == polygons[0];
    }
  }

  /** The path of two consecutive groups of polygons is their two paths
      joined by one space, whether or not the polygons have rings; with the
      one-polygon case of `MultiPolygonToPath` this fixes every path. */
  lemma MultiPolygonAppend(a: seq<seq<seq<Position>>>, b: seq<seq<seq<Position>>>, pointText: Position -> string)
    requires |a| >= 1 && |b| >= 1
    ensures MultiPolygonToPath(a + b, pointText) ==
            MultiPolygonToPath(a, pointText) + " " + MultiPolygonToPath(b, pointText)
  {
    assert PolygonPaths(a + b, pointText) == PolygonPaths(a, pointText) + PolygonPaths(b, pointText);
    JoinAppend(PolygonPaths(a, pointText), PolygonPaths(b, pointText), " ");
  }

  /** A polygon without rings between two others leaves two spaces between
      their paths. */
  lemma RinglessPolygonDoubleSpace(p: seq<seq<Position>>, q: seq<seq<Position>>, pointText: Position -> string)
    ensures MultiPolygonToPath([p, [], q], pointText) ==
            PolygonToPath(p, pointText) + "  " + PolygonToPath(q, pointText)
  {
    assert [p] + [[], q] == [p, [], q];
    assert [[]] + [q] == [[], q];
    MultiPolygonAppend([p], [[], q], pointText);
    MultiPolygonAppend([[]], [q], pointText);
    assert PolygonToPath([], pointText) == "";
  }

  /** All rings of all polygons, in order. */
  function Flatten(polygons: seq<seq<seq<Position>>>): seq<seq<Position>> {
    if |polygons| == 0 then [] else polygons[0] + Flatten(polygons[1..])
  }

  lemma {:induction false} FlattenNonEmpty(polygons: seq<seq<seq<Position>>>)
    requires |polygons| > 0 && forall i :: 0 <= i < |polygons| ==> |polygons[i]| > 0
    ensures |Flatten(polygons)| > 0
  {
  }

  /** A triangle is one closed subpath through its three points. */
  lemma TrianglePath(a: Position, b: Position, c: Position, pointText: Position -> string)
    ensures GeometryToPath(Polygon([[a, b, c]]), pointText) ==
            "M" + pointText(a) + "L" + pointText(b) + "L" + pointText(c) + "Z"
  {
    var texts := PointTexts([a, b, c], pointText);
    assert texts[1..][1..] == [pointText(c)];
    assert Join(texts[1..], "L") == pointText(b) + "L" + Join(texts[1..][1..], "L");
    assert Join(texts, "L") == pointText(a) + "L" + (pointText(b) + "L" + pointText(c));
  }

  /** A point geometry draws nothing. */
  lemma PointGeometryIsEmpty(pointText: Position -> string)
    ensures GeometryToPath(OtherGeometry("Point"), pointText) == ""
  {
  }
}
