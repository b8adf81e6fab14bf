/** The GeoJSON helpers: the bounding box of a `MultiPolygon` or `LineString`
    geometry, the `LineString` built from URL bounds, and the mapping of a
    feature collection to scatter-plot points.

    GeoJSON positions are longitude first, latitude second. A position is a
    JavaScript array, so it is a sequence of any length here; reading an
    ordinate it does not have yields `undefined`, which `Math.min` and
    `Math.max` turn into `NaN`. */
module GeoJson {

  /** A GeoJSON position: `[longitude, latitude]`. */
  type Position = seq<real>

  const LongAxis: nat := 0
  const LatAxis: nat := 1

  /** A JavaScript number as far as the bounding box can produce one. */
  datatype Number = Real(value: real) | NaN

  /** `p[axis]` read as a number: `undefined` past the end becomes `NaN`. */
  function Ordinate(p: Position, axis: nat): (r: Number)
    ensures r.Real? <==> axis < |p|
    ensures r.Real? ==> r.value == p[axis]
  {
    if axis < |p| then Real(p[axis]) else NaN
  }

  /** `Math.min` of two numbers. */
  function Min(a: Number, b: Number): (r: Number)
    ensures r.Real? <==> a.Real? && b.Real?
    ensures r.Real? ==> r.value <= a.value && r.value <= b.value
    ensures r.Real? ==> r.value == a.value || r.value == b.value
  {
    if a.NaN? || b.NaN? then NaN
    else if a.value <= b.value then a else b
  }

  /** `Math.max` of two numbers. */
  function Max(a: Number, b: Number): (r: Number)
    ensures r.Real? <==> a.Real? && b.Real?
    ensures r.Real? ==> r.value >= a.value && r.value >= b.value
    ensures r.Real? ==> r.value == a.value || r.value == b.value
  {
    if a.NaN? || b.NaN? then NaN
    else if a.value >= b.value then a else b
  }

  // ---------------------------------------------------------------------------
  // Flattening

  /** The in-order concatenation of a list of lists. */
  function Concat<T>(xss: seq<seq<T>>): seq<T>
    decreases |xss|
  {
    if |xss| == 0 then [] else xss[0] + Concat(xss[1..])
  }

  /** `xss.reduce((acc, curr) => acc.concat(curr), acc)`: a left fold. */
  function ConcatReduce<T>(acc: seq<T>, xss: seq<seq<T>>): seq<T>
    decreases |xss|
  {
    if |xss| == 0 then acc else ConcatReduce(acc + xss[0], xss[1..])
  }

  /** One flattening pass as the source writes it, starting from `[]`. */
  function Flatten<T>(xss: seq<seq<T>>): seq<T>
  {
    ConcatReduce([], xss)
  }

  function SumLengths<T>(xss: seq<seq<T>>): nat
    decreases |xss|
  {
    if |xss| == 0 then 0 else |xss[0]| + SumLengths(xss[1..])
  }

  /** The total number of positions in all rings of all polygons. */
  function RingLengthTotal(polygons: seq<seq<seq<Position>>>): nat
    decreases |polygons|
  {
    if |polygons| == 0 then 0 else SumLengths(polygons[0]) + RingLengthTotal(polygons[1..])
  }

  /** The left fold computes the in-order concatenation. */
  lemma {:induction false} ConcatReduceIsConcat<T>(acc: seq<T>, xss: seq<seq<T>>)
    ensures ConcatReduce(acc, xss) == acc + Concat(xss)
    decreases |xss|
  {
    if |xss| > 0 {
      ConcatReduceIsConcat(acc + xss[0], xss[1..]);
      assert acc + xss[0] + Concat(xss[1..]) == acc + (xss[0] + Concat(xss[1..]));
    }
  }

  lemma {:induction false} ConcatLength<T>(xss: seq<seq<T>>)
    ensures |Concat(xss)| == SumLengths(xss)
    decreases |xss|
  {
    if |xss| > 0 {
      ConcatLength(xss[1..]);
    }
  }

  lemma {:induction false} SumLengthsAppend<T>(a: seq<seq<T>>, b: seq<seq<T>>)
    ensures SumLengths(a + b) == SumLengths(a) + SumLengths(b)
    decreases |a|
  {
    if |a| == 0 {
      assert a + b == b;
    } else {
      assert (a + b)[1..] == a[1..] + b;
      SumLengthsAppend(a[1..], b);
    }
  }

  /** An element is in the concatenation exactly when it is in one of the parts. */
  lemma {:induction false} ConcatMembership<T>(xss: seq<seq<T>>, x: T)
    ensures x in Concat(xss) <==> exists i :: 0 <= i < |xss| && x in xss[i]
    decreases |xss|
  {
    if |xss| > 0 {
      ConcatMembership(xss[1..], x);
      if x in Concat(xss[1..]) {
        var i :| 0 <= i < |xss[1..]| && x in xss[1..][i];
        assert x in xss[i + 1];
      }
      if exists i :: 0 <= i < |xss| && x in xss[i] {
        var i :| 0 <= i < |xss| && x in xss[i];
        if i > 0 {
          assert x in xss[1..][i - 1];
        }
      }
    }
  }

  // ---------------------------------------------------------------------------
  // Geometry and bounding box

  /** The geometry types the bounding box distinguishes; any other `type`
      string is `Other`, whose `typeName` is then neither of the two tags
      (`WellTagged`). */
  datatype Geometry =
    | MultiPolygon(polygons: seq<seq<seq<Position>>>)
    | LineString(coordinates: seq<Position>)
    | Other(typeName: string)

  const MultiPolygonTag: string := "MultiPolygon"
  const LineStringTag: string := "LineString"

  /** An `Other` geometry never carries one of the two recognised tags. */
  predicate WellTagged(g: Geometry)
  {
    g.Other? ==> g.typeName != MultiPolygonTag && g.typeName != LineStringTag
  }

  /** The flat list of positions the bounding box reduces over. */
  function Coordinates(g: Geometry): seq<Position>
  {
    match g
    case MultiPolygon(polygons) => Flatten(Flatten(polygons))
    case LineString(coordinates) => coordinates
    case Other(_) => []
  }

  /** The flattened positions of a multi-polygon are the rings of all polygons
      concatenated in order; their number is the sum of the ring lengths, and a
      position occurs in it exactly when it occurs in some ring. */
  lemma {:induction false} MultiPolygonCoordinates(polygons: seq<seq<seq<Position>>>)
    ensures Coordinates(MultiPolygon(polygons)) == Concat(Concat(polygons))
    ensures |Coordinates(MultiPolygon(polygons))| == RingLengthTotal(polygons)
    ensures forall p :: p in Coordinates(MultiPolygon(polygons)) <==>
              exists i, j :: 0 <= i < |polygons| && 0 <= j < |polygons[i]| && p in polygons[i][j]
  {
    ConcatReduceIsConcat([], polygons);
    assert Flatten(polygons) == Concat(polygons);
    ConcatReduceIsConcat([], Concat(polygons));
    ConcatLength(Concat(polygons));
    RingsLength(polygons);
    forall p ensures p in Concat(Concat(polygons)) <==>
              exists i, j :: 0 <= i < |polygons| && 0 <= j < |polygons[i]| && p in polygons[i][j]
    {
      ConcatMembership(Concat(polygons), p);
      if p in Concat(Concat(polygons)) {
        var k :| 0 <= k < |Concat(polygons)| && p in Concat(polygons)[k];
        ConcatMembership(polygons, Concat(polygons)[k]);
        var i :| 0 <= i < |polygons| && Concat(polygons)[k] in polygons[i];
        var j :| 0 <= j < |polygons[i]| && polygons[i][j] == Concat(polygons)[k];
      }
      if exists i, j :: 0 <= i < |polygons| && 0 <= j < |polygons[i]| && p in polygons[i][j] {
        var i, j :| 0 <= i < |polygons| && 0 <= j < |polygons[i]| && p in polygons[i][j];
        ConcatMembership(polygons, polygons[i][j]);
      }
    }
  }

  lemma {:induction false} RingsLength(polygons: seq<seq<seq<Position>>>)
    ensures SumLengths(Concat(polygons)) == RingLengthTotal(polygons)
    decreases |polygons|
  {
    if |polygons| > 0 {
      RingsLength(polygons[1..]);
      SumLengthsAppend(polygons[0], Concat(polygons[1..]));
    }
  }

  /** A bounding box, or the empty object `{}`. */
  datatype BoundingBox =
    | Empty
    | Box(minLat: Number, maxLat: Number, minLong: Number, maxLong: Number)

  /** Every position carries at least the ordinates up to `axis`. */
  predicate HasAxis(cs: seq<Position>, axis: nat)
  {
    forall i :: 0 <= i < |cs| ==> axis < |cs[i]|
  }

  /** `cs.reduce((min, curr) => Math.min(min, curr[axis]), acc)`. The result is
      a number exactly when the seed is one and every position has the axis;
      it is then a lower bound of the seed and of every ordinate, and equal to
      one of them. */
  function ReduceMin(cs: seq<Position>, axis: nat, acc: Number): (r: Number)
    ensures r.Real? <==> acc.Real? && HasAxis(cs, axis)
    ensures r.Real? ==> r.value <= acc.value
    ensures r.Real? ==> forall i :: 0 <= i < |cs| ==> r.value <= cs[i][axis]
    ensures r.Real? ==> r.value == acc.value || exists i :: 0 <= i < |cs| && r.value == cs[i][axis]
    decreases |cs|
  {
    if |cs| == 0 then acc
    else
      var r := ReduceMin(cs[1..], axis, Min(acc, Ordinate(cs[0], axis)));
      assert HasAxis(cs, axis) <==> axis < |cs[0]| && HasAxis(cs[1..], axis) by {
        if axis < |cs[0]| && HasAxis(cs[1..], axis) {
          forall i | 0 <= i < |cs| ensures axis < |cs[i]| {
            if i > 0 { assert cs[i] == cs[1..][i - 1]; }
          }
        }
      }
      assert r.Real? ==> forall i :: 1 <= i < |cs| ==> r.value <= cs[i][axis] by {
        if r.Real? {
          forall i | 1 <= i < |cs| ensures r.value <= cs[i][axis] {
            assert cs[i] == cs[1..][i - 1];
          }
        }
      }
      assert r.Real? && r.value != acc.value && r.value != cs[0][axis] ==>
               exists i :: 1 <= i < |cs| && r.value == cs[i][axis] by {
        if r.Real? && r.value != acc.value && r.value != cs[0][axis] {
          var k :| 0 <= k < |cs[1..]| && r.value == cs[1..][k][axis];
          assert cs[k + 1] == cs[1..][k];
        }
      }
      r
  }

  /** `cs.reduce((max, curr) => Math.max(max, curr[axis]), acc)`, the mirror
      image of `ReduceMin`. */
  function ReduceMax(cs: seq<Position>, axis: nat, acc: Number): (r: Number)
    ensures r.Real? <==> acc.Real? && HasAxis(cs, axis)
    ensures r.Real? ==> r.value >= acc.value
    ensures r.Real? ==> forall i :: 0 <= i < |cs| ==> r.value >= cs[i][axis]
    ensures r.Real? ==> r.value == acc.value || exists i :: 0 <= i < |cs| && r.value == cs[i][axis]
    decreases |cs|
  {
    if |cs| == 0 then acc
    else
      var r := ReduceMax(cs[1..], axis, Max(acc, Ordinate(cs[0], axis)));
      assert HasAxis(cs, axis) <==> axis < |cs[0]| && HasAxis(cs[1..], axis) by {
        if axis < |cs[0]| && HasAxis(cs[1..], axis) {
          forall i | 0 <= i < |cs| ensures axis < |cs[i]| {
            if i > 0 { assert cs[i] == cs[1..][i - 1]; }
          }
        }
      }
      assert r.Real? ==> forall i :: 1 <= i < |cs| ==> r.value >= cs[i][axis] by {
        if r.Real? {
          forall i | 1 <= i < |cs| ensures r.value >= cs[i][axis] {
            assert cs[i] == cs[1..][i - 1];
          }
        }
      }
      assert r.Real? && r.value != acc.value && r.value != cs[0][axis] ==>
               exists i :: 1 <= i < |cs| && r.value == cs[i][axis] by {
        if r.Real? && r.value != acc.value && r.value != cs[0][axis] {
          var k :| 0 <= k < |cs[1..]| && r.value == cs[1..][k][axis];
          assert cs[k + 1] == cs[1..][k];
        }
      }
      r
  }

  /** The bounding box of a flat list of positions: `{}` when there is no
      position or the first one is empty, otherwise each bound folded from the
      first position's ordinate. */
  function BoundsOf(cs: seq<Position>): (r: BoundingBox)
    ensures r.Empty? <==> |cs| == 0 || |cs[0]| == 0
    ensures r.Box? ==> (r.minLat.Real? <==> HasAxis(cs, LatAxis))
    ensures r.Box? ==> (r.maxLat.Real? <==> HasAxis(cs, LatAxis))
    ensures r.Box? ==> (r.minLong.Real? <==> HasAxis(cs, LongAxis))
    ensures r.Box? ==> (r.maxLong.Real? <==> HasAxis(cs, LongAxis))
  {
    if |cs| < 1 || |cs[0]| < 1 then Empty
    else
      Box(ReduceMin(cs, LatAxis, Ordinate(cs[0], LatAxis)),
          ReduceMax(cs, LatAxis, Ordinate(cs[0], LatAxis)),
          ReduceMin(cs, LongAxis, Ordinate(cs[0], LongAxis)),
          ReduceMax(cs, LongAxis, Ordinate(cs[0], LongAxis)))
  }

  /** `getBoundingBoxForGeoJsonGeometry`. */
  function BoundingBoxFor(g: Geometry): (r: BoundingBox)
    requires WellTagged(g)
    ensures g.Other? ==> r.Empty?
    ensures r.Empty? <==> |Coordinates(g)| == 0 || |Coordinates(g)[0]| == 0
  {
    BoundsOf(Coordinates(g))
  }

  /** Every position lies inside the box. */
  predicate Encloses(b: BoundingBox, cs: seq<Position>)
    requires b.Box? && b.minLat.Real? && b.maxLat.Real? && b.minLong.Real? && b.maxLong.Real?
    requires HasAxis(cs, LatAxis)
  {
    forall i :: 0 <= i < |cs| ==>
      && b.minLat.value <= cs[i][LatAxis] <= b.maxLat.value
      && b.minLong.value <= cs[i][LongAxis] <= b.maxLong.value
  }

  /** Every bound is the ordinate of some position. */
  predicate Attained(b: BoundingBox, cs: seq<Position>)
    requires b.Box? && b.minLat.Real? && b.maxLat.Real? && b.minLong.Real? && b.maxLong.Real?
    requires HasAxis(cs, LatAxis)
  {
    && (exists i :: 0 <= i < |cs| && b.minLat.value == cs[i][LatAxis])
    && (exists i :: 0 <= i < |cs| && b.maxLat.value == cs[i][LatAxis])
    && (exists i :: 0 <= i < |cs| && b.minLong.value == cs[i][LongAxis])
    && (exists i :: 0 <= i < |cs| && b.maxLong.value == cs[i][LongAxis])
  }

  /** For a non-empty list of `[long, lat]` positions the box is finite, encloses
      every position, has each bound attained, and so is ordered on both axes. */
  lemma BoundsOfIsTight(cs: seq<Position>)
    requires |cs| > 0 && HasAxis(cs, LatAxis)
    ensures var b := BoundsOf(cs);
            && b.Box? && b.minLat.Real? && b.maxLat.Real? && b.minLong.Real? && b.maxLong.Real?
            && Encloses(b, cs) && Attained(b, cs)
            && b.minLat.value <= b.maxLat.value && b.minLong.value <= b.maxLong.value
  {
    assert HasAxis(cs, LongAxis);
    var b := BoundsOf(cs);
    assert b.minLat.value <= cs[0][LatAxis] <= b.maxLat.value;
  }

  /** A position too short for a latitude makes both latitude bounds `NaN`. */
  lemma ShortPositionGivesNaN(cs: seq<Position>, k: nat)
    requires |cs| > 0 && |cs[0]| > 0
    requires k < |cs| && |cs[k]| < 2
    ensures BoundsOf(cs).Box? && BoundsOf(cs).minLat.NaN? && BoundsOf(cs).maxLat.NaN?
  {}

  // ---------------------------------------------------------------------------
  // URL bounds

  /** `getGeoJsonGeometryForUrlBounds`: the bounds become a `LineString` whose
      flattened positions are the bounds themselves. */
  function GeometryForUrlBounds(bounds: seq<Position>): (g: Geometry)
    ensures g.LineString?
    ensures Coordinates(g) == bounds
  {
    LineString(bounds)
  }

  /** The bounding box of URL bounds is taken over the bounds directly: for
      well-formed positions it encloses them all and each bound is attained. */
  lemma UrlBoundsBoundingBox(bounds: seq<Position>)
    requires |bounds| > 0 && HasAxis(bounds, LatAxis)
    ensures var b := BoundingBoxFor(GeometryForUrlBounds(bounds));
            && b.Box? && b.minLat.Real? && b.maxLat.Real? && b.minLong.Real? && b.maxLong.Real?
            && Encloses(b, bounds) && Attained(b, bounds)
  {
    BoundsOfIsTight(bounds);
  }

  /** The two-point bounds `[[-105.10, 39.74], [-105.00, 39.80]]`. */
  lemma UrlBoundsExample()
    ensures BoundingBoxFor(GeometryForUrlBounds([[-105.10, 39.74], [-105.00, 39.80]]))
         == Box(Real(39.74), Real(39.80), Real(-105.10), Real(-105.00))
  {
  }

  // ---------------------------------------------------------------------------
  // Scatter plot

  datatype PointGeometry = PointGeometry(coordinates: Position)

  /** A feature of the collection; its properties are opaque to the mapping. */
  datatype Feature = Feature(geometry: PointGeometry, properties: map<string, string>)

  datatype GeoJsonData = GeoJsonData(typeName: string, features: seq<Feature>)

  datatype Meta = Meta(feature: Feature)

  /** One scatter-plot point. */
  datatype ScatterDatum = ScatterDatum(radius: int, color: seq<int>, position: Position, meta: Meta)

  const ScatterRadius: int := 50
  const ScatterColor: seq<int> := [255, 0, 0]

  /** `mapGeoJsonToScatterPlot`: one point per feature, in order. */
  function MapGeoJsonToScatterPlot(geo: GeoJsonData): (r: seq<ScatterDatum>)
    ensures |r| == |geo.features|
    ensures forall i :: 0 <= i < |r| ==>
              && r[i].radius == 50 && r[i].color == [255, 0, 0]
              && r[i].position == geo.features[i].geometry.coordinates
              && r[i].meta.feature == geo.features[i]
  {
    seq(|geo.features|, i requires 0 <= i < |geo.features| =>
      ScatterDatum(ScatterRadius, ScatterColor, geo.features[i].geometry.coordinates, Meta(geo.features[i])))
  }

  /** The features carried in the points' metadata. */
  function FeaturesOf(points: seq<ScatterDatum>): (fs: seq<Feature>)
    ensures |fs| == |points|
  {
    seq(|points|, i requires 0 <= i < |points| => points[i].meta.feature)
  }

  /** The metadata round-trips the collection's features, and every point sits
      at its feature's position. */
  lemma ScatterPlotRoundTrip(geo: GeoJsonData)
    ensures FeaturesOf(MapGeoJsonToScatterPlot(geo)) == geo.features
    ensures forall i :: 0 <= i < |geo.features| ==>
              MapGeoJsonToScatterPlot(geo)[i].position == FeaturesOf(MapGeoJsonToScatterPlot(geo))[i].geometry.coordinates
  {}
}
