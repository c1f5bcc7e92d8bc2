/**
 The RouteGuide service's domain logic: point lookup (GetFeature), the
 rectangle test (inRange), the range listing (ListFeatures) and the route
 aggregation (RecordRoute), over a feature list fixed when the server is
 built. The server's `savedFeatures` field is the only receiver state these
 handlers read, so each takes it as the parameter `saved`.
 */
module RouteServer {
  import opened Int32

  datatype Option<T> = None | Some(value: T)

  /** An error value as returned by a Go handler or by a stream's Send/Recv. */
  datatype Error = Error(message: string)

  /** A location in degrees multiplied by 10^7. Equality compares latitude and longitude. */
  datatype Point = Point(latitude: int32, longitude: int32)

  /** Two opposite corners, in no particular order. */
  datatype Rectangle = Rectangle(lo: Point, hi: Point)

  datatype Feature = Feature(name: string, location: Point)

  datatype RouteSummary = RouteSummary(pointCount: int32, featureCount: int32, distance: int32, elapsedTime: int32)

  /** How the inbound point stream of RecordRoute ends after its last point. */
  datatype StreamEnd = Eof | Broken(error: Error)

  /** What GetFeature answers when no saved feature is at the point. */
  const Placeholder: Feature := Feature("Test feature", Point(15, 20))

  // ---------------------------------------------------------------------
  // Point lookup

  ghost predicate Located(saved: seq<Feature>, point: Point)
  {
    exists i :: 0 <= i < |saved| && saved[i].location == point
  }

  /**
   The first saved feature located exactly at `point`, or the placeholder
   when there is none. The handler never reports an error.
   */
  method GetFeature(saved: seq<Feature>, point: Point) returns (feature: Feature, err: Option<Error>)
    ensures err == None
    ensures Located(saved, point) ==>
      exists i :: 0 <= i < |saved| && feature == saved[i] && feature.location == point &&
        forall j :: 0 <= j < i ==> saved[j].location != point
    ensures !Located(saved, point) ==> feature == Placeholder
  {
    for i := 0 to |saved|
      invariant forall j :: 0 <= j < i ==> saved[j].location != point
    {
      if saved[i].location == point {
        return saved[i], None;
      }
    }
    return Placeholder, None;
  }

  // ---------------------------------------------------------------------
  // Rectangle containment

  function Min(a: int, b: int): int { if a <= b then a else b }

  function Max(a: int, b: int): int { if a <= b then b else a }

  /** `x` lies on the closed segment whose two ends are `a` and `b`, in either order. */
  predicate Between(x: int, a: int, b: int)
  {
    a <= x <= b || b <= x <= a
  }

  /**
   The rectangle test: corners normalised with min/max, all four sides
   inclusive. Go converts the int32 coordinates to float64, which is exact,
   so the comparisons are those of the integers.
   */
  function InRange(point: Point, rect: Rectangle): (inside: bool)
    ensures inside <==>
      Between(point.longitude as int, rect.lo.longitude as int, rect.hi.longitude as int) &&
      Between(point.latitude as int, rect.lo.latitude as int, rect.hi.latitude as int)
  {
    var left := Min(rect.lo.longitude as int, rect.hi.longitude as int);
    var right := Max(rect.lo.longitude as int, rect.hi.longitude as int);
    var top := Max(rect.lo.latitude as int, rect.hi.latitude as int);
    var bottom := Min(rect.lo.latitude as int, rect.hi.latitude as int);
    left <= point.longitude as int <= right && bottom <= point.latitude as int <= top
  }

  /** Which corner is called lo and which hi does not matter, nor does the order within either axis. */
  lemma InRangeIgnoresCornerOrder(point: Point, rect: Rectangle)
    ensures InRange(point, Rectangle(rect.hi, rect.lo)) == InRange(point, rect)
    ensures InRange(point, Rectangle(Point(rect.hi.latitude, rect.lo.longitude),
                                     Point(rect.lo.latitude, rect.hi.longitude))) == InRange(point, rect)
    ensures InRange(point, Rectangle(Point(rect.lo.latitude, rect.hi.longitude),
                                     Point(rect.hi.latitude, rect.lo.longitude))) == InRange(point, rect)
  {
  }

  /** All four corners are inside, and so is every point on an edge. */
  lemma InRangeIsInclusive(rect: Rectangle, latitude: int32, longitude: int32)
    ensures InRange(rect.lo, rect) && InRange(rect.hi, rect)
    ensures InRange(Point(rect.lo.latitude, rect.hi.longitude), rect)
    ensures InRange(Point(rect.hi.latitude, rect.lo.longitude), rect)
    ensures Between(longitude as int, rect.lo.longitude as int, rect.hi.longitude as int) ==>
      InRange(Point(rect.lo.latitude, longitude), rect) && InRange(Point(rect.hi.latitude, longitude), rect)
    ensures Between(latitude as int, rect.lo.latitude as int, rect.hi.latitude as int) ==>
      InRange(Point(latitude, rect.lo.longitude), rect) && InRange(Point(latitude, rect.hi.longitude), rect)
  {
  }

  // ---------------------------------------------------------------------
  // Range listing

  /** The saved features inside `rect`, in saved order. */
  function InRangeFeatures(saved: seq<Feature>, rect: Rectangle): (r: seq<Feature>)
    ensures |r| <= |saved|
  {
    if saved == [] then []
    else
      var last := saved[|saved| - 1];
      var rest := InRangeFeatures(saved[..|saved| - 1], rect);
      if InRange(last.location, rect) then rest + [last] else rest
  }

  /** The listing holds exactly the saved features that are inside the rectangle. */
  lemma {:induction false} InRangeFeaturesMembers(saved: seq<Feature>, rect: Rectangle, f: Feature)
    ensures f in InRangeFeatures(saved, rect) <==> f in saved && InRange(f.location, rect)
  {
    if saved != [] {
      var shorter := saved[..|saved| - 1];
      InRangeFeaturesMembers(shorter, rect, f);
      assert saved == shorter + [saved[|saved| - 1]];
    }
  }

  /** Listing a prefix of the saved features yields a prefix of the listing. */
  lemma {:induction false} InRangeFeaturesPrefix(saved: seq<Feature>, rect: Rectangle, n: nat)
    requires n <= |saved|
    ensures InRangeFeatures(saved[..n], rect) <= InRangeFeatures(saved, rect)
    decreases |saved| - n
  {
    if n < |saved| {
      var shorter := saved[..|saved| - 1];
      assert shorter[..n] == saved[..n];
      InRangeFeaturesPrefix(shorter, rect, n);
    } else {
      assert saved[..n] == saved;
    }
  }

  /** Swapping the rectangle's corners lists the same features in the same order. */
  lemma {:induction false} InRangeFeaturesIgnoreCornerOrder(saved: seq<Feature>, rect: Rectangle)
    ensures InRangeFeatures(saved, Rectangle(rect.hi, rect.lo)) == InRangeFeatures(saved, rect)
  {
    if saved != [] {
      InRangeFeaturesIgnoreCornerOrder(saved[..|saved| - 1], rect);
      InRangeIgnoresCornerOrder(saved[|saved| - 1].location, rect);
    }
  }

  /**
   Streams the saved features inside `rect`, in saved order. `send(k, f)` is
   the outcome of the k-th call of the stream's Send, with feature `f`.
   `attempted` holds every feature handed to Send; on the first failing Send
   the handler returns its error and sends nothing more.
   */
  method ListFeatures(saved: seq<Feature>, rect: Rectangle, send: (nat, Feature) -> Option<Error>)
    returns (attempted: seq<Feature>, err: Option<Error>)
    ensures attempted <= InRangeFeatures(saved, rect)
    ensures forall k :: 0 <= k < |attempted| - 1 ==> send(k, attempted[k]) == None
    ensures err == None ==>
      attempted == InRangeFeatures(saved, rect) &&
      (attempted != [] ==> send(|attempted| - 1, attempted[|attempted| - 1]) == None)
    ensures err != None ==>
      attempted != [] && err == send(|attempted| - 1, attempted[|attempted| - 1])
  {
    attempted := [];
    for i := 0 to |saved|
      invariant attempted == InRangeFeatures(saved[..i], rect)
      invariant forall k :: 0 <= k < |attempted| ==> send(k, attempted[k]) == None
    {
      var feature := saved[i];
      assert saved[..i + 1][..i] == saved[..i];
      if InRange(feature.location, rect) {
        var outcome := send(|attempted|, feature);
        attempted := attempted + [feature];
        if outcome != None {
          InRangeFeaturesPrefix(saved, rect, i + 1);
          return attempted, outcome;
        }
      }
    }
    assert saved[..|saved|] == saved;
    return attempted, None;
  }

  // ---------------------------------------------------------------------
  // Route aggregation

  /** The locations of the saved features, in order. */
  function Locations(saved: seq<Feature>): seq<Point>
  {
    seq(|saved|, i requires 0 <= i < |saved| => saved[i].location)
  }

  /** How many saved features are located exactly at `point`. */
  function MatchCount(saved: seq<Feature>, point: Point): (n: nat)
    ensures n <= |saved|
  {
    if saved == [] then 0
    else MatchCount(saved[..|saved| - 1], point) + (if saved[|saved| - 1].location == point then 1 else 0)
  }

  /** The count is the multiplicity of `point` among the saved locations: duplicates count once each. */
  lemma {:induction false} MatchCountIsMultiplicity(saved: seq<Feature>, point: Point)
    ensures MatchCount(saved, point) == multiset(Locations(saved))[point]
  {
    if saved != [] {
      var shorter := saved[..|saved| - 1];
      MatchCountIsMultiplicity(shorter, point);
      assert Locations(saved) == Locations(shorter) + [saved[|saved| - 1].location];
    }
  }

  /** A point contributes to the count exactly when some saved feature is there, so the placeholder never does by itself. */
  lemma {:induction false} MatchCountPositiveIffLocated(saved: seq<Feature>, point: Point)
    ensures MatchCount(saved, point) > 0 <==> Located(saved, point)
  {
    if saved != [] {
      var shorter := saved[..|saved| - 1];
      MatchCountPositiveIffLocated(shorter, point);
      if Located(saved, point) && saved[|saved| - 1].location != point {
        var i :| 0 <= i < |saved| && saved[i].location == point;
        assert shorter[i].location == point;
      }
      if Located(shorter, point) {
        var i :| 0 <= i < |shorter| && shorter[i].location == point;
        assert saved[i].location == point;
      }
    }
  }

  /** Counting over a concatenated feature list adds the counts. */
  lemma {:induction false} MatchCountAppend(a: seq<Feature>, b: seq<Feature>, point: Point)
    ensures MatchCount(a + b, point) == MatchCount(a, point) + MatchCount(b, point)
    decreases |b|
  {
    if b != [] {
      var shorter := b[..|b| - 1];
      assert (a + b)[..|a + b| - 1] == a + shorter;
      MatchCountAppend(a, shorter, point);
    } else {
      assert a + b == a;
    }
  }

  /** The feature count of a route: matches summed over every received point. */
  function FeatureTotal(saved: seq<Feature>, points: seq<Point>): nat
  {
    if points == [] then 0
    else FeatureTotal(saved, points[..|points| - 1]) + MatchCount(saved, points[|points| - 1])
  }

  /** Counting over one more saved feature. */
  lemma MatchCountStep(saved: seq<Feature>, point: Point, j: nat)
    requires j < |saved|
    ensures MatchCount(saved[..j + 1], point) ==
      MatchCount(saved[..j], point) + if saved[j].location == point then 1 else 0
  {
    assert saved[..j + 1][..j] == saved[..j];
  }

  /** The feature count after one more received point. */
  lemma FeatureTotalStep(saved: seq<Feature>, points: seq<Point>, i: nat)
    requires i < |points|
    ensures FeatureTotal(saved, points[..i + 1]) == FeatureTotal(saved, points[..i]) + MatchCount(saved, points[i])
  {
    assert points[..i + 1][..i] == points[..i];
  }

  /** The feature count of a route is the sum of the counts of its parts. */
  lemma {:induction false} FeatureTotalAppend(saved: seq<Feature>, a: seq<Point>, b: seq<Point>)
    ensures FeatureTotal(saved, a + b) == FeatureTotal(saved, a) + FeatureTotal(saved, b)
    decreases |b|
  {
    if b != [] {
      var shorter := b[..|b| - 1];
      assert (a + b)[..|a + b| - 1] == a + shorter;
      FeatureTotalAppend(saved, a, shorter);
    } else {
      assert a + b == a;
    }
  }

  /** A route none of whose points is a saved location has feature count 0. */
  lemma {:induction false} FeatureTotalZeroIffNothingLocated(saved: seq<Feature>, points: seq<Point>)
    ensures FeatureTotal(saved, points) == 0 <==> forall i :: 0 <= i < |points| ==> !Located(saved, points[i])
  {
    if points != [] {
      var shorter := points[..|points| - 1];
      FeatureTotalZeroIffNothingLocated(saved, shorter);
      MatchCountPositiveIffLocated(saved, points[|points| - 1]);
      assert forall i :: 0 <= i < |shorter| ==> shorter[i] == points[i];
    }
  }

  /** The distance of a route: `dist` summed over consecutive received points. */
  function PathDistance(dist: (Point, Point) -> int32, points: seq<Point>): int
  {
    if |points| <= 1 then 0
    else PathDistance(dist, points[..|points| - 1]) + dist(points[|points| - 2], points[|points| - 1]) as int
  }

  /** A route whose every leg is non-negative has a non-negative distance. */
  lemma {:induction false} PathDistanceNonNegative(dist: (Point, Point) -> int32, points: seq<Point>)
    requires forall i :: 0 <= i < |points| - 1 ==> dist(points[i], points[i + 1]) >= 0
    ensures PathDistance(dist, points) >= 0
  {
    if |points| > 1 {
      var shorter := points[..|points| - 1];
      assert forall i :: 0 <= i < |shorter| ==> shorter[i] == points[i];
      PathDistanceNonNegative(dist, shorter);
      assert dist(points[|points| - 2], points[|points| - 1]) >= 0;
    }
  }

  /** The distance after one more received point: the new leg, if there is a previous point. */
  lemma PathDistanceStep(dist: (Point, Point) -> int32, points: seq<Point>, i: nat)
    requires i < |points|
    ensures PathDistance(dist, points[..i + 1]) ==
      PathDistance(dist, points[..i]) + if i == 0 then 0 else dist(points[i - 1], points[i]) as int
  {
    assert points[..i + 1][..i] == points[..i];
  }

  /** Joining two routes adds their distances and the leg between them. */
  lemma {:induction false} PathDistanceJoin(dist: (Point, Point) -> int32, a: seq<Point>, b: seq<Point>)
    requires a != [] && b != []
    ensures PathDistance(dist, a + b) ==
      PathDistance(dist, a) + dist(a[|a| - 1], b[0]) as int + PathDistance(dist, b)
    decreases |b|
  {
    if |b| == 1 {
      assert (a + b)[..|a + b| - 1] == a;
    } else {
      var shorter := b[..|b| - 1];
      assert (a + b)[..|a + b| - 1] == a + shorter;
      PathDistanceJoin(dist, a, shorter);
    }
  }

  /** A route of three points covers exactly its two legs. */
  lemma PathDistanceOfThree(dist: (Point, Point) -> int32, p0: Point, p1: Point, p2: Point)
    ensures PathDistance(dist, [p0, p1, p2]) == dist(p0, p1) as int + dist(p1, p2) as int
  {
    assert [p0, p1][..1] == [p0];
    assert PathDistance(dist, [p0, p1]) == dist(p0, p1) as int;
    assert [p0, p1, p2][..2] == [p0, p1];
  }

  /** A route that never moves covers no distance, provided `dist` of a point to itself is 0. */
  lemma {:induction false} PathDistanceOfStillRoute(dist: (Point, Point) -> int32, p: Point, points: seq<Point>)
    requires dist(p, p) == 0
    requires forall i :: 0 <= i < |points| ==> points[i] == p
    ensures PathDistance(dist, points) == 0
  {
    if |points| > 1 {
      var shorter := points[..|points| - 1];
      PathDistanceOfStillRoute(dist, p, shorter);
      assert dist(points[|points| - 2], points[|points| - 1]) == dist(p, p);
    }
  }

  /** One turn of RecordRoute's outer loop keeps the wrapped distance exact. */
  lemma DistanceStep(dist: (Point, Point) -> int32, points: seq<Point>, i: nat, distance: int32)
    requires i < |points|
    requires distance == Wrap(PathDistance(dist, points[..i]))
    ensures (if i == 0 then distance else Add(distance, dist(points[i - 1], points[i]))) ==
      Wrap(PathDistance(dist, points[..i + 1]))
  {
    PathDistanceStep(dist, points, i);
    if i > 0 {
      AddWrapped(PathDistance(dist, points[..i]), dist(points[i - 1], points[i]));
    }
  }

  /**
   Consumes the inbound stream: the points received, in order, then `end`.
   On EOF it hands the summary to SendAndClose and returns that call's
   outcome `closeOutcome`; on any other receive error it returns the error
   and sends no summary. The counters are Go int32s and wrap around.
   `dist` stands for the haversine calculator and `elapsed` for the
   int32 seconds between the start and the end of the call.
   */
  method RecordRoute(saved: seq<Feature>, points: seq<Point>, end: StreamEnd,
                     dist: (Point, Point) -> int32, elapsed: int32, closeOutcome: Option<Error>)
    returns (summary: Option<RouteSummary>, err: Option<Error>)
    ensures end == Eof ==>
      summary == Some(RouteSummary(Wrap(|points|), Wrap(FeatureTotal(saved, points)),
                                   Wrap(PathDistance(dist, points)), elapsed)) &&
      err == closeOutcome
    ensures end.Broken? ==> summary == None && err == Some(end.error)
  {
    var pointCount, featureCount, distance: int32 := 0, 0, 0;
    var lastPoint: Option<Point> := None;
    var i := 0;
    while i < |points|
      invariant 0 <= i <= |points|
      invariant pointCount == Wrap(i)
      invariant featureCount == Wrap(FeatureTotal(saved, points[..i]))
      invariant distance == Wrap(PathDistance(dist, points[..i]))
      invariant lastPoint == if i == 0 then None else Some(points[i - 1])
    {
      var point := points[i];
      AddWrapped(i, 1);
      pointCount := Add(pointCount, 1);
      ghost var before := FeatureTotal(saved, points[..i]);
      for j := 0 to |saved|
        invariant featureCount == Wrap(before + MatchCount(saved[..j], point))
      {
        MatchCountStep(saved, point, j);
        if saved[j].location == point {
          AddWrapped(before + MatchCount(saved[..j], point), 1);
          featureCount := Add(featureCount, 1);
        }
      }
      assert saved[..|saved|] == saved;
      FeatureTotalStep(saved, points, i);
      DistanceStep(dist, points, i, distance);
      if lastPoint.Some? {
        distance := Add(distance, dist(lastPoint.value, point));
      }
      lastPoint := Some(point);
      i := i + 1;
    }
    assert points[..i] == points;
    match end
    case Eof =>
      summary, err := Some(RouteSummary(pointCount, featureCount, distance, elapsed)), closeOutcome;
    case Broken(e) =>
      summary, err := None, Some(e);
  }
}
