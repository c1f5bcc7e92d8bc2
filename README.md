# RouteGuide server core, modelled in Dafny

This project models the domain logic of the RouteGuide gRPC server in
`route/server/main.go`. It covers the three RPC handlers and the `inRange` helper,
over the server's read-only list of saved features:

- **GetFeature**: point lookup. It returns the first saved feature whose
  location equals the query point. If there is none, it returns the fixed
  placeholder `"Test feature"` at latitude 15, longitude 20. It never
  returns an error.
- **inRange**: the rectangle test. The two corners are normalised with
  min/max and the point is tested inclusively on all four sides.
- **ListFeatures**: streams the saved features inside a rectangle, in saved
  order, and stops at the first failing `Send`.
- **RecordRoute**: the client-streaming aggregation loop. It keeps
  `pointCount`, `featureCount`, `distance` and `lastPoint`, and on EOF hands
  a `RouteSummary` to `SendAndClose`.

Files:

- `int32.dfy` (module `Int32`): Go's `int32` and its wrap-around
  arithmetic, which the RecordRoute accumulators use.
- `route_server.dfy` (module `RouteServer`): points, rectangles, features,
  summaries, the three handlers and the `inRange` helper, with their
  specification functions and lemmas.
- The fourth RPC, RouteChat, has no handler in the file. It falls through
  to the embedded `UnimplementedRouteGuideServer`, so it is not modelled.

How the model maps the Go code:

- The only receiver state the handlers read is `savedFeatures`, a slice
  fixed when the server is built. It is passed to each handler as
  `saved: seq<Feature>`.
- GetFeature, ListFeatures and RecordRoute are methods with the same loops
  as the Go code. RecordRoute keeps the nested loop over the saved features.
- The int32 counters wrap exactly as in Go. `Int32.Add` is Go's `+` on
  int32. The summary's fields are therefore `Wrap(...)` of the mathematical
  totals, and `Int32.AddWrapped` shows that wrapping at each step gives the
  same value as wrapping once at the end.
- `inRange` converts int32 to float64 before comparing. That conversion
  is exact, so the model compares the integers directly.
- `calcDistance` (haversine in floating point) is the parameter
  `dist: (Point, Point) -> int32`. Nothing is assumed about it.
- The inbound point stream of RecordRoute is a sequence of points followed
  by a `StreamEnd`: either `Eof` or `Broken(error)`.
- The outcome of ListFeatures' k-th `Send` call is the parameter function
  `send(k, feature)`.
- The outcome of RecordRoute's `SendAndClose` is the parameter
  `closeOutcome`, and the elapsed time is the parameter `elapsed`.

Two facts about the code worth stating:

- ListFeatures lists features with an empty name. Every saved feature
  inside the rectangle is listed.
- The comment at route/server/main.go:45 says "unnamed", but the code
  returns a feature named `"Test feature"`.

## Model

| member | source | states |
|---|---|---|
| `Int32.WrapCongruent` | route/server/main.go:74 | a wrapped int32 differs from the mathematical value by a multiple of 2^32 and equals it when it is in range |
| `Int32.AddWrapped` | route/server/main.go:93-100 | Go's int32 `+=` on an accumulator that tracks total x yields the wrap of x plus the addend, so step-wise int32 sums equal one wrap at the end |
| `RouteServer.GetFeature` | route/server/main.go:38-53 | returns the first saved feature, in saved order, whose location equals the point; if none does, returns the "Test feature" placeholder at (15, 20); the error is always nil |
| `RouteServer.InRange` | route/server/main.go:120-133 | holds exactly when the point's longitude lies between the two corners' longitudes and its latitude between their latitudes, whichever corner is larger, with the bounds included |
| `RouteServer.InRangeIgnoresCornerOrder` | route/server/main.go:121-124 | the test gives the same answer when lo and hi are swapped, or when only their latitudes or only their longitudes are swapped |
| `RouteServer.InRangeIsInclusive` | route/server/main.go:126-132 | all four corners and every point on an edge are inside |
| `RouteServer.InRangeFeatures` | route/server/main.go:61-62 | the in-range subsequence of the saved features is never longer than the saved list |
| `RouteServer.InRangeFeaturesMembers` | route/server/main.go:61-62 | a feature is listed exactly when it is saved and its location is in range |
| `RouteServer.InRangeFeaturesPrefix` | route/server/main.go:61-68 | scanning part of the saved list sends a prefix of the full listing, so a stop part-way has sent a prefix |
| `RouteServer.InRangeFeaturesIgnoreCornerOrder` | route/server/main.go:60-71 | swapping the rectangle's corners lists the same features in the same order |
| `RouteServer.ListFeatures` | route/server/main.go:60-71 | on success exactly the in-range saved features are sent, in saved order, and every send succeeded; on the first failing send its error is returned, what was sent is a prefix of the listing ending with the failed feature, and nothing after it is sent |
| `RouteServer.MatchCount` | route/server/main.go:94-98 | the number of saved features at a point is at most the number of saved features |
| `RouteServer.MatchCountIsMultiplicity` | route/server/main.go:94-98 | the per-point count is the multiplicity of the point among the saved locations, so duplicate saved features count once each |
| `RouteServer.MatchCountPositiveIffLocated` | route/server/main.go:94-98 | a point adds to featureCount exactly when some saved feature is located there; the lookup placeholder is never counted unless a saved feature is at the point |
| `RouteServer.MatchCountAppend` | route/server/main.go:94-98 | counting against a concatenation of feature lists adds the counts |
| `RouteServer.FeatureTotalAppend` | route/server/main.go:93-98 | the feature count of a route is the sum of the feature counts of its parts |
| `RouteServer.FeatureTotalZeroIffNothingLocated` | route/server/main.go:94-98 | the feature count is 0 exactly when no received point is a saved location |
| `RouteServer.PathDistanceNonNegative` | route/server/main.go:99-101 | if every leg's distance is non-negative, the route's total is non-negative |
| `RouteServer.PathDistanceJoin` | route/server/main.go:99-102 | the distance of two joined routes is the sum of their distances plus the leg between them |
| `RouteServer.PathDistanceOfThree` | route/server/main.go:99-102 | three points give exactly dist(p0, p1) + dist(p1, p2) |
| `RouteServer.PathDistanceOfStillRoute` | route/server/main.go:99-102 | a route that stays at one point has distance 0 when the distance from that point to itself is 0 |
| `RouteServer.RecordRoute` | route/server/main.go:73-104 | on EOF it hands SendAndClose a summary with pointCount = number of points received, featureCount = total of the per-point exact matches, distance = sum of dist over consecutive points (0 for fewer than two), each wrapped to int32, and returns SendAndClose's outcome; on any other receive error it returns that error and sends no summary |

## Left out

- Loading the feature list (`loadFeatures`, route/server/main.go:106-118): this covers the file read, JSON decoding and `log.Fatalf`. The saved features are a given sequence.
- `newServer` and `main` (route/server/main.go:135-155): network listening and gRPC registration.
- `calcDistance` and `toRadians` (route/server/main.go:157-180): floating-point trigonometry. The distance is an arbitrary function, so symmetry and dist(p, p) = 0 are not claimed. `PathDistanceOfStillRoute` takes dist(p, p) = 0 as a hypothesis.
- The 500 ms `time.Sleep` before each `Send` in ListFeatures is left out because timing is not modelled.
- RecordRoute's wall-clock timing and the float-to-int32 conversion of the elapsed seconds are left out. The elapsed time is an input.
- `routeNotes` and `mu` are declared but never read or written by any handler, and the file has no RouteChat handler.
- Nil messages are not modelled. This covers a feature without a location, a nil request point, and `proto.Equal` treating nil specially. Feature locations and request points are always present values.
- Unknown protobuf fields are not modelled. `proto.Equal` (route/server/main.go:40, route/server/main.go:95) also compares unknown fields kept from the wire, so in Go a request point that carries unknown fields matches no saved feature: GetFeature returns the placeholder and RecordRoute counts no match for it. The model's point equality compares latitude and longitude only.
- The gRPC transport is abstracted to the outcome of each Send, each Recv and SendAndClose.
- route/client/main.go, features/health/client/main.go and features/health/server/main.go are client plumbing, logging and an echo handler. They are not part of this model.
- mock/user.go and mock/foo_test.go hold interface declarations and a mock test of code not shown. They are not part of this model.
