# RouteScope core in Dafny

RouteScope polls Google, TomTom and Ola Maps for the same set of routes every fifteen
minutes and stores what each provider returned. It also checks whether TomTom and Ola
suggest a physically different route from Google's. This project models the three pieces
of logic that decide what gets stored, and proves properties about them.

- `polyline.dfy` (module `Polyline`) is the Google Encoded Polyline codec of
  `src/routeMatcher.js`, on points in E5 integer units (degrees times 10^5).
  - Encoding: zig-zag each delta, then emit 5-bit groups, least significant first, each
    offset by 63, with 0x20 on every group but the last.
  - Decoding: running sums of the decoded deltas.
  - The source's loops are the methods `EncodeValue`, `EncodePolyline`, `ReadGroup` and
    `DecodePolyline`. Each is proved equal to a recursive definition (`ValueChars`,
    `Encoded`, `ReadValue`, `Decoded`), and the round trip is proved about those definitions.
  - Decoding never fails. Reading past the end of the string contributes digit 0 and stops
    the group, as `charCodeAt` returning NaN does in the source.
- `route_matcher.dfy` (module `RouteMatcher`) covers `samplePoints` and `compareRoutes`.
  - The distance between two points is a parameter `dist`. Its two assumptions, non-negative
    and zero on equal points, are stated only where a property needs them.
  - `Math.round(i * step)` is computed exactly, as a rational rounded half up.
- `poller.dfy` (module `Poller`) covers one `pollOnce` cycle of `src/poller.js`.
  - Each settled fetch becomes a provider result.
  - TomTom and Ola are annotated with their divergence from Google.
  - One record per route is appended to that route's store.
  - The store of `src/storage.js` is the class `RecordStore`. It maps each route id to the
    contents of that route's JSON file. An unreadable file reads as no records, so the next
    append replaces it with a file that holds only the new record, and the earlier records
    are lost.
- `wrappers.dfy` holds `Option`, which stands for `null` / `undefined`.

## Model

| member | source | states |
|---|---|---|
| Polyline.ZigZag | src/routeMatcher.js:50 | the sign of the delta goes to the lowest bit, and its magnitude (a negative delta's one's complement) to the bits above it |
| Polyline.UnZigZag | src/routeMatcher.js:24 | the lowest bit gives the sign of the decoded delta, and the delta's size is at most the zig-zag value |
| Polyline.UnZigZagZigZag | src/routeMatcher.js:50 | un-zig-zagging the zig-zag of any integer gives it back |
| Polyline.ZigZagUnZigZag | src/routeMatcher.js:24 | zig-zagging the decoder's signed value gives back every natural, so the two maps are inverse bijections |
| Polyline.EncodeValue | src/routeMatcher.js:48-58 | the loop emits exactly the group characters `ValueChars` of the zig-zagged delta |
| Polyline.EncodePolyline | src/routeMatcher.js:60-69 | the loop over points, with its running previous point, produces `Encoded(points)` |
| Polyline.ReadGroup | src/routeMatcher.js:16-23 | the do-while loop reads exactly the value `ReadValue` assigns to the group at `start`, including a group cut off by the end of the string; it consumes at least one character and stops where that group ends |
| Polyline.DecodePolyline | src/routeMatcher.js:9-41 | the decoding loop with its running sums produces `Decoded(encoded)` for every string whose groups are at most six characters long |
| Polyline.ReadValue | src/routeMatcher.js:19-23 | reading a group consumes at least one character unless the string is already empty |
| Polyline.ReadValueChars | src/routeMatcher.js:19-23 | reading the groups written for a value gives back that value and leaves the following characters unread |
| Polyline.DecodeEncodeFrom | src/routeMatcher.js:15-38 | decoding an encoding followed by any text gives the points, then the decoding of that text continued from the last point |
| Polyline.RoundTrip | src/routeMatcher.js:9-70 | for points whose zig-zagged deltas are below 2^30, the encoding never needs a 32-bit shift past 25 bits when decoded, and decoding it gives back exactly the points |
| Polyline.EncodeDecodeEncode | src/routeMatcher.js:9-70 | re-encoding a decoded encoding reproduces it character for character |
| Polyline.ReadValueBound | src/routeMatcher.js:19-23 | a group of at most k characters reads as a value below 32^k |
| Polyline.DecodedDeltasFit | src/routeMatcher.js:15-38 | every delta between the points decoded from a string with groups of at most six characters has a zig-zag value below 2^30 |
| Polyline.DecodeEncodeDecode | src/routeMatcher.js:9-70 | for a string with groups of at most six characters, decoding, re-encoding and decoding again gives the points of the first decoding |
| Polyline.NonCanonicalInput | src/routeMatcher.js:9-70 | decoding then encoding is not the identity: `_?` decodes to the origin, which encodes as `??` |
| Polyline.PaddedDecode | src/routeMatcher.js:15-38 | `_?` decodes to the origin alone |
| Polyline.ZeroLatitudeOnly | src/routeMatcher.js:19-33 | a string holding one zero latitude group and nothing more decodes to the previous point once more: the missing longitude reads past the end as 0 |
| Polyline.ReadPoint | src/routeMatcher.js:15-38 | one pass of the decoding loop, a latitude group then a longitude group, consumes at least one character unless the string is empty, so the loop ends |
| Polyline.ReadPointChars | src/routeMatcher.js:15-38 | one pass of the decoding loop over a point's two groups gives back that point and leaves the following characters unread |
| Polyline.EncodeStep | src/routeMatcher.js:61-68 | the encoding from the i-th point on is that point's latitude groups, its longitude groups, then the encoding of the rest; the deltas of that point fit |
| Polyline.EmptyPolyline | src/routeMatcher.js:60-69 | the empty path encodes to "" and "" decodes to the empty path |
| Polyline.DecodedEmpty | src/routeMatcher.js:15-38 | a string decodes to no points exactly when it is empty |
| Polyline.ValueCharsShape | src/routeMatcher.js:52-56 | every emitted character lies between '?' and '~'; every character but the last has 0x20 set after subtracting 63, and the last does not |
| Polyline.ValueCharsShort | src/routeMatcher.js:52-55 | a zig-zag value below 2^30 takes at most six groups |
| Polyline.EncodeFromGroupsFit | src/routeMatcher.js:21 | encoding deltas that fit never produces a group the decoder's 32-bit `<<` would wrap |
| Polyline.EncodeFromPrintable | src/routeMatcher.js:53-56 | every character of any encoding lies in 63..126 |
| Polyline.EncodeFromAppend | src/routeMatcher.js:61-68 | one more point appends that point's latitude groups and then its longitude groups, each a delta from the point before it |
| Polyline.EncodedAppend | src/routeMatcher.js:61-68 | the same for a whole encoding: the first delta is taken from (0,0), later ones from the previous point |
| Polyline.TruncatedAfterLatitude | src/routeMatcher.js:29-33 | a final point whose longitude groups are missing still decodes, with a longitude delta of 0 |
| Polyline.ReferenceExample | src/routeMatcher.js:44-70 | (38.5, -120.2), (40.7, -120.95) encodes to the format's published example string: `_p~iF`, `~ps`, a vertical bar, `U_ulLnnqC` |
| Polyline.FirstLatitudeGroups | src/routeMatcher.js:48-58 | 38.5 encodes as `_p~iF` |
| Polyline.FirstLongitudeGroups | src/routeMatcher.js:48-58 | -120.2 encodes as `~ps`, a vertical bar, then `U` |
| Polyline.SecondLatitudeGroups | src/routeMatcher.js:48-58 | the delta 2.2 encodes as `_ulL` |
| Polyline.SecondLongitudeGroups | src/routeMatcher.js:48-58 | the delta -0.75 encodes as `nnqC` |
| RouteMatcher.SampleIndex | src/routeMatcher.js:78-80 | `Math.round(i * step)` is always an index of the path |
| RouteMatcher.Sample | src/routeMatcher.js:75-83 | the sample has the path's length when the path has at most `n` points, and exactly `n` elements otherwise |
| RouteMatcher.SamplePoints | src/routeMatcher.js:75-83 | the loop returns `Sample(points, n)` |
| RouteMatcher.SampleIndices | src/routeMatcher.js:78-81 | for a path longer than `n`, the sampled indices start at 0, end at the last index and strictly increase |
| RouteMatcher.SampleMembers | src/routeMatcher.js:76-81 | a short path is returned unchanged, and every sampled point is a point of the path |
| RouteMatcher.Nearest | src/routeMatcher.js:123-127 | `minDist` stays Infinity exactly when path A has no points |
| RouteMatcher.NearestIsMinimum | src/routeMatcher.js:123-127 | `minDist` is at most the distance to every point of A and equals the distance to one of them |
| RouteMatcher.LargestIsMaximum | src/routeMatcher.js:120-129 | `maxDeviation` is at least 0 and at least every per-sample minimum, and is 0 or one of them |
| RouteMatcher.DeviationsNonNegative | src/routeMatcher.js:122-130 | with a non-negative distance every per-sample minimum is non-negative |
| RouteMatcher.AverageAtMostLargest | src/routeMatcher.js:128-132 | the average of non-negative minima lies between 0 and their maximum |
| RouteMatcher.MeasureBounds | src/routeMatcher.js:119-132 | before rounding, 0 <= average <= maximum |
| RouteMatcher.RoundHalfUp | src/routeMatcher.js:135-136 | `Math.round` gives the integer k with k - 0.5 <= x < k + 0.5, so halves round up |
| RouteMatcher.Decide | src/routeMatcher.js:132-137 | the reported values are the unrounded average and maximum, each rounded to the nearest integer with halves up; the route is different exactly when the unrounded average or maximum exceeds its threshold |
| RouteMatcher.Compared | src/routeMatcher.js:106-142 | the result is null exactly when either polyline is the empty string |
| RouteMatcher.CompareRoutes | src/routeMatcher.js:106-142 | the nested loops return `Compared`: None when either polyline decodes to no points, otherwise the rounded average and maximum and the threshold decision, with defaults 12 / 500 / 1000 |
| RouteMatcher.ReportBounds | src/routeMatcher.js:134-136 | the reported rounded values satisfy 0 <= avg <= max |
| RouteMatcher.DecisionRule | src/routeMatcher.js:137 | `isDifferentRoute` holds exactly when the unrounded average exceeds its threshold or some sampled point of B is farther than the max threshold from every point of A |
| RouteMatcher.IdenticalRoutes | src/routeMatcher.js:106-138 | comparing a non-empty polyline with itself reports 0, 0 and the same route |
| RouteMatcher.ContainedDeviation | src/routeMatcher.js:117-132 | a one-point path lying on the start of a three-point path deviates by 0 on average and at most |
| RouteMatcher.SwappedDeviation | src/routeMatcher.js:117-132 | the three-point path measured against the one-point path deviates by 1000 on average and 2000 at most |
| RouteMatcher.OneSided | src/routeMatcher.js:103-137 | only B is sampled against A, so swapping the arguments turns "same route, 0 / 0" into "different route, 1000 / 2000" |
| Poller.ResultOf | src/poller.js:24-37 | a fulfilled outcome is passed through unchanged; a rejection becomes an error carrying its message, or "Unknown error" when the message is missing or empty, so the error is never empty |
| Poller.TruthyPolyline | src/poller.js:40-54 | `x.polyline` as a condition: an error entry has none; a present, non-empty polyline is returned as it is, and nothing else is |
| Poller.Annotated | src/poller.js:40-66 | the divergence step changes nothing but `routeDivergence` and leaves an error entry as it is |
| Poller.RecordFor | src/poller.js:24-75 | a record carries the poll's id and timestamp and the route's id; Google's entry is its result exactly as fetched; TomTom and Ola are data exactly when their fetch was fulfilled, and an error entry otherwise |
| Poller.AssembleRecord | src/poller.js:16-75 | the statements of the loop body, which mutate the TomTom and Ola results in place, build `RecordFor(route, poll)` |
| Poller.Lookup | src/storage.js:16-25 | readRecords: a parsed file gives its records; any non-empty result comes from a parsed file; a missing or unreadable file gives none |
| Poller.RecordStore.Records | src/storage.js:16-25 | the same reading of the store's own files |
| Poller.RecordStore.Append | src/storage.js:27-32 | the route's records become the old ones, or none when the file is missing or unreadable, followed by the new record; every other route's file is unchanged |
| Poller.PollOnce | src/poller.js:15-77 | after the loop, the store is the old store with the records of all routes appended one at a time, in configuration order |
| Poller.DivergenceRule | src/poller.js:41-57 | a divergence is attached exactly when Google's and the candidate's polylines are both present and non-empty; it is compareRoutes' report on the two, with `comparedTo` "google" |
| Poller.NoReferenceNoComparison | src/poller.js:40 | when Google's fetch failed or its polyline is missing or empty, TomTom and Ola are stored as fetched |
| Poller.ProvidersIndependent | src/poller.js:41-65 | TomTom's entry does not depend on Ola's fetch, and Ola's does not depend on TomTom's |
| Poller.SameGeometry | src/poller.js:41-44 | a TomTom result with Google's own non-empty polyline is stored with the divergence (google, 0, 0, same route) |
| Poller.AppendAllRecords | src/storage.js:16-32 | a sequence of appends keeps each route's earlier records and adds that route's new records after them, in order; a route that receives nothing keeps its file exactly; a route that receives something ends with a readable file |
| Poller.PollRecordsInOrder | src/poller.js:15-75 | a cycle produces one record per configured route, the i-th for the i-th route |
| Poller.NotConfigured | src/poller.js:15-77 | a route that is not configured gets no record |
| Poller.OneRecordPerRoute | src/poller.js:15-77 | a route whose id no other route shares gets exactly one record, its own |
| Poller.CycleEffect | src/poller.js:15-77 | with distinct route ids, every configured route's records grow by exactly this cycle's record, and every other route's file is untouched |

## Left out

- Floating point.
  - Coordinates are E5 integers. The scaling `Math.round(value * 1e5)` and the division by 1e5 are not modelled.
  - Because `encodePolyline` rounds differences of unscaled coordinates, the source's own round trip is only approximate. The round trip proved here is the integer-level one.
  - `haversineDistance` is replaced by the parameter `dist`.
  - Sums, averages and comparisons are exact reals. `Math.round` is rounding half up on reals.
- Polyline.DecodePolyline: requires every group of the input to be at most six characters long. Longer groups can make the source's 32-bit `<<` wrap: a seventh digit of 0 or 1 at shift 30 still fits, a larger one does not, and an eighth group is shifted by 35, which JavaScript takes modulo 32. None of that is modelled.
- Polyline.DecodePolyline: a Dafny `char` is a whole Unicode scalar value, while `charCodeAt` reads UTF-16 code units. A character above U+FFFF is one character here and two code units (a surrogate pair) in the source, so such strings decode differently. Characters above U+FFFF are not modelled; every character the encoder emits lies in 63..126.
- Polyline.EncodeValue: requires zig-zag values below 2^30. That is the bound under which every value fits in six groups, which the round trip needs. It is stronger than the encoder itself needs: its `v << 1` stays in 32-bit range for every zig-zag value below 2^31, and `0x20 | (v & 0x1f)` always lies between 32 and 63. It excludes no real coordinate delta, which is at most 36,000,000 in E5 units.
- Polyline.EncodePolyline: carries the same precondition for every delta.
- Polyline.Decoded: the definition the round trip is stated about uses unbounded integers. It agrees with the loop wherever the loop's precondition holds.
- RouteMatcher.CompareRoutes: requires both polylines to satisfy the decoder's precondition.
- RouteMatcher.Sample, RouteMatcher.SamplePoints and RouteMatcher.CompareRoutes: require a sample count of at least 2, so the source's behaviour for smaller counts is not modelled.
  - With 1 and a path B of one point, `samplePoints` returns B and a normal report comes back.
  - With 1 and a longer B, the index is `Math.round(0 * Infinity)`, which is NaN. The sampled point is then undefined, `haversineDistance` throws a TypeError, and the `catch` returns null.
  - With 0, the sampling loop never runs. The report then has an average of NaN, a maximum of 0 and `isDifferentRoute` false.
- With a sample count of at least 2, the `catch` of compareRoutes is unreachable, because decoding a string never throws. The model has no exception path.
- Options other than the defaults are only passed through to `Compared`; the poller always uses the defaults.
- Concurrency and timing: `Promise.allSettled`, `setInterval`/`startPoller` and the poll interval are left out. The three outcomes of a route are inputs, already settled. That all three settle before the record is built is therefore an assumption, not a proved property.
- `uuidv4` and `Date.now` are left out. The record id and the timestamp are inputs of each route's poll. The timestamp is taken before the fetches, as at line 16.
- `console.log` and `console.warn` are left out.
- The provider adapters are HTTP calls and field renaming, and are left out. Their results are the `ProviderData` of a fulfilled outcome. TomTom reports a route without points as polyline "", which `TruthyPolyline` treats as absent.
- Poller.PollOnce: promises a record for every route only when no `appendRecord` throws. In the source, a write failure, or a file that parses to something other than an array (so that `records.push` fails), throws out of the loop at line 77. The routes after it then get no record in that cycle. The model has no such exception path, and a store file is either an array of records or unreadable.
- Poller.PollOnce and Poller.AssembleRecord: require every fulfilled polyline to satisfy the decoder's six-character group bound (`PollDecodable`), because they call `CompareRoutes`.
- Poller.DivergenceRule: assumes the fetched candidate carries no `routeDivergence` of its own, which no adapter sets.
- File I/O of `src/storage.js` is left out: directory creation, paths, JSON text and write failures. A file is either a parsed array of records or unreadable.
- The Express server, the dashboard and the bootstrap code are not part of this model. The dashboard's copy of the decoder is the same function as `decodePolyline`.
