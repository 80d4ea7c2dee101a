# Crowd-Count: zone occupancy, tracking and alerts

Crowd-Count is a Flask application. It runs a person detector on each video
frame and follows the detected people from frame to frame. It then counts how
many people stand in each zone drawn on the frame and raises an alert when a
zone is crowded. There are two back ends:

- `app.py` follows people with a hand-written centroid tracker.
- `app_deepsort.py` hands the detections to DeepSORT and counts the tracks it
  returns, after shrinking each box toward its centre.

This project models the part of both back ends that decides the numbers:

- the centroid tracker and its `update` step
- the two per-frame zone-counting loops
- the alert scan of `/get_counts`
- the upload filter `allowed_file`
- the conversion of detections to DeepSORT's input

Modules:

- `Common`: `Option`, and the distinct and strictly ascending predicates on
  sequences.
- `Geometry`: boxes `(x, y, w, h)` and corner rectangles `(x1, y1, x2, y2)`.
  It defines truncating division (Python's `int(a / b)`), the centroid, the
  squared distance and positive-area overlap.
- `Tracking`: the centroid tracker as functions on its state
  (`TrackerState`). The state holds the ID counter `nextObjectID`, the two
  ordered dictionaries `objects` and `disappeared`, and their shared key order
  `ids`. `Updated` is one call of `update`, and `Run` is a sequence of frames.
  The module holds the invariant `Inv` and the lemmas about the greedy
  matching, the aging of unmatched tracks and the registration of unmatched
  detections.
- `CentroidTracking`: the class `CentroidTracker`, with the same fields as
  the Python class. Each of its methods is proved to update the fields
  exactly as the matching `Tracking` function says.
- `Zones`: the occupancy dictionary `{zone_name: count}`, kept as its key
  order and its contents (`Counts`).
  - `Tally` and `Occupancy` are the reference definition of the counts.
  - `AddHits` is the inner loop over zone rows.
- `CentroidZones` models the zone count of `app.py`. Each tracked centroid
  takes the first detection box that encloses it, and that box is counted
  against every zone row.
- `DeepSortZones` models the detection conversion and the counting of
  `app_deepsort.py`: confirmed tracks that have a box, shrunk by 30% of their
  width and height on each side.
- `Alerts`: the first zone, in dictionary order, whose count is above 10.
- `Uploads`: `allowed_file`.

## Model

| member | source | states |
|---|---|---|
| Geometry.TruncDiv | app.py:179-180 | `int(n / d)` for d > 0: the quotient truncated toward zero, bounded on both sides for positive and negative n |
| Geometry.Centroid | app.py:179-180 | the centroid is within half a pixel of the box centre, and lies inside any box of non-negative size |
| Geometry.SqDist | app.py:190 | squared distance is zero exactly for equal points; it orders pairs as the Euclidean norm does |
| Geometry.SqDistIsSquaredNorm | app.py:190 | the squared distance is dx·dx + dy·dy |
| Geometry.Contains | app.py:255 | the centroid-in-box test; FirstContaining and FindBox state its use: the first box it holds for is the one counted |
| Geometry.RectOfBox | app.py:267 | `(x, y, x + w, y + h)`; BoxOfCorners and CornersRoundTrip state that it and the corner-to-box conversion undo each other |
| Geometry.Overlaps | app.py:269-274 | max of the left edges below min of the right edges, and the same vertically, exactly when both rectangles have positive size and their spans cross |
| Geometry.OverlapsIffSharedPixel | app.py:269-274 | the overlap test holds exactly when some pixel belongs to both rectangles |
| Geometry.OverlapsSymmetric | app_deepsort.py:235 | the overlap test does not depend on which rectangle is the zone |
| Geometry.BoxOfCorners | app.py:239-240 | `(x1, y1, x2 - x1, y2 - y1)` is undone by `(x, y, x + w, y + h)` |
| Geometry.CornersRoundTrip | app.py:239-240 | and the other way round: a box comes back unchanged from its corners |
| Tracking.Initial | app.py:154-158 | a fresh tracker has no tracks, counter 1, and satisfies the invariant for any threshold |
| Tracking.Registered | app.py:160-163 | `register`; its meaning is stated by RegisteredStep here and, for any number of calls, by RegisteredEachNew and RegisteredEachKeeps: the new ID holds the centroid with count 0, the counter advances by one, and every other track is untouched |
| Tracking.RegisteredStep | app.py:160-163 | one registration keeps the invariant: the new ID is above every listed ID, so the key order stays ascending |
| Tracking.Deregistered | app.py:165-167 | `deregister`; MissedKeys states its meaning: the ID leaves both dictionaries, and every other track keeps its centroid and count |
| Tracking.Remove | app.py:166-167 | deleting a key drops it from the key order and keeps every other key; an ascending order stays ascending |
| Tracking.Missed | app.py:172-174 | one unmatched frame for one track; MissedKeys states its meaning |
| Tracking.MissedKeys | app.py:172-174 | after one missed frame the dictionaries still share their keys, the counter is kept, the track stays exactly when its raised count is at most maxDisappeared, and every remaining track keeps its centroid |
| Tracking.MissedStep | app.py:172-174 | one missed frame keeps the invariant |
| Tracking.Moved | app.py:199-200 | a matched track takes the detection's centroid with count 0; MovedStep and MatchedRows state its meaning |
| Tracking.MovedStep | app.py:199-200 | moving a track keeps the invariant: the key sets and the key order are unchanged |
| Tracking.MissedEach | app.py:171-174 | aging a list of tracks keeps both dictionaries on the same keys, keeps the counter, and never drops a track outside the list |
| Tracking.MissedEachInv | app.py:171-174 | aging tracks keeps the invariant (keys shared, ascending, below the counter, counts within the threshold) |
| Tracking.MissedEachKeys | app.py:172-174 | a track is gone after aging exactly when it was in the list and its raised count exceeds maxDisappeared |
| Tracking.MissedEachValues | app.py:172 | a track that stays keeps its centroid, and its count is raised by one if it was in the list |
| Tracking.RegisteredEach | app.py:160-163 | registering k centroids advances the counter by k |
| Tracking.RegisteredEachInv | app.py:160-163 | registering keeps the invariant |
| Tracking.RegisteredEachKeys | app.py:161-162 | after registering, the tracks are the old ones plus the IDs from the old counter up to the new counter |
| Tracking.RegisteredEachKeeps | app.py:161-162 | registering leaves every existing track's centroid and count untouched |
| Tracking.RegisteredEachIds | app.py:161-163 | the new IDs are appended to the key order in registration order |
| Tracking.RegisteredEachNew | app.py:161-163 | the k-th registered centroid gets ID nextObjectID + k with miss count 0 |
| Tracking.RegisteredEachBorn | app.py:161-163 | every ID from the old counter on names the centroid registered at that offset |
| Tracking.Nearest | app.py:190-192 | `D.argmin(axis=1)` for one row is a valid detection index |
| Tracking.NearestIsFirstMinimum | app.py:190-192 | no detection is nearer than the one argmin picks, and every earlier detection is strictly farther |
| Tracking.NearestCols | app.py:192 | every row's column is that row's nearest detection |
| Tracking.NearestColsAt | app.py:192 | row i's column is no farther from track i than any detection |
| Tracking.RowMins | app.py:191 | `D.min(axis=1)` holds each row's distance to its chosen nearest detection |
| Tracking.InsertIndex | app.py:191 | inserting one index keeps the list sorted by key and adds exactly that index |
| Tracking.ArgSortBelow | app.py:191 | the indices below n, each exactly once, in nondecreasing key order |
| Tracking.ArgSort | app.py:191 | `argsort` returns a permutation of the rows in nondecreasing order of distance |
| Tracking.Sweep | app.py:194-202 | every committed row takes its own nearest column, and that column is recorded in `usedCols` |
| Tracking.Greedy | app.py:195-202 | the assignment maps rows to their nearest column |
| Tracking.GreedyOneToOne | app.py:196-202 | no column is given to two tracks |
| Tracking.UsedColsCommitted | app.py:202 | `usedCols` is exactly the set of committed columns |
| Tracking.GreedyMaximal | app.py:196-197 | a visited row left unmatched lost its nearest column to a row visited earlier |
| Tracking.GreedyLastStep | app.py:195-202 | visiting one more row keeps earlier matches, and afterwards that row or its column is used |
| Tracking.GreedyRowsFromOrder | app.py:195 | only rows of `rows` are matched |
| Tracking.GreedyCard | app.py:201-202 | `usedRows` and `usedCols` have the same size |
| Tracking.GreedyGrows | app.py:195-202 | rows visited later never take a match away from an earlier row |
| Tracking.FirstRowMatched | app.py:195-202 | the first row in the sorted order is always matched |
| Tracking.ArgsortFirstSmallest | app.py:191 | the first row of an argsort has the smallest key |
| Tracking.ClosestPairMatched | app.py:190-202 | the globally closest track/detection pair is always matched |
| Tracking.Matched | app.py:195-202 | the matching loop keeps the counter, the key order and both key sets |
| Tracking.MatchedRows | app.py:198-200 | after matching, a matched track sits at its detection's centroid with count 0; every other track is unchanged |
| Tracking.MatchedInv | app.py:195-202 | the matching loop keeps the invariant |
| Tracking.Unused | app.py:204-205 | the unused indices are valid indices |
| Tracking.UnusedMembers | app.py:204-205 | `set(range(n)).difference(used)` holds exactly the indices below n that are not used |
| Tracking.UnusedCount | app.py:205 | there are n − \|used\| unused indices |
| Tracking.Pick | app.py:213-214 | the centroids at the listed indices, in order |
| Tracking.UnmatchedIds | app.py:204-208 | the IDs of unmatched rows: distinct, taken from the key order, and containing a row's ID exactly when the row is unmatched |
| Tracking.Centroids | app.py:177-181 | `inputCentroids[i]` is the centroid of `rects[i]` |
| Tracking.ObjectCentroids | app.py:188 | one centroid per track, in key order |
| Tracking.Cols | app.py:192 | `cols` holds one valid detection index per track |
| Tracking.Rows | app.py:191 | `rows` lists valid track rows only |
| Tracking.Lookup | app.py:188 | `objectCentroids` lists the tracks' centroids in key order |
| Tracking.Assignment | app.py:187-202 | the committed pairs match existing rows to existing detections |
| Tracking.UsedCols | app.py:202 | every committed column is in `usedCols` |
| Tracking.Rematched | app.py:195-202 | matching keeps the counter, the key order and the keys |
| Tracking.Aged | app.py:207-211 | aging the unmatched tracks keeps the counter |
| Tracking.Unclaimed | app.py:205-214 | the detections to register are those at the unused columns, ascending |
| Tracking.Updated | app.py:169-216 | `update` keeps both dictionaries on the same keys and never lowers the counter |
| Tracking.UpdatedInv | app.py:169-216 | `update` keeps the invariant |
| Tracking.UpdatedNewIds | app.py:183-185 | a track that appears during `update` has an ID issued by that call |
| Tracking.Run | app.py:242 | frame after frame, the invariant holds and the counter never goes down |
| Tracking.IdsNeverReissued | app.py:163 | a deregistered ID never reappears, however many frames follow |
| Tracking.EmptyFrameAges | app.py:170-175 | an empty frame issues no ID; a track stays exactly when its raised count is within the threshold, and then keeps its centroid |
| Tracking.EmptyFramesAge | app.py:170-175 | over `EmptyFrames(n)`, n frames without detections: after n empty frames a track survives exactly when count + n ≤ maxDisappeared, with count + n and its old centroid |
| Tracking.EmptyFramesClear | app.py:170-175 | maxDisappeared + 1 empty frames in a row clear every track |
| Tracking.FirstFrameRegisters | app.py:183-185 | with no tracks, the i-th detection becomes track nextObjectID + i at its centroid with count 0, and no other track exists |
| Tracking.MatchedTrackFollows | app.py:198-200 | in `update`, a matched track moves to its detection's centroid and its count is reset to 0 |
| Tracking.UnmatchedTrackAges | app.py:207-211 | in `update`, an unmatched track stays exactly when its raised count is within the threshold, keeping its centroid and the raised count |
| Tracking.UnmatchedDetectionsRegistered | app.py:213-214 | `update` registers the unmatched detections on top of the aged tracks; the counter advances by the detections minus the matches |
| Tracking.RegisteredEachSameShape | app.py:213-214 | registering two lists of the same length ends with the same counter and the same track IDs, and leaves the old tracks as they were |
| Tracking.RegisteredInAnyOrder | app.py:204-205 | registering the centroids at the unused columns in ascending order or in any reordering ends with the same counter, track IDs and old tracks; the k-th column visited gets ID nextObjectID + k with count 0 |
| Tracking.UnmatchedDetectionCount | app.py:205 | detections − matches detections are left unmatched |
| CentroidTracking.CentroidTracker.constructor | app.py:154-158 | a new tracker is in the initial state and keeps the given maxDisappeared, 40 when none is given |
| CentroidTracking.AppTracker | app.py:218 | the application's tracker starts in the initial state with maxDisappeared 40 |
| CentroidTracking.CentroidTracker.Register | app.py:160-163 | the fields become `Registered` of the old state |
| CentroidTracking.CentroidTracker.Deregister | app.py:165-167 | the fields become `Deregistered` of the old state |
| CentroidTracking.CentroidTracker.Miss | app.py:172-174 | one missed frame for one track, dropping it past the threshold |
| CentroidTracking.CentroidTracker.MissAll | app.py:171-174 | the loop over `list(self.disappeared.keys())` ages every track in key order |
| CentroidTracking.CentroidTracker.RegisterAll | app.py:184-185 | every input centroid is registered in order |
| CentroidTracking.CentroidTracker.MatchRows | app.py:194-202 | the loop commits the greedy assignment; `usedRows` and `usedCols` come out as the greedy sets |
| CentroidTracking.CentroidTracker.MissUnmatched | app.py:207-211 | the unmatched rows' tracks are aged in ascending row order |
| CentroidTracking.CentroidTracker.MissRow | app.py:208-211 | one pass of the unused-rows loop: the row's track misses the frame exactly when the row was not used, keeping the loop's account of the tracks aged so far |
| CentroidTracking.CentroidTracker.RegisterUnclaimed | app.py:213-214 | the unmatched detections are registered in ascending column order |
| CentroidTracking.CentroidTracker.Update | app.py:169-216 | `update` keeps the invariant, moves the fields exactly as `Updated` says, and returns `objects` |
| CentroidTracking.InputCentroids | app.py:177-181 | the filled buffer holds the centroid of every detection, in order |
| Zones.ZoneNames | app.py:249 | the dictionary's keys are distinct, and they are exactly the rows' names |
| Zones.ZoneNamesOfDistinct | app_deepsort.py:205 | with unique names, the key order is the row order |
| Zones.RepeatedNameAddsNoKey | app.py:249 | a row repeating an earlier name adds no key and moves no key |
| Zones.Hits | app.py:264-275 | one box raises a name at most once per row |
| Zones.HitsAtMostRows | app.py:264-275 | one box raises a name at most once per row with that name, and never raises a name no row has |
| Zones.RowsNamedOfDistinct | app.py:249 | with unique names, a name has at most one row |
| Zones.Occupancy | app.py:249-275 | the counts have the rows' names as keys, in first-occurrence order |
| Zones.TallyBound | app.py:251-275 | a count is at most (track boxes) × (rows with that name) |
| Zones.TallyAtMostTracks | app.py:251-275 | with unique names, no zone counts more people than there are track boxes |
| Zones.TallyUnnamed | app.py:275 | a name no row has is never counted |
| Zones.TallyAppend | app.py:251 | counting splits over the tracks, so counts add up frame part by frame part |
| Zones.Overlapping | app.py:274 | the number of boxes overlapping a rectangle is at most the number of boxes |
| Zones.HitsOfUnique | app.py:264-275 | with unique names, a box adds one to a zone exactly when it overlaps the zone |
| Zones.TallyOfUnique | app.py:251-275 | with unique names, a zone's count is the number of track boxes overlapping it |
| Zones.AddHits | app.py:264-275 | the zone loop for one box keeps the keys and adds each name's hits |
| CentroidZones.FirstContaining | app.py:253-257 | no box is found exactly when no box encloses the centroid; otherwise the first enclosing box is found |
| CentroidZones.FindBox | app.py:253-257 | the `for ... break` search returns the first enclosing box |
| CentroidZones.FirstContainingAt | app.py:254-257 | the box found is the one at the first enclosing index |
| CentroidZones.TrackRects | app.py:251-259 | at most one counted box per track |
| CentroidZones.CountZones | app.py:249-275 | the frame's dictionary equals the reference counts over the tracks' boxes |
| CentroidZones.NoTracksAllZero | app.py:249 | with no tracks every zone name has the count 0 |
| CentroidZones.BoxlessTrackAddsNothing | app.py:258 | a track that no box encloses changes no count |
| CentroidZones.BoxedTrackAddsHits | app.py:258-275 | a track whose box is found adds that box's hits to each name |
| CentroidZones.CountIsOverlappingTracks | app.py:249-275 | with unique names, a zone's count is the number of tracks whose box overlaps it, at most the number of tracks |
| DeepSortZones.ToDeepSort | app_deepsort.py:208 | one `([x1, y1, x2, y2], conf, "person")` per detection, in order |
| DeepSortZones.FromDeepSort | app_deepsort.py:208 | the input reads back exactly when every element has four corners and the class "person" |
| DeepSortZones.DeepSortRoundTrip | app_deepsort.py:208 | converting and reading back gives every detection unchanged |
| DeepSortZones.DeepSortFromRoundTrip | app_deepsort.py:208 | every well-formed DeepSORT input is the conversion of the detections read from it |
| DeepSortZones.Margin | app_deepsort.py:223-226 | `int(d * shrink_factor / 2)` with `shrink_factor = 0.6` (line 180) is 3d/10 truncated toward zero |
| DeepSortZones.Shrink | app_deepsort.py:221-226 | the box moves in by the same margin on opposite sides |
| DeepSortZones.ShrinkInside | app_deepsort.py:221-226 | a box of non-negative size shrinks to a box inside it that keeps about 40% of each side |
| DeepSortZones.Qualifies | app_deepsort.py:212-217 | a track is counted only when confirmed and with a box; UnqualifiedTrackAddsNothing and QualifyingTrackAddsHits state its meaning |
| DeepSortZones.TrackRects | app_deepsort.py:211-226 | at most one counted box per track |
| DeepSortZones.ConfirmedCount | app_deepsort.py:212 | at most one confirmed track per track |
| DeepSortZones.TrackRectsAtMostConfirmed | app_deepsort.py:211-217 | counted boxes never outnumber the confirmed tracks |
| DeepSortZones.CountZones | app_deepsort.py:205-236 | the frame's dictionary equals the reference counts over the shrunk boxes of the qualifying tracks |
| DeepSortZones.UnqualifiedTrackAddsNothing | app_deepsort.py:212-217 | a tentative track, or one with no box, changes no count |
| DeepSortZones.QualifyingTrackAddsHits | app_deepsort.py:218-236 | a qualifying track adds its shrunk box's hits to each name |
| DeepSortZones.CountAtMostConfirmed | app_deepsort.py:205-236 | with unique names, a zone's count is the number of qualifying tracks whose shrunk box overlaps it, at most the confirmed tracks |
| DeepSortZones.OneTrackSeveralZones | app_deepsort.py:233-236 | one track over two overlapping zones counts once in each |
| Alerts.FirstOver | app.py:354-358 | no alert exactly when every count is at most 10; otherwise the alert names the first key above 10, with its count |
| Alerts.FirstOverAt | app_deepsort.py:303-307 | the alert belongs to the earliest key above the threshold |
| Alerts.AlertScan | app.py:354-358 | the `for ... break` scan returns the first key above the threshold |
| Alerts.OccupancyKeyed | app.py:249 | every key of a frame's dictionary has a count, so the scan is defined on it |
| Alerts.OneTrackInZoneA | app.py:249-275 | one person in zone A: counts {A: 1, B: 0}, no alert |
| Alerts.OverlappingCopies | app.py:274 | n copies of a box overlap a zone n times or never |
| Alerts.CrowdInZoneA | app.py:249-275 | n people in zone A give {A: n, B: 0}, with an alert for A exactly when n > 10 |
| Alerts.CrowdCounts | app.py:249-275 | the counts for n people in zone A |
| Alerts.ThresholdIsStrict | app_deepsort.py:305 | exactly 10 raises no alert, and neither does an empty dictionary |
| Alerts.KeyOrderDecides | app_deepsort.py:304-307 | with two zones above the threshold, the earlier key wins even when the later one has the larger count |
| Uploads.LowerChar | app.py:127 | `str.lower` changes a character into a-z only when it is A-Z or the Kelvin sign |
| Uploads.Lower | app.py:127 | lower-casing keeps the length and maps every character |
| Uploads.AfterLastDot | app.py:127 | `rsplit(".", 1)[-1]` is a dot-free suffix that directly follows the last dot |
| Uploads.LastDotSplit | app_deepsort.py:145 | stem + "." + a dot-free extension splits back to that extension |
| Uploads.AllowedFile | app.py:126-127 | `allowed_file`; AllowedFileIff states its meaning |
| Uploads.AllowedFileIff | app.py:126-127 | a name is allowed exactly when it is a stem, a dot and a dot-free extension that lower-cases to mp4, avi, mov or mkv |
| Uploads.AllowedFileSplit | app_deepsort.py:144-145 | an allowed name splits at its last dot into a stem and a video extension |
| Uploads.ExtensionInitials | app.py:11 | every allowed extension has three letters and starts with m or a |
| Uploads.LowerOfThree | app.py:127 | lower-casing a three-letter extension lower-cases each letter |
| Uploads.UpperCaseAllowed | app.py:127 | "clip.MP4" is allowed |
| Uploads.LastExtensionAllowed | app.py:127 | "archive.tar.mkv" is allowed: only the last extension counts |
| Uploads.LastExtensionRefused | app_deepsort.py:145 | "video.mp4.txt" is refused |
| Uploads.DotRequired | app.py:127 | "mp4" (no dot) and "movie." (empty extension) are refused |
| Uploads.KelvinSignIsK | app.py:127 | "clip.mKv" is allowed, because `str.lower` maps the Kelvin sign to k |

## Left out

- The web layer is not modelled: Flask routes, JWT login, MySQL queries, the
  camera and file I/O, and frame drawing with `cv2.rectangle`/`putText`. The
  zone rows and the detections are parameters.
- The YOLO detector and DeepSORT's own tracking are external code. Detections
  and DeepSORT's tracks (`is_confirmed()`, `to_ltrb()`) are inputs.
- Concurrency and the global `zone_counts_global` shared between the stream
  and `/get_counts` are not modelled. The alert scan is given the dictionary
  one frame produced.
- The no-op `if not zone_counts_global: zone_counts_global = {}` (app.py:351-352)
  is not modelled.
- The alert message text is not built. `Alert` carries the zone and the count
  the message reports.
- `int()` of YOLO's floating-point corners (`map(int, ...)`) is not modelled.
  Detections and DeepSORT boxes arrive as integers.
- `Tracking.Nearest` measures squared integer distance, not `np.linalg.norm`.
  For integer points the two order pairs identically. Float rounding of the
  norm is not modelled.
- `Tracking.ArgSort` is a stable sort. numpy's default `argsort` may order
  equal distances either way. `IsArgsort` and the greedy lemmas hold for any
  sorted order, but `Updated` fixes the stable one.
- `Tracking.Unused` lists the unused rows and columns in ascending order,
  and `Updated` visits them in that order. Python does not promise that
  order. CPython's `set.difference` keeps the ascending layout of
  `set(range(n))` only when it copies the set, which it does when
  `n >> 2 > len(used)`. Otherwise it builds a fresh, smaller table in which
  order follows the hash modulo the table size. With 9 detections of which
  7 are matched, `{7, 8}` sits in an 8-slot table, and column 8 is
  registered before column 7. `Tracking.RegisteredInAnyOrder` covers every
  order of the unused columns: the counter, the track IDs and the old tracks
  come out the same, and the k-th column visited gets ID
  nextObjectID + k. `Tracking.UnmatchedDetectionsRegistered` shows `update`
  registers exactly the centroids at those columns. The order of unused rows
  is not modelled beyond ascending. Each unmatched row ages its own track, so
  the order changes no result, but the model does not prove that.
- `DeepSortZones.Margin`: `int(w * 0.6 / 2)` is modelled as 3w/10 truncated
  toward zero. This is exact when the float product rounds to the right
  side, which holds for pixel-sized widths. Float rounding for huge
  magnitudes is not modelled.
- `DeepSortZones.ShrinkInside` covers boxes of non-negative size only. A
  box with negative size is still shrunk and counted as the code does, but
  nothing is proved about where it lands.
- `Zones.TallyAtMostTracks`, `CentroidZones.CountIsOverlappingTracks` and
  `DeepSortZones.CountAtMostConfirmed` bound the counts only for unique zone
  names. With duplicate names, every row still adds to the one shared key;
  `Zones.TallyBound` covers that case.
- `Uploads.Lower` maps character to character and keeps the length;
  `str.lower` does not always. U+0130 (capital I with dot above) lowers to
  "i" followed by the combining dot U+0307. `Uploads.LowerChar` leaves that
  character unchanged, and lower-cases only A-Z and the Kelvin sign. The
  verdict is the same either way: the combining mark keeps such an
  extension out of mp4, avi, mov and mkv, and the unchanged character
  keeps it out in the model.
- The alert scan follows the dictionary's insertion order, which is
  zone-row order, not zone-name order.
- Zone corners are taken to be integers. They come from the browser's
  `offsetX`/`offsetY` through MySQL, and the column type is not part of
  this model.
