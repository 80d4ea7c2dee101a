/**
 * The zone count of app.py's frame loop: after `tracker.update`, every
 * tracked centroid takes the first detection box of the frame that encloses
 * it (borders included), and that box is counted against every zone row.
 */
module CentroidZones {
  import opened Common
  import opened Geometry
  import opened Zones

  /** The first box of the frame that encloses `c`, if there is one. */
  function FirstContaining(boxes: seq<Box>, c: Point): (r: Option<Box>)
    ensures r.None? <==> forall i :: 0 <= i < |boxes| ==> !Contains(boxes[i], c)
    ensures r.Some? ==> exists i :: && 0 <= i < |boxes| && boxes[i] == r.value && Contains(boxes[i], c)
                                    && forall j :: 0 <= j < i ==> !Contains(boxes[j], c)
    decreases |boxes|
  {
    if boxes == [] then None
    else if Contains(boxes[0], c) then Some(boxes[0])
    else
      var r := FirstContaining(boxes[1..], c);
      assert forall i :: 0 < i < |boxes| ==> boxes[1..][i - 1] == boxes[i];
      if r.Some? then
        var i :| && 0 <= i < |boxes[1..]| && boxes[1..][i] == r.value && Contains(boxes[1..][i], c)
                 && forall j :: 0 <= j < i ==> !Contains(boxes[1..][j], c);
        assert boxes[i + 1] == r.value;
        r
      else r
  }

  /** The inner `for ... break` search for the track's box. */
  method FindBox(boxes: seq<Box>, c: Point) returns (matched: Option<Box>)
    ensures matched == FirstContaining(boxes, c)
  {
    matched := None;
    var i := 0;
    while i < |boxes|
      invariant 0 <= i <= |boxes|
      invariant forall j :: 0 <= j < i ==> !Contains(boxes[j], c)
    {
      if Contains(boxes[i], c) {
        matched := Some(boxes[i]);
        FirstContainingAt(boxes, c, i);
        return;
      }
      i := i + 1;
    }
  }

  /** The first enclosing box is the one at the first index that encloses the centroid. */
  lemma FirstContainingAt(boxes: seq<Box>, c: Point, i: nat)
    requires i < |boxes| && Contains(boxes[i], c)
    requires forall j :: 0 <= j < i ==> !Contains(boxes[j], c)
    ensures FirstContaining(boxes, c) == Some(boxes[i])
  {
    var r := FirstContaining(boxes, c);
    var k :| && 0 <= k < |boxes| && boxes[k] == r.value && Contains(boxes[k], c)
             && forall j :: 0 <= j < k ==> !Contains(boxes[j], c);
    assert k == i;
  }

  /** The rectangles counted for the tracks, in `objects` order: box-less tracks give none. */
  function TrackRects(centroids: seq<Point>, boxes: seq<Box>): (rects: seq<Rect>)
    ensures |rects| <= |centroids|
    decreases |centroids|
  {
    if centroids == [] then []
    else
      var front := TrackRects(centroids[..|centroids| - 1], boxes);
      match FirstContaining(boxes, centroids[|centroids| - 1])
      case None => front
      case Some(b) => front + [RectOfBox(b)]
  }

  /**
   * The counting of one frame: `{z['zone_name']: 0 for z in zones}`, then for
   * every tracked centroid, in order, its box (if any) against every zone.
   */
  method CountZones(centroids: seq<Point>, boxes: seq<Box>, zones: seq<Zone>) returns (counts: Counts)
    ensures counts == Occupancy(zones, TrackRects(centroids, boxes))
  {
    var count := map n | n in NameSet(zones) :: 0;
    var i := 0;
    while i < |centroids|
      invariant 0 <= i <= |centroids|
      invariant count.Keys == NameSet(zones)
      invariant forall n :: n in count ==> count[n] == Tally(zones, TrackRects(centroids[..i], boxes), n)
    {
      assert centroids[..i + 1][..i] == centroids[..i];
      var matched := FindBox(boxes, centroids[i]);
      if matched.Some? {
        var b := matched.value;
        count := AddHits(count, zones, RectOfBox(b));
      }
      i := i + 1;
    }
    assert centroids[..i] == centroids;
    counts := Counts(ZoneNames(zones), count);
  }

  /** Every zone name has an entry; with no tracks all of them are 0. */
  lemma NoTracksAllZero(boxes: seq<Box>, zones: seq<Zone>)
    ensures var c := Occupancy(zones, TrackRects([], boxes));
            c.count.Keys == NameSet(zones) && forall n :: n in c.count ==> c.count[n] == 0
  {
  }

  /** A track no box encloses leaves every count as it was. */
  lemma BoxlessTrackAddsNothing(centroids: seq<Point>, c: Point, boxes: seq<Box>, zones: seq<Zone>)
    requires forall i :: 0 <= i < |boxes| ==> !Contains(boxes[i], c)
    ensures Occupancy(zones, TrackRects(centroids + [c], boxes)) == Occupancy(zones, TrackRects(centroids, boxes))
  {
    assert (centroids + [c])[..|centroids|] == centroids;
  }

  /** A track whose box is found adds that box's hits to every name, and nothing else. */
  lemma BoxedTrackAddsHits(centroids: seq<Point>, c: Point, boxes: seq<Box>, zones: seq<Zone>, n: string)
    requires FirstContaining(boxes, c).Some?
    ensures var b := FirstContaining(boxes, c).value;
            Tally(zones, TrackRects(centroids + [c], boxes), n) ==
            Tally(zones, TrackRects(centroids, boxes), n) + Hits(zones, RectOfBox(b), n)
  {
    assert (centroids + [c])[..|centroids|] == centroids;
  }

  /**
   * With unique zone names, a zone's count is the number of tracks whose box
   * overlaps it, and so never exceeds the number of tracks.
   */
  lemma CountIsOverlappingTracks(centroids: seq<Point>, boxes: seq<Box>, zones: seq<Zone>, k: nat)
    requires UniqueNames(zones) && k < |zones|
    ensures var rects := TrackRects(centroids, boxes);
            && Occupancy(zones, rects).count[zones[k].name] == Overlapping(rects, zones[k].rect)
            && Occupancy(zones, rects).count[zones[k].name] <= |centroids|
  {
    var rects := TrackRects(centroids, boxes);
    assert zones[k] in zones;
    TallyOfUnique(zones, rects, k);
  }
}
