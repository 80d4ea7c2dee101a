/**
 * The frame loop of app_deepsort.py: detections are handed to DeepSORT as
 * `([x1, y1, x2, y2], conf, "person")`; of the tracks it returns, only the
 * confirmed ones with a box are shrunk toward their centre and counted
 * against every zone row.
 */
module DeepSortZones {
  import opened Common
  import opened Geometry
  import opened Zones

  /** A YOLO person detection: corners truncated to integers, and the confidence. */
  datatype Detection = Detection(x1: int, y1: int, x2: int, y2: int, conf: real)

  /** One element of `detections_ds`: `([left, top, right, bottom], confidence, class)`. */
  datatype DsInput = DsInput(ltrb: seq<int>, conf: real, cls: string)

  /** The class name every detection is passed with. */
  const PersonClass: string := "person"

  /** A track as DeepSORT returns it: confirmed or tentative, its ID, and its box if `to_ltrb` gives one. */
  datatype Track = Track(confirmed: bool, trackId: string, ltrb: Option<Rect>)

  /** The list comprehension building `detections_ds`, in detection order. */
  function ToDeepSort(boxes: seq<Detection>): (ds: seq<DsInput>)
    ensures |ds| == |boxes|
    ensures forall i :: 0 <= i < |boxes| ==> ds[i].cls == PersonClass && |ds[i].ltrb| == 4
  {
    seq(|boxes|, i requires 0 <= i < |boxes| =>
      var b := boxes[i];
      DsInput([b.x1, b.y1, b.x2, b.y2], b.conf, PersonClass))
  }

  /** Reads the detections back from DeepSORT input, if every element has that shape. */
  function FromDeepSort(ds: seq<DsInput>): (r: Option<seq<Detection>>)
    ensures r.Some? <==> forall i :: 0 <= i < |ds| ==> |ds[i].ltrb| == 4 && ds[i].cls == PersonClass
    ensures r.Some? ==> |r.value| == |ds|
  {
    if forall i :: 0 <= i < |ds| ==> |ds[i].ltrb| == 4 && ds[i].cls == PersonClass then
      Some(seq(|ds|, i requires 0 <= i < |ds| && |ds[i].ltrb| == 4 =>
        Detection(ds[i].ltrb[0], ds[i].ltrb[1], ds[i].ltrb[2], ds[i].ltrb[3], ds[i].conf)))
    else None
  }

  /** The conversion loses nothing: every corner, confidence and the order come back. */
  lemma DeepSortRoundTrip(boxes: seq<Detection>)
    ensures FromDeepSort(ToDeepSort(boxes)) == Some(boxes)
  {
    var ds := ToDeepSort(boxes);
    assert FromDeepSort(ds).Some?;
    var back := FromDeepSort(ds).value;
    forall i | 0 <= i < |boxes| ensures back[i] == boxes[i] {
      assert ds[i].ltrb == [boxes[i].x1, boxes[i].y1, boxes[i].x2, boxes[i].y2];
    }
    assert back == boxes;
  }

  /** And every well-shaped DeepSORT input is the conversion of exactly the detections read from it. */
  lemma DeepSortFromRoundTrip(ds: seq<DsInput>)
    requires FromDeepSort(ds).Some?
    ensures ToDeepSort(FromDeepSort(ds).value) == ds
  {
    var back := FromDeepSort(ds).value;
    var again := ToDeepSort(back);
    forall i | 0 <= i < |ds| ensures again[i] == ds[i] {
      assert again[i].ltrb == [back[i].x1, back[i].y1, back[i].x2, back[i].y2];
      assert ds[i].ltrb == [ds[i].ltrb[0], ds[i].ltrb[1], ds[i].ltrb[2], ds[i].ltrb[3]];
    }
  }

  /** `int(d * shrink_factor / 2)` with `shrink_factor = 0.6`: three tenths of d, truncated toward zero. */
  function Margin(d: int): (m: int)
    ensures 0 <= d ==> 0 <= 10 * m <= 3 * d < 10 * m + 10
    ensures d < 0 ==> 10 * m - 10 < 3 * d <= 10 * m <= 0
  {
    TruncDiv(3 * d, 10)
  }

  /** The box moved in by the margin of its width on both sides, and of its height at top and bottom. */
  function Shrink(r: Rect): (s: Rect)
    ensures s.x1 - r.x1 == r.x2 - s.x2 && s.y1 - r.y1 == r.y2 - s.y2
  {
    var mx, my := Margin(r.x2 - r.x1), Margin(r.y2 - r.y1);
    Rect(r.x1 + mx, r.y1 + my, r.x2 - mx, r.y2 - my)
  }

  /**
   * For a box of non-negative size the shrunk box lies inside it, has
   * non-negative size, and keeps about 40% of each side: ten times its
   * width is between 4w and 4w + 20.
   */
  lemma ShrinkInside(r: Rect)
    requires r.x1 <= r.x2 && r.y1 <= r.y2
    ensures var s := Shrink(r);
            && r.x1 <= s.x1 <= s.x2 <= r.x2 && r.y1 <= s.y1 <= s.y2 <= r.y2
            && 4 * (r.x2 - r.x1) <= 10 * (s.x2 - s.x1) < 4 * (r.x2 - r.x1) + 20
            && 4 * (r.y2 - r.y1) <= 10 * (s.y2 - s.y1) < 4 * (r.y2 - r.y1) + 20
  {
  }

  /** Only a confirmed track whose box is known is drawn and counted. */
  predicate Qualifies(t: Track) {
    t.confirmed && t.ltrb.Some?
  }

  /** The shrunk boxes of the qualifying tracks, in track order. */
  function TrackRects(tracks: seq<Track>): (rects: seq<Rect>)
    ensures |rects| <= |tracks|
    decreases |tracks|
  {
    if tracks == [] then []
    else
      var front := TrackRects(tracks[..|tracks| - 1]);
      var t := tracks[|tracks| - 1];
      if Qualifies(t) then front + [Shrink(t.ltrb.value)] else front
  }

  /** The confirmed tracks. */
  function ConfirmedCount(tracks: seq<Track>): (k: nat)
    ensures k <= |tracks|
    decreases |tracks|
  {
    if tracks == [] then 0
    else ConfirmedCount(tracks[..|tracks| - 1]) + (if tracks[|tracks| - 1].confirmed then 1 else 0)
  }

  /** There is one counted box per qualifying track, so never more than the confirmed tracks. */
  lemma {:induction false} TrackRectsAtMostConfirmed(tracks: seq<Track>)
    ensures |TrackRects(tracks)| <= ConfirmedCount(tracks)
    decreases |tracks|
  {
    if tracks != [] {
      TrackRectsAtMostConfirmed(tracks[..|tracks| - 1]);
    }
  }

  /**
   * The counting of one frame: counts start at 0 for every zone name, and
   * every track that is confirmed and has a box adds its shrunk box's hits.
   */
  method CountZones(tracks: seq<Track>, zones: seq<Zone>) returns (counts: Counts)
    ensures counts == Occupancy(zones, TrackRects(tracks))
  {
    var count := map n | n in NameSet(zones) :: 0;
    var i := 0;
    while i < |tracks|
      invariant 0 <= i <= |tracks|
      invariant count.Keys == NameSet(zones)
      invariant forall n :: n in count ==> count[n] == Tally(zones, TrackRects(tracks[..i]), n)
    {
      var tr := tracks[i];
      assert tracks[..i + 1][..i] == tracks[..i];
      i := i + 1;
      if !tr.confirmed {
        continue;
      }
      var ltrb := tr.ltrb;
      if ltrb.None? {
        continue;
      }
      var box := Shrink(ltrb.value);
      count := AddHits(count, zones, box);
    }
    assert tracks[..i] == tracks;
    counts := Counts(ZoneNames(zones), count);
  }

  /** A tentative or box-less track leaves every count as it was. */
  lemma UnqualifiedTrackAddsNothing(tracks: seq<Track>, t: Track, zones: seq<Zone>)
    requires !Qualifies(t)
    ensures Occupancy(zones, TrackRects(tracks + [t])) == Occupancy(zones, TrackRects(tracks))
  {
    assert (tracks + [t])[..|tracks|] == tracks;
  }

  /** A qualifying track adds one to the name of every row its shrunk box overlaps. */
  lemma QualifyingTrackAddsHits(tracks: seq<Track>, t: Track, zones: seq<Zone>, n: string)
    requires Qualifies(t)
    ensures Tally(zones, TrackRects(tracks + [t]), n) ==
            Tally(zones, TrackRects(tracks), n) + Hits(zones, Shrink(t.ltrb.value), n)
  {
    assert (tracks + [t])[..|tracks|] == tracks;
  }

  /**
   * With unique zone names, a zone's count is the number of qualifying
   * tracks whose shrunk box overlaps it, and never exceeds the number of
   * confirmed tracks.
   */
  lemma CountAtMostConfirmed(tracks: seq<Track>, zones: seq<Zone>, k: nat)
    requires UniqueNames(zones) && k < |zones|
    ensures var rects := TrackRects(tracks);
            && Occupancy(zones, rects).count[zones[k].name] == Overlapping(rects, zones[k].rect)
            && Occupancy(zones, rects).count[zones[k].name] <= ConfirmedCount(tracks)
  {
    var rects := TrackRects(tracks);
    assert zones[k] in zones;
    TallyOfUnique(zones, rects, k);
    TrackRectsAtMostConfirmed(tracks);
  }

  /** One track can raise several zones: a box over two overlapping zones counts once in each. */
  lemma OneTrackSeveralZones()
    ensures var zones := [Zone("A", Rect(0, 0, 100, 100)), Zone("B", Rect(50, 0, 150, 100))];
            var tracks := [Track(true, "1", Some(Rect(40, 10, 110, 90)))];
            var c := Occupancy(zones, TrackRects(tracks));
            c.names == ["A", "B"] && c.count == map["A" := 1, "B" := 1]
  {
    var zones := [Zone("A", Rect(0, 0, 100, 100)), Zone("B", Rect(50, 0, 150, 100))];
    var tracks := [Track(true, "1", Some(Rect(40, 10, 110, 90)))];
    var rects := TrackRects(tracks);
    assert tracks[..0] == [];
    assert rects == [Rect(61, 34, 89, 66)];
    assert UniqueNames(zones);
    assert NameSet(zones) == {"A", "B"} by {
      assert zones[0] in zones && zones[1] in zones;
    }
    TallyOfUnique(zones, rects, 0);
    TallyOfUnique(zones, rects, 1);
    assert rects[..0] == [];
    ZoneNamesOfDistinct(zones);
  }
}
