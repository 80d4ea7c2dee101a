/**
 * The alert of `get_counts`: the first zone, in the dictionary's key order,
 * whose count is above the threshold, or none.
 */
module Alerts {
  import opened Common
  import opened Geometry
  import opened Zones
  import CentroidZones

  /** A zone raises an alert when its count is above this. */
  const AlertThreshold := 10

  /** The zone and the count the alert message reports. */
  datatype Alert = Alert(zone: string, count: int)

  /** Every key in the key order has a count. */
  predicate Keyed(c: Counts) {
    forall i :: 0 <= i < |c.names| ==> c.names[i] in c.count
  }

  /** The first key whose count is above the threshold. */
  function FirstOver(c: Counts): (a: Option<Alert>)
    requires Keyed(c)
    ensures a.None? <==> forall i :: 0 <= i < |c.names| ==> c.count[c.names[i]] <= AlertThreshold
    ensures a.Some? ==> exists i :: && 0 <= i < |c.names| && c.names[i] == a.value.zone
                                    && a.value.count == c.count[c.names[i]] > AlertThreshold
                                    && forall j :: 0 <= j < i ==> c.count[c.names[j]] <= AlertThreshold
    decreases |c.names|
  {
    if c.names == [] then None
    else if c.count[c.names[0]] > AlertThreshold then Some(Alert(c.names[0], c.count[c.names[0]]))
    else
      var rest := c.(names := c.names[1..]);
      var a := FirstOver(rest);
      assert forall i :: 0 < i < |c.names| ==> rest.names[i - 1] == c.names[i];
      if a.Some? then
        var i :| && 0 <= i < |rest.names| && rest.names[i] == a.value.zone
                 && a.value.count == rest.count[rest.names[i]] > AlertThreshold
                 && forall j :: 0 <= j < i ==> rest.count[rest.names[j]] <= AlertThreshold;
        assert c.names[i + 1] == a.value.zone;
        a
      else a
  }

  /** The alert belongs to the earliest key above the threshold. */
  lemma FirstOverAt(c: Counts, i: nat)
    requires Keyed(c) && i < |c.names| && c.count[c.names[i]] > AlertThreshold
    requires forall j :: 0 <= j < i ==> c.count[c.names[j]] <= AlertThreshold
    ensures FirstOver(c) == Some(Alert(c.names[i], c.count[c.names[i]]))
  {
    var a := FirstOver(c).value;
    var k :| && 0 <= k < |c.names| && c.names[k] == a.zone
             && a.count == c.count[c.names[k]] > AlertThreshold
             && forall j :: 0 <= j < k ==> c.count[c.names[j]] <= AlertThreshold;
    assert k == i;
  }

  /** The `for zone, count in ... : if count > 10: ... break` scan. */
  method AlertScan(c: Counts) returns (alert: Option<Alert>)
    requires Keyed(c)
    ensures alert == FirstOver(c)
  {
    alert := None;
    var i := 0;
    while i < |c.names|
      invariant 0 <= i <= |c.names|
      invariant forall j :: 0 <= j < i ==> c.count[c.names[j]] <= AlertThreshold
    {
      var zone := c.names[i];
      var count := c.count[zone];
      if count > AlertThreshold {
        alert := Some(Alert(zone, count));
        FirstOverAt(c, i);
        break;
      }
      i := i + 1;
    }
  }

  /** The dictionary a frame produces has a count for every key, so it can be scanned. */
  lemma OccupancyKeyed(zones: seq<Zone>, rects: seq<Rect>)
    ensures Keyed(Occupancy(zones, rects))
  {
    var c := Occupancy(zones, rects);
    forall i | 0 <= i < |c.names| ensures c.names[i] in c.count {
      assert c.names[i] in ZoneNames(zones);
    }
  }

  /** The two zones of the scenarios below. */
  function TwoZones(): seq<Zone> {
    [Zone("A", Rect(0, 0, 100, 100)), Zone("B", Rect(200, 0, 300, 100))]
  }

  /**
   * Zones A = (0,0)-(100,100) and B = (200,0)-(300,100); one track whose box
   * (x, y, w, h) = (10, 10, 40, 40) is found for its centroid: A counts 1, B
   * counts 0, and there is no alert.
   */
  lemma OneTrackInZoneA()
    ensures var box := Box(10, 10, 40, 40);
            var c := Occupancy(TwoZones(), CentroidZones.TrackRects([Centroid(box)], [box]));
            && c == Counts(["A", "B"], map["A" := 1, "B" := 0])
            && FirstOver(c) == None
  {
    var box := Box(10, 10, 40, 40);
    OneTrackRect(box);
    var rects := [Rect(10, 10, 50, 50)];
    var c := Occupancy(TwoZones(), rects);
    TwoZonesCount(rects);
    assert c.count[c.names[0]] <= AlertThreshold && c.count[c.names[1]] <= AlertThreshold;
  }

  /** The box found for the track is the box itself. */
  lemma OneTrackRect(box: Box)
    requires box == Box(10, 10, 40, 40)
    ensures CentroidZones.TrackRects([Centroid(box)], [box]) == [Rect(10, 10, 50, 50)]
  {
    assert Centroid(box) == Point(30, 30);
    assert CentroidZones.FirstContaining([box], Point(30, 30)) == Some(box);
    assert [Centroid(box)][..0] == [];
  }

  /** The counts of the two zones for one box inside A only. */
  lemma TwoZonesCount(rects: seq<Rect>)
    requires rects == [Rect(10, 10, 50, 50)]
    ensures Occupancy(TwoZones(), rects) == Counts(["A", "B"], map["A" := 1, "B" := 0])
  {
    var zones := TwoZones();
    assert UniqueNames(zones);
    assert NameSet(zones) == {"A", "B"} by {
      assert zones[0] in zones && zones[1] in zones;
    }
    ZoneNamesOfDistinct(zones);
    TallyOfUnique(zones, rects, 0);
    TallyOfUnique(zones, rects, 1);
    assert rects[..0] == [];
  }

  /** n copies of the same track box overlap a zone n times or never. */
  lemma {:induction false} OverlappingCopies(n: nat, r: Rect, zr: Rect)
    ensures Overlapping(seq(n, _ => r), zr) == if Overlaps(zr, r) then n else 0
  {
    if n > 0 {
      OverlappingCopies(n - 1, r, zr);
      assert seq(n, _ => r)[..n - 1] == seq(n - 1, _ => r);
    }
  }

  /**
   * n tracks whose boxes all lie in zone A and not in B: A counts n, B
   * counts 0, and there is an alert for A exactly when n is above 10.
   */
  lemma CrowdInZoneA(n: nat)
    ensures var c := Occupancy(TwoZones(), seq(n, _ => Rect(10, 10, 50, 50)));
            && c == Counts(["A", "B"], map["A" := n, "B" := 0])
            && FirstOver(c) == if n > AlertThreshold then Some(Alert("A", n)) else None
  {
    CrowdCounts(n);
    var c := Counts(["A", "B"], map["A" := n, "B" := 0]);
    if n > AlertThreshold {
      FirstOverAt(c, 0);
    } else {
      assert c.count[c.names[0]] <= AlertThreshold && c.count[c.names[1]] <= AlertThreshold;
    }
  }

  lemma CrowdCounts(n: nat)
    ensures Occupancy(TwoZones(), seq(n, _ => Rect(10, 10, 50, 50))) == Counts(["A", "B"], map["A" := n, "B" := 0])
  {
    var zones := TwoZones();
    var rects := seq(n, _ => Rect(10, 10, 50, 50));
    assert UniqueNames(zones);
    assert NameSet(zones) == {"A", "B"} by {
      assert zones[0] in zones && zones[1] in zones;
    }
    ZoneNamesOfDistinct(zones);
    TallyOfUnique(zones, rects, 0);
    TallyOfUnique(zones, rects, 1);
    OverlappingCopies(n, Rect(10, 10, 50, 50), zones[0].rect);
    OverlappingCopies(n, Rect(10, 10, 50, 50), zones[1].rect);
  }

  /** Exactly the threshold is not enough, and an empty dictionary raises nothing. */
  lemma ThresholdIsStrict()
    ensures FirstOver(Counts(["A"], map["A" := 10])) == None
    ensures FirstOver(Counts([], map[])) == None
  {
    var c := Counts(["A"], map["A" := 10]);
    assert c.count[c.names[0]] <= AlertThreshold;
  }

  /** Key order decides between two zones over the threshold, not their names or counts. */
  lemma KeyOrderDecides()
    ensures FirstOver(Counts(["B", "A"], map["A" := 20, "B" := 11])) == Some(Alert("B", 11))
  {
    FirstOverAt(Counts(["B", "A"], map["A" := 20, "B" := 11]), 0);
  }
}
