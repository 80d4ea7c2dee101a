/**
 * The per-frame occupancy dictionary both back ends build: one entry per zone
 * name, starting at 0, raised by one for every (zone row, track box) pair
 * whose intersection has positive width and height. The dictionary is kept
 * as its key order (`names`) and its contents (`count`).
 */
module Zones {
  import opened Common
  import opened Geometry

  /** One row of `zones_data`: the zone's name and its corners. */
  datatype Zone = Zone(name: string, rect: Rect)

  /** A Python dict from zone name to count: the keys in insertion order, and the mapping. */
  datatype Counts = Counts(names: seq<string>, count: map<string, int>)

  /** Every name some row carries. */
  function NameSet(zones: seq<Zone>): set<string> {
    set z | z in zones :: z.name
  }

  /** No two rows share a name. */
  predicate UniqueNames(zones: seq<Zone>) {
    forall i, j :: 0 <= i < j < |zones| ==> zones[i].name != zones[j].name
  }

  /**
   * The key order of `{z['zone_name']: 0 for z in zones}`: every name once,
   * in the order of the row where it first occurs.
   */
  function ZoneNames(zones: seq<Zone>): (names: seq<string>)
    ensures Distinct(names)
    ensures forall n :: n in names <==> n in NameSet(zones)
    decreases |zones|
  {
    if zones == [] then []
    else
      var front := zones[..|zones| - 1];
      var names := ZoneNames(front);
      var n := zones[|zones| - 1].name;
      assert forall m :: m in NameSet(zones) <==> m in NameSet(front) || m == n by {
        assert zones == front + [zones[|zones| - 1]];
      }
      if n in names then names
      else
        assert Distinct(names + [n]) by {
          forall i, j | 0 <= i < j < |names| + 1 ensures (names + [n])[i] != (names + [n])[j] {
            if j == |names| { assert names[i] in names; }
          }
        }
        names + [n]
  }

  /** When no two rows share a name, the dictionary's keys are the rows' names in row order. */
  lemma {:induction false} ZoneNamesOfDistinct(zones: seq<Zone>)
    requires UniqueNames(zones)
    ensures ZoneNames(zones) == seq(|zones|, i requires 0 <= i < |zones| => zones[i].name)
    decreases |zones|
  {
    if zones != [] {
      var front := zones[..|zones| - 1];
      ZoneNamesOfDistinct(front);
    }
  }

  /** A later row with an already seen name adds no key and does not move the existing ones. */
  lemma RepeatedNameAddsNoKey(zones: seq<Zone>, z: Zone)
    requires z.name in NameSet(zones)
    ensures ZoneNames(zones + [z]) == ZoneNames(zones)
  {
    assert (zones + [z])[..|zones|] == zones;
  }

  /** How many rows named `n` the rectangle `r` overlaps. */
  function Hits(zones: seq<Zone>, r: Rect, n: string): (k: nat)
    ensures k <= |zones|
    decreases |zones|
  {
    if zones == [] then 0
    else
      var z := zones[|zones| - 1];
      Hits(zones[..|zones| - 1], r, n) + (if z.name == n && Overlaps(z.rect, r) then 1 else 0)
  }

  /** The rows named `n`. */
  function RowsNamed(zones: seq<Zone>, n: string): (k: nat)
    decreases |zones|
  {
    if zones == [] then 0
    else RowsNamed(zones[..|zones| - 1], n) + (if zones[|zones| - 1].name == n then 1 else 0)
  }

  /** A box adds at most one to a name per row carrying it: at most one when names are unique. */
  lemma {:induction false} HitsAtMostRows(zones: seq<Zone>, r: Rect, n: string)
    ensures Hits(zones, r, n) <= RowsNamed(zones, n)
    ensures n !in NameSet(zones) ==> Hits(zones, r, n) == 0
    decreases |zones|
  {
    if zones != [] {
      var front := zones[..|zones| - 1];
      HitsAtMostRows(front, r, n);
      assert zones == front + [zones[|zones| - 1]];
      assert NameSet(front) <= NameSet(zones);
    }
  }

  /** With no two rows sharing a name, a name has at most one row. */
  lemma {:induction false} RowsNamedOfDistinct(zones: seq<Zone>, n: string)
    requires UniqueNames(zones)
    ensures RowsNamed(zones, n) <= 1
    decreases |zones|
  {
    if zones != [] {
      var front := zones[..|zones| - 1];
      RowsNamedOfDistinct(front, n);
      if zones[|zones| - 1].name == n && RowsNamed(front, n) == 1 {
        RowsNamedSomewhere(front, n);
      }
    }
  }

  lemma {:induction false} RowsNamedSomewhere(zones: seq<Zone>, n: string)
    requires RowsNamed(zones, n) > 0
    ensures exists i :: 0 <= i < |zones| && zones[i].name == n
    decreases |zones|
  {
    var front := zones[..|zones| - 1];
    if zones[|zones| - 1].name != n {
      RowsNamedSomewhere(front, n);
      var i :| 0 <= i < |front| && front[i].name == n;
      assert zones[i] == front[i];
    }
  }

  /**
   * The reference count: over every track box, the number of rows named `n`
   * that it overlaps.
   */
  function Tally(zones: seq<Zone>, rects: seq<Rect>, n: string): (k: nat)
    decreases |rects|
  {
    if rects == [] then 0
    else Tally(zones, rects[..|rects| - 1], n) + Hits(zones, rects[|rects| - 1], n)
  }

  /** The dictionary after every track box has been counted. */
  function Occupancy(zones: seq<Zone>, rects: seq<Rect>): (c: Counts)
    ensures c.names == ZoneNames(zones) && c.count.Keys == NameSet(zones)
  {
    Counts(ZoneNames(zones), map n | n in NameSet(zones) :: Tally(zones, rects, n))
  }

  /** Each count is at most the number of track boxes times the rows sharing that name. */
  lemma {:induction false} TallyBound(zones: seq<Zone>, rects: seq<Rect>, n: string)
    ensures Tally(zones, rects, n) <= |rects| * RowsNamed(zones, n)
    decreases |rects|
  {
    if rects != [] {
      var k, rows := |rects| - 1, RowsNamed(zones, n);
      TallyBound(zones, rects[..k], n);
      HitsAtMostRows(zones, rects[k], n);
      MulSucc(k, rows);
    }
  }

  lemma MulSucc(k: nat, m: nat)
    ensures k * m + m == (k + 1) * m
  {
  }

  /** With unique zone names, no count exceeds the number of track boxes. */
  lemma TallyAtMostTracks(zones: seq<Zone>, rects: seq<Rect>, n: string)
    requires UniqueNames(zones)
    ensures Tally(zones, rects, n) <= |rects|
  {
    TallyBound(zones, rects, n);
    RowsNamedOfDistinct(zones, n);
    assert |rects| * RowsNamed(zones, n) <= |rects|;
  }

  /** A name no row carries is never counted. */
  lemma {:induction false} TallyUnnamed(zones: seq<Zone>, rects: seq<Rect>, n: string)
    requires n !in NameSet(zones)
    ensures Tally(zones, rects, n) == 0
    decreases |rects|
  {
    if rects != [] {
      TallyUnnamed(zones, rects[..|rects| - 1], n);
      HitsAtMostRows(zones, rects[|rects| - 1], n);
    }
  }

  /** Counting splits over the track boxes: the order in which tracks are visited does not matter. */
  lemma {:induction false} TallyAppend(zones: seq<Zone>, a: seq<Rect>, b: seq<Rect>, n: string)
    ensures Tally(zones, a + b, n) == Tally(zones, a, n) + Tally(zones, b, n)
    decreases |b|
  {
    if b == [] {
      assert a + b == a;
    } else {
      var front := b[..|b| - 1];
      TallyAppend(zones, a, front, n);
      assert (a + b)[..|a + b| - 1] == a + front;
    }
  }

  /** How many of the track boxes overlap the rectangle `zr`. */
  function Overlapping(rects: seq<Rect>, zr: Rect): (k: nat)
    ensures k <= |rects|
    decreases |rects|
  {
    if rects == [] then 0
    else Overlapping(rects[..|rects| - 1], zr) + (if Overlaps(zr, rects[|rects| - 1]) then 1 else 0)
  }

  /** With unique names, a box adds one to a zone exactly when it overlaps that zone's rectangle. */
  lemma {:induction false} HitsOfUnique(zones: seq<Zone>, r: Rect, k: nat)
    requires UniqueNames(zones) && k < |zones|
    ensures Hits(zones, r, zones[k].name) == if Overlaps(zones[k].rect, r) then 1 else 0
    decreases |zones|
  {
    var front := zones[..|zones| - 1];
    var n := zones[k].name;
    if k == |zones| - 1 {
      assert n !in NameSet(front) by {
        forall z | z in front ensures z.name != n {
          var i :| 0 <= i < |front| && front[i] == z;
          assert zones[i] == z;
        }
      }
      HitsAtMostRows(front, r, n);
    } else {
      assert front[k] == zones[k];
      HitsOfUnique(front, r, k);
    }
  }

  /**
   * With unique names, a zone's count is the number of track boxes that
   * overlap its rectangle.
   */
  lemma {:induction false} TallyOfUnique(zones: seq<Zone>, rects: seq<Rect>, k: nat)
    requires UniqueNames(zones) && k < |zones|
    ensures Tally(zones, rects, zones[k].name) == Overlapping(rects, zones[k].rect)
    decreases |rects|
  {
    if rects != [] {
      TallyOfUnique(zones, rects[..|rects| - 1], k);
      HitsOfUnique(zones, rects[|rects| - 1], k);
      OverlapsSymmetric(zones[k].rect, rects[|rects| - 1]);
    }
  }

  /** The counting loop over zones for one track box: every overlapping row adds one to its name. */
  method AddHits(counts: map<string, int>, zones: seq<Zone>, r: Rect) returns (counts': map<string, int>)
    requires NameSet(zones) <= counts.Keys
    ensures counts'.Keys == counts.Keys
    ensures forall n :: n in counts ==> counts'[n] == counts[n] + Hits(zones, r, n)
  {
    counts' := counts;
    var j := 0;
    while j < |zones|
      invariant 0 <= j <= |zones|
      invariant counts'.Keys == counts.Keys
      invariant forall n :: n in counts ==> counts'[n] == counts[n] + Hits(zones[..j], r, n)
    {
      var z := zones[j];
      assert zones[..j + 1][..j] == zones[..j];
      assert z.name in NameSet(zones);
      if Overlaps(z.rect, r) {
        counts' := counts'[z.name := counts'[z.name] + 1];
      }
      j := j + 1;
    }
    assert zones[..j] == zones;
  }
}
