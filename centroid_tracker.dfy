/**
 * The `CentroidTracker` class of app.py: an object whose two ordered
 * dictionaries and ID counter every call updates in place. Each method is
 * proved to move the object's state exactly as the matching function of
 * module Tracking says, and `Valid` (the invariant Tracking.Inv) is kept by
 * every public method.
 */
module CentroidTracking {
  import opened Common
  import opened Geometry
  import opened Tracking

  class CentroidTracker {
    /** The ID the next registered track receives. */
    var nextObjectID: int
    /** The key order the two OrderedDicts share. */
    var ids: seq<int>
    /** `objects`: track ID to centroid. */
    var objects: map<int, Point>
    /** `disappeared`: track ID to consecutive unmatched frames. */
    var disappeared: map<int, int>
    /** Frames a track may go unmatched before it is dropped. */
    const maxDisappeared: int

    /** The object's fields as a value of the specification. */
    function State(): TrackerState
      reads this
    {
      TrackerState(nextObjectID, ids, objects, disappeared)
    }

    ghost predicate Valid()
      reads this
    {
      Inv(State(), maxDisappeared)
    }

    /** `__init__`: no tracks, and the first ID to hand out is 1; `maxDisappeared` defaults to 40. */
    constructor (maxDisappeared: int := DefaultMaxDisappeared)
      ensures Valid() && State() == Initial()
      ensures this.maxDisappeared == maxDisappeared
    {
      nextObjectID := 1;
      ids := [];
      objects := map[];
      disappeared := map[];
      this.maxDisappeared := maxDisappeared;
    }

    /** `register`: store the centroid under the next ID with miss count 0, then advance the counter. */
    method Register(centroid: Point)
      modifies this
      ensures State() == Registered(old(State()), centroid)
    {
      objects := objects[nextObjectID := centroid];
      disappeared := disappeared[nextObjectID := 0];
      ids := ids + [nextObjectID];
      nextObjectID := nextObjectID + 1;
    }

    /** `deregister`: delete the ID from both dictionaries. */
    method Deregister(objectID: int)
      requires objectID in objects && objectID in disappeared
      modifies this
      ensures State() == Deregistered(old(State()), objectID)
    {
      objects := objects - {objectID};
      disappeared := disappeared - {objectID};
      ids := Remove(ids, objectID);
    }

    /** The track went unmatched this frame: raise its count, and drop it past the threshold. */
    method Miss(objectID: int)
      requires objectID in objects && objectID in disappeared
      modifies this
      ensures State() == Missed(old(State()), objectID, maxDisappeared)
    {
      disappeared := disappeared[objectID := disappeared[objectID] + 1];
      if disappeared[objectID] > maxDisappeared {
        Deregister(objectID);
      }
    }

    /** The empty-frame branch of `update`: every track, in key order, misses the frame. */
    method MissAll()
      requires Valid()
      modifies this
      ensures State() == MissedEach(old(State()), old(ids), maxDisappeared)
    {
      ghost var s0 := State();
      var keys := ids;
      IncreasingDistinct(keys);
      var i := 0;
      while i < |keys|
        invariant 0 <= i <= |keys|
        invariant State() == MissedEach(s0, keys[..i], maxDisappeared)
      {
        var objectID := keys[i];
        MissAllStep(s0, keys, i, maxDisappeared);
        Miss(objectID);
        i := i + 1;
      }
      assert keys[..i] == keys;
    }

    /** The branch of `update` with no tracks: every centroid is registered, in order. */
    method RegisterAll(centroids: seq<Point>)
      modifies this
      ensures State() == RegisteredEach(old(State()), centroids)
    {
      ghost var s0 := State();
      var i := 0;
      while i < |centroids|
        invariant 0 <= i <= |centroids|
        invariant State() == RegisteredEach(s0, centroids[..i])
      {
        assert centroids[..i + 1][..i] == centroids[..i];
        Register(centroids[i]);
        i := i + 1;
      }
      assert centroids[..i] == centroids;
    }

    /**
     * The matching loop: rows in `rows` order take their nearest column
     * unless the row or the column is used already. Returns `usedRows` and
     * `usedCols`.
     */
    method MatchRows(rows: seq<nat>, cols: seq<nat>, inputCentroids: seq<Point>)
      returns (usedRows: set<nat>, usedCols: set<nat>)
      requires Listed(State())
      requires |cols| == |ids| && IndicesBelow(rows, |cols|) && IndicesBelow(cols, |inputCentroids|)
      modifies this
      ensures State() == Matched(old(State()), rows, cols, inputCentroids)
      ensures usedRows == Greedy(rows, cols).Keys && usedCols == Sweep(rows, cols).usedCols
    {
      ghost var s0 := State();
      var objectIDs := ids;
      usedRows, usedCols := {}, {};
      var i := 0;
      while i < |rows|
        invariant 0 <= i <= |rows|
        invariant State() == Matched(s0, rows[..i], cols, inputCentroids)
        invariant usedRows == Sweep(rows[..i], cols).pairs.Keys
        invariant usedCols == Sweep(rows[..i], cols).usedCols
      {
        MatchStep(s0, rows, cols, inputCentroids, i);
        var row := rows[i];
        var col := cols[row];
        if !(row in usedRows || col in usedCols) {
          var objectID := objectIDs[row];
          objects := objects[objectID := inputCentroids[col]];
          disappeared := disappeared[objectID := 0];
          usedRows := usedRows + {row};
          usedCols := usedCols + {col};
        }
        i := i + 1;
      }
      assert rows[..i] == rows;
    }

    /** `for row in unusedRows`: the tracks whose rows were not used miss the frame, in row order. */
    method MissUnmatched(objectIDs: seq<int>, usedRows: set<nat>)
      requires SameKeys(State()) && Increasing(objectIDs)
      requires forall k :: 0 <= k < |objectIDs| ==> objectIDs[k] in objects
      modifies this
      ensures State() == MissedEach(old(State()), UnmatchedIds(objectIDs, usedRows), maxDisappeared)
    {
      ghost var s0 := State();
      ghost var missed: seq<int> := [];
      var row := 0;
      while row < |objectIDs|
        invariant 0 <= row <= |objectIDs|
        invariant MissedSoFar(s0, objectIDs, usedRows, row, missed)
        invariant State() == MissedEach(s0, missed, maxDisappeared)
      {
        missed := MissRow(objectIDs, usedRows, row, s0, missed);
        row := row + 1;
      }
      assert objectIDs[..row] == objectIDs;
    }

    /** One pass of `for row in unusedRows`: the row's track misses the frame when the row was not used. */
    method MissRow(objectIDs: seq<int>, usedRows: set<nat>, row: nat, ghost s0: TrackerState, ghost missed: seq<int>)
      returns (ghost missed': seq<int>)
      requires MissedSoFar(s0, objectIDs, usedRows, row, missed) && row < |objectIDs|
      requires State() == MissedEach(s0, missed, maxDisappeared)
      modifies this
      ensures MissedSoFar(s0, objectIDs, usedRows, row + 1, missed')
      ensures State() == MissedEach(s0, missed', maxDisappeared)
    {
      MissUnmatchedStep(s0, objectIDs, usedRows, row, missed, maxDisappeared);
      missed' := missed;
      if row !in usedRows {
        var objectID := objectIDs[row];
        Miss(objectID);
        missed' := missed + [objectID];
      }
    }

    /** `for col in unusedCols`: the detections whose columns were not used become tracks, in column order. */
    method RegisterUnclaimed(inputCentroids: seq<Point>, usedCols: set<nat>)
      modifies this
      ensures State() == RegisteredEach(old(State()), Pick(inputCentroids, Unused(|inputCentroids|, usedCols)))
    {
      ghost var s0 := State();
      ghost var registered: seq<Point> := [];
      var col := 0;
      while col < |inputCentroids|
        invariant 0 <= col <= |inputCentroids|
        invariant IndicesBelow(Unused(col, usedCols), |inputCentroids|)
        invariant registered == Pick(inputCentroids, Unused(col, usedCols))
        invariant State() == RegisteredEach(s0, registered)
      {
        RegisterUnclaimedStep(s0, inputCentroids, usedCols, col);
        if col !in usedCols {
          Register(inputCentroids[col]);
        }
        registered := Pick(inputCentroids, Unused(col + 1, usedCols));
        col := col + 1;
      }
    }

    /** `update(rects)`: one frame's detections, as the specification function Updated describes. */
    method Update(rects: seq<Box>) returns (result: map<int, Point>)
      requires Valid()
      modifies this
      ensures Valid()
      ensures State() == Updated(old(State()), rects, maxDisappeared)
      ensures result == objects
    {
      ghost var s0 := State();
      UpdatedInv(s0, rects, maxDisappeared);
      if |rects| == 0 {
        MissAll();
        return objects;
      }

      var buffer := InputCentroids(rects);
      var inputCentroids := buffer[..];

      if |objects| == 0 {
        RegisterAll(inputCentroids);
      } else {
        var objectIDs := ids;
        var objectCentroids := Lookup(objects, ids);
        var cols := NearestCols(objectCentroids, inputCentroids);
        var rows := ArgSort(RowMins(objectCentroids, inputCentroids, cols));
        assert rows == Rows(s0, rects) && cols == Cols(s0, rects);
        var usedRows, usedCols := MatchRows(rows, cols, inputCentroids);
        assert State() == Rematched(s0, rects);
        MissUnmatched(objectIDs, usedRows);
        assert State() == Aged(s0, rects, maxDisappeared);
        RegisterUnclaimed(inputCentroids, usedCols);
        assert Pick(inputCentroids, Unused(|inputCentroids|, usedCols)) == Unclaimed(s0, rects);
        UnmatchedDetectionsRegistered(s0, rects, maxDisappeared);
      }
      result := objects;
    }
  }
  /** The application's one tracker, built with the default limit of 40 missed frames. */
  method AppTracker() returns (tracker: CentroidTracker)
    ensures fresh(tracker) && tracker.Valid() && tracker.State() == Initial()
    ensures tracker.maxDisappeared == 40
  {
    tracker := new CentroidTracker();
  }

  /** `inputCentroids`: a fresh buffer with one row per detection, filled with the box centres in order. */
  method InputCentroids(rects: seq<Box>) returns (buffer: array<Point>)
    ensures fresh(buffer) && buffer[..] == Centroids(rects)
  {
    buffer := new Point[|rects|](_ => Point(0, 0));
    for i := 0 to |rects|
      invariant forall k :: 0 <= k < i ==> buffer[k] == Centroid(rects[k])
    {
      buffer[i] := Centroid(rects[i]);
    }
  }

  /** One more row of the unused-rows loop: its ID is appended exactly when the row was not matched. */
  lemma UnmatchedIdsStep(ids: seq<int>, matched: set<nat>, row: nat)
    requires Increasing(ids) && row < |ids|
    ensures Increasing(ids[..row]) && Increasing(ids[..row + 1])
    ensures ids[row] !in UnmatchedIds(ids[..row], matched)
    ensures UnmatchedIds(ids[..row + 1], matched) ==
            if row in matched then UnmatchedIds(ids[..row], matched)
            else UnmatchedIds(ids[..row], matched) + [ids[row]]
    ensures forall x :: x in ids[..row + 1] <==> x in ids[..row] || x == ids[row]
  {
    assert ids[..row + 1][..row] == ids[..row];
    assert ids[..row + 1] == ids[..row] + [ids[row]];
  }

  /** One more key of the empty-frame loop is one more Missed step, on a track that is still there. */
  lemma MissAllStep(s: TrackerState, keys: seq<int>, i: nat, maxD: int)
    requires SameKeys(s) && Distinct(keys) && i < |keys|
    requires forall k :: 0 <= k < |keys| ==> keys[k] in s.objects
    ensures Distinct(keys[..i]) && (forall k :: k in keys[..i] ==> k in s.objects)
    ensures Distinct(keys[..i + 1]) && (forall k :: k in keys[..i + 1] ==> k in s.objects)
    ensures var t := MissedEach(s, keys[..i], maxD);
            && keys[i] in t.objects && keys[i] in t.disappeared
            && MissedEach(s, keys[..i + 1], maxD) == Missed(t, keys[i], maxD)
  {
    var front := keys[..i];
    assert keys[..i + 1] == front + [keys[i]];
    assert keys[i] !in front;
    MissedEachKeys(s, front, maxD, keys[i]);
    MissedEachSnoc(s, front, keys[i], maxD);
  }

  /** Missing one more track is one more Missed step. */
  lemma MissedEachSnoc(s: TrackerState, keys: seq<int>, id: int, maxD: int)
    requires SameKeys(s) && Distinct(keys) && forall k :: k in keys ==> k in s.objects
    requires id in s.objects && id !in keys && id in MissedEach(s, keys, maxD).objects
    ensures Distinct(keys + [id]) && forall k :: k in keys + [id] ==> k in s.objects
    ensures MissedEach(s, keys + [id], maxD) == Missed(MissedEach(s, keys, maxD), id, maxD)
  {
    assert (keys + [id])[..|keys|] == keys;
  }

  /** Registering one more centroid is one more Registered step. */
  lemma RegisteredEachSnoc(s: TrackerState, cs: seq<Point>, c: Point)
    ensures RegisteredEach(s, cs + [c]) == Registered(RegisteredEach(s, cs), c)
  {
    assert (cs + [c])[..|cs|] == cs;
  }

  /** One more column of the unused-columns loop: its centroid is appended exactly when the column was not used. */
  lemma PickUnusedStep(cs: seq<Point>, used: set<nat>, col: nat)
    requires col < |cs|
    ensures IndicesBelow(Unused(col, used), |cs|) && IndicesBelow(Unused(col + 1, used), |cs|)
    ensures Pick(cs, Unused(col + 1, used)) ==
            if col in used then Pick(cs, Unused(col, used))
            else Pick(cs, Unused(col, used)) + [cs[col]]
  {
  }

  /** One more row of the matching loop: it commits its column, or changes nothing when the row or column is taken. */
  lemma MatchStep(s: TrackerState, order: seq<nat>, cols: seq<nat>, ic: seq<Point>, i: nat)
    requires Listed(s)
    requires |cols| == |s.ids| && IndicesBelow(order, |cols|) && IndicesBelow(cols, |ic|)
    requires i < |order|
    ensures IndicesBelow(order[..i], |cols|) && IndicesBelow(order[..i + 1], |cols|)
    ensures var c := Sweep(order[..i], cols);
            var t := Matched(s, order[..i], cols, ic);
            var row := order[i];
            if row in c.pairs.Keys || cols[row] in c.usedCols then
              Sweep(order[..i + 1], cols) == c && Matched(s, order[..i + 1], cols, ic) == t
            else
              && Sweep(order[..i + 1], cols) == Claims(c.pairs[row := cols[row]], c.usedCols + {cols[row]})
              && Matched(s, order[..i + 1], cols, ic) == Moved(t, s.ids[row], ic[cols[row]])
  {
    assert order[..i + 1][..i] == order[..i];
  }

  /**
   * What the unused-rows loop knows after `row` rows: the IDs it has aged
   * so far are those of the unmatched rows among them, and each was a track.
   */
  ghost predicate MissedSoFar(s: TrackerState, ids: seq<int>, matched: set<nat>, row: nat, missed: seq<int>) {
    && SameKeys(s) && Increasing(ids) && row <= |ids|
    && (forall k :: 0 <= k < |ids| ==> ids[k] in s.objects)
    && missed == UnmatchedIds(ids[..row], matched)
    && Distinct(missed) && (forall x :: x in missed ==> x in s.objects)
  }

  /** One more row of the unused-rows loop is one more Missed step when the row was not matched, and nothing otherwise. */
  lemma MissUnmatchedStep(s: TrackerState, ids: seq<int>, matched: set<nat>, row: nat, missed: seq<int>, maxD: int)
    requires MissedSoFar(s, ids, matched, row, missed) && row < |ids|
    ensures var t := MissedEach(s, missed, maxD);
            if row in matched then MissedSoFar(s, ids, matched, row + 1, missed)
            else && MissedSoFar(s, ids, matched, row + 1, missed + [ids[row]])
                 && ids[row] in t.objects && ids[row] in t.disappeared
                 && MissedEach(s, missed + [ids[row]], maxD) == Missed(t, ids[row], maxD)
  {
    UnmatchedIdsStep(ids, matched, row);
    if row !in matched {
      MissedEachKeys(s, missed, maxD, ids[row]);
      MissedEachSnoc(s, missed, ids[row], maxD);
    }
  }

  /** One more column of the unused-columns loop is one more Registered step when the column was not used. */
  lemma RegisterUnclaimedStep(s: TrackerState, cs: seq<Point>, used: set<nat>, col: nat)
    requires col < |cs|
    ensures IndicesBelow(Unused(col, used), |cs|) && IndicesBelow(Unused(col + 1, used), |cs|)
    ensures var t := RegisteredEach(s, Pick(cs, Unused(col, used)));
            RegisteredEach(s, Pick(cs, Unused(col + 1, used))) ==
            if col in used then t else Registered(t, cs[col])
  {
    PickUnusedStep(cs, used, col);
    if col !in used {
      RegisteredEachSnoc(s, Pick(cs, Unused(col, used)), cs[col]);
    }
  }
}
