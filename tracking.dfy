/**
 * The centroid tracker of app.py as functions on its state.
 *
 * The state is the pair of ordered dictionaries `objects` (track ID to centroid)
 * and `disappeared` (track ID to the number of consecutive frames the track
 * went unmatched), their common key order `ids`, and the counter
 * `nextObjectID`. Each step of the tracker (register, deregister, one missed
 * frame, one greedy match) is a function here, each loop of `update` is a fold
 * of those steps, and the fold functions state in their contracts what the
 * loop achieves as a whole. The class in CentroidTracking is proved to compute
 * exactly these functions.
 */
module Tracking {
  import opened Common
  import opened Geometry

  /** The constructor's default for maxDisappeared. */
  const DefaultMaxDisappeared := 40

  /** `ids` is the key order that `objects` and `disappeared` share. */
  datatype TrackerState = TrackerState(
    nextObjectID: int,
    ids: seq<int>,
    objects: map<int, Point>,
    disappeared: map<int, int>)

  /**
   * What every reachable state satisfies: both dictionaries have the same
   * keys, listed in ascending order by `ids`; every key is a positive ID below
   * `nextObjectID`; and a miss count is 0 or a positive number no larger than
   * the threshold (a track whose count exceeds it is dropped at once).
   */
  predicate Inv(s: TrackerState, maxD: int) {
    && 1 <= s.nextObjectID
    && s.objects.Keys == s.disappeared.Keys
    && Increasing(s.ids)
    && (forall i :: 0 <= i < |s.ids| ==> s.ids[i] in s.objects)
    && (forall id :: id in s.objects ==> id in s.ids && 1 <= id < s.nextObjectID)
    && (forall id :: id in s.disappeared ==> s.disappeared[id] == 0 || 0 < s.disappeared[id] <= maxD)
  }

  /** The state a fresh tracker starts in. */
  function Initial(): (s: TrackerState)
    ensures forall maxD :: Inv(s, maxD)
    ensures s.objects == map[] && s.nextObjectID == 1
  {
    TrackerState(1, [], map[], map[])
  }

  /** `s` without the occurrences of `x`, other elements in their order. */
  function Remove(s: seq<int>, x: int): (r: seq<int>)
    ensures forall y :: y in r <==> y in s && y != x
    ensures Increasing(s) ==> Increasing(r)
  {
    if s == [] then []
    else
      var rest := Remove(s[1..], x);
      if s[0] == x then rest
      else
        HeadBelowTail(s);
        assert Increasing(s) ==> forall k :: 0 <= k < |rest| ==> s[0] < rest[k] by {
          if Increasing(s) {
            forall k | 0 <= k < |rest| ensures s[0] < rest[k] { assert rest[k] in rest; }
          }
        }
        [s[0]] + rest
  }

  lemma HeadBelowTail(s: seq<int>)
    requires s != []
    ensures Increasing(s) ==> forall y :: y in s[1..] ==> s[0] < y
  {
    if Increasing(s) {
      forall y | y in s[1..] ensures s[0] < y {
        var k :| 0 <= k < |s[1..]| && s[1..][k] == y;
        assert s[k + 1] == y;
      }
    }
  }

  // ---------------------------------------------------------------------------
  // Single steps

  /** `register`: the centroid is stored under the next ID, with miss count 0. */
  function Registered(s: TrackerState, c: Point): TrackerState {
    TrackerState(s.nextObjectID + 1, s.ids + [s.nextObjectID],
                 s.objects[s.nextObjectID := c], s.disappeared[s.nextObjectID := 0])
  }

  /** `deregister`: the ID is deleted from both dictionaries. */
  function Deregistered(s: TrackerState, id: int): TrackerState
    requires id in s.objects && id in s.disappeared
  {
    TrackerState(s.nextObjectID, Remove(s.ids, id), s.objects - {id}, s.disappeared - {id})
  }

  /** One frame in which the track went unmatched: its count goes up, and it is dropped past the threshold. */
  function Missed(s: TrackerState, id: int, maxD: int): TrackerState
    requires id in s.objects && id in s.disappeared
  {
    var t := s.(disappeared := s.disappeared[id := s.disappeared[id] + 1]);
    if t.disappeared[id] > maxD then Deregistered(t, id) else t
  }

  /** Both dictionaries have the same keys. */
  predicate SameKeys(s: TrackerState) {
    s.objects.Keys == s.disappeared.Keys
  }

  /** What one missed frame does to the dictionaries, all tracks at once. */
  lemma MissedKeys(t: TrackerState, id: int, maxD: int)
    requires SameKeys(t) && id in t.objects
    ensures var r := Missed(t, id, maxD);
            && SameKeys(r)
            && r.nextObjectID == t.nextObjectID
            && (forall x :: x in r.objects <==> x in t.objects && (x == id ==> t.disappeared[id] + 1 <= maxD))
            && (forall x :: x in r.objects ==> r.objects[x] == t.objects[x])
            && (forall x :: x in r.objects ==> r.disappeared[x] == if x == id then t.disappeared[x] + 1 else t.disappeared[x])
  {
    var r := Missed(t, id, maxD);
    if t.disappeared[id] + 1 > maxD {
      assert r.objects.Keys == t.objects.Keys - {id};
      assert r.disappeared.Keys == t.disappeared.Keys - {id};
    }
  }

  /** A missed frame keeps the invariant. */
  lemma MissedStep(t: TrackerState, id: int, maxD: int)
    requires Inv(t, maxD) && id in t.objects
    ensures Inv(Missed(t, id, maxD), maxD)
  {
    MissedKeys(t, id, maxD);
    var r := Missed(t, id, maxD);
    if t.disappeared[id] + 1 > maxD {
      forall i | 0 <= i < |r.ids| ensures r.ids[i] in r.objects {
        assert r.ids[i] in r.ids;
      }
    }
  }

  /** One committed match: the track takes the detection's centroid and its count is reset. */
  function Moved(s: TrackerState, id: int, c: Point): TrackerState {
    s.(objects := s.objects[id := c], disappeared := s.disappeared[id := 0])
  }

  lemma MovedStep(t: TrackerState, id: int, c: Point, maxD: int)
    requires Inv(t, maxD) && id in t.objects
    ensures Inv(Moved(t, id, c), maxD)
  {
    var r := Moved(t, id, c);
    assert r.objects.Keys == t.objects.Keys;
    assert r.disappeared.Keys == t.disappeared.Keys;
  }

  lemma RegisteredStep(t: TrackerState, c: Point, maxD: int)
    requires Inv(t, maxD)
    ensures Inv(Registered(t, c), maxD)
  {
    RegisteredIncreasing(t, c, maxD);
  }

  lemma RegisteredIncreasing(t: TrackerState, c: Point, maxD: int)
    requires Inv(t, maxD)
    ensures Increasing(Registered(t, c).ids)
  {
    var r := Registered(t, c);
    forall i, j | 0 <= i < j < |r.ids| ensures r.ids[i] < r.ids[j] {
      if j == |t.ids| { assert t.ids[i] in t.objects; }
    }
  }

  // ---------------------------------------------------------------------------
  // Folds of the steps, one per loop of `update`

  /**
   * Every track in `keys` misses one frame, in the order of `keys`; no track
   * is added, and a track not in `keys` stays. MissedEachKeys and
   * MissedEachValues state exactly which tracks go and what the others hold.
   */
  function MissedEach(s: TrackerState, keys: seq<int>, maxD: int): (r: TrackerState)
    requires SameKeys(s)
    requires Distinct(keys) && forall k :: k in keys ==> k in s.objects
    ensures SameKeys(r) && r.nextObjectID == s.nextObjectID
    ensures forall id :: id in s.objects && id !in keys ==> id in r.objects
    decreases |keys|
  {
    if keys == [] then s
    else
      var last := keys[|keys| - 1];
      assert last !in keys[..|keys| - 1];
      var t := MissedEach(s, keys[..|keys| - 1], maxD);
      MissedKeys(t, last, maxD);
      Missed(t, last, maxD)
  }

  /** MissedEach keeps the invariant. */
  lemma {:induction false} MissedEachInv(s: TrackerState, keys: seq<int>, maxD: int)
    requires Inv(s, maxD)
    requires Distinct(keys) && forall k :: k in keys ==> k in s.objects
    ensures Inv(MissedEach(s, keys, maxD), maxD)
    decreases |keys|
  {
    if keys != [] {
      var front := keys[..|keys| - 1];
      assert keys[|keys| - 1] !in front;
      MissedEachInv(s, front, maxD);
      MissedStep(MissedEach(s, front, maxD), keys[|keys| - 1], maxD);
    }
  }

  /** Exactly the tracks of `keys` whose new count exceeds the threshold are gone. */
  lemma {:induction false} MissedEachKeys(s: TrackerState, keys: seq<int>, maxD: int, id: int)
    requires SameKeys(s)
    requires Distinct(keys) && forall k :: k in keys ==> k in s.objects
    ensures id in MissedEach(s, keys, maxD).objects <==>
            id in s.objects && (id in keys ==> s.disappeared[id] + 1 <= maxD)
    decreases |keys|
  {
    if keys != [] {
      var front := keys[..|keys| - 1];
      var last := keys[|keys| - 1];
      assert last !in front;
      MissedEachKeys(s, front, maxD, id);
      var t := MissedEach(s, front, maxD);
      MissedEachValues(s, front, maxD, last);
      MissedKeys(t, last, maxD);
      assert id in keys <==> id in front || id == last;
    }
  }

  /** A track that stays keeps its centroid; if it is in `keys` its count is raised by one. */
  lemma {:induction false} MissedEachValues(s: TrackerState, keys: seq<int>, maxD: int, id: int)
    requires SameKeys(s)
    requires Distinct(keys) && forall k :: k in keys ==> k in s.objects
    requires id in MissedEach(s, keys, maxD).objects
    ensures var r := MissedEach(s, keys, maxD);
            && id in s.objects
            && r.objects[id] == s.objects[id]
            && r.disappeared[id] == if id in keys then s.disappeared[id] + 1 else s.disappeared[id]
    decreases |keys|
  {
    if keys != [] {
      var front := keys[..|keys| - 1];
      var last := keys[|keys| - 1];
      assert last !in front;
      var t := MissedEach(s, front, maxD);
      MissedKeys(t, last, maxD);
      assert id in t.objects;
      MissedEachValues(s, front, maxD, id);
      assert id in keys <==> id in front || id == last;
    }
  }

  /** The n consecutive integers from a on. */
  function Range(a: int, n: nat): (r: seq<int>)
    ensures |r| == n && forall k :: 0 <= k < n ==> r[k] == a + k
  {
    if n == 0 then [] else Range(a, n - 1) + [a + n - 1]
  }

  /**
   * Every centroid of `cs` becomes a track, in order, taking the consecutive
   * IDs from `nextObjectID` on. RegisteredEachKeys, RegisteredEachKeeps,
   * RegisteredEachNew and RegisteredEachIds state what the dictionaries and
   * the key order then hold.
   */
  function RegisteredEach(s: TrackerState, cs: seq<Point>): (r: TrackerState)
    ensures r.nextObjectID == s.nextObjectID + |cs|
    decreases |cs|
  {
    if cs == [] then s
    else Registered(RegisteredEach(s, cs[..|cs| - 1]), cs[|cs| - 1])
  }

  /** RegisteredEach keeps the invariant. */
  lemma {:induction false} RegisteredEachInv(s: TrackerState, cs: seq<Point>, maxD: int)
    requires Inv(s, maxD)
    ensures Inv(RegisteredEach(s, cs), maxD)
    decreases |cs|
  {
    if cs != [] {
      RegisteredEachInv(s, cs[..|cs| - 1], maxD);
      RegisteredStep(RegisteredEach(s, cs[..|cs| - 1]), cs[|cs| - 1], maxD);
    }
  }

  /** After RegisteredEach the tracks are the old ones and one new track per centroid. */
  lemma {:induction false} RegisteredEachKeys(s: TrackerState, cs: seq<Point>)
    ensures var r := RegisteredEach(s, cs);
            forall id :: id in r.objects <==> id in s.objects || s.nextObjectID <= id < r.nextObjectID
    decreases |cs|
  {
    if cs != [] {
      RegisteredEachKeys(s, cs[..|cs| - 1]);
    }
  }

  /** RegisteredEach leaves the old tracks untouched. */
  lemma {:induction false} RegisteredEachKeeps(s: TrackerState, cs: seq<Point>)
    ensures var r := RegisteredEach(s, cs);
            && (forall id :: id in s.objects && id < s.nextObjectID ==> id in r.objects && r.objects[id] == s.objects[id])
            && (forall id :: id in s.disappeared && id < s.nextObjectID ==> id in r.disappeared && r.disappeared[id] == s.disappeared[id])
    decreases |cs|
  {
    if cs != [] {
      RegisteredEachKeeps(s, cs[..|cs| - 1]);
    }
  }

  /** RegisteredEach appends the new IDs, in order, to the key order. */
  lemma {:induction false} RegisteredEachIds(s: TrackerState, cs: seq<Point>)
    ensures RegisteredEach(s, cs).ids == s.ids + Range(s.nextObjectID, |cs|)
    decreases |cs|
  {
    if cs != [] {
      RegisteredEachIds(s, cs[..|cs| - 1]);
    }
  }

  /** RegisteredEach stores the k-th centroid under ID nextObjectID + k, with miss count 0. */
  lemma {:induction false} RegisteredEachNew(s: TrackerState, cs: seq<Point>, k: int)
    requires 0 <= k < |cs|
    ensures var r := RegisteredEach(s, cs);
            && s.nextObjectID + k in r.objects && s.nextObjectID + k in r.disappeared
            && r.objects[s.nextObjectID + k] == cs[k]
            && r.disappeared[s.nextObjectID + k] == 0
    decreases |cs|
  {
    var front := cs[..|cs| - 1];
    if k < |front| {
      RegisteredEachNew(s, front, k);
      assert front[k] == cs[k];
    }
  }

  /** Every ID from the old counter on names a new track, in the order of `cs`. */
  lemma RegisteredEachBorn(s: TrackerState, cs: seq<Point>)
    ensures var r := RegisteredEach(s, cs);
            forall id :: s.nextObjectID <= id < r.nextObjectID ==>
              && id in r.objects && id in r.disappeared
              && r.objects[id] == cs[id - s.nextObjectID] && r.disappeared[id] == 0
  {
    var r := RegisteredEach(s, cs);
    forall id | s.nextObjectID <= id < r.nextObjectID
      ensures id in r.objects && id in r.disappeared
      ensures r.objects[id] == cs[id - s.nextObjectID] && r.disappeared[id] == 0
    {
      RegisteredEachNew(s, cs, id - s.nextObjectID);
    }
  }

  // ---------------------------------------------------------------------------
  // Distances and the greedy assignment

  /**
   * `D.argmin(axis=1)` for one row: the index of the nearest detection, the
   * first one among equally near detections (NearestIsFirstMinimum).
   */
  function Nearest(p: Point, cs: seq<Point>): (j: nat)
    requires |cs| > 0
    ensures j < |cs|
    decreases |cs|
  {
    if |cs| == 1 then 0
    else
      var j := Nearest(p, cs[..|cs| - 1]);
      if SqDist(p, cs[|cs| - 1]) < SqDist(p, cs[j]) then |cs| - 1 else j
  }

  /** No detection is nearer than the one Nearest picks, and every earlier one is farther. */
  lemma {:induction false} NearestIsFirstMinimum(p: Point, cs: seq<Point>)
    requires |cs| > 0
    ensures var j := Nearest(p, cs);
            && (forall k :: 0 <= k < |cs| ==> SqDist(p, cs[j]) <= SqDist(p, cs[k]))
            && (forall k :: 0 <= k < j ==> SqDist(p, cs[j]) < SqDist(p, cs[k]))
    decreases |cs|
  {
    if |cs| > 1 {
      var front := cs[..|cs| - 1];
      NearestIsFirstMinimum(p, front);
      var jf := Nearest(p, front);
      var j := Nearest(p, cs);
      assert front[jf] == cs[jf];
      forall k | 0 <= k < |cs| ensures SqDist(p, cs[j]) <= SqDist(p, cs[k]) {
        if k < |front| { assert front[k] == cs[k]; }
      }
      forall k | 0 <= k < j ensures SqDist(p, cs[j]) < SqDist(p, cs[k]) {
        assert front[k] == cs[k];
      }
    }
  }

  /** The nearest detection of every row. */
  function NearestCols(oc: seq<Point>, ic: seq<Point>): (cols: seq<nat>)
    requires |ic| > 0
    ensures |cols| == |oc| && IndicesBelow(cols, |ic|)
    ensures forall i :: 0 <= i < |oc| ==> cols[i] == Nearest(oc[i], ic)
  {
    seq(|oc|, i requires 0 <= i < |oc| => Nearest(oc[i], ic))
  }

  /** Row `i` of `NearestCols` is no farther from track `i` than any detection. */
  lemma NearestColsAt(oc: seq<Point>, ic: seq<Point>, i: nat)
    requires |ic| > 0 && i < |oc|
    ensures forall j :: 0 <= j < |ic| ==> SqDist(oc[i], ic[NearestCols(oc, ic)[i]]) <= SqDist(oc[i], ic[j])
  {
    NearestIsFirstMinimum(oc[i], ic);
  }

  /** `D.min(axis=1)`: each row's distance to its nearest detection. */
  function RowMins(oc: seq<Point>, ic: seq<Point>, cols: seq<nat>): (keys: seq<int>)
    requires |cols| == |oc| && IndicesBelow(cols, |ic|)
    ensures |keys| == |oc| && forall i :: 0 <= i < |oc| ==> keys[i] == SqDist(oc[i], ic[cols[i]])
  {
    seq(|oc|, i requires 0 <= i < |oc| => SqDist(oc[i], ic[cols[i]]))
  }

  predicate IndicesBelow(order: seq<nat>, n: nat) {
    forall k :: 0 <= k < |order| ==> order[k] < n
  }

  /** The keys of the listed indices never decrease. */
  predicate SortedBy(order: seq<nat>, keys: seq<int>)
    requires IndicesBelow(order, |keys|)
  {
    forall i, j :: 0 <= i < j < |order| ==> keys[order[i]] <= keys[order[j]]
  }

  /** What `argsort` returns: every index, in nondecreasing order of key. */
  predicate IsArgsort(order: seq<nat>, keys: seq<int>) {
    && |order| == |keys|
    && IndicesBelow(order, |keys|)
    && (forall x: nat :: x < |keys| ==> x in order)
    && SortedBy(order, keys)
  }

  /** Inserts index i after every index whose key is not larger than keys[i]. */
  function InsertIndex(i: nat, sorted: seq<nat>, keys: seq<int>): (r: seq<nat>)
    requires i < |keys| && IndicesBelow(sorted, |keys|) && SortedBy(sorted, keys)
    ensures |r| == |sorted| + 1
    ensures forall x :: x in r <==> x == i || x in sorted
    ensures IndicesBelow(r, |keys|) && SortedBy(r, keys)
  {
    if sorted == [] || keys[i] < keys[sorted[0]] then [i] + sorted
    else
      var rest := InsertIndex(i, sorted[1..], keys);
      assert forall x :: x in sorted[1..] ==> keys[sorted[0]] <= keys[x];
      [sorted[0]] + rest
  }

  /** The indices below n, sorted by key. */
  function ArgSortBelow(keys: seq<int>, n: nat): (r: seq<nat>)
    requires n <= |keys|
    ensures |r| == n
    ensures forall x: nat :: x in r <==> x < n
    ensures IndicesBelow(r, |keys|) && SortedBy(r, keys)
  {
    if n == 0 then [] else InsertIndex(n - 1, ArgSortBelow(keys, n - 1), keys)
  }

  /**
   * `argsort`, made stable: among rows with equal keys the lower row comes
   * first. numpy's default sort leaves that order open; every property of the
   * greedy assignment below holds for any order satisfying IsArgsort.
   */
  function ArgSort(keys: seq<int>): (order: seq<nat>)
    ensures IsArgsort(order, keys)
  {
    ArgSortBelow(keys, |keys|)
  }

  /** What the matching loop has committed so far: row to column, and `usedCols`. */
  datatype Claims = Claims(pairs: map<nat, nat>, usedCols: set<nat>)

  /**
   * The matching loop over `order`: a row takes its nearest column `cols[row]`
   * unless the row (`usedRows`, the keys of `pairs`) or that column
   * (`usedCols`) has been used already. Every committed column is recorded
   * as used.
   */
  function Sweep(order: seq<nat>, cols: seq<nat>): (c: Claims)
    requires IndicesBelow(order, |cols|)
    ensures forall r :: r in c.pairs ==> r < |cols| && c.pairs[r] == cols[r] && c.pairs[r] in c.usedCols
    decreases |order|
  {
    if order == [] then Claims(map[], {})
    else
      var c := Sweep(order[..|order| - 1], cols);
      var row := order[|order| - 1];
      if row in c.pairs || cols[row] in c.usedCols then c
      else Claims(c.pairs[row := cols[row]], c.usedCols + {cols[row]})
  }

  /**
   * The assignment the matching loop commits, as a map from row to column.
   * It is one-to-one, and every row is given its own nearest column.
   */
  function Greedy(order: seq<nat>, cols: seq<nat>): (g: map<nat, nat>)
    requires IndicesBelow(order, |cols|)
    ensures forall r :: r in g ==> r < |cols| && g[r] == cols[r]
  {
    Sweep(order, cols).pairs
  }

  /** No column is committed to two rows. */
  lemma {:induction false} GreedyOneToOne(order: seq<nat>, cols: seq<nat>, r1: nat, r2: nat)
    requires IndicesBelow(order, |cols|)
    ensures var g := Greedy(order, cols);
            r1 in g && r2 in g && r1 != r2 ==> g[r1] != g[r2]
    decreases |order|
  {
    if order != [] {
      GreedyOneToOne(order[..|order| - 1], cols, r1, r2);
    }
  }

  /** `usedCols` holds exactly the committed columns. */
  lemma {:induction false} UsedColsCommitted(order: seq<nat>, cols: seq<nat>)
    requires IndicesBelow(order, |cols|)
    ensures Sweep(order, cols).usedCols == Greedy(order, cols).Values
    decreases |order|
  {
    if order != [] {
      var prefix := order[..|order| - 1];
      var c := Sweep(prefix, cols);
      var row := order[|order| - 1];
      UsedColsCommitted(prefix, cols);
      if !(row in c.pairs || cols[row] in c.usedCols) {
        FreshPairValues(c.pairs, row, cols[row]);
      }
    }
  }

  /** A row left without a match lost its nearest column to an earlier row. */
  lemma {:induction false} GreedyMaximal(order: seq<nat>, cols: seq<nat>)
    requires IndicesBelow(order, |cols|)
    ensures var g := Greedy(order, cols);
            forall k :: 0 <= k < |order| ==> order[k] in g || cols[order[k]] in g.Values
    decreases |order|
  {
    if order != [] {
      var prefix := order[..|order| - 1];
      GreedyMaximal(prefix, cols);
      GreedyLastStep(order, cols);
      var g' := Greedy(order, cols);
      forall k | 0 <= k < |prefix| ensures order[k] in g' || cols[order[k]] in g'.Values {
        assert prefix[k] == order[k];
      }
    }
  }

  /**
   * Visiting one more row keeps every earlier match, and afterwards that row
   * or its nearest column is taken.
   */
  lemma GreedyLastStep(order: seq<nat>, cols: seq<nat>)
    requires IndicesBelow(order, |cols|) && order != []
    ensures var g := Greedy(order[..|order| - 1], cols);
            var g' := Greedy(order, cols);
            var row := order[|order| - 1];
            && (forall r :: r in g ==> r in g')
            && (forall v :: v in g.Values ==> v in g'.Values)
            && (row in g' || cols[row] in g'.Values)
  {
    var g := Greedy(order[..|order| - 1], cols);
    var row := order[|order| - 1];
    UsedColsCommitted(order[..|order| - 1], cols);
    if !(row in g || cols[row] in g.Values) {
      FreshPairValues(g, row, cols[row]);
    }
  }

  /** Only rows of `order` are matched. */
  lemma {:induction false} GreedyRowsFromOrder(order: seq<nat>, cols: seq<nat>)
    requires IndicesBelow(order, |cols|)
    ensures forall r :: r in Greedy(order, cols) ==> r in order
    decreases |order|
  {
    if order != [] {
      var prefix := order[..|order| - 1];
      GreedyRowsFromOrder(prefix, cols);
      assert forall r :: r in prefix ==> r in order;
    }
  }

  /** The assignment uses as many columns as it matches rows. */
  lemma {:induction false} GreedyCard(order: seq<nat>, cols: seq<nat>)
    requires IndicesBelow(order, |cols|)
    ensures |Greedy(order, cols).Values| == |Greedy(order, cols)|
    decreases |order|
  {
    if order != [] {
      var prefix := order[..|order| - 1];
      var g := Greedy(prefix, cols);
      var row := order[|order| - 1];
      GreedyCard(prefix, cols);
      UsedColsCommitted(prefix, cols);
      if !(row in g || cols[row] in g.Values) {
        FreshPairCard(g, row, cols[row]);
      }
    }
  }

  /** Adding a fresh key with a fresh value grows keys and values alike. */
  lemma FreshPairValues(g: map<nat, nat>, k: nat, v: nat)
    requires k !in g
    ensures g[k := v].Values == g.Values + {v}
  {
    var g' := g[k := v];
    assert g'[k] == v;
    forall y | y in g'.Values ensures y in g.Values || y == v {
      var x :| x in g' && g'[x] == y;
      if x != k { assert x in g && g[x] == y; }
    }
    forall y | y in g.Values ensures y in g'.Values {
      var x :| x in g && g[x] == y;
      assert x in g' && g'[x] == y;
    }
  }

  lemma FreshPairCard(g: map<nat, nat>, k: nat, v: nat)
    requires k !in g && v !in g.Values && |g.Values| == |g|
    ensures |g[k := v].Values| == |g[k := v]|
  {
    var g' := g[k := v];
    FreshPairValues(g, k, v);
    assert g'.Keys == g.Keys + {k};
    assert |g'.Keys| == |g'|;
    assert |g.Keys| == |g|;
  }

  /** Rows visited later never take a match away from an earlier one. */
  lemma {:induction false} GreedyGrows(order: seq<nat>, cols: seq<nat>, k: nat)
    requires IndicesBelow(order, |cols|) && k <= |order|
    ensures forall r :: r in Greedy(order[..k], cols) ==> r in Greedy(order, cols)
    decreases |order|
  {
    if k < |order| {
      var prefix := order[..|order| - 1];
      assert prefix[..k] == order[..k];
      GreedyGrows(prefix, cols, k);
    } else {
      assert order[..k] == order;
    }
  }

  /** The first row visited is always matched. */
  lemma FirstRowMatched(order: seq<nat>, cols: seq<nat>)
    requires IndicesBelow(order, |cols|) && |order| > 0
    ensures order[0] in Greedy(order, cols)
  {
    GreedyGrows(order, cols, 1);
    assert order[..1][..0] == [];
    assert Sweep(order[..1][..0], cols) == Claims(map[], {});
  }

  /** The first index of an argsort has the smallest key. */
  lemma ArgsortFirstSmallest(order: seq<nat>, keys: seq<int>)
    requires IsArgsort(order, keys) && |order| > 0
    ensures forall i :: 0 <= i < |keys| ==> keys[order[0]] <= keys[i]
  {
    forall i | 0 <= i < |keys| ensures keys[order[0]] <= keys[i] {
      assert i in order;
      var k :| 0 <= k < |order| && order[k] == i;
      if k > 0 { assert keys[order[0]] <= keys[order[k]]; }
    }
  }

  /**
   * The greedy assignment always commits the globally closest pair: the row
   * that comes first in the sorted order is matched to its nearest detection,
   * and no track is nearer to any detection than that.
   */
  lemma ClosestPairMatched(oc: seq<Point>, ic: seq<Point>, order: seq<nat>)
    requires |oc| > 0 && |ic| > 0
    requires IsArgsort(order, RowMins(oc, ic, NearestCols(oc, ic)))
    ensures var cols := NearestCols(oc, ic);
            var g := Greedy(order, cols);
            && order[0] in g && g[order[0]] == cols[order[0]]
            && forall i, j :: 0 <= i < |oc| && 0 <= j < |ic| ==> SqDist(oc[order[0]], ic[g[order[0]]]) <= SqDist(oc[i], ic[j])
  {
    var cols := NearestCols(oc, ic);
    var keys := RowMins(oc, ic, cols);
    FirstRowMatched(order, cols);
    ArgsortFirstSmallest(order, keys);
    var first := order[0];
    forall i, j | 0 <= i < |oc| && 0 <= j < |ic|
      ensures SqDist(oc[first], ic[cols[first]]) <= SqDist(oc[i], ic[j])
    {
      assert keys[first] <= keys[i];
      NearestColsAt(oc, ic, i);
    }
  }

  /** Every listed ID is a key of both dictionaries. */
  predicate Listed(s: TrackerState) {
    forall i :: 0 <= i < |s.ids| ==> s.ids[i] in s.objects && s.ids[i] in s.disappeared
  }

  /**
   * The matching loop: the rows in `order` take their columns as Greedy says,
   * and nothing but the values of the matched tracks changes (MatchedRows).
   */
  function Matched(s: TrackerState, order: seq<nat>, cols: seq<nat>, ic: seq<Point>): (r: TrackerState)
    requires Listed(s)
    requires |cols| == |s.ids| && IndicesBelow(order, |cols|) && IndicesBelow(cols, |ic|)
    ensures r.nextObjectID == s.nextObjectID && r.ids == s.ids
    ensures r.objects.Keys == s.objects.Keys && r.disappeared.Keys == s.disappeared.Keys
    decreases |order|
  {
    if order == [] then s
    else
      var prefix := order[..|order| - 1];
      var t := Matched(s, prefix, cols, ic);
      var c := Sweep(prefix, cols);
      var row := order[|order| - 1];
      if row in c.pairs || cols[row] in c.usedCols then t
      else
        Moved(t, t.ids[row], ic[cols[row]])
  }

  /**
   * After the matching loop a track whose row Greedy matched sits at its
   * detection's centroid with miss count 0; any other track is as it was.
   */
  lemma {:induction false} MatchedRows(s: TrackerState, order: seq<nat>, cols: seq<nat>, ic: seq<Point>, row: nat)
    requires Listed(s) && Increasing(s.ids)
    requires |cols| == |s.ids| && IndicesBelow(order, |cols|) && IndicesBelow(cols, |ic|)
    requires row < |s.ids|
    ensures var r := Matched(s, order, cols, ic);
            var g := Greedy(order, cols);
            var id := s.ids[row];
            if row in g then r.objects[id] == ic[g[row]] && r.disappeared[id] == 0
            else r.objects[id] == s.objects[id] && r.disappeared[id] == s.disappeared[id]
    decreases |order|
  {
    if order != [] {
      var prefix := order[..|order| - 1];
      MatchedRows(s, prefix, cols, ic, row);
      var c := Sweep(prefix, cols);
      var last := order[|order| - 1];
      if !(last in c.pairs || cols[last] in c.usedCols) && last != row {
        assert s.ids[last] != s.ids[row];
      }
    }
  }

  /** The matching loop keeps the invariant: it only ever resets miss counts to 0. */
  lemma {:induction false} MatchedInv(s: TrackerState, order: seq<nat>, cols: seq<nat>, ic: seq<Point>, maxD: int)
    requires Inv(s, maxD)
    requires |cols| == |s.ids| && IndicesBelow(order, |cols|) && IndicesBelow(cols, |ic|)
    ensures Listed(s) && Inv(Matched(s, order, cols, ic), maxD)
    decreases |order|
  {
    if order != [] {
      var prefix := order[..|order| - 1];
      MatchedInv(s, prefix, cols, ic, maxD);
      var t := Matched(s, prefix, cols, ic);
      var c := Sweep(prefix, cols);
      var row := order[|order| - 1];
      if !(row in c.pairs || cols[row] in c.usedCols) {
        MovedStep(t, t.ids[row], ic[cols[row]], maxD);
      }
    }
  }

  /** The indices below n that are not in `used`, ascending. */
  function Unused(n: nat, used: set<nat>): (u: seq<nat>)
    ensures IndicesBelow(u, n)
  {
    if n == 0 then []
    else
      var u := Unused(n - 1, used);
      if n - 1 in used then u else u + [n - 1]
  }

  /** Unused lists every index below n outside `used`, and only those. */
  lemma {:induction false} UnusedMembers(n: nat, used: set<nat>)
    ensures forall i: nat :: i in Unused(n, used) <==> i < n && i !in used
  {
    if n > 0 { UnusedMembers(n - 1, used); }
  }

  /** Of n indices, those not used number n minus the used ones. */
  lemma {:induction false} UnusedCount(n: nat, used: set<nat>)
    requires forall i :: i in used ==> i < n
    ensures |Unused(n, used)| == n - |used|
  {
    if n > 0 {
      var rest := used - {n - 1};
      UnusedCount(n - 1, rest);
      UnusedLength(n, used, rest);
      if n - 1 in used {
        assert |rest| == |used| - 1;
      } else {
        assert rest == used;
      }
    }
  }

  lemma UnusedLength(n: nat, used: set<nat>, rest: set<nat>)
    requires n > 0 && rest == used - {n - 1}
    ensures |Unused(n, used)| == |Unused(n - 1, rest)| + if n - 1 in used then 0 else 1
  {
    UnusedIgnoresAbove(n - 1, used, rest);
  }

  lemma {:induction false} UnusedIgnoresAbove(n: nat, a: set<nat>, b: set<nat>)
    requires forall i: nat :: i < n ==> (i in a <==> i in b)
    ensures Unused(n, a) == Unused(n, b)
  {
    if n > 0 { UnusedIgnoresAbove(n - 1, a, b); }
  }

  /** The elements of `s` at the listed indices. */
  function Pick<T>(s: seq<T>, idx: seq<nat>): (r: seq<T>)
    requires IndicesBelow(idx, |s|)
    ensures |r| == |idx| && forall j :: 0 <= j < |idx| ==> r[j] == s[idx[j]]
  {
    seq(|idx|, j requires 0 <= j < |idx| => s[idx[j]])
  }

  /**
   * `unusedRows` mapped to their track IDs, in ascending row order: the IDs at
   * the rows the matching left out, still ascending.
   */
  function UnmatchedIds(ids: seq<int>, matched: set<nat>): (r: seq<int>)
    requires Increasing(ids)
    ensures Distinct(r)
    ensures forall x :: x in r ==> x in ids
    ensures forall k :: 0 <= k < |ids| ==> (ids[k] in r <==> k !in matched)
    decreases |ids|
  {
    if ids == [] then []
    else
      var n := |ids| - 1;
      var r := UnmatchedIds(ids[..n], matched);
      UnmatchedIdsLast(ids, matched, r);
      if n in matched then r else r + [ids[n]]
  }

  /** The step of UnmatchedIds: appending the last ID, when its row is unmatched, keeps all three properties. */
  lemma UnmatchedIdsLast(ids: seq<int>, matched: set<nat>, r: seq<int>)
    requires Increasing(ids) && ids != []
    requires Distinct(r) && forall x :: x in r ==> x in ids[..|ids| - 1]
    requires forall k :: 0 <= k < |ids| - 1 ==> (ids[..|ids| - 1][k] in r <==> k !in matched)
    ensures var n := |ids| - 1;
            var r' := if n in matched then r else r + [ids[n]];
            && Distinct(r')
            && (forall x :: x in r' ==> x in ids)
            && (forall k :: 0 <= k < |ids| ==> (ids[k] in r' <==> k !in matched))
  {
    var n := |ids| - 1;
    var front := ids[..n];
    assert forall x :: x in r ==> x in ids && x < ids[n] by {
      forall x | x in r ensures x in ids && x < ids[n] {
        var j :| 0 <= j < n && front[j] == x;
        assert ids[j] == x;
      }
    }
    var r' := if n in matched then r else r + [ids[n]];
    assert Distinct(r') by {
      forall i, j | 0 <= i < j < |r'| ensures r'[i] != r'[j] {
        if j == |r| { assert r'[i] == r[i]; assert r[i] in r; }
      }
    }
    forall k | 0 <= k < |ids| ensures ids[k] in r' <==> k !in matched {
      if k < n {
        assert front[k] == ids[k];
        assert ids[k] != ids[n];
      }
    }
  }

  // ---------------------------------------------------------------------------
  // One call of update

  /** `inputCentroids`: the centroid of every detection, in input order. */
  function Centroids(rects: seq<Box>): (cs: seq<Point>)
    ensures |cs| == |rects| && forall i :: 0 <= i < |rects| ==> cs[i] == Centroid(rects[i])
  {
    seq(|rects|, i requires 0 <= i < |rects| => Centroid(rects[i]))
  }

  /** `objectCentroids`: the tracked centroids in key order. */
  function ObjectCentroids(s: TrackerState): (oc: seq<Point>)
    requires forall i :: 0 <= i < |s.ids| ==> s.ids[i] in s.objects
    ensures |oc| == |s.ids|
  {
    Lookup(s.objects, s.ids)
  }

  /** The values of `m` at the keys of `keys`, in order. */
  function Lookup(m: map<int, Point>, keys: seq<int>): (vs: seq<Point>)
    requires forall i :: 0 <= i < |keys| ==> keys[i] in m
    ensures |vs| == |keys| && forall i :: 0 <= i < |keys| ==> vs[i] == m[keys[i]]
  {
    seq(|keys|, i requires 0 <= i < |keys| => m[keys[i]])
  }

  /** `D.argmin(axis=1)`: every track's nearest detection, rows in key order. */
  function Cols(s: TrackerState, rects: seq<Box>): (cols: seq<nat>)
    requires Listed(s) && |rects| > 0
    ensures |cols| == |s.ids| && IndicesBelow(cols, |rects|)
  {
    NearestCols(ObjectCentroids(s), Centroids(rects))
  }

  /** `rows`: the tracks' rows sorted by their distance to their nearest detection. */
  function Rows(s: TrackerState, rects: seq<Box>): (order: seq<nat>)
    requires Listed(s) && |rects| > 0
    ensures IndicesBelow(order, |s.ids|)
  {
    var oc := ObjectCentroids(s);
    ArgSort(RowMins(oc, Centroids(rects), Cols(s, rects)))
  }

  /** The greedy assignment of tracks (rows, in key order) to detections (columns). */
  function Assignment(s: TrackerState, rects: seq<Box>): (g: map<nat, nat>)
    requires Listed(s) && |rects| > 0
    ensures forall row :: row in g ==> row < |s.ids| && g[row] < |rects|
  {
    Greedy(Rows(s, rects), Cols(s, rects))
  }

  /** `usedCols` after the matching loop. */
  function UsedCols(s: TrackerState, rects: seq<Box>): (used: set<nat>)
    requires Listed(s) && |rects| > 0
    ensures forall row :: row in Assignment(s, rects) ==> Assignment(s, rects)[row] in used
  {
    Sweep(Rows(s, rects), Cols(s, rects)).usedCols
  }

  /** The tracks once the matching loop has committed the assignment. */
  function Rematched(s: TrackerState, rects: seq<Box>): (r: TrackerState)
    requires Listed(s) && |rects| > 0
    ensures Listed(r) && SameKeys(s) ==> SameKeys(r)
    ensures r.nextObjectID == s.nextObjectID && r.ids == s.ids && r.objects.Keys == s.objects.Keys
  {
    Matched(s, Rows(s, rects), Cols(s, rects), Centroids(rects))
  }

  /** The tracks once the unmatched ones (`unusedRows`, ascending) have missed this frame. */
  function Aged(s: TrackerState, rects: seq<Box>, maxD: int): (r: TrackerState)
    requires Inv(s, maxD) && |rects| > 0
    ensures r.nextObjectID == s.nextObjectID
  {
    MissedEach(Rematched(s, rects), UnmatchedIds(s.ids, Assignment(s, rects).Keys), maxD)
  }

  /** The centroids of the unmatched detections (`unusedCols`, ascending). */
  function Unclaimed(s: TrackerState, rects: seq<Box>): (cs: seq<Point>)
    requires Listed(s) && |rects| > 0
    ensures var u := Unused(|rects|, UsedCols(s, rects));
            |cs| == |u| && forall k :: 0 <= k < |u| ==> cs[k] == Centroid(rects[u[k]])
  {
    Pick(Centroids(rects), Unused(|rects|, UsedCols(s, rects)))
  }

  /**
   * `update(rects)`. An empty frame ages every track. Otherwise, with no
   * tracks every detection is registered; with tracks, the greedy assignment
   * is committed, the unmatched tracks age and the unmatched detections are
   * registered. The counter never goes down.
   */
  function Updated(s: TrackerState, rects: seq<Box>, maxD: int): (r: TrackerState)
    requires Inv(s, maxD)
    ensures SameKeys(r) && s.nextObjectID <= r.nextObjectID
  {
    IncreasingDistinct(s.ids);
    if |rects| == 0 then MissedEach(s, s.ids, maxD)
    else if |s.objects| == 0 then
      RegisteredEachInv(s, Centroids(rects), maxD);
      RegisteredEach(s, Centroids(rects))
    else
      MatchedInv(s, Rows(s, rects), Cols(s, rects), Centroids(rects), maxD);
      MissedEachInv(Rematched(s, rects), UnmatchedIds(s.ids, Assignment(s, rects).Keys), maxD);
      RegisteredEachInv(Aged(s, rects, maxD), Unclaimed(s, rects), maxD);
      RegisteredEach(Aged(s, rects, maxD), Unclaimed(s, rects))
  }

  /** `update` leads from a reachable state to a reachable state. */
  lemma UpdatedInv(s: TrackerState, rects: seq<Box>, maxD: int)
    requires Inv(s, maxD)
    ensures Inv(Updated(s, rects, maxD), maxD)
  {
    IncreasingDistinct(s.ids);
    if |rects| == 0 {
      MissedEachInv(s, s.ids, maxD);
    } else if |s.objects| == 0 {
      RegisteredEachInv(s, Centroids(rects), maxD);
    } else {
      MatchedInv(s, Rows(s, rects), Cols(s, rects), Centroids(rects), maxD);
      MissedEachInv(Rematched(s, rects), UnmatchedIds(s.ids, Assignment(s, rects).Keys), maxD);
      RegisteredEachInv(Aged(s, rects, maxD), Unclaimed(s, rects), maxD);
    }
  }

  /**
   * A track present after `update` that was not there before carries an ID
   * issued by this very call, at or above the old counter.
   */
  lemma UpdatedNewIds(s: TrackerState, rects: seq<Box>, maxD: int, id: int)
    requires Inv(s, maxD)
    ensures var r := Updated(s, rects, maxD);
            id in r.objects && id !in s.objects ==> s.nextObjectID <= id < r.nextObjectID
  {
    IncreasingDistinct(s.ids);
    if |rects| == 0 {
      MissedEachKeys(s, s.ids, maxD, id);
    } else if |s.objects| == 0 {
      RegisteredEachKeys(s, Centroids(rects));
    } else {
      MissedEachKeys(Rematched(s, rects), UnmatchedIds(s.ids, Assignment(s, rects).Keys), maxD, id);
      RegisteredEachKeys(Aged(s, rects, maxD), Unclaimed(s, rects));
    }
  }

  /** Frame after frame: `update` called once per detection list, in order. */
  function Run(s: TrackerState, frames: seq<seq<Box>>, maxD: int): (r: TrackerState)
    requires Inv(s, maxD)
    ensures Inv(r, maxD) && s.nextObjectID <= r.nextObjectID
    decreases |frames|
  {
    if frames == [] then s
    else
      UpdatedInv(s, frames[0], maxD);
      Run(Updated(s, frames[0], maxD), frames[1..], maxD)
  }

  /**
   * An ID is never issued twice: an ID below the counter that no track holds
   * (it was deregistered) is held by no track after any number of frames.
   */
  lemma {:induction false} IdsNeverReissued(s: TrackerState, frames: seq<seq<Box>>, maxD: int, id: int)
    requires Inv(s, maxD) && id < s.nextObjectID && id !in s.objects
    ensures id !in Run(s, frames, maxD).objects
    decreases |frames|
  {
    if frames != [] {
      UpdatedNewIds(s, frames[0], maxD, id);
      UpdatedInv(s, frames[0], maxD);
      IdsNeverReissued(Updated(s, frames[0], maxD), frames[1..], maxD, id);
    }
  }

  /**
   * An empty frame: no ID is issued, a track stays exactly when its raised
   * count is within the threshold, and a track that stays keeps its centroid
   * and has its count raised by one.
   */
  lemma EmptyFrameAges(s: TrackerState, maxD: int, id: int)
    requires Inv(s, maxD)
    ensures var r := Updated(s, [], maxD);
            && r.nextObjectID == s.nextObjectID
            && (id in r.objects <==> id in s.objects && s.disappeared[id] + 1 <= maxD)
            && (id in r.objects ==> r.objects[id] == s.objects[id] && r.disappeared[id] == s.disappeared[id] + 1)
  {
    IncreasingDistinct(s.ids);
    MissedEachKeys(s, s.ids, maxD, id);
    if id in Updated(s, [], maxD).objects {
      MissedEachValues(s, s.ids, maxD, id);
    }
  }

  /** n frames without detections. */
  function EmptyFrames(n: nat): (frames: seq<seq<Box>>)
    ensures |frames| == n && forall k :: 0 <= k < n ==> frames[k] == []
  {
    seq(n, k => [])
  }

  /**
   * After n empty frames a track is still there exactly when its count plus n
   * is within the threshold; it then holds its old centroid and count plus n.
   */
  lemma {:induction false} EmptyFramesAge(s: TrackerState, n: nat, maxD: int, id: int)
    requires Inv(s, maxD) && 0 <= maxD
    ensures var r := Run(s, EmptyFrames(n), maxD);
            && (id in r.objects <==> id in s.objects && s.disappeared[id] + n <= maxD)
            && (id in r.objects ==> r.objects[id] == s.objects[id] && r.disappeared[id] == s.disappeared[id] + n)
    decreases n
  {
    if n > 0 {
      var t := Updated(s, [], maxD);
      UpdatedInv(s, [], maxD);
      EmptyFrameAges(s, maxD, id);
      EmptyFramesAge(t, n - 1, maxD, id);
      var frames := EmptyFrames(n);
      assert frames[1..] == EmptyFrames(n - 1);
      assert Run(s, frames, maxD) == Run(t, EmptyFrames(n - 1), maxD);
    } else {
      assert EmptyFrames(n) == [];
    }
  }

  /** maxDisappeared + 1 empty frames in a row clear every track. */
  lemma EmptyFramesClear(s: TrackerState, maxD: int)
    requires Inv(s, maxD) && maxD >= 0
    ensures Run(s, EmptyFrames(maxD + 1), maxD).objects == map[]
  {
    var r := Run(s, EmptyFrames(maxD + 1), maxD);
    forall id | id in r.objects ensures false {
      EmptyFramesAge(s, maxD + 1, maxD, id);
    }
  }

  /**
   * With no tracks, every detection of a frame becomes a track: the i-th
   * takes ID nextObjectID + i, at its centroid, with miss count 0.
   */
  lemma FirstFrameRegisters(s: TrackerState, rects: seq<Box>, maxD: int)
    requires Inv(s, maxD) && |s.objects| == 0 && |rects| > 0
    ensures var r := Updated(s, rects, maxD);
            && r.nextObjectID == s.nextObjectID + |rects|
            && (forall id :: id in r.objects <==> s.nextObjectID <= id < r.nextObjectID)
            && (forall i :: 0 <= i < |rects| ==>
                  r.objects[s.nextObjectID + i] == Centroid(rects[i]) && r.disappeared[s.nextObjectID + i] == 0)
  {
    var ic := Centroids(rects);
    RegisteredEachKeys(s, ic);
    forall i | 0 <= i < |rects|
      ensures var r := Updated(s, rects, maxD);
              r.objects[s.nextObjectID + i] == Centroid(rects[i]) && r.disappeared[s.nextObjectID + i] == 0
    {
      RegisteredEachNew(s, ic, i);
    }
  }

  /**
   * A frame with detections while tracks exist, seen from a track Greedy
   * matched: it keeps its ID, moves to its detection's centroid, and its miss
   * count is reset to 0.
   */
  lemma MatchedTrackFollows(s: TrackerState, rects: seq<Box>, maxD: int, row: nat)
    requires Inv(s, maxD) && |rects| > 0 && |s.objects| > 0
    requires row in Assignment(s, rects)
    ensures var r := Updated(s, rects, maxD);
            var id := s.ids[row];
            && id in r.objects
            && r.objects[id] == Centroid(rects[Assignment(s, rects)[row]])
            && r.disappeared[id] == 0
  {
    var s1 := Rematched(s, rects);
    MatchedRows(s, Rows(s, rects), Cols(s, rects), Centroids(rects), row);
    var missed := UnmatchedIds(s.ids, Assignment(s, rects).Keys);
    var id := s.ids[row];
    MissedEachKeys(s1, missed, maxD, id);
    MissedEachValues(s1, missed, maxD, id);
    RegisteredEachKeeps(Aged(s, rects, maxD), Unclaimed(s, rects));
  }

  /**
   * The same frame seen from a track Greedy left unmatched: it stays exactly
   * when its raised count is within the threshold, and then keeps its
   * centroid with the count raised by one.
   */
  lemma UnmatchedTrackAges(s: TrackerState, rects: seq<Box>, maxD: int, row: nat)
    requires Inv(s, maxD) && |rects| > 0 && |s.objects| > 0
    requires row < |s.ids| && row !in Assignment(s, rects)
    ensures var r := Updated(s, rects, maxD);
            var id := s.ids[row];
            && (id in r.objects <==> s.disappeared[id] + 1 <= maxD)
            && (id in r.objects ==> r.objects[id] == s.objects[id] && r.disappeared[id] == s.disappeared[id] + 1)
  {
    var s1 := Rematched(s, rects);
    MatchedRows(s, Rows(s, rects), Cols(s, rects), Centroids(rects), row);
    var missed := UnmatchedIds(s.ids, Assignment(s, rects).Keys);
    var id := s.ids[row];
    MissedEachKeys(s1, missed, maxD, id);
    var s2 := Aged(s, rects, maxD);
    if id in s2.objects {
      MissedEachValues(s1, missed, maxD, id);
    }
    RegisteredEachKeys(s2, Unclaimed(s, rects));
    RegisteredEachKeeps(s2, Unclaimed(s, rects));
    assert id < s.nextObjectID;
  }

  /**
   * The same frame seen from the detections: `update` registers the
   * unmatched detections (Unclaimed, ascending column order) on top of the
   * aged tracks, so RegisteredEachNew gives the k-th of them the ID
   * nextObjectID + k, and the counter advances by their number.
   */
  lemma UnmatchedDetectionsRegistered(s: TrackerState, rects: seq<Box>, maxD: int)
    requires Inv(s, maxD) && |rects| > 0 && |s.objects| > 0
    ensures Updated(s, rects, maxD) == RegisteredEach(Aged(s, rects, maxD), Unclaimed(s, rects))
    ensures Updated(s, rects, maxD).nextObjectID == s.nextObjectID + |rects| - |Assignment(s, rects)|
  {
    UnmatchedDetectionCount(s, rects);
  }

  /**
   * Registering two lists of the same length ends with the same counter and
   * the same track IDs, and leaves the old tracks as they were.
   */
  lemma RegisteredEachSameShape(t: TrackerState, a: seq<Point>, b: seq<Point>)
    requires |a| == |b|
    ensures var ra, rb := RegisteredEach(t, a), RegisteredEach(t, b);
            && ra.nextObjectID == rb.nextObjectID
            && ra.objects.Keys == rb.objects.Keys
            && (forall id :: id in t.objects && id < t.nextObjectID ==>
                  id in ra.objects && id in rb.objects && ra.objects[id] == rb.objects[id])
  {
    var ra, rb := RegisteredEach(t, a), RegisteredEach(t, b);
    RegisteredEachKeys(t, a);
    RegisteredEachKeys(t, b);
    RegisteredEachKeeps(t, a);
    RegisteredEachKeeps(t, b);
    assert forall id :: id in ra.objects <==> id in rb.objects;
  }

  /** A reordering of indices below n has the same length and indices below n. */
  lemma Reordered(cols: seq<nat>, order: seq<nat>, n: nat)
    requires IndicesBelow(cols, n) && multiset(order) == multiset(cols)
    ensures IndicesBelow(order, n) && |order| == |cols|
  {
    forall i | 0 <= i < |order| ensures order[i] < n {
      assert order[i] in multiset(order);
      assert order[i] in cols;
    }
    assert |multiset(order)| == |multiset(cols)|;
  }

  /** Registering from `t` to `r` gave the k-th centroid picked by `order` the ID nextObjectID + k, with count 0. */
  predicate BornInOrder(t: TrackerState, r: TrackerState, cs: seq<Point>, order: seq<nat>) {
    forall k :: 0 <= k < |order| ==>
      && t.nextObjectID + k in r.objects && t.nextObjectID + k in r.disappeared
      && order[k] < |cs| && r.objects[t.nextObjectID + k] == cs[order[k]] && r.disappeared[t.nextObjectID + k] == 0
  }

  /**
   * Registering the centroids at the indices `cols` or at any reordering
   * `order` of them ends with the same counter, the same track IDs and the
   * old tracks unchanged; the k-th index visited gets nextObjectID + k.
   */
  lemma RegisteredInAnyOrder(t: TrackerState, cs: seq<Point>, cols: seq<nat>, order: seq<nat>)
    requires IndicesBelow(cols, |cs|) && multiset(order) == multiset(cols)
    ensures IndicesBelow(order, |cs|)
    ensures var r := RegisteredEach(t, Pick(cs, order));
            var u := RegisteredEach(t, Pick(cs, cols));
            && r.nextObjectID == u.nextObjectID
            && r.objects.Keys == u.objects.Keys
            && (forall id :: id in t.objects && id < t.nextObjectID ==>
                  id in r.objects && id in u.objects && r.objects[id] == u.objects[id])
    ensures BornInOrder(t, RegisteredEach(t, Pick(cs, order)), cs, order)
  {
    Reordered(cols, order, |cs|);
    var picked := Pick(cs, order);
    RegisteredEachSameShape(t, picked, Pick(cs, cols));
    var r := RegisteredEach(t, picked);
    forall k | 0 <= k < |order|
      ensures && t.nextObjectID + k in r.objects && t.nextObjectID + k in r.disappeared
              && order[k] < |cs| && r.objects[t.nextObjectID + k] == cs[order[k]] && r.disappeared[t.nextObjectID + k] == 0
    {
      RegisteredEachNew(t, picked, k);
    }
    assert BornInOrder(t, r, cs, order);
  }

  /** Detections left unmatched number the detections minus the matches. */
  lemma UnmatchedDetectionCount(s: TrackerState, rects: seq<Box>)
    requires Listed(s) && |rects| > 0
    ensures |Unclaimed(s, rects)| == |rects| - |Assignment(s, rects)|
  {
    var g := Assignment(s, rects);
    GreedyCard(Rows(s, rects), Cols(s, rects));
    UsedColsCommitted(Rows(s, rects), Cols(s, rects));
    forall v | v in g.Values ensures v < |rects| {
      var row :| row in g && g[row] == v;
    }
    UnusedCount(|rects|, g.Values);
  }
}
