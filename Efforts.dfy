/** The best-effort engine of best_efforts.js: the catalog of target
    distances, the windowed search for the fastest segment of one run, the
    per-run map from effort label to record, and the leaderboard of one
    effort across runs. Distances are kilometres and durations seconds, both
    cumulative from the start of the run. */
module Efforts {
  import opened Wrappers
  import opened Sorting

  /** One target distance of the catalog; `name` is best_efforts.js's `label`. */
  datatype EffortType = EffortType(name: string, distance: real)

  /** The record findFastest builds: the target it was searched for, the
      sample indices of the segment, its speed in m/s, duration and distance. */
  datatype BestEffort = BestEffort(
    effortDistance: real,
    start: nat,
    end: nat,
    speed: real,
    duration: real,
    distance: real)

  const MILE: real := 1.609344
  /** Length of a leaderboard. */
  const TOP_EFFORTS: nat := 10

  /** The catalog in its declaration order. */
  const EFFORT_TYPES: seq<EffortType> := [
    EffortType("400m", 0.4),
    EffortType("1k", 1.0),
    EffortType("2k", 2.0),
    EffortType("3k", 3.0),
    EffortType("5k", 5.0),
    EffortType("10k", 10.0),
    EffortType("13k", 13.0),
    EffortType("20k", 20.0),
    EffortType("1/2 mile", MILE / 2.0),
    EffortType("1 mile", MILE),
    EffortType("2 miles", MILE * 2.0),
    EffortType("5 miles", MILE * 5.0),
    EffortType("10 miles", MILE * 10.0),
    EffortType("Half-marathon", 42.194988 / 2.0),
    EffortType("Marathon", 42.194988)
  ]

  function DistanceOf(e: EffortType): real { e.distance }

  // ---------------------------------------------------------------------
  // Catalog order

  /** The comparator sort of the catalog: afterwards the catalog is in
      non-decreasing distance order (see CatalogOrder). */
  method SortEffortTypes(effortTypes: array<EffortType>)
    modifies effortTypes
    ensures effortTypes[..] == SortByKey(old(effortTypes[..]), DistanceOf)
  {
    SortInPlace(effortTypes, DistanceOf);
  }

  lemma CatalogOrder(catalog: seq<EffortType>)
    ensures SortedBy(SortByKey(catalog, DistanceOf), DistanceOf)
    ensures multiset(SortByKey(catalog, DistanceOf)) == multiset(catalog)
  {
    SortByKeyIsStableSort(catalog, DistanceOf);
  }

  // ---------------------------------------------------------------------
  // Tracks

  ghost predicate NonDecreasing(s: seq<real>)
  {
    forall i, j :: 0 <= i <= j < |s| ==> s[i] <= s[j]
  }

  ghost predicate StrictlyIncreasing(s: seq<real>)
  {
    forall i, j :: 0 <= i < j < |s| ==> s[i] < s[j]
  }

  /** Cumulative distance and duration samples of one run. Durations must
      increase strictly so that no segment that gains distance has a zero
      duration (findFastest would divide by zero there). */
  ghost predicate ValidTrack(distances: seq<real>, durations: seq<real>)
  {
    |distances| == |durations| && NonDecreasing(distances) && StrictlyIncreasing(durations)
  }

  // ---------------------------------------------------------------------
  // Segment search

  /** The first end index at or after `from` whose segment from `start`
      covers `dist`, as the inner loop of findFastest scans for it. */
  function FirstReach(distances: seq<real>, start: nat, dist: real, from: nat): (r: Option<nat>)
    requires start < |distances|
    ensures r.Some? ==> from <= r.value < |distances| && distances[r.value] - distances[start] >= dist
    ensures r.Some? ==> forall k :: from <= k < r.value ==> distances[k] - distances[start] < dist
    ensures r.None? ==> forall k :: from <= k < |distances| ==> distances[k] - distances[start] < dist
    decreases |distances| - from
  {
    if from >= |distances| then None
    else if distances[from] - distances[start] >= dist then Some(from)
    else FirstReach(distances, start, dist, from + 1)
  }

  /** The one window findFastest considers for `start`: the segment to the
      first end index that covers `dist` (see WindowIsMinimal and
      WindowFits). */
  function Window(distances: seq<real>, durations: seq<real>, dist: real, start: nat): (r: Option<BestEffort>)
    requires ValidTrack(distances, durations) && dist > 0.0 && start < |distances|
    ensures r.Some? ==> r.value.start == start && start < r.value.end < |distances|
  {
    match FirstReach(distances, start, dist, 0)
    case None => None
    case Some(end) =>
      assert distances[end] - distances[start] > 0.0;
      var segmentDistance := distances[end] - distances[start];
      var segmentDuration := durations[end] - durations[start];
      Some(BestEffort(dist, start, end, segmentDistance * 1000.0 / segmentDuration,
                      segmentDuration, segmentDistance))
  }

  /** A window covers the target, has a positive duration, and its speed is
      its distance in metres over its duration. */
  lemma WindowFits(distances: seq<real>, durations: seq<real>, dist: real, start: nat)
    requires ValidTrack(distances, durations) && dist > 0.0 && start < |distances|
    ensures var r := Window(distances, durations, dist, start);
      r.Some? ==>
        && r.value.effortDistance == dist
        && r.value.distance == distances[r.value.end] - distances[start] >= dist
        && r.value.duration == durations[r.value.end] - durations[start] > 0.0
        && r.value.speed == r.value.distance * 1000.0 / r.value.duration
  {
    var f := FirstReach(distances, start, dist, 0);
    if f.Some? {
      assert durations[start] < durations[f.value];
    }
  }

  /** The window of a start ends at the smallest index whose segment covers
      `dist`; no later end is tried. There is no window exactly when no end
      covers `dist`. */
  lemma WindowIsMinimal(distances: seq<real>, durations: seq<real>, dist: real, start: nat)
    requires ValidTrack(distances, durations) && dist > 0.0 && start < |distances|
    ensures var r := Window(distances, durations, dist, start);
      && (r.Some? ==> forall k :: 0 <= k < r.value.end ==> distances[k] - distances[start] < dist)
      && (r.None? <==> forall k :: 0 <= k < |distances| ==> distances[k] - distances[start] < dist)
  {
    var f := FirstReach(distances, start, dist, 0);
    if f.Some? {
      assert distances[f.value] - distances[start] >= dist;
    }
  }

  /** The windows of all starts, in start order. */
  function Windows(distances: seq<real>, durations: seq<real>, dist: real): (ws: seq<Option<BestEffort>>)
    requires ValidTrack(distances, durations) && dist > 0.0
    ensures |ws| == |distances|
    ensures forall i :: 0 <= i < |ws| ==> ws[i] == Window(distances, durations, dist, i)
  {
    seq(|distances|, i requires 0 <= i < |distances| => Window(distances, durations, dist, i))
  }

  /** The best of the first `k` candidates: a later candidate replaces the
      current best only when it is strictly faster. */
  function FirstFastest(ws: seq<Option<BestEffort>>, k: nat): Option<BestEffort>
    requires k <= |ws|
  {
    if k == 0 then None
    else
      var best := FirstFastest(ws, k - 1);
      var w := ws[k - 1];
      if w.Some? && (best.None? || w.value.speed > best.value.speed) then w else best
  }

  /** What findFastest returns. */
  function Fastest(distances: seq<real>, durations: seq<real>, dist: real): Option<BestEffort>
    requires ValidTrack(distances, durations) && dist > 0.0
  {
    FirstFastest(Windows(distances, durations, dist), |distances|)
  }

  /** findFastest: for every start, scan the end index from 0 up to the first
      one that covers `dist`, keep that window if it is strictly faster than
      the best so far, and move on to the next start. */
  method FindFastest(dist: real, distances: seq<real>, durations: seq<real>) returns (best: Option<BestEffort>)
    requires ValidTrack(distances, durations) && dist > 0.0
    ensures best == Fastest(distances, durations, dist)
  {
    var segmentNumber := |distances|;
    ghost var windows := Windows(distances, durations, dist);
    best := None;
    label Start:
    for indexStart := 0 to segmentNumber
      invariant best == FirstFastest(windows, indexStart)
    {
      ghost var previous := best;
      for indexEnd := 0 to segmentNumber
        invariant best == previous
        invariant FirstReach(distances, indexStart, dist, 0) == FirstReach(distances, indexStart, dist, indexEnd)
      {
        var segmentDistance := distances[indexEnd] - distances[indexStart];
        if segmentDistance >= dist {
          assert indexStart < indexEnd;
          var segmentDuration := durations[indexEnd] - durations[indexStart];
          var speed := (segmentDistance * 1000.0) / segmentDuration;
          assert windows[indexStart] == Some(BestEffort(dist, indexStart, indexEnd, speed, segmentDuration, segmentDistance));
          if best.None? || speed > best.value.speed {
            best := Some(BestEffort(dist, indexStart, indexEnd, speed, segmentDuration, segmentDistance));
          }
          continue Start;
        }
      }
      assert windows[indexStart] == None;
    }
  }

  /** Starting the inner scan at 0, as findFastest does, finds the same end
      as starting it at the start index: no earlier end can cover a positive
      distance on a non-decreasing track. */
  lemma FirstReachFromStart(distances: seq<real>, start: nat, dist: real)
    requires NonDecreasing(distances) && dist > 0.0 && start < |distances|
    ensures FirstReach(distances, start, dist, 0) == FirstReach(distances, start, dist, start)
  {
    SkipUnreached(distances, start, dist, 0);
  }

  lemma {:induction false} SkipUnreached(distances: seq<real>, start: nat, dist: real, from: nat)
    requires NonDecreasing(distances) && dist > 0.0 && from <= start < |distances|
    ensures FirstReach(distances, start, dist, from) == FirstReach(distances, start, dist, start)
    decreases start - from
  {
    if from < start {
      assert distances[from] <= distances[start];
      SkipUnreached(distances, start, dist, from + 1);
    }
  }

  /** The best of the first `k` candidates is None exactly when all of them
      are None. */
  lemma {:induction false} FirstFastestNoneIff(ws: seq<Option<BestEffort>>, k: nat)
    requires k <= |ws|
    ensures FirstFastest(ws, k).None? <==> forall i :: 0 <= i < k ==> ws[i].None?
  {
    if k > 0 {
      FirstFastestNoneIff(ws, k - 1);
    }
  }

  /** The best of the first `k` candidates is at least as fast as each. */
  lemma {:induction false} FirstFastestIsMax(ws: seq<Option<BestEffort>>, k: nat)
    requires k <= |ws|
    ensures forall i :: 0 <= i < k && ws[i].Some? ==>
      FirstFastest(ws, k).Some? && ws[i].value.speed <= FirstFastest(ws, k).value.speed
  {
    if k > 0 {
      FirstFastestIsMax(ws, k - 1);
    }
  }

  /** The best of the first `k` candidates is one of them, and every earlier
      candidate is strictly slower: among equally fast candidates the first
      one wins. */
  lemma {:induction false} FirstFastestIsFirst(ws: seq<Option<BestEffort>>, k: nat)
    requires k <= |ws|
    ensures var r := FirstFastest(ws, k);
      r.Some? ==> exists j :: (0 <= j < k && ws[j] == r &&
        forall i :: 0 <= i < j && ws[i].Some? ==> ws[i].value.speed < r.value.speed)
  {
    if k > 0 {
      var best := FirstFastest(ws, k - 1);
      var w := ws[k - 1];
      if w.Some? && (best.None? || w.value.speed > best.value.speed) {
        FirstFastestIsMax(ws, k - 1);
        assert ws[k - 1] == FirstFastest(ws, k);
      } else {
        FirstFastestIsFirst(ws, k - 1);
      }
    }
  }

  /** findFastest's result is None exactly when no start has a window;
      otherwise it is the window of its own start, at least as fast as every
      window, and strictly faster than the window of every earlier start, so
      among equally fast windows the earliest start wins. */
  lemma FastestIsFirstArgMax(distances: seq<real>, durations: seq<real>, dist: real)
    requires ValidTrack(distances, durations) && dist > 0.0
    ensures var r := Fastest(distances, durations, dist);
      && (r.None? <==> forall i :: 0 <= i < |distances| ==> Window(distances, durations, dist, i).None?)
      && (r.Some? ==> r.value.start < |distances| && Window(distances, durations, dist, r.value.start) == r)
      && (r.Some? ==> forall i :: 0 <= i < |distances| && Window(distances, durations, dist, i).Some? ==>
            Window(distances, durations, dist, i).value.speed <= r.value.speed)
      && (r.Some? ==> forall i :: 0 <= i < r.value.start && Window(distances, durations, dist, i).Some? ==>
            Window(distances, durations, dist, i).value.speed < r.value.speed)
  {
    FastestNoneIffNoWindow(distances, durations, dist);
    FastestIsEarliestWindow(distances, durations, dist);
    FastestIsMaxWindow(distances, durations, dist);
  }

  lemma FastestNoneIffNoWindow(distances: seq<real>, durations: seq<real>, dist: real)
    requires ValidTrack(distances, durations) && dist > 0.0
    ensures Fastest(distances, durations, dist).None?
        <==> forall i :: 0 <= i < |distances| ==> Window(distances, durations, dist, i).None?
  {
    var ws := Windows(distances, durations, dist);
    FirstFastestNoneIff(ws, |distances|);
  }

  lemma FastestIsMaxWindow(distances: seq<real>, durations: seq<real>, dist: real)
    requires ValidTrack(distances, durations) && dist > 0.0
    ensures var r := Fastest(distances, durations, dist);
      forall i :: 0 <= i < |distances| && Window(distances, durations, dist, i).Some? ==>
        r.Some? && Window(distances, durations, dist, i).value.speed <= r.value.speed
  {
    var ws := Windows(distances, durations, dist);
    FirstFastestIsMax(ws, |distances|);
  }

  lemma FastestIsEarliestWindow(distances: seq<real>, durations: seq<real>, dist: real)
    requires ValidTrack(distances, durations) && dist > 0.0
    ensures var r := Fastest(distances, durations, dist);
      r.Some? ==>
        && r.value.start < |distances| && Window(distances, durations, dist, r.value.start) == r
        && forall i :: 0 <= i < r.value.start && Window(distances, durations, dist, i).Some? ==>
             Window(distances, durations, dist, i).value.speed < r.value.speed
  {
    var ws := Windows(distances, durations, dist);
    var n := |distances|;
    var r := FirstFastest(ws, n);
    FirstFastestIsFirst(ws, n);
    if r.Some? {
      var j :| 0 <= j < n && ws[j] == r &&
        (forall i :: 0 <= i < j && ws[i].Some? ==> ws[i].value.speed < r.value.speed);
      assert r.value.start == j;
    }
  }

  /** Every record findFastest returns fits its indices and its speed formula. */
  lemma FastestFits(distances: seq<real>, durations: seq<real>, dist: real)
    requires ValidTrack(distances, durations) && dist > 0.0
    ensures var r := Fastest(distances, durations, dist);
      r.Some? ==>
        && r.value.effortDistance == dist
        && r.value.start < r.value.end < |distances|
        && r.value.distance == distances[r.value.end] - distances[r.value.start] >= dist
        && r.value.duration == durations[r.value.end] - durations[r.value.start] > 0.0
        && r.value.speed == r.value.distance * 1000.0 / r.value.duration
  {
    FastestIsFirstArgMax(distances, durations, dist);
    var r := Fastest(distances, durations, dist);
    if r.Some? {
      WindowFits(distances, durations, dist, r.value.start);
    }
  }

  /** findFastest finds nothing exactly when the whole run, from its first
      sample to its last, is shorter than the target. */
  lemma FastestNoneIff(distances: seq<real>, durations: seq<real>, dist: real)
    requires ValidTrack(distances, durations) && dist > 0.0
    ensures Fastest(distances, durations, dist).None?
        <==> (|distances| == 0 || distances[|distances| - 1] - distances[0] < dist)
  {
    var n := |distances|;
    FastestIsFirstArgMax(distances, durations, dist);
    if n > 0 && distances[n - 1] - distances[0] >= dist {
      WindowIsMinimal(distances, durations, dist, 0);
      assert Window(distances, durations, dist, 0).Some?;
    } else if n > 0 {
      forall i | 0 <= i < n ensures Window(distances, durations, dist, i).None? {
        WindowIsMinimal(distances, durations, dist, i);
        forall k | 0 <= k < n ensures distances[k] - distances[i] < dist {
          assert distances[0] <= distances[i] && distances[k] <= distances[n - 1];
        }
      }
    }
  }

  // ---------------------------------------------------------------------
  // Per-run builder

  /** The guard of the builder: the effort is skipped only when the run's
      last cumulative distance is below it. An empty track has no last
      distance, and findBestEfforts' comparison with `undefined` is false, so
      the effort is searched then too. */
  predicate Reaches(distances: seq<real>, effortDistance: real)
  {
    |distances| == 0 || distances[|distances| - 1] >= effortDistance
  }

  ghost predicate PositiveDistances(catalog: seq<EffortType>)
  {
    forall i :: 0 <= i < |catalog| ==> catalog[i].distance > 0.0
  }

  /** The map the builder's loop leaves after visiting `catalog` in order. */
  function RunEfforts(catalog: seq<EffortType>, distances: seq<real>, durations: seq<real>): map<string, Option<BestEffort>>
    requires ValidTrack(distances, durations) && PositiveDistances(catalog)
  {
    if catalog == [] then map[]
    else
      var efforts := RunEfforts(catalog[..|catalog| - 1], distances, durations);
      var effort := catalog[|catalog| - 1];
      if Reaches(distances, effort.distance)
      then efforts[effort.name := Fastest(distances, durations, effort.distance)]
      else efforts
  }

  /** The body of findBestEfforts for one run: fill the label map from the
      catalog, and report whether the map is to be merged into the store. */
  method BuildBestEfforts(catalog: seq<EffortType>, distances: seq<real>, durations: seq<real>)
    returns (bestEfforts: map<string, Option<BestEffort>>, store: bool)
    requires ValidTrack(distances, durations) && PositiveDistances(catalog)
    ensures bestEfforts == RunEfforts(catalog, distances, durations)
    ensures store <==> |bestEfforts| > 0
  {
    bestEfforts := map[];
    for i := 0 to |catalog|
      invariant bestEfforts == RunEfforts(catalog[..i], distances, durations)
    {
      assert catalog[..i + 1][..i] == catalog[..i];
      var effortDistance := catalog[i].distance;
      if |distances| > 0 && distances[|distances| - 1] < effortDistance {
        continue;
      }
      var best := FindFastest(effortDistance, distances, durations);
      bestEfforts := bestEfforts[catalog[i].name := best];
    }
    assert catalog[..|catalog|] == catalog;
    store := |bestEfforts| > 0;
  }

  ghost predicate DistinctLabels(catalog: seq<EffortType>)
  {
    forall i, j :: 0 <= i < j < |catalog| ==> catalog[i].name != catalog[j].name
  }

  /** With distinct labels, the per-run map has exactly the labels of the
      efforts the run reaches, each mapped to findFastest's result for that
      effort's distance, and no other key. */
  lemma {:induction false} RunEffortsKeys(catalog: seq<EffortType>, distances: seq<real>, durations: seq<real>)
    requires ValidTrack(distances, durations) && PositiveDistances(catalog) && DistinctLabels(catalog)
    ensures var m := RunEfforts(catalog, distances, durations);
      && (forall name :: name in m ==> exists i :: 0 <= i < |catalog| && catalog[i].name == name)
      && (forall i :: 0 <= i < |catalog| ==>
            (catalog[i].name in m <==> Reaches(distances, catalog[i].distance)))
      && (forall i :: 0 <= i < |catalog| && catalog[i].name in m ==>
            m[catalog[i].name] == Fastest(distances, durations, catalog[i].distance))
  {
    RunEffortsLabels(catalog, distances, durations);
    RunEffortsStored(catalog, distances, durations);
    RunEffortsValues(catalog, distances, durations);
  }

  lemma {:induction false} RunEffortsLabels(catalog: seq<EffortType>, distances: seq<real>, durations: seq<real>)
    requires ValidTrack(distances, durations) && PositiveDistances(catalog)
    ensures forall name :: name in RunEfforts(catalog, distances, durations) ==>
      exists i :: 0 <= i < |catalog| && catalog[i].name == name
  {
    if catalog != [] {
      var init := catalog[..|catalog| - 1];
      var last := |catalog| - 1;
      RunEffortsLabels(init, distances, durations);
      var m := RunEfforts(catalog, distances, durations);
      var before := RunEfforts(init, distances, durations);
      forall name | name in m ensures exists i :: 0 <= i < |catalog| && catalog[i].name == name {
        if name == catalog[last].name {
          assert catalog[last].name == name;
        } else {
          assert name in before;
          var i :| 0 <= i < |init| && init[i].name == name;
          assert catalog[i] == init[i];
        }
      }
    }
  }

  lemma {:induction false} RunEffortsStored(catalog: seq<EffortType>, distances: seq<real>, durations: seq<real>)
    requires ValidTrack(distances, durations) && PositiveDistances(catalog) && DistinctLabels(catalog)
    ensures var m := RunEfforts(catalog, distances, durations);
      forall i :: 0 <= i < |catalog| ==> (catalog[i].name in m <==> Reaches(distances, catalog[i].distance))
  {
    if catalog != [] {
      var init := catalog[..|catalog| - 1];
      var last := |catalog| - 1;
      RunEffortsStored(init, distances, durations);
      RunEffortsLabels(init, distances, durations);
      var m := RunEfforts(catalog, distances, durations);
      var before := RunEfforts(init, distances, durations);
      forall i | 0 <= i < |catalog| ensures catalog[i].name in m <==> Reaches(distances, catalog[i].distance) {
        if i < last {
          assert catalog[i] == init[i];
          assert catalog[i].name != catalog[last].name;
          assert catalog[i].name in m <==> catalog[i].name in before;
        }
      }
    }
  }

  lemma {:induction false} RunEffortsValues(catalog: seq<EffortType>, distances: seq<real>, durations: seq<real>)
    requires ValidTrack(distances, durations) && PositiveDistances(catalog) && DistinctLabels(catalog)
    ensures var m := RunEfforts(catalog, distances, durations);
      forall i :: 0 <= i < |catalog| && catalog[i].name in m ==>
        m[catalog[i].name] == Fastest(distances, durations, catalog[i].distance)
  {
    if catalog != [] {
      var init := catalog[..|catalog| - 1];
      var last := |catalog| - 1;
      RunEffortsValues(init, distances, durations);
      RunEffortsLabels(init, distances, durations);
      var m := RunEfforts(catalog, distances, durations);
      var before := RunEfforts(init, distances, durations);
      forall i | 0 <= i < |catalog| && catalog[i].name in m
        ensures m[catalog[i].name] == Fastest(distances, durations, catalog[i].distance)
      {
        if i < last {
          assert catalog[i] == init[i];
          assert catalog[i].name != catalog[last].name;
          assert catalog[i].name in before;
          assert m[catalog[i].name] == before[catalog[i].name];
        }
      }
    }
  }

  /** The map is merged into the store exactly when the run reaches at least
      one effort of the catalog. */
  lemma StoredIffSomeReached(catalog: seq<EffortType>, distances: seq<real>, durations: seq<real>)
    requires ValidTrack(distances, durations) && PositiveDistances(catalog) && DistinctLabels(catalog)
    ensures |RunEfforts(catalog, distances, durations)| > 0
        <==> exists i :: 0 <= i < |catalog| && Reaches(distances, catalog[i].distance)
  {
    var m := RunEfforts(catalog, distances, durations);
    RunEffortsKeys(catalog, distances, durations);
    if |m| > 0 {
      var name :| name in m;
    }
    if exists i :: 0 <= i < |catalog| && Reaches(distances, catalog[i].distance) {
      var i :| 0 <= i < |catalog| && Reaches(distances, catalog[i].distance);
      assert catalog[i].name in m;
    }
  }

  // ---------------------------------------------------------------------
  // Leaderboard

  /** A run document as the best-efforts view returns it, with the record
      for the queried effort already selected. */
  datatype RunDoc = RunDoc(id: nat, startDateTime: string, record: BestEffort)

  /** An element of `bests`: the record's duration and its document. */
  datatype Ranked = Ranked(duration: real, doc: RunDoc)

  function DurationOf(b: Ranked): real { b.duration }

  function Bests(docs: seq<RunDoc>): (r: seq<Ranked>)
    ensures |r| == |docs|
    ensures forall i :: 0 <= i < |docs| ==> r[i] == Ranked(docs[i].record.duration, docs[i])
  {
    seq(|docs|, i requires 0 <= i < |docs| => Ranked(docs[i].record.duration, docs[i]))
  }

  function Min(a: nat, b: nat): nat { if a <= b then a else b }

  /** The leaderboard: `bests` stably sorted by duration, cut to TOP_EFFORTS. */
  function Leaderboard(docs: seq<RunDoc>): seq<Ranked>
  {
    var sorted := SortByKey(Bests(docs), DurationOf);
    SortByKeyIsStableSort(Bests(docs), DurationOf);
    sorted[..Min(|docs|, TOP_EFFORTS)]
  }

  /** The computing part of displayBestEfforts: collect, sort by duration,
      slice to the first TOP_EFFORTS. */
  method TopBests(docs: seq<RunDoc>) returns (top: seq<Ranked>)
    ensures top == Leaderboard(docs)
    ensures |top| == Min(|docs|, TOP_EFFORTS)
    ensures SortedBy(top, DurationOf)
  {
    var bests := new Ranked[|docs|];
    for i := 0 to |docs|
      invariant bests[..i] == Bests(docs)[..i]
    {
      bests[i] := Ranked(docs[i].record.duration, docs[i]);
    }
    assert bests[..] == Bests(docs);
    SortInPlace(bests, DurationOf);
    top := bests[..Min(bests.Length, TOP_EFFORTS)];
    LeaderboardOrdered(docs);
  }

  /** The leaderboard has min(n, TOP_EFFORTS) entries drawn from the input,
      in non-decreasing duration; entries of equal duration appear in their
      input order (per duration, the board lists a prefix of the input's
      entries of that duration); and every entry cut off is no faster than
      any entry shown. */
  lemma LeaderboardOrdered(docs: seq<RunDoc>)
    ensures var top := Leaderboard(docs);
      && |top| == Min(|docs|, TOP_EFFORTS)
      && SortedBy(top, DurationOf)
      && multiset(top) <= multiset(Bests(docs))
      && (forall v :: KeyedAs(top, DurationOf, v) <= KeyedAs(Bests(docs), DurationOf, v))
      && (forall x, i :: x in multiset(Bests(docs)) - multiset(top) && 0 <= i < |top| ==>
            top[i].duration <= x.duration)
  {
    SortByKeyIsStableSort(Bests(docs), DurationOf);
    SortedPrefix(Bests(docs), DurationOf, Min(|docs|, TOP_EFFORTS));
  }
}
