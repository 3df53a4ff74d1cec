/** Worked examples of the best-effort engine on concrete runs and on the
    catalog declared in best_efforts.js. */
module EffortsExamples {
  import opened Wrappers
  import opened Sorting
  import opened Efforts

  /** A run of 2.1 km sampled five times. */
  const RUN_DISTANCES: seq<real> := [0.0, 0.45, 1.05, 1.55, 2.10]
  const RUN_DURATIONS: seq<real> := [0.0, 150.0, 330.0, 470.0, 600.0]

  /** The kilometre windows of that run, start by start. */
  lemma WorkedWindows()
    ensures ValidTrack(RUN_DISTANCES, RUN_DURATIONS)
    ensures Windows(RUN_DISTANCES, RUN_DURATIONS, 1.0)
         == [Some(BestEffort(1.0, 0, 2, 1050.0 / 330.0, 330.0, 1.05)),
             Some(BestEffort(1.0, 1, 3, 1100.0 / 320.0, 320.0, 1.1)),
             Some(BestEffort(1.0, 2, 4, 1050.0 / 270.0, 270.0, 1.05)),
             None, None]
  {
    var d, t := RUN_DISTANCES, RUN_DURATIONS;
    RunIsValid();
    WindowFrom0();
    WindowFrom1();
    WindowFrom2();
    assert FirstReach(d, 3, 1.0, 0) == None;
    assert FirstReach(d, 4, 1.0, 0) == None;
    var ws := Windows(d, t, 1.0);
    assert ws[0] == Window(d, t, 1.0, 0);
    assert ws[1] == Window(d, t, 1.0, 1);
    assert ws[2] == Window(d, t, 1.0, 2);
    assert ws[3] == Window(d, t, 1.0, 3);
    assert ws[4] == Window(d, t, 1.0, 4);
  }

  lemma RunIsValid()
    ensures ValidTrack(RUN_DISTANCES, RUN_DURATIONS)
  {
  }

  lemma WindowFrom0()
    ensures ValidTrack(RUN_DISTANCES, RUN_DURATIONS)
    ensures Window(RUN_DISTANCES, RUN_DURATIONS, 1.0, 0) == Some(BestEffort(1.0, 0, 2, 1050.0 / 330.0, 330.0, 1.05))
  {
    var d := RUN_DISTANCES;
    RunIsValid();
    assert FirstReach(d, 0, 1.0, 0) == Some(2) by {
      assert FirstReach(d, 0, 1.0, 0) == FirstReach(d, 0, 1.0, 1);
      assert FirstReach(d, 0, 1.0, 1) == FirstReach(d, 0, 1.0, 2);
    }
    var t := RUN_DURATIONS;
    assert Window(d, t, 1.0, 0) == Some(BestEffort(1.0, 0, 2, (d[2] - d[0]) * 1000.0 / (t[2] - t[0]), t[2] - t[0], d[2] - d[0]));
    assert (d[2] - d[0]) * 1000.0 / (t[2] - t[0]) == 1050.0 / 330.0;
  }

  lemma WindowFrom1()
    ensures ValidTrack(RUN_DISTANCES, RUN_DURATIONS)
    ensures Window(RUN_DISTANCES, RUN_DURATIONS, 1.0, 1) == Some(BestEffort(1.0, 1, 3, 1100.0 / 320.0, 320.0, 1.1))
  {
    var d := RUN_DISTANCES;
    RunIsValid();
    assert FirstReach(d, 1, 1.0, 0) == Some(3) by {
      assert FirstReach(d, 1, 1.0, 0) == FirstReach(d, 1, 1.0, 1);
      assert FirstReach(d, 1, 1.0, 1) == FirstReach(d, 1, 1.0, 2);
      assert FirstReach(d, 1, 1.0, 2) == FirstReach(d, 1, 1.0, 3);
    }
    var t := RUN_DURATIONS;
    assert Window(d, t, 1.0, 1) == Some(BestEffort(1.0, 1, 3, (d[3] - d[1]) * 1000.0 / (t[3] - t[1]), t[3] - t[1], d[3] - d[1]));
    assert (d[3] - d[1]) * 1000.0 / (t[3] - t[1]) == 1100.0 / 320.0;
  }

  lemma WindowFrom2()
    ensures ValidTrack(RUN_DISTANCES, RUN_DURATIONS)
    ensures Window(RUN_DISTANCES, RUN_DURATIONS, 1.0, 2) == Some(BestEffort(1.0, 2, 4, 1050.0 / 270.0, 270.0, 1.05))
  {
    var d := RUN_DISTANCES;
    RunIsValid();
    assert FirstReach(d, 2, 1.0, 0) == Some(4) by {
      assert FirstReach(d, 2, 1.0, 0) == FirstReach(d, 2, 1.0, 1);
      assert FirstReach(d, 2, 1.0, 1) == FirstReach(d, 2, 1.0, 2);
      assert FirstReach(d, 2, 1.0, 2) == FirstReach(d, 2, 1.0, 3);
      assert FirstReach(d, 2, 1.0, 3) == FirstReach(d, 2, 1.0, 4);
    }
    var t := RUN_DURATIONS;
    assert Window(d, t, 1.0, 2) == Some(BestEffort(1.0, 2, 4, (d[4] - d[2]) * 1000.0 / (t[4] - t[2]), t[4] - t[2], d[4] - d[2]));
    assert (d[4] - d[2]) * 1000.0 / (t[4] - t[2]) == 1050.0 / 270.0;
  }

  /** Of those windows the fastest kilometre is the segment from sample 2
      to sample 4 (1.05 km in 270 s). */
  lemma WorkedExample()
    ensures ValidTrack(RUN_DISTANCES, RUN_DURATIONS)
    ensures Fastest(RUN_DISTANCES, RUN_DURATIONS, 1.0)
         == Some(BestEffort(1.0, 2, 4, 1050.0 / 270.0, 270.0, 1.05))
  {
    WorkedWindows();
    var ws := Windows(RUN_DISTANCES, RUN_DURATIONS, 1.0);
    assert 1050.0 / 330.0 < 1100.0 / 320.0 < 1050.0 / 270.0;
    assert FirstFastest(ws, 1) == ws[0];
    assert FirstFastest(ws, 2) == ws[1];
    assert FirstFastest(ws, 3) == ws[2];
    assert FirstFastest(ws, 4) == ws[2];
  }

  /** The same run is too short for 3 km: no segment is found and the
      builder skips the 3k effort. */
  lemma ShortRunExample()
    ensures ValidTrack(RUN_DISTANCES, RUN_DURATIONS)
    ensures Fastest(RUN_DISTANCES, RUN_DURATIONS, 3.0) == None
    ensures !Reaches(RUN_DISTANCES, 3.0)
  {
    var d, t := RUN_DISTANCES, RUN_DURATIONS;
    assert ValidTrack(d, t);
    FastestNoneIff(d, t, 3.0);
  }

  /** A run whose first sample is at 0.5 km and last at 1.2 km passes the
      builder's guard for 1 km, yet covers only 0.7 km: the label is
      written with no record (null). */
  lemma NullRecordExample()
    ensures Reaches([0.5, 1.2], 1.0)
    ensures RunEfforts([EffortType("1k", 1.0)], [0.5, 1.2], [0.0, 100.0]) == map["1k" := None]
  {
    var d, t := [0.5, 1.2], [0.0, 100.0];
    assert ValidTrack(d, t);
    FastestNoneIff(d, t, 1.0);
    var c := [EffortType("1k", 1.0)];
    assert c[..0] == [];
  }

  /** A run document whose selected record took `duration` seconds. */
  function Doc(id: nat, duration: real): RunDoc
  {
    RunDoc(id, "", BestEffort(1.0, 0, 1, 0.0, duration, 1.0))
  }

  /** Four runs on one effort: the board lists them by duration, the two
      300 s runs in their input order. */
  lemma LeaderboardExample()
    ensures Leaderboard([Doc(1, 300.0), Doc(2, 270.0), Doc(3, 300.0), Doc(4, 280.0)])
         == [Ranked(270.0, Doc(2, 270.0)), Ranked(280.0, Doc(4, 280.0)),
             Ranked(300.0, Doc(1, 300.0)), Ranked(300.0, Doc(3, 300.0))]
  {
    var docs := [Doc(1, 300.0), Doc(2, 270.0), Doc(3, 300.0), Doc(4, 280.0)];
    var a, b, c, d := Ranked(300.0, docs[0]), Ranked(270.0, docs[1]), Ranked(300.0, docs[2]), Ranked(280.0, docs[3]);
    assert Bests(docs) == [a, b, c, d];
    SortFour(a, b, c, d);
    assert [b, d, a, c][..Min(|docs|, TOP_EFFORTS)] == [b, d, a, c];
  }

  /** The first three runs sort to 270 s, then the two 300 s runs in input
      order. */
  lemma SortThree(a: Ranked, b: Ranked, c: Ranked)
    requires a.duration == 300.0 && b.duration == 270.0 && c.duration == 300.0
    ensures SortByKey([a, b, c], DurationOf) == [b, a, c]
  {
    var s := [a, b, c];
    assert s[..2] == [a, b] && [a, b][..1] == [a] && [a][..0] == [];
    assert SortByKey([a], DurationOf) == [a];
    assert [a][..0] == [];
    assert Insert([a], b, DurationOf) == Insert([], b, DurationOf) + [a];
    assert SortByKey([a, b], DurationOf) == [b, a];
    assert Insert([b, a], c, DurationOf) == [b, a, c];
  }

  /** The 280 s run goes between the 270 s run and the 300 s runs. */
  lemma SortFour(a: Ranked, b: Ranked, c: Ranked, d: Ranked)
    requires a.duration == 300.0 && b.duration == 270.0 && c.duration == 300.0 && d.duration == 280.0
    ensures SortByKey([a, b, c, d], DurationOf) == [b, d, a, c]
  {
    var s := [a, b, c, d];
    assert s[..3] == [a, b, c];
    SortThree(a, b, c);
    assert SortByKey(s, DurationOf) == Insert([b, a, c], d, DurationOf);
    assert [b, a, c][..2] == [b, a] && [b, a][..1] == [b];
    assert Insert([b], d, DurationOf) == [b, d];
    assert Insert([b, a], d, DurationOf) == Insert([b], d, DurationOf) + [a];
    assert Insert([b, a, c], d, DurationOf) == Insert([b, a], d, DurationOf) + [c];
  }

  lemma SortedUpTo9()
    ensures SortByKey(EFFORT_TYPES[..9], DistanceOf) == [EFFORT_TYPES[0], EFFORT_TYPES[8], EFFORT_TYPES[1], EFFORT_TYPES[2], EFFORT_TYPES[3], EFFORT_TYPES[4], EFFORT_TYPES[5], EFFORT_TYPES[6], EFFORT_TYPES[7]]
  {
    var e := EFFORT_TYPES;
    AscendingPrefix();
    var before := [e[0], e[1], e[2], e[3], e[4], e[5], e[6], e[7]];
    assert e[..8] == before;
    SortStep(e, DistanceOf, 8, before, 1);
    assert before[..1] + [e[8]] + before[1..] == [e[0], e[8], e[1], e[2], e[3], e[4], e[5], e[6], e[7]];
  }

  lemma SortedUpTo10()
    ensures SortByKey(EFFORT_TYPES[..10], DistanceOf) == [EFFORT_TYPES[0], EFFORT_TYPES[8], EFFORT_TYPES[1], EFFORT_TYPES[9], EFFORT_TYPES[2], EFFORT_TYPES[3], EFFORT_TYPES[4], EFFORT_TYPES[5], EFFORT_TYPES[6], EFFORT_TYPES[7]]
  {
    var e := EFFORT_TYPES;
    SortedUpTo9();
    var before := [e[0], e[8], e[1], e[2], e[3], e[4], e[5], e[6], e[7]];
    SortStep(e, DistanceOf, 9, before, 3);
    assert before[..3] + [e[9]] + before[3..] == [e[0], e[8], e[1], e[9], e[2], e[3], e[4], e[5], e[6], e[7]];
  }

  lemma SortedUpTo11()
    ensures SortByKey(EFFORT_TYPES[..11], DistanceOf) == [EFFORT_TYPES[0], EFFORT_TYPES[8], EFFORT_TYPES[1], EFFORT_TYPES[9], EFFORT_TYPES[2], EFFORT_TYPES[3], EFFORT_TYPES[10], EFFORT_TYPES[4], EFFORT_TYPES[5], EFFORT_TYPES[6], EFFORT_TYPES[7]]
  {
    var e := EFFORT_TYPES;
    SortedUpTo10();
    var before := [e[0], e[8], e[1], e[9], e[2], e[3], e[4], e[5], e[6], e[7]];
    SortStep(e, DistanceOf, 10, before, 6);
    assert before[..6] + [e[10]] + before[6..] == [e[0], e[8], e[1], e[9], e[2], e[3], e[10], e[4], e[5], e[6], e[7]];
  }

  lemma SortedUpTo12()
    ensures SortByKey(EFFORT_TYPES[..12], DistanceOf) == [EFFORT_TYPES[0], EFFORT_TYPES[8], EFFORT_TYPES[1], EFFORT_TYPES[9], EFFORT_TYPES[2], EFFORT_TYPES[3], EFFORT_TYPES[10], EFFORT_TYPES[4], EFFORT_TYPES[11], EFFORT_TYPES[5], EFFORT_TYPES[6], EFFORT_TYPES[7]]
  {
    var e := EFFORT_TYPES;
    SortedUpTo11();
    var before := [e[0], e[8], e[1], e[9], e[2], e[3], e[10], e[4], e[5], e[6], e[7]];
    SortStep(e, DistanceOf, 11, before, 8);
    assert before[..8] + [e[11]] + before[8..] == [e[0], e[8], e[1], e[9], e[2], e[3], e[10], e[4], e[11], e[5], e[6], e[7]];
  }

  lemma SortedUpTo13()
    ensures SortByKey(EFFORT_TYPES[..13], DistanceOf) == [EFFORT_TYPES[0], EFFORT_TYPES[8], EFFORT_TYPES[1], EFFORT_TYPES[9], EFFORT_TYPES[2], EFFORT_TYPES[3], EFFORT_TYPES[10], EFFORT_TYPES[4], EFFORT_TYPES[11], EFFORT_TYPES[5], EFFORT_TYPES[6], EFFORT_TYPES[12], EFFORT_TYPES[7]]
  {
    var e := EFFORT_TYPES;
    SortedUpTo12();
    var before := [e[0], e[8], e[1], e[9], e[2], e[3], e[10], e[4], e[11], e[5], e[6], e[7]];
    SortStep(e, DistanceOf, 12, before, 11);
    assert before[..11] + [e[12]] + before[11..] == [e[0], e[8], e[1], e[9], e[2], e[3], e[10], e[4], e[11], e[5], e[6], e[12], e[7]];
  }

  lemma SortedUpTo14()
    ensures SortByKey(EFFORT_TYPES[..14], DistanceOf) == [EFFORT_TYPES[0], EFFORT_TYPES[8], EFFORT_TYPES[1], EFFORT_TYPES[9], EFFORT_TYPES[2], EFFORT_TYPES[3], EFFORT_TYPES[10], EFFORT_TYPES[4], EFFORT_TYPES[11], EFFORT_TYPES[5], EFFORT_TYPES[6], EFFORT_TYPES[12], EFFORT_TYPES[7], EFFORT_TYPES[13]]
  {
    var e := EFFORT_TYPES;
    SortedUpTo13();
    var before := [e[0], e[8], e[1], e[9], e[2], e[3], e[10], e[4], e[11], e[5], e[6], e[12], e[7]];
    SortStep(e, DistanceOf, 13, before, 13);
    assert before[..13] + [e[13]] + before[13..] == [e[0], e[8], e[1], e[9], e[2], e[3], e[10], e[4], e[11], e[5], e[6], e[12], e[7], e[13]];
  }

  /** The catalog sorted by distance: 400m, 1/2 mile, 1k, 1 mile, 2k, 3k,
      2 miles, 5k, 5 miles, 10k, 13k, 10 miles, 20k, Half-marathon,
      Marathon. */
  lemma CatalogSorted()
    ensures SortByKey(EFFORT_TYPES, DistanceOf) == [EFFORT_TYPES[0], EFFORT_TYPES[8], EFFORT_TYPES[1], EFFORT_TYPES[9], EFFORT_TYPES[2], EFFORT_TYPES[3], EFFORT_TYPES[10], EFFORT_TYPES[4], EFFORT_TYPES[11], EFFORT_TYPES[5], EFFORT_TYPES[6], EFFORT_TYPES[12], EFFORT_TYPES[7], EFFORT_TYPES[13], EFFORT_TYPES[14]]
  {
    var e := EFFORT_TYPES;
    SortedUpTo14();
    var before := [e[0], e[8], e[1], e[9], e[2], e[3], e[10], e[4], e[11], e[5], e[6], e[12], e[7], e[13]];
    SortStep(e, DistanceOf, 14, before, 14);
    assert before[..14] + [e[14]] + before[14..] == [e[0], e[8], e[1], e[9], e[2], e[3], e[10], e[4], e[11], e[5], e[6], e[12], e[7], e[13], e[14]];
    assert e[..15] == e;
  }

  /** The first eight entries (400m to 20k) are already ascending. */
  lemma AscendingPrefix()
    ensures SortByKey(EFFORT_TYPES[..8], DistanceOf) == EFFORT_TYPES[..8]
  {
    var e := EFFORT_TYPES;
    var p := e[..8];
    assert p == [e[0], e[1], e[2], e[3], e[4], e[5], e[6], e[7]];
    assert SortedBy(p, DistanceOf);
    SortOfSorted(p, DistanceOf);
  }

  /** The declared catalog has positive distances and distinct labels. */
  lemma CatalogWellFormed()
    ensures PositiveDistances(EFFORT_TYPES) && DistinctLabels(EFFORT_TYPES)
  {
  }

  /** So does the sorted catalog that findBestEfforts walks. */
  lemma SortedCatalogWellFormed()
    ensures PositiveDistances(SortByKey(EFFORT_TYPES, DistanceOf))
    ensures DistinctLabels(SortByKey(EFFORT_TYPES, DistanceOf))
  {
    CatalogSorted();
    SortedCatalogPositive();
    SortedCatalogDistinct();
  }

  lemma SortedCatalogPositive()
    ensures PositiveDistances(SORTED_CATALOG)
  {
  }

  lemma SortedCatalogDistinct()
    ensures DistinctLabels(SORTED_CATALOG)
  {
  }

  /** The catalog in distance order, as `CatalogSorted` gives it. */
  const SORTED_CATALOG: seq<EffortType> := [EFFORT_TYPES[0], EFFORT_TYPES[8], EFFORT_TYPES[1], EFFORT_TYPES[9], EFFORT_TYPES[2], EFFORT_TYPES[3], EFFORT_TYPES[10], EFFORT_TYPES[4], EFFORT_TYPES[11], EFFORT_TYPES[5], EFFORT_TYPES[6], EFFORT_TYPES[12], EFFORT_TYPES[7], EFFORT_TYPES[13], EFFORT_TYPES[14]]

  /** For the catalog findBestEfforts walks, a run's map holds exactly the
      labels whose distance passes the guard, each with findFastest's
      record, and it is stored exactly when some effort passes the guard. */
  lemma CatalogRunEfforts(distances: seq<real>, durations: seq<real>)
    requires ValidTrack(distances, durations)
    ensures var catalog := SortByKey(EFFORT_TYPES, DistanceOf);
      && PositiveDistances(catalog) && DistinctLabels(catalog)
      && var m := RunEfforts(catalog, distances, durations);
      && (forall i :: 0 <= i < |catalog| ==>
            (catalog[i].name in m <==> Reaches(distances, catalog[i].distance)))
      && (forall i :: 0 <= i < |catalog| && catalog[i].name in m ==>
            m[catalog[i].name] == Fastest(distances, durations, catalog[i].distance))
      && (|m| > 0 <==> exists i :: 0 <= i < |catalog| && Reaches(distances, catalog[i].distance))
  {
    var catalog := SortByKey(EFFORT_TYPES, DistanceOf);
    SortedCatalogWellFormed();
    RunEffortsKeys(catalog, distances, durations);
    StoredIffSomeReached(catalog, distances, durations);
  }
}
