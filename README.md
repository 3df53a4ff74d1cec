# SmashrunExporter best efforts, in Dafny

This project models the best-effort engine of SmashrunExporter and three small
helpers from its scraper.

The best-effort engine lives in `best_efforts.js`:

- the catalog of target distances (400 m up to the marathon), sorted by distance;
- `findFastest`, which searches one run's cumulative distance and duration
  samples for the fastest segment that covers a target distance;
- the per-run loop of `findBestEfforts`, which fills a map from effort label to
  record;
- the leaderboard of `displayBestEfforts`, which sorts one effort's records by
  duration and keeps the first `TOP_EFFORTS` (10);
- the display helpers `nicePace`, `niceSpeed` and `niceDist`.

The scraper helpers live in `index.js`:

- `mergeOptions`, a right-biased merge of two objects;
- the parsing of a run's `h:m:s` or `m:s` elapsed-time text;
- the enumeration of `(year, month)` list pages from the start date to the end
  date.

Distances are kilometres and durations seconds, both as `real`. The modules are:

- `Efforts.dfy` (module `Efforts`): catalog, segment search, per-run builder
  and leaderboard.
- `Sorting.dfy` (module `Sorting`): the comparator sort both
  `Array.prototype.sort` calls perform. The model assumes it is stable, as
  ECMAScript guarantees from ES2019 on; older V8 engines sorted arrays of more
  than 10 elements unstably, which would affect a leaderboard with more than
  10 runs. It is specified by a stable insertion
  sort on sequences, `SortByKey`. The in-place array method is proved equal to
  it.
- `Display.dfy` (module `Display`): the formatters. `None` stands for the `"--"`
  placeholder.
- `JsText.dfy` (module `JsText`): the JavaScript built-ins the helpers rely on.
  These are white space, `trim`, `split(/:/)`, `parseInt` and the decimal
  rendering of integers.
- `Exporter.dfy` (module `Exporter`): the `index.js` helpers.
- `Examples.dfy` (module `EffortsExamples`): worked examples on concrete runs
  and on the catalog declared in best_efforts.js.
- `Wrappers.dfy` (module `Wrappers`): `Option`. It models `null`, `undefined`
  and `NaN`.

Modelling choices:

- `findFastest` is modelled as written. Its inner loop starts at end index 0,
  not at the start index. `FirstReachFromStart` proves that this finds the same
  end on a non-decreasing track.
- The search requires a positive target, non-decreasing distances and strictly
  increasing durations. This excludes the division by a zero duration, which
  gives `Infinity` or `NaN` in JavaScript.
- The builder's guard compares the target with the run's LAST cumulative
  distance. It does not use the distance covered from the first sample. So a
  run whose first sample is above 0 can pass the guard while no segment covers
  the target. The label is then written with `null` (`None`), as the code does
  (`EffortsExamples.NullRecordExample`). A store written by the code can
  therefore hold a label with no record for a target the run did not cover.
- On an empty track the guard compares with `undefined`. That comparison is
  false, so every label is written with `null`; the model does the same.
- `Math.round` is modelled exactly on reals, as `floor(x + 1/2)`. Hence the
  metre remainder of `niceDist` satisfies `-500 <= m < 500`, not
  `-500 < m <= 500`. For example, 500 m renders as "1km -500m" and 1600 m as
  "2km -400m".

## Model

| member | source | states |
|---|---|---|
| `Efforts.SortEffortTypes` | best_efforts.js:35-43 | sorting the catalog array in place with the distance comparator leaves it equal to the stable sort of the old contents by distance |
| `Efforts.CatalogOrder` | best_efforts.js:35-43 | the sorted catalog is in non-decreasing distance order and is a permutation of the input catalog |
| `EffortsExamples.CatalogSorted` | best_efforts.js:15-43 | the fifteen efforts declared in best_efforts.js sort to 400m, 1/2 mile, 1k, 1 mile, 2k, 3k, 2 miles, 5k, 5 miles, 10k, 13k, 10 miles, 20k, Half-marathon, Marathon |
| `Sorting.SortOfSorted` | best_efforts.js:35-43 | sorting a sequence that is already in non-decreasing key order leaves it unchanged |
| `EffortsExamples.AscendingPrefix` | best_efforts.js:16-23 | the first eight catalog entries (400m to 20k) are already in ascending order, so sorting them changes nothing |
| `Efforts.FirstReach` | best_efforts.js:184-190 | the inner scan finds the first end index at or after its starting point whose segment covers the target; every index scanned before it falls short, and None means every index falls short |
| `Efforts.Window` | best_efforts.js:183-208 | the window of one start, if any, begins at that start and ends at a later sample of the track |
| `Efforts.WindowFits` | best_efforts.js:187-205 | a window carries the target as its effort distance, covers at least the target with `distances[end] - distances[start]`, has the positive duration `durations[end] - durations[start]` and the speed `distance * 1000 / duration` |
| `Efforts.WindowIsMinimal` | best_efforts.js:182-208 | the window of a start ends at the smallest index whose segment covers the target, and a start has no window exactly when no end covers the target |
| `Efforts.FirstReachFromStart` | best_efforts.js:184 | on a non-decreasing track with a positive target, starting the inner scan at 0 finds the same end as starting it at the start index |
| `Efforts.FirstFastestNoneIff` | best_efforts.js:176-212 | the running best stays null exactly when no candidate so far is a window |
| `Efforts.FirstFastestIsMax` | best_efforts.js:197-206 | the running best is at least as fast as every candidate window seen so far |
| `Efforts.FirstFastestIsFirst` | best_efforts.js:197-206 | the running best is one of the candidates, and every earlier candidate is strictly slower, because a tie does not replace it |
| `Efforts.FindFastest` | best_efforts.js:174-213 | the nested loop with the labelled `continue` and the strict `>` returns the arg-max specification `Fastest` |
| `Efforts.FastestIsFirstArgMax` | best_efforts.js:176-212 | the result is None iff no start has a window; otherwise it is the window of its own start, at least as fast as every window, and strictly faster than every earlier start's window, so ties go to the earliest start |
| `Efforts.FastestFits` | best_efforts.js:187-205 | every record returned fits its indices (`start < end`) and the distance, duration and speed formulas, with distance at least the target |
| `Efforts.FastestNoneIff` | best_efforts.js:174-212 | findFastest returns null exactly when the track is empty or the distance from the first to the last sample is below the target |
| `EffortsExamples.WorkedWindows` | best_efforts.js:182-208 | on that run the kilometre windows from starts 0, 1 and 2 end at samples 2, 3 and 4; starts 3 and 4 have none |
| `EffortsExamples.WorkedExample` | best_efforts.js:174-213 | on distances 0, 0.45, 1.05, 1.55, 2.10 and durations 0, 150, 330, 470, 600, the fastest kilometre is start 2, end 4, 1.05 km in 270 s |
| `EffortsExamples.ShortRunExample` | best_efforts.js:144-150 | the same 2.1 km run has no 3 km segment, and the builder skips the 3k effort |
| `Efforts.BuildBestEfforts` | best_efforts.js:139-165 | the loop over the catalog builds the label map `RunEfforts`, and the map is merged into the store iff it has at least one key |
| `Efforts.RunEffortsKeys` | best_efforts.js:141-151 | with distinct labels, the map's keys are exactly the labels whose distance passes the last-distance guard, and each key maps to findFastest's result for that distance |
| `EffortsExamples.CatalogWellFormed` | best_efforts.js:15-33 | the declared catalog has positive distances and distinct labels |
| `EffortsExamples.SortedCatalogWellFormed` | best_efforts.js:15-43 | so does the catalog after the distance sort |
| `EffortsExamples.CatalogRunEfforts` | best_efforts.js:139-157 | for the sorted catalog, a run's map holds exactly the labels that pass the guard, each with findFastest's record, and is stored exactly when some effort passes the guard |
| `Efforts.StoredIffSomeReached` | best_efforts.js:141-157 | the map is merged into the store exactly when the run passes the guard for at least one effort of the catalog |
| `EffortsExamples.NullRecordExample` | best_efforts.js:144-150 | a run from 0.5 km to 1.2 km passes the 1 km guard yet has no 1 km segment, so the label is written with null |
| `Efforts.Bests` | best_efforts.js:80-86 | the leaderboard input has one entry per run document, holding that document's duration for the effort |
| `Efforts.TopBests` | best_efforts.js:80-100 | collecting, sorting in place by duration and slicing gives `Leaderboard`, with `min(n, TOP_EFFORTS)` entries in non-decreasing duration |
| `Efforts.LeaderboardOrdered` | best_efforts.js:88-100 | the board has `min(n, TOP_EFFORTS)` entries drawn from the input, in non-decreasing duration; equal durations keep their input order; no entry cut off is faster than an entry shown |
| `EffortsExamples.SortFour` | best_efforts.js:89-97 | four records of 300, 270, 300 and 280 s sort to 270, 280, 300, 300 with the two 300 s records in input order |
| `EffortsExamples.LeaderboardExample` | best_efforts.js:88-100 | durations 300, 270, 300, 280 rank as 270, 280, 300, 300, with the two 300 s runs in input order |
| `Sorting.SortInPlace` | best_efforts.js:89-97 | the in-place comparator sort of an array leaves it equal to the stable sort `SortByKey` of its old contents |
| `Sorting.SortByKeyIsStableSort` | best_efforts.js:89-97 | the stable sort is non-decreasing by key, is a permutation of its input, and keeps the input order of each group of equal keys |
| `Sorting.PrefixOfSorted` | best_efforts.js:99-100 | a prefix of an ordered sequence is ordered, is drawn from it, and per key is a prefix of its equal-keyed elements |
| `Sorting.SortedPrefix` | best_efforts.js:99-100 | a prefix of the stable sort is ordered, drawn from the input, per key a prefix of the input's equal-keyed elements, and no smaller key is left out |
| `Display.RoundHalfUp` | best_efforts.js:251-253 | `Math.round` returns the integer within half a unit of its argument, halves rounding up |
| `Display.NicePace` | best_efforts.js:227-235 | the pace is the placeholder iff the distance is 0; otherwise pace times `dist * 100` gives the time |
| `Display.NiceSpeed` | best_efforts.js:237-244 | the speed is the placeholder iff the time is 0; otherwise speed times time gives the rounded metres times 3.6 |
| `Display.SplitMetres` | best_efforts.js:253-261 | the split into kilometres and metres keeps `km * 1000 + m == d` with `-500 <= m < 500`, and the bare-metres form is used, showing `d` itself, iff the rounded kilometre count is 0 |
| `Display.NiceDist` | best_efforts.js:250-262 | with `d` the distance rounded to whole metres, the kilometre form keeps `km * 1000 + m == d` with `-500 <= m < 500`, the bare-metres form shows `d`, and the bare-metres form is chosen exactly when `-500 <= d < 500` |
| `Display.RenderReadsBack` | best_efforts.js:257-260 | the rendered text reads back through `parseInt`: the whole text gives the kilometres (or the bare metres), and the text after "km " gives the metres |
| `Display.RenderKmReadsBack` | best_efforts.js:257 | "<km>km <m>m" reads back as km, and its part after "km " as m |
| `Display.RenderMetresReadsBack` | best_efforts.js:260 | "<d>m" reads back as d |
| `Display.RoundWholeMetres` | best_efforts.js:240 | rounding a distance that is already a whole number of metres leaves it unchanged |
| `Display.NiceSpeedOfRecord` | best_efforts.js:237-244 | for a record of whole metres, niceSpeed is the record's speed in m/s times 3.6 |
| `Display.PaceTimesSpeed` | best_efforts.js:227-244 | for whole metres, the pace times the speed is 36, which exposes the `* 100` scaling of the pace |
| `Display.DistExampleRoundedDown` | best_efforts.js:250-262 | 1.05 km renders as "1km 50m" |
| `Display.DistExampleRoundedUp` | best_efforts.js:250-262 | 1.6 km renders as "2km -400m" because the kilometre count is rounded, not floored |
| `Display.DistExampleMetres` | best_efforts.js:250-262 | 0.4 km renders as "400m" |
| `Display.SpeedExamples` | best_efforts.js:227-244 | 1.05 km in 270 s gives 14 km/h and a pace of 270/105 |
| `Exporter.MergeOptions` | index.js:373-383 | the result's keys are the union of both inputs' keys; `obj2`'s value wins on every key of `obj2`; keys only in `obj1` keep `obj1`'s value |
| `JsText.BeforeSpace` | index.js:124 | `replace(/\s.*/g, '')` keeps the longest white-space-free prefix and cuts at the first white space |
| `JsText.TrimStart` | index.js:124 | leading trim drops exactly the leading white space |
| `JsText.TrimEnd` | index.js:124 | trailing trim drops exactly the trailing white space |
| `JsText.Split` | index.js:125 | `split(/:/)` yields at least one field, and no field holds a colon |
| `JsText.JoinSplit` | index.js:125 | joining the fields of a split with ':' gives back the string |
| `JsText.SplitJoin` | index.js:125 | splitting colon-free fields joined with ':' gives back the fields |
| `JsText.ParseInt` | index.js:129-134 | `parseInt` of blank text is NaN (None), and a negative result needs a leading '-' after the white space |
| `JsText.ParseIntStops` | index.js:129-134 | `parseInt` stops at the first character that cannot continue the number, so a rendered integer followed by such text reads as that integer |
| `JsText.ParseIntToString` | index.js:129-134 | `parseInt` reads back the decimal rendering of every integer |
| `Exporter.ParseElapsed` | index.js:124-137 | the step-by-step assignment of `h`, `m`, `s` computes `ElapsedSeconds` of the timer text |
| `Exporter.FieldsOfThree` | index.js:128-137 | three fields parsing as h, m, s give `h * 3600 + m * 60 + s` |
| `Exporter.FieldsOfTwo` | index.js:132-137 | two fields parsing as m, s give `m * 60 + s`, with h = 0 |
| `Exporter.ParseDecimal` | index.js:129-134 | `parseInt` of a non-empty run of decimal digits, leading zeros allowed, is the digits' base-10 value |
| `Exporter.FirstWord` | index.js:124 | trimming and cutting at the first white space keeps a white-space-free word followed by nothing or by white space and anything else |
| `Exporter.WordFields` | index.js:124-125 | decimal fields joined by colons, followed by nothing or by white space and anything else, split back into those fields |
| `Exporter.ElapsedOfWord` | index.js:124-137 | the elapsed seconds of such a text are those of its fields, whatever follows the first white space |
| `Exporter.DecimalFieldsOfThree` | index.js:128-137 | three decimal fields reading as vh, vm, vs give `vh * 3600 + vm * 60 + vs` |
| `Exporter.DecimalFieldsOfTwo` | index.js:132-137 | two decimal fields reading as vm, vs give `vm * 60 + vs` |
| `Exporter.ElapsedHoursMinutesSeconds` | index.js:124-137 | an "h:m:s" text of decimal fields reading as vh, vm, vs, with anything after its first white space, is `vh * 3600 + vm * 60 + vs` seconds |
| `Exporter.ElapsedMinutesSeconds` | index.js:124-137 | an "m:s" text of decimal fields reading as vm, vs, with anything after its first white space, is `vm * 60 + vs` seconds |
| `Exporter.ElapsedOtherFieldCounts` | index.js:126-137 | a text of one field or of four or more fields leaves the parts undefined, so the result is NaN (None) |
| `Exporter.ExportMonths` | index.js:36-75 | the nested year and month loops with the `break` visit exactly the pages `MonthsFrom` lists, in order |
| `Exporter.MonthsOfYearShape` | index.js:48-72 | within one year the inner loop visits consecutive months of that year from the starting month, never past December |
| `Exporter.MonthsOfYearStop` | index.js:48-72 | in the end year, from a valid month not after the end month, the inner loop visits exactly `endMonth - month + 1` months and stops at the `break` |
| `Exporter.MonthsOfYearFull` | index.js:48-72 | in any year other than the end year the inner loop runs on to December, `13 - month` months |
| `Exporter.MonthsChronological` | index.js:47-75 | for any dates, the pages are visited in strictly increasing chronological order, so none is visited twice |
| `Exporter.MonthsConsecutive` | index.js:47-75 | for valid months with start not after end, the visited months are consecutive from the start to the end inclusive, `(endY - startY) * 12 + endM - startM + 1` of them; every year in between covers months 1 to 12 |
| `Exporter.MonthsOverrun` | index.js:47-75 | a start month after the end month in the end year never meets the `break`, so the enumeration runs on to December |

## Left out

- HTTP fetching (`request`, `getPost`, `runCached`), the rate limiter and the file cache are network and disk I/O (index.js:13-24, 57-67, 324-371).
- Cheerio HTML scraping and the `eval` of page scripts are foreign DOM queries. The timer text and the objects to merge are parameters instead.
- CouchDB views, `db.save` and `db.merge` are external store calls. The builder returns its map and a flag saying whether the code would merge it. The leaderboard takes the view's documents as a sequence.
- The `async.parallel` fan-out and the callbacks are concurrency plumbing.
- `Date` arithmetic (`endDateTime`, the 90-day window) is left out.
- Console output is left out. This covers `niceBest`, the log lines and the rendering of each leaderboard entry.
- `niceDuration` calls an undefined function, `duration_exact`, so it cannot run.
- The `metricKeys` lookup of the distance and duration columns is tied to the store's document shape. The two sample arrays are parameters instead.
- `Display.NicePace`: returns the numeric pace, not the `toFixed(2)` string. Floating-point rendering is not modelled.
- `Display.NiceSpeed`: returns the numeric speed, not the `toFixed(3)` string.
- `Display.NiceDist`: the conversion of km to metres uses exact reals, not IEEE doubles. For 0.5005 km the model rounds 500.5 m to 501 m ("1km -499m"), while the double product is 500.49999999999994 and rounds to 500 m ("1km -500m").
- `Efforts.FindFastest`, `Efforts.Window`: the segment distance `distances[end] - distances[start]` and its comparison with the target use exact reals, not IEEE doubles, so a segment on the boundary can fall on the other side. With samples 0.1 and 0.3 and a 0.2 km target the model covers the target, while in doubles `0.3 - 0.1` is 0.19999999999999998 and falls short. The same holds for the builder's guard and the speed division.
- `Efforts.FindFastest`: requires strictly increasing durations. A zero-length duration would give JavaScript's `Infinity` or `NaN` speed, and IEEE arithmetic is not modelled.
- `Display.NicePace`, `Display.NiceSpeed`: treat only 0 as falsy (the `!dist` of nicePace and the `!time` of niceSpeed). `NaN` and `undefined` distances are outside the real-valued model.
- `Exporter.MergeOptions`: maps have no key order, so the insertion order of `for-in` is not modelled. Maps are values, so the inputs are unchanged and the result is a fresh map by construction.
- `JsText.ParseInt`: parses with integers only. Numbers beyond 2^53 lose precision in JavaScript and are not modelled that way.
