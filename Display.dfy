/** The display helpers of best_efforts.js: nicePace, niceSpeed and
    niceDist. They produce the numbers best_efforts.js renders; None stands for
    the "--" placeholder. Distances are kilometres, times seconds. */
module Display {
  import opened Wrappers
  import opened JsText
  import opened Efforts

  /** `Math.round`: the nearest integer, halves rounded up. */
  function RoundHalfUp(x: real): (r: int)
    ensures r as real - 0.5 <= x < r as real + 0.5
  {
    (x + 0.5).Floor
  }

  /** A distance that is a whole number of metres. */
  predicate WholeMetres(dist: real)
  {
    (dist * 1000.0).Floor as real == dist * 1000.0
  }

  /** nicePace: "--" when the distance is 0, else time / (dist * 100). */
  function NicePace(time: real, dist: real): (r: Option<real>)
    ensures r.None? <==> dist == 0.0
    ensures r.Some? ==> r.value * (dist * 100.0) == time
  {
    if dist == 0.0 then None else Some(time / (dist * 100.0))
  }

  /** niceSpeed: "--" when the time is 0, else km/h computed from the
      distance rounded to whole metres. */
  function NiceSpeed(time: real, dist: real): (r: Option<real>)
    ensures r.None? <==> time == 0.0
    ensures r.Some? ==> r.value * time == RoundHalfUp(dist * 1000.0) as real * 3.6
  {
    if time == 0.0 then None
    else Some((RoundHalfUp(dist * 1000.0) as real / time) * 3.6)
  }

  /** What niceDist renders: "<km>km <m>m", or "<d>m" when the rounded
      kilometre count is 0. */
  datatype DistText = KmAndMetres(km: int, m: int) | Metres(metres: int)

  /** The split of `d` metres into the nearest whole kilometre count (halves
      up, as `Math.round` does) and a remainder, which is negative when the
      count was rounded up. */
  function SplitMetres(d: int): (r: DistText)
    ensures r.KmAndMetres? ==> r.km != 0 && r.km * 1000 + r.m == d && -500 <= r.m < 500
    ensures r.Metres? ==> r.metres == d
    ensures r.Metres? <==> -500 <= d < 500
  {
    var km := RoundHalfUp(d as real / 1000.0);
    var m := d - km * 1000;
    if km != 0 then KmAndMetres(km, m) else Metres(d)
  }

  /** niceDist: the distance rounded to whole metres, then split. */
  function NiceDist(dist: real): (r: DistText)
    ensures var d := RoundHalfUp(dist * 1000.0);
      && (r.KmAndMetres? ==> r.km * 1000 + r.m == d && -500 <= r.m < 500)
      && (r.Metres? ==> r.metres == d)
      && (r.Metres? <==> -500 <= d < 500)
  {
    SplitMetres(RoundHalfUp(dist * 1000.0))
  }

  /** The text niceDist returns. */
  function Render(t: DistText): string
  {
    match t
    case KmAndMetres(km, m) => IntToString(km) + "km " + IntToString(m) + "m"
    case Metres(d) => IntToString(d) + "m"
  }

  /** The rendered text gives its numbers back: parseInt of the whole text
      reads the kilometres (or the bare metres), and parseInt of what follows
      "km " reads the metres. */
  lemma RenderReadsBack(t: DistText)
    ensures ParseInt(Render(t)) == Some(if t.KmAndMetres? then t.km else t.metres)
    ensures t.KmAndMetres? ==>
      var k := |IntToString(t.km)| + 3;
      k <= |Render(t)| && ParseInt(Render(t)[k..]) == Some(t.m)
  {
    match t
    case Metres(d) => RenderMetresReadsBack(d);
    case KmAndMetres(km, m) => RenderKmReadsBack(km, m);
  }

  /** "m" ends a number, and so does anything starting with "km". */
  lemma UnitEndsNumber(unit: string)
    requires unit != [] && (unit[0] == 'm' || unit[0] == 'k')
    ensures EndsNumber(unit)
  {
    assert DigitValue(unit[0]) == 16;
  }

  lemma RenderMetresReadsBack(d: int)
    ensures ParseInt(Render(Metres(d))) == Some(d)
  {
    var unit := "m";
    UnitEndsNumber(unit);
    ParseIntStops(d, unit);
  }

  lemma RenderKmReadsBack(km: int, m: int)
    ensures ParseInt(Render(KmAndMetres(km, m))) == Some(km)
    ensures var k := |IntToString(km)| + 3;
      k <= |Render(KmAndMetres(km, m))| && ParseInt(Render(KmAndMetres(km, m))[k..]) == Some(m)
  {
    KmText(km, m);
    var rest := "km " + (IntToString(m) + "m");
    UnitEndsNumber(rest);
    ParseIntStops(km, rest);
    UnitEndsNumber("m");
    ParseIntStops(m, "m");
  }

  /** "<km>km <m>m" is the kilometres followed by "km ", then the metres. */
  lemma KmText(km: int, m: int)
    ensures var text := Render(KmAndMetres(km, m));
      && text == IntToString(km) + ("km " + (IntToString(m) + "m"))
      && |IntToString(km)| + 3 <= |text|
      && text[|IntToString(km)| + 3..] == IntToString(m) + "m"
  {
    var a, b := IntToString(km), IntToString(m);
    var text := Render(KmAndMetres(km, m));
    assert text == a + "km " + b + "m";
    assert a + "km " + b + "m" == a + ("km " + (b + "m"));
    assert (a + ("km " + (b + "m")))[|a| + 3..] == b + "m";
  }

  /** Rounding leaves a whole number of metres as it is. */
  lemma RoundWholeMetres(dist: real)
    requires WholeMetres(dist)
    ensures RoundHalfUp(dist * 1000.0) as real == dist * 1000.0
  {
    var k := (dist * 1000.0).Floor;
    var r := RoundHalfUp(dist * 1000.0);
    assert r as real - 0.5 <= k as real < r as real + 0.5;
    assert r - 1 < k < r + 1;
  }

  /** For a record that satisfies the speed formula and covers whole metres,
      niceSpeed is the record's speed in m/s converted to km/h. */
  lemma NiceSpeedOfRecord(b: BestEffort)
    requires b.duration > 0.0 && b.speed == b.distance * 1000.0 / b.duration
    requires WholeMetres(b.distance)
    ensures NiceSpeed(b.duration, b.distance) == Some(b.speed * 3.6)
  {
    RoundWholeMetres(b.distance);
  }

  /** With whole metres, pace times speed is the constant 36: the pace is
      minutes per kilometre scaled by 10/6, as nicePace's `* 100`
      makes it. */
  lemma PaceTimesSpeed(time: real, dist: real)
    requires time != 0.0 && dist != 0.0 && WholeMetres(dist)
    ensures NicePace(time, dist).value * NiceSpeed(time, dist).value == 36.0
  {
    RoundWholeMetres(dist);
    var p := NicePace(time, dist).value;
    var v := NiceSpeed(time, dist).value;
    assert p * (dist * 100.0) == time;
    assert v * time == dist * 3600.0;
    calc {
      (p * v) * time;
      p * (v * time);
      p * (dist * 3600.0);
      36.0 * (p * (dist * 100.0));
      36.0 * time;
    }
    CancelFactor(p * v, 36.0, time);
  }

  lemma CancelFactor(a: real, b: real, t: real)
    requires t != 0.0 && a * t == b * t
    ensures a == b
  {
    assert (a - b) * t == 0.0;
  }

  /** 1.05 km is shown as "1km 50m". */
  lemma DistExampleRoundedDown()
    ensures NiceDist(1.05) == KmAndMetres(1, 50)
    ensures Render(KmAndMetres(1, 50)) == "1km 50m"
  {
    assert RoundHalfUp(1.05 * 1000.0) == 1050;
    assert RoundHalfUp(1050 as real / 1000.0) == 1;
    assert NatToString(5) == "5";
  }

  /** 1.6 km is shown as "2km -400m": the kilometre count is rounded up. */
  lemma DistExampleRoundedUp()
    ensures NiceDist(1.6) == KmAndMetres(2, -400)
    ensures Render(KmAndMetres(2, -400)) == "2km -400m"
  {
    assert RoundHalfUp(1.6 * 1000.0) == 1600;
    assert RoundHalfUp(1600 as real / 1000.0) == 2;
    assert NatToString(4) == "4" && NatToString(40) == "40";
  }

  /** 0.4 km is shown as "400m". */
  lemma DistExampleMetres()
    ensures NiceDist(0.4) == Metres(400)
    ensures Render(Metres(400)) == "400m"
  {
    assert RoundHalfUp(0.4 * 1000.0) == 400;
    assert RoundHalfUp(400 as real / 1000.0) == 0;
    assert NatToString(4) == "4" && NatToString(40) == "40";
  }

  /** The 1.05 km / 270 s segment shows 14 km/h and a pace of 270/105. */
  lemma SpeedExamples()
    ensures NiceSpeed(270.0, 1.05) == Some(14.0)
    ensures NicePace(270.0, 1.05) == Some(270.0 / 105.0)
  {
    assert RoundHalfUp(1.05 * 1000.0) == 1050;
  }
}
