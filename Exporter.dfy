/** The self-contained helpers of the scraper index.js: the right-biased
    merge of two objects, the reading of a run's elapsed-time text, and the
    (year, month) enumeration that drives the list pages. Objects are maps
    from property name to value; the fetching and parsing of pages is not
    part of this model. */
module Exporter {
  import opened Wrappers
  import opened JsText

  // ---------------------------------------------------------------------
  // mergeOptions

  /** mergeOptions: copy every property of `obj1`, then every property of
      `obj2`, into a new object, so `obj2` wins where both have a key. */
  method MergeOptions<V>(obj1: map<string, V>, obj2: map<string, V>) returns (obj3: map<string, V>)
    ensures obj3.Keys == obj1.Keys + obj2.Keys
    ensures forall k :: k in obj2 ==> obj3[k] == obj2[k]
    ensures forall k :: k in obj1 && k !in obj2 ==> obj3[k] == obj1[k]
  {
    obj3 := map[];
    var pending := obj1.Keys;
    while pending != {}
      invariant pending <= obj1.Keys
      invariant obj3.Keys == obj1.Keys - pending
      invariant forall k :: k in obj3 ==> obj3[k] == obj1[k]
      decreases pending
    {
      var attrname :| attrname in pending;
      obj3 := obj3[attrname := obj1[attrname]];
      pending := pending - {attrname};
    }
    pending := obj2.Keys;
    while pending != {}
      invariant pending <= obj2.Keys
      invariant obj3.Keys == obj1.Keys + (obj2.Keys - pending)
      invariant forall k :: k in obj2 && k !in pending ==> obj3[k] == obj2[k]
      invariant forall k :: k in obj1 && k !in obj2 ==> obj3[k] == obj1[k]
      invariant forall k :: k in obj1 && k in pending ==> obj3[k] == obj1[k]
      decreases pending
    {
      var attrname :| attrname in pending;
      obj3 := obj3[attrname := obj2[attrname]];
      pending := pending - {attrname};
    }
  }

  // ---------------------------------------------------------------------
  // Elapsed time

  /** `h * 3600 + m * 60 + s`, NaN (None) when a part is NaN or undefined. */
  function Seconds(h: Option<int>, m: Option<int>, s: Option<int>): Option<int>
  {
    if h.Some? && m.Some? && s.Some? then Some(h.value * 3600 + m.value * 60 + s.value) else None
  }

  /** The seconds the colon-separated fields denote: "h:m:s" or "m:s"; any
      other field count leaves the parts undefined. */
  function FieldSeconds(fields: seq<string>): Option<int>
  {
    if |fields| == 3 then Seconds(ParseInt(fields[0]), ParseInt(fields[1]), ParseInt(fields[2]))
    else if |fields| == 2 then Seconds(Some(0), ParseInt(fields[0]), ParseInt(fields[1]))
    else None
  }

  /** The elapsed seconds a timer text denotes: only its first word counts. */
  function ElapsedSeconds(text: string): Option<int>
  {
    FieldSeconds(Split(BeforeSpace(Trim(text))))
  }

  /** The elapsed-time step of processRun, with `h`, `m` and `s` assigned
      per branch and undefined (None) when neither branch applies. */
  method ParseElapsed(text: string) returns (elapsed: Option<int>)
    ensures elapsed == ElapsedSeconds(text)
  {
    var word := BeforeSpace(Trim(text));
    var timeElapsed := Split(word);
    var h: Option<int>, m: Option<int>, s: Option<int> := None, None, None;
    if |timeElapsed| == 3 {
      s := ParseInt(timeElapsed[2]);
      m := ParseInt(timeElapsed[1]);
      h := ParseInt(timeElapsed[0]);
    } else if |timeElapsed| == 2 {
      s := ParseInt(timeElapsed[1]);
      m := ParseInt(timeElapsed[0]);
      h := Some(0);
    }
    elapsed := Seconds(h, m, s);
  }

  /** A non-empty run of decimal digits. */
  ghost predicate Decimal(f: string)
  {
    |f| >= 1 && forall j :: 0 <= j < |f| ==> '0' <= f[j] <= '9'
  }

  lemma DecimalDigit(c: char)
    requires '0' <= c <= '9'
    ensures DigitValue(c) == c as int - '0' as int && IsDigit(c, 10)
    ensures !IsSpace(c) && c != ':' && c != '-' && c != '+' && c != 'x' && c != 'X'
  {
  }

  /** parseInt reads a run of decimal digits as their decimal value, leading
      zeros included ("02" is 2). */
  lemma ParseDecimal(f: string)
    requires Decimal(f)
    ensures ParseInt(f) == Some(DigitsValue(f, 10))
  {
    DecimalDigit(f[0]);
    assert TrimStart(f) == f;
    assert Unsigned(f) == f;
    DecimalMagnitude(f);
  }

  lemma DecimalMagnitude(f: string)
    requires Decimal(f)
    ensures ParseMagnitude(f) == Some(DigitsValue(f, 10))
  {
    DecimalDigit(f[0]);
    if |f| >= 2 {
      DecimalDigit(f[1]);
    }
    forall j | 0 <= j < |f| ensures IsDigit(f[j], 10) {
      DecimalDigit(f[j]);
    }
    DigitPrefixOfDigits(f, 10);
  }

  /** Three fields that parse as h, m and s denote h * 3600 + m * 60 + s. */
  lemma FieldsOfThree(a: string, b: string, c: string, h: int, m: int, s: int)
    requires ParseInt(a) == Some(h) && ParseInt(b) == Some(m) && ParseInt(c) == Some(s)
    ensures FieldSeconds([a, b, c]) == Some(h * 3600 + m * 60 + s)
  {
    var f := [a, b, c];
    assert |f| == 3 && f[0] == a && f[1] == b && f[2] == c;
    var ph, pm, ps := ParseInt(a), ParseInt(b), ParseInt(c);
    assert FieldSeconds(f) == Seconds(ph, pm, ps);
    SecondsOfParts(h, m, s);
  }

  /** Two fields that parse as m and s denote m * 60 + s. */
  lemma FieldsOfTwo(a: string, b: string, m: int, s: int)
    requires ParseInt(a) == Some(m) && ParseInt(b) == Some(s)
    ensures FieldSeconds([a, b]) == Some(m * 60 + s)
  {
    var f := [a, b];
    assert |f| == 2 && f[0] == a && f[1] == b;
    var pm, ps := ParseInt(a), ParseInt(b);
    assert FieldSeconds(f) == Seconds(Some(0), pm, ps);
    SecondsOfMinutes(m, s);
  }

  lemma SecondsOfParts(h: int, m: int, s: int)
    ensures Seconds(Some(h), Some(m), Some(s)) == Some(h * 3600 + m * 60 + s)
  {
  }

  lemma SecondsOfMinutes(m: int, s: int)
    ensures Seconds(Some(0), Some(m), Some(s)) == Some(m * 60 + s)
  {
  }

  /** Trimming a word followed by nothing or by white space, and cutting it
      at the first white space, leaves the word. */
  lemma FirstWord(w: string, tail: string)
    requires w != [] && NoSpace(w)
    requires tail == [] || IsSpace(tail[0])
    ensures BeforeSpace(Trim(w + tail)) == w
  {
    var s := w + tail;
    assert s[0] == w[0];
    assert TrimStart(s) == s;
    var r := TrimEnd(s);
    assert s[|w| - 1] == w[|w| - 1];
    assert !IsSpace(s[|w| - 1]);
    assert |r| >= |w|;
    assert r == s[..|r|];
    assert r == w + r[|w|..];
    if |r| > |w| {
      assert r[|w|] == tail[0];
    }
    BeforeSpaceOfWord(w, r[|w|..]);
  }

  /** Decimal fields joined by colons, followed by nothing or by white space
      and anything else, are split back into those fields. */
  lemma WordFields(fields: seq<string>, tail: string)
    requires |fields| >= 1 && forall i :: 0 <= i < |fields| ==> Decimal(fields[i])
    requires tail == [] || IsSpace(tail[0])
    ensures Split(BeforeSpace(Trim(Join(fields) + tail))) == fields
  {
    var w := Join(fields);
    JoinNoSpace(fields);
    FirstWord(w, tail);
    assert BeforeSpace(Trim(Join(fields) + tail)) == w;
    DecimalNoColon(fields);
    SplitJoin(fields);
  }

  lemma JoinNoSpace(fields: seq<string>)
    requires |fields| >= 1 && forall i :: 0 <= i < |fields| ==> Decimal(fields[i])
    ensures Join(fields) != [] && NoSpace(Join(fields))
  {
    var w := Join(fields);
    JoinChars(fields);
    forall j | 0 <= j < |w| ensures !IsSpace(w[j]) {
      if w[j] != ':' {
        DecimalDigit(w[j]);
      }
    }
  }

  lemma DecimalNoColon(fields: seq<string>)
    requires forall i :: 0 <= i < |fields| ==> Decimal(fields[i])
    ensures forall i :: 0 <= i < |fields| ==> ':' !in fields[i]
  {
    forall i | 0 <= i < |fields| ensures ':' !in fields[i] {
      assert Decimal(fields[i]);
    }
  }

  /** The elapsed seconds of such a timer are those of its fields. */
  lemma ElapsedOfWord(fields: seq<string>, tail: string)
    requires |fields| >= 1 && forall i :: 0 <= i < |fields| ==> Decimal(fields[i])
    requires tail == [] || IsSpace(tail[0])
    ensures ElapsedSeconds(Join(fields) + tail) == FieldSeconds(fields)
  {
    WordFields(fields, tail);
  }

  /** An "h:m:s" timer whose decimal fields read as `vh`, `vm` and `vs`
      (leading zeros allowed), whatever follows its first white space, is
      vh * 3600 + vm * 60 + vs seconds. */
  lemma ElapsedHoursMinutesSeconds(h: string, m: string, s: string, tail: string, vh: int, vm: int, vs: int)
    requires Decimal(h) && Decimal(m) && Decimal(s)
    requires vh == DigitsValue(h, 10) && vm == DigitsValue(m, 10) && vs == DigitsValue(s, 10)
    requires tail == [] || IsSpace(tail[0])
    ensures ElapsedSeconds(Join([h, m, s]) + tail) == Some(vh * 3600 + vm * 60 + vs)
  {
    var fields := [h, m, s];
    forall i | 0 <= i < |fields| ensures Decimal(fields[i]) {
      if i == 0 {} else if i == 1 {} else {}
    }
    ElapsedOfWord(fields, tail);
    DecimalFieldsOfThree(h, m, s, vh, vm, vs);
  }

  lemma DecimalFieldsOfThree(h: string, m: string, s: string, vh: int, vm: int, vs: int)
    requires Decimal(h) && Decimal(m) && Decimal(s)
    requires vh == DigitsValue(h, 10) && vm == DigitsValue(m, 10) && vs == DigitsValue(s, 10)
    ensures FieldSeconds([h, m, s]) == Some(vh * 3600 + vm * 60 + vs)
  {
    ParseDecimal(h);
    ParseDecimal(m);
    ParseDecimal(s);
    FieldsOfThree(h, m, s, vh, vm, vs);
  }

  /** An "m:s" timer whose decimal fields read as `vm` and `vs`, whatever
      follows its first white space, is vm * 60 + vs seconds. */
  lemma ElapsedMinutesSeconds(m: string, s: string, tail: string, vm: int, vs: int)
    requires Decimal(m) && Decimal(s)
    requires vm == DigitsValue(m, 10) && vs == DigitsValue(s, 10)
    requires tail == [] || IsSpace(tail[0])
    ensures ElapsedSeconds(Join([m, s]) + tail) == Some(vm * 60 + vs)
  {
    var fields := [m, s];
    forall i | 0 <= i < |fields| ensures Decimal(fields[i]) {
      if i == 0 {} else {}
    }
    ElapsedOfWord(fields, tail);
    DecimalFieldsOfTwo(m, s, vm, vs);
  }

  lemma DecimalFieldsOfTwo(m: string, s: string, vm: int, vs: int)
    requires Decimal(m) && Decimal(s)
    requires vm == DigitsValue(m, 10) && vs == DigitsValue(s, 10)
    ensures FieldSeconds([m, s]) == Some(vm * 60 + vs)
  {
    ParseDecimal(m);
    ParseDecimal(s);
    FieldsOfTwo(m, s, vm, vs);
  }

  /** A timer of one decimal field, or of four or more, leaves `h`, `m` and
      `s` undefined, so the elapsed time is NaN. */
  lemma ElapsedOtherFieldCounts(fields: seq<string>, tail: string)
    requires |fields| >= 1 && forall i :: 0 <= i < |fields| ==> Decimal(fields[i])
    requires |fields| != 2 && |fields| != 3
    requires tail == [] || IsSpace(tail[0])
    ensures ElapsedSeconds(Join(fields) + tail) == None
  {
    ElapsedOfWord(fields, tail);
  }

  /** Every character of joined digit fields is a digit or a colon, and the
      joined text starts and ends with a digit. */
  lemma {:induction false} JoinChars(fields: seq<string>)
    requires |fields| >= 1
    requires forall i :: 0 <= i < |fields| ==> Decimal(fields[i])
    ensures var t := Join(fields);
      && |t| >= 1 && '0' <= t[0] <= '9' && '0' <= t[|t| - 1] <= '9'
      && forall j :: 0 <= j < |t| ==> ('0' <= t[j] <= '9' || t[j] == ':')
  {
    if |fields| > 1 {
      JoinChars(fields[1..]);
      var f, rest := fields[0], Join(fields[1..]);
      assert Join(fields) == f + ":" + rest;
      assert '0' <= f[0] <= '9';
      var t := Join(fields);
      forall j | 0 <= j < |t| ensures '0' <= t[j] <= '9' || t[j] == ':' {
        if j < |f| {
          assert t[j] == f[j];
        } else if j > |f| {
          assert t[j] == rest[j - |f| - 1];
        }
      }
    } else {
      assert '0' <= fields[0][0] <= '9';
    }
  }

  /** Cutting at the first white space keeps a word that is followed by
      nothing or by white space. */
  lemma {:induction false} BeforeSpaceOfWord(w: string, t: string)
    requires forall j :: 0 <= j < |w| ==> !IsSpace(w[j])
    requires t == [] || IsSpace(t[0])
    ensures BeforeSpace(w + t) == w
  {
    if w == [] {
      assert w + t == t;
    } else {
      assert (w + t)[0] == w[0];
      assert (w + t)[1..] == w[1..] + t;
      BeforeSpaceOfWord(w[1..], t);
      assert [w[0]] + w[1..] == w;
    }
  }

  // ---------------------------------------------------------------------
  // Month enumeration

  /** The months the inner loop of exportRuns visits in `year` from `month`:
      up to December, or up to the end month in the end year. */
  function MonthsOfYear(year: int, month: int, endYear: int, endMonth: int): seq<(int, int)>
    decreases 13 - month
  {
    if month > 12 then []
    else if month == endMonth && year == endYear then [(year, month)]
    else [(year, month)] + MonthsOfYear(year, month + 1, endYear, endMonth)
  }

  /** The months exportRuns visits from (year, month) on; every later year
      starts in January. */
  function MonthsFrom(year: int, month: int, endYear: int, endMonth: int): seq<(int, int)>
    decreases endYear - year
  {
    if year > endYear then []
    else MonthsOfYear(year, month, endYear, endMonth) + MonthsFrom(year + 1, 1, endYear, endMonth)
  }

  /** The (year, month) list pages exportRuns requests, in request order. */
  method ExportMonths(startDate: (int, int), endDate: (int, int)) returns (visited: seq<(int, int)>)
    ensures visited == MonthsFrom(startDate.0, startDate.1, endDate.0, endDate.1)
  {
    var endYear, endMonth := endDate.0, endDate.1;
    ghost var all := MonthsFrom(startDate.0, startDate.1, endYear, endMonth);
    visited := [];
    var month := startDate.1;
    var year := startDate.0;
    while year <= endYear
      invariant visited + MonthsFrom(year, month, endYear, endMonth) == all
      decreases endYear - year + 1
    {
      ghost var later := MonthsFrom(year + 1, 1, endYear, endMonth);
      while month <= 12
        invariant visited + (MonthsOfYear(year, month, endYear, endMonth) + later) == all
        decreases 13 - month
      {
        ghost var before := visited;
        visited := visited + [(year, month)];
        if month == endMonth && year == endYear {
          assert visited + later == all by {
            AppendStep(before, (year, month), [], later);
          }
          break;
        }
        AppendStep(before, (year, month), MonthsOfYear(year, month + 1, endYear, endMonth), later);
        month := month + 1;
      }
      if month > 12 {
        assert MonthsOfYear(year, month, endYear, endMonth) + later == later;
      }
      assert visited + later == all;
      month := 1;
      year := year + 1;
    }
  }

  /** Moving one month from the pending list to the visited one. */
  lemma AppendStep<T>(v: seq<T>, x: T, rest: seq<T>, later: seq<T>)
    ensures v + ([x] + rest + later) == (v + [x]) + (rest + later)
  {
  }

  /** Chronological order: an earlier year, or the same year and an earlier
      month. */
  predicate Before(a: (int, int), b: (int, int))
  {
    a.0 < b.0 || (a.0 == b.0 && a.1 < b.1)
  }

  /** Strictly increasing in chronological order. */
  ghost predicate Chronological(v: seq<(int, int)>)
  {
    forall i, j :: 0 <= i < j < |v| ==> Before(v[i], v[j])
  }

  /** Within one year the months are consecutive and end in December at
      the latest. */
  ghost predicate MonthsOfOneYear(v: seq<(int, int)>, year: int, month: int)
  {
    forall i :: 0 <= i < |v| ==> v[i].0 == year && v[i].1 == month + i && month + i <= 12
  }

  lemma {:induction false} MonthsOfYearShape(year: int, month: int, endYear: int, endMonth: int)
    ensures MonthsOfOneYear(MonthsOfYear(year, month, endYear, endMonth), year, month)
    decreases 13 - month
  {
    if month <= 12 && !(month == endMonth && year == endYear) {
      var r := MonthsOfYear(year, month + 1, endYear, endMonth);
      MonthsOfYearShape(year, month + 1, endYear, endMonth);
      var v := MonthsOfYear(year, month, endYear, endMonth);
      assert v == [(year, month)] + r;
      assert MonthsOfOneYear(r, year, month + 1);
      forall i | 0 <= i < |v| ensures v[i].0 == year && v[i].1 == month + i && month + i <= 12 {
        if i > 0 {
          assert v[i] == r[i - 1];
        }
      }
      assert MonthsOfOneYear(v, year, month);
    } else if month <= 12 {
      var v := MonthsOfYear(year, month, endYear, endMonth);
      assert v == [(year, month)];
      assert |v| == 1 && v[0].1 == month;
    } else {
      assert MonthsOfYear(year, month, endYear, endMonth) == [];
    }
  }

  ghost predicate YearsFrom(v: seq<(int, int)>, year: int)
  {
    forall i :: 0 <= i < |v| ==> year <= v[i].0
  }

  lemma {:induction false} MonthsFromYears(year: int, month: int, endYear: int, endMonth: int)
    ensures YearsFrom(MonthsFrom(year, month, endYear, endMonth), year)
    decreases endYear - year
  {
    if year <= endYear {
      var first := MonthsOfYear(year, month, endYear, endMonth);
      var rest := MonthsFrom(year + 1, 1, endYear, endMonth);
      MonthsOfYearShape(year, month, endYear, endMonth);
      MonthsFromYears(year + 1, 1, endYear, endMonth);
      var v := MonthsFrom(year, month, endYear, endMonth);
      assert v == first + rest;
      forall i | 0 <= i < |v| ensures year <= v[i].0 {
        if i < |first| {
          assert v[i] == first[i];
          assert first[i].0 == year;
        } else {
          assert v[i] == rest[i - |first|];
          assert year + 1 <= rest[i - |first|].0;
        }
      }
      assert YearsFrom(v, year);
    } else {
      assert MonthsFrom(year, month, endYear, endMonth) == [];
    }
  }

  /** Whatever the dates, the pages are requested in strictly increasing
      chronological order, so no page is requested twice. */
  lemma {:induction false} MonthsChronological(year: int, month: int, endYear: int, endMonth: int)
    ensures Chronological(MonthsFrom(year, month, endYear, endMonth))
    decreases endYear - year
  {
    if year <= endYear {
      var first := MonthsOfYear(year, month, endYear, endMonth);
      var rest := MonthsFrom(year + 1, 1, endYear, endMonth);
      MonthsOfYearShape(year, month, endYear, endMonth);
      MonthsFromYears(year + 1, 1, endYear, endMonth);
      MonthsChronological(year + 1, 1, endYear, endMonth);
      var v := first + rest;
      forall i, j | 0 <= i < j < |v| ensures Before(v[i], v[j]) {
        if j < |first| {
          assert v[i] == first[i] && v[j] == first[j];
        } else if i < |first| {
          assert v[i] == first[i] && v[j] == rest[j - |first|];
        } else {
          assert v[i] == rest[i - |first|] && v[j] == rest[j - |first|];
        }
      }
    }
  }

  /** Months since year 0, January being 0. */
  function MonthNumber(d: (int, int)): int { d.0 * 12 + d.1 - 1 }

  ghost predicate ValidMonth(m: int) { 1 <= m <= 12 }

  /** `v` holds valid months numbered consecutively from `k` on. */
  ghost predicate CountsFrom(v: seq<(int, int)>, k: int)
  {
    forall i :: 0 <= i < |v| ==> ValidMonth(v[i].1) && MonthNumber(v[i]) == k + i
  }

  /** For valid months and a start not after the end, the pages are exactly
      the consecutive months from the start to the end month inclusive:
      (endY - startY) * 12 + endM - startM + 1 of them, every year between
      covering January to December. */
  lemma {:induction false} MonthsConsecutive(year: int, month: int, endYear: int, endMonth: int)
    requires ValidMonth(month) && ValidMonth(endMonth)
    requires Before((year, month), (endYear, endMonth)) || (year, month) == (endYear, endMonth)
    ensures var v := MonthsFrom(year, month, endYear, endMonth);
      && |v| == (endYear - year) * 12 + endMonth - month + 1
      && CountsFrom(v, MonthNumber((year, month)))
    decreases endYear - year
  {
    if year == endYear {
      LastYearConsecutive(year, month, endMonth);
    } else {
      var first := MonthsOfYear(year, month, endYear, endMonth);
      var rest := MonthsFrom(year + 1, 1, endYear, endMonth);
      MonthsConsecutive(year + 1, 1, endYear, endMonth);
      FullYearConsecutive(year, month, endYear, endMonth);
      assert MonthNumber((year + 1, 1)) == MonthNumber((year, month)) + |first|;
      ConcatCounts(first, rest, MonthNumber((year, month)));
    }
  }

  lemma ConcatCounts(first: seq<(int, int)>, rest: seq<(int, int)>, k: int)
    requires CountsFrom(first, k) && CountsFrom(rest, k + |first|)
    ensures CountsFrom(first + rest, k)
  {
    var v := first + rest;
    forall i | 0 <= i < |v| ensures ValidMonth(v[i].1) && MonthNumber(v[i]) == k + i {
      if i < |first| {
        assert v[i] == first[i];
      } else {
        assert v[i] == rest[i - |first|];
      }
    }
  }

  /** The end year runs from the start month to the end month. */
  lemma LastYearConsecutive(year: int, month: int, endMonth: int)
    requires 1 <= month <= endMonth <= 12
    ensures var v := MonthsFrom(year, month, year, endMonth);
      && |v| == endMonth - month + 1
      && CountsFrom(v, MonthNumber((year, month)))
  {
    var first := MonthsOfYear(year, month, year, endMonth);
    assert MonthsFrom(year + 1, 1, year, endMonth) == [];
    assert MonthsFrom(year, month, year, endMonth) == first + [];
    assert first + [] == first;
    MonthsOfYearShape(year, month, year, endMonth);
    MonthsOfYearStop(year, month, endMonth);
  }

  /** An earlier year runs from the start month to December. */
  lemma FullYearConsecutive(year: int, month: int, endYear: int, endMonth: int)
    requires 1 <= month <= 12 && year != endYear
    ensures var v := MonthsOfYear(year, month, endYear, endMonth);
      && |v| == 13 - month
      && CountsFrom(v, MonthNumber((year, month)))
  {
    MonthsOfYearShape(year, month, endYear, endMonth);
    MonthsOfYearFull(year, month, endYear, endMonth);
  }

  lemma {:induction false} MonthsOfYearStop(year: int, month: int, endMonth: int)
    requires 1 <= month <= endMonth <= 12
    ensures |MonthsOfYear(year, month, year, endMonth)| == endMonth - month + 1
    decreases endMonth - month
  {
    if month < endMonth {
      MonthsOfYearStop(year, month + 1, endMonth);
    }
  }

  lemma {:induction false} MonthsOfYearFull(year: int, month: int, endYear: int, endMonth: int)
    requires 1 <= month && year != endYear
    ensures |MonthsOfYear(year, month, endYear, endMonth)| == if month > 12 then 0 else 13 - month
    decreases 13 - month
  {
    if month <= 12 {
      MonthsOfYearFull(year, month + 1, endYear, endMonth);
    }
  }

  /** A start month after the end month of the same year never meets the
      stop condition: the enumeration runs on to December of that year. */
  lemma MonthsOverrun(year: int, month: int, endMonth: int)
    requires endMonth < month <= 12
    ensures MonthsFrom(year, month, year, endMonth) == MonthsOfYear(year, month, year + 1, endMonth)
  {
    OverrunSameYear(year, month, endMonth);
  }

  lemma {:induction false} OverrunSameYear(year: int, month: int, endMonth: int)
    requires endMonth < month
    ensures MonthsOfYear(year, month, year, endMonth) == MonthsOfYear(year, month, year + 1, endMonth)
    decreases 13 - month
  {
    if month <= 12 {
      OverrunSameYear(year, month + 1, endMonth);
    }
  }
}
