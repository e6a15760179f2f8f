/** The 72 micro-season calendar: the (month, day) lookup table built at
    load time from entries whose day ranges may run past the end of their
    month, and the lookup of the season for a date. */
module Seasons {
  import opened Base

  /** One calendar entry. A range that crosses into the next month is
      stored under its first month with sentinel days past that month's
      end, e.g. March 31 to April 4 as month 3, days 31 to 35. */
  datatype MicroSeason = MicroSeason(
    month: int,
    dayStart: int,
    dayEnd: int,
    number: int,
    kanji: string,
    romaji: string,
    english: string,
    solarTerm: string,
    solarTermRomaji: string,
    solarTermEnglish: string,
    pentad: int,
    season: string)

  /** The "total" field of every answer. */
  const TotalSeasons: int := 72

  /** The length of month m in a common year; 31 for a number that is not
      a month, as the lookups default to. */
  function DaysInMonth(m: int): int
  {
    if m == 2 then 28 else if m == 4 || m == 6 || m == 9 || m == 11 then 30 else 31
  }

  /** (m % 12) + 1: December is followed by January. */
  function NextMonth(m: int): int
  {
    m % 12 + 1
  }

  /** A real calendar day of a common year. */
  predicate ValidDate(k: (int, int))
  {
    1 <= k.0 <= 12 && 1 <= k.1 <= DaysInMonth(k.0)
  }

  /** An entry whose month is real and whose days stay within the month
      and the one after it. */
  predicate WellFormed(e: MicroSeason)
  {
    1 <= e.month <= 12 && 1 <= e.dayStart && e.dayEnd <= DaysInMonth(e.month) + DaysInMonth(NextMonth(e.month))
  }

  /** The real date a stored (month, day) stands for: a sentinel day past
      the month's end moves into the next month. */
  function RealDate(m: int, d: int): (r: (int, int))
    ensures 1 <= m <= 12 && 1 <= d <= DaysInMonth(m) + DaysInMonth(NextMonth(m)) ==> ValidDate(r)
    ensures d <= DaysInMonth(m) ==> r == (m, d)
    ensures d > DaysInMonth(m) ==> r == (NextMonth(m), d - DaysInMonth(m)) && r.1 >= 1
  {
    if d <= DaysInMonth(m) then (m, d) else (NextMonth(m), d - DaysInMonth(m))
  }

  /** The keys that the stored days lo..hi of month m land on, stated
      without reference to RealDate. */
  predicate InRange(m: int, lo: int, hi: int, k: (int, int))
  {
    || (k.0 == m && lo <= k.1 <= hi && k.1 <= DaysInMonth(m))
    || (k.0 == NextMonth(m) && 1 <= k.1 && lo <= k.1 + DaysInMonth(m) <= hi)
  }

  /** The table key k belongs to entry e. */
  predicate Covers(e: MicroSeason, k: (int, int))
  {
    InRange(e.month, e.dayStart, e.dayEnd, k)
  }

  /** InRange is exactly the set of keys RealDate produces for the days
      lo..hi, in both directions. */
  lemma InRangeIsImageOfRealDate(m: int, lo: int, hi: int, k: (int, int))
    ensures InRange(m, lo, hi, k) <==> exists d :: lo <= d <= hi && RealDate(m, d) == k
  {
    if InRange(m, lo, hi, k) {
      var d := if k.0 == m && k.1 <= DaysInMonth(m) && lo <= k.1 <= hi then k.1 else k.1 + DaysInMonth(m);
      assert lo <= d <= hi && RealDate(m, d) == k;
    }
    if d :| lo <= d <= hi && RealDate(m, d) == k {
      assert InRange(m, lo, hi, k);
    }
  }

  /** Taking one more day into the range adds exactly the key of that day. */
  lemma InRangeStep(m: int, lo: int, d: int, k: (int, int))
    requires lo <= d
    ensures InRange(m, lo, d, k) <==> InRange(m, lo, d - 1, k) || k == RealDate(m, d)
  {
  }

  /** Every key of a well-formed entry is a real date: the sentinel days
      land in the following month, within its length. */
  lemma CoveredKeysAreDates(e: MicroSeason, k: (int, int))
    requires WellFormed(e) && Covers(e, k)
    ensures ValidDate(k)
  {
    InRangeIsImageOfRealDate(e.month, e.dayStart, e.dayEnd, k);
  }

  /** What the build loop leaves behind for key k after the first n
      entries: the key is present exactly when one of them covers it, and
      it names the last of them that does. */
  ghost predicate KeyUpTo(seasons: seq<MicroSeason>, table: map<(int, int), nat>, n: int, k: (int, int))
    requires 0 <= n <= |seasons|
  {
    && (k in table <==> exists i :: 0 <= i < n && Covers(seasons[i], k))
    && (k in table ==>
          table[k] < n && Covers(seasons[table[k]], k)
          && forall j :: table[k] < j < n ==> !Covers(seasons[j], k))
  }

  /** What the build loop leaves behind after the first n entries. */
  ghost predicate SeasonTableUpTo(seasons: seq<MicroSeason>, table: map<(int, int), nat>, n: int)
    requires 0 <= n <= |seasons|
  {
    forall k :: KeyUpTo(seasons, table, n, k)
  }

  /** What the whole build loop leaves behind; every key names an entry. */
  ghost predicate IsSeasonTable(seasons: seq<MicroSeason>, table: map<(int, int), nat>)
  {
    && SeasonTableUpTo(seasons, table, |seasons|)
    && forall k :: k in table ==> table[k] < |seasons|
  }

  /** For one key: pointing it at entry n when that entry covers it, and
      leaving it alone otherwise, extends the table by that entry. */
  lemma KeyStep(seasons: seq<MicroSeason>, before: map<(int, int), nat>, after: map<(int, int), nat>, n: int,
                k: (int, int))
    requires 0 <= n < |seasons| && KeyUpTo(seasons, before, n, k)
    requires k in after <==> k in before || Covers(seasons[n], k)
    requires k in after ==> after[k] == if Covers(seasons[n], k) then n else before[k]
    ensures KeyUpTo(seasons, after, n + 1, k)
  {
    if Covers(seasons[n], k) {
      assert k in after && after[k] == n;
    } else if k in before {
      var i :| 0 <= i < n && Covers(seasons[i], k);
      assert 0 <= i < n + 1;
      assert after[k] == before[k];
    } else {
      assert k !in after;
      assert forall i :: 0 <= i < n ==> !Covers(seasons[i], k);
    }
  }

  /** Overwriting the keys of entry n with n extends the table by that entry. */
  lemma SeasonTableStep(seasons: seq<MicroSeason>, before: map<(int, int), nat>, after: map<(int, int), nat>, n: int)
    requires 0 <= n < |seasons| && SeasonTableUpTo(seasons, before, n)
    requires forall k :: k in after <==> k in before || Covers(seasons[n], k)
    requires forall k :: k in after ==> after[k] == if Covers(seasons[n], k) then n else before[k]
    ensures SeasonTableUpTo(seasons, after, n + 1)
  {
    var m := n + 1;
    forall k ensures KeyUpTo(seasons, after, m, k) {
      KeyStep(seasons, before, after, n, k);
    }
  }

  /** The inner loop of the table build: every stored day of entry e,
      mapped to its real date, is pointed at index i. */
  method AddSeasonDays(table: map<(int, int), nat>, e: MicroSeason, i: nat)
    returns (t: map<(int, int), nat>)
    ensures forall k :: k in t <==> k in table || Covers(e, k)
    ensures forall k :: k in t ==> t[k] == if Covers(e, k) then i else table[k]
  {
    t := table;
    var d := e.dayStart;
    while d <= e.dayEnd
      invariant e.dayStart <= e.dayEnd ==> e.dayStart <= d <= e.dayEnd + 1
      invariant e.dayStart > e.dayEnd ==> d == e.dayStart
      invariant forall k :: k in t <==> k in table || InRange(e.month, e.dayStart, d - 1, k)
      invariant forall k :: k in t ==> t[k] == if InRange(e.month, e.dayStart, d - 1, k) then i else table[k]
    {
      forall k ensures InRange(e.month, e.dayStart, d, k) <==> InRange(e.month, e.dayStart, d - 1, k) || k == RealDate(e.month, d) {
        InRangeStep(e.month, e.dayStart, d, k);
      }
      t := t[RealDate(e.month, d) := i];
      d := d + 1;
    }
    forall k ensures InRange(e.month, e.dayStart, d - 1, k) <==> Covers(e, k) {
      if e.dayStart <= e.dayEnd {
        assert d - 1 == e.dayEnd;
      }
    }
  }

  /** The load-time loop filling _SEASON_BY_MONTH_DAY: every stored day of
      every entry, mapped to its real date, points at the entry; later
      entries overwrite earlier ones. */
  method BuildSeasonTable(seasons: seq<MicroSeason>) returns (table: map<(int, int), nat>)
    ensures IsSeasonTable(seasons, table)
    ensures (forall i :: 0 <= i < |seasons| ==> WellFormed(seasons[i])) ==>
      forall k :: k in table ==> ValidDate(k)
  {
    table := map[];
    var i := 0;
    while i < |seasons|
      invariant 0 <= i <= |seasons|
      invariant SeasonTableUpTo(seasons, table, i)
    {
      ghost var before := table;
      table := AddSeasonDays(table, seasons[i], i);
      SeasonTableStep(seasons, before, table, i);
      i := i + 1;
    }
    forall k | k in table ensures table[k] < |seasons| {
      assert KeyUpTo(seasons, table, |seasons|, k);
    }
    forall k | k in table && (forall i :: 0 <= i < |seasons| ==> WellFormed(seasons[i]))
      ensures ValidDate(k)
    {
      assert KeyUpTo(seasons, table, |seasons|, k);
      CoveredKeysAreDates(seasons[table[k]], k);
    }
  }

  /** _month_abbr: None stands for the KeyError of a month outside 1..12. */
  function MonthAbbr(m: int): (r: Option<string>)
    ensures r.Some? <==> 1 <= m <= 12
  {
    if m == 1 then Some("Jan") else if m == 2 then Some("Feb") else if m == 3 then Some("Mar")
    else if m == 4 then Some("Apr") else if m == 5 then Some("May") else if m == 6 then Some("Jun")
    else if m == 7 then Some("Jul") else if m == 8 then Some("Aug") else if m == 9 then Some("Sep")
    else if m == 10 then Some("Oct") else if m == 11 then Some("Nov") else if m == 12 then Some("Dec")
    else None
  }

  function DateLabel(abbr: string, day: int): string
  {
    abbr + " " + IntToString(day)
  }

  /** The answer of the lookup: the season's fields, the error dict for an
      unmapped date, or the KeyError raised for a month with no name. */
  datatype SeasonAnswer =
    | SeasonInfo(
        number: int,
        total: int,
        kanji: string,
        romaji: string,
        english: string,
        start: string,
        end: string,
        solarTerm: string,
        solarTermRomaji: string,
        solarTermEnglish: string,
        pentad: int,
        season: string)
    | NoSeason(error: string)
    | MonthKeyError(month: int)

  /** _get_current_micro_season over the table built from `seasons`. */
  function CurrentMicroSeason(seasons: seq<MicroSeason>, table: map<(int, int), nat>, month: int, day: int)
    : (r: SeasonAnswer)
    requires forall k :: k in table ==> table[k] < |seasons|
    ensures r.NoSeason? <==> (month, day) !in table
    ensures r.NoSeason? ==>
      r.error == "No micro-season found for " + IntToString(month) + "/" + IntToString(day)
    // a real month never raises
    ensures (month, day) in table && 1 <= seasons[table[(month, day)]].month <= 12 ==> r.SeasonInfo?
    ensures r.MonthKeyError? ==> !(1 <= r.month <= 12)
    ensures r.SeasonInfo? ==>
      var e := seasons[table[(month, day)]];
      var s := RealDate(e.month, e.dayStart);
      var t := RealDate(e.month, e.dayEnd);
      && r.number == e.number && r.total == TotalSeasons && r.pentad == e.pentad
      && r.kanji == e.kanji && r.romaji == e.romaji && r.english == e.english
      && r.solarTerm == e.solarTerm && r.solarTermRomaji == e.solarTermRomaji
      && r.solarTermEnglish == e.solarTermEnglish && r.season == e.season
      // the labels name real months, and the day past a month's end is moved into the next month
      && 1 <= s.0 <= 12 && 1 <= t.0 <= 12
      && r.start == DateLabel(MonthAbbr(s.0).value, s.1)
      && r.end == DateLabel(MonthAbbr(t.0).value, t.1)
  {
    if (month, day) !in table then
      NoSeason("No micro-season found for " + IntToString(month) + "/" + IntToString(day))
    else
      var e := seasons[table[(month, day)]];
      var s := RealDate(e.month, e.dayStart);
      var t := RealDate(e.month, e.dayEnd);
      var startAbbr := MonthAbbr(s.0);
      var endAbbr := MonthAbbr(t.0);
      if startAbbr.None? then MonthKeyError(s.0)
      else if endAbbr.None? then MonthKeyError(t.0)
      else
        SeasonInfo(e.number, TotalSeasons, e.kanji, e.romaji, e.english,
                   DateLabel(startAbbr.value, s.1), DateLabel(endAbbr.value, t.1),
                   e.solarTerm, e.solarTermRomaji, e.solarTermEnglish, e.pentad, e.season)
  }

  /** The text of the "no season" answer names the date it was asked for:
      two dates with the same text are the same date. */
  lemma NoSeasonNamesDate(seasons: seq<MicroSeason>, table: map<(int, int), nat>, m1: int, d1: int, m2: int, d2: int)
    requires forall k :: k in table ==> table[k] < |seasons|
    requires CurrentMicroSeason(seasons, table, m1, d1).NoSeason?
    requires CurrentMicroSeason(seasons, table, m2, d2) == CurrentMicroSeason(seasons, table, m1, d1)
    ensures m1 == m2 && d1 == d2
  {
    var a, b := IntToString(m1), IntToString(d1);
    var c, d := IntToString(m2), IntToString(d2);
    IntToStringNoSlash(m1);
    IntToStringNoSlash(m2);
    var prefix := "No micro-season found for ";
    assert prefix + a + "/" + b == prefix + c + "/" + d;
    assert (prefix + a + "/" + b)[|prefix|..] == a + "/" + b;
    assert (prefix + c + "/" + d)[|prefix|..] == c + "/" + d;
    SplitAtSlash(a, b, c, d);
    IntToStringInjective(m1, m2);
    IntToStringInjective(d1, d2);
  }

  /** A printed integer holds no '/'. */
  lemma IntToStringNoSlash(i: int)
    ensures forall j :: 0 <= j < |IntToString(i)| ==> IntToString(i)[j] != '/'
  {
    if i < 0 {
      var n: nat := -i;
      assert IntToString(i) == "-" + NatToString(n);
      assert forall j :: 1 <= j < |IntToString(i)| ==> IntToString(i)[j] == NatToString(n)[j - 1];
    }
  }

  /** "a/b" splits back into a and b when a has no '/'. */
  lemma SplitAtSlash(a: string, b: string, c: string, d: string)
    requires forall j :: 0 <= j < |a| ==> a[j] != '/'
    requires forall j :: 0 <= j < |c| ==> c[j] != '/'
    requires a + "/" + b == c + "/" + d
    ensures a == c && b == d
  {
    var s := a + "/" + b;
    // the first '/' of s sits right after a, and right after c
    assert forall j :: 0 <= j < |a| ==> s[j] == a[j];
    assert forall j :: 0 <= j < |c| ==> s[j] == c[j];
    assert s[|a|] == '/' && s[|c|] == '/';
    assert !(|a| < |c|);
    assert !(|c| < |a|);
    assert a == s[..|a|] == c;
    assert b == s[|a| + 1..] == d;
  }

  /** With well-formed entries, February 29 has no season and the lookup
      returns the error dict. */
  lemma LeapDayHasNoSeason(seasons: seq<MicroSeason>, table: map<(int, int), nat>)
    requires IsSeasonTable(seasons, table)
    requires forall i :: 0 <= i < |seasons| ==> WellFormed(seasons[i])
    ensures CurrentMicroSeason(seasons, table, 2, 29) ==
      NoSeason("No micro-season found for 2/29")
  {
    if (2, 29) in table {
      assert KeyUpTo(seasons, table, |seasons|, (2, 29));
      CoveredKeysAreDates(seasons[table[(2, 29)]], (2, 29));
    }
    assert IntToString(2) == "2";
    assert IntToString(29) == "29";
  }

  /** Over the built table, a date answers with the last well-formed entry
      that covers it, and that entry's number. */
  lemma LookupFindsCoveringSeason(seasons: seq<MicroSeason>, table: map<(int, int), nat>, i: int, month: int, day: int)
    requires IsSeasonTable(seasons, table)
    requires forall j :: 0 <= j < |seasons| ==> WellFormed(seasons[j])
    requires 0 <= i < |seasons| && Covers(seasons[i], (month, day))
    requires forall j :: i < j < |seasons| ==> !Covers(seasons[j], (month, day))
    ensures (month, day) in table && table[(month, day)] == i
    ensures var r := CurrentMicroSeason(seasons, table, month, day);
      r.SeasonInfo? && r.number == seasons[i].number && r.kanji == seasons[i].kanji
  {
    assert KeyUpTo(seasons, table, |seasons|, (month, day));
  }

  /** Illustrative entries, among them three of the eleven entries that
      cross a month end. */
  const SampleSeasons: seq<MicroSeason> := [
    MicroSeason(2, 24, 28, 5, "霞始靆", "Kasumi hajimete tanabiku", "Mist starts to linger",
                "雨水", "Usui", "Rain Water", 2, "Spring"),
    MicroSeason(3, 31, 35, 12, "雷乃発声", "Kaminari sunawachi koe o hassu", "Distant thunder",
                "春分", "Shunbun", "Spring Equinox", 3, "Spring"),
    MicroSeason(12, 27, 31, 65, "麋角解", "Sawashika no tsuno otsuru", "Deer shed antlers",
                "冬至", "Tōji", "Winter Solstice", 2, "Winter"),
    MicroSeason(12, 32, 35, 66, "雪下出麦", "Yuki watarite mugi nobiru", "Wheat sprouts under snow",
                "冬至", "Tōji", "Winter Solstice", 3, "Winter"),
    MicroSeason(1, 30, 34, 72, "鶏始乳", "Niwatori hajimete toya ni tsuku", "Hens begin to lay",
                "大寒", "Daikan", "Greater Cold", 3, "Winter")
  ]

  /** The sample entries are well formed; the one stored as December 32-35
      covers January 1-4, and April 4 belongs to the March 31 entry. */
  lemma SampleSeasonsCovers()
    ensures forall i :: 0 <= i < |SampleSeasons| ==> WellFormed(SampleSeasons[i])
    ensures Covers(SampleSeasons[3], (1, 1)) && Covers(SampleSeasons[3], (1, 2))
    ensures Covers(SampleSeasons[3], (1, 3)) && Covers(SampleSeasons[3], (1, 4))
    ensures !Covers(SampleSeasons[3], (12, 31)) && !Covers(SampleSeasons[3], (1, 5))
    ensures Covers(SampleSeasons[1], (4, 4)) && !Covers(SampleSeasons[1], (4, 5))
  {
  }

  /** The labels of the entry stored as December 32 to 35. */
  lemma NewYearLabels()
    ensures RealDate(12, 32) == (1, 1) && RealDate(12, 35) == (1, 4)
    ensures DateLabel(MonthAbbr(1).value, 1) == "Jan 1" && DateLabel(MonthAbbr(1).value, 4) == "Jan 4"
  {
    assert IntToString(1) == "1";
    assert IntToString(4) == "4";
  }

  /** January 2 falls in the season stored as December 32 to 35, and its
      labels read "Jan 1" to "Jan 4". */
  lemma SampleNewYear(table: map<(int, int), nat>)
    requires IsSeasonTable(SampleSeasons, table)
    ensures var r := CurrentMicroSeason(SampleSeasons, table, 1, 2);
      r.SeasonInfo? && r.number == 66 && r.start == "Jan 1" && r.end == "Jan 4"
  {
    SampleSeasonsCovers();
    var e := SampleSeasons[3];
    assert e.month == 12 && e.dayStart == 32 && e.dayEnd == 35 && e.number == 66;
    assert Covers(e, (1, 2)) && !Covers(SampleSeasons[4], (1, 2));
    LookupFindsCoveringSeason(SampleSeasons, table, 3, 1, 2);
    NewYearLabels();
  }
}
