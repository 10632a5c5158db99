/** A cron line and when it fires (src/cron_trigger.c:153-177, 203-213, 220-233). */
module CronLine {
  import opened CronField
  import opened CronParse
  import opened Wrappers
  import M = CronMeaning

  const DOW_NAMES := "sunmontuewedthufrisat"
  const MONTH_NAMES := "janfebmaraprmayjunjulaugsepoctnovdec"

  const MINUTES := Kind(60, 0, "")
  const HOURS := Kind(24, 0, "")
  const DAYS := Kind(32, 0, "")
  const MONTHS := Kind(12, -1, MONTH_NAMES)
  const WEEKDAYS := Kind(7, 0, DOW_NAMES)

  /** Every entry is set; for the days that includes entry 0, which no date has. */
  predicate Full(marks: set<nat>, size: nat) {
    forall j: nat :: j < size ==> j in marks
  }

  /** The five sets of a line as its fields give them. */
  datatype Fields = Fields(mins: set<nat>, hrs: set<nat>, days: set<nat>, mons: set<nat>, dow: set<nat>) {
    function FixedDays(): set<nat> {
      if Full(days, 32) && !Full(dow, 7) then {} else days
    }

    function FixedDow(): set<nat> {
      if Full(dow, 7) && !Full(days, 32) then {} else dow
    }

    /** If exactly one of the two is full only the other decides, otherwise either suffices. */
    predicate DayFires(mday: nat, wday: nat) {
      if Full(days, 32) && !Full(dow, 7) then wday in dow
      else if Full(dow, 7) && !Full(days, 32) then mday in days
      else mday in days || wday in dow
    }

    predicate Fires(min: nat, hour: nat, mday: nat, mon: nat, wday: nat) {
      min in mins && hour in hrs && mon in mons && DayFires(mday, wday)
    }
  }

  /** Clearing one of the two arrays is what makes the other decide alone. */
  lemma FixingIsTheDayRule(f: Fields, mday: nat, wday: nat)
    ensures (mday in f.FixedDays() || wday in f.FixedDow()) <==> f.DayFires(mday, wday)
  {
  }

  /** For every date and weekday the weekday alone decides. */
  ghost predicate WeekdayDecides(f: Fields) {
    forall mday: nat, wday: nat :: 1 <= mday <= 31 && wday < 7 ==> (f.DayFires(mday, wday) <==> wday in f.dow)
  }

  /**
   * With all dates from 1 to 31 set and a weekday left out, the weekday decides alone exactly if entry 0 of
   * the days is set too, which no date has: "1-31" is not taken for every day.
   */
  lemma EntryZeroDecides(f: Fields)
    requires (forall d: nat :: 1 <= d <= 31 ==> d in f.days) && !Full(f.dow, 7)
    ensures WeekdayDecides(f) <==> 0 in f.days
  {
    if 0 in f.days {
      assert forall j: nat :: j < 32 ==> j in f.days by {
        forall j: nat | j < 32 ensures j in f.days {
          assert j == 0 || 1 <= j <= 31;
        }
      }
    } else {
      var wday: nat :| wday < 7 && wday !in f.dow;
      assert !Full(f.days, 32);
      assert f.DayFires(1, wday);
    }
  }

  /** The text "1-31" sets the dates and not entry 0, which the star sets too. */
  lemma DatesAsWritten()
    ensures Parse(DAYS, "1-31").Parsed? && forall j :: j in Parse(DAYS, "1-31").marks <==> 1 <= j <= 31
    ensures Parse(DAYS, "*").Parsed? && Full(Parse(DAYS, "*").marks, 32)
  {
    DatesReadAs();
    DateRange();
    StarMarksAll(DAYS);
  }

  lemma DateRange()
    ensures forall j :: j in RangeMarks(32, 1, 31, 1) <==> 1 <= j <= 31
  {
    forall j: nat ensures j in RangeMarks(32, 1, 31, 1) <==> 1 <= j <= 31 {
      RangeMarksExactly(32, 1, 31, 1, j);
    }
  }

  lemma DatesReadAs()
    ensures Parse(DAYS, "1-31") == Parsed(RangeMarks(32, 1, 31, 1))
  {
    var dates := M.Range(M.Num("1"), M.Num("31"), None);
    M.OneDigit("1", 1);
    ThirtyOne();
    assert M.ItemText(dates) == "1-31";
    M.OneItem(DAYS, dates);
  }

  lemma ThirtyOne()
    ensures LeadingDigits("31", 0).0 == 31
  {
    assert "31"[1..] == "1" && "1"[1..] == "";
    assert LeadingDigits("31", 0).0 == LeadingDigits("1", 3).0 == LeadingDigits("", 31).0;
  }

  // ---------------------------------------------------------------- names

  function WeekdayName(i: nat): string {
    match i
    case 0 => "sun" case 1 => "mon" case 2 => "tue" case 3 => "wed" case 4 => "thu" case 5 => "fri" case _ => "sat"
  }

  function MonthName(i: nat): string {
    match i
    case 0 => "jan" case 1 => "feb" case 2 => "mar" case 3 => "apr" case 4 => "may" case 5 => "jun"
    case 6 => "jul" case 7 => "aug" case 8 => "sep" case 9 => "oct" case 10 => "nov" case _ => "dec"
  }

  /** The text is the names put together, and no two of them read the same. */
  ghost predicate AreNames(names: string, n: nat, name: nat -> string) {
    && |names| == 3 * n
    && (forall i: nat :: i < n ==> IsNameAt(names, i, name(i)))
    && (forall i: nat, j: nat :: i < j < n ==> !SameName(name(j), name(i)))
  }

  predicate IsNameAt(names: string, i: nat, name: string) {
    3 * i + 3 <= |names| && |name| == 3 && names[3 * i] == name[0] && names[3 * i + 1] == name[1] && names[3 * i + 2] == name[2]
  }

  lemma {:induction false} NameFound(names: string, n: nat, name: nat -> string, k: nat, i: nat)
    requires AreNames(names, n, name) && i <= k < n
    ensures NameAt(names, name(k), 3 * i) == Some(k)
    decreases k - i
  {
    assert IsNameAt(names, i, name(i)) && IsNameAt(names, k, name(k));
    if i < k {
      assert !SameName(name(k), name(i));
      NameFound(names, n, name, k, i + 1);
    }
  }

  lemma WeekdayNames()
    ensures AreNames(DOW_NAMES, 7, WeekdayName)
  {
    forall i: nat | i < 7 ensures IsNameAt(DOW_NAMES, i, WeekdayName(i)) {
      WeekdayAt(i);
    }
    forall i: nat, j: nat | i < j < 7 ensures !SameName(WeekdayName(j), WeekdayName(i)) {
      WeekdaysDiffer(i, j);
    }
  }

  lemma WeekdayAt(i: nat)
    requires i < 7
    ensures IsNameAt(DOW_NAMES, i, WeekdayName(i))
  {
    assert i == 0 || i == 1 || i == 2 || i == 3 || i == 4 || i == 5 || i == 6;
  }

  lemma WeekdaysDiffer(i: nat, j: nat)
    requires i < j < 7
    ensures !SameName(WeekdayName(j), WeekdayName(i))
  {
  }

  lemma MonthNames()
    ensures AreNames(MONTH_NAMES, 12, MonthName)
  {
    forall i: nat | i < 12 ensures IsNameAt(MONTH_NAMES, i, MonthName(i)) {
      MonthAt(i);
    }
    forall i: nat, j: nat | i < j < 12 ensures !SameName(MonthName(j), MonthName(i)) {
      MonthsDiffer(i, j);
    }
  }

  lemma MonthAt(i: nat)
    requires i < 12
    ensures IsNameAt(MONTH_NAMES, i, MonthName(i))
  {
    assert i == 0 || i == 1 || i == 2 || i == 3 || i == 4 || i == 5 || i == 6 || i == 7 || i == 8 || i == 9 || i == 10 || i == 11;
  }

  lemma MonthsDiffer(i: nat, j: nat)
    requires i < j < 12
    ensures !SameName(MonthName(j), MonthName(i))
  {
  }

  /** Upper case letters count as their lower case. */
  lemma LetterCase(d: nat)
    requires d < 26
    ensures Lower("ABCDEFGHIJKLMNOPQRSTUVWXYZ"[d]) == "abcdefghijklmnopqrstuvwxyz"[d] == Lower("abcdefghijklmnopqrstuvwxyz"[d])
    ensures M.IsLetter("ABCDEFGHIJKLMNOPQRSTUVWXYZ"[d]) && M.IsLetter("abcdefghijklmnopqrstuvwxyz"[d])
  {
  }

  /** So a name is found in any case. */
  lemma {:induction false} CaseIgnored(names: string, s: string, t: string, i: nat)
    requires |s| >= 3 && |t| >= 3 && Lower(s[0]) == Lower(t[0]) && Lower(s[1]) == Lower(t[1]) && Lower(s[2]) == Lower(t[2])
    ensures NameAt(names, s, i) == NameAt(names, t, i)
    decreases |names| - i
  {
    if i < |names| {
      CaseIgnored(names, s, t, i + 3);
    }
  }

  // ---------------------------------------------------------------- what single ends and stars mark

  lemma OneNameMarks(kind: Kind, n: nat, name: nat -> string, k: nat)
    requires kind.Valid() && AreNames(kind.names, n, name) && k < n == kind.ring && M.IsLetter(name(k)[0])
    ensures Parse(kind, name(k)) == Parsed({k})
  {
    var item := M.Single(M.Named(name(k)), None);
    assert IsNameAt(kind.names, k, name(k));
    NameFound(kind.names, n, name, k, 0);
    assert M.ItemText(item) == name(k) + "" == name(k);
    M.OneEndMarks(kind, item, k);
  }

  /** The names of weekdays and months mark their places: sunday is weekday 0 and january month 0. */
  lemma NamesMark(k: nat)
    ensures k < 7 ==> Parse(WEEKDAYS, WeekdayName(k)) == Parsed({k})
    ensures k < 12 ==> Parse(MONTHS, MonthName(k)) == Parsed({k})
  {
    if k < 7 {
      WeekdayNames();
      OneNameMarks(WEEKDAYS, 7, WeekdayName, k);
    }
    if k < 12 {
      MonthNames();
      OneNameMarks(MONTHS, 12, MonthName, k);
    }
  }

  /** A number marks its place, which among the months is one less. */
  lemma NumberMarks(kind: Kind, digits: string)
    requires kind.Valid() && M.AllDigits(digits) && 0 <= LeadingDigits(digits, 0).0 + kind.off < kind.ring
    ensures Parse(kind, digits) == Parsed({LeadingDigits(digits, 0).0 + kind.off})
  {
    var item := M.Single(M.Num(digits), None);
    assert M.ItemText(item) == digits + "" == digits;
    M.OneEndMarks(kind, item, LeadingDigits(digits, 0).0 + kind.off);
  }

  /** The numbers of each field; January is 1. */
  lemma NumbersMark(digits: string, n: nat)
    requires M.AllDigits(digits) && LeadingDigits(digits, 0).0 == n
    ensures n < 60 ==> Parse(MINUTES, digits) == Parsed({n})
    ensures n < 24 ==> Parse(HOURS, digits) == Parsed({n})
    ensures n < 32 ==> Parse(DAYS, digits) == Parsed({n})
    ensures 1 <= n <= 12 ==> Parse(MONTHS, digits) == Parsed({n - 1})
    ensures n < 7 ==> Parse(WEEKDAYS, digits) == Parsed({n})
  {
    forall kind: Kind | kind.Valid() && 0 <= n + kind.off < kind.ring ensures Parse(kind, digits) == Parsed({n + kind.off}) {
      NumberMarks(kind, digits);
    }
  }

  /** Minutes, hours and dates have no names. */
  lemma NoNames(text: string)
    requires text != "" && M.IsLetter(text[0])
    ensures Parse(MINUTES, text) == Parse(HOURS, text) == Parse(DAYS, text) == Failed({})
  {
  }

  lemma StarMarksAll(kind: Kind)
    requires kind.Valid()
    ensures Parse(kind, "*").Parsed? && forall j :: j in Parse(kind, "*").marks <==> 0 <= j < kind.ring
  {
    var star := M.Star(None);
    assert M.ItemText(star) == "*" + "" == "*";
    M.OneItem(kind, star);
    WholeRing(kind.ring, kind.ring - 1);
  }

  lemma WholeRing(ring: nat, last: nat)
    requires ring == last + 1
    ensures forall j :: j in RangeMarks(ring, 0, last, 1) <==> 0 <= j < ring
  {
    forall j: nat ensures j in RangeMarks(ring, 0, last, 1) <==> j < ring {
      RangeMarksExactly(ring, 0, last, 1, j);
      Remainders(ring, j, last);
    }
  }

  lemma Remainders(ring: nat, j: nat, last: nat)
    requires ring == last + 1
    ensures (last - 0) % ring == last && (j < ring ==> (j - 0) % ring == j) && (j - 0) % ring % 1 == 0
  {
  }

  /** A star with a step marks every step-th place from 0 on. */
  lemma StarStepMarks(kind: Kind, digits: string, step: nat)
    requires kind.Valid() && M.AllDigits(digits) && LeadingDigits(digits, 0).0 == step > 0
    ensures Parse(kind, "*/" + digits).Parsed?
    ensures forall j :: j in Parse(kind, "*/" + digits).marks <==> 0 <= j < kind.ring && j % step == 0
  {
    var star := M.Star(Some(digits));
    assert M.ItemText(star) == "*" + ("/" + digits) == "*/" + digits;
    M.OneItem(kind, star);
    StepsOnRing(kind.ring, kind.ring - 1, step);
  }

  lemma StepsOnRing(ring: nat, last: nat, step: nat)
    requires ring == last + 1 && step > 0
    ensures forall j :: j in RangeMarks(ring, 0, last, step) <==> 0 <= j < ring && j % step == 0
  {
    forall j: nat ensures j in RangeMarks(ring, 0, last, step) <==> j < ring && j % step == 0 {
      RangeMarksExactly(ring, 0, last, step, j);
      Remainders(ring, j, last);
      EuclidIs(0, step, 0, 0);
    }
  }

  /** The star of each field. */
  lemma StarsMark()
    ensures forall j :: j in MarksOf(Parse(MINUTES, "*")) <==> 0 <= j < 60
    ensures forall j :: j in MarksOf(Parse(HOURS, "*")) <==> 0 <= j < 24
    ensures forall j :: j in MarksOf(Parse(DAYS, "*")) <==> 0 <= j < 32
    ensures forall j :: j in MarksOf(Parse(MONTHS, "*")) <==> 0 <= j < 12
    ensures forall j :: j in MarksOf(Parse(WEEKDAYS, "*")) <==> 0 <= j < 7
  {
    StarMarksAll(MINUTES);
    StarMarksAll(HOURS);
    StarMarksAll(DAYS);
    StarMarksAll(MONTHS);
    StarMarksAll(WEEKDAYS);
  }

  lemma FieldsAre(minText: string, hrText: string, dayText: string, monText: string, dowText: string, f: Fields)
    requires Parse(MINUTES, minText) == Parsed(f.mins) && Parse(HOURS, hrText) == Parsed(f.hrs)
    requires Parse(DAYS, dayText) == Parsed(f.days) && Parse(MONTHS, monText) == Parsed(f.mons)
    requires Parse(WEEKDAYS, dowText) == Parsed(f.dow)
    ensures AllParsed(minText, hrText, dayText, monText, dowText)
    ensures ParsedFields(minText, hrText, dayText, monText, dowText) == f
  {
  }

  /** A line that marks one minute, hour, date and month, and every weekday, fires at that minute of that date. */
  lemma FiresOnce(minText: string, hrText: string, dayText: string, monText: string, dowText: string, f: Fields,
                  m: nat, h: nat, d: nat, mo: nat)
    requires f == Fields({m}, {h}, {d}, {mo}, f.dow) && Full(f.dow, 7) && d > 0
    requires Parse(MINUTES, minText) == Parsed(f.mins) && Parse(HOURS, hrText) == Parsed(f.hrs)
    requires Parse(DAYS, dayText) == Parsed(f.days) && Parse(MONTHS, monText) == Parsed(f.mons)
    requires Parse(WEEKDAYS, dowText) == Parsed(f.dow)
    ensures AllParsed(minText, hrText, dayText, monText, dowText)
    ensures FiresOnlyAt(ParsedFields(minText, hrText, dayText, monText, dowText), m, h, d, mo)
  {
    FieldsAre(minText, hrText, dayText, monText, dowText, f);
    OneDateFires(f, m, h, d, mo);
  }

  ghost predicate FiresOnlyAt(f: Fields, m: nat, h: nat, d: nat, mo: nat) {
    forall min: nat, hour: nat, mday: nat, mon: nat, wday: nat :: wday < 7 ==>
      (f.Fires(min, hour, mday, mon, wday) <==> min == m && hour == h && mday == d && mon == mo)
  }

  lemma OneDateFires(f: Fields, m: nat, h: nat, d: nat, mo: nat)
    requires f.mins == {m} && f.hrs == {h} && f.days == {d} && f.mons == {mo} && Full(f.dow, 7) && d > 0
    ensures FiresOnlyAt(f, m, h, d, mo)
  {
    assert 0 !in f.days;
  }

  ghost predicate FiresOnWeekdays(f: Fields, m: nat, h: nat, mo: nat, d: nat) {
    forall min: nat, hour: nat, mday: nat, mon: nat, wday: nat :: mday < 32 ==>
      (f.Fires(min, hour, mday, mon, wday) <==> min == m && hour == h && mon == mo && wday == d)
  }

  /** And with one month and weekday, and every date, a line fires on those weekdays of that month. */
  lemma OneWeekdayFires(f: Fields, m: nat, h: nat, mo: nat, d: nat)
    requires f.mins == {m} && f.hrs == {h} && f.mons == {mo} && f.dow == {d} && Full(f.days, 32)
    ensures FiresOnWeekdays(f, m, h, mo, d)
  {
    assert (if d == 0 then 1 else 0) !in f.dow;
  }

  /** So with a weekday left out, "*" leaves the choice to the weekdays and "1-31" fires on every day. */
  lemma DatesAndWeekdays(f: Fields, dayText: string)
    requires !Full(f.dow, 7) && dayText in {"*", "1-31"} && f.days == MarksOf(Parse(DAYS, dayText))
    ensures WeekdayDecides(f) <==> dayText == "*"
    ensures dayText == "1-31" ==> forall mday: nat, wday: nat :: 1 <= mday <= 31 ==> f.DayFires(mday, wday)
  {
    DatesAsWritten();
    EntryZeroDecides(f);
  }

  class Line {
    const dow: array<bool>
    const mons: array<bool>
    const hrs: array<bool>
    const days: array<bool>
    const mins: array<bool>

    ghost predicate Valid() {
      && dow.Length == 7 && mons.Length == 12 && hrs.Length == 24 && days.Length == 32 && mins.Length == 60
      && dow != mons && dow != hrs && dow != days && dow != mins && mons != hrs && mons != days && mons != mins
      && hrs != days && hrs != mins && days != mins
    }

    ghost predicate Times(f: Fields)
      reads mins, hrs, mons
    {
      Marked(mins, f.mins) && Marked(hrs, f.hrs) && Marked(mons, f.mons)
    }

    /** The line as parse_cronstring leaves it. */
    ghost predicate Holds(f: Fields)
      reads mins, hrs, days, mons, dow
    {
      Times(f) && Marked(days, f.FixedDays()) && Marked(dow, f.FixedDow())
    }

    /** Zeroed, as cron_trigger_add_new allocates it. */
    constructor ()
      ensures Valid() && Holds(Fields({}, {}, {}, {}, {}))
      ensures fresh(dow) && fresh(mons) && fresh(hrs) && fresh(days) && fresh(mins)
    {
      dow := new bool[7](_ => false);
      mons := new bool[12](_ => false);
      hrs := new bool[24](_ => false);
      days := new bool[32](_ => false);
      mins := new bool[60](_ => false);
    }

    /** fix_day_dow. */
    method FixDayDow(ghost f: Fields)
      requires Valid() && Marked(days, f.days) && Marked(dow, f.dow)
      modifies days, dow
      ensures Marked(days, f.FixedDays()) && Marked(dow, f.FixedDow())
    {
      var weekUsed := HasGap(dow, f.dow);
      var daysUsed := HasGap(days, f.days);
      if weekUsed != daysUsed {
        if weekUsed {
          Clear(days);
        } else {
          Clear(dow);
        }
      }
    }

    /** flag_starting_jobs, with the clock's fields given. */
    method FlagStartingJobs(min: nat, hour: nat, mday: nat, mon: nat, wday: nat, ghost f: Fields) returns (r: nat)
      requires Valid() && Holds(f) && min < 60 && hour < 24 && mday < 32 && mon < 12 && wday < 7
      ensures r == if f.Fires(min, hour, mday, mon, wday) then 1 else 0
    {
      FixingIsTheDayRule(f, mday, wday);
      if mins[min] && hrs[hour] && (days[mday] || dow[wday]) && mons[mon] {
        return 1;
      }
      return 0;
    }

    /** parse_cronstring on the five fields it has split off. */
    method ParseFields(minText: string, hrText: string, dayText: string, monText: string, dowText: string) returns (res: int, ghost f: Fields)
      requires Valid() && Holds(Fields({}, {}, {}, {}, {}))
      requires !Parse(MONTHS, monText).OutsideArray?
      modifies mins, hrs, days, mons, dow
      ensures res == 0 <==> AllParsed(minText, hrText, dayText, monText, dowText)
      ensures res == 0 ==> f == ParsedFields(minText, hrText, dayText, monText, dowText) && Holds(f)
      ensures res == 0 || res == -1
    {
      f := Fields({}, {}, {}, {}, {});
      StaysInside(MINUTES, minText, -1, -1, {});
      StaysInside(HOURS, hrText, -1, -1, {});
      StaysInside(DAYS, dayText, -1, -1, {});
      StaysInside(WEEKDAYS, dowText, -1, -1, {});
      res := ParseField(mins, MINUTES, minText, {});
      if res != 0 {
        return -1, f;
      }
      res := ParseField(hrs, HOURS, hrText, {});
      if res != 0 {
        return -1, f;
      }
      res := ParseField(days, DAYS, dayText, {});
      if res != 0 {
        return -1, f;
      }
      res := ParseField(mons, MONTHS, monText, {});
      if res != 0 {
        return -1, f;
      }
      res := ParseField(dow, WEEKDAYS, dowText, {});
      if res != 0 {
        return -1, f;
      }
      f := ParsedFields(minText, hrText, dayText, monText, dowText);
      FixDayDow(f);
    }
  }

  function Parse(kind: Kind, text: string): Outcome
    requires kind.Valid()
  {
    ParseFrom(kind, text, -1, -1, {})
  }

  predicate AllParsed(minText: string, hrText: string, dayText: string, monText: string, dowText: string) {
    && Parse(MINUTES, minText).Parsed? && Parse(HOURS, hrText).Parsed? && Parse(DAYS, dayText).Parsed?
    && Parse(MONTHS, monText).Parsed? && Parse(WEEKDAYS, dowText).Parsed?
  }

  function MarksOf(outcome: Outcome): set<nat> {
    if outcome.Parsed? then outcome.marks else {}
  }

  function ParsedFields(minText: string, hrText: string, dayText: string, monText: string, dowText: string): Fields {
    Fields(MarksOf(Parse(MINUTES, minText)), MarksOf(Parse(HOURS, hrText)), MarksOf(Parse(DAYS, dayText)),
           MarksOf(Parse(MONTHS, monText)), MarksOf(Parse(WEEKDAYS, dowText)))
  }

  /** Whether an entry is 0. */
  method HasGap(ary: array<bool>, ghost marks: set<nat>) returns (gap: bool)
    requires Marked(ary, marks)
    ensures gap == !Full(marks, ary.Length)
  {
    var i := 0;
    while i < ary.Length
      invariant i <= ary.Length && forall j :: 0 <= j < i ==> ary[j]
    {
      if !ary[i] {
        assert i !in marks;
        return true;
      }
      i := i + 1;
    }
    forall j: nat | j < ary.Length ensures j in marks {
      assert ary[j];
    }
    return false;
  }

  /** memset to 0. */
  method Clear(ary: array<bool>)
    modifies ary
    ensures Marked(ary, {})
  {
    forall i | 0 <= i < ary.Length {
      ary[i] := false;
    }
  }
}
