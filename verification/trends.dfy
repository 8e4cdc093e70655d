/** The trend chart: a week of days starting on Monday, the days of a month, or the
    twelve months of a year, each turned into a bar whose height is an energy value;
    the average badge over the non-empty bars; and the previous/next buttons. */
module Trends {
  import opened Wrappers
  import opened Text
  import opened Calendar
  import opened DateText
  import opened Types
  import opened Seqs
  import opened EntryIndex
  import opened Stats

  datatype Timeframe = Week | Month | Year

  /** One bar: its axis label, its height, its colour and the key it stands for. */
  datatype Bucket = Bucket(caption: string, value: real, color: string, date: string)

  /** The colour of an empty bar, and of a non-empty month bar in the year view. */
  const Idle := "#f1f5f9"
  const Brand := "var(--brand-color)"

  // ---- Monday of the week ------------------------------------------------------------

  /** `getStartOfWeek`: `setDate(getDate() - getDay() + (getDay() == 0 ? -6 : 1))`,
      i.e. the Monday on or before `d`. */
  function StartOfWeek(d: CivilDate): (r: CivilDate)
    ensures MondayIndex(r) == 0
    ensures DayNumber(r) == DayNumber(d) - MondayIndex(d)
  {
    var day := Weekday(d);
    var diff := d.day - day + (if day == 0 then -6 else 1);
    StartOfWeekShift(d);
    SetDate(d, diff)
  }

  lemma StartOfWeekShift(d: CivilDate)
    ensures var day := Weekday(d);
      SetDate(d, d.day - day + (if day == 0 then -6 else 1)) == AddDays(d, -MondayIndex(d))
    ensures MondayIndex(AddDays(d, -MondayIndex(d))) == 0
  {
    WeekShiftArith(DayNumber(d), Weekday(d), MondayIndex(d));
    BackToMonday(d);
  }

  lemma BackToMonday(d: CivilDate)
    ensures MondayIndex(AddDays(d, -MondayIndex(d))) == 0
  {
    var i := MondayIndex(d);
    MondayIndexShift(d, -i);
    assert (i + -i) % 7 == 0;
  }

  /** The day-of-month offset `getStartOfWeek` applies is minus the Monday-based
      weekday. */
  lemma WeekShiftArith(x: int, w: int, i: int)
    requires w == (x + 1) % 7 && i == x % 7
    ensures -w + (if w == 0 then -6 else 1) == -i
  {
    SundayLast(x);
  }

  /** The only multiple of seven among `x` and the six numbers below it is `x - x % 7`. */
  lemma FloorSeven(x: int, a: int, k: int)
    requires a % 7 == 0 && 0 <= x - a <= 6 && k == x % 7
    ensures x - k == a
  {
  }

  /** The week starts on the only Monday among `d` and the six days before it; a
      Sunday maps back six days. */
  lemma StartOfWeekUnique(d: CivilDate, m: CivilDate)
    requires MondayIndex(m) == 0 && 0 <= DayNumber(d) - DayNumber(m) <= 6
    ensures StartOfWeek(d) == m
    ensures Weekday(d) == 0 ==> DayNumber(d) - DayNumber(StartOfWeek(d)) == 6
  {
    var r := StartOfWeek(d);
    FloorSeven(DayNumber(d), DayNumber(m), MondayIndex(d));
    DayNumberInjective(r, m);
  }

  /** A Monday is its own week start. */
  lemma StartOfWeekIdempotent(d: CivilDate)
    ensures StartOfWeek(StartOfWeek(d)) == StartOfWeek(d)
  {
    StartOfWeekUnique(StartOfWeek(d), StartOfWeek(d));
  }

  // ---- Day bars ----------------------------------------------------------------------

  /** `entryMap`: entries by their raw `date`, the last entry of a date winning. */
  function EntryMap(entries: seq<Entry>): (m: map<string, Entry>)
    ensures forall k :: k in m <==> exists e :: e in entries && e.date == k
    ensures forall k :: k in m ==> m[k] in entries && m[k].date == k
  {
    LastWins(entries, (e: Entry) => e.date)
  }

  /** The bar of one day: the energy of the day's entry in the map, else empty. */
  function DayBucket(m: map<string, Entry>, caption: string, day: CivilDate): (b: Bucket)
    ensures b.caption == caption && b.date == Format(day)
    ensures b.date in m ==> b.value == m[b.date].energy.Value() as real
    ensures b.date !in m <==> b.value == 0.0
    ensures b.color == if b.date in m then Meta(m[b.date].energy).color else Idle
    ensures IsBucketValue(b.value)
  {
    var key := Format(day);
    if key in m then Bucket(caption, m[key].energy.Value() as real, Meta(m[key].energy).color, key)
    else Bucket(caption, 0.0, Idle, key)
  }

  /** A day's bar is non-empty exactly when some entry carries that day's text as its
      date, and then it shows the energy of the last such entry. */
  lemma DayBucketOfEntries(entries: seq<Entry>, caption: string, day: CivilDate, i: int)
    ensures DayBucket(EntryMap(entries), caption, day).value > 0.0
      <==> exists e :: e in entries && e.date == Format(day)
    ensures 0 <= i < |entries| && entries[i].date == Format(day)
      && IsLastWithKey(entries, (e: Entry) => e.date, i)
      ==> DayBucket(EntryMap(entries), caption, day).value == entries[i].energy.Value() as real
  {
    if 0 <= i < |entries| && entries[i].date == Format(day)
      && IsLastWithKey(entries, (e: Entry) => e.date, i)
    {
      LastWinsPicksLast(entries, (e: Entry) => e.date, i);
    }
  }

  /** Consecutive day bars from `first`, one per caption. */
  function DayBars(m: map<string, Entry>, captions: seq<string>, first: CivilDate): (r: seq<Bucket>)
    ensures |r| == |captions|
    ensures forall i :: 0 <= i < |r| ==> r[i] == DayBucket(m, captions[i], AddDays(first, i))
  {
    seq(|captions|, i requires 0 <= i < |captions| => DayBucket(m, captions[i], AddDays(first, i)))
  }

  // ---- Week view ---------------------------------------------------------------------

  const WeekLabels: seq<string> := ["T2", "T3", "T4", "T5", "T6", "T7", "CN"]

  /** The `i`-th day of the week that starts on `start`: `setDate(start.getDate() + i)`. */
  function WeekDay(start: CivilDate, i: int): (r: CivilDate)
    ensures r == AddDays(start, i)
  {
    SetDate(start, start.day + i)
  }

  /** The seven bars of the week containing `ref`, Monday first: bar `i` is the day
      `WeekDay(StartOfWeek(ref), i)`. */
  function WeekBuckets(entries: seq<Entry>, ref: CivilDate): (r: seq<Bucket>)
    ensures |r| == 7
    ensures forall i :: 0 <= i < 7 ==>
      r[i] == DayBucket(EntryMap(entries), WeekLabels[i], WeekDay(StartOfWeek(ref), i))
  {
    DayBars(EntryMap(entries), WeekLabels, StartOfWeek(ref))
  }

  /** The week view shows seven consecutive days, the `i`-th on weekday `i` counted
      from Monday, and `ref` is among them at its own weekday. */
  lemma WeekDays(ref: CivilDate, i: int)
    requires 0 <= i < 7
    ensures DayNumber(AddDays(StartOfWeek(ref), i)) == DayNumber(StartOfWeek(ref)) + i
    ensures MondayIndex(AddDays(StartOfWeek(ref), i)) == i
    ensures AddDays(StartOfWeek(ref), MondayIndex(ref)) == ref
  {
    FromMonday(StartOfWeek(ref), i);
    WeekReachesRef(ref);
  }

  /** The `i`-th day after a Monday has Monday-based weekday `i`, for `i < 7`. */
  lemma FromMonday(s: CivilDate, i: int)
    requires MondayIndex(s) == 0 && 0 <= i < 7
    ensures MondayIndex(AddDays(s, i)) == i
  {
    MondayIndexShift(s, i);
    ModSevenSmall(i);
  }

  /** A weekday index is its own remainder modulo 7. */
  lemma ModSevenSmall(i: int)
    requires 0 <= i < 7
    ensures (0 + i) % 7 == i
  {
  }

  lemma WeekReachesRef(ref: CivilDate)
    ensures AddDays(StartOfWeek(ref), MondayIndex(ref)) == ref
  {
    var t := AddDays(StartOfWeek(ref), MondayIndex(ref));
    DayNumberInjective(t, ref);
  }

  // ---- Month view --------------------------------------------------------------------

  /** The year the `Date` constructor uses for `y`: two-digit years mean 19xx. */
  function ConstructorYear(y: int): int {
    if 0 <= y <= 99 then 1900 + y else y
  }

  /** `new Date(year, month + 1, 0).getDate()` for the zero-based `month`: the last day
      of the month, i.e. its length. */
  function MonthLength(ref: CivilDate): (n: int)
    ensures 28 <= n <= 31
  {
    LastDayOfMonth(ConstructorYear(ref.year), ref.month);
    NewDate(ref.year, ref.month, 0).day
  }

  /** Day 0 of the following month is the last day of the month, so the month view has
      one bar per day of the reference month (of the year the constructor uses). */
  lemma MonthLengthIsDaysInMonth(ref: CivilDate)
    ensures MonthLength(ref) == DaysInMonth(ConstructorYear(ref.year), ref.month)
  {
    LastDayOfMonth(ConstructorYear(ref.year), ref.month);
  }

  /** Day 0 of the following month is the last day of month `m`. */
  lemma LastDayOfMonth(y: int, m: int)
    requires 1 <= m <= 12
    ensures MakeDay(y, m, 0) == Date(y, m, DaysInMonth(y, m))
  {
    var last := Date(y, m, DaysInMonth(y, m));
    FirstOfMonth(last);
    if m < 12 {
      MonthStep(y, m);
      MakeDayInMonth(y, m + 1, 0);
    } else {
      YearStep(y);
      MonthStep(y, 12);
      assert DayNumber(MakeDay(y, 12, 0)) == DayNumber(Date(y + 1, 1, 1)) - 1;
    }
    DayNumberInjective(MakeDay(y, m, 0), last);
  }

  /** The first day of the reference month: `new Date(year, month, 1)`. */
  function MonthFirst(ref: CivilDate): CivilDate {
    NewDate(ref.year, ref.month - 1, 1)
  }

  /** Bar `i - 1` of the month view stands for `new Date(year, month, i)`, which is day
      `i` of the reference month itself, not a normalised overflow. */
  lemma MonthDayInMonth(ref: CivilDate, i: int)
    requires 1 <= i <= MonthLength(ref)
    ensures AddDays(MonthFirst(ref), i - 1) == NewDate(ref.year, ref.month - 1, i)
    ensures AddDays(MonthFirst(ref), i - 1) == Date(ConstructorYear(ref.year), ref.month, i)
  {
    var y := ConstructorYear(ref.year);
    MakeDayFromFirst(y, ref.month - 1, i);
    MonthLengthIsDaysInMonth(ref);
    MakeDayInRange(y, ref.month - 1, i);
  }

  /** Day `i` of a month, however normalised, is `i - 1` days after its day 1. */
  lemma MakeDayFromFirst(y: int, m0: int, i: int)
    ensures AddDays(MakeDay(y, m0, 1), i - 1) == MakeDay(y, m0, i)
  {
    DayNumberInjective(AddDays(MakeDay(y, m0, 1), i - 1), MakeDay(y, m0, i));
  }

  /** The day captions `1`, `2`, ..., `n`. */
  function DayCaptions(n: nat): (r: seq<string>)
    ensures |r| == n && forall i :: 0 <= i < n ==> r[i] == NatToString(i + 1)
  {
    seq(n, i requires 0 <= i < n => NatToString(i + 1))
  }

  /** One bar per day of the reference month, captioned `1`, `2`, ... */
  function MonthBuckets(entries: seq<Entry>, ref: CivilDate): (r: seq<Bucket>)
    ensures |r| == MonthLength(ref)
    ensures forall i :: 0 <= i < |r| ==>
      r[i] == DayBucket(EntryMap(entries), NatToString(i + 1), AddDays(MonthFirst(ref), i))
  {
    DayBars(EntryMap(entries), DayCaptions(MonthLength(ref)), MonthFirst(ref))
  }

  // ---- Year view ---------------------------------------------------------------------

  const MonthLabels: seq<string> :=
    ["T1", "T2", "T3", "T4", "T5", "T6", "T7", "T8", "T9", "T10", "T11", "T12"]

  /** `new Date(e.date + 'T00:00:00')` lies in month `m` of year `y`; a date text that
      does not parse is an invalid date, which lies in no month. */
  predicate InMonth(e: Entry, y: int, m: int) {
    var p := ParseIso(e.date);
    p.Some? && p.value.year == y && p.value.month == m
  }

  /** The entries of month `m` of year `y`, in list order. */
  function MonthEntries(entries: seq<Entry>, y: int, m: int): (r: seq<Entry>)
    ensures forall e :: e in r <==> e in entries && InMonth(e, y, m)
  {
    Filter(entries, (e: Entry) => InMonth(e, y, m))
  }

  /** The bar of month `idx + 1`: the mean energy of that month's entries, or `0`. */
  function MonthBucket(entries: seq<Entry>, y: int, idx: int): (b: Bucket)
    requires 0 <= idx < 12
    ensures b.caption == MonthLabels[idx] && b.date == MonthLabels[idx]
    ensures b.value == MeanEnergy(MonthEntries(entries, y, idx + 1))
    ensures b.value == 0.0 <==> forall e :: e in entries ==> !InMonth(e, y, idx + 1)
    ensures b.color == if b.value > 0.0 then Brand else Idle
    ensures IsBucketValue(b.value)
  {
    var es := MonthEntries(entries, y, idx + 1);
    var avg := MeanEnergy(es);
    assert |es| > 0 ==> es[0] in es;
    Bucket(MonthLabels[idx], avg, if avg > 0.0 then Brand else Idle, MonthLabels[idx])
  }

  /** The twelve month bars of the reference year. */
  function YearBuckets(entries: seq<Entry>, ref: CivilDate): (r: seq<Bucket>)
    ensures |r| == 12
    ensures forall idx :: 0 <= idx < 12 ==> r[idx] == MonthBucket(entries, ref.year, idx)
  {
    seq(12, idx requires 0 <= idx < 12 => MonthBucket(entries, ref.year, idx))
  }

  /** A month bar is the mean over exactly the entries whose date parses into that
      month of that year, each counted as often as it occurs. */
  lemma MonthEntriesExact(entries: seq<Entry>, y: int, m: int, e: Entry)
    ensures multiset(MonthEntries(entries, y, m))[e]
      == if InMonth(e, y, m) then multiset(entries)[e] else 0
  {
    FilterMultiset(entries, (x: Entry) => InMonth(x, y, m), e);
  }

  // ---- The chart ---------------------------------------------------------------------

  /** The bars of the chosen view: seven for a week, one per day of the month, twelve
      for a year, each empty or in `[1, 5]`. */
  function Buckets(entries: seq<Entry>, tf: Timeframe, ref: CivilDate): (r: seq<Bucket>)
    ensures tf == Week ==> |r| == 7
    ensures tf == Month ==> |r| == MonthLength(ref)
    ensures tf == Year ==> |r| == 12
    ensures forall b :: b in r ==> IsBucketValue(b.value)
  {
    match tf
    case Week => WeekBuckets(entries, ref)
    case Month => MonthBuckets(entries, ref)
    case Year => YearBuckets(entries, ref)
  }

  function Values(bs: seq<Bucket>): (vs: seq<real>)
    ensures |vs| == |bs| && forall i :: 0 <= i < |bs| ==> vs[i] == bs[i].value
  {
    seq(|bs|, i requires 0 <= i < |bs| => bs[i].value)
  }

  /** The average badge: the mean over the non-empty bars only. */
  function Average(bs: seq<Bucket>): (r: real)
    ensures Positives(Values(bs)) == [] ==> r == 0.0
    ensures var ps := Positives(Values(bs));
      ps != [] ==> r * |ps| as real == Sum(ps)
  {
    PositiveMean(Values(bs))
  }

  /** Over bars that are empty or in `[1, 5]`, the badge is in `[1, 5]` when some bar
      is non-empty and `0` when all are empty. */
  lemma AverageRange(bs: seq<Bucket>)
    requires forall b :: b in bs ==> IsBucketValue(b.value)
    ensures (exists b :: b in bs && b.value > 0.0) ==> 1.0 <= Average(bs) <= 5.0
    ensures (forall b :: b in bs ==> b.value == 0.0) ==> Average(bs) == 0.0
  {
    var vs := Values(bs);
    forall v | v in vs
      ensures IsBucketValue(v)
    {
      var i :| 0 <= i < |vs| && vs[i] == v;
      assert bs[i] in bs;
    }
    PositiveMeanRange(vs);
    if exists b :: b in bs && b.value > 0.0 {
      var b :| b in bs && b.value > 0.0;
      var i :| 0 <= i < |bs| && bs[i] == b;
      assert vs[i] in vs;
    }
    if forall b :: b in bs ==> b.value == 0.0 {
      forall v | v in vs
        ensures v == 0.0
      {
        var i :| 0 <= i < |vs| && vs[i] == v;
        assert bs[i] in bs;
      }
    }
  }

  /** The badge of every view is in `[1, 5]` when some bar is non-empty, else `0`. */
  lemma ChartAverageRange(entries: seq<Entry>, tf: Timeframe, ref: CivilDate)
    ensures var bs := Buckets(entries, tf, ref);
      && ((exists b :: b in bs && b.value > 0.0) ==> 1.0 <= Average(bs) <= 5.0)
      && ((forall b :: b in bs ==> b.value == 0.0) ==> Average(bs) == 0.0)
  {
    AverageRange(Buckets(entries, tf, ref));
  }

  // ---- Navigation --------------------------------------------------------------------

  /** `handlePrev` as written: `setDate(getDate() - 7)`, `setMonth(getMonth() - 1)` or
      `setFullYear(getFullYear() - 1)`. The month step keeps the day of the month, so it
      counts `day - 1` days on from the first of the previous month and stays inside
      that month only when the month has the day. */
  function PrevAsWritten(tf: Timeframe, d: CivilDate): (r: CivilDate)
    ensures tf == Week ==> r == AddDays(d, -7)
    ensures tf == Month ==> DayNumber(r) == DayNumber(AdjacentFirst(d, -1)) + d.day - 1
    ensures var p := AdjacentFirst(d, -1);
      tf == Month && d.day <= DaysInMonth(p.year, p.month) ==> r == Date(p.year, p.month, d.day)
    ensures tf == Year && d.day <= DaysInMonth(d.year - 1, d.month) ==> r == Date(d.year - 1, d.month, d.day)
    ensures tf == Year && d.day > DaysInMonth(d.year - 1, d.month) ==> r == Date(d.year - 1, 3, 1)
  {
    match tf
    case Week => SetDate(d, d.day - 7)
    case Month => MonthStepAsWritten(d, -1)
    case Year => SetFullYear(d, d.year - 1)
  }

  /** `handleNext` as written: the mirror image of PrevAsWritten. */
  function NextAsWritten(tf: Timeframe, d: CivilDate): (r: CivilDate)
    ensures tf == Week ==> r == AddDays(d, 7)
    ensures tf == Month ==> DayNumber(r) == DayNumber(AdjacentFirst(d, 1)) + d.day - 1
    ensures var n := AdjacentFirst(d, 1);
      tf == Month && d.day <= DaysInMonth(n.year, n.month) ==> r == Date(n.year, n.month, d.day)
    ensures tf == Year && d.day <= DaysInMonth(d.year + 1, d.month) ==> r == Date(d.year + 1, d.month, d.day)
    ensures tf == Year && d.day > DaysInMonth(d.year + 1, d.month) ==> r == Date(d.year + 1, 3, 1)
  {
    match tf
    case Week => SetDate(d, d.day + 7)
    case Month => MonthStepAsWritten(d, 1)
    case Year => SetFullYear(d, d.year + 1)
  }

  /** `setMonth(getMonth() + k)`: `day - 1` days after the first of the adjacent month,
      which is that day of the adjacent month when the month has it. */
  function MonthStepAsWritten(d: CivilDate, k: int): (r: CivilDate)
    requires k == -1 || k == 1
    ensures DayNumber(r) == DayNumber(AdjacentFirst(d, k)) + d.day - 1
    ensures var p := AdjacentFirst(d, k);
      d.day <= DaysInMonth(p.year, p.month) ==> r == Date(p.year, p.month, d.day)
  {
    MonthAsWritten(d, k);
    SetMonth(d, d.month - 1 + k)
  }

  lemma MonthAsWritten(d: CivilDate, k: int)
    requires k == -1 || k == 1
    ensures DayNumber(SetMonth(d, d.month - 1 + k)) == DayNumber(AdjacentFirst(d, k)) + d.day - 1
    ensures var p := AdjacentFirst(d, k);
      d.day <= DaysInMonth(p.year, p.month) ==> SetMonth(d, d.month - 1 + k) == Date(p.year, p.month, d.day)
  {
    var p := AdjacentFirst(d, k);
    MonthAsWrittenCount(d, k);
    if d.day <= DaysInMonth(p.year, p.month) {
      DayOfFirst(p, SetMonth(d, d.month - 1 + k), d.day);
    }
  }

  lemma MonthAsWrittenCount(d: CivilDate, k: int)
    requires k == -1 || k == 1
    ensures DayNumber(SetMonth(d, d.month - 1 + k)) == DayNumber(AdjacentFirst(d, k)) + d.day - 1
  {
    var m0 := d.month - 1 + k;
    MakeDayAdjacent(d, k);
    SetMonthFrom(d, m0, AdjacentFirst(d, k));
  }

  /** `setMonth(m0)` lands `day - 1` days after the first of the month MakeDay picks. */
  lemma SetMonthFrom(d: CivilDate, m0: int, p: CivilDate)
    requires Date(d.year + m0 / 12, m0 % 12 + 1, 1) == p
    ensures DayNumber(SetMonth(d, m0)) == DayNumber(p) + d.day - 1
  {
    assert SetMonth(d, m0) == MakeDay(d.year, m0, d.day);
  }

  /** The month MakeDay lands in for `getMonth() + k` is the adjacent month. */
  lemma MakeDayAdjacent(d: CivilDate, k: int)
    requires k == -1 || k == 1
    ensures var m0 := d.month - 1 + k;
      Date(d.year + m0 / 12, m0 % 12 + 1, 1) == AdjacentFirst(d, k)
  {
    var m0 := d.month - 1 + k;
    if m0 < 0 {
      assert m0 / 12 == -1 && m0 % 12 == 11;
    } else if m0 >= 12 {
      assert m0 / 12 == 1 && m0 % 12 == 0;
    } else {
      assert m0 / 12 == 0 && m0 % 12 == m0;
    }
  }

  /** The date `dd - 1` days after a first of the month is day `dd` of that month when
      the month has it. */
  lemma DayOfFirst(p: CivilDate, x: CivilDate, dd: int)
    requires p.day == 1 && 1 <= dd <= DaysInMonth(p.year, p.month)
    requires DayNumber(x) == DayNumber(p) + dd - 1
    ensures x == Date(p.year, p.month, dd)
  {
    FirstOfMonth(Date(p.year, p.month, dd));
    DayNumberInjective(x, Date(p.year, p.month, dd));
  }

  /** `setMonth` keeps the day of the month, so from a day the previous month lacks the
      previous button stays in the same month: March 31 goes to March 3. */
  lemma PrevMonthAsWrittenStays(d: CivilDate)
    requires d == Date(2025, 3, 31)
    ensures PrevAsWritten(Month, d) == Date(2025, 3, 3)
  {
    assert AdjacentFirst(d, -1) == Date(2025, 2, 1);
    MarchThird(PrevAsWritten(Month, d));
  }

  /** Likewise the next button skips a month: January 31 goes to March 3. */
  lemma NextMonthAsWrittenSkips(d: CivilDate)
    requires d == Date(2025, 1, 31)
    ensures NextAsWritten(Month, d) == Date(2025, 3, 3)
  {
    assert AdjacentFirst(d, 1) == Date(2025, 2, 1);
    MarchThird(NextAsWritten(Month, d));
  }

  /** Thirty days after February 1, 2025 is March 3, 2025. */
  lemma MarchThird(d: CivilDate)
    requires DayNumber(d) == DayNumber(Date(2025, 2, 1)) + 30
    ensures d == Date(2025, 3, 3)
  {
    MonthStep(2025, 2);
    DayNumberInjective(d, Date(2025, 3, 3));
  }

  /** The first day of the calendar month before (`k == -1`) or after (`k == 1`) `d`'s. */
  function AdjacentFirst(d: CivilDate, k: int): CivilDate
    requires k == -1 || k == 1
  {
    if k == -1 then (if d.month == 1 then Date(d.year - 1, 12, 1) else Date(d.year, d.month - 1, 1))
    else if d.month == 12 then Date(d.year + 1, 1, 1) else Date(d.year, d.month + 1, 1)
  }

  /** The calendar month before or after `d`'s, as its first day: the month step
      made on the first of the month, which every month has. */
  function ShiftMonth(d: CivilDate, k: int): (r: CivilDate)
    requires k == -1 || k == 1
    ensures k == -1 ==> r == if d.month == 1 then Date(d.year - 1, 12, 1) else Date(d.year, d.month - 1, 1)
    ensures k == 1 ==> r == if d.month == 12 then Date(d.year + 1, 1, 1) else Date(d.year, d.month + 1, 1)
  {
    var first := SetDate(d, 1);
    FirstOfMonthIsSetDate(d);
    if k == -1 then
      MonthBeforeFirst(d.year, d.month);
      SetMonth(first, d.month - 2)
    else
      MonthAfterFirst(d.year, d.month);
      SetMonth(first, d.month)
  }

  lemma FirstOfMonthIsSetDate(d: CivilDate)
    ensures SetDate(d, 1) == Date(d.year, d.month, 1)
  {
    FirstOfMonth(d);
    DayNumberInjective(SetDate(d, 1), Date(d.year, d.month, 1));
  }

  lemma MonthBeforeFirst(y: int, m: int)
    requires 1 <= m <= 12
    ensures SetMonth(Date(y, m, 1), m - 2) == if m == 1 then Date(y - 1, 12, 1) else Date(y, m - 1, 1)
  {
    if m == 1 {
      DecemberBefore(y);
    }
  }

  lemma DecemberBefore(y: int)
    ensures SetMonth(Date(y, 1, 1), -1) == Date(y - 1, 12, 1)
  {
    var r := SetMonth(Date(y, 1, 1), -1);
    assert r == MakeDay(y, -1, 1);
    assert -1 / 12 == -1 && -1 % 12 == 11;
    DayNumberInjective(r, Date(y - 1, 12, 1));
  }

  lemma MonthAfterFirst(y: int, m: int)
    requires 1 <= m <= 12
    ensures SetMonth(Date(y, m, 1), m) == if m == 12 then Date(y + 1, 1, 1) else Date(y, m + 1, 1)
  {
    if m == 12 {
      JanuaryAfter(y);
    }
  }

  lemma JanuaryAfter(y: int)
    ensures SetMonth(Date(y, 12, 1), 12) == Date(y + 1, 1, 1)
  {
    var r := SetMonth(Date(y, 12, 1), 12);
    assert r == MakeDay(y, 12, 1);
    assert 12 / 12 == 1 && 12 % 12 == 0;
    DayNumberInjective(r, Date(y + 1, 1, 1));
  }

  /** The previous button: a week back, a calendar month back, a year back. */
  function Prev(tf: Timeframe, d: CivilDate): (r: CivilDate)
    ensures tf == Week ==> r == AddDays(d, -7)
    ensures tf == Month ==> r == if d.month == 1 then Date(d.year - 1, 12, 1) else Date(d.year, d.month - 1, 1)
    ensures tf == Year ==> r.year == d.year - 1
    ensures tf == Year && d.day <= DaysInMonth(d.year - 1, d.month) ==> r == Date(d.year - 1, d.month, d.day)
    ensures tf == Year && d.day > DaysInMonth(d.year - 1, d.month) ==> r == Date(d.year - 1, 3, 1)
  {
    match tf
    case Week => SetDate(d, d.day - 7)
    case Month => ShiftMonth(d, -1)
    case Year => SetFullYear(d, d.year - 1)
  }

  /** The next button: a week on, a calendar month on, a year on. */
  function Next(tf: Timeframe, d: CivilDate): (r: CivilDate)
    ensures tf == Week ==> r == AddDays(d, 7)
    ensures tf == Month ==> r == if d.month == 12 then Date(d.year + 1, 1, 1) else Date(d.year, d.month + 1, 1)
    ensures tf == Year ==> r.year == d.year + 1
    ensures tf == Year && d.day <= DaysInMonth(d.year + 1, d.month) ==> r == Date(d.year + 1, d.month, d.day)
    ensures tf == Year && d.day > DaysInMonth(d.year + 1, d.month) ==> r == Date(d.year + 1, 3, 1)
  {
    match tf
    case Week => SetDate(d, d.day + 7)
    case Month => ShiftMonth(d, 1)
    case Year => SetFullYear(d, d.year + 1)
  }

  /** The month buttons always reach the adjacent calendar month, and going back then
      forward returns to the month started from. */
  lemma MonthNavigation(d: CivilDate)
    ensures var p := Prev(Month, d);
      p.day == 1 && (p.year * 12 + p.month) == (d.year * 12 + d.month) - 1
    ensures var n := Next(Month, d);
      n.day == 1 && (n.year * 12 + n.month) == (d.year * 12 + d.month) + 1
    ensures Next(Month, Prev(Month, d)) == Date(d.year, d.month, 1)
    ensures Prev(Month, Next(Month, d)) == Date(d.year, d.month, 1)
  {
  }

  /** The two week buttons undo each other. */
  lemma WeekNavigation(d: CivilDate)
    ensures Next(Week, Prev(Week, d)) == d && Prev(Week, Next(Week, d)) == d
  {
    AddDaysAdd(d, -7, 7);
    AddDaysAdd(d, 7, -7);
    AddDaysZero(d);
  }

  lemma AddDaysZero(d: CivilDate)
    ensures AddDays(d, 0) == d
  {
    DayNumberInjective(AddDays(d, 0), d);
  }

  /** A week step moves the displayed week by exactly one week. */
  lemma WeekStepMovesWeek(d: CivilDate, k: int)
    requires k == 7 || k == -7
    ensures StartOfWeek(AddDays(d, k)) == AddDays(StartOfWeek(d), k)
  {
    MondayIndexShift(d, k);
    ModSevenWeek(MondayIndex(d), k);
    DayNumberInjective(StartOfWeek(AddDays(d, k)), AddDays(StartOfWeek(d), k));
  }

  lemma ModSevenWeek(i: int, k: int)
    requires 0 <= i < 7 && (k == 7 || k == -7)
    ensures (i + k) % 7 == i
  {
  }

  /** The year view depends only on the reference year, so going back then forward
      shows the same twelve bars. */
  lemma YearNavigation(entries: seq<Entry>, d: CivilDate)
    ensures YearBuckets(entries, Next(Year, Prev(Year, d))) == YearBuckets(entries, d)
    ensures YearBuckets(entries, Prev(Year, Next(Year, d))) == YearBuckets(entries, d)
  {
  }

  /** Picking a tab resets the reference to today (`setReferenceDate(new Date())`),
      and the week view then shows today at its Monday-based weekday. */
  lemma WeekShowsToday(entries: seq<Entry>, today: CivilDate)
    ensures WeekBuckets(entries, today)[MondayIndex(today)].date == Format(today)
  {
    WeekReachesRef(today);
  }

  /** The month view shows today at its day of the month, for the years the `Date`
      constructor keeps. */
  lemma MonthShowsToday(entries: seq<Entry>, today: CivilDate)
    requires !(0 <= today.year <= 99)
    ensures today.day <= MonthLength(today)
    ensures MonthBuckets(entries, today)[today.day - 1].date == Format(today)
  {
    MonthLengthIsDaysInMonth(today);
    MonthDayInMonth(today, today.day);
    assert today == Date(ConstructorYear(today.year), today.month, today.day);
  }

  /** The year view shows today's month at its month index. */
  lemma YearShowsToday(entries: seq<Entry>, today: CivilDate)
    ensures YearBuckets(entries, today)[today.month - 1].caption == MonthLabels[today.month - 1]
    ensures YearBuckets(entries, today)[today.month - 1].value
      == MeanEnergy(MonthEntries(entries, today.year, today.month))
  {
  }
}
