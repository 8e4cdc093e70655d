/** The year heatmap: the entry lookup keyed by cleaned date, the Monday-first grid of
    one calendar year (leading blank cells, then every day of the year in order), and
    the rule for clicking a cell. */
module Heatmap {
  import opened Wrappers
  import opened Text
  import opened Calendar
  import opened DateText
  import opened Types
  import opened EntryIndex
  import Journal

  /** `date.split(' ')[0].split('T')[0]`: the lookup key of an entry. */
  function HeatKey(s: string): (r: string)
    ensures |r| <= |s| && r == s[..|r|]
    ensures 'T' !in r && ' ' !in r
  {
    CutAt(CutAt(s, ' '), 'T')
  }

  /** Cutting at the space first and then at `T` gives the same key as the save path,
      which cuts in the other order. */
  lemma {:induction false} HeatKeyIsCleanDate(s: string)
    ensures HeatKey(s) == Journal.CleanDate(s)
  {
    if |s| > 0 && s[0] != ' ' && s[0] != 'T' {
      HeatKeyIsCleanDate(s[1..]);
      var a := CutAt(s[1..], ' ');
      var b := CutAt(s[1..], 'T');
      assert CutAt(s, ' ') == [s[0]] + a;
      assert CutAt(s, 'T') == [s[0]] + b;
      assert ([s[0]] + a)[1..] == a;
      assert ([s[0]] + b)[1..] == b;
    }
  }

  function EntryKey(e: Entry): string {
    HeatKey(e.date)
  }

  /** `calendarData`: each key holds the last entry, in list order, with that key. */
  function CalendarData(entries: seq<Entry>): (r: map<string, Entry>)
    ensures forall k :: k in r <==> exists x :: x in entries && HeatKey(x.date) == k
    ensures forall k :: k in r ==> r[k] in entries && HeatKey(r[k].date) == k
  {
    LastWins(entries, EntryKey)
  }

  /** Of two entries with the same key, the later one is the one looked up. */
  lemma CalendarDataLastWins(entries: seq<Entry>, i: int)
    requires 0 <= i < |entries|
    requires forall j :: i < j < |entries| ==> HeatKey(entries[j].date) != HeatKey(entries[i].date)
    ensures CalendarData(entries)[HeatKey(entries[i].date)] == entries[i]
  {
    LastWinsPicksLast(entries, EntryKey, i);
  }

  // ---- The grid ---------------------------------------------------------------------

  /** The blank cells before 1 January: its Monday-first column, 0 to 6. */
  function Pads(y: int): (p: int)
    ensures 0 <= p < 7
    ensures p == MondayIndex(NewDate(y, 0, 1))
    ensures p == DayNumber(NewDate(y, 0, 1)) % 7
  {
    (Weekday(NewDate(y, 0, 1)) + 6) % 7
  }

  /** How many day cells follow the blanks. `new Date(y, 0, 1 + i)` reads the years 0 to
      99 as 1900 to 1999, so for those the very first date fails the year check. */
  function GridDayCount(y: int): (n: nat)
    ensures n <= 366
  {
    if 0 <= y <= 99 then 0 else YearLength(y)
  }

  /** `new Date(y, 0, 1 + k)` is `k` days after `new Date(y, 0, 1)`. */
  lemma NewDateJanShift(y: int, k: int)
    ensures NewDate(y, 0, 1 + k) == AddDays(NewDate(y, 0, 1), k)
  {
    DayNumberInjective(NewDate(y, 0, 1 + k), AddDays(NewDate(y, 0, 1), k));
  }

  /** Outside the years 0 to 99, `new Date(y, 0, 1)` is 1 January of `y`. */
  lemma NewDateJanFirst(y: int)
    requires !(0 <= y <= 99)
    ensures NewDate(y, 0, 1) == Date(y, 1, 1)
    ensures DayNumber(Date(y, 1, 1)) == DaysBeforeYear(y)
  {
    MakeDayInRange(y, 0, 1);
  }

  /** The loop's year check passes exactly for the first `GridDayCount(y)` steps. */
  lemma InYearUntil(y: int, k: int)
    requires 0 <= k <= GridDayCount(y)
    ensures AddDays(NewDate(y, 0, 1), k).year == y <==> k < GridDayCount(y)
  {
    if 0 <= y <= 99 {
      assert AddDays(NewDate(y, 0, 1), 0) == NewDate(y, 0, 1) by {
        DayNumberInjective(AddDays(NewDate(y, 0, 1), 0), NewDate(y, 0, 1));
      }
    } else {
      NewDateJanFirst(y);
      YearOfDayNumber(AddDays(NewDate(y, 0, 1), k), y);
    }
  }

  /** `n` blank cells. */
  function Blanks(n: nat): (r: seq<Option<string>>)
    ensures |r| == n && forall k :: 0 <= k < n ==> r[k] == None
  {
    seq(n, _ => None)
  }

  /** The `n` consecutive days starting at `start`. */
  function DaysFrom(start: CivilDate, n: nat): (r: seq<CivilDate>)
    ensures |r| == n
    ensures forall k :: 0 <= k < n ==> DayNumber(r[k]) == DayNumber(start) + k
  {
    if n == 0 then []
    else
      var init := DaysFrom(start, n - 1);
      var r := init + [FromDayNumber(DayNumber(start) + n - 1)];
      assert forall k :: 0 <= k < n - 1 ==> r[k] == init[k];
      r
  }

  /** The days the grid shows for year `y`, in order. */
  function YearDays(y: int): (r: seq<CivilDate>)
    ensures |r| == GridDayCount(y)
  {
    DaysFrom(NewDate(y, 0, 1), GridDayCount(y))
  }

  /** Days as filled-in cells, each printed with `toLocalDateString`: cell `k` is day
      `ds[k]`, printed. */
  function Labels(ds: seq<CivilDate>): (r: seq<Option<string>>)
    ensures |r| == |ds|
    ensures forall k :: 0 <= k < |ds| ==> r[k] == Some(Format(ds[k]))
  {
    if |ds| == 0 then []
    else
      var front := ds[..|ds| - 1];
      assert ds == front + [ds[|ds| - 1]];
      LabelsSnoc(front, ds[|ds| - 1], Labels(front));
      Labels(front) + [Some(Format(ds[|ds| - 1]))]
  }

  /** Appending a day and its printed cell keeps cell `k` the printed day `k`. */
  lemma LabelsSnoc(front: seq<CivilDate>, last: CivilDate, cells: seq<Option<string>>)
    requires |cells| == |front|
    requires forall k :: 0 <= k < |front| ==> cells[k] == Some(Format(front[k]))
    ensures forall k :: 0 <= k < |front| + 1 ==>
      (cells + [Some(Format(last))])[k] == Some(Format((front + [last])[k]))
  {
  }

  /** Step `i` of the day loop: the date it builds passes the year check exactly when
      `i` is still inside the year, and then it is the `i`-th day of the grid. */
  lemma GridStep(y: int, i: int)
    requires 0 <= i <= GridDayCount(y)
    ensures NewDate(y, 0, 1 + i).year == y <==> i < GridDayCount(y)
    ensures i < GridDayCount(y) ==> YearDays(y)[i] == NewDate(y, 0, 1 + i)
  {
    NewDateJanShift(y, i);
    InYearUntil(y, i);
    if i < GridDayCount(y) {
      DayNumberInjective(YearDays(y)[i], NewDate(y, 0, 1 + i));
    }
  }

  lemma GridAppend(all: seq<CivilDate>, i: nat, prefix: seq<Option<string>>, days: seq<Option<string>>, d: CivilDate)
    requires i < |all| && all[i] == d
    requires days == prefix + Labels(all[..i])
    ensures days + [Some(Format(d))] == prefix + Labels(all[..i + 1])
  {
    assert all[..i + 1][..i] == all[..i];
  }

  /** The first loop of `daysInYear`: `n` blank cells. */
  method PushBlanks(n: nat) returns (days: seq<Option<string>>)
    ensures days == Blanks(n)
  {
    days := [];
    var i := 0;
    while i < n
      invariant 0 <= i <= n
      invariant days == Blanks(i)
    {
      assert Blanks(i) + [None] == Blanks(i + 1);
      days := days + [None];
      i := i + 1;
    }
  }

  /** The second loop of `daysInYear`: `new Date(y, 0, 1 + i)` for `i` from 0 until
      the year changes (at most 366 steps), each appended printed. */
  method PushYearDays(y: int, prefix: seq<Option<string>>) returns (days: seq<Option<string>>)
    ensures days == prefix + Labels(YearDays(y))
  {
    ghost var all := YearDays(y);
    days := prefix;
    var i := 0;
    while i < 366
      invariant 0 <= i <= GridDayCount(y)
      invariant days == prefix + Labels(all[..i])
    {
      var d := NewDate(y, 0, 1 + i);
      GridStep(y, i);
      if d.year != y {
        break;
      }
      GridAppend(all, i, prefix, days, d);
      days := days + [Some(Format(d))];
      i := i + 1;
    }
    assert all[..i] == all;
  }

  /** `daysInYear`: `Pads(y)` blanks, then the year's days, printed, in order. */
  method YearGrid(y: int) returns (days: seq<Option<string>>)
    ensures |days| == Pads(y) + GridDayCount(y) && |days| <= 372
    ensures days == Blanks(Pads(y)) + Labels(YearDays(y))
  {
    var startOfYear := NewDate(y, 0, 1);
    var startDayOfWeek := (Weekday(startOfYear) + 6) % 7;
    days := PushBlanks(startDayOfWeek);
    days := PushYearDays(y, days);
  }

  /** Cell `j` of `pads` blanks followed by the printed days `ds`: with `YearGrid`'s
      postcondition and that of `Labels`, cell `j` of the grid is a blank before `Pads(y)`
      and from there on the `(j - Pads(y))`-th day of the year, printed. */
  lemma CellAt(pads: nat, ds: seq<CivilDate>, j: nat)
    requires j < pads + |ds|
    ensures (Blanks(pads) + Labels(ds))[j] == if j < pads then None else Labels(ds)[j - pads]
  {
  }

  /** Every day cell lies in the year. */
  lemma GridDayInYear(y: int, k: int)
    requires 0 <= k < GridDayCount(y)
    ensures YearDays(y)[k].year == y
  {
    NewDateJanFirst(y);
    YearOfDayNumber(YearDays(y)[k], y);
  }

  /** Cell `Pads(y) + k` sits in the Monday-first column of its own weekday, which is
      what the seven-row, column-major grid layout relies on. */
  lemma GridColumn(y: int, k: int)
    requires 0 <= k < GridDayCount(y)
    ensures (Pads(y) + k) % 7 == MondayIndex(YearDays(y)[k])
  {
    ModSevenStep(Pads(y), DayNumber(NewDate(y, 0, 1)), DayNumber(YearDays(y)[k]), k);
  }

  /** Every day of the year has a cell: day `d` is day `DayNumber(d) - DayNumber(1 Jan)`
      of the grid. */
  lemma GridCoversYear(d: CivilDate) returns (k: int)
    requires !(0 <= d.year <= 99)
    ensures k == DayNumber(d) - DayNumber(NewDate(d.year, 0, 1))
    ensures 0 <= k < GridDayCount(d.year) && YearDays(d.year)[k] == d
  {
    NewDateJanFirst(d.year);
    YearOfDayNumber(d, d.year);
    k := DayNumber(d) - DayNumber(NewDate(d.year, 0, 1));
    var x := YearDays(d.year)[k];
    assert DayNumber(x) == DayNumber(d);
    DayNumberInjective(x, d);
  }

  /** 1 January 2025 was a Wednesday, so the 2025 grid starts with two blanks. */
  lemma Grid2025()
    ensures Pads(2025) == 2 && GridDayCount(2025) == 365
  {
    NewDateJanFirst(2025);
    assert DaysBeforeYear(2025) == 739251;
    assert Weekday(Date(2025, 1, 1)) == 3;
  }

  /** `onClick={() => entry && onSelectDay(day)}`: a day is selected only when it has
      an entry. */
  function ClickCell(data: map<string, Entry>, day: string): (r: Option<string>)
    ensures r.Some? <==> day in data
    ensures r.Some? ==> r.value == day
  {
    if day in data then Some(day) else None
  }
}
