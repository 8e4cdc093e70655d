/** The main view's state rules: date cleaning and upsert-by-date on save,
    delete-by-id, the check-in streak, the per-date lookups, and the saved-theme lookup. */
module Journal {
  import opened Wrappers
  import opened Text
  import opened Calendar
  import opened DateText
  import opened Types
  import opened Seqs

  // ---- Dates as text ----------------------------------------------------------------

  /** `date.split('T')[0].split(' ')[0]`: the date with any time part cut off, i.e. the
      longest prefix containing neither `T` nor a space. */
  function CleanDate(s: string): (r: string)
    ensures |r| <= |s| && r == s[..|r|]
    ensures 'T' !in r && ' ' !in r
    ensures |r| < |s| ==> s[|r|] == 'T' || s[|r|] == ' '
  {
    CutAt(CutAt(s, 'T'), ' ')
  }

  /** Cleaning twice is cleaning once, and a printed day is already clean, so a saved
      date survives being re-normalised. */
  lemma CleanDateIdempotent(s: string, d: CivilDate)
    ensures CleanDate(CleanDate(s)) == CleanDate(s)
    ensures CleanDate(Format(d)) == Format(d)
  {
    NoCutWithout(CleanDate(s), 'T');
    NoCutWithout(CleanDate(s), ' ');
    FormatLayout(d);
    NoCutWithout(Format(d), 'T');
    NoCutWithout(Format(d), ' ');
  }

  lemma {:induction false} NoCutWithout(s: string, c: char)
    requires c !in s
    ensures CutAt(s, c) == s
  {
    if |s| > 0 {
      assert s[0] in s && s[1..] == s[1..];
      NoCutWithout(s[1..], c);
      assert s == [s[0]] + s[1..];
    }
  }

  /** Code-point lexicographic order on strings; `localeCompare` agrees with it on
      `YYYY-MM-DD` dates. */
  predicate LexLe(a: string, b: string) {
    if |a| == 0 then true
    else if |b| == 0 then false
    else if a[0] != b[0] then a[0] < b[0]
    else LexLe(a[1..], b[1..])
  }

  lemma {:induction false} LexLeTotal(a: string, b: string)
    ensures LexLe(a, b) || LexLe(b, a)
  {
    if |a| > 0 && |b| > 0 && a[0] == b[0] {
      LexLeTotal(a[1..], b[1..]);
    }
  }

  lemma {:induction false} LexLeTransitive(a: string, b: string, c: string)
    requires LexLe(a, b) && LexLe(b, c)
    ensures LexLe(a, c)
  {
    if |a| > 0 && |b| > 0 && |c| > 0 && a[0] == b[0] && b[0] == c[0] {
      LexLeTransitive(a[1..], b[1..], c[1..]);
    }
  }

  lemma {:induction false} LexLeAntisymmetric(a: string, b: string)
    requires LexLe(a, b) && LexLe(b, a)
    ensures a == b
  {
    if |a| > 0 && |b| > 0 {
      LexLeAntisymmetric(a[1..], b[1..]);
      assert a == [a[0]] + a[1..] && b == [b[0]] + b[1..];
    }
  }

  // ---- Saving -----------------------------------------------------------------------

  /** Newest date first: `sort((a, b) => b.date.localeCompare(a.date))`. */
  predicate SortedByDateDesc(s: seq<Entry>) {
    forall i, j :: 0 <= i < j < |s| ==> LexLe(s[j].date, s[i].date)
  }

  /** `x` placed in a newest-first list before the first entry that is not newer. */
  function InsertByDate(x: Entry, s: seq<Entry>): (r: seq<Entry>)
    requires SortedByDateDesc(s)
    ensures SortedByDateDesc(r)
    ensures multiset(r) == multiset(s) + multiset{x}
  {
    if |s| == 0 then [x]
    else if LexLe(s[0].date, x.date) then
      BelowHead(s, x);
      SortedCons(x, s);
      [x] + s
    else
      LexLeTotal(s[0].date, x.date);
      assert s == [s[0]] + s[1..];
      var rest := InsertByDate(x, s[1..]);
      InsertBound(x, s, rest);
      SortedCons(s[0], rest);
      [s[0]] + rest
  }

  /** Putting a date no earlier than all of a sorted list in front keeps it sorted. */
  lemma SortedCons(x: Entry, s: seq<Entry>)
    requires SortedByDateDesc(s)
    requires forall j :: 0 <= j < |s| ==> LexLe(s[j].date, x.date)
    ensures SortedByDateDesc([x] + s)
  {
    assert forall j :: 1 <= j < |s| + 1 ==> ([x] + s)[j] == s[j - 1];
  }

  /** Everything in a sorted list is no later than its head, hence than anything the
      head is no later than. */
  lemma BelowHead(s: seq<Entry>, x: Entry)
    requires SortedByDateDesc(s) && |s| > 0 && LexLe(s[0].date, x.date)
    ensures forall j :: 0 <= j < |s| ==> LexLe(s[j].date, x.date)
  {
    forall j | 0 <= j < |s| ensures LexLe(s[j].date, x.date) {
      if j > 0 {
        LexLeTransitive(s[j].date, s[0].date, x.date);
      }
    }
  }

  /** Inserting `x` behind the head of a sorted list leaves everything behind the head no
      later than it. */
  lemma InsertBound(x: Entry, s: seq<Entry>, rest: seq<Entry>)
    requires SortedByDateDesc(s) && |s| > 0 && LexLe(x.date, s[0].date)
    requires multiset(rest) == multiset(s[1..]) + multiset{x}
    ensures forall j :: 0 <= j < |rest| ==> LexLe(rest[j].date, s[0].date)
  {
    forall j | 0 <= j < |rest| ensures LexLe(rest[j].date, s[0].date) {
      assert rest[j] in multiset(rest);
      if rest[j] != x {
        assert rest[j] in multiset(s[1..]);
        var k :| 0 <= k < |s[1..]| && s[1..][k] == rest[j];
        assert s[k + 1] == rest[j];
      }
    }
  }

  /** The entries dated `d`, in list order. */
  function OnDate(s: seq<Entry>, d: string): seq<Entry> {
    if |s| == 0 then [] else (if s[0].date == d then [s[0]] else []) + OnDate(s[1..], d)
  }

  lemma OnDateCons(x: Entry, s: seq<Entry>, d: string)
    ensures OnDate([x] + s, d) == (if x.date == d then [x] else []) + OnDate(s, d)
  {
    assert ([x] + s)[1..] == s;
  }

  /** A filter that keeps all or none of day `d` keeps that day's entries in order, or
      none of them. */
  lemma {:induction false} OnDateFilter(s: seq<Entry>, keep: Entry -> bool, d: string, k: bool)
    requires forall x: Entry :: x.date == d ==> keep(x) == k
    ensures OnDate(Filter(s, keep), d) == if k then OnDate(s, d) else []
  {
    if |s| > 0 {
      OnDateFilter(s[1..], keep, d, k);
      if keep(s[0]) {
        OnDateCons(s[0], Filter(s[1..], keep), d);
      }
    }
  }

  /** Inserting `x` puts it before every entry of its own day and moves no other entry
      past one of the same day: each day's entries keep their order, with `x` first on
      its day. */
  lemma {:induction false} InsertOnDate(x: Entry, s: seq<Entry>, d: string)
    requires SortedByDateDesc(s)
    ensures OnDate(InsertByDate(x, s), d) == (if x.date == d then [x] else []) + OnDate(s, d)
  {
    if |s| == 0 {
      OnDateCons(x, [], d);
    } else if LexLe(s[0].date, x.date) {
      OnDateCons(x, s, d);
    } else {
      LexLeTotal(x.date, x.date);
      assert s[0].date != x.date;
      assert SortedByDateDesc(s[1..]);
      InsertOnDate(x, s[1..], d);
      InsertBehind(x, s[0], InsertByDate(x, s[1..]), OnDate(s[1..], d), d);
      OnDateCons(s[0], s[1..], d);
      assert s == [s[0]] + s[1..];
    }
  }

  /** Putting `h` of another day in front of an insertion result lets `x` and `h` trade
      places in the day-`d` view, since at most one of them is on day `d`. */
  lemma InsertBehind(x: Entry, h: Entry, t: seq<Entry>, rest: seq<Entry>, d: string)
    requires h.date != x.date
    requires OnDate(t, d) == (if x.date == d then [x] else []) + rest
    ensures OnDate([h] + t, d) == (if x.date == d then [x] else []) + ((if h.date == d then [h] else []) + rest)
  {
    OnDateCons(h, t, d);
  }

  /** A stable sort by date, newest first (insertion sort): entries of one day keep
      their relative order, as `Array.prototype.sort` guarantees. */
  function SortByDateDesc(s: seq<Entry>): (r: seq<Entry>)
    ensures SortedByDateDesc(r)
    ensures multiset(r) == multiset(s)
    ensures forall d :: OnDate(r, d) == OnDate(s, d)
  {
    if |s| == 0 then []
    else
      assert s == [s[0]] + s[1..];
      var t := SortByDateDesc(s[1..]);
      forall d ensures OnDate(InsertByDate(s[0], t), d) == OnDate(s, d) {
        InsertOnDate(s[0], t, d);
        OnDateCons(s[0], s[1..], d);
      }
      InsertByDate(s[0], t)
  }

  /** The main view's state: the entry list, the day being viewed, and whether the
      check-in form is open. */
  datatype AppState = AppState(entries: seq<Entry>, selectedDate: Option<string>, formOpen: bool)

  /** `handleSaveEntry`: clean the saved entry's date, drop every entry already on that
      day, put the saved entry first and sort newest first; close the form and show the
      saved day. */
  function SaveEntry(st: AppState, e: Entry): (r: AppState)
    ensures var saved := e.(date := CleanDate(e.date));
      && SortedByDateDesc(r.entries)
      && multiset(r.entries)[saved] == 1
      && (forall x :: x in r.entries && x.date == saved.date ==> x == saved)
      && (forall x :: x in st.entries && x.date != saved.date ==>
            multiset(r.entries)[x] == multiset(st.entries)[x])
      && (forall x :: x in r.entries ==> x == saved || (x in st.entries && x.date != saved.date))
      && (forall d :: OnDate(r.entries, d) == if d == saved.date then [saved] else OnDate(st.entries, d))
    ensures r.selectedDate == Some(CleanDate(e.date)) && !r.formOpen
  {
    var clean := CleanDate(e.date);
    var saved := e.(date := clean);
    var kept := Filter(st.entries, (x: Entry) => x.date != clean);
    var entries := SortByDateDesc([saved] + kept);
    assert multiset(entries) == multiset{saved} + multiset(kept);
    forall x ensures multiset(kept)[x] == if x.date != clean then multiset(st.entries)[x] else 0 {
      FilterMultiset(st.entries, (x: Entry) => x.date != clean, x);
    }
    assert forall x :: x in entries <==> x in multiset(entries);
    forall d ensures OnDate(entries, d) == if d == clean then [saved] else OnDate(st.entries, d) {
      OnDateCons(saved, kept, d);
      OnDateFilter(st.entries, (x: Entry) => x.date != clean, d, d != clean);
    }
    AppState(entries, Some(clean), false)
  }

  // ---- Deleting ---------------------------------------------------------------------

  /** What the backend answered to the delete request. */
  datatype DeleteOutcome = Deleted | DeleteFailed(message: string)

  datatype DeleteResult = DeleteResult(state: AppState, alert: Option<string>)

  const DeleteErrorPrefix: string := "Có lỗi khi xóa: "

  /** The entries left after removing those with id `id`. */
  function WithoutId(entries: seq<Entry>, id: string): (r: seq<Entry>)
    ensures forall x :: x in r <==> x in entries && x.id != id
    ensures forall x: Entry :: x.id != id ==> multiset(r)[x] == multiset(entries)[x]
    ensures SortedByDateDesc(entries) ==> SortedByDateDesc(r)
  {
    var r := Filter(entries, (x: Entry) => x.id != id);
    forall x: Entry | x.id != id ensures multiset(r)[x] == multiset(entries)[x] {
      FilterMultiset(entries, (x: Entry) => x.id != id, x);
    }
    assert SortedByDateDesc(entries) ==> SortedByDateDesc(r) by {
      if SortedByDateDesc(entries) {
        FilterSorted(entries, (x: Entry) => x.id != id);
      }
    }
    r
  }

  /** Filtering a newest-first list leaves it newest-first. */
  lemma {:induction false} FilterSorted(s: seq<Entry>, keep: Entry -> bool)
    requires SortedByDateDesc(s)
    ensures SortedByDateDesc(Filter(s, keep))
  {
    if |s| > 0 {
      assert SortedByDateDesc(s[1..]);
      FilterSorted(s[1..], keep);
      if keep(s[0]) {
        var t := Filter(s[1..], keep);
        forall j | 0 <= j < |t| ensures LexLe(t[j].date, s[0].date) {
          assert t[j] in s[1..];
          var k :| 0 <= k < |s[1..]| && s[1..][k] == t[j];
          assert s[k + 1] == t[j];
        }
        SortedCons(s[0], t);
      }
    }
  }

  /** Removing by id and picking out one day commute: each day keeps its surviving
      entries in their order. */
  lemma {:induction false} OnDateWithoutId(s: seq<Entry>, d: string, id: string)
    ensures OnDate(WithoutId(s, id), d) == WithoutId(OnDate(s, d), id)
  {
    if |s| > 0 {
      OnDateWithoutId(s[1..], d, id);
      assert s == [s[0]] + s[1..];
      WithoutIdKeepsOrder([s[0]], s[1..], id);
      WithoutIdKeepsOrder(if s[0].date == d then [s[0]] else [], OnDate(s[1..], d), id);
      OnDateCons(s[0], s[1..], d);
      if s[0].id != id {
        assert WithoutId([s[0]], id) == [s[0]];
        OnDateCons(s[0], WithoutId(s[1..], id), d);
      } else {
        assert WithoutId([s[0]], id) == [];
      }
    }
  }

  /** Removing by id keeps the survivors in their order: it distributes over
      concatenation. */
  lemma WithoutIdKeepsOrder(a: seq<Entry>, b: seq<Entry>, id: string)
    ensures WithoutId(a + b, id) == WithoutId(a, id) + WithoutId(b, id)
  {
    FilterConcat(a, b, (x: Entry) => x.id != id);
  }

  /** `handleDeleteEntry`: nothing happens unless the user confirms; a backend error is
      reported and leaves the list alone; otherwise the entries with that id go and the
      viewed day is cleared. */
  function DeleteEntry(st: AppState, id: string, confirmed: bool, outcome: DeleteOutcome): (r: DeleteResult)
    ensures !confirmed ==> r == DeleteResult(st, None)
    ensures confirmed && outcome.DeleteFailed? ==>
      r == DeleteResult(st, Some(DeleteErrorPrefix + outcome.message))
    ensures confirmed && outcome.Deleted? ==>
      && r.alert.None?
      && r.state.selectedDate.None?
      && r.state.formOpen == st.formOpen
      && (forall x :: x in r.state.entries <==> x in st.entries && x.id != id)
      && (forall x: Entry :: x.id != id ==> multiset(r.state.entries)[x] == multiset(st.entries)[x])
      && r.state.entries == WithoutId(st.entries, id)
      && (SortedByDateDesc(st.entries) ==> SortedByDateDesc(r.state.entries))
      && (forall d :: OnDate(r.state.entries, d) == WithoutId(OnDate(st.entries, d), id))
  {
    if !confirmed then DeleteResult(st, None)
    else match outcome
      case DeleteFailed(message) => DeleteResult(st, Some(DeleteErrorPrefix + message))
      case Deleted =>
        forall d ensures OnDate(WithoutId(st.entries, id), d) == WithoutId(OnDate(st.entries, d), id) {
          OnDateWithoutId(st.entries, d, id);
        }
        DeleteResult(st.(entries := WithoutId(st.entries, id), selectedDate := None), None)
  }

  // ---- Lookups ----------------------------------------------------------------------

  /** `entries.find(e => e.date === date)`: the first entry on that day. */
  function FindByDate(entries: seq<Entry>, date: string): (r: Option<Entry>)
    ensures r.None? <==> forall x :: x in entries ==> x.date != date
    ensures r.Some? ==> r.value.date == date
    ensures r.Some? ==>
      exists i :: 0 <= i < |entries| && entries[i] == r.value && (forall j :: 0 <= j < i ==> entries[j].date != date)
  {
    if |entries| == 0 then None
    else if entries[0].date == date then Some(entries[0])
    else
      var r := FindByDate(entries[1..], date);
      assert entries == [entries[0]] + entries[1..];
      if r.Some? then
        var i :| 0 <= i < |entries[1..]| && entries[1..][i] == r.value
                 && (forall j :: 0 <= j < i ==> entries[1..][j].date != date);
        assert entries[i + 1] == r.value;
        r
      else r
  }

  /** The saved theme: `THEMES.find(t => t.id === saved) || THEMES[0]`. */
  function ThemeFor(saved: Option<string>): (r: Theme)
    ensures r in Themes
    ensures saved.Some? && (exists t :: t in Themes && t.id == saved.value) ==> r.id == saved.value
    ensures !(saved.Some? && (exists t :: t in Themes && t.id == saved.value)) ==> r == Themes[0]
  {
    match saved
    case None => Themes[0]
    case Some(id) =>
      var found := FindTheme(Themes, id);
      if found.Some? then found.value else Themes[0]
  }

  function FindTheme(ts: seq<Theme>, id: string): (r: Option<Theme>)
    ensures r.Some? ==> r.value in ts && r.value.id == id
    ensures r.None? ==> forall t :: t in ts ==> t.id != id
  {
    if |ts| == 0 then None
    else if ts[0].id == id then Some(ts[0])
    else
      assert ts == [ts[0]] + ts[1..];
      FindTheme(ts[1..], id)
  }

  // ---- The check-in streak ----------------------------------------------------------

  /** The set of dates that have an entry. */
  function EntryDates(entries: seq<Entry>): (r: set<string>)
    ensures forall s :: s in r <==> exists x :: x in entries && x.date == s
  {
    set x | x in entries :: x.date
  }

  predicate Recorded(dates: set<string>, d: CivilDate) {
    Format(d) in dates
  }

  /** The streak's safety cap: the loop stops once the count exceeds 1000. */
  const StreakCap: nat := 1001

  /** Counting back from `today`, skipping today when it has no entry yet. */
  function StreakStart(dates: set<string>, today: CivilDate): (r: CivilDate)
    ensures Recorded(dates, today) ==> r == today
    ensures !Recorded(dates, today) ==> DayNumber(r) == DayNumber(today) - 1
  {
    if Recorded(dates, today) then today else SetDate(today, today.day - 1)
  }

  /** `setDate(getDate() - 1)` on the day `n` days before `start` gives the day `n + 1`
      days before it. */
  lemma PrevDay(start: CivilDate, n: int)
    ensures var d := DaysBefore(start, n);
      SetDate(d, d.day - 1) == Pred(d) == DaysBefore(start, n + 1)
  {
    var d := DaysBefore(start, n);
    DayNumberInjective(SetDate(d, d.day - 1), Pred(d));
    DayNumberInjective(Pred(d), DaysBefore(start, n + 1));
  }

  lemma DaysBeforeZero(d: CivilDate)
    ensures DaysBefore(d, 0) == d
  {
    DayNumberInjective(DaysBefore(d, 0), d);
  }

  lemma DaysBeforePred(d: CivilDate, i: int)
    ensures DaysBefore(Pred(d), i) == DaysBefore(d, i + 1)
  {
    DayNumberInjective(DaysBefore(Pred(d), i), DaysBefore(d, i + 1));
  }

  /** The number of consecutive days ending at `d`, counted backwards, on which
      `recorded` holds, cut off at `budget`: the reference definition of the streak. */
  function RunLength(recorded: CivilDate -> bool, d: CivilDate, budget: nat): (n: nat)
    ensures n <= budget
    ensures forall i :: 0 <= i < n ==> recorded(DaysBefore(d, i))
    ensures n < budget ==> !recorded(DaysBefore(d, n))
    decreases budget
  {
    if budget == 0 || !recorded(d) then
      assert DaysBefore(d, 0) == d;
      0
    else
      var n := RunLength(recorded, Pred(d), budget - 1);
      RunExtends(recorded, d, n);
      DaysBeforePred(d, n);
      n + 1
  }

  /** A recorded day followed (backwards) by a run of `n` recorded days starts a run of
      `n + 1`. */
  lemma RunExtends(recorded: CivilDate -> bool, d: CivilDate, n: nat)
    requires recorded(d)
    requires forall i :: 0 <= i < n ==> recorded(DaysBefore(Pred(d), i))
    ensures forall i :: 0 <= i < n + 1 ==> recorded(DaysBefore(d, i))
  {
    forall i | 0 <= i < n + 1 ensures recorded(DaysBefore(d, i)) {
      if i == 0 {
        assert DaysBefore(d, 0) == d;
      } else {
        DaysBeforePred(d, i - 1);
      }
    }
  }

  /** One step of the count: a recorded day adds one to the run that ends the day
      before it. */
  lemma RunLengthStep(recorded: CivilDate -> bool, d: CivilDate, budget: nat)
    requires budget > 0
    ensures RunLength(recorded, d, budget)
      == if recorded(d) then 1 + RunLength(recorded, Pred(d), budget - 1) else 0
  {
  }

  /** The days whose printed form is among `dates`. */
  function RecordedIn(dates: set<string>): CivilDate -> bool {
    (d: CivilDate) => Format(d) in dates
  }

  /** One pass of the counting loop from the day `count` days before `start`: it is
      recorded, so it adds one, and `setDate(getDate() - 1)` moves to the day before. */
  lemma CountStep(recorded: CivilDate -> bool, start: CivilDate, count: nat)
    requires count < StreakCap && recorded(DaysBefore(start, count))
    ensures var d := DaysBefore(start, count);
      && SetDate(d, d.day - 1) == DaysBefore(start, count + 1)
      && RunLength(recorded, d, StreakCap - count)
         == 1 + RunLength(recorded, DaysBefore(start, count + 1), StreakCap - count - 1)
  {
    var d := DaysBefore(start, count);
    PrevDay(start, count);
    RunLengthStep(recorded, d, StreakCap - count);
  }

  /** The streak shown in the header: 0 without entries, else the run of recorded days
      ending today (or yesterday, when today has no entry yet), capped at 1001. */
  method Streak(entries: seq<Entry>, today: CivilDate) returns (count: nat)
    ensures |entries| == 0 ==> count == 0
    ensures count <= StreakCap
    ensures |entries| > 0 ==>
      count == RunLength(RecordedIn(EntryDates(entries)), StreakStart(EntryDates(entries), today), StreakCap)
  {
    if |entries| == 0 {
      return 0;
    }
    var dates := EntryDates(entries);
    var checkDate := today;
    if Format(checkDate) !in dates {
      checkDate := SetDate(checkDate, checkDate.day - 1);
    }
    count := CountBack(dates, checkDate);
  }

  /** The loop of the streak: step back one day at a time from `start` while the day is
      recorded, stopping once the count exceeds 1000. */
  method CountBack(dates: set<string>, start: CivilDate) returns (count: nat)
    ensures count == RunLength(RecordedIn(dates), start, StreakCap)
  {
    ghost var recorded := RecordedIn(dates);
    var checkDate := start;
    count := 0;
    DaysBeforeZero(start);
    while Format(checkDate) in dates
      invariant count <= 1000
      invariant checkDate == DaysBefore(start, count)
      invariant RunLength(recorded, start, StreakCap) == count + RunLength(recorded, checkDate, StreakCap - count)
      decreases StreakCap - count
    {
      assert recorded(checkDate);
      CountStep(recorded, start, count);
      count := count + 1;
      checkDate := SetDate(checkDate, checkDate.day - 1);
      if count > 1000 {
        break;
      }
    }
    if count <= 1000 {
      RunLengthStep(recorded, checkDate, StreakCap - count);
    }
  }
}
