# vibeTracking core in Dafny

vibeTracking is a journaling app: one entry per day with an energy level from 1 to 5,
some text, an optional photo and an AI-written "insight". This project models the
deterministic rules inside its components as pure Dafny functions over immutable
datatypes, and proves what those rules promise.

- **Days** (`Calendar`, `DateText`): a day is a proleptic-Gregorian civil date
  `Date(year, month, day)`. `DayNumber` counts days from 0001-01-01 and is a bijection,
  and `Weekday` is derived from it. The JavaScript `Date` operations the app uses are
  written out explicitly: `new Date(y, m, d)` with its overflow normalisation and its
  rule that years 0 to 99 mean 1900 to 1999, plus `setDate`, `setMonth` and
  `setFullYear`. `Format` is the `YYYY-MM-DD` text the app builds: the year as
  `String` prints it, without padding, then the month and the day padded to two digits.
  `ParseIso` reads that text back.
- **The journal** (`Journal`): saving an entry, deleting one, looking a day up, choosing
  the theme, and the check-in streak.
- **The heatmap** (`Heatmap`, `EntryIndex`): the Monday-first grid of the current year
  and the date-keyed entry map in which the last entry wins.
- **The trend chart** (`Trends`, `Stats`):
  - week, month and year bars;
  - the positive-only average;
  - the previous/next navigation.
- **The insight display** (`Insight`): `**` removal, the split at the `Lời nhắn:` marker,
  removal of the `Xu hướng:` label, and the display fallbacks.
- **The check-in form** (`Daily`): the photo size clamp and what "save" sends.
- **The insight service** (`InsightService`): the history lines in the prompt, and how
  the relay's outcome becomes the stored text.
- **The relay** (`Relay`): the check order and status of the serverless handler.
- **The statistics card** (`Dashboard`): the mean energy printed with one decimal, and
  the bar's width.
- **Shared vocabulary** (`Types`): the energy levels, their display table and the themes.

Averages and image sizes are exact `real`s. Strings are sequences of Unicode code
points.

## Model

| member | source | states |
|---|---|---|
| Types.LevelOf | types.ts:2-8 | A number names a level exactly when it is 1 to 5, and then that level has that value |
| Types.LevelValuesRoundTrip | types.ts:2-8 | The enum's values and the levels correspond one to one |
| Types.Meta | types.ts:20-26 | Every level has a display entry, whose colour is `#` followed by six lower-case hex digits and whose background is a light `bg-<hue>-100` class |
| Types.MetaDistinct | types.ts:20-26 | The display table is total over the levels, and no two levels share a colour or a label |
| Types.ThemesWellFormed | types.ts:36-42 | There are five themes with pairwise distinct ids, so the default `THEMES[0]` exists |
| Calendar.YearLength | components/EnergyHeatmap.tsx:45-47 | A year has 365 days, or 366 exactly in a Gregorian leap year |
| Calendar.DaysInMonth | components/EnergyTrends.tsx:76 | A month has 28 to 31 days; February has 29 exactly in a leap year |
| Calendar.Succ | components/EnergyHeatmap.tsx:46 | The next calendar day is one day number later |
| Calendar.Pred | App.tsx:114 | The previous calendar day is one day number earlier |
| Calendar.AddDays | App.tsx:109 | Moving by `k` days moves the day number by exactly `k` |
| Calendar.DayNumberInjective | App.tsx:105-116 | Different days have different day numbers |
| Calendar.DayNumberBijection | App.tsx:105-116 | Days and day numbers correspond one to one |
| Calendar.AddDaysAdd | components/EnergyTrends.tsx:31-39 | Moving by `a` days and then by `b` days is moving by `a + b` |
| Calendar.Weekday | components/EnergyTrends.tsx:20 | `getDay` is in 0..6 with Sunday 0, and it advances by one each day |
| Calendar.MondayIndex | components/EnergyHeatmap.tsx:35 | `(getDay() + 6) % 7` is in 0..6, and it is 6 exactly on Sundays |
| Calendar.MondayIndexShift | components/EnergyHeatmap.tsx:35 | Moving `k` days moves the Monday-based index by `k` modulo 7 |
| Calendar.YearOfDayNumber | components/EnergyHeatmap.tsx:47 | A day lies in year `y` exactly when its number falls inside that year's span |
| Calendar.MakeDay | components/EnergyTrends.tsx:81 | `new Date(y, m, d)` is `d - 1` days after the first of month `m`, where a month index outside 0..11 carries into the year, so a day outside the month spills into the neighbouring months |
| Calendar.MakeDayInRange | components/EnergyTrends.tsx:81 | For a day within its month, `new Date(y, m, d)` is exactly that day |
| Calendar.MakeDayShift | components/EnergyTrends.tsx:62 | Adding `k` to the day field is moving `k` days |
| Calendar.NewDate | components/EnergyHeatmap.tsx:46 | The `Date` constructor normalises the fields and reads years 0 to 99 as 1900 to 1999 |
| Calendar.SetDate | App.tsx:109 | `setDate(n)` moves to day `n` of the same month, counted on from its first day even when `n` is outside the month |
| Calendar.SetMonth | components/EnergyTrends.tsx:32 | `setMonth` keeps the day of the month; when that day exists in the target month, the result is that day |
| Calendar.SetFullYear | components/EnergyTrends.tsx:33 | `setFullYear` lands in the target year; February 29 rolls over to March 1 in a common year |
| Calendar.LeapDayOverflow | components/EnergyTrends.tsx:41 | A day the target year's month lacks (only February 29) becomes March 1 |
| Text.Trim | api/gemini.ts:10 | `trim` strips exactly the leading and trailing white space and keeps the middle |
| Text.TrimIdempotent | components/ViewEntryModal.tsx:36 | Trimming a trimmed text changes nothing |
| Text.CutAt | App.tsx:76 | `split(c)[0]` is the longest prefix without `c` |
| Text.Take | services/geminiService.ts:19 | `substring(0, n)` is the prefix of length at most `n` |
| Text.PadStart | App.tsx:13 | `padStart` fills on the left up to the width and keeps the text as its suffix |
| Text.IntToString | App.tsx:15 | An integer's decimal text is non-empty and starts with `-` exactly for negatives |
| Text.IntToStringInjective | App.tsx:15 | Different years print differently |
| Text.ParseNatToString | components/AnalyticsDashboard.tsx:43 | Reading the digits a number prints gives that number back |
| Seqs.Filter | App.tsx:80 | `filter` keeps exactly the matching elements, in order, without adding any |
| Seqs.FilterConcat | App.tsx:94 | Filtering a concatenation filters each part, so relative order is kept |
| Seqs.FilterMultiset | App.tsx:94 | A kept value occurs as often as before, and a dropped one not at all |
| DateText.TwoDigits | App.tsx:13-14 | Month and day print as exactly two digits whose value is the number |
| DateText.TwoDigitsIsPadded | App.tsx:13-14 | Those two digits are `String(n).padStart(2, '0')` |
| DateText.FormatLayout | App.tsx:11-16 | `Format`'s day text is the unpadded year, `-`, two month digits, `-`, two day digits; ten characters for a four-digit year, and never a `T` or a space |
| DateText.FourDigitYear | App.tsx:12 | A four-digit year makes the day text ten characters long |
| DateText.FormatInjective | App.tsx:11-16 | Different days print differently |
| DateText.ParseIso | components/EnergyTrends.tsx:99 | Only a `YYYY-MM-DD` text of a real calendar day reads as a day |
| DateText.ParseIsoFields | components/EnergyTrends.tsx:99 | A text that parses is four year digits, two month digits and two day digits, and the day has those values |
| DateText.ParseFormat | components/EnergyTrends.tsx:99 | Reading back a printed day with a four-digit year gives the same day |
| DateText.FormatParse | components/EnergyTrends.tsx:99 | Printing a parsed day gives the text back, when its year has no leading zero |
| Journal.CleanDate | App.tsx:76 | The saved date is the input cut at the first `T` or space: a prefix with neither character |
| Journal.CleanDateIdempotent | App.tsx:76 | Cleaning twice is cleaning once, and a printed day is already clean |
| Journal.LexLeTotal | App.tsx:81 | Any two dates compare one way or the other |
| Journal.LexLeTransitive | App.tsx:81 | The date order is transitive |
| Journal.LexLeAntisymmetric | App.tsx:81 | Dates that compare both ways are equal |
| Journal.InsertByDate | App.tsx:81 | Inserting into a newest-first list keeps it newest-first and adds exactly that entry |
| Journal.SortByDateDesc | App.tsx:81 | The sort yields a newest-first permutation of its input, and it is stable: the entries of each day keep their relative order |
| Journal.InsertOnDate | App.tsx:81 | An inserted entry goes before the other entries of its day, and no other day's entries change order |
| Journal.SaveEntry | App.tsx:75-86 | After a save the list is newest-first. The cleaned entry is in it once and is the only entry for its day. Every entry of another day is kept, nothing else is added, the day is selected and the form closes. The entries of each other day are still in their old relative order, and the saved entry is the whole of its own day |
| Journal.WithoutId | App.tsx:94 | Exactly the entries with another id remain, each as often as before, and a newest-first list stays newest-first |
| Journal.OnDateWithoutId | App.tsx:94 | Removing an id and then picking out one day gives that day's entries less the id, in their old order |
| Journal.WithoutIdKeepsOrder | App.tsx:94 | Removal by id keeps the remaining entries in their order |
| Journal.DeleteEntry | App.tsx:88-98 | Nothing changes without confirmation. A failed delete leaves the list as it was and alerts with the message. A successful one removes exactly that id and clears the selection. The survivors are `WithoutId` of the old list, so they keep their order: a newest-first list stays newest-first, and each day's entries are that day's old entries less the deleted id, in the same order |
| Journal.FindByDate | App.tsx:126-129 | `find` gives the first entry with that date, and nothing exactly when no entry has it |
| Journal.ThemeFor | App.tsx:27-30 | The saved theme when its id is known, the first theme otherwise; always one of the themes |
| Journal.FindTheme | App.tsx:29 | `find` gives a theme with that id, and nothing exactly when none has it |
| Journal.EntryDates | App.tsx:103 | The set holds exactly the entries' dates |
| Journal.StreakStart | App.tsx:105-110 | Counting starts today when today is recorded, and yesterday otherwise |
| Journal.RunLength | App.tsx:112-116 | The count is a run of recorded consecutive days going back, ended by the first unrecorded day or by the cap |
| Journal.RunLengthStep | App.tsx:112-116 | A recorded day adds one to the run from the day before, and an unrecorded day ends it |
| Journal.PrevDay | App.tsx:114 | `setDate(getDate() - 1)` is the previous calendar day, even across month and year starts |
| Journal.CountStep | App.tsx:112-115 | One loop pass counts the current day and steps back one day |
| Journal.CountBack | App.tsx:112-116 | The loop counts exactly the run of recorded days from the start, stopping at 1001 |
| Journal.Streak | App.tsx:100-119 | The streak is 0 without entries, at most 1001, and otherwise the run ending today, or yesterday when today has no entry |
| EntryIndex.LastWins | components/EnergyTrends.tsx:46-47 | The map has a slot for exactly the keys of the entries, each holding an entry with that key |
| EntryIndex.LastWinsPicksLast | components/EnergyTrends.tsx:46-47 | A key's slot holds the last entry in list order with that key |
| Heatmap.HeatKey | components/EnergyHeatmap.tsx:26 | The key is a prefix of the date with no space and no `T` |
| Heatmap.HeatKeyIsCleanDate | components/EnergyHeatmap.tsx:26 | Cutting at a space and then at `T` gives the same key as the save step's cut at `T` and then at a space |
| Heatmap.CalendarData | components/EnergyHeatmap.tsx:22-30 | The map's keys are exactly the entries' keys, and each slot holds an entry with that key |
| Heatmap.CalendarDataLastWins | components/EnergyHeatmap.tsx:24-28 | When entries share a key, the later one is shown |
| Heatmap.Pads | components/EnergyHeatmap.tsx:35 | The leading blanks number 0 to 6: the Monday-based index of January 1, which is its day number (counted from a Monday) modulo 7 |
| Heatmap.GridDayCount | components/EnergyHeatmap.tsx:45-49 | The grid shows at most 366 days |
| Heatmap.NewDateJanFirst | components/EnergyHeatmap.tsx:33 | For years outside 0..99, `new Date(y, 0, 1)` is January 1 of `y` |
| Heatmap.NewDateJanShift | components/EnergyHeatmap.tsx:46 | `new Date(y, 0, 1 + k)` is `k` days after `new Date(y, 0, 1)` |
| Heatmap.InYearUntil | components/EnergyHeatmap.tsx:46-47 | The `k`-th day from January 1 is still in the year exactly while `k` is below the day count |
| Heatmap.GridStep | components/EnergyHeatmap.tsx:46-48 | The loop's `i`-th date is in the year exactly until the count is reached, and then it is the `i`-th grid day |
| Heatmap.DaysFrom | components/EnergyHeatmap.tsx:45-49 | The days listed are consecutive and increasing |
| Heatmap.YearDays | components/EnergyHeatmap.tsx:45-49 | The grid lists as many days as its day count |
| Heatmap.Labels | components/EnergyHeatmap.tsx:48 | One cell per day, and each day cell holds that day's `YYYY-MM-DD` text |
| Heatmap.PushBlanks | components/EnergyHeatmap.tsx:40-42 | The first loop pushes exactly the requested number of blanks |
| Heatmap.PushYearDays | components/EnergyHeatmap.tsx:45-49 | The second loop appends the label of every day of the year, in order, and stops at the year's end |
| Heatmap.YearGrid | components/EnergyHeatmap.tsx:32-51 | The grid is the blanks followed by the day labels; it has blanks plus days cells, at most 372 |
| Heatmap.GridDayInYear | components/EnergyHeatmap.tsx:45-49 | Every listed day belongs to the year |
| Heatmap.GridColumn | components/EnergyHeatmap.tsx:95-96 | Day `k` sits at position blanks + `k`, and that position modulo 7 is its Monday-based weekday, so it lands in its weekday's row |
| Heatmap.GridCoversYear | components/EnergyHeatmap.tsx:45-49 | Every day of the year is listed, at its offset from January 1 |
| Heatmap.Grid2025 | components/EnergyHeatmap.tsx:33-49 | 2025 begins on a Wednesday, so two blanks, and has 365 days |
| Heatmap.ClickCell | components/EnergyHeatmap.tsx:106 | A click selects the day exactly when it has an entry |
| Trends.StartOfWeek | components/EnergyTrends.tsx:18-23 | The week starts on the Monday on or before the day |
| Trends.StartOfWeekShift | components/EnergyTrends.tsx:19-22 | The `setDate` arithmetic of `getStartOfWeek`, Sunday case included, moves back to that Monday |
| Trends.StartOfWeekUnique | components/EnergyTrends.tsx:18-23 | The week start is the only Monday 0 to 6 days back; a Sunday goes back 6 days |
| Trends.StartOfWeekIdempotent | components/EnergyTrends.tsx:18-23 | A Monday is its own week start |
| Trends.EntryMap | components/EnergyTrends.tsx:46-47 | The map's keys are exactly the entries' dates, and each key holds an entry with that date |
| Trends.DayBucket | components/EnergyTrends.tsx:63-70 | A day's bar holds its entry's energy and colour, or 0 and the idle colour when it has no entry |
| Trends.DayBucketOfEntries | components/EnergyTrends.tsx:46-70 | A day's bar is non-empty exactly when some entry has that date, and it shows the last such entry |
| Trends.DayBars | components/EnergyTrends.tsx:60-72 | One bar per caption, for consecutive days |
| Trends.WeekDay | components/EnergyTrends.tsx:61-62 | The `i`-th day of the week is `i` days after its start |
| Trends.WeekBuckets | components/EnergyTrends.tsx:52-72 | The week view has 7 bars, labelled T2 to CN, for the seven days from the week's Monday |
| Trends.WeekDays | components/EnergyTrends.tsx:60-62 | The week's bars are Monday to Sunday, and the reference day is among them |
| Trends.MonthLength | components/EnergyTrends.tsx:76 | Day 0 of the next month gives a length of 28 to 31 |
| Trends.MonthLengthIsDaysInMonth | components/EnergyTrends.tsx:76 | That length is the calendar length of the reference month |
| Trends.LastDayOfMonth | components/EnergyTrends.tsx:76 | Day 0 of the next month is the last day of the month |
| Trends.MonthDayInMonth | components/EnergyTrends.tsx:80-82 | Bar `i` of the month view is day `i` of the reference month itself |
| Trends.DayCaptions | components/EnergyTrends.tsx:86 | The month bars are captioned 1 to n |
| Trends.MonthBuckets | components/EnergyTrends.tsx:73-91 | The month view has one bar per day of the month |
| Trends.MonthEntries | components/EnergyTrends.tsx:98-101 | The filter keeps exactly the entries dated in that month and year |
| Trends.MonthEntriesExact | components/EnergyTrends.tsx:98-101 | That filter keeps each entry of the month exactly as often as it occurs |
| Trends.MonthBucket | components/EnergyTrends.tsx:97-113 | A month's bar is the mean energy of its entries, and 0 exactly when it has none. It is in [1, 5] otherwise, and gets the brand colour exactly when positive |
| Trends.YearBuckets | components/EnergyTrends.tsx:92-113 | The year view has 12 bars, one per month of the reference year |
| Trends.Buckets | components/EnergyTrends.tsx:52-113 | The week view has 7 bars, the month view one per day of the month, the year view 12; every bar is empty or holds a value in [1, 5] |
| Trends.Average | components/EnergyTrends.tsx:116-119 | The average is 0 when no bar is positive; otherwise it times the number of positive bars is their sum, so empty bars do not pull it down |
| Trends.AverageRange | components/EnergyTrends.tsx:116-119 | The average is in [1, 5] when some bar is positive, and 0 when none is |
| Trends.ChartAverageRange | components/EnergyTrends.tsx:116-119 | Each view's average is in [1, 5] when it shows data, and 0 when it shows none |
| Trends.PrevMonthAsWrittenStays | components/EnergyTrends.tsx:32 | From March 31, "previous month" as written lands on March 3 |
| Trends.NextMonthAsWrittenSkips | components/EnergyTrends.tsx:40 | From January 31, "next month" as written lands on March 3 |
| Trends.MonthBeforeFirst | components/EnergyTrends.tsx:32 | From a first of the month, `setMonth(getMonth() - 1)` is the first of the previous month, across the year start too |
| Trends.MonthAfterFirst | components/EnergyTrends.tsx:40 | From a first of the month, `setMonth(getMonth() + 1)` is the first of the next month, across the year end too |
| Trends.ShiftMonth | components/EnergyTrends.tsx:32 | Moving one month from a day gives the first of the previous or next calendar month |
| Trends.Prev | components/EnergyTrends.tsx:29-35 | "Previous" moves a week back by 7 days, and a year back to the same month and day (February 29 becomes March 1 in a common year). Its month step is the corrected one, to the first of the previous calendar month |
| Trends.Next | components/EnergyTrends.tsx:37-43 | "Next" moves a week on by 7 days, and a year on to the same month and day (February 29 becomes March 1 in a common year). Its month step is the corrected one, to the first of the next calendar month |
| Trends.PrevAsWritten | components/EnergyTrends.tsx:29-35 | The previous button as written: the same week and year steps, and a month step that lands `day - 1` days after the first of the previous month, which is that day of the previous month only when that month has it |
| Trends.NextAsWritten | components/EnergyTrends.tsx:37-43 | The next button as written: the same week and year steps, and a month step that lands `day - 1` days after the first of the next month, which is that day of the next month only when that month has it |
| Trends.MonthStepAsWritten | components/EnergyTrends.tsx:32-40 | `setMonth(getMonth() ± 1)` lands `day - 1` days after the first of the adjacent month, and on that day of it when the month has the day |
| Trends.MonthAsWritten | components/EnergyTrends.tsx:32-40 | The same two facts, stated about `setMonth` itself |
| Trends.MonthNavigation | components/EnergyTrends.tsx:29-43 | Month navigation moves exactly one calendar month, and previous then next returns to the month's first day |
| Trends.WeekNavigation | components/EnergyTrends.tsx:31-39 | Previous then next week, or next then previous, returns to the same day |
| Trends.WeekStepMovesWeek | components/EnergyTrends.tsx:31-39 | A 7-day step moves the shown week by exactly one week |
| Trends.YearNavigation | components/EnergyTrends.tsx:33-41 | Previous then next year, or next then previous, shows the same year bars |
| Trends.WeekShowsToday | components/EnergyTrends.tsx:168 | After a tab switch, the week view contains today, in its weekday's bar |
| Trends.MonthShowsToday | components/EnergyTrends.tsx:168 | After a tab switch, the month view contains today, in bar `day - 1` |
| Trends.YearShowsToday | components/EnergyTrends.tsx:168 | After a tab switch, the year view's bar for this month is this month's mean |
| Stats.EnergySum | components/AnalyticsDashboard.tsx:13 | The energy total of `n` entries lies between `n` and `5n` |
| Stats.MeanEnergy | components/AnalyticsDashboard.tsx:12-14 | The mean is 0 without entries. Otherwise it is in [1, 5], and times the count it gives the total |
| Stats.Positives | components/EnergyTrends.tsx:116 | Exactly the positive values are kept |
| Stats.PositiveMean | components/EnergyTrends.tsx:116-119 | The mean over the positive values, or 0 when there are none |
| Stats.NoPositives | components/EnergyTrends.tsx:117 | There are no positives exactly when no value is positive |
| Stats.SumBounds | components/EnergyTrends.tsx:118 | A sum of `n` values in [lo, hi] lies in [lo·n, hi·n] |
| Stats.PositiveMeanRange | components/EnergyTrends.tsx:116-119 | Over bar values, the positive-only mean is in [1, 5] when any is positive, and 0 otherwise |
| Dashboard.Tenths | components/AnalyticsDashboard.tsx:13 | `toFixed(1)` picks the nearest tenth, the upper one on a tie |
| Dashboard.FixedOne | components/AnalyticsDashboard.tsx:13 | The printed value is digits, a point, and one digit |
| Dashboard.ParseFixedOne | components/AnalyticsDashboard.tsx:43 | Only a text of the printed shape (digits, a point, one digit) reads as a number here, and such a text without a superfluous leading zero is exactly what `toFixed(1)` prints for the value read |
| Dashboard.ParseFixedOneRoundTrip | components/AnalyticsDashboard.tsx:43 | `Number` of a printed value gives back the printed tenths |
| Dashboard.AverageText | components/AnalyticsDashboard.tsx:12-14 | "0.0" without entries; otherwise the mean energy rounded to one decimal, between 1.0 and 5.0 |
| Dashboard.AverageTenths | components/AnalyticsDashboard.tsx:43 | The printed mean reads back as 0 exactly without entries, and as 1.0 to 5.0 otherwise |
| Dashboard.BarWidth | components/AnalyticsDashboard.tsx:43 | The bar's width is within [0, 100] percent: 0 exactly without entries, and at least 20 otherwise |
| Dashboard.FullBarNeedsHighMean | components/AnalyticsDashboard.tsx:43 | A full bar needs entries whose mean energy is at least 4.95 |
| Insight.RemoveStars | components/ViewEntryModal.tsx:28 | The cleaned text has no `**` and keeps every other character in order |
| Insight.RemoveStarsIdentity | components/ViewEntryModal.tsx:28 | A text without `**` is left unchanged |
| Insight.SliceNoDoubleStar | components/ViewEntryModal.tsx:33 | A piece of a text without `**` has none either |
| Insight.MarkerLength | components/ViewEntryModal.tsx:29 | A marker starts with its word and ends at a colon after it, and a longer text keeps the same marker |
| Insight.FindTag | components/ViewEntryModal.tsx:29-30 | The search finds the first marker at or after a position, or reports that there is none |
| Insight.RemoveFirstTag | components/ViewEntryModal.tsx:35 | Only the first label is removed; a text without one is unchanged |
| Insight.SplitInsightAsWritten | components/ViewEntryModal.tsx:26-38 | Both parts are trimmed and the note has no `**`. A missing insight gives two empty parts. Without a marker the whole cleaned text is the trend |
| Insight.MarkerSplit | components/ViewEntryModal.tsx:33-36 | With a marker, the trend is the text before the first marker less its first label. The note is what lies between the first marker and the next one, or the end |
| Insight.TrendAsWrittenJoinsStars | components/ViewEntryModal.tsx:35 | Removing the label can join two single stars into a displayed `**` |
| Insight.SplitInsight | components/ViewEntryModal.tsx:26-38 | The corrected split: both parts trimmed and free of `**`, the same note, and the same result without a marker |
| Insight.SplitInsightAgrees | components/ViewEntryModal.tsx:35 | Where the written trend shows no `**`, the corrected split is identical |
| Insight.NoteHasNoMarker | components/ViewEntryModal.tsx:33 | The note contains no further marker: text after a second marker is dropped |
| Insight.TrendDisplay | components/ViewEntryModal.tsx:156 | An empty trend shows the raw insight instead |
| Insight.NoteDisplay | components/ViewEntryModal.tsx:161 | The note tab is never blank: an empty note shows the fixed placeholder |
| Daily.Clamp | components/DailyModal.tsx:39-53 | Both sides end up at most 1000, with the aspect ratio kept. A size that fits is unchanged, the longer side becomes 1000 otherwise, and no side grows |
| Daily.ScaleDown | components/DailyModal.tsx:45 | Scaling by `1000 / longer` keeps the ratio and the limit |
| Daily.ClampSquare | components/DailyModal.tsx:48-52 | A square over the limit takes the height branch and becomes 1000 by 1000 |
| Daily.ClampIsScaling | components/DailyModal.tsx:43-53 | The branches scale both sides by one factor: 1, or `1000 / longer side` |
| Daily.ClampIdempotent | components/DailyModal.tsx:43-53 | A clamped size is not clamped again |
| Daily.KeptImage | components/DailyModal.tsx:81 | Editing keeps the entry's photo only when it is non-empty |
| Daily.Submit | components/DailyModal.tsx:76-141 | Blank content or a running save does nothing, and a failed upload alerts with its message. Otherwise the entry's fields are written with the new or the kept photo: by id and on its own day when editing, inserted under today when new |
| Daily.Write | components/DailyModal.tsx:109-135 | The row written carries the form's energy and content, the chosen photo and the insight. It is an update of the edited entry's id, on that entry's day, exactly when editing, and an insert under today otherwise |
| Daily.EditKeepsEntry | components/DailyModal.tsx:114-126 | Editing without a new photo rewrites the same row, on the same day, with the same photo |
| Daily.NewEntryDateIsClean | components/DailyModal.tsx:114 | A new entry's date passes the save step's cleaning unchanged |
| InsightService.HistoryLine | services/geminiService.ts:18-19 | A history line quotes at most the first 50 characters of the content |
| InsightService.HistoryLines | services/geminiService.ts:15-21 | At most 5 lines, from the first 5 entries in order |
| InsightService.JoinLines | services/geminiService.ts:21 | No lines join to the empty text, and the joined text starts with the first line |
| InsightService.JoinLinesLayout | services/geminiService.ts:21 | Line `i` sits at the total length of the lines before it plus one per separator, a newline follows every line but the last, and the text ends where the last line ends |
| InsightService.HistorySection | services/geminiService.ts:32 | No history gives the fixed placeholder; otherwise the joined lines |
| InsightService.NoHistoryIffEmpty | services/geminiService.ts:32 | The placeholder appears exactly when there is no history |
| InsightService.OnlyFirstFive | services/geminiService.ts:15-16 | Entries after the fifth do not affect the prompt |
| InsightService.InsightText | services/geminiService.ts:44-66 | The result is always a non-empty trimmed text. An ok reply gives its trimmed text, or the fallback when that is empty. A timeout gives the timeout message and any other failure the error message |
| InsightService.MessagesTrimmed | services/geminiService.ts:8-10 | The three fixed messages are distinct, non-empty and trimmed |
| InsightService.Received | services/geminiService.ts:52-57 | Exactly a 2xx status counts as ok (`response.ok`). An ok reply carries the body's `text` when it has one, and any other status is passed on |
| InsightService.ServiceOverRelay | services/geminiService.ts:44-63 | Through the relay, a prompt gives the model's trimmed text, or the fallback when that is empty. A missing key or a failed call gives the error message |
| Relay.Handle | api/gemini.ts:3-37 | A non-POST gets 405. Then a bad prompt gets 400, and then a missing key gets 500. Only a successful model call gets 200, with its trimmed text or "". A failed call gets 500. There is one status per path |
| Relay.MethodCheckedFirst | api/gemini.ts:4-7 | Every non-POST gets the same answer, whatever else the request holds |
| Relay.PromptCheckedBeforeKey | api/gemini.ts:9-19 | A bad prompt gets 400 whether or not a key is set |
| Relay.SuccessTextTrimmed | api/gemini.ts:32 | A successful answer's text is already trimmed |

## Left out

- Storage traffic: loading the entries, the insert, update, delete and photo upload calls, and the storage client.
  - The delete's result is a parameter (`DeleteOutcome`) and so is the upload's (`Upload`).
  - The database write is the request `Submit` returns. A failure of the write itself is not modelled.
  - The normalisation of dates on load uses the JavaScript date parser, which depends on the implementation.
- The language-model call, `fetch`, and the 5-second abort timer.
  - The relay's model call is the parameter `ModelResult`.
  - The service's call is `FetchOutcome`.
  - The API key is the parameter `key`.
- Reading, decoding and drawing the photo, JPEG encoding, and the canvas's integer truncation of the clamped size. `Daily.Clamp` works over exact reals.
- Time zones and daylight saving. "Today" is a parameter, and a `Date` is a civil day.
- `Journal.Streak`: `today` is a parameter instead of the clock.
- `DateText.ParseIso`: it reads only the `YYYY-MM-DD` form the app writes, the date-only form of the ECMAScript date-time string format. Other texts that `new Date(s + 'T00:00:00')` might accept are left out.
- `Journal.LexLeTotal`: `localeCompare` is modelled as code-point order. That agrees with locale collation on the digit-and-hyphen texts dates are made of, not on arbitrary text.
- `Dashboard.Tenths`: `toFixed(1)` is taken over the exact mean. Binary floating-point rounding of the double is not modelled.
- Range labels, `toLocaleDateString`, rendering, CSS, local storage and notification permission.
- `Insight.FindTag`: the markers match case-sensitively, with the white-space set of `trim`. The source's regular expressions are case-insensitive.
- The prompt's wording around the history and the entry itself. Only the history lines and their placeholder are modelled.
- `InsightService.HistoryLine`: `substring(0, 50)` counts UTF-16 code units, and the model counts code points. They differ only for characters outside the Basic Multilingual Plane.
- `InsightService.MessagesTrimmed`: the three fixed messages and the history wording are kept exactly as the source file spells them. That spelling is a mis-encoded rendering of Vietnamese, so the model is about the strings the code holds.
- `Trends.Prev`: its month step is the corrected one, to the first day of the previous calendar month. The source's `setMonth(getMonth() - 1)` keeps the day of the month and can overflow into the current month; that behaviour is `Trends.PrevAsWritten`, and Findings gives the input.
- `Trends.Next`: its month step is the corrected one, to the first day of the next calendar month. The source's `setMonth(getMonth() + 1)` can skip a month; that behaviour is `Trends.NextAsWritten`, and Findings gives the input.
- `DateText.Format` carries no postcondition of its own. Its layout is stated by `DateText.FormatLayout`, its injectivity by `DateText.FormatInjective` and its inverse by `DateText.ParseFormat`, so that the many proofs that mention a printed day do not carry the layout with them.
- `Calendar.SetMonth`: its contract states only the case where the day exists in the target month. The overflow case is exhibited by `Trends.PrevMonthAsWrittenStays` and `Trends.NextMonthAsWrittenSkips`.
- `Types.Meta`: the display table's `label` field is named `name` here, because `label` is a Dafny keyword. Likewise `Relay.Request`'s method is the field `verb`.
- The main view's `avgEnergy` is the same expression as the statistics card's (App.tsx:121-124), so it is modelled once, as `Dashboard.AverageText`.

## Findings

| source | as written | input that shows it | evidently intended | confidence | as-written member | corrected member |
|---|---|---|---|---|---|---|
| components/EnergyTrends.tsx:32 | `setMonth(getMonth() - 1)` keeps the day of the month, so a missing day overflows into the next month | reference day 2025-03-31, press "previous" in the month view: the result is 2025-03-03, still March | show the previous calendar month | not executed | Trends.PrevMonthAsWrittenStays | Trends.MonthNavigation |
| components/EnergyTrends.tsx:40 | `setMonth(getMonth() + 1)` keeps the day of the month, so a missing day overflows past the target month | reference day 2025-01-31, press "next" in the month view: the result is 2025-03-03, so February is skipped | show the next calendar month | not executed | Trends.NextMonthAsWrittenSkips | Trends.ShiftMonth |
| components/ViewEntryModal.tsx:35 | `**` is removed before the `Xu hướng:` label, so removing the label can join two single stars | insight `*Xu hướng:*a Lời nhắn:b`: the trend shown is `**a` | a trend with the bold markers removed | not executed | Insight.TrendAsWrittenJoinsStars | Insight.SplitInsight |

The corrected month navigation (`Trends.Prev`, `Trends.Next`) moves from the first day of
the month, so it never overflows.
