# LearningJourney activity engine in Dafny

This project models the logic of the LearningJourney app. That logic consists of:

- **The activity view model.** It holds a log of day states (`none`, `learned`, `frozen`), the selected day, the month shown and the moment of the last log. On top of these it provides:
  - the weekly freeze quota (two freezes per Sunday-to-Saturday week);
  - the streak walk;
  - the selection and week-navigation rules, including the minute tick that re-selects today;
  - the week strip and the month grid;
  - saving the log to, and loading it from, a dictionary keyed by `yyyy-MM-dd` day keys.
- **The goal-change rule.** Storing a goal whose title or duration differs from the stored one clears the log and the last log moment. Two screens apply this rule:
  - the start screen, which first validates the form;
  - the edit screen, which does not validate.
- **The history calendar's arithmetic.** This covers:
  - the goal length in months;
  - the guess of when the goal started;
  - the capped list of months to show;
  - the Sunday-aligned day grid of a month.

## Design

**Time**
- Days are integer day numbers; day 0 is 1970-01-01.
- Timestamps are integer seconds, and `DayOf` takes a timestamp to its day.
- The calendar is a fixed, Sunday-first proleptic Gregorian calendar in one time zone (module `Calendar`). The app's `Calendar.current` plays this role.
- Every use of the wall clock (`Date()`) becomes an explicit parameter `now`.

**The view model and storage**
- The view model is the immutable record `Activity.Tracker`. Each command is a function from one tracker to the next.
- UserDefaults is the record `Persistence.Store`, with one optional field per `activity.*` key.
- The goal screens work on `Goals.App`, a tracker together with its store.

**Day keys and months**
- Day keys (module `DayKey`) follow the `full-date` form of section 5.6 of RFC 3339: a four-digit year, a two-digit month and a two-digit day, separated by `-`. The formatter and parser are written out here.
- Month values in the history's span are month indices, `year * 12 + month - 1`. The lemmas `Calendar.MonthStartOfIndex` and `Calendar.NextMonthStart` tie an index to the first day of its month. They also show that adding one to an index is the app's "add one month".

**Behaviour of the code worth noting**
- A missing `lastLogAt` does not make the streak 0. Only a last log more than 32 hours back does (`Activity.Lapsed`).
- The month span can hold 37 months, not 36. The loop appends a month and only then stops once the count exceeds 36.
- The cap can drop today's month: the widening meant to guarantee today's month (LearningJourney/ScreenThree.swift:135) holds only while the cap is not reached.
- `logFrozen` lowers `freezesLeft` by exactly one only when the selected day lies in the current week and is not already frozen. A freeze outside the week, or on a day already frozen, leaves the count unchanged.

## Model

| member | source | states |
|---|---|---|
| Calendar.DayOf | LearningJourney/ScreenTwo.swift:148 | the start of day of a timestamp: the day whose 86400 seconds contain it |
| Calendar.Weekday | LearningJourney/ScreenTwo.swift:81 | the weekday of a day is a number from 1 (Sunday) to 7 (Saturday) |
| Calendar.WeekdaySteps | LearningJourney/ScreenTwo.swift:81 | 1970-01-01 is a Thursday (5); each next day advances the weekday by one, wrapping from Saturday to Sunday, so it repeats every seven days |
| Calendar.WeekStart | LearningJourney/ScreenTwo.swift:80-82 | the Sunday of a day's week: a Sunday, on or before the day, less than a week before it |
| Calendar.WeekStartUnique | LearningJourney/ScreenTwo.swift:50-55 | any Sunday whose week contains a day is that day's week start, so every day has exactly one week |
| Calendar.ToCivil | LearningJourney/ScreenThree.swift:103 | the year, month and day of a day number: a valid date that converts back to the same day number |
| Calendar.ToCivilFromCivil | LearningJourney/ScreenThree.swift:103 | converting a valid date to a day number and back gives the same date |
| Calendar.FirstOfMonth | LearningJourney/ScreenThree.swift:101-104 | the first of a day's month: day 1 of the same year and month, at most the month's length before the day |
| Calendar.MonthStartOfIndex | LearningJourney/ScreenThree.swift:129 | the first day of the month with a day's month index is the first of that day's month |
| Calendar.MonthStartIndex | LearningJourney/ScreenThree.swift:129 | the first day of month index `mi` lies in month `mi`, on day 1 |
| Calendar.NextMonthStart | LearningJourney/ScreenThree.swift:144 | the month after index `mi` starts the day after month `mi` ends, so stepping an index by one adds one calendar month |
| Calendar.LeadingBlanks | LearningJourney/ScreenThree.swift:202 | the leading blank cells of a month grid: 0 for a Sunday first through 6 for a Saturday first, i.e. weekday minus one |
| Calendar.Grid | LearningJourney/ScreenTwo.swift:71-75 | a grid is its blank cells followed by consecutive days, one per cell |
| Calendar.MonthGridDays | LearningJourney/ScreenTwo.swift:72-74 | the `k`-th day after the first of a month is day `k + 1` of that month, for every day of the month |
| Calendar.MonthDays | LearningJourney/ScreenTwo.swift:69-74 | the days of a month are exactly the day numbers from its first day for its length, in order |
| DayKey.Format | LearningJourney/ScreenThree.swift:21-28 | the day key of a day in years 0-9999 is ten characters: four digits, `-`, two digits, `-`, two digits |
| DayKey.FormatInjective | LearningJourney/ScreenTwo.swift:174 | distinct days have distinct keys, so the saved dictionary never holds two entries under one key |
| DayKey.Parse | LearningJourney/ScreenTwo.swift:189 | only a ten-character key of the form four digits, `-`, two digits, `-`, two digits names a day; `DayKey.FormatParse` shows such a day's own key is that key |
| DayKey.ParseFormat | LearningJourney/ScreenTwo.swift:172-190 | parsing the key of any day in years 0-9999 gives that day back |
| DayKey.FormatParse | LearningJourney/ScreenTwo.swift:183-190 | a key that parses is exactly the key of the day it names, and that day lies in years 0-9999 |
| DayKey.ParseOfFormat | LearningJourney/ScreenThree.swift:31 | the key of a day can name no other day |
| Text.Trim | LearningJourney/ScreenOne.swift:46 | trimming gives a contiguous part of the string with only whitespace and newlines before and after it, whose first and last characters are neither |
| Text.TrimEmptyIff | LearningJourney/ScreenOne.swift:46 | trimming leaves something exactly when some character is neither whitespace nor a newline |
| Text.Lower | LearningJourney/ScreenOne.swift:198 | lower-casing keeps the length and lower-cases each character in place |
| Activity.StateIn | LearningJourney/ScreenTwo.swift:111-113 | a day absent from the log reads as `none`; a logged day reads as its entry |
| Activity.PeriodRange | LearningJourney/ScreenTwo.swift:50-55 | the quota period is the seven days from the Sunday of the current week, and it contains today |
| Activity.LearnedCountThisWeek | LearningJourney/ScreenTwo.swift:93-97 | this week's learned days number at most 7, and none exactly when no logged day of the week is learned |
| Activity.FrozenCountThisPeriod | LearningJourney/ScreenTwo.swift:99-103 | this week's frozen days number at most 7, and none exactly when no logged day of the week is frozen |
| Activity.WeekCount | LearningJourney/ScreenTwo.swift:93-103 | a seven-day period holds at most seven days of one state, and none exactly when no logged day of it has that state |
| Activity.FreezesLeft | LearningJourney/ScreenTwo.swift:99-105 | freezes left lie in 0..2, are 0 exactly when the week holds two or more frozen days, and otherwise add up with them to 2 |
| Activity.DaySpan | LearningJourney/ScreenTwo.swift:50-55 | the set of `n` consecutive days has exactly `n` elements and holds exactly the days of the range |
| Activity.CountsWithinWeek | LearningJourney/ScreenTwo.swift:93-103 | the learned count and the frozen count of a week together never exceed 7 |
| Activity.Select | LearningJourney/ScreenTwo.swift:115-119 | selecting today selects today's start of day; selecting nothing, or a day that is not today, changes nothing |
| Activity.Tick | LearningJourney/ScreenTwo.swift:299-303 | after the minute tick the selected day is today, and nothing else has changed |
| Activity.PrevWeek | LearningJourney/ScreenTwo.swift:121-126 | moves the selection exactly seven days back, shows the first of its month, and changes nothing else |
| Activity.NextWeek | LearningJourney/ScreenTwo.swift:127-132 | moves the selection exactly seven days forward, shows the first of its month, and changes nothing else |
| Activity.NextWeekUndoesPrevWeek | LearningJourney/ScreenTwo.swift:121-132 | a week back then a week forward restores the selection, and the whole view model when it showed the selected day's month |
| Activity.SetState | LearningJourney/ScreenTwo.swift:147-151 | writing a state sets that day's entry; every other day keeps its presence and its entry |
| Activity.LogLearned | LearningJourney/ScreenTwo.swift:134-138 | the selected day reads as learned, the last log is `now`, and every other day and the selection are unchanged |
| Activity.LogLearnedIdempotent | LearningJourney/ScreenTwo.swift:134-138 | logging learned a second time leaves the log as the first call left it |
| Activity.LogFrozen | LearningJourney/ScreenTwo.swift:140-145 | with no freeze left nothing changes; otherwise the selected day reads as frozen, the last log is `now`, and every other day is unchanged |
| Activity.LogFrozenSpendsOneFreeze | LearningJourney/ScreenTwo.swift:140-145 | a granted freeze of a not-yet-frozen day in this week uses exactly one freeze, any other granted freeze uses none, and the week never exceeds 2 frozen days |
| Activity.RunEndingAt | LearningJourney/ScreenTwo.swift:158-167 | the run ending at a day: every day in it is logged, the day before it is not, and it is no longer than the log up to that day |
| Activity.Streak | LearningJourney/ScreenTwo.swift:153-168 | the streak is 0 when the last log is more than 32 hours back, otherwise the run of logged days ending today; never more than the log's size |
| Activity.StreakCount | LearningJourney/ScreenTwo.swift:153-168 | the backward walk from today returns the streak: days after the stop point are logged and the stop day is not |
| Activity.StreakStopsAtGap | LearningJourney/ScreenTwo.swift:158-167 | today and yesterday learned, the day before unlogged and the one before that learned give a streak of 2 |
| Activity.WeekDays | LearningJourney/ScreenTwo.swift:79-84 | the week strip is seven consecutive days starting on a Sunday and containing the given day |
| Activity.WeekDaysArePeriod | LearningJourney/ScreenTwo.swift:79-84 | the week strip of `now` is exactly the freeze period: same first day, and a day is in one exactly when it is in the other |
| Activity.WeekDaysStable | LearningJourney/ScreenTwo.swift:79-84 | every day of a week strip has that same strip |
| Activity.DaysGrid | LearningJourney/ScreenTwo.swift:67-76 | the month grid has weekday-minus-one blank cells, then days 1 through the month's length of the shown month, in order |
| Persistence.StateFromRaw | LearningJourney/ScreenTwo.swift:38 | a raw value names a day state exactly when it is `none`, `learned` or `frozen`, and it is that state's raw value |
| Persistence.EncodeLogs | LearningJourney/ScreenTwo.swift:172-175 | the saved dictionary holds each logged day's raw state under its day key, and no other key |
| Persistence.DecodeLogs | LearningJourney/ScreenTwo.swift:183-193 | every entry with a valid day key and a valid state name is loaded under its day; every loaded day comes from such an entry |
| Persistence.SavedDay | LearningJourney/ScreenTwo.swift:174 | every key of a saved dictionary is the day key of a logged day |
| Persistence.DecodeEncode | LearningJourney/ScreenTwo.swift:171-193 | loading what was saved gives back the same log (days in years 0-9999) |
| Persistence.EncodeDecode | LearningJourney/ScreenTwo.swift:171-193 | saving what was loaded gives back the dictionary minus its unreadable entries, and a loaded log lies in years 0-9999 |
| Persistence.Save | LearningJourney/ScreenTwo.swift:171-181 | saving writes each logged day's raw state under its day key and no other key, writes the last log moment, removes it when there is none, and leaves the other keys alone |
| Persistence.Load | LearningJourney/ScreenTwo.swift:183-197 | without a saved log nothing is read; otherwise the log is decoded and a positive last log moment is read |
| Persistence.Restore | LearningJourney/ScreenTwo.swift:62-65 | at start-up today is selected and its month shown; the log is exactly the readable entries of the saved dictionary (empty, with no last log moment, when none is saved), the last log moment is read only when positive, and the log lies in years 0-9999 |
| Persistence.SaveThenRestore | LearningJourney/ScreenTwo.swift:171-197 | saving then starting again restores the log exactly, and the last log moment when it is positive |
| Goals.ResetForNewGoal | LearningJourney/ScreenOne.swift:25-31 | the log and the last log moment are cleared in memory and in storage; everything else is unchanged |
| Goals.ResetClearsActivity | LearningJourney/ScreenOne.swift:25-31 | after a reset every day reads as `none`, the streak is 0, both freezes are free, and a restart loads an empty log |
| Goals.GoalChanged | LearningJourney/ScreenOne.swift:195-201 | the goal counts as changed exactly when the title differs from the stored title (`""` when none is stored) or the duration from the stored duration (`week` when none is stored), each key defaulted on its own |
| Goals.CommitGoal | LearningJourney/ScreenOne.swift:195-206 | the goal is stored, and the activity is reset exactly when the stored title or duration (defaults `""` and `week`) differs |
| Goals.DurationKey | LearningJourney/ScreenOne.swift:198 | the stored duration of Week, Month and Year is `week`, `month` and `year` respectively |
| Goals.FormValidIff | LearningJourney/ScreenOne.swift:46-48 | the form is valid exactly when the topic has a character that is neither whitespace nor a newline and a duration is chosen |
| Goals.PersistSelections | LearningJourney/ScreenOne.swift:193-210 | an invalid form changes nothing; a valid one stores the topic as typed and the lower-cased duration, resets exactly on a change, and sets the weekly quota; nothing else in the view model or the store changes |
| Goals.PersistSelectionsTwice | LearningJourney/ScreenOne.swift:195-206 | a second identical save changes nothing, so the selections reset the activity at most once |
| Goals.LoadCurrent | LearningJourney/ScreenFour.swift:136-139 | the form is filled with the stored title (default `""`) and duration (default `week`), so it matches what is stored |
| Goals.SaveChanges | LearningJourney/ScreenFour.swift:141-153 | the form is stored unvalidated, and the activity is reset exactly when the title or duration differs from the stored one; nothing else in the view model or the store changes |
| Goals.LoadThenSaveKeepsActivity | LearningJourney/ScreenFour.swift:136-153 | opening the edit screen and saving without edits never resets the activity |
| Goals.SaveChangesTwice | LearningJourney/ScreenFour.swift:141-153 | a second save of the same form changes nothing |
| History.GoalDurationMonths | LearningJourney/ScreenThree.swift:117-125 | the goal lasts 12 months exactly when the stored duration is `year` in any letter case, and 1 month otherwise |
| History.ParsedLogKeys | LearningJourney/ScreenThree.swift:30-31 | the days named by the log's saved keys are exactly the log's days (years 0-9999) |
| History.EarliestLoggedDate | LearningJourney/ScreenThree.swift:30-33 | the earliest day named by a parseable key, and none exactly when no key parses |
| History.GoalStartGuess | LearningJourney/ScreenThree.swift:108-113 | a positive stored start wins; else midnight of the earliest logged day; else `now` |
| History.SpanMonths | LearningJourney/ScreenThree.swift:128-148 | consecutive months from the widened start, as many as the range holds but at most 37, beginning at or before today's month, and holding today's month while under the cap |
| History.MonthsSpan | LearningJourney/ScreenThree.swift:107-148 | the guessed goal start follows the stored start, then the earliest day of a parseable key, then now; the months run from 5 before the start's month (or this month if earlier) to 5 after the goal's end (or this month if later), one by one, at most 37, and hold this month while under the cap |
| History.GridDays | LearningJourney/ScreenThree.swift:199-210 | the history grid is the same grid as the week view's month grid: weekday-minus-one blanks, then days 1 through the month's length |
| History.FillGrid | LearningJourney/ScreenThree.swift:203-209 | appending blanks and then the days one at a time builds exactly the grid of those blanks and days |

## Left out

- Time zones, daylight saving and the locale's first weekday are not modelled. One fixed zone and a Sunday-first week are used. The app saves keys with `ISO8601DateFormatter`, which defaults to GMT, and reads them back as local days. The save-and-load round trip therefore holds here only because local day and key day coincide.
- Timestamps are whole seconds rather than floating-point `Double` seconds.
- Persistence.Restore: the app's `init` is modelled, but its first `month = Date()` assignment is not, because `init` immediately overwrites it.
- DayKey.ParseFormat: the round trip is proved only for years 0 through 9999, the range in which the key has four year digits. Keys of other years are formatted but do not parse back.
- DayKey.Parse: parsing is strict: exactly ten characters and a date that exists. `DateFormatter` and `ISO8601DateFormatter` accept more, for example lenient forms, but their parsing internals are outside this model.
- Goals.GoalChanged: titles and durations are compared character by character. Swift compares strings by canonical equivalence, so a title typed in another Unicode normal form (`é` as one code point or as `e` plus a combining accent) resets the activity here but not in the app. Unicode normalisation is not modelled.
- Text.Lower: lower-cases ASCII letters only. Only the labels `Week`, `Month`, `Year` and stored duration strings are lower-cased, and full Unicode case mapping is not modelled.
- Text.IsWhitespaceOrNewline: lists the Unicode whitespace and newline characters by code point. Grapheme clusters are not modelled.
- The month counts `learnedCountThisMonth` and `frozenCountThisMonth`, with `monthDates` and `maxFreezesPerMonth`, are left out: nothing in the app reads them.
- `monthTitle`, `monthName`, `yearsRange`, the month and year pickers, colours and all view bodies are presentation code and are left out.
- The Combine 60-second timer is left out; only the rule it runs is modelled (`Activity.Tick`).
- LearningJourney/ContentView.swift is not part of this model. It is an older start screen whose only logic is storing the goal strings.
- `save()` runs inside `logLearned`, `logFrozen` and `set` (LearningJourney/ScreenTwo.swift:137, 144, 150). Here saving is the separate `Persistence.Save`, applied to the tracker a command returns.
- The start screen holds its own `ActivityViewModel` instance rather than the shared one. Here both screens act on one `Goals.App`, so the in-memory effect of the reset on a second instance is not modelled. The storage effect is the same.
- Month arithmetic (`date(byAdding: .month, ...)` followed by `firstOfMonth`) is modelled as adding to a month index. `Calendar.NextMonthStart` relates the two.
- `quotaMode` has the single value `Week`, so "the quota is weekly after a valid save" holds for every tracker.
- A "first goal creation" timestamp and the normalisation it would drive do not occur in the code of the modelled files, so they are not modelled.
- `vm.logsByKey` is not defined on the view model in the modelled code. It is taken to be the keys of the saved log dictionary (`History.LogKeys`).
