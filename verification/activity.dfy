/** The activity view model: a log of day states, the selected day, the shown
    month and the moment of the last log, with the weekly freeze quota, the
    streak and the calendar views derived from them. The wall clock is the
    explicit parameter `now` (seconds). */
module Activity {

  import opened Opt
  import opened Calendar

  /** Logged outcome of one day. `Unlogged` is the app's `none` state. */
  datatype DayState = Unlogged | Learned | Frozen

  /** The freeze quota period; the app has only the weekly one. */
  datatype QuotaMode = Week

  /** The view model. Days are day numbers, `lastLogAt` is a timestamp. */
  datatype Tracker = Tracker(
    month: int,                 // a day of the month the month grid shows
    selectedDay: int,
    logs: map<int, DayState>,
    lastLogAt: Option<int>,
    quotaMode: QuotaMode)

  /** Freezes allowed in one week. */
  const PeriodFreezeLimit := 2

  /** A streak lapses once more than 32 hours have passed since the last log. */
  const StreakGraceSeconds := 32 * 3600

  /** A fresh view model for the day `today`. */
  function Initial(today: int): Tracker {
    Tracker(FirstOfMonth(today), today, map[], None, Week)
  }

  // ---------------------------------------------------------------------------
  // Reading the log

  /** State of a day in a log; days absent from it read as `Unlogged`. */
  function StateIn(logs: map<int, DayState>, day: int): (s: DayState)
    ensures day !in logs ==> s == Unlogged
    ensures day in logs ==> s == logs[day]
  {
    if day in logs then logs[day] else Unlogged
  }

  function StateOf(tr: Tracker, day: int): DayState {
    StateIn(tr.logs, day)
  }

  // ---------------------------------------------------------------------------
  // The weekly period and its counts

  datatype Period = Period(start: int, end: int) {
    predicate Contains(day: int) {
      start <= day < end
    }
  }

  /** The current week, Sunday through Saturday, whatever day is selected. */
  function PeriodRange(now: int): (p: Period)
    ensures Weekday(p.start) == 1
    ensures p.end == p.start + 7
    ensures p.Contains(DayOf(now))
  {
    var s := WeekStart(DayOf(now));
    Period(s, s + 7)
  }

  /** Logged days of period `p` whose state is `s`. */
  function DaysWith(logs: map<int, DayState>, p: Period, s: DayState): set<int> {
    set k | k in logs && p.Contains(k) && logs[k] == s
  }

  /** A week holds at most seven days of one state, and none exactly when no day of it is logged so. */
  lemma WeekCount(logs: map<int, DayState>, p: Period, s: DayState)
    requires p.end == p.start + 7
    ensures |DaysWith(logs, p, s)| <= 7
    ensures |DaysWith(logs, p, s)| == 0 <==> forall k :: k in logs && p.Contains(k) ==> logs[k] != s
  {
    var days := DaysWith(logs, p, s);
    SubsetSize(days, DaySpan(p.start, 7));
    if |days| == 0 {
      forall k | k in logs && p.Contains(k)
        ensures logs[k] != s
      {
        assert k in days <==> logs[k] == s;
      }
    } else {
      var k :| k in days;
      assert k in logs && p.Contains(k) && logs[k] == s;
    }
  }

  /** Learned days of this week. */
  function LearnedCountThisWeek(tr: Tracker, now: int): (n: nat)
    ensures n <= 7
    ensures n == 0 <==> forall k :: k in tr.logs && PeriodRange(now).Contains(k) ==> tr.logs[k] != Learned
  {
    WeekCount(tr.logs, PeriodRange(now), Learned);
    |DaysWith(tr.logs, PeriodRange(now), Learned)|
  }

  /** Frozen days of this week. */
  function FrozenCountThisPeriod(tr: Tracker, now: int): (n: nat)
    ensures n <= 7
    ensures n == 0 <==> forall k :: k in tr.logs && PeriodRange(now).Contains(k) ==> tr.logs[k] != Frozen
  {
    WeekCount(tr.logs, PeriodRange(now), Frozen);
    |DaysWith(tr.logs, PeriodRange(now), Frozen)|
  }

  /** Freezes still available this week: the limit minus the frozen days of the week, never below zero. */
  function FreezesLeft(tr: Tracker, now: int): (r: int)
    ensures 0 <= r <= PeriodFreezeLimit
    ensures r == 0 <==> FrozenCountThisPeriod(tr, now) >= PeriodFreezeLimit
    ensures r > 0 ==> r + FrozenCountThisPeriod(tr, now) == PeriodFreezeLimit
  {
    var left := PeriodFreezeLimit - FrozenCountThisPeriod(tr, now);
    if left > 0 then left else 0
  }

  /** The `n` consecutive days from `s` on. */
  function DaySpan(s: int, n: nat): (r: set<int>)
    ensures forall k :: k in r <==> s <= k < s + n
    ensures |r| == n
  {
    if n == 0 then {} else
      var prev := DaySpan(s, n - 1);
      assert s + n - 1 !in prev;
      prev + {s + n - 1}
  }

  lemma SubsetSize<T>(a: set<T>, b: set<T>)
    requires a <= b
    ensures |a| <= |b|
    ensures a < b ==> |a| < |b|
  {
    assert b == a + (b - a);
    if a < b {
      var x :| x in b && x !in a;
      assert x in b - a;
    }
  }

  /** A week has seven days, so its learned and frozen days together number at most seven. */
  lemma CountsWithinWeek(tr: Tracker, now: int)
    ensures LearnedCountThisWeek(tr, now) + FrozenCountThisPeriod(tr, now) <= 7
  {
    var p := PeriodRange(now);
    var l := DaysWith(tr.logs, p, Learned);
    var f := DaysWith(tr.logs, p, Frozen);
    var week := DaySpan(p.start, 7);
    assert l !! f;
    assert |l + f| == |l| + |f|;
    SubsetSize(l + f, week);
  }

  // ---------------------------------------------------------------------------
  // Selection

  predicate IsToday(t: int, now: int) {
    SameDay(t, now)
  }

  /** Selects the day of `date`, but only when that is today; anything else is ignored. */
  function Select(tr: Tracker, date: Option<int>, now: int): (r: Tracker)
    ensures date.Some? && IsToday(date.value, now) ==> r == tr.(selectedDay := DayOf(now))
    ensures date.None? || !IsToday(date.value, now) ==> r == tr
  {
    match date
    case None => tr
    case Some(t) => if IsToday(t, now) then tr.(selectedDay := DayOf(t)) else tr
  }

  /** The minute tick: when the selected day is no longer today, select today. */
  function Tick(tr: Tracker, now: int): (r: Tracker)
    ensures r.selectedDay == DayOf(now)
    ensures r == tr.(selectedDay := r.selectedDay)
  {
    if tr.selectedDay != DayOf(now) then Select(tr, Some(now), now) else tr
  }

  /** Moves the selection one week back and shows that day's month. */
  function PrevWeek(tr: Tracker): (r: Tracker)
    ensures r.selectedDay == tr.selectedDay - 7
    ensures r.month == FirstOfMonth(r.selectedDay)
    ensures r == tr.(selectedDay := r.selectedDay, month := r.month)
  {
    var d := tr.selectedDay - 7;
    tr.(selectedDay := d, month := FirstOfMonth(d))
  }

  /** Moves the selection one week forward and shows that day's month. */
  function NextWeek(tr: Tracker): (r: Tracker)
    ensures r.selectedDay == tr.selectedDay + 7
    ensures r.month == FirstOfMonth(r.selectedDay)
    ensures r == tr.(selectedDay := r.selectedDay, month := r.month)
  {
    var d := tr.selectedDay + 7;
    tr.(selectedDay := d, month := FirstOfMonth(d))
  }

  /** Going back a week and forward again restores the selection, and the whole view model when it showed the selected day's month. */
  lemma NextWeekUndoesPrevWeek(tr: Tracker)
    ensures NextWeek(PrevWeek(tr)).selectedDay == tr.selectedDay
    ensures NextWeek(PrevWeek(tr)).month == FirstOfMonth(tr.selectedDay)
    ensures tr.month == FirstOfMonth(tr.selectedDay) ==> NextWeek(PrevWeek(tr)) == tr
  {
  }

  // ---------------------------------------------------------------------------
  // Logging

  /** Writes state `s` for `day`; every other entry of the log is unchanged. */
  function SetState(logs: map<int, DayState>, s: DayState, day: int): (r: map<int, DayState>)
    ensures StateIn(r, day) == s && day in r
    ensures forall k :: k != day ==> (k in r <==> k in logs)
    ensures forall k :: k != day && k in logs ==> r[k] == logs[k]
  {
    logs[day := s]
  }

  /** Marks the selected day learned and records `now` as the last log. */
  function LogLearned(tr: Tracker, now: int): (r: Tracker)
    ensures StateOf(r, tr.selectedDay) == Learned
    ensures r.lastLogAt == Some(now)
    ensures forall k :: k != tr.selectedDay ==> StateOf(r, k) == StateOf(tr, k)
    ensures r.selectedDay == tr.selectedDay && r.month == tr.month
  {
    tr.(logs := SetState(tr.logs, Learned, tr.selectedDay), lastLogAt := Some(now))
  }

  /** Logging learned again changes nothing in the log. */
  lemma LogLearnedIdempotent(tr: Tracker, now: int, later: int)
    ensures LogLearned(LogLearned(tr, now), later).logs == LogLearned(tr, now).logs
  {
  }

  /** Marks the selected day frozen, unless this week's freezes are used up, in which case nothing changes. */
  function LogFrozen(tr: Tracker, now: int): (r: Tracker)
    ensures FreezesLeft(tr, now) == 0 ==> r == tr
    ensures FreezesLeft(tr, now) > 0 ==>
      && StateOf(r, tr.selectedDay) == Frozen
      && r.lastLogAt == Some(now)
      && (forall k :: k != tr.selectedDay ==> StateOf(r, k) == StateOf(tr, k))
      && r.selectedDay == tr.selectedDay && r.month == tr.month
  {
    if FreezesLeft(tr, now) > 0 then
      tr.(logs := SetState(tr.logs, Frozen, tr.selectedDay), lastLogAt := Some(now))
    else
      tr
  }

  /** A granted freeze on a not-yet-frozen day of this week spends exactly one freeze; on any other day
      it spends none. Either way the week never goes over its limit. */
  lemma LogFrozenSpendsOneFreeze(tr: Tracker, now: int)
    requires FreezesLeft(tr, now) > 0
    ensures var r := LogFrozen(tr, now);
      && ((PeriodRange(now).Contains(tr.selectedDay) && StateOf(tr, tr.selectedDay) != Frozen)
          ==> FreezesLeft(r, now) == FreezesLeft(tr, now) - 1)
      && ((!PeriodRange(now).Contains(tr.selectedDay) || StateOf(tr, tr.selectedDay) == Frozen)
          ==> FreezesLeft(r, now) == FreezesLeft(tr, now))
      && FrozenCountThisPeriod(r, now) <= PeriodFreezeLimit
  {
    var r := LogFrozen(tr, now);
    var p := PeriodRange(now);
    var d := tr.selectedDay;
    var before := DaysWith(tr.logs, p, Frozen);
    var after := DaysWith(r.logs, p, Frozen);
    if p.Contains(d) {
      assert after == before + {d};
      if StateOf(tr, d) != Frozen {
        assert d !in before;
      } else {
        assert after == before;
      }
    } else {
      assert after == before;
    }
  }

  // ---------------------------------------------------------------------------
  // Streak

  /** Logged days up to and including `d`. */
  function KeysUpTo(logs: map<int, DayState>, d: int): set<int> {
    set k | k in logs && k <= d
  }

  lemma KeysUpToShrinks(logs: map<int, DayState>, d: int)
    requires d in logs
    ensures |KeysUpTo(logs, d - 1)| < |KeysUpTo(logs, d)|
  {
    assert d in KeysUpTo(logs, d) && d !in KeysUpTo(logs, d - 1);
    SubsetSize(KeysUpTo(logs, d - 1), KeysUpTo(logs, d));
  }

  /** Length of the unbroken run of logged (non-`Unlogged`) days ending at `d`. */
  function RunEndingAt(logs: map<int, DayState>, d: int): (n: nat)
    ensures n <= |KeysUpTo(logs, d)|
    ensures forall k :: d - n < k <= d ==> StateIn(logs, k) != Unlogged
    ensures StateIn(logs, d - n) == Unlogged
    decreases |KeysUpTo(logs, d)|
  {
    if StateIn(logs, d) == Unlogged then 0
    else
      KeysUpToShrinks(logs, d);
      1 + RunEndingAt(logs, d - 1)
  }

  /** The streak has lapsed: a last log exists and lies more than 32 hours back. A missing last log does not lapse it. */
  predicate Lapsed(tr: Tracker, now: int) {
    tr.lastLogAt.Some? && now - tr.lastLogAt.value > StreakGraceSeconds
  }

  /** The streak: zero once lapsed, else the run of logged days ending today. It never exceeds the log's size. */
  function Streak(tr: Tracker, now: int): (n: nat)
    ensures Lapsed(tr, now) ==> n == 0
    ensures !Lapsed(tr, now) ==> n == RunEndingAt(tr.logs, DayOf(now))
    ensures n <= |tr.logs|
  {
    if Lapsed(tr, now) then 0
    else
      SubsetSize(KeysUpTo(tr.logs, DayOf(now)), tr.logs.Keys);
      RunEndingAt(tr.logs, DayOf(now))
  }

  /** The streak walk as the app runs it: step back from today while the day is logged. */
  method StreakCount(tr: Tracker, now: int) returns (count: nat)
    ensures count == Streak(tr, now)
    ensures Lapsed(tr, now) ==> count == 0
    ensures !Lapsed(tr, now) ==>
      && (forall k :: DayOf(now) - count < k <= DayOf(now) ==> StateOf(tr, k) != Unlogged)
      && StateOf(tr, DayOf(now) - count) == Unlogged
  {
    var today := DayOf(now);
    if Lapsed(tr, now) {
      return 0;
    }
    count := 0;
    var cursor := today;
    while true
      invariant cursor == today - count
      invariant count + RunEndingAt(tr.logs, cursor) == RunEndingAt(tr.logs, today)
      decreases |KeysUpTo(tr.logs, cursor)|
    {
      var state := StateOf(tr, cursor);
      if state == Unlogged {
        break;
      }
      KeysUpToShrinks(tr.logs, cursor);
      count := count + 1;
      cursor := cursor - 1;
    }
  }

  /** Today and yesterday learned, the day before unlogged, the one before that learned: the streak is 2. */
  lemma StreakStopsAtGap(tr: Tracker, now: int)
    requires var t := DayOf(now);
      && tr.logs == map[t := Learned, t - 1 := Learned, t - 3 := Learned]
      && tr.lastLogAt == Some(now)
    ensures Streak(tr, now) == 2
  {
    var t := DayOf(now);
    assert StateIn(tr.logs, t - 2) == Unlogged;
    assert RunEndingAt(tr.logs, t - 2) == 0;
    assert RunEndingAt(tr.logs, t - 1) == 1;
  }

  // ---------------------------------------------------------------------------
  // Calendar views

  /** The seven days, Sunday first, of the week containing the day of `t`. */
  function WeekDays(t: int): (w: seq<int>)
    ensures |w| == 7
    ensures Weekday(w[0]) == 1
    ensures forall i :: 0 <= i < 7 ==> w[i] == w[0] + i
    ensures DayOf(t) in w
  {
    var sunday := WeekStart(DayOf(t));
    var w := seq(7, i => sunday + i);
    assert w[DayOf(t) - sunday] == DayOf(t);
    w
  }

  /** The week strip is the freeze period of its week. */
  lemma WeekDaysArePeriod(t: int)
    ensures WeekDays(t)[0] == PeriodRange(t).start
    ensures forall d :: PeriodRange(t).Contains(d) <==> d in WeekDays(t)
  {
    var w := WeekDays(t);
    forall d | PeriodRange(t).Contains(d)
      ensures d in w
    {
      assert w[d - w[0]] == d;
    }
  }

  /** Every day of a week strip shows that same strip. */
  lemma WeekDaysStable(t: int, i: int)
    requires 0 <= i < 7
    ensures WeekDays(WeekDays(t)[i] * SecondsPerDay) == WeekDays(t)
  {
    var w := WeekDays(t);
    var d := w[i];
    assert DayOf(d * SecondsPerDay) == d;
    WeekStartUnique(d, w[0]);
  }

  /** The month grid of the shown month: Sunday-aligned blanks, then days 1 through the month's length. */
  function DaysGrid(tr: Tracker): (g: seq<Option<int>>)
    ensures var f := FirstOfMonth(tr.month); var b := LeadingBlanks(f); var c := ToCivil(tr.month);
      && |g| == b + MonthLength(tr.month)
      && (forall i :: 0 <= i < b ==> g[i].None?)
      && (forall i :: b <= i < |g| ==> g[i].Some? && ToCivil(g[i].value) == Date(c.year, c.month, i - b + 1))
  {
    MonthGridDays(tr.month);
    MonthGrid(tr.month)
  }
}
