/** The all-activities history: which months it shows, and the Sunday-aligned
    day grid of each month. Months are month indices (`year * 12 + month - 1`). */
module History {

  import opened Opt
  import opened Calendar
  import DayKey
  import opened Text
  import opened Activity
  import opened Persistence

  /** Goal length in months from the stored duration: 12 for `year` in any letter case, 1 otherwise. */
  function GoalDurationMonths(store: Store): (n: int)
    ensures n == 12 <==> Lower(store.duration.GetOr("")) == "year"
    ensures n == 12 || n == 1
  {
    var raw := Lower(store.duration.GetOr(""));
    if raw == "year" then 12 else 1
  }

  /** The keys the history reads the log under: the day keys it is saved with. */
  function LogKeys(logs: map<int, DayState>): set<string> {
    EncodeLogs(logs).Keys
  }

  /** Days named by the keys that parse. */
  function ParsedDays(keys: set<string>): set<int> {
    set k | k in keys && DayKey.Parse(k).Some? :: DayKey.Parse(k).value
  }

  lemma ParsedEncodedKey(logs: map<int, DayState>, dict: map<string, string>, d: int)
    requires EncodesTo(logs, dict)
    requires d in logs && 0 <= ToCivil(d).year < 10000
    ensures d in ParsedDays(dict.Keys)
  {
    DayKey.ParseFormat(d);
    assert DayKey.Format(d) in dict.Keys;
  }

  lemma ParsedKeyEncoded(logs: map<int, DayState>, dict: map<string, string>, d: int)
    requires EncodesTo(logs, dict)
    requires d in ParsedDays(dict.Keys)
    ensures d in logs
  {
    var k := KeyOfParsed(dict.Keys, d);
    var e := SavedDay(logs, dict, k);
    DayKey.ParseOfFormat(e, d);
  }

  /** A key naming `d`, for a day that some key names. */
  lemma KeyOfParsed(keys: set<string>, d: int) returns (k: string)
    requires d in ParsedDays(keys)
    ensures k in keys && DayKey.Parse(k) == Some(d)
  {
    k :| k in keys && DayKey.Parse(k).Some? && DayKey.Parse(k).value == d;
  }


  lemma ParsedEncodedCovers(logs: map<int, DayState>, dict: map<string, string>)
    requires KeysInRange(logs)
    requires EncodesTo(logs, dict)
    ensures forall d :: d in logs.Keys ==> d in ParsedDays(dict.Keys)
  {
    forall d | d in logs
      ensures d in ParsedDays(dict.Keys)
    {
      ParsedEncodedKey(logs, dict, d);
    }
  }

  lemma ParsedEncodedWithin(logs: map<int, DayState>, dict: map<string, string>)
    requires EncodesTo(logs, dict)
    ensures forall d :: d in ParsedDays(dict.Keys) ==> d in logs.Keys
  {
    forall d | d in ParsedDays(dict.Keys)
      ensures d in logs
    {
      ParsedKeyEncoded(logs, dict, d);
    }
  }

  lemma ParsedEncodedKeys(logs: map<int, DayState>, dict: map<string, string>)
    requires KeysInRange(logs)
    requires EncodesTo(logs, dict)
    ensures forall d :: d in ParsedDays(dict.Keys) <==> d in logs
  {
    ParsedEncodedCovers(logs, dict);
    ParsedEncodedWithin(logs, dict);
  }

  /** The log's own keys name exactly its days (for four-digit years). */
  lemma ParsedLogKeys(logs: map<int, DayState>)
    requires KeysInRange(logs)
    ensures forall d :: d in ParsedDays(LogKeys(logs)) <==> d in logs
  {
    EncodeLogsEncodes(logs);
    ParsedEncodedKeys(logs, EncodeLogs(logs));
  }

  /** The earliest day named by a parseable key, if any key parses. */
  method EarliestLoggedDate(keys: set<string>) returns (r: Option<int>)
    ensures r.None? <==> ParsedDays(keys) == {}
    ensures r.Some? ==> r.value in ParsedDays(keys)
    ensures r.Some? ==> forall d :: d in ParsedDays(keys) ==> r.value <= d
  {
    r := None;
    var rest := keys;
    ghost var seen: set<string> := {};
    while rest != {}
      invariant seen + rest == keys
      invariant r.None? ==> forall j :: j in seen ==> DayKey.Parse(j).None?
      invariant r.Some? ==> r.value in ParsedDays(seen)
      invariant r.Some? ==> forall d :: d in ParsedDays(seen) ==> r.value <= d
      decreases rest
    {
      var k :| k in rest;
      ParsedDaysInsert(seen, k);
      rest := rest - {k};
      seen := seen + {k};
      match DayKey.Parse(k)
      case Some(d) =>
        if r.None? || d < r.value {
          r := Some(d);
        }
      case None =>
    }
    if r.None? {
      NothingParsed(keys);
    }
  }

  /** Adding one key adds at most the day it names. */
  lemma ParsedDaysInsert(seen: set<string>, k: string)
    ensures forall d :: d in ParsedDays(seen + {k}) <==> d in ParsedDays(seen) || DayKey.Parse(k) == Some(d)
  {
    forall d | d in ParsedDays(seen + {k})
      ensures d in ParsedDays(seen) || DayKey.Parse(k) == Some(d)
    {
      var j := KeyOfParsed(seen + {k}, d);
      if j != k {
        assert j in seen;
      }
    }
  }

  lemma NothingParsed(keys: set<string>)
    requires forall j :: j in keys ==> DayKey.Parse(j).None?
    ensures ParsedDays(keys) == {}
  {
    forall d | d in ParsedDays(keys)
      ensures false
    {
      var j := KeyOfParsed(keys, d);
    }
  }

  /** Best guess of when the goal started: a positive stored `goalStartAt` first, else midnight of the
      earliest logged day, else `now`. */
  method GoalStartGuess(store: Store, keys: set<string>, now: int) returns (t: int)
    ensures store.goalStartAt.GetOr(0) > 0 ==> t == store.goalStartAt.value
    ensures store.goalStartAt.GetOr(0) <= 0 && ParsedDays(keys) != {} ==>
      && t % SecondsPerDay == 0
      && DayOf(t) in ParsedDays(keys)
      && forall d :: d in ParsedDays(keys) ==> DayOf(t) <= d
    ensures store.goalStartAt.GetOr(0) <= 0 && ParsedDays(keys) == {} ==> t == now
  {
    var ts := store.goalStartAt.GetOr(0);
    if ts > 0 {
      return ts;
    }
    var earliest := EarliestLoggedDate(keys);
    match earliest
    case Some(d) =>
      t := d * SecondsPerDay;
      assert DayOf(t) == d;
    case None =>
      t := now;
  }

  function Min(a: int, b: int): int {
    if a <= b then a else b
  }

  function Max(a: int, b: int): int {
    if a >= b then a else b
  }

  /** `out` lists the months from `first` on, one by one, up to `last` but no more than 37 of them, where
      `first` is 5 months before `startMonth` or `today` if earlier, and `last` is 5 months after the
      goal's end (`startMonth + duration`) or `today` if later. */
  predicate IsSpan(startMonth: int, duration: int, today: int, out: seq<int>) {
    var first := Min(startMonth - 5, today);
    var last := Max(startMonth + duration + 5, today);
    && |out| == (if last < first then 0 else Min(last - first + 1, 37))
    && (forall i :: 0 <= i < |out| ==> out[i] == first + i)
  }

  /** The months shown: from 5 months before the start month to 5 months after the goal's end month,
      widened to reach today's month, listed one by one and cut off once more than 36 are listed. */
  method SpanMonths(startMonth: int, duration: int, todayMonth: int) returns (out: seq<int>)
    ensures IsSpan(startMonth, duration, todayMonth, out)
    ensures var first := Min(startMonth - 5, todayMonth);
      var last := Max(startMonth + duration + 5, todayMonth);
      last - first + 1 <= 37 ==> todayMonth in out
    ensures 1 <= |out| <= 37 && out[0] <= todayMonth
    ensures |out| < 37 ==> todayMonth in out
  {
    var visibleStart := startMonth - 5;
    var visibleEnd := startMonth + duration + 5;
    if todayMonth < visibleStart { visibleStart := todayMonth; }
    if todayMonth > visibleEnd { visibleEnd := todayMonth; }
    out := [];
    var cursor := visibleStart;
    while cursor <= visibleEnd
      invariant cursor == visibleStart + |out|
      invariant |out| <= 36
      invariant visibleStart <= visibleEnd ==> cursor <= visibleEnd + 1
      invariant visibleEnd < visibleStart ==> out == []
      invariant forall i :: 0 <= i < |out| ==> out[i] == visibleStart + i
      decreases visibleEnd - cursor
    {
      out := out + [cursor];
      cursor := cursor + 1;
      if |out| > 36 {
        break;
      }
    }
    assert visibleStart <= visibleEnd ==> |out| == Min(visibleEnd - visibleStart + 1, 37);
    if visibleStart <= visibleEnd && visibleEnd - visibleStart + 1 <= 37 {
      assert out[todayMonth - visibleStart] == todayMonth;
    }
  }

  /** The history's months for the stored goal and the log's day keys `keys` (`LogKeys`, whose parsed
      days are the log's days by `ParsedLogKeys`) as of `now`, with the guessed goal start `start`:
      from 5 months before the start's month, or this month if earlier, to 5 months after the goal's
      end, or this month if later; consecutive, at most 37, and including this month whenever the cap
      is not reached. */
  method MonthsSpan(store: Store, keys: set<string>, now: int) returns (start: int, out: seq<int>)
    ensures store.goalStartAt.GetOr(0) > 0 ==> start == store.goalStartAt.value
    ensures store.goalStartAt.GetOr(0) <= 0 && ParsedDays(keys) != {} ==>
      && start % SecondsPerDay == 0
      && DayOf(start) in ParsedDays(keys)
      && forall d :: d in ParsedDays(keys) ==> DayOf(start) <= d
    ensures store.goalStartAt.GetOr(0) <= 0 && ParsedDays(keys) == {} ==> start == now
    ensures 1 <= |out| <= 37 && out[0] <= MonthIndex(DayOf(now))
    ensures IsSpan(MonthIndex(DayOf(start)), GoalDurationMonths(store), MonthIndex(DayOf(now)), out)
    ensures |out| < 37 ==> MonthIndex(DayOf(now)) in out
  {
    start := GoalStartGuess(store, keys, now);
    var startMonth := MonthIndex(DayOf(start));
    out := SpanMonths(startMonth, GoalDurationMonths(store), MonthIndex(DayOf(now)));
  }

  /** A month's history grid, built day by day: the same Sunday-aligned grid as the week view's month. */
  method GridDays(month: int) returns (out: seq<Option<int>>)
    ensures out == MonthGrid(month)
    ensures var f := FirstOfMonth(month); var b := LeadingBlanks(f); var c := ToCivil(month);
      && |out| == b + MonthLength(month)
      && (forall i :: 0 <= i < b ==> out[i].None?)
      && (forall i :: b <= i < |out| ==> out[i].Some? && ToCivil(out[i].value) == Date(c.year, c.month, i - b + 1))
  {
    var start := FirstOfMonth(month);
    var firstWeekday := LeadingBlanks(start);
    var n := MonthLength(month);
    out := FillGrid(firstWeekday, start, n);
    MonthGridDays(month);
  }

  /** Blank cells, then the days `start`, `start + 1`, ... appended one at a time. */
  method FillGrid(blanks: nat, start: int, n: nat) returns (out: seq<Option<int>>)
    ensures out == Grid(blanks, start, n)
  {
    ghost var grid := Grid(blanks, start, n);
    out := seq(blanks, _ => None);
    var day := 1;
    while day <= n
      invariant 1 <= day <= n + 1
      invariant out == grid[..blanks + day - 1]
    {
      out := out + [Some(start + day - 1)];
      day := day + 1;
    }
  }
}
