/** The persisted settings the app keeps under `activity.*` keys, and the
    mapping of the activity log to and from its saved form: a dictionary from
    `yyyy-MM-dd` day keys to raw day-state names. */
module Persistence {

  import opened Opt
  import opened Calendar
  import DayKey
  import opened Activity

  /** The stored keys. Timestamps are whole seconds; an absent number reads as 0. */
  datatype Store = Store(
    goalTitle: Option<string>,           // activity.goalTitle
    duration: Option<string>,            // activity.duration
    logs: Option<map<string, string>>,   // activity.logs
    lastLogAt: Option<int>,              // activity.lastLogAt
    goalStartAt: Option<int>)            // activity.goalStartAt

  /** Raw value a day state is saved as. */
  function RawValue(s: DayState): string {
    match s
    case Unlogged => "none"
    case Learned => "learned"
    case Frozen => "frozen"
  }

  /** The day state with raw value `raw`, if there is one. */
  function StateFromRaw(raw: string): (r: Option<DayState>)
    ensures r.Some? <==> raw == "none" || raw == "learned" || raw == "frozen"
    ensures r.Some? ==> RawValue(r.value) == raw
  {
    if raw == "none" then Some(Unlogged)
    else if raw == "learned" then Some(Learned)
    else if raw == "frozen" then Some(Frozen)
    else None
  }

  lemma FormatInjectiveAll()
    ensures forall a, b :: DayKey.Format(a) == DayKey.Format(b) ==> a == b
  {
    forall a, b | DayKey.Format(a) == DayKey.Format(b)
      ensures a == b
    {
      DayKey.FormatInjective(a, b);
    }
  }

  lemma ParseInjectiveAll()
    ensures forall k, j :: DayKey.Parse(k).Some? && DayKey.Parse(j) == DayKey.Parse(k) ==> k == j
  {
    forall k, j | DayKey.Parse(k).Some? && DayKey.Parse(j) == DayKey.Parse(k)
      ensures k == j
    {
      DayKey.FormatParse(k);
      DayKey.FormatParse(j);
    }
  }

  /** The dictionary saved under `activity.logs`: each logged day under its day key. */
  function EncodeLogs(logs: map<int, DayState>): (dict: map<string, string>)
    ensures forall d :: d in logs ==> DayKey.Format(d) in dict && dict[DayKey.Format(d)] == RawValue(logs[d])
    ensures forall k :: k in dict ==> k in DayKeys(logs)
  {
    EncodedEntries(logs);
    KeyedByDay(logs)
  }

  /** The day keys of the days of `logs`. */
  function DayKeys(logs: map<int, DayState>): set<string> {
    set d | d in logs :: DayKey.Format(d)
  }

  function KeyedByDay(logs: map<int, DayState>): map<string, string> {
    FormatInjectiveAll();
    Rekey(logs, DayKey.Format, RawValue)
  }

  /** `m` with every key `a` moved to `f(a)` and every value `v` replaced by `g(v)`; `f` keeps keys apart. */
  function Rekey<A(!new), B, V, W>(m: map<A, V>, f: A -> B, g: V -> W): map<B, W>
    requires forall a, b :: f(a) == f(b) ==> a == b
  {
    map a | a in m :: f(a) := g(m[a])
  }

  lemma RekeyEntry<A(!new), B, V, W>(m: map<A, V>, f: A -> B, g: V -> W, a: A)
    requires forall a, b :: f(a) == f(b) ==> a == b
    requires a in m
    ensures f(a) in Rekey(m, f, g) && Rekey(m, f, g)[f(a)] == g(m[a])
  {
  }

  lemma RekeyKeys<A(!new), B, V, W>(m: map<A, V>, f: A -> B, g: V -> W)
    requires forall a, b :: f(a) == f(b) ==> a == b
    ensures forall k :: k in Rekey(m, f, g) ==> exists a :: a in m && f(a) == k
  {
  }

  lemma EncodedEntries(logs: map<int, DayState>)
    ensures forall d :: d in logs ==>
      DayKey.Format(d) in KeyedByDay(logs) && KeyedByDay(logs)[DayKey.Format(d)] == RawValue(logs[d])
    ensures forall k :: k in KeyedByDay(logs) ==> k in DayKeys(logs)
  {
    FormatInjectiveAll();
    forall d | d in logs
      ensures DayKey.Format(d) in KeyedByDay(logs) && KeyedByDay(logs)[DayKey.Format(d)] == RawValue(logs[d])
    {
      RekeyEntry(logs, DayKey.Format, RawValue, d);
    }
    RekeyKeys(logs, DayKey.Format, RawValue);
  }

  /** An entry that loading keeps: its key is a valid day key and its value a day-state name. */
  predicate Readable(dict: map<string, string>, k: string) {
    k in dict && DayKey.Parse(k).Some? && StateFromRaw(dict[k]).Some?
  }

  /** The log read back from a saved dictionary; unreadable entries are dropped one by one. */
  function DecodeLogs(dict: map<string, string>): (logs: map<int, DayState>)
    ensures forall k :: Readable(dict, k) ==>
      DayKey.Parse(k).value in logs && logs[DayKey.Parse(k).value] == StateFromRaw(dict[k]).value
    ensures forall d :: d in logs ==> Readable(dict, DayKey.Format(d)) && DayKey.Parse(DayKey.Format(d)) == Some(d)
  {
    ParseInjectiveAll();
    var logs := map k | k in dict && Readable(dict, k) :: DayKey.Parse(k).value := StateFromRaw(dict[k]).value;
    assert forall d :: d in logs ==> exists k :: Readable(dict, k) && DayKey.Parse(k).value == d;
    DecodedKeys(dict, logs);
    logs
  }

  lemma DecodedKeys(dict: map<string, string>, logs: map<int, DayState>)
    requires forall d :: d in logs ==> exists k :: Readable(dict, k) && DayKey.Parse(k).value == d
    ensures forall d :: d in logs ==> Readable(dict, DayKey.Format(d)) && DayKey.Parse(DayKey.Format(d)) == Some(d)
  {
    forall d | d in logs
      ensures Readable(dict, DayKey.Format(d)) && DayKey.Parse(DayKey.Format(d)) == Some(d)
    {
      var k :| Readable(dict, k) && DayKey.Parse(k).value == d;
      DayKey.FormatParse(k);
    }
  }

  /** Every day of the log lies in a year with four digits, 0 through 9999. */
  predicate KeysInRange(logs: map<int, DayState>) {
    forall d :: d in logs ==> 0 <= ToCivil(d).year < 10000
  }

  lemma SameMap<K, V>(a: map<K, V>, b: map<K, V>)
    requires forall k :: k in a ==> k in b && b[k] == a[k]
    requires forall k :: k in b ==> k in a
    ensures a == b
  {
  }

  lemma RawValueRoundTrip(s: DayState)
    ensures StateFromRaw(RawValue(s)) == Some(s)
  {
  }

  /** What `EncodeLogs` promises, as a relation between a log and a dictionary. */
  ghost predicate EncodesTo(logs: map<int, DayState>, dict: map<string, string>) {
    && (forall d :: d in logs ==> DayKey.Format(d) in dict && dict[DayKey.Format(d)] == RawValue(logs[d]))
    && (forall k :: k in dict ==> k in DayKeys(logs))
  }

  /** What `DecodeLogs` promises, as a relation between a dictionary and a log. */
  ghost predicate DecodesTo(dict: map<string, string>, logs: map<int, DayState>) {
    && (forall k :: Readable(dict, k) ==>
          DayKey.Parse(k).value in logs && logs[DayKey.Parse(k).value] == StateFromRaw(dict[k]).value)
    && (forall d :: d in logs ==> Readable(dict, DayKey.Format(d)) && DayKey.Parse(DayKey.Format(d)) == Some(d))
  }

  /** The day a saved key was written for. */
  lemma SavedDay(logs: map<int, DayState>, dict: map<string, string>, k: string) returns (e: int)
    requires EncodesTo(logs, dict)
    requires k in dict
    ensures e in logs && DayKey.Format(e) == k
  {
    assert k in DayKeys(logs);
    e :| e in logs && DayKey.Format(e) == k;
  }

  lemma EncodeLogsEncodes(logs: map<int, DayState>)
    ensures EncodesTo(logs, EncodeLogs(logs))
  {
  }

  lemma EncodeThenDecode(logs: map<int, DayState>, dict: map<string, string>, back: map<int, DayState>)
    requires KeysInRange(logs)
    requires EncodesTo(logs, dict)
    requires DecodesTo(dict, back)
    ensures back == logs
  {
    forall d | d in logs
      ensures d in back && back[d] == logs[d]
    {
      DayKey.ParseFormat(d);
      RawValueRoundTrip(logs[d]);
      assert Readable(dict, DayKey.Format(d));
    }
    forall d | d in back
      ensures d in logs
    {
      var e := SavedDay(logs, dict, DayKey.Format(d));
      DayKey.FormatInjective(d, e);
    }
    SameMap(logs, back);
  }

  /** Loading what was saved gives back the same log. */
  lemma DecodeEncode(logs: map<int, DayState>)
    requires KeysInRange(logs)
    ensures DecodeLogs(EncodeLogs(logs)) == logs
  {
    var dict := EncodeLogs(logs);
    EncodeLogsEncodes(logs);
    EncodeThenDecode(logs, dict, DecodeLogs(dict));
  }

  lemma DecodeThenEncode(dict: map<string, string>, logs: map<int, DayState>, again: map<string, string>)
    requires DecodesTo(dict, logs)
    requires EncodesTo(logs, again)
    ensures again == map k | k in dict && Readable(dict, k) :: dict[k]
    ensures KeysInRange(logs)
  {
    var kept := map k | k in dict && Readable(dict, k) :: dict[k];
    forall k | k in kept
      ensures k in again && again[k] == kept[k]
    {
      ReadableSavedAgain(dict, logs, again, k);
    }
    forall k | k in again
      ensures k in kept
    {
      SavedAgainReadable(dict, logs, again, k);
    }
    SameMap(kept, again);
    forall d | d in logs
      ensures 0 <= ToCivil(d).year < 10000
    {
      DayKey.FormatParse(DayKey.Format(d));
    }
  }

  lemma ReadableSavedAgain(dict: map<string, string>, logs: map<int, DayState>, again: map<string, string>, k: string)
    requires DecodesTo(dict, logs)
    requires EncodesTo(logs, again)
    requires Readable(dict, k)
    ensures k in again && again[k] == dict[k]
  {
    var d := DayKey.Parse(k).value;
    assert d in logs;
    DayKey.FormatParse(k);
  }

  lemma SavedAgainReadable(dict: map<string, string>, logs: map<int, DayState>, again: map<string, string>, k: string)
    requires DecodesTo(dict, logs)
    requires EncodesTo(logs, again)
    requires k in again
    ensures Readable(dict, k)
  {
    var d := SavedDay(logs, again, k);
  }

  /** Saving what was loaded gives back the saved dictionary minus its unreadable entries, and what is
      loaded always lies in four-digit years. */
  lemma EncodeDecode(dict: map<string, string>)
    ensures EncodeLogs(DecodeLogs(dict)) == map k | k in dict && Readable(dict, k) :: dict[k]
    ensures KeysInRange(DecodeLogs(dict))
  {
    var logs := DecodeLogs(dict);
    EncodeLogsEncodes(logs);
    DecodeThenEncode(dict, logs, EncodeLogs(logs));
  }

  /** Writes the log and the last log moment; an absent last log removes its key. */
  function Save(store: Store, tr: Tracker): (r: Store)
    ensures r.logs.Some? && EncodesTo(tr.logs, r.logs.value)
    ensures r.lastLogAt == tr.lastLogAt
    ensures r.(logs := store.logs, lastLogAt := store.lastLogAt) == store
  {
    EncodeLogsEncodes(tr.logs);
    store.(logs := Some(EncodeLogs(tr.logs)), lastLogAt := tr.lastLogAt)
  }

  /** Reads the saved log into `tr`. Without a saved log nothing is read, not even the last log moment;
      a last log moment of 0 or less is not read either. */
  function Load(tr: Tracker, store: Store): (r: Tracker)
    ensures store.logs.None? ==> r == tr
    ensures store.logs.Some? ==> r.logs == DecodeLogs(store.logs.value)
    ensures store.logs.Some? && store.lastLogAt.GetOr(0) > 0 ==> r.lastLogAt == store.lastLogAt
    ensures store.logs.None? || store.lastLogAt.GetOr(0) <= 0 ==> r.lastLogAt == tr.lastLogAt
    ensures r == tr.(logs := r.logs, lastLogAt := r.lastLogAt)
  {
    match store.logs
    case None => tr
    case Some(dict) =>
      var ts := store.lastLogAt.GetOr(0);
      tr.(logs := DecodeLogs(dict), lastLogAt := if ts > 0 then Some(ts) else tr.lastLogAt)
  }

  /** The view model as the app builds it at start-up: today selected, its month shown, the saved log loaded. */
  function Restore(store: Store, now: int): (r: Tracker)
    ensures r.selectedDay == DayOf(now)
    ensures r.month == FirstOfMonth(DayOf(now))
    ensures store.logs.Some? ==> DecodesTo(store.logs.value, r.logs)
    ensures store.logs.None? ==> r.logs == map[] && r.lastLogAt == None
    ensures r.lastLogAt == if store.logs.Some? && store.lastLogAt.GetOr(0) > 0 then store.lastLogAt else None
    ensures KeysInRange(r.logs)
  {
    if store.logs.Some? then EncodeDecode(store.logs.value); Load(Initial(DayOf(now)), store)
    else Load(Initial(DayOf(now)), store)
  }

  /** Saving then starting again restores the log exactly, and the last log moment when it is positive. */
  lemma SaveThenRestore(store: Store, tr: Tracker, now: int)
    requires KeysInRange(tr.logs)
    ensures Restore(Save(store, tr), now).logs == tr.logs
    ensures Restore(Save(store, tr), now).lastLogAt ==
      (if tr.lastLogAt.Some? && tr.lastLogAt.value > 0 then tr.lastLogAt else None)
  {
    DecodeEncode(tr.logs);
  }
}
