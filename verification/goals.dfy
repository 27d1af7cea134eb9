/** The learning goal: its validation on the start screen, its edit screen,
    and the rule that a changed title or duration starts the activity log
    afresh. */
module Goals {

  import opened Opt
  import opened Text
  import opened Activity
  import opened Persistence

  /** The view model together with the persisted settings. */
  datatype App = App(vm: Tracker, store: Store)

  /** Clears the log and the last log moment, in memory and in storage. */
  function ResetForNewGoal(app: App): (r: App)
    ensures r.vm.logs == map[] && r.vm.lastLogAt == None
    ensures r.store.logs == None && r.store.lastLogAt == None
    ensures r.vm == app.vm.(logs := r.vm.logs, lastLogAt := r.vm.lastLogAt)
    ensures r.store == app.store.(logs := r.store.logs, lastLogAt := r.store.lastLogAt)
  {
    App(app.vm.(logs := map[], lastLogAt := None), app.store.(logs := None, lastLogAt := None))
  }

  /** After a reset every day reads as unlogged, the streak is 0, both freezes are free, and a restart
      loads nothing back. */
  lemma ResetClearsActivity(app: App, now: int, day: int)
    ensures var r := ResetForNewGoal(app);
      && StateOf(r.vm, day) == Unlogged
      && Streak(r.vm, now) == 0
      && FreezesLeft(r.vm, now) == PeriodFreezeLimit
      && Restore(r.store, now).logs == map[]
      && Restore(r.store, now).lastLogAt == None
  {
    var r := ResetForNewGoal(app);
    assert DaysWith(r.vm.logs, PeriodRange(now), Frozen) == {};
  }

  // ---------------------------------------------------------------------------
  // The stored goal

  /** The stored title, `""` when none is stored. */
  function StoredTitle(store: Store): string {
    store.goalTitle.GetOr("")
  }

  /** The stored duration, `"week"` when none is stored. */
  function StoredDuration(store: Store): string {
    store.duration.GetOr("week")
  }

  /** The goal differs from the stored one in title or duration; a missing stored title compares as
      `""` and a missing stored duration as `"week"`. */
  function GoalChanged(store: Store, title: string, duration: string): (changed: bool)
    ensures store.goalTitle == Some(title) && store.duration == Some(duration) ==> !changed
    ensures store.goalTitle.Some? && store.goalTitle.value != title ==> changed
    ensures store.duration.Some? && store.duration.value != duration ==> changed
    ensures store.goalTitle.None? && store.duration.None? ==> (changed <==> title != "" || duration != "week")
    ensures store.goalTitle.None? && title != "" ==> changed
    ensures store.duration.None? && duration != "week" ==> changed
    ensures && (store.goalTitle.None? ==> title == "") && (store.goalTitle.Some? ==> store.goalTitle.value == title)
            && (store.duration.None? ==> duration == "week") && (store.duration.Some? ==> store.duration.value == duration)
            ==> !changed
  {
    StoredTitle(store) != title || StoredDuration(store) != duration
  }

  /** Stores a goal, first resetting the activity when it differs from the stored goal. */
  function CommitGoal(app: App, title: string, duration: string): (r: App)
    ensures r.store.goalTitle == Some(title) && r.store.duration == Some(duration)
    ensures !GoalChanged(r.store, title, duration)
    ensures GoalChanged(app.store, title, duration) ==> r == ResetForNewGoal(app).(store := r.store)
    ensures !GoalChanged(app.store, title, duration) ==> r.vm == app.vm
    ensures r.store.(goalTitle := app.store.goalTitle, duration := app.store.duration)
      == (if GoalChanged(app.store, title, duration) then ResetForNewGoal(app) else app).store
  {
    var base := if GoalChanged(app.store, title, duration) then ResetForNewGoal(app) else app;
    base.(store := base.store.(goalTitle := Some(title), duration := Some(duration)))
  }

  // ---------------------------------------------------------------------------
  // The start screen

  datatype LearningDuration = Week | Month | Year

  function DurationLabel(d: LearningDuration): string {
    match d
    case Week => "Week"
    case Month => "Month"
    case Year => "Year"
  }

  /** The duration as stored: the lower-cased label. */
  function DurationKey(d: LearningDuration): (k: string)
    ensures k == match d case Week => "week" case Month => "month" case Year => "year"
  {
    LowerLabel(d);
    Lower(DurationLabel(d))
  }

  lemma LowerLabel(d: LearningDuration)
    ensures Lower(DurationLabel(d)) == match d case Week => "week" case Month => "month" case Year => "year"
  {
    var l := Lower(DurationLabel(d));
    assert l[0] == LowerChar(DurationLabel(d)[0]);
  }

  predicate IsTopicValid(topic: string) {
    Trim(topic) != []
  }

  predicate IsDurationValid(duration: Option<LearningDuration>) {
    duration.Some?
  }

  predicate FormValid(topic: string, duration: Option<LearningDuration>) {
    IsTopicValid(topic) && IsDurationValid(duration)
  }

  /** The form is valid exactly when the topic has a character that is neither whitespace nor a newline
      and a duration is chosen. */
  lemma FormValidIff(topic: string, duration: Option<LearningDuration>)
    ensures FormValid(topic, duration) <==>
      (exists i :: 0 <= i < |topic| && !IsWhitespaceOrNewline(topic[i])) && duration.Some?
  {
    TrimEmptyIff(topic);
  }

  /** The start screen's save: ignored for an invalid form; otherwise stores the topic as typed and the
      lower-cased duration, resetting the activity when either differs from what was stored, and sets
      the weekly quota. */
  function PersistSelections(app: App, topic: string, duration: Option<LearningDuration>): (r: App)
    ensures !FormValid(topic, duration) ==> r == app
    ensures FormValid(topic, duration) ==>
      && r.store.goalTitle == Some(topic)
      && r.store.duration == Some(DurationKey(duration.value))
      && r.vm.quotaMode == QuotaMode.Week
    ensures FormValid(topic, duration) && GoalChanged(app.store, topic, DurationKey(duration.value)) ==>
      && r.vm == app.vm.(logs := map[], lastLogAt := None, quotaMode := QuotaMode.Week)
      && r.store == app.store.(goalTitle := Some(topic), duration := Some(DurationKey(duration.value)),
                               logs := None, lastLogAt := None)
    ensures FormValid(topic, duration) && !GoalChanged(app.store, topic, DurationKey(duration.value)) ==>
      && r.vm == app.vm.(quotaMode := QuotaMode.Week)
      && r.store == app.store.(goalTitle := Some(topic), duration := Some(DurationKey(duration.value)))
  {
    if !FormValid(topic, duration) then app
    else
      var r := CommitGoal(app, topic, DurationKey(duration.value));
      r.(vm := r.vm.(quotaMode := QuotaMode.Week))
  }

  /** Saving the same selections twice resets at most once: the second save changes nothing. */
  lemma PersistSelectionsTwice(app: App, topic: string, duration: Option<LearningDuration>)
    ensures var once := PersistSelections(app, topic, duration);
      PersistSelections(once, topic, duration) == once
  {
  }

  // ---------------------------------------------------------------------------
  // The edit screen

  /** The edit screen's fields. */
  datatype GoalForm = GoalForm(topic: string, selectedDuration: string)

  /** Fills the edit form from storage, with the same defaults the reset rule compares against. */
  function LoadCurrent(store: Store): (f: GoalForm)
    ensures !GoalChanged(store, f.topic, f.selectedDuration)
    ensures store.goalTitle.None? ==> f.topic == ""
    ensures store.duration.None? ==> f.selectedDuration == "week"
  {
    GoalForm(StoredTitle(store), StoredDuration(store))
  }

  /** The edit screen's save: stores the form as it is, with no validation, resetting the activity when
      the title or duration differs from what was stored. */
  function SaveChanges(app: App, form: GoalForm): (r: App)
    ensures r.store.goalTitle == Some(form.topic) && r.store.duration == Some(form.selectedDuration)
    ensures GoalChanged(app.store, form.topic, form.selectedDuration) ==>
      && r.vm == app.vm.(logs := map[], lastLogAt := None)
      && r.store == app.store.(goalTitle := Some(form.topic), duration := Some(form.selectedDuration),
                               logs := None, lastLogAt := None)
    ensures !GoalChanged(app.store, form.topic, form.selectedDuration) ==>
      && r.vm == app.vm
      && r.store == app.store.(goalTitle := Some(form.topic), duration := Some(form.selectedDuration))
  {
    CommitGoal(app, form.topic, form.selectedDuration)
  }

  /** Opening the edit screen and saving without edits never resets the activity. */
  lemma LoadThenSaveKeepsActivity(app: App)
    ensures var r := SaveChanges(app, LoadCurrent(app.store));
      r.vm == app.vm && r.store.logs == app.store.logs && r.store.lastLogAt == app.store.lastLogAt
  {
  }

  /** A second save of the same form changes nothing. */
  lemma SaveChangesTwice(app: App, form: GoalForm)
    ensures SaveChanges(SaveChanges(app, form), form) == SaveChanges(app, form)
  {
  }
}
