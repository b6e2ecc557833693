/**
 The snooze record and the update decision of `UpdateChecker`.

 The widget keeps two pieces of state between checks: the contents of the
 record file `ignore.txt` (absent, or the text it holds) and the `_snoozed`
 flag. `CheckTime` is `_check_time`, `ShowVersionInfo` is
 `show_version_info`, and `Check` is one whole cycle of `check` followed by
 the worker's result. The clock is the `Date` argument; the dialog's choice is
 the `Answer` argument.
 */
module Snooze {
  import opened Wrappers
  import opened Versions
  import opened Calendar
  import opened Tags
  import opened Latest

  /** `IGNORE_DAYS`: how long an Ignore suppresses the prompt. */
  const IgnoreDays: int := 21

  /** `record` is `None` when `ignore.txt` does not exist; `snoozed` is `_snoozed`. */
  datatype Checker = Checker(record: Option<string>, snoozed: bool)

  /** The button the user pressed in the "New release" dialog. */
  datatype Answer = Ok | Ignore

  /** The text of the inline label, by kind. */
  datatype Label =
    | Outdated(installed: Release, current: Release)
    | UpToDate(installed: Release)

  /** The outcome of `show_version_info`. */
  datatype Shown = Shown(status: Label, prompted: bool, after: Checker)

  /** The outcome of `_check_time`: its return value and the state it leaves. */
  datatype TimeCheck = TimeCheck(snoozed: bool, after: Checker)

  /**
   One check cycle: whether the network warning was shown, what
   `show_version_info` did if a version was yielded, the exception the worker
   raised if any, and the state afterwards.
   */
  datatype Cycle = Cycle(warned: bool, shown: Option<Shown>, raised: Option<Exception>, after: Checker)

  /** `__init__`: `_snoozed` starts false; the record is whatever is on disk. */
  function Init(record: Option<string>): Checker {
    Checker(record, false)
  }

  /** The record parses. */
  predicate Readable(c: Checker) {
    c.record.Some? && FromIsoFormat(c.record.value).Some?
  }

  /** The record parses and is younger than the window (a future date counts as young). */
  predicate Fresh(c: Checker, today: Date)
    requires Valid(today)
  {
    Readable(c) && DaysBetween(today, FromIsoFormat(c.record.value).value) < IgnoreDays
  }

  /**
   `_check_time`. A record that parses sets `_snoozed` to whether it is fresh;
   a fresh record is kept and the answer is true. A stale record, or one whose
   text does not parse (the `ValueError` is suppressed), is deleted and the
   answer is false. Without a record nothing changes.
   */
  function CheckTime(c: Checker, today: Date): (t: TimeCheck)
    requires Valid(today)
    ensures t.snoozed <==> Fresh(c, today)
    ensures t.after.record == c.record || t.after.record.None?
    ensures t.after.record.Some? <==> t.snoozed
    ensures Readable(c) ==> t.after.snoozed == t.snoozed
    ensures !Readable(c) ==> t.after.snoozed == c.snoozed
  {
    match c.record
    case None => TimeCheck(false, c)
    case Some(text) =>
      match FromIsoFormat(text)
      case None => TimeCheck(false, c.(record := None))
      case Some(recorded) =>
        if DaysBetween(today, recorded) < IgnoreDays then TimeCheck(true, c.(snoozed := true))
        else TimeCheck(false, Checker(None, false))
  }

  /**
   `show_version_info`. A newer remote version always sets the "outdated"
   label; the dialog appears only when not snoozed, and Ignore writes the ISO
   date of `today` as the whole record. Otherwise, equal versions included,
   the "up to date" label is set and nothing else changes. `_snoozed` is never
   touched here.
   */
  function ShowVersionInfo(c: Checker, installed: Release, remote: Release, today: Date, answer: Answer): (o: Shown)
    requires Valid(today)
    ensures o.status.Outdated? <==> Newer(remote, installed)
    ensures o.status.Outdated? ==> o.status == Outdated(installed, remote)
    ensures o.status.UpToDate? ==> o.status == UpToDate(installed) && AtLeast(installed, remote)
    ensures o.prompted <==> Newer(remote, installed) && !c.snoozed
    ensures o.after.snoozed == c.snoozed
    ensures o.prompted && answer == Ignore ==> o.after.record == Some(IsoFormat(today))
    ensures !(o.prompted && answer == Ignore) ==> o.after == c
  {
    CompareFlip(remote, installed);
    if Newer(remote, installed) then
      if !c.snoozed then
        match answer
        case Ignore => Shown(Outdated(installed, remote), true, c.(record := Some(IsoFormat(today))))
        case Ok => Shown(Outdated(installed, remote), true, c)
      else Shown(Outdated(installed, remote), false, c)
    else Shown(UpToDate(installed), false, c)
  }

  /**
   One cycle: `check` runs `_check_time` on `checkDay`, then the worker runs
   `get_latest_version`; a yielded version goes to `show_version_info`, and
   the dialog is answered on `answerDay`.
   */
  function Check(c: Checker, installed: Release, tags: Fetch<seq<TagItem>>, conda: Fetch<CondaPackage>,
                 checkDay: Date, answerDay: Date, answer: Answer): (r: Cycle)
    requires Valid(checkDay) && Valid(answerDay)
    ensures r.warned <==> tags.NetworkError? || conda.NetworkError?
    ensures r.shown.Some? <==> GetLatestVersion(tags, conda).Yielded?
    ensures r.raised.Some? <==> GetLatestVersion(tags, conda).Raised?
    ensures r.raised.Some? ==> r.raised.value == GetLatestVersion(tags, conda).error
    ensures r.shown.Some? && r.shown.value.prompted ==> !Fresh(c, checkDay)
    ensures r.shown.Some? ==>
              (r.shown.value.prompted <==>
                 Newer(GetLatestVersion(tags, conda).version, installed) && !CheckTime(c, checkDay).after.snoozed)
    ensures r.shown.Some? && r.shown.value.prompted && answer == Ignore ==>
              r.after == CheckTime(c, checkDay).after.(record := Some(IsoFormat(answerDay)))
    ensures r.shown.Some? && !(r.shown.value.prompted && answer == Ignore) ==> r.after == CheckTime(c, checkDay).after
    ensures r.shown.Some? && Newer(GetLatestVersion(tags, conda).version, installed) ==>
              r.shown.value.status == Outdated(installed, GetLatestVersion(tags, conda).version)
    ensures r.shown.None? ==> r.after == CheckTime(c, checkDay).after
  {
    var t := CheckTime(c, checkDay);
    match GetLatestVersion(tags, conda)
    case NothingYielded => Cycle(true, None, None, t.after)
    case Raised(e) => Cycle(false, None, Some(e), t.after)
    case Yielded(v) =>
      var o := ShowVersionInfo(t.after, installed, v, answerDay, answer);
      Cycle(false, Some(o), None, o.after)
  }

  // ---------------------------------------------------------------------------
  // Properties of the snooze state machine.
  // ---------------------------------------------------------------------------

  /**
   After Ignore on `day`, a check on `later` is snoozed exactly when fewer
   than 21 days have passed; once the window has elapsed the record is
   deleted and `_snoozed` is false.
   */
  lemma IgnoreThenCheckTime(c: Checker, installed: Release, remote: Release, day: Date, later: Date)
    requires Valid(day) && Valid(later)
    requires Newer(remote, installed) && !c.snoozed
    ensures var written := ShowVersionInfo(c, installed, remote, day, Ignore).after;
            var t := CheckTime(written, later);
            && (t.snoozed <==> DaysBetween(later, day) < IgnoreDays)
            && t.after.snoozed == t.snoozed
            && (t.snoozed ==> t.after.record == Some(IsoFormat(day)))
            && (!t.snoozed ==> t.after.record.None?)
  {
    IsoRoundTrip(day);
  }

  /**
   After the dialog was answered Ignore on `day`, the next cycle within the
   window still shows the "outdated" label for a newer version but not the
   dialog, whatever the feeds return, and it keeps the record. For every
   later cycle in the window see `SnoozeHoldsThroughWindow`.
   */
  lemma IgnoreSuppressesPrompt(c: Checker, installed: Release, remote: Release,
                               tags: Fetch<seq<TagItem>>, conda: Fetch<CondaPackage>,
                               day: Date, later: Date, answerDay: Date, answer: Answer)
    requires Valid(day) && Valid(later) && Valid(answerDay)
    requires Newer(remote, installed) && !c.snoozed
    requires DaysBetween(later, day) < IgnoreDays
    ensures var ignored := ShowVersionInfo(c, installed, remote, day, Ignore);
            var next := Check(ignored.after, installed, tags, conda, later, answerDay, answer);
            && ignored.prompted
            && (next.shown.Some? ==> !next.shown.value.prompted)
            && (next.shown.Some? && Newer(GetLatestVersion(tags, conda).version, installed) ==>
                  next.shown.value.status.Outdated?)
            && next.after == Checker(Some(IsoFormat(day)), true)
  {
    IsoRoundTrip(day);
  }

  /**
   While a record written on `day` is younger than 21 days, a cycle shows no
   dialog, still shows the "outdated" label for a newer version, and leaves
   the same record with the flag set. That end state meets the requirement
   again, so the dialog stays away for every cycle in the window.
   */
  lemma SnoozeHoldsThroughWindow(c: Checker, installed: Release,
                                 tags: Fetch<seq<TagItem>>, conda: Fetch<CondaPackage>,
                                 day: Date, later: Date, answerDay: Date, answer: Answer)
    requires Valid(day) && Valid(later) && Valid(answerDay)
    requires c.record == Some(IsoFormat(day))
    requires DaysBetween(later, day) < IgnoreDays
    ensures var next := Check(c, installed, tags, conda, later, answerDay, answer);
            && (next.shown.Some? ==> !next.shown.value.prompted)
            && (next.shown.Some? && Newer(GetLatestVersion(tags, conda).version, installed) ==>
                  next.shown.value.status.Outdated?)
            && next.after == Checker(Some(IsoFormat(day)), true)
  {
    IsoRoundTrip(day);
  }

  /**
   The first cycle of a new widget prompts exactly when the remote version is
   newer and the record on disk is not a fresh snooze.
   */
  lemma FirstCycle(record: Option<string>, installed: Release,
                   tags: Fetch<seq<TagItem>>, conda: Fetch<CondaPackage>,
                   checkDay: Date, answerDay: Date, answer: Answer)
    requires Valid(checkDay) && Valid(answerDay)
    requires GetLatestVersion(tags, conda).Yielded?
    ensures var r := Check(Init(record), installed, tags, conda, checkDay, answerDay, answer);
            r.shown.Some? &&
            (r.shown.value.prompted <==>
               Newer(GetLatestVersion(tags, conda).version, installed) && !Fresh(Init(record), checkDay))
  {
  }

  /**
   Once the window has elapsed the record is deleted and, if the remote
   version is still newer, the dialog appears again.
   */
  lemma PromptReturnsAfterWindow(c: Checker, installed: Release, tags: Fetch<seq<TagItem>>, conda: Fetch<CondaPackage>,
                                 day: Date, later: Date, answerDay: Date, answer: Answer)
    requires Valid(day) && Valid(later) && Valid(answerDay)
    requires c.record == Some(IsoFormat(day))
    requires DaysBetween(later, day) >= IgnoreDays
    requires GetLatestVersion(tags, conda).Yielded? && Newer(GetLatestVersion(tags, conda).version, installed)
    ensures var r := Check(c, installed, tags, conda, later, answerDay, answer);
            && r.shown.Some? && r.shown.value.prompted
            && (answer == Ok ==> r.after == Checker(None, false))
  {
    IsoRoundTrip(day);
  }

  /**
   A record dated today or later (a clock set back, or a record copied from
   elsewhere) has a non-positive age, so it is always fresh and is kept.
   */
  lemma FutureRecordIsFresh(c: Checker, today: Date, recorded: Date)
    requires Valid(today) && Valid(recorded)
    requires c.record == Some(IsoFormat(recorded))
    requires !Before(recorded, today)
    ensures CheckTime(c, today) == TimeCheck(true, c.(snoozed := true))
  {
    IsoRoundTrip(recorded);
    DaysBetweenSign(today, recorded);
  }

  /** Checking twice on the same day changes nothing the second time. */
  lemma CheckTimeIdempotent(c: Checker, today: Date)
    requires Valid(today)
    ensures var t := CheckTime(c, today);
            CheckTime(t.after, today) == t
  {
  }

  /**
   `_snoozed` survives a missing or unreadable record: a widget snoozed by an
   earlier check keeps suppressing the dialog after the record disappears,
   although `_check_time` answers false.
   */
  lemma StaleFlagSuppressesPrompt(c: Checker, installed: Release, tags: Fetch<seq<TagItem>>, conda: Fetch<CondaPackage>,
                                  today: Date, answerDay: Date, answer: Answer)
    requires Valid(today) && Valid(answerDay)
    requires c.snoozed && !Readable(c)
    ensures !CheckTime(c, today).snoozed
    ensures var r := Check(c, installed, tags, conda, today, answerDay, answer);
            (r.shown.Some? ==> !r.shown.value.prompted) && r.after == Checker(None, true)
  {
  }
}
