/** The daily-quote scheduler. Time is in milliseconds since the epoch; the device's time zone
    is a fixed offset. `scheduleDailyQuote` works out how long until the next hour:minute:00
    and enqueues a one-day periodic job under a unique name; `cancelDailyQuote` cancels by
    unique name. WorkManager's registry of unique work is modelled as a map from name to job. */
module Scheduler {
  const MillisPerDay := 86_400_000
  const MillisPerHour := 3_600_000
  const MillisPerMinute := 60_000

  /** The unique work name the job is enqueued under. */
  const UniqueWorkName := "daily_quote_work"
  /** The tag the job carries, which is also the name `cancelDailyQuote` cancels. */
  const DailyQuoteTag := "daily_quote"

  /** A periodic work request: its period, its initial delay and its tags. */
  datatype PeriodicWork = PeriodicWork(periodMillis: int, initialDelayMillis: int, tags: set<string>)

  /** Milliseconds since local midnight. */
  function TimeOfDay(instant: int, zoneOffset: int): (t: int)
    ensures 0 <= t < MillisPerDay
  {
    (instant + zoneOffset) % MillisPerDay
  }

  /** Local midnight of the day `instant` falls in. */
  function DayStart(instant: int, zoneOffset: int): (start: int)
    ensures start <= instant < start + MillisPerDay
    ensures TimeOfDay(start, zoneOffset) == 0
  {
    var start := instant - TimeOfDay(instant, zoneOffset);
    DayStartIsMidnight(instant, zoneOffset);
    start
  }

  lemma DayStartIsMidnight(instant: int, zoneOffset: int)
    ensures TimeOfDay(instant - TimeOfDay(instant, zoneOffset), zoneOffset) == 0
  {
    var x := instant + zoneOffset;
    assert x == MillisPerDay * (x / MillisPerDay) + x % MillisPerDay;
    ShiftedTimeOfDay(instant - TimeOfDay(instant, zoneOffset), zoneOffset, x / MillisPerDay, 0);
  }

  /** An instant that is `c` milliseconds past some local midnight has time of day `c`. */
  lemma ShiftedTimeOfDay(instant: int, zoneOffset: int, days: int, c: int)
    requires 0 <= c < MillisPerDay
    requires instant + zoneOffset == MillisPerDay * days + c
    ensures TimeOfDay(instant, zoneOffset) == c
  {
  }

  /** `target`: a fresh calendar for today with HOUR_OF_DAY, MINUTE and SECOND set; the
      millisecond field keeps the clock's value. The calendar is lenient, so out-of-range
      fields carry into the next unit. */
  function Target(now: int, zoneOffset: int, hour: int, minute: int): (target: int)
  {
    DayStart(now, zoneOffset) + hour * MillisPerHour + minute * MillisPerMinute + TimeOfDay(now, zoneOffset) % 1000
  }

  predicate ValidTime(hour: int, minute: int) {
    0 <= hour < 24 && 0 <= minute < 60
  }

  /** The initial delay: until today's target, or tomorrow's when today's is already past.
      For a valid hour and minute it lies in [0, one day) and lands exactly on that time of day
      (the millisecond of the clock reading aside). */
  function InitialDelay(now: int, zoneOffset: int, hour: int, minute: int): (delay: int)
    ensures Target(now, zoneOffset, hour, minute) >= now ==> delay == Target(now, zoneOffset, hour, minute) - now
    ensures ValidTime(hour, minute) ==> 0 <= delay < MillisPerDay
    ensures ValidTime(hour, minute) ==>
      TimeOfDay(now + delay, zoneOffset) == hour * MillisPerHour + minute * MillisPerMinute + TimeOfDay(now, zoneOffset) % 1000
  {
    var target := Target(now, zoneOffset, hour, minute);
    var delay := if target < now then target + MillisPerDay - now else target - now;
    if ValidTime(hour, minute) then
      DelayLandsOnTime(now, zoneOffset, hour, minute, delay);
      delay
    else
      delay
  }

  lemma DelayLandsOnTime(now: int, zoneOffset: int, hour: int, minute: int, delay: int)
    requires ValidTime(hour, minute)
    requires delay == Target(now, zoneOffset, hour, minute) - now || delay == Target(now, zoneOffset, hour, minute) + MillisPerDay - now
    ensures TimeOfDay(now + delay, zoneOffset) == hour * MillisPerHour + minute * MillisPerMinute + TimeOfDay(now, zoneOffset) % 1000
  {
    var start := DayStart(now, zoneOffset);
    var c := hour * MillisPerHour + minute * MillisPerMinute + TimeOfDay(now, zoneOffset) % 1000;
    var x := start + zoneOffset;
    assert x == MillisPerDay * (x / MillisPerDay) + x % MillisPerDay;
    assert x % MillisPerDay == 0;
    if delay == Target(now, zoneOffset, hour, minute) - now {
      ShiftedTimeOfDay(now + delay, zoneOffset, x / MillisPerDay, c);
    } else {
      ShiftedTimeOfDay(now + delay, zoneOffset, x / MillisPerDay + 1, c);
    }
  }

  /** The job `scheduleDailyQuote` builds: repeat every day, first after `delay`, tagged. */
  function DailyQuoteWork(delay: int): PeriodicWork {
    PeriodicWork(MillisPerDay, delay, {DailyQuoteTag})
  }

  /** WorkManager's registry of unique periodic work. */
  class WorkManager {
    var uniqueWork: map<string, PeriodicWork>

    constructor ()
      ensures uniqueWork == map[]
    {
      uniqueWork := map[];
    }

    /** `enqueueUniquePeriodicWork` with the REPLACE policy: any job under `name` is replaced. */
    method EnqueueUniquePeriodicWorkReplace(name: string, work: PeriodicWork)
      modifies this
      ensures uniqueWork == old(uniqueWork)[name := work]
    {
      uniqueWork := uniqueWork[name := work];
    }

    /** `cancelUniqueWork`: cancels the job under `name`, if any; other names are untouched. */
    method CancelUniqueWork(name: string)
      modifies this
      ensures uniqueWork == old(uniqueWork) - {name}
    {
      uniqueWork := uniqueWork - {name};
    }
  }

  /** `scheduleDailyQuote`: exactly one daily job under the unique name, whatever was there
      before, and nothing else changes. */
  method ScheduleDailyQuote(wm: WorkManager, now: int, zoneOffset: int, hour: int, minute: int)
    modifies wm
    ensures wm.uniqueWork == old(wm.uniqueWork)[UniqueWorkName := DailyQuoteWork(InitialDelay(now, zoneOffset, hour, minute))]
    ensures ValidTime(hour, minute) ==> 0 <= wm.uniqueWork[UniqueWorkName].initialDelayMillis < MillisPerDay
  {
    var delay := InitialDelay(now, zoneOffset, hour, minute);
    wm.EnqueueUniquePeriodicWorkReplace(UniqueWorkName, DailyQuoteWork(delay));
  }

  /** `cancelDailyQuote` as written: cancels the unique work named "daily_quote", which is the
      job's tag, not its unique name. */
  method CancelDailyQuoteAsWritten(wm: WorkManager)
    modifies wm
    ensures wm.uniqueWork == old(wm.uniqueWork) - {DailyQuoteTag}
  {
    wm.CancelUniqueWork(DailyQuoteTag);
  }

  /** The registry after scheduling and then cancelling as written: the daily job is still
      there, unchanged. */
  lemma CancelAsWrittenKeepsDailyJob(registry: map<string, PeriodicWork>, delay: int)
    ensures var after := registry[UniqueWorkName := DailyQuoteWork(delay)] - {DailyQuoteTag};
      UniqueWorkName in after && after[UniqueWorkName] == DailyQuoteWork(delay)
  {
    assert UniqueWorkName != DailyQuoteTag by {
      assert |UniqueWorkName| != |DailyQuoteTag|;
    }
  }

  /** `cancelDailyQuote` corrected: cancels by the unique name the job was enqueued under. */
  method CancelDailyQuote(wm: WorkManager)
    modifies wm
    ensures wm.uniqueWork == old(wm.uniqueWork) - {UniqueWorkName}
    ensures UniqueWorkName !in wm.uniqueWork
  {
    wm.CancelUniqueWork(UniqueWorkName);
  }

  /** Scheduling and then cancelling with the corrected cancel leaves the registry as it was,
      less any earlier daily job. */
  lemma CancelUndoesSchedule(registry: map<string, PeriodicWork>, delay: int)
    ensures registry[UniqueWorkName := DailyQuoteWork(delay)] - {UniqueWorkName} == registry - {UniqueWorkName}
  {
  }
}
