/** The one-shot reminder the add branch of saving arms: the delay from now
    until the reminder's time today, and the guard that only arms it when the
    delay is positive and shorter than a day. */
module Scheduler {
  import opened Optional
  import opened Reminders

  const MsPerMinute: int := 60 * 1000
  const MsPerHour: int := 60 * MsPerMinute
  /** `24 * 60 * 60 * 1000`. */
  const MsPerDay: int := 24 * MsPerHour

  /** A time the time input can hold: 00:00 .. 23:59. */
  predicate ValidTime(t: TimeOfDay)
  {
    0 <= t.hour < 24 && 0 <= t.minute < 60
  }

  /** A clock reading as milliseconds since local midnight. */
  predicate ValidNow(nowMs: int)
  {
    0 <= nowMs < MsPerDay
  }

  /** Milliseconds since local midnight of `t` (`setHours(h, min, 0, 0)`);
      `setHours` rolls out-of-range fields over, which this sum matches. */
  function TimeOfDayMs(t: TimeOfDay): (ms: int)
    ensures ValidTime(t) ==> 0 <= ms < MsPerDay
    ensures ValidTime(t) ==> ms / MsPerHour == t.hour && ms % MsPerHour / MsPerMinute == t.minute
  {
    t.hour * MsPerHour + t.minute * MsPerMinute
  }

  /** `msUntil = triggerTime - Date.now()`: waiting that long from `nowMs`
      reaches the reminder's time; for a valid time and clock reading it is
      less than a day either way. */
  function MsUntil(t: TimeOfDay, nowMs: int): (ms: int)
    ensures nowMs + ms == TimeOfDayMs(t)
    ensures ValidTime(t) && ValidNow(nowMs) ==> -MsPerDay < ms < MsPerDay
  {
    TimeOfDayMs(t) - nowMs
  }

  /** A timer the page arms: it fires after `delayMs` with the name and dose
      captured when it was armed. */
  datatype Alarm = Alarm(delayMs: int, name: string, dose: string)

  /** The guard `msUntil > 0 && msUntil < 24 * 60 * 60 * 1000`: the timer is
      armed with delay `msUntil` exactly when the guard holds. */
  function ReminderAlarm(d: Draft, nowMs: int): (r: Option<Alarm>)
    ensures r.Some? <==> 0 < MsUntil(d.time, nowMs) < MsPerDay
    ensures r.Some? ==>
      r.value.delayMs == MsUntil(d.time, nowMs) && r.value.name == d.name && r.value.dose == d.dose
  {
    var ms := MsUntil(d.time, nowMs);
    if ms > 0 && ms < MsPerDay then Some(Alarm(ms, d.name, d.dose)) else None
  }

  /** For a valid time and clock reading the upper bound of the guard never
      bites: the alarm is armed exactly when the time is still ahead today,
      and it fires exactly at that time (now + delay = the reminder's time). A
      time already passed today arms nothing; nothing rolls over to tomorrow. */
  lemma ArmedIffLaterToday(d: Draft, nowMs: int)
    requires ValidTime(d.time) && ValidNow(nowMs)
    ensures ReminderAlarm(d, nowMs).Some? <==> nowMs < TimeOfDayMs(d.time)
    ensures ReminderAlarm(d, nowMs).Some? ==>
      nowMs + ReminderAlarm(d, nowMs).value.delayMs == TimeOfDayMs(d.time)
    ensures TimeOfDayMs(d.time) < MsPerDay
  {
    assert d.time.hour * MsPerHour <= 23 * MsPerHour;
    assert d.time.minute * MsPerMinute <= 59 * MsPerMinute;
  }

  /** At 09:00 a reminder for 08:00 arms nothing, and one for 10:00 arms a
      timer one hour ahead. */
  lemma NineOClockExamples(name: string, dose: string)
    ensures ReminderAlarm(Draft(name, dose, TimeOfDay(8, 0)), 9 * MsPerHour) == None
    ensures ReminderAlarm(Draft(name, dose, TimeOfDay(10, 0)), 9 * MsPerHour)
      == Some(Alarm(MsPerHour, name, dose))
  {
  }
}
