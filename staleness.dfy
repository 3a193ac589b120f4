/** Which active scrims count as expired (database/database.js, getExpiredScrims).

    The source compares the stored `created_at` text, written by SQLite as
    `YYYY-MM-DD HH:MM:SS`, with a cut-off rendered by `toISOString()` as
    `YYYY-MM-DDTHH:MM:SS.sssZ`. Within four-digit years the date part of both
    orders like the day number, and on the same day the comparison is settled by
    the separator, ' ' (0x20) against 'T' (0x54), before the time of day is
    looked at. `TextBefore` below is that comparison on the three parts. */
module Staleness {
  import opened Entities

  /** A timestamp text as the character comparison sees it. */
  datatype Stamp = Stamp(day: int, sep: char, clock: int)

  /** The calendar day (UTC) of a millisecond time: floor division. */
  function DayOf(t: int): int {
    t / DayMs
  }

  /** Milliseconds since midnight. */
  function ClockOf(t: int): int {
    t % DayMs
  }

  /** `CURRENT_TIMESTAMP`: date, a space, the time to the second. */
  function SqliteText(t: int): Stamp {
    Stamp(DayOf(t), ' ', ClockOf(t) / 1000 * 1000)
  }

  /** `toISOString()`: date, a 'T', the time to the millisecond. */
  function IsoText(t: int): Stamp {
    Stamp(DayOf(t), 'T', ClockOf(t))
  }

  /** Character-by-character `<` of two timestamp texts. */
  predicate TextBefore(a: Stamp, b: Stamp) {
    || a.day < b.day
    || (a.day == b.day && (a.sep < b.sep || (a.sep == b.sep && a.clock < b.clock)))
  }

  /** `created_at < oneWeekAgo` exactly as the query writes it. */
  predicate CreatedBeforeCutoffAsWritten(createdAt: int, now: int) {
    TextBefore(SqliteText(createdAt), IsoText(now - WeekMs))
  }

  /** What the comparison evidently means: created more than seven days ago. */
  predicate CreatedOverAWeekAgo(createdAt: int, now: int) {
    createdAt < now - WeekMs
  }

  /** As written, the test only looks at the day: a scrim created on the same
      calendar day as the cut-off is always taken, whatever its time of day. */
  lemma AsWrittenIsDayGranular(createdAt: int, now: int)
    ensures CreatedBeforeCutoffAsWritten(createdAt, now) <==> DayOf(createdAt) <= DayOf(now - WeekMs)
  {
    assert ' ' < 'T';
  }

  /** Concretely: created at 23:00 on day 10 and checked at 00:30 on day 17, a
      scrim only six days and ninety minutes old is taken as expired. */
  lemma AsWrittenTakesSixDayOldScrim()
    ensures var createdAt, now := 10 * DayMs + 23 * HourMs, 17 * DayMs + HourMs / 2;
      CreatedBeforeCutoffAsWritten(createdAt, now)
      && !CreatedOverAWeekAgo(createdAt, now)
      && now - createdAt < 7 * DayMs
  {
    var createdAt, now := 10 * DayMs + 23 * HourMs, 17 * DayMs + HourMs / 2;
    assert DayOf(createdAt) == 10;
    assert DayOf(now - WeekMs) == 10;
    AsWrittenIsDayGranular(createdAt, now);
  }

  /** The text comparison never misses a scrim the intended rule takes, and it
      takes scrims at most one day early. */
  lemma AsWrittenBrackets(createdAt: int, now: int)
    ensures CreatedOverAWeekAgo(createdAt, now) ==> CreatedBeforeCutoffAsWritten(createdAt, now)
    ensures CreatedBeforeCutoffAsWritten(createdAt, now) ==> createdAt < now - WeekMs + DayMs
  {
    AsWrittenIsDayGranular(createdAt, now);
    var cutoff := now - WeekMs;
    assert DayOf(createdAt) * DayMs <= createdAt < DayOf(createdAt) * DayMs + DayMs;
    assert DayOf(cutoff) * DayMs <= cutoff < DayOf(cutoff) * DayMs + DayMs;
  }

  /** The expiry rule the model uses: still active, and either created more than
      a week ago or with a scheduled moment already past. The scheduled moment
      is SQLite's `datetime(scrim_date || ' ' || scrim_time) < datetime('now')`
      on free text; `scheduledPast` stands for it. */
  predicate IsExpired(row: Scrim, now: int, scheduledPast: string -> bool) {
    row.status == Active
    && (CreatedOverAWeekAgo(row.createdAt, now) || scheduledPast(row.date + " " + row.time))
  }

  /** The expiry query exactly as written, with the text comparison of
      `created_at`. */
  predicate IsExpiredAsWritten(row: Scrim, now: int, scheduledPast: string -> bool) {
    row.status == Active
    && (CreatedBeforeCutoffAsWritten(row.createdAt, now) || scheduledPast(row.date + " " + row.time))
  }

  /** The two rules differ by at most a day: the query as written takes every
      scrim the intended rule takes, and what it takes the intended rule takes
      one day later. */
  lemma ExpiryRulesAgree(row: Scrim, now: int, scheduledPast: string -> bool)
    ensures IsExpired(row, now, scheduledPast) ==> IsExpiredAsWritten(row, now, scheduledPast)
    ensures IsExpiredAsWritten(row, now, scheduledPast) ==> IsExpired(row, now + DayMs, scheduledPast)
  {
    AsWrittenBrackets(row.createdAt, now);
  }

  /** A scrim stays expired as time passes, as long as its schedule stays past. */
  lemma ExpiryIsMonotone(row: Scrim, now: int, later: int, scheduledPast: string -> bool)
    requires now <= later
    ensures IsExpired(row, now, scheduledPast) ==> IsExpired(row, later, scheduledPast)
  {
  }

  /** An active scrim eight days old is expired whatever its schedule says; an
      active scrim an hour old whose schedule is not past is not. */
  lemma ExpiryExamples(row: Scrim, now: int, scheduledPast: string -> bool)
    requires row.status == Active
    ensures row.createdAt <= now - 8 * DayMs ==> IsExpired(row, now, scheduledPast)
    ensures row.createdAt >= now - HourMs && !scheduledPast(row.date + " " + row.time)
      ==> !IsExpired(row, now, scheduledPast)
  {
  }
}
