/** The records the bot keeps: scrim rows, saved team profiles and alert
    preferences, with the identifiers and clock they are keyed by. */
module Entities {

  /** Discord snowflakes are carried around as text. */
  type UserId = string
  type MessageId = string

  datatype Option<T> = None | Some(value: T)

  /** The `status` column of a scrim row. */
  datatype Status = Active | Filled | Cancelled | Cleaned | AutoCleaned

  /** One row of the `scrims` table. `id` is the AUTOINCREMENT key, `threadId`
      the nullable `thread_id`, `createdAt` the insertion time in milliseconds. */
  datatype Scrim = Scrim(
    id: nat,
    messageId: MessageId,
    threadId: Option<string>,
    teamName: string,
    division: string,
    date: string,
    time: string,
    maps: string,
    hasServer: bool,
    owner: UserId,
    createdAt: int,
    status: Status)

  /** One row of the `profiles` table, without its timestamps. */
  datatype Profile = Profile(teamName: string, division: string)

  /** One row of the `alert_preferences` table, without its timestamp. */
  datatype AlertRow = AlertRow(user: UserId, enabled: bool)

  /** JavaScript truthiness of an optional text: absent and "" are both false. */
  predicate Present(s: Option<string>) {
    s.Some? && s.value != ""
  }

  const HourMs: int := 3_600_000
  const DayMs: int := 24 * HourMs
  /** `7 * 24 * 60 * 60 * 1000`, the staleness window. */
  const WeekMs: int := 7 * DayMs
}
