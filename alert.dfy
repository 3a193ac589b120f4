/** `/alert on|off|status` (commands/alert.js): whether a user wants a direct
    message for every new scrim. */
module Alerts {
  import opened Entities
  import Store

  /** `enableAlerts` and `disableAlerts`: one upsert of the user's preference. */
  method SetAlerts(user: UserId, on: bool, db: Store.Database)
    requires db.Valid()
    modifies db`alertRows
    ensures db.Valid()
    ensures db.GetAlertPreference(user) == Some(on)
    ensures forall other :: other != user ==> db.GetAlertPreference(other) == old(db.GetAlertPreference(other))
    ensures CheckStatus(db.GetAlertPreference(user)) == on
    ensures DeliveredStatus(db.GetAlertPreference(user)) == on
    ensures on <==> user in db.UsersWithAlertsEnabled()
  {
    db.SetAlertPreference(user, on);
    EnabledUsersFollowLookup(db.alertRows, user);
  }

  /** `checkStatus`: the stored preference, or enabled when none is stored. */
  function CheckStatus(stored: Option<bool>): (enabled: bool)
    ensures stored.None? ==> enabled
    ensures stored.Some? ==> enabled == stored.value
  {
    if stored.Some? then stored.value else true
  }

  /** With one row per user, a user is in the fan-out list exactly when their
      stored preference is on. */
  lemma {:induction false} EnabledUsersFollowLookup(rows: seq<AlertRow>, user: UserId)
    requires Store.UniqueAlertUsers(rows)
    ensures user in Store.EnabledUsers(rows) <==> Store.AlertLookup(rows, user) == Some(true)
    decreases |rows|
  {
    if |rows| > 0 {
      var t := rows[1..];
      assert Store.UniqueAlertUsers(t) by {
        forall i, j | 0 <= i < j < |t| ensures t[i].user != t[j].user {
          assert t[i] == rows[i + 1] && t[j] == rows[j + 1];
        }
      }
      EnabledUsersFollowLookup(t, user);
      if rows[0].user == user {
        assert AlertRow(user, true) !in t by {
          forall k | 0 <= k < |t| ensures t[k].user != user {
            assert t[k] == rows[k + 1];
          }
        }
      }
    }
  }

  /** The status as the fan-out delivers it: enabled only by a stored row
      that says so. */
  function DeliveredStatus(stored: Option<bool>): bool {
    stored == Some(true)
  }

  /** The delivered status is what the fan-out does: a user is told alerts are
      enabled exactly when new scrims reach them. Wherever a row is stored it
      agrees with `CheckStatus`; the two differ only for users without one. */
  lemma DeliveredStatusMatchesFanOut(rows: seq<AlertRow>, user: UserId)
    requires Store.UniqueAlertUsers(rows)
    ensures DeliveredStatus(Store.AlertLookup(rows, user)) <==> user in Store.EnabledUsers(rows)
    ensures Store.AlertLookup(rows, user).Some? ==>
      DeliveredStatus(Store.AlertLookup(rows, user)) == CheckStatus(Store.AlertLookup(rows, user))
  {
    EnabledUsersFollowLookup(rows, user);
  }

  /** A user who never ran `/alert` is told alerts are enabled, yet the fan-out
      reads only stored rows that are on, so that user receives nothing. */
  lemma DefaultStatusIsNotDelivered(rows: seq<AlertRow>, user: UserId)
    requires Store.UniqueAlertUsers(rows) && Store.AlertLookup(rows, user).None?
    ensures CheckStatus(Store.AlertLookup(rows, user))
    ensures user !in Store.EnabledUsers(rows)
  {
    EnabledUsersFollowLookup(rows, user);
  }
}
