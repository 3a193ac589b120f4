# CS2 Scrim Finder: a verified model of the bot's core

CS2 Scrim Finder is a Discord bot. Teams use it to post requests for
practice matches ("scrims"), and other teams browse those posts and answer them.
This project models the part of the bot that keeps and changes state, in Dafny:

- **Creation wizard.** The `/scrim` flow has four steps: entry choice,
  basic-info form, map menus and server question. Work in progress is kept in
  a per-user session map. A step with no session is rejected as expired, and
  the session is deleted only after a successful publish.
- **Store.** The SQLite tables `scrims`, `maps`, `profiles` and
  `alert_preferences` are held in memory as sequences and maps, and carry
  their schema constraints as an invariant:
  - `message_id` is unique;
  - ids are row numbers;
  - the catalog is kept in name order;
  - there is one alert row per user.
- **Buttons under a post.** "Show interest" never changes a row. "Mark as
  filled" and "Cancel" move an active row to its final status, and only for
  the scrim's creator or a member of `ADMIN_IDS`.
- **Alert fan-out.** The first 50 opted-in users, minus the creator, are each
  messaged independently.
- **Reapers.** The scheduled `CleanupService`, guarded by its `isRunning`
  flag, marks expired scrims `auto_cleaned`. The `/scrimclear` confirm step
  marks them `cleaned`. Both run one per-scrim sweep in which
  `cleaned + errors` equals the number of candidates.
- **Small rules.** These cover:
  - `/scrimlist` pagination: 5 per page, with prev, next and refresh;
  - `/editmaps`: length 2 to 30 UTF-16 units (JavaScript's `.length`), duplicates and lookup ignoring case;
  - `/profile`: team name 2 to 50 UTF-16 units, division 2 to 30;
  - `/alert`: no stored preference reads as enabled.

Discord and the database engine are collaborators. Whatever they answer enters
as a parameter:

- a channel found or missing;
- the id of the posted message, or none when sending throws;
- the set of users who can be messaged;
- the set of message ids whose status write throws.

Time is an integer number of milliseconds, and `now` is a parameter.
Whether a scrim's free-text date and time lie in the past is the function
parameter `scheduledPast`.

One module per source file, plus four shared ones:

- `Entities`: the rows and identifiers.
- `Text`: JavaScript `trim`, ASCII `toLowerCase`, `split` and `join`,
  `.length` in UTF-16 units, decimal rendering, and the code-point order SQLite sorts names by.
- `Chunking`: the slicing shared by the map menus and the pages of the list.
- `Staleness`: the expiry rule.

State that the source changes in place is a class:

- `Store.Database`, with its tables;
- `Wizard.SessionStore`, for `global.tempScrimData`;
- `ScrimList.Lists`, for `global.scrimListPagination`;
- `Cleanup.CleanupService`, with its `isRunning` flag.

Each method states its new state. Three predicates and lemmas state what
holds of that state:

- `Store.Evolves`: rows are only appended, and a status only leaves `active`,
  once. This holds with each handler taken as one atomic step; see
  "## Left out".
- `ScrimList.WellFormed`: the stored page is one the list has.
- `EditMaps.NoCaseDuplicates`: no two map names are equal ignoring case.
  `/editmaps add` keeps it. Start-up seeding re-inserts the default maps by
  exact name, so it can break it (`EditMaps.SeedingCanBreakNoCaseDuplicates`).

## Model

| member | source | states |
|---|---|---|
| Store.Database.constructor | database/database.js:5-68 | A new database has empty scrim, profile and alert tables and a catalog holding exactly the nine default maps. |
| Store.Database.Init | database/database.js:61-68 | Seeding adds each default map unless present and leaves the other tables alone. The catalog afterwards is the old names plus the defaults, and seeding a catalog that already has them changes nothing. |
| Store.Database.InsertMapOrIgnore | database/database.js:66 | `INSERT OR IGNORE`: a new name is placed in name order; a stored name changes nothing. |
| Store.Database.CreateScrim | database/database.js:73-97 | The insert fails when maps is missing (NOT NULL) or the message id is already stored (UNIQUE), and then changes nothing. Otherwise it appends one row with the next id, the given fields, the insert time and status `active`. |
| Store.FindActive | database/database.js:99-110 | Returns a row only if it has the message id and is active. Returns none exactly when no row is both. |
| Store.Database.ActiveScrim | database/database.js:99-110 | `getActiveScrim` returns a stored row with that message id and status `active`, and nothing exactly when the table has no such row. |
| Store.Database.AllActiveScrims | database/database.js:112-122 | `getAllActiveScrims` holds exactly the table's active rows, each as often as stored, newest first. |
| Store.AllActiveSpec | database/database.js:112-122 | The listing holds exactly the active rows, each as often as stored, newest `created_at` first. |
| Store.NewestFirstSpec | database/database.js:115 | `ORDER BY created_at DESC` gives a permutation of its input that is sorted newest first. |
| Store.Expired | database/database.js:137-150 | A row is in the expiry query's result exactly when it is in the table and expired under `Staleness.IsExpired`. |
| Store.Database.ExpiredScrims | database/database.js:137-150 | `getExpiredScrims` returns exactly the stored rows that are expired at `now`, and no more rows than the table has. |
| Store.Database.UpdateScrimStatus | database/database.js:124-135 | Sets the status of the row with that message id, whatever its status was, and leaves every other row unchanged. Reports 1 change when the id is stored, 0 otherwise. |
| Store.CountUnique | database/database.js:124-135 | With unique message ids, an update by message id changes exactly one row or none. |
| Store.RetireActiveEvolves | database/database.js:124-135 | Moving an active row to a non-active status is an allowed change of the table. |
| Store.EvolvesTransitive | database/database.js:72-150 | Allowed changes compose: no sequence of operations deletes a row or revives a retired scrim. |
| Store.InsertByNameSorted | database/database.js:153-169 | Inserting a name keeps the catalog strictly sorted by name, so it stays free of duplicates. |
| Store.RemoveNameSorted | database/database.js:171-178 | Deleting a name keeps the order and removes exactly that name: one entry fewer if it was there, no change if not. |
| Store.SortedByNameUnique | database/database.js:153-160 | Two catalogs in name order with the same names are equal, so `ORDER BY name` fixes the listing. |
| Store.Database.AllMaps | database/database.js:153-160 | `getAllMaps` returns the catalog in strict name order. |
| Store.Database.AddMap | database/database.js:162-169 | A plain insert succeeds exactly when the name is not stored yet; the UNIQUE constraint rejects it otherwise and nothing changes. |
| Store.Database.RemoveMap | database/database.js:171-178 | Deletes exactly that name and reports 1 if it was stored, 0 otherwise. |
| Store.Database.GetProfile | database/database.js:181-188 | `getProfile` finds a profile exactly when one is stored for the user, and it is that one. |
| Store.Database.UpdateProfile | database/database.js:190-200 | `INSERT OR REPLACE` keyed by user: that user's profile becomes the given one and every other profile stays. |
| Store.AlertLookup | database/database.js:203-210 | A preference is found exactly when the table has a row for the user, and it is that row's value. |
| Store.Database.GetAlertPreference | database/database.js:203-210 | `getAlertPreference` finds a value exactly when a row for the user is stored, and the row holds that value. |
| Store.UpsertAlertSpec | database/database.js:212-222 | After the upsert the user's preference reads as the new value and every other user's reads as before. |
| Store.WithoutUserUnique | database/database.js:52-58 | Removing a user's row keeps the alert table at one row per user, the PRIMARY KEY. |
| Store.Database.SetAlertPreference | database/database.js:212-222 | The table keeps one row per user. The user's preference becomes the value, and every other user's is unchanged. |
| Store.EnabledUsers | database/database.js:224-234 | A user is returned exactly when a row for them says enabled. A user without a row is never returned. |
| Store.Database.UsersWithAlertsEnabled | database/database.js:224-234 | `getUsersWithAlertsEnabled` returns a user exactly when the table holds an enabled row for them. |
| Staleness.AsWrittenIsDayGranular | database/database.js:139-144 | The text comparison of `created_at` with the ISO cut-off holds exactly when the creation day is on or before the cut-off day. |
| Staleness.AsWrittenTakesSixDayOldScrim | database/database.js:139-144 | A scrim six days and ninety minutes old passes the comparison as written. |
| Staleness.AsWrittenBrackets | database/database.js:139-144 | The comparison as written takes every scrim over a week old, and none created more than a day after the cut-off. |
| Staleness.ExpiryRulesAgree | database/database.js:137-150 | The query as written takes every scrim the intended rule takes; whatever it takes, the intended rule takes one day later. |
| Staleness.ExpiryIsMonotone | database/database.js:137-150 | Under `Staleness.IsExpired` a scrim once expired stays expired at every later time. |
| Staleness.ExpiryExamples | database/database.js:137-150 | An active scrim eight days old is expired. An active scrim an hour old whose schedule is not past is not. |
| Notifier.Capped | commands/scrim.js:275-276 | The first 50 opted-in ids, in order: all of them when there are fewer. |
| Notifier.RecipientsSpec | commands/scrim.js:275-288 | At most 50 recipients, never the creator: exactly the capped ids other than the creator. |
| Notifier.PastCapIsSkipped | commands/scrim.js:275-276 | A user who appears only after the first 50 opted-in ids is never messaged, even when the creator takes one of the 50 slots. |
| Notifier.NotifyInterestedUsers | commands/scrim.js:255-292 | The loop attempts exactly the recipients, in order. Each is delivered exactly when reachable, and one failure does not stop the rest. |
| Wizard.Execute | commands/scrim.js:8-38 | With a saved profile the user is offered `use_profile` / `new_scrim` and no form opens. Without one the empty form opens. |
| Wizard.StartScrimCreation | commands/scrim.js:40-88 | Form `scrim_basic_info` has its four inputs and length limits. Team and division are prefilled only when asked and a profile exists; date and time never are. |
| Wizard.BuildMapMenus | commands/scrim.js:103-121 | There are ceil(n/25) menus, `map_select_k`, each holding 1 to 25 names. Together they list the catalog once, in order. Each menu allows 1 to min(options, 10) picks. |
| Wizard.SessionStore.SubmitBasicInfo | events/interactionCreate.js:163-189 | A blank trimmed field is rejected. An empty catalog gives an error. Either way the session map is untouched. Otherwise the user's session is replaced by the trimmed fields (last writer wins), and the menus cover the catalog. |
| Wizard.SessionStore.SelectMaps | events/interactionCreate.js:191-210 | No session means "Session expired" and no change. Otherwise the picks joined with ", " replace the session's maps, and the server question follows. |
| Wizard.SessionStore.SelectServer | commands/scrim.js:165-253 | No session means expired and no change. A missing channel stores nothing and keeps the session. A row with the session's fields is stored exactly when message, thread and insert all succeed. The session is deleted exactly when the post completes, and the alert recipients are then the fan-out of the stored preferences. |
| Buttons.AdminIds | events/interactionCreate.js:321 | An unset or empty `ADMIN_IDS` gives no admin. Otherwise it gives the comma-separated parts, untrimmed. |
| Buttons.AdminIdsRoundTrip | events/interactionCreate.js:321 | A list of comma-free ids written comma-joined is read back as exactly that list. |
| Buttons.AdminIdsLoseNothing | events/interactionCreate.js:321 | Re-joining the parts read from `ADMIN_IDS` gives the variable back. |
| Buttons.SpacedListMissesAdmin | events/interactionCreate.js:321 | With `ADMIN_IDS = "111, 222"`, user `222` is not an admin, because the parts are not trimmed. |
| Buttons.ShowInterest | events/interactionCreate.js:232-306 | Show interest is rejected exactly when no active scrim has the message id, or when the clicker is its creator. Otherwise it names the creator. Nothing is stored. |
| Buttons.ShowInterestOnRow | events/interactionCreate.js:232-251 | With unique message ids, the reply is decided by the row's own status and owner. |
| Buttons.Retire | events/interactionCreate.js:308-362 | A row that is not active gives "no longer active". A clicker who is neither the owner nor an admin is refused. In both cases nothing changes. Otherwise the row alone gets the target status, and a second click finds it inactive. |
| Buttons.RetiredIsInactive | events/interactionCreate.js:341 | After the status update no row with that message id is active. |
| Buttons.MarkFilled | events/interactionCreate.js:308-362 | On success the row's status becomes `filled`; otherwise nothing changes. |
| Buttons.CancelScrim | events/interactionCreate.js:364-427 | On success the row's status becomes `cancelled`; otherwise nothing changes. |
| Router.Route | events/interactionCreate.js:49-160 | Each handler is reached by its own custom ids and interaction kind: profile editing by `create_profile`/`edit_profile`, the cleanup decision by `cleanup_confirm`/`cleanup_cancel` with the id passed on, pagination by `scrimlist_<x>` with `<x>` passed on, the map step by any select id starting `map_select_`, the two modals by their ids, `show_interest`, `scrim_filled` and `cancel_scrim` each by its own id; `server_yes` alone records a server. Every other id, of every kind, is ignored. |
| Router.StartCreationButtons | events/interactionCreate.js:60-78 | `quick_scrim`, `quick_scrim_from_profile` and `use_profile`, and only those, start the wizard with prefill; `new_scrim` alone starts it without. |
| Router.ServerButtons | events/interactionCreate.js:80-84 | `server_yes` and `server_no` reach the server step, and only `server_yes` records a server. |
| Router.PaginationButtons | events/interactionCreate.js:102-108 | `scrimlist_<x>` dispatches action `<x>` unchanged. |
| Router.MapMenusRouteToSelection | events/interactionCreate.js:132-144 | Every menu the wizard builds reaches the map step. |
| Router.SelectRouting | events/interactionCreate.js:132-144 | A select menu reaches the map step exactly when its id starts with `map_select_`; any other is ignored. |
| Cleanup.ResolveChannelId | utils/cleanup.js:52-57 | A non-empty stored setting wins and a non-empty environment variable is the fallback. There is no channel id exactly when neither is present. |
| Cleanup.WrittenMembers | utils/cleanup.js:67-79 | A candidate's id is among the successful status writes exactly when its write does not throw. |
| Cleanup.Sweep | utils/cleanup.js:67-121 | Every candidate is tried in order, and `cleaned + errors` equals the number of candidates. Exactly the successful writes get the new status. Deletions are tried for the message, and for the thread only when one is recorded, whether or not they fail. |
| Cleanup.SweepOfExpiredEvolves | utils/cleanup.js:67-79 | Sweeping the expired rows is an allowed change of the table: it only retires active rows. |
| Cleanup.SweepLeavesOnlyFailures | utils/cleanup.js:67-79 | After a sweep of the expired rows, a row still expired is one whose status write failed. |
| Cleanup.SecondRunFindsNothing | utils/cleanup.js:41-79 | When every status write succeeds, the expiry query at the same moment finds nothing, so a second run has no candidate. |
| Cleanup.CleanupService.PerformCleanup | utils/cleanup.js:33-88 | While a run holds `isRunning` a call does nothing. The flag is clear again on every way out. With no candidates, a throwing channel lookup (caught), no channel id or no channel, no status changes. Otherwise the sweep marks `auto_cleaned`, and only rows whose write failed remain expired; with no failure none do. |
| Cleanup.CleanupService.PerformCleanupAsWritten | utils/cleanup.js:33-88 | With `getSetting` missing, a run changes no scrim: it ends with nothing expired or with the caught lookup error, exactly as candidates are absent or present, and the flag is clear afterwards. |
| Cleanup.CleanupService.OnSchedule | utils/cleanup.js:16-20 | A scheduled tick while a run is in progress is skipped and changes nothing. With a settings store that answers, the lookup never fails, and no channel id means neither the setting nor the environment variable is set. |
| Cleanup.CleanupService.CleanupStats | utils/cleanup.js:130-144 | The report is zeros when a query throws. Otherwise it gives the number of active and of expired scrims, with total their sum. |
| Cleanup.StatsCountExpiredTwice | utils/cleanup.js:130-144 | There are never more expired scrims than active ones, so `total` counts each expired scrim twice. |
| ScrimClear.Execute | commands/scrimclear.js:8-70 | A non-administrator is rejected first. With no expired scrim no buttons are offered, and the reply still shows the active count. Otherwise the first 10 expired scrims are listed, the rest counted, and confirm/cancel offered. |
| ScrimClear.HandleCleanupConfirmation | commands/scrimclear.js:72-152 | Cancel changes nothing. On confirm a throwing expiry query, or then a throwing channel lookup, gives "Cleanup Failed" and no change. Otherwise confirm re-queries the expired scrims and marks each `cleaned` even when the channel is missing, with `cleaned + errors` equal to their number; deletions happen only when the channel is found, and only rows whose write failed remain expired. |
| ScrimClear.HandleCleanupConfirmationAsWritten | commands/scrimclear.js:72-152 | With `getSetting` missing, confirm always replies "Cleanup Failed", even with nothing expired, and no scrim changes. |
| ScrimClear.HandleCleanupConfirmationWithSettings | commands/scrimclear.js:72-152 | With a settings store that answers, confirm sweeps exactly when the expiry query does not throw, and with no failed write nothing is left expired. |
| ScrimList.PrevPage | commands/scrimlist.js:116-118 | Previous goes one page back and never below page 0. |
| ScrimList.AsWrittenNextLeavesTheList | commands/scrimlist.js:119-131 | After a refresh to an empty list, Next is still enabled and moves to page -1. |
| ScrimList.NextStaysOnAPage | commands/scrimlist.js:119-121 | Corrected Next moves one page on until the last page and then stays, always on a page of the list. |
| ScrimList.RefreshedState | commands/scrimlist.js:122-131 | Refresh stores the reloaded list and its page count, keeps the page when it still exists and otherwise moves to the last page, so a state with a non-negative page becomes well-formed. |
| ScrimList.PageCount | commands/scrimlist.js:25 | The page count is ceil(n/5). |
| ScrimList.Render | commands/scrimlist.js:28-41 | Page p shows at most 5 items: item 5p+j numbered 5p+j+1, with the counts shown. It is non-empty when the list reaches that page. |
| ScrimList.EveryItemOnItsPage | commands/scrimlist.js:24-41 | Item i lies on page i/5, a page of the list, at place i%5, numbered i+1. |
| ScrimList.Lists.Execute | commands/scrimlist.js:8-99 | Shows page 0 of the active scrims. Navigation appears and state is stored only when there is more than one page. |
| ScrimList.Lists.HandlePagination | commands/scrimlist.js:101-194 | Missing state or a failed refresh gives an error and no change. Otherwise it applies prev, next or refresh, stores the state and renders it. Previous is disabled exactly on page 0, Next exactly on the last page. |
| ScrimList.ButtonsKeepPageOnList | commands/scrimlist.js:101-194 | Every button keeps a well-formed state well-formed: the page shown exists and is non-empty whenever the list is. |
| EditMaps.FindIgnoringCase | commands/editmaps.js:113-115 | Returns the first stored name equal to the query ignoring case, and none exactly when no name is. |
| EditMaps.AddMap | commands/editmaps.js:61-106 | Non-admins are rejected first. Then trimmed names outside 2..30 UTF-16 units are rejected, then names equal to a stored one ignoring case. Otherwise the trimmed name is inserted, the database insert never fails, and the catalog stays free of case-insensitive duplicates. |
| EditMaps.AstralNameLengthAllowed | commands/editmaps.js:62-71 | A name of one character outside the Basic Multilingual Plane is two units long and passes the length check. |
| EditMaps.SeedingCanBreakNoCaseDuplicates | database/database.js:61-68 | Seeding by exact name can break case-insensitive uniqueness: after "Mirage" is replaced by "mirage", the catalog seeding leaves holds both. |
| EditMaps.InsertKeepsNoCaseDuplicates | commands/editmaps.js:74-85 | Inserting a name that matches no stored one ignoring case keeps the catalog free of case-insensitive duplicates. |
| EditMaps.RemoveMap | commands/editmaps.js:108-151 | Non-admins are rejected. A name with no case-insensitive match gives not found and no change. Otherwise the stored spelling is deleted and the catalog shrinks by one. |
| EditMaps.ListMaps | commands/editmaps.js:153-187 | Lists the maps numbered 1..n in catalog order with the count; an empty catalog gives a message instead. |
| Profiles.ViewProfile | commands/profile.js:37-100 | With no profile only `create_profile` is offered. Otherwise the profile is shown with `edit_profile` and `quick_scrim`. |
| Profiles.EditProfile | commands/profile.js:102-146 | Form `edit_profile_modal` with team (max 50) and division (max 30), prefilled exactly when a profile exists. |
| Profiles.CheckProfile | commands/profile.js:148-168 | The trimmed team name is checked first (2..50 UTF-16 units), then the division (2..30). A valid pair is the trimmed values. |
| Profiles.AstralTeamNameRejected | commands/profile.js:154-160 | Twenty-six astral characters are within 50 characters but are 52 units, so the team name is refused. |
| Text.Utf16Length | commands/profile.js:154-160 | `.length` counts between one and two units per character: one each for text inside the Basic Multilingual Plane, two each for astral text. |
| Profiles.ResubmitKeepsProfile | commands/profile.js:148-171 | A saved profile resubmitted unchanged from the prefilled form is accepted as itself. |
| Profiles.SavedProfilePassesWizard | commands/profile.js:154-168 | A saved profile never trips the wizard's blank-field check on the team and division it prefills. |
| Profiles.HandleProfileModal | commands/profile.js:148-205 | Lengths are in UTF-16 units. An invalid submission is rejected and stores nothing. A valid one stores the trimmed profile for the user and offers `quick_scrim_from_profile`. |
| Alerts.SetAlerts | commands/alert.js:44-94 | `on`/`off` store true/false for the user alone. Status then reads that value, as stored and as delivered, and the user is in the fan-out list exactly when it is true. |
| Alerts.CheckStatus | commands/alert.js:95-128 | Status is the stored preference, or enabled when none is stored. |
| Alerts.EnabledUsersFollowLookup | database/database.js:224-234 | With one row per user, a user is in the fan-out list exactly when their stored preference is on. |
| Alerts.DeliveredStatusMatchesFanOut | database/database.js:224-234 | The corrected status says enabled exactly when the user is in the fan-out list, and agrees with `/alert status` wherever a row is stored. |
| Alerts.DefaultStatusIsNotDelivered | commands/alert.js:95-128 | A user without a stored row is told alerts are enabled, yet is not in the fan-out list. |

## Left out

- Discord rendering (embeds, colours, wording, emoji) is not modelled; only the decisions and the custom ids remain.
- Direct messages, thread messages and message edits are foreign calls. Each is an ok/fail parameter.
- The five-second `setTimeout` that archives a cancelled scrim's thread (events/interactionCreate.js:407-413) is not modelled.
- The cron schedule, the 30-second startup run and the one-second pause between scrims (utils/cleanup.js:10-31, 73) are timer plumbing. One pass is modelled, with the `isRunning` guard. The interleaving at `await` points is not: of two passes, and of a pass with the post buttons and `/scrimclear`. `updateScrimStatus` writes unconditionally (database/database.js:124-135), so a pass pausing between scrims, or a button handler between its read and its write, could overwrite `filled` with `auto_cleaned` or the reverse. `Store.Evolves` (a status leaves `active` once) holds only because each handler is one atomic step here.
- `manualCleanup` (utils/cleanup.js:124-128) only calls `performCleanup`, which `Cleanup.CleanupService.PerformCleanup` models.
- The SQLite engine is replaced by sequences and maps in rowid order. Rejections other than the modelled ones are not modelled. The modelled ones are NOT NULL, UNIQUE, a throwing status write in a sweep, and a throwing query in `ScrimClear.Execute`, `ScrimClear.HandleCleanupConfirmation`, `ScrimList.Lists.Execute`, `ScrimList.Lists.HandlePagination` and `Cleanup.CleanupService.CleanupStats`. The members below leave a throwing query out.
- `created_at` is the integer `now` passed at insert. Its one-second text granularity is followed only in `Staleness`. How SQLite orders rows with equal `created_at` is not specified, so the model orders them one fixed way.
- `datetime(scrim_date || ' ' || scrim_time)` on free text is the uninterpreted `scheduledPast`. For the `DD/MM/YYYY` format the form asks for, SQLite yields NULL and that half of the test never holds.
- The profile and alert timestamps (`created_at`, `updated_at`) are not modelled.
- `getSetting` has no storage in the Database class. The reapers take the lookup's outcome as the `channel` parameter: the as-written runs pass the throwing lookup, and the corrected ones pass `Cleanup.ResolveChannelId` of the `setting` parameter. This is the third finding below.
- `Text.Lower` folds ASCII letters only. JavaScript's full Unicode case mapping is not modelled, so names that differ only in non-ASCII case count as distinct here.
- Subcommand dispatch in `execute` of alert.js, profile.js and editmaps.js only picks the handler modelled above.
- commands/setup.js (channel configuration and permission checks), bot.js, deploy-commands.js, railway-deploy.js and events/ready.js are bootstrap and platform glue, not part of this model.
- Wizard.SessionStore.SubmitBasicInfo: a `getAllMaps` failure is not modelled.
- Wizard.SessionStore.SelectServer: the channel's identity is not modelled; it takes only whether the channel in `SCRIM_CHANNEL_ID` is cached. A failing alert query, which `notifyInterestedUsers` catches itself, is not modelled.
- Buttons.Retire: a status write that throws after the post was rewritten is not modelled, nor is a throwing `getActiveScrim` (events/interactionCreate.js:310, :366), caught at :355-360 and :420-425.
- Buttons.ShowInterest: a throwing `getActiveScrim` (events/interactionCreate.js:234), caught at :299-305 with an error reply, is not modelled.
- Profiles.ViewProfile: a throwing `getProfile` (commands/profile.js:39), caught at :93-98, is not modelled.
- Profiles.EditProfile: a throwing `getProfile` (commands/profile.js:104), caught at :139-145, is not modelled.
- EditMaps.AddMap: a throwing `getAllMaps` (commands/editmaps.js:74) is not modelled.
- EditMaps.RemoveMap: a throwing `getAllMaps` (commands/editmaps.js:112) is not modelled.
- EditMaps.ListMaps: a throwing `getAllMaps` (commands/editmaps.js:155), caught at :180-186, is not modelled.
- Alerts.CheckStatus: a throwing `getAlertPreference` (commands/alert.js:97), caught at :120-126, is not modelled.
- Wizard.Execute: a throwing `getProfile` (commands/scrim.js:10) is not modelled.
- Wizard.StartScrimCreation: a throwing `getProfile` (commands/scrim.js:41) is not modelled.
- Cleanup.CleanupService.PerformCleanup: a throwing `getExpiredScrims` (utils/cleanup.js:41), caught at :83-84 with the flag cleared at :85-87, is not modelled.
- Buttons.MarkFilled: the contract states only the table change. The conditions for it are those of `Buttons.Retire`.
- Buttons.CancelScrim: the contract states only the table change. The conditions for it are those of `Buttons.Retire`.
- Cleanup.CleanupService.OnSchedule: the contract states the guard and the lookup outcome only. The rest is that of `PerformCleanup`. It follows the corrected lookup of the third finding.
- Store.Expired: follows the corrected expiry rule of the first finding (`Staleness.IsExpired`, created more than seven days ago), not the day-granular text comparison the query performs; `Staleness.IsExpiredAsWritten` is the rule as written, and `Staleness.ExpiryRulesAgree` bounds the difference.
- Cleanup.CleanupService.PerformCleanup: uses the corrected expiry rule of the first finding. It takes the lookup outcome as a parameter, and the source as written is `PerformCleanupAsWritten` of the third finding.
- ScrimClear.HandleCleanupConfirmation: uses the corrected expiry rule of the first finding. It takes the lookup outcome as a parameter, and the source as written is `HandleCleanupConfirmationAsWritten` of the third finding.
- ScrimList.Lists.HandlePagination: follows the corrected Next of the second finding (`ScrimList.NextPage`, disabled on the last page that exists), not `min(totalPages - 1, currentPage + 1)`, which reaches page -1 after a refresh to an empty list.

## Findings

| source | as written | input that shows it | evidently intended | confidence | as-written member | corrected member |
|---|---|---|---|---|---|---|
| database/database.js:139-144 | `created_at < ?` compares SQLite's `YYYY-MM-DD HH:MM:SS` text with an ISO `YYYY-MM-DDTHH:MM:SS.sssZ` cut-off. On the cut-off's day the space sorts before `T`, so the test is day-granular. | created 23:00 on day 10, checked 00:30 on day 17: six days and ninety minutes old, yet taken as expired | created more than seven days ago | high; not executed | Staleness.AsWrittenTakesSixDayOldScrim | Staleness.ExpiryExamples |
| commands/scrimlist.js:119-121 | Next is `min(totalPages - 1, currentPage + 1)`, and it is disabled only when `currentPage === totalPages - 1` | a two-page list whose scrims are all retired: Refresh gives page 0 of 0 with Next enabled, and Next moves to page -1 | Next stays within the list's pages | high; not executed | ScrimList.AsWrittenNextLeavesTheList | ScrimList.NextStaysOnAPage |
| utils/cleanup.js:52 | `database.getSetting` is called, but the Database class defines no such method, so both reapers throw before the sweep (also commands/scrimclear.js:90) | any run with an expired scrim, with `SCRIM_CHANNEL_ID` set | the stored setting, or else the environment variable | high; not executed | Cleanup.CleanupService.PerformCleanupAsWritten | Cleanup.ResolveChannelId |
| commands/alert.js:98 | a user without a stored preference is told alerts are enabled and that they receive DM notifications, but `getUsersWithAlertsEnabled` (database/database.js:224-234) selects only stored rows with `alerts_enabled = 1` | a user who never ran `/alert`: `/alert status` says ENABLED, yet no new scrim is sent to them | the status reports what the fan-out delivers | medium; not executed | Alerts.DefaultStatusIsNotDelivered | Alerts.DeliveredStatusMatchesFanOut |
