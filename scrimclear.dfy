/** `/scrimclear` (commands/scrimclear.js): an administrator previews the
    expired scrims, then confirms or cancels the manual cleanup. */
module ScrimClear {
  import opened Entities
  import Store
  import Cleanup

  /** How many expired scrims the preview lists by name. */
  const PreviewSize: nat := 10

  /** The reply to `/scrimclear`. */
  datatype PreviewReply =
    | NotAdministrator
    | CheckFailed
    | NothingToClean(active: nat)
    | Preview(active: nat, expired: nat, listed: seq<Scrim>, more: nat, buttons: seq<string>)

  /** `execute`: administrators only; with no expired scrim there is nothing to
      confirm; otherwise the first ten expired scrims are listed, the rest
      counted, and the confirm and cancel buttons offered. Nothing is stored. */
  function Execute(isAdministrator: bool, queriesThrow: bool, rows: seq<Scrim>, now: int,
                   scheduledPast: string -> bool): (r: PreviewReply)
    ensures r.NotAdministrator? <==> !isAdministrator
    ensures r.CheckFailed? <==> isAdministrator && queriesThrow
    ensures r.NothingToClean? <==> isAdministrator && !queriesThrow && Store.Expired(rows, now, scheduledPast) == []
    ensures r.NothingToClean? ==> r.active == |Store.AllActive(rows)|
    ensures r.Preview? ==>
      var expired := Store.Expired(rows, now, scheduledPast);
      && r.expired == |expired| > 0
      && r.active == |Store.AllActive(rows)|
      && |r.listed| == (if |expired| < PreviewSize then |expired| else PreviewSize)
      && r.listed == expired[..|r.listed|]
      && |r.listed| + r.more == |expired|
      && r.buttons == ["cleanup_confirm", "cleanup_cancel"]
  {
    if !isAdministrator then NotAdministrator
    else if queriesThrow then CheckFailed
    else
      var expired := Store.Expired(rows, now, scheduledPast);
      var active := |Store.AllActive(rows)|;
      if |expired| == 0 then NothingToClean(active)
      else
        var listed := if |expired| <= PreviewSize then expired else expired[..PreviewSize];
        Preview(active, |expired|, listed, |expired| - |listed|, ["cleanup_confirm", "cleanup_cancel"])
  }

  /** The reply to the confirm and cancel buttons. */
  datatype DecisionReply =
    | CleanupCancelled
    | CleanupFailed
    | CleanupDone(cleaned: nat, errors: nat, deletions: seq<Cleanup.Deletion>)
    | NoReply

  /** `handleCleanupConfirmation`. Cancel removes nothing. Confirm looks the
      expired scrims up again, so it sweeps what is expired at that moment,
      not what the preview showed. When that query or then the channel id
      lookup throws, the error is caught and the "Cleanup Failed" reply sent,
      with nothing marked.
      Otherwise messages and threads are deleted only when the channel is
      found, but every expired scrim is marked `cleaned` either way, and
      afterwards only those whose write failed are still expired. `channel` is
      what `getSetting(...) || SCRIM_CHANNEL_ID` yields, `queryThrows` whether
      `getExpiredScrims` rejects. The buttons carry no
      permission check of their own: they are shown only to the administrator
      who ran the command. */
  method HandleCleanupConfirmation(action: string, db: Store.Database, queryThrows: bool,
                                   channel: Cleanup.ChannelIdResult,
                                   channels: set<string>, failing: set<MessageId>,
                                   now: int, scheduledPast: string -> bool) returns (r: DecisionReply)
    requires db.Valid()
    modifies db`scrims
    ensures db.Valid()
    ensures r.CleanupCancelled? <==> action == "cleanup_cancel"
    ensures r.CleanupFailed? <==> action == "cleanup_confirm" && (queryThrows || channel.LookupThrew?)
    ensures r.CleanupDone? <==> action == "cleanup_confirm" && !queryThrows && !channel.LookupThrew?
    ensures r.CleanupDone? ==>
      var candidates := Store.Expired(old(db.scrims), now, scheduledPast);
      var channelFound := channel.ChannelId? && channel.id in channels;
      && r.cleaned + r.errors == |candidates|
      && r.cleaned == |Cleanup.Written(candidates, failing)|
      && r.deletions == (if channelFound then Cleanup.DeletionTrace(candidates) else [])
      && db.scrims == Cleanup.SetStatusWhere(old(db.scrims), Cleanup.IdSet(Cleanup.Written(candidates, failing)), Cleaned)
      && (forall x :: x in Store.Expired(db.scrims, now, scheduledPast) ==> x.messageId in failing)
    ensures r.CleanupDone? && failing == {} ==> Store.Expired(db.scrims, now, scheduledPast) == []
    ensures !r.CleanupDone? ==> db.scrims == old(db.scrims)
    ensures Store.Evolves(old(db.scrims), db.scrims)
  {
    if action == "cleanup_cancel" {
      return CleanupCancelled;
    }
    if action != "cleanup_confirm" {
      return NoReply;
    }
    if queryThrows {
      return CleanupFailed;
    }
    var candidates := db.ExpiredScrims(now, scheduledPast);
    if channel.LookupThrew? {
      return CleanupFailed;
    }
    var channelFound := channel.ChannelId? && channel.id in channels;
    Cleanup.SweepOfExpiredEvolves(db.scrims, now, scheduledPast, failing, Cleaned);
    Cleanup.SweepLeavesOnlyFailures(db.scrims, now, scheduledPast, failing, Cleaned);
    Cleanup.SecondRunFindsNothing(db.scrims, now, scheduledPast, Cleaned);
    var cleaned, errors, deletions := Cleanup.Sweep(db, candidates, failing, Cleaned, channelFound);
    r := CleanupDone(cleaned, errors, deletions);
  }

  /** `handleCleanupConfirmation` with the channel id looked up as the source
      writes it: confirming always ends in "Cleanup Failed" and marks nothing,
      even when no scrim is expired. */
  method HandleCleanupConfirmationAsWritten(action: string, db: Store.Database, queryThrows: bool,
                                            env: Option<string>,
                                            channels: set<string>, failing: set<MessageId>,
                                            now: int, scheduledPast: string -> bool) returns (r: DecisionReply)
    requires db.Valid()
    modifies db`scrims
    ensures db.Valid()
    ensures db.scrims == old(db.scrims)
    ensures action == "cleanup_confirm" <==> r.CleanupFailed?
    ensures action == "cleanup_cancel" <==> r.CleanupCancelled?
  {
    r := HandleCleanupConfirmation(action, db, queryThrows, Cleanup.ChannelIdAsWritten(env), channels, failing,
                                   now, scheduledPast);
  }

  /** The same step with a settings store that answers: the lookup cannot
      throw, so confirming sweeps unless the expiry query throws. */
  method HandleCleanupConfirmationWithSettings(action: string, db: Store.Database, queryThrows: bool,
                                               setting: Option<string>,
                                               env: Option<string>, channels: set<string>, failing: set<MessageId>,
                                               now: int, scheduledPast: string -> bool) returns (r: DecisionReply)
    requires db.Valid()
    modifies db`scrims
    ensures db.Valid()
    ensures action == "cleanup_confirm" && !queryThrows <==> r.CleanupDone?
    ensures action == "cleanup_confirm" && queryThrows <==> r.CleanupFailed?
    ensures r.CleanupDone? && failing == {} ==> Store.Expired(db.scrims, now, scheduledPast) == []
    ensures Store.Evolves(old(db.scrims), db.scrims)
  {
    r := HandleCleanupConfirmation(action, db, queryThrows, Cleanup.ResolveChannelId(setting, env), channels, failing,
                                   now, scheduledPast);
  }
}
