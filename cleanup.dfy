/** The reapers of expired scrims: the scheduled `CleanupService` of
    utils/cleanup.js and the confirm step of commands/scrimclear.js share the
    per-scrim sweep defined here. */
module Cleanup {
  import opened Entities
  import Store
  import Staleness

  // ---------------------------------------------------------------- channel id

  /** How the scrim channel id is found: `getSetting('SCRIM_CHANNEL_ID') ||
      process.env.SCRIM_CHANNEL_ID`. */
  datatype ChannelIdResult = LookupThrew | NoChannelId | ChannelId(id: string)

  /** The lookup as the Database class is written: it has no `getSetting`, so
      the left operand of `||` throws a TypeError and `env`, the right operand,
      is never evaluated. The parameter is kept to show what goes unread. */
  function ChannelIdAsWritten(env: Option<string>): ChannelIdResult {
    LookupThrew
  }

  /** The lookup with a settings store that answers: a stored, non-empty
      setting wins, the environment variable is the fallback. */
  function ResolveChannelId(setting: Option<string>, env: Option<string>): (r: ChannelIdResult)
    ensures r != LookupThrew
    ensures r.NoChannelId? <==> !Present(setting) && !Present(env)
    ensures Present(setting) ==> r == ChannelId(setting.value)
    ensures !Present(setting) && Present(env) ==> r == ChannelId(env.value)
    ensures r.ChannelId? ==> r.id != ""
  {
    if Present(setting) then ChannelId(setting.value)
    else if Present(env) then ChannelId(env.value)
    else NoChannelId
  }

  // ---------------------------------------------------------------- the sweep

  /** A message or thread the sweep tries to delete. A failed deletion is
      caught and logged; it never stops the sweep. */
  datatype Deletion = DeleteMessage(messageId: MessageId) | DeleteThread(threadId: string)

  /** The deletions tried for one scrim: the post, then its thread when one is recorded. */
  function DeletionsFor(row: Scrim): seq<Deletion> {
    [DeleteMessage(row.messageId)] + (if Present(row.threadId) then [DeleteThread(row.threadId.value)] else [])
  }

  function DeletionTrace(rows: seq<Scrim>): seq<Deletion>
    decreases |rows|
  {
    if |rows| == 0 then [] else DeletionTrace(rows[..|rows| - 1]) + DeletionsFor(rows[|rows| - 1])
  }

  /** The message ids whose status write succeeds, in sweep order. */
  function Written(candidates: seq<Scrim>, failing: set<MessageId>): seq<MessageId>
    decreases |candidates|
  {
    if |candidates| == 0 then []
    else
      var last := candidates[|candidates| - 1];
      Written(candidates[..|candidates| - 1], failing) + (if last.messageId in failing then [] else [last.messageId])
  }

  lemma {:induction false} WrittenMembers(candidates: seq<Scrim>, failing: set<MessageId>)
    ensures |Written(candidates, failing)| <= |candidates|
    ensures forall m :: m in Written(candidates, failing) <==>
      m !in failing && exists c :: c in candidates && c.messageId == m
    decreases |candidates|
  {
    if |candidates| > 0 {
      var init := candidates[..|candidates| - 1];
      WrittenMembers(init, failing);
      assert candidates == init + [candidates[|candidates| - 1]];
    }
  }

  function IdSet(ids: seq<MessageId>): set<MessageId> {
    set m | m in ids
  }

  /** Every row whose message id is in `ids` given `status`, the rest untouched. */
  function SetStatusWhere(rows: seq<Scrim>, ids: set<MessageId>, status: Status): (r: seq<Scrim>)
    ensures |r| == |rows|
    ensures forall i :: 0 <= i < |rows| ==>
      r[i] == if rows[i].messageId in ids then rows[i].(status := status) else rows[i]
  {
    seq(|rows|, i requires 0 <= i < |rows| =>
      if rows[i].messageId in ids then rows[i].(status := status) else rows[i])
  }

  lemma SetStatusWhereStep(rows: seq<Scrim>, ids: set<MessageId>, m: MessageId, status: Status)
    ensures Store.SetStatus(SetStatusWhere(rows, ids, status), m, status) == SetStatusWhere(rows, ids + {m}, status)
  {
  }

  /** The sweep of both reapers. For each candidate in order: the deletions
      (when a channel is at hand), then the status write; a candidate counts as
      cleaned when its write succeeds and as an error when it throws. */
  method Sweep(db: Store.Database, candidates: seq<Scrim>, failing: set<MessageId>, status: Status,
               withDeletions: bool) returns (cleaned: nat, errors: nat, deletions: seq<Deletion>)
    requires db.Valid()
    modifies db`scrims
    ensures db.Valid()
    ensures cleaned + errors == |candidates|
    ensures cleaned == |Written(candidates, failing)|
    ensures db.scrims == SetStatusWhere(old(db.scrims), IdSet(Written(candidates, failing)), status)
    ensures deletions == if withDeletions then DeletionTrace(candidates) else []
  {
    cleaned, errors, deletions := 0, 0, [];
    var i := 0;
    while i < |candidates|
      invariant 0 <= i <= |candidates|
      invariant db.Valid()
      invariant cleaned + errors == i
      invariant cleaned == |Written(candidates[..i], failing)|
      invariant db.scrims == SetStatusWhere(old(db.scrims), IdSet(Written(candidates[..i], failing)), status)
      invariant deletions == if withDeletions then DeletionTrace(candidates[..i]) else []
    {
      var scrim := candidates[i];
      assert candidates[..i + 1][..i] == candidates[..i];
      if withDeletions {
        deletions := deletions + DeletionsFor(scrim);
      }
      if scrim.messageId in failing {
        errors := errors + 1;
      } else {
        SetStatusWhereStep(old(db.scrims), IdSet(Written(candidates[..i], failing)), scrim.messageId, status);
        assert IdSet(Written(candidates[..i + 1], failing))
          == IdSet(Written(candidates[..i], failing)) + {scrim.messageId};
        var _ := db.UpdateScrimStatus(scrim.messageId, status);
        cleaned := cleaned + 1;
      }
      i := i + 1;
    }
    assert candidates[..i] == candidates;
  }

  /** The expired rows are active rows of the table, so a sweep over them only
      retires active scrims; candidates whose write failed stay active and
      expired for the next run. */
  lemma SweepOfExpiredEvolves(rows: seq<Scrim>, now: int, scheduledPast: string -> bool,
                              failing: set<MessageId>, status: Status)
    requires Store.UniqueMessageIds(rows) && status != Active
    ensures var after := SetStatusWhere(rows, IdSet(Written(Store.Expired(rows, now, scheduledPast), failing)), status);
      && Store.Evolves(rows, after)
      && forall i :: 0 <= i < |rows| && Staleness.IsExpired(rows[i], now, scheduledPast) ==>
           (after[i].status == status <==> rows[i].messageId !in failing)
  {
    var candidates := Store.Expired(rows, now, scheduledPast);
    var ids := IdSet(Written(candidates, failing));
    WrittenMembers(candidates, failing);
    forall i | 0 <= i < |rows| && rows[i].messageId in ids ensures rows[i].status == Active {
      var c :| c in candidates && c.messageId == rows[i].messageId;
      var j :| 0 <= j < |rows| && rows[j] == c;
      assert j == i;
    }
    forall i | 0 <= i < |rows| && Staleness.IsExpired(rows[i], now, scheduledPast) && rows[i].messageId !in failing
      ensures rows[i].messageId in ids
    {
      assert rows[i] in candidates;
    }
  }

  /** After a sweep over the expired rows, a row that is still expired is one
      whose status write failed: every other candidate left `active`. */
  lemma SweepLeavesOnlyFailures(rows: seq<Scrim>, now: int, scheduledPast: string -> bool,
                                failing: set<MessageId>, status: Status)
    requires status != Active
    ensures var after := SetStatusWhere(rows, IdSet(Written(Store.Expired(rows, now, scheduledPast), failing)), status);
      forall x :: x in Store.Expired(after, now, scheduledPast) ==> x.messageId in failing
  {
    var candidates := Store.Expired(rows, now, scheduledPast);
    var ids := IdSet(Written(candidates, failing));
    var after := SetStatusWhere(rows, ids, status);
    WrittenMembers(candidates, failing);
    forall x | x in Store.Expired(after, now, scheduledPast) ensures x.messageId in failing {
      var i :| 0 <= i < |after| && after[i] == x;
      assert rows[i].messageId !in ids;
      assert rows[i] in candidates;
    }
  }

  lemma NonEmptyHasFirst(s: seq<Scrim>)
    ensures s == [] || s[0] in s
  {
  }

  /** A pass whose status writes all succeed leaves nothing expired at the same
      moment, so running the reaper again finds no candidate. */
  lemma SecondRunFindsNothing(rows: seq<Scrim>, now: int, scheduledPast: string -> bool, status: Status)
    requires status != Active
    ensures Store.Expired(SetStatusWhere(rows, IdSet(Written(Store.Expired(rows, now, scheduledPast), {})), status),
                          now, scheduledPast) == []
  {
    var after := SetStatusWhere(rows, IdSet(Written(Store.Expired(rows, now, scheduledPast), {})), status);
    var left := Store.Expired(after, now, scheduledPast);
    SweepLeavesOnlyFailures(rows, now, scheduledPast, {}, status);
    NonEmptyHasFirst(left);
  }

  // ---------------------------------------------------------------- the service

  /** The replies of one scheduled run. */
  datatype RunResult =
    | AlreadyRunning
    | NothingExpired
    | LookupFailed
    | ChannelNotConfigured
    | ChannelMissing
    | Completed(cleaned: nat, errors: nat, deletions: seq<Deletion>)

  /** The statistics of `getCleanupStats`. */
  datatype Stats = Stats(active: nat, expired: nat, total: nat)

  class CleanupService {
    var isRunning: bool
    var database: Store.Database

    ghost predicate Valid()
      reads this, database
    {
      database.Valid()
    }

    constructor (db: Store.Database)
      requires db.Valid()
      ensures Valid() && database == db && !isRunning
    {
      database := db;
      isRunning := false;
    }

    /** `performCleanup`. A run that finds the flag set does nothing; otherwise
        it holds the flag for its whole duration and clears it on every way out.
        Expired scrims are looked up once. When the channel id lookup throws,
        the error is caught and nothing is touched; so too without a channel id
        or a channel the bot can see. Otherwise each candidate is swept and
        marked `auto_cleaned`, and afterwards only the candidates whose status
        write failed are still expired. `channel` is what the lookup
        `getSetting(...) || SCRIM_CHANNEL_ID` yields, `channels` the channels
        in the client's cache, `failing` the message ids whose status write
        throws. */
    method PerformCleanup(channel: ChannelIdResult, channels: set<string>,
                          failing: set<MessageId>, now: int, scheduledPast: string -> bool)
      returns (r: RunResult)
      requires Valid()
      modifies this`isRunning, database`scrims
      ensures Valid()
      ensures isRunning == old(isRunning)
      ensures old(isRunning) <==> r.AlreadyRunning?
      ensures var candidates := Store.Expired(old(database.scrims), now, scheduledPast);
        && (r.NothingExpired? <==> !old(isRunning) && candidates == [])
        && (r.LookupFailed? <==> !old(isRunning) && candidates != [] && channel.LookupThrew?)
        && (r.ChannelNotConfigured? <==> !old(isRunning) && candidates != [] && channel.NoChannelId?)
        && (r.ChannelMissing? <==> !old(isRunning) && candidates != [] && channel.ChannelId? && channel.id !in channels)
        && (r.Completed? ==>
              && r.cleaned + r.errors == |candidates|
              && r.cleaned == |Written(candidates, failing)|
              && r.deletions == DeletionTrace(candidates)
              && database.scrims == SetStatusWhere(old(database.scrims), IdSet(Written(candidates, failing)), AutoCleaned)
              && (forall x :: x in Store.Expired(database.scrims, now, scheduledPast) ==> x.messageId in failing))
        && (!r.Completed? ==> database.scrims == old(database.scrims))
      ensures r.Completed? && failing == {} ==> Store.Expired(database.scrims, now, scheduledPast) == []
      ensures Store.Evolves(old(database.scrims), database.scrims)
    {
      if isRunning {
        return AlreadyRunning;
      }
      isRunning := true;
      var candidates := database.ExpiredScrims(now, scheduledPast);
      if |candidates| == 0 {
        isRunning := false;
        return NothingExpired;
      }
      if channel.LookupThrew? {
        isRunning := false;
        return LookupFailed;
      }
      if channel.NoChannelId? {
        isRunning := false;
        return ChannelNotConfigured;
      }
      if channel.id !in channels {
        isRunning := false;
        return ChannelMissing;
      }
      SweepOfExpiredEvolves(database.scrims, now, scheduledPast, failing, AutoCleaned);
      SweepLeavesOnlyFailures(database.scrims, now, scheduledPast, failing, AutoCleaned);
      SecondRunFindsNothing(database.scrims, now, scheduledPast, AutoCleaned);
      var cleaned, errors, deletions := Sweep(database, candidates, failing, AutoCleaned, true);
      isRunning := false;
      r := Completed(cleaned, errors, deletions);
    }

    /** `performCleanup` with the channel id looked up as the source writes it:
        a run with candidates always ends in the caught lookup error, so no
        scrim is ever marked, even with `SCRIM_CHANNEL_ID` set. */
    method PerformCleanupAsWritten(env: Option<string>, channels: set<string>,
                                   failing: set<MessageId>, now: int, scheduledPast: string -> bool)
      returns (r: RunResult)
      requires Valid()
      modifies this`isRunning, database`scrims
      ensures Valid()
      ensures isRunning == old(isRunning)
      ensures database.scrims == old(database.scrims)
      ensures var candidates := Store.Expired(old(database.scrims), now, scheduledPast);
        && (r.AlreadyRunning? <==> old(isRunning))
        && (r.NothingExpired? <==> !old(isRunning) && candidates == [])
        && (r.LookupFailed? <==> !old(isRunning) && candidates != [])
    {
      r := PerformCleanup(ChannelIdAsWritten(env), channels, failing, now, scheduledPast);
    }

    /** The cron callback of `start`: it checks the flag itself before calling
        `performCleanup`, which checks it again. The channel id comes from the
        settings store, falling back to the environment, so the lookup never
        fails. */
    method OnSchedule(setting: Option<string>, env: Option<string>, channels: set<string>,
                      failing: set<MessageId>, now: int, scheduledPast: string -> bool)
      returns (r: RunResult)
      requires Valid()
      modifies this`isRunning, database`scrims
      ensures Valid()
      ensures isRunning == old(isRunning)
      ensures old(isRunning) ==> r.AlreadyRunning? && database.scrims == old(database.scrims)
      ensures !r.LookupFailed?
      ensures r.ChannelNotConfigured? ==> !Present(setting) && !Present(env)
      ensures Store.Evolves(old(database.scrims), database.scrims)
    {
      if isRunning {
        return AlreadyRunning;
      }
      r := PerformCleanup(ResolveChannelId(setting, env), channels, failing, now, scheduledPast);
    }

    /** `getCleanupStats`: counts of the two queries, or zeros when a query throws. */
    function CleanupStats(queriesThrow: bool, now: int, scheduledPast: string -> bool): (s: Stats)
      reads this, database
      ensures queriesThrow ==> s == Stats(0, 0, 0)
      ensures !queriesThrow ==> s.active == |Store.AllActive(database.scrims)|
                                && s.expired == |Store.Expired(database.scrims, now, scheduledPast)|
      ensures s.total == s.active + s.expired && s.expired <= s.active
    {
      if queriesThrow then Stats(0, 0, 0)
      else
        var active := |database.AllActiveScrims()|;
        var expired := |database.ExpiredScrims(now, scheduledPast)|;
        StatsCountExpiredTwice(database.scrims, now, scheduledPast);
        Stats(active, expired, active + expired)
    }
  }

  /** Expired scrims are also active scrims, never more of them than there are
      active ones, so the statistics' `total` counts each expired scrim twice. */
  lemma StatsCountExpiredTwice(rows: seq<Scrim>, now: int, scheduledPast: string -> bool)
    ensures |Store.Expired(rows, now, scheduledPast)| <= |Store.AllActive(rows)|
  {
    Store.AllActiveSpec(rows);
    ExpiredSubsequence(rows, now, scheduledPast);
    assert |Store.AllActive(rows)| == |multiset(Store.AllActive(rows))| == |multiset(Store.ActiveRows(rows))|
      == |Store.ActiveRows(rows)|;
  }

  lemma {:induction false} ExpiredSubsequence(rows: seq<Scrim>, now: int, scheduledPast: string -> bool)
    ensures |Store.Expired(rows, now, scheduledPast)| <= |Store.ActiveRows(rows)|
    decreases |rows|
  {
    if |rows| > 0 { ExpiredSubsequence(rows[1..], now, scheduledPast); }
  }
}
