/** The three buttons under a published scrim (events/interactionCreate.js):
    show interest, mark as filled, cancel. */
module Buttons {
  import opened Entities
  import opened Text
  import Store

  /** `process.env.ADMIN_IDS ? process.env.ADMIN_IDS.split(',') : []`: the parts
      are not trimmed, and an unset or empty variable gives no admins. */
  function AdminIds(env: Option<string>): (r: seq<UserId>)
    ensures !Present(env) ==> r == []
    ensures Present(env) ==> |r| >= 1 && forall k :: 0 <= k < |r| ==> ',' !in r[k]
  {
    if Present(env) then Split(env.value, ',') else []
  }

  /** The variable written as the comma-joined list of admin ids is read back as
      exactly that list. */
  lemma AdminIdsRoundTrip(ids: seq<UserId>)
    requires |ids| >= 1 && Join(ids, ",") != ""
    requires forall k :: 0 <= k < |ids| ==> ',' !in ids[k]
    ensures AdminIds(Some(Join(ids, ","))) == ids
  {
    SplitJoin(ids, ',');
  }

  /** Reading the variable back and joining the parts again gives the variable. */
  lemma AdminIdsLoseNothing(env: string)
    requires env != ""
    ensures Join(AdminIds(Some(env)), ",") == env
  {
    JoinSplit(env, ',');
  }

  /** Spaces after the commas are kept: with `ADMIN_IDS = "111, 222"` the user
      `222` is not an admin. */
  lemma SpacedListMissesAdmin()
    ensures "222" !in AdminIds(Some("111, 222"))
  {
    var parts := ["111", " 222"];
    assert Join(parts, ",") == "111, 222" by {
      assert Join(parts, ",") == parts[0] + "," + Join(parts[1..], ",");
    }
    SplitJoin(parts, ',');
  }

  /** The gate of the filled and cancel buttons. */
  predicate MayRetire(row: Scrim, clicker: UserId, adminEnv: Option<string>) {
    row.owner == clicker || clicker in AdminIds(adminEnv)
  }

  /** The replies to "Show Interest". */
  datatype InterestReply = NotActive | OwnScrim | Interested(creator: UserId, dmsSent: bool)

  /** `handleShowInterest`: only an active scrim, and not its own creator; the
      two direct messages are attempted and their failure only changes the
      wording. Nothing is stored. */
  function ShowInterest(rows: seq<Scrim>, messageId: MessageId, clicker: UserId, dmsSucceed: bool): (r: InterestReply)
    ensures r.NotActive? <==> Store.FindActive(rows, messageId).None?
    ensures r.OwnScrim? <==> exists i :: (0 <= i < |rows|
      && rows[i].messageId == messageId && rows[i].status == Active && rows[i].owner == clicker
      && Store.FindActive(rows, messageId) == Some(rows[i]))
    ensures r.Interested? ==> (r.creator != clicker && r.dmsSent == dmsSucceed
      && exists i :: (0 <= i < |rows| && rows[i].messageId == messageId
           && rows[i].status == Active && rows[i].owner == r.creator))
  {
    match Store.FindActive(rows, messageId)
    case None => NotActive
    case Some(row) =>
      if row.owner == clicker then OwnScrim else Interested(row.owner, dmsSucceed)
  }

  /** With unique message ids, the interest reply is decided by the one row
      that carries the message id. */
  lemma ShowInterestOnRow(rows: seq<Scrim>, i: nat, clicker: UserId, dmsSucceed: bool)
    requires Store.UniqueMessageIds(rows) && i < |rows|
    ensures var r := ShowInterest(rows, rows[i].messageId, clicker, dmsSucceed);
      && (r.NotActive? <==> rows[i].status != Active)
      && (r.OwnScrim? <==> rows[i].status == Active && rows[i].owner == clicker)
  {
    FindActiveUnique(rows, i);
  }

  lemma FindActiveUnique(rows: seq<Scrim>, i: nat)
    requires Store.UniqueMessageIds(rows) && i < |rows|
    ensures Store.FindActive(rows, rows[i].messageId) == if rows[i].status == Active then Some(rows[i]) else None
  {
    var r := Store.FindActive(rows, rows[i].messageId);
    if r.Some? {
      var j :| 0 <= j < |rows| && rows[j] == r.value;
      assert j == i;
    }
  }

  /** The replies to "Mark as Filled" and "Cancel". `UpdateFailed` is the
      catch-all reply when rewriting the post throws; `Retired` says whether a
      notice goes to the scrim's thread. */
  datatype RetireReply = RowNotActive | NotAllowed | UpdateFailed | Retired(threadNotice: bool)

  /** `handleScrimFilled` and `handleCancelScrim`: the row must be active; the
      clicker must be its creator or an admin; the post is rewritten and the row
      given its new status, after which a second click finds it no longer active. */
  method Retire(db: Store.Database, messageId: MessageId, clicker: UserId, adminEnv: Option<string>,
                target: Status, postUpdated: bool) returns (r: RetireReply)
    requires db.Valid() && target != Active
    modifies db`scrims
    ensures db.Valid()
    ensures r.RowNotActive? <==> Store.FindActive(old(db.scrims), messageId).None?
    ensures r.NotAllowed? <==> (Store.FindActive(old(db.scrims), messageId).Some?
      && !MayRetire(Store.FindActive(old(db.scrims), messageId).value, clicker, adminEnv))
    ensures r.Retired? <==> (Store.FindActive(old(db.scrims), messageId).Some?
      && MayRetire(Store.FindActive(old(db.scrims), messageId).value, clicker, adminEnv) && postUpdated)
    ensures r.Retired? ==> (db.scrims == Store.SetStatus(old(db.scrims), messageId, target)
      && r.threadNotice == Present(Store.FindActive(old(db.scrims), messageId).value.threadId)
      && Store.FindActive(db.scrims, messageId).None?)
    ensures !r.Retired? ==> db.scrims == old(db.scrims)
    ensures Store.Evolves(old(db.scrims), db.scrims)
  {
    var found := db.ActiveScrim(messageId);
    if found.None? {
      return RowNotActive;
    }
    var row := found.value;
    if row.owner != clicker && clicker !in AdminIds(adminEnv) {
      return NotAllowed;
    }
    if !postUpdated {
      return UpdateFailed;
    }
    var i :| 0 <= i < |db.scrims| && db.scrims[i] == row;
    ActiveIsOnlyRow(db.scrims, i);
    Store.RetireActiveEvolves(db.scrims, messageId, target);
    var _ := db.UpdateScrimStatus(messageId, target);
    RetiredIsInactive(old(db.scrims), messageId, target);
    r := Retired(Present(row.threadId));
  }

  /** The active row found by message id is the only row with that id. */
  lemma ActiveIsOnlyRow(rows: seq<Scrim>, i: nat)
    requires Store.UniqueMessageIds(rows) && i < |rows| && rows[i].status == Active
    ensures forall j :: 0 <= j < |rows| && rows[j].messageId == rows[i].messageId ==> rows[j].status == Active
  {
    forall j | 0 <= j < |rows| && rows[j].messageId == rows[i].messageId ensures rows[j].status == Active {
      assert j == i;
    }
  }

  /** After the update no row with that message id is active. */
  lemma RetiredIsInactive(rows: seq<Scrim>, messageId: MessageId, target: Status)
    requires target != Active
    ensures Store.FindActive(Store.SetStatus(rows, messageId, target), messageId).None?
  {
  }

  /** "Mark as Filled". */
  method MarkFilled(db: Store.Database, messageId: MessageId, clicker: UserId, adminEnv: Option<string>,
                    postUpdated: bool) returns (r: RetireReply)
    requires db.Valid()
    modifies db`scrims
    ensures db.Valid()
    ensures r.Retired? ==> db.scrims == Store.SetStatus(old(db.scrims), messageId, Filled)
    ensures !r.Retired? ==> db.scrims == old(db.scrims)
    ensures Store.Evolves(old(db.scrims), db.scrims)
  {
    r := Retire(db, messageId, clicker, adminEnv, Filled, postUpdated);
  }

  /** "Cancel". The thread is also archived five seconds later, which the model
      does not follow. */
  method CancelScrim(db: Store.Database, messageId: MessageId, clicker: UserId, adminEnv: Option<string>,
                     postUpdated: bool) returns (r: RetireReply)
    requires db.Valid()
    modifies db`scrims
    ensures db.Valid()
    ensures r.Retired? ==> db.scrims == Store.SetStatus(old(db.scrims), messageId, Cancelled)
    ensures !r.Retired? ==> db.scrims == old(db.scrims)
    ensures Store.Evolves(old(db.scrims), db.scrims)
  {
    r := Retire(db, messageId, clicker, adminEnv, Cancelled, postUpdated);
  }
}
