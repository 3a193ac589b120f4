/** The `/scrim` creation wizard (commands/scrim.js and the wizard handlers of
    events/interactionCreate.js): entry, the basic-info form, the map menus,
    the server question and the publication of the post. The per-user
    in-progress data, `global.tempScrimData`, is the `SessionStore`. */
module Wizard {
  import opened Entities
  import opened Text
  import opened Chunking
  import Store
  import Notifier

  /** What a user has entered so far. `maps` and `hasServer` are missing until
      the matching step has been answered. */
  datatype Session = Session(teamName: string, division: string, date: string, time: string,
                             maps: Option<string>, hasServer: Option<bool>)

  // ---------------------------------------------------------------- entry and form

  /** One text input of a modal. */
  datatype TextInput = TextInput(customId: string, maxLength: Option<nat>, value: Option<string>)

  /** The `scrim_basic_info` modal. */
  datatype Form = Form(customId: string, inputs: seq<TextInput>)

  /** What `/scrim` shows: a choice between the saved profile and a new form,
      or the form straight away. */
  datatype Entry = OfferChoice(buttons: seq<string>) | ShowForm(form: Form)

  /** `startScrimCreation`: the four required inputs, with the team and division
      filled from the saved profile when the caller asked for it and one exists. */
  function StartScrimCreation(useProfile: bool, saved: Option<Profile>): (f: Form)
    ensures f.customId == "scrim_basic_info"
    ensures |f.inputs| == 4
    ensures f.inputs[0].customId == "team_name" && f.inputs[0].maxLength == Some(50)
    ensures f.inputs[1].customId == "division" && f.inputs[1].maxLength == Some(30)
    ensures f.inputs[2].customId == "scrim_date" && f.inputs[2].value.None?
    ensures f.inputs[3].customId == "scrim_time" && f.inputs[3].value.None?
    ensures useProfile && saved.Some? ==>
      f.inputs[0].value == Some(saved.value.teamName) && f.inputs[1].value == Some(saved.value.division)
    ensures !(useProfile && saved.Some?) ==> forall k :: 0 <= k < 4 ==> f.inputs[k].value.None?
  {
    var profile := if useProfile then saved else None;
    Form("scrim_basic_info", [
      TextInput("team_name", Some(50), if profile.Some? then Some(profile.value.teamName) else None),
      TextInput("division", Some(30), if profile.Some? then Some(profile.value.division) else None),
      TextInput("scrim_date", None, None),
      TextInput("scrim_time", None, None)])
  }

  /** `execute` of `/scrim`: with a saved profile the user chooses first; without
      one the empty form opens. */
  function Execute(saved: Option<Profile>): (e: Entry)
    ensures saved.Some? <==> e.OfferChoice?
    ensures e.OfferChoice? ==> e.buttons == ["use_profile", "new_scrim"]
    ensures e.ShowForm? ==> forall k :: 0 <= k < |e.form.inputs| ==> e.form.inputs[k].value.None?
  {
    if saved.Some? then OfferChoice(["use_profile", "new_scrim"])
    else ShowForm(StartScrimCreation(false, None))
  }

  // ---------------------------------------------------------------- map menus

  /** One string select menu. */
  datatype SelectMenu = SelectMenu(customId: string, options: seq<string>, minValues: nat, maxValues: nat)

  const MenuSize: nat := 25
  const MaxPicks: nat := 10

  function MenuId(k: nat): string {
    "map_select_" + Decimal(k)
  }

  function Min(a: nat, b: nat): nat {
    if a < b then a else b
  }

  /** The k-th menu: options `k * 25 ..`, one pick at least, at most ten and
      never more than it offers. */
  function MapMenu(catalog: seq<string>, k: nat): SelectMenu {
    var chunk := Piece(catalog, MenuSize, k);
    SelectMenu(MenuId(k), chunk, 1, Min(|chunk|, MaxPicks))
  }

  function OptionsOf(menus: seq<SelectMenu>): (r: seq<seq<string>>)
    ensures |r| == |menus|
    ensures forall k :: 0 <= k < |menus| ==> r[k] == menus[k].options
  {
    seq(|menus|, k requires 0 <= k < |menus| => menus[k].options)
  }

  /** The chunking loop of `handleMapSelection`. Every catalog name appears in
      exactly one menu, in catalog order; there are `ceil(n / 25)` menus, each
      with 1 to 25 options and a pick limit of `min(options, 10)`. */
  method BuildMapMenus(catalog: seq<string>) returns (menus: seq<SelectMenu>)
    ensures |menus| == (|catalog| + MenuSize - 1) / MenuSize
    ensures OptionsOf(menus) == Pieces(catalog, MenuSize)
    ensures Flatten(OptionsOf(menus)) == catalog
    ensures forall k :: 0 <= k < |menus| ==>
      && menus[k].customId == MenuId(k)
      && 1 <= |menus[k].options| <= MenuSize
      && menus[k].minValues == 1
      && menus[k].maxValues == Min(|menus[k].options|, MaxPicks)
      && 1 <= menus[k].maxValues <= MaxPicks
  {
    menus := [];
    var i := 0;
    while i < |catalog|
      invariant i == MenuSize * |menus|
      invariant i < |catalog| + MenuSize
      invariant forall k :: 0 <= k < |menus| ==> menus[k] == MapMenu(catalog, k)
    {
      var chunk := catalog[i .. if i + MenuSize <= |catalog| then i + MenuSize else |catalog|];
      assert chunk == Piece(catalog, MenuSize, |menus|);
      menus := menus + [SelectMenu(MenuId(i / MenuSize), chunk, 1, Min(|chunk|, MaxPicks))];
      i := i + MenuSize;
    }
    PieceCountBounds(|catalog|, MenuSize);
    PieceCountIsCeil(|catalog|, MenuSize);
    PiecesCount(catalog, MenuSize);
    PiecesSizes(catalog, MenuSize);
    PiecesFlatten(catalog, MenuSize);
    assert |menus| == PieceCount(|catalog|, MenuSize);
    forall k | 0 <= k < |menus| ensures OptionsOf(menus)[k] == Pieces(catalog, MenuSize)[k] {
      PieceAt(catalog, MenuSize, k);
    }
  }

  // ---------------------------------------------------------------- sessions

  /** The reply to the basic-info form. */
  datatype BasicInfoReply = MissingFields | NoMaps | ChooseMaps(menus: seq<SelectMenu>)

  /** The reply to a map pick or a server answer when no session is open. */
  datatype StepReply = SessionExpired | ChooseServer(buttons: seq<string>)

  /** How the outside world answers while the post is published: whether the
      configured channel exists, the id of the sent message (none when sending
      throws), the id of the started thread, whether the greeting in the thread
      goes through, and which alert recipients can be messaged. */
  datatype Discord = Discord(channelFound: bool, postedMessage: Option<MessageId>, thread: Option<string>,
                             greetingSent: bool, reachable: set<UserId>)

  /** The outcome of `createScrimPost`. */
  datatype PublishReply =
    | Expired
    | ChannelNotFound
    | PublishFailed
    | Published(messageId: MessageId, alerts: Notifier.Fanout)

  /** The steps that lead from a filled-in form to a stored scrim, in the order
      the source tries them; publication reaches the store only past all of them. */
  predicate ReachesStore(d: Discord) {
    d.channelFound && d.postedMessage.Some? && d.thread.Some?
  }

  /** The row `createScrim` is asked to store. */
  function RowFor(s: Session, hasServer: bool, d: Discord, owner: UserId, id: nat, now: int): Scrim
    requires d.postedMessage.Some? && d.thread.Some? && s.maps.Some?
  {
    Scrim(id, d.postedMessage.value, d.thread, s.teamName, s.division, s.date, s.time,
          s.maps.value, hasServer, owner, now, Active)
  }

  class SessionStore {
    /** `global.tempScrimData`, keyed by user id. */
    var sessions: map<UserId, Session>

    constructor ()
      ensures sessions == map[]
    {
      sessions := map[];
    }

    /** `handleScrimBasicInfo` followed by `handleMapSelection` of scrim.js:
        all four trimmed fields are required; with an empty catalog nothing is
        stored; otherwise the user's session is replaced by the new one and the
        map menus are shown. */
    method SubmitBasicInfo(user: UserId, teamName: string, division: string, date: string, time: string,
                           db: Store.Database) returns (r: BasicInfoReply)
      requires db.Valid()
      modifies this
      ensures var t, d, dt, tm := Trim(teamName), Trim(division), Trim(date), Trim(time);
        && (r.MissingFields? <==> (t == "" || d == "" || dt == "" || tm == ""))
        && (r.NoMaps? <==> (!r.MissingFields? && db.maps == []))
        && (r.ChooseMaps? ==> sessions == old(sessions)[user := Session(t, d, dt, tm, None, None)]
                              && Flatten(OptionsOf(r.menus)) == db.maps)
        && (!r.ChooseMaps? ==> sessions == old(sessions))
    {
      var t, d, dt, tm := Trim(teamName), Trim(division), Trim(date), Trim(time);
      if t == "" || d == "" || dt == "" || tm == "" {
        return MissingFields;
      }
      var catalog := db.AllMaps();
      if |catalog| == 0 {
        return NoMaps;
      }
      var menus := BuildMapMenus(catalog);
      sessions := sessions[user := Session(t, d, dt, tm, None, None)];
      r := ChooseMaps(menus);
    }

    /** `handleMapSelection` of interactionCreate.js: without a session the user
        is told it expired; otherwise the picks, joined with ", ", replace the
        session's maps and the server question follows. */
    method SelectMaps(user: UserId, values: seq<string>) returns (r: StepReply)
      modifies this
      ensures r.SessionExpired? <==> user !in old(sessions)
      ensures r.SessionExpired? ==> sessions == old(sessions)
      ensures r.ChooseServer? ==>
        && r.buttons == ["server_yes", "server_no"]
        && sessions == old(sessions)[user := old(sessions)[user].(maps := Some(Join(values, ", ")))]
    {
      if user !in sessions {
        return SessionExpired;
      }
      sessions := sessions[user := sessions[user].(maps := Some(Join(values, ", ")))];
      r := ChooseServer(["server_yes", "server_no"]);
    }

    /** `handleServerSelection` followed by `createScrimPost`: the answer is
        recorded in the session, then the post is published. The session is
        dropped only when every step succeeds; the row is stored once the
        message and thread exist, even when the greeting after it fails. */
    method SelectServer(user: UserId, hasServer: bool, db: Store.Database, d: Discord, now: int)
      returns (r: PublishReply)
      requires db.Valid()
      modifies this, db`scrims
      ensures db.Valid()
      ensures r.Expired? <==> user !in old(sessions)
      ensures r.Expired? ==> sessions == old(sessions) && db.scrims == old(db.scrims)
      ensures user in old(sessions) ==>
        var s := old(sessions)[user].(hasServer := Some(hasServer));
        var stored := ReachesStore(d) && s.maps.Some?
                      && !Store.HasMessageId(old(db.scrims), d.postedMessage.value);
        && (r.ChannelNotFound? <==> !d.channelFound)
        && (stored ==> db.scrims == old(db.scrims) + [RowFor(s, hasServer, d, user, |old(db.scrims)| + 1, now)])
        && (!stored ==> db.scrims == old(db.scrims))
        && (r.Published? <==> stored && d.greetingSent)
        && (r.Published? ==> sessions == old(sessions) - {user}
                             && r.messageId == d.postedMessage.value
                             && r.alerts.attempted == Notifier.Recipients(user, Store.EnabledUsers(db.alertRows)))
        && (!r.Published? ==> sessions == old(sessions)[user := s])
      ensures Store.Evolves(old(db.scrims), db.scrims)
    {
      if user !in sessions {
        return Expired;
      }
      var s := sessions[user].(hasServer := Some(hasServer));
      sessions := sessions[user := s];
      if !d.channelFound {
        return ChannelNotFound;
      }
      if d.postedMessage.None? || d.thread.None? {
        return PublishFailed;
      }
      var inserted := db.CreateScrim(d.postedMessage.value, d.thread, s.teamName, s.division, s.date, s.time,
                                     s.maps, hasServer, user, now);
      if inserted.InsertFailed? || !d.greetingSent {
        return PublishFailed;
      }
      var alerts := Notifier.NotifyInterestedUsers(user, db.UsersWithAlertsEnabled(), d.reachable);
      sessions := sessions - {user};
      r := Published(d.postedMessage.value, alerts);
    }
  }
}
