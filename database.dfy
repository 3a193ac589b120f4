/** The SQLite store of database/database.js, with its four tables held in memory.
    Tables read in a fixed order are sequences in that order: `scrims` and
    `alertRows` in rowid order, `maps` in `ORDER BY name` order. */
module Store {
  import opened Entities
  import opened Text
  import Staleness

  /** The maps `init` seeds with `INSERT OR IGNORE`. */
  const DefaultMaps: seq<string> :=
    ["Mirage", "Dust2", "Inferno", "Cache", "Overpass", "Vertigo", "Ancient", "Anubis", "Nuke"]

  // ---------------------------------------------------------------- scrims

  /** `message_id TEXT UNIQUE`. */
  predicate UniqueMessageIds(rows: seq<Scrim>) {
    forall i, j :: 0 <= i < j < |rows| ==> rows[i].messageId != rows[j].messageId
  }

  /** `id INTEGER PRIMARY KEY AUTOINCREMENT` with no row ever deleted: row k has id k + 1. */
  predicate IdsAreRowNumbers(rows: seq<Scrim>) {
    forall i :: 0 <= i < |rows| ==> rows[i].id == i + 1
  }

  predicate HasMessageId(rows: seq<Scrim>, messageId: MessageId) {
    exists i :: 0 <= i < |rows| && rows[i].messageId == messageId
  }

  /** `SELECT * FROM scrims WHERE message_id = ? AND status = "active"`. */
  function FindActive(rows: seq<Scrim>, messageId: MessageId): (r: Option<Scrim>)
    ensures r.Some? ==> r.value in rows && r.value.messageId == messageId && r.value.status == Active
    ensures r.None? ==> forall i :: 0 <= i < |rows| ==> rows[i].messageId != messageId || rows[i].status != Active
    decreases |rows|
  {
    if |rows| == 0 then None
    else if rows[0].messageId == messageId && rows[0].status == Active then Some(rows[0])
    else FindActive(rows[1..], messageId)
  }

  /** Rows whose status is active, in table order. */
  function ActiveRows(rows: seq<Scrim>): (r: seq<Scrim>)
    ensures |r| <= |rows|
    ensures forall x :: x in r <==> x in rows && x.status == Active
    decreases |rows|
  {
    if |rows| == 0 then []
    else if rows[0].status == Active then [rows[0]] + ActiveRows(rows[1..])
    else ActiveRows(rows[1..])
  }

  predicate IsNewestFirst(rows: seq<Scrim>) {
    forall i, j :: 0 <= i < j < |rows| ==> rows[i].createdAt >= rows[j].createdAt
  }

  /** Places one row into a newest-first list. */
  function InsertNewestFirst(sorted: seq<Scrim>, x: Scrim): (r: seq<Scrim>)
    ensures multiset(r) == multiset(sorted) + multiset{x}
    decreases |sorted|
  {
    if |sorted| == 0 || x.createdAt >= sorted[0].createdAt then [x] + sorted
    else
      assert sorted == [sorted[0]] + sorted[1..];
      [sorted[0]] + InsertNewestFirst(sorted[1..], x)
  }

  lemma {:induction false} InsertNewestFirstSorted(sorted: seq<Scrim>, x: Scrim)
    requires IsNewestFirst(sorted)
    ensures IsNewestFirst(InsertNewestFirst(sorted, x))
    decreases |sorted|
  {
    if |sorted| > 0 && x.createdAt < sorted[0].createdAt {
      InsertNewestFirstSorted(sorted[1..], x);
      var rest := InsertNewestFirst(sorted[1..], x);
      forall k | 0 <= k < |rest| ensures sorted[0].createdAt >= rest[k].createdAt {
        assert rest[k] in multiset(rest);
        assert rest[k] == x || rest[k] in multiset(sorted[1..]);
      }
    }
  }

  /** `ORDER BY created_at DESC`, as an insertion sort. */
  function NewestFirst(rows: seq<Scrim>): (r: seq<Scrim>)
    decreases |rows|
  {
    if |rows| == 0 then [] else InsertNewestFirst(NewestFirst(rows[1..]), rows[0])
  }

  /** The ordering is a permutation of its input, newest first. */
  lemma {:induction false} NewestFirstSpec(rows: seq<Scrim>)
    ensures IsNewestFirst(NewestFirst(rows))
    ensures multiset(NewestFirst(rows)) == multiset(rows)
    decreases |rows|
  {
    if |rows| > 0 {
      NewestFirstSpec(rows[1..]);
      InsertNewestFirstSorted(NewestFirst(rows[1..]), rows[0]);
      assert rows == [rows[0]] + rows[1..];
    }
  }

  /** `getAllActiveScrims`: the active rows, newest `created_at` first. */
  function AllActive(rows: seq<Scrim>): seq<Scrim> {
    NewestFirst(ActiveRows(rows))
  }

  /** The listing holds exactly the active rows, each once, newest first. */
  lemma AllActiveSpec(rows: seq<Scrim>)
    ensures IsNewestFirst(AllActive(rows))
    ensures multiset(AllActive(rows)) == multiset(ActiveRows(rows))
    ensures forall x :: x in AllActive(rows) <==> x in rows && x.status == Active
  {
    NewestFirstSpec(ActiveRows(rows));
    forall x ensures x in AllActive(rows) <==> x in ActiveRows(rows) {
      assert x in AllActive(rows) <==> x in multiset(AllActive(rows));
    }
  }

  /** `getExpiredScrims`, read in rowid order. */
  function Expired(rows: seq<Scrim>, now: int, scheduledPast: string -> bool): (r: seq<Scrim>)
    ensures |r| <= |rows|
    ensures forall x :: x in r <==> x in rows && Staleness.IsExpired(x, now, scheduledPast)
    decreases |rows|
  {
    if |rows| == 0 then []
    else if Staleness.IsExpired(rows[0], now, scheduledPast) then [rows[0]] + Expired(rows[1..], now, scheduledPast)
    else Expired(rows[1..], now, scheduledPast)
  }

  /** `UPDATE scrims SET status = ? WHERE message_id = ?`. */
  function SetStatus(rows: seq<Scrim>, messageId: MessageId, status: Status): (r: seq<Scrim>)
    ensures |r| == |rows|
    ensures forall i :: 0 <= i < |rows| ==>
      r[i] == if rows[i].messageId == messageId then rows[i].(status := status) else rows[i]
  {
    seq(|rows|, i requires 0 <= i < |rows| =>
      if rows[i].messageId == messageId then rows[i].(status := status) else rows[i])
  }

  /** A row changed by nothing but its status. */
  predicate SameButStatus(a: Scrim, b: Scrim) {
    a.(status := b.status) == b
  }

  /** How the scrims table may change between two moments: rows are only ever
      appended, never removed, and a row's status only leaves `active`, for one
      terminal status, which it then keeps. */
  predicate Evolves(before: seq<Scrim>, after: seq<Scrim>) {
    && |before| <= |after|
    && forall i :: 0 <= i < |before| ==>
         SameButStatus(before[i], after[i])
         && (before[i].status == after[i].status || (before[i].status == Active && after[i].status != Active))
  }

  lemma EvolvesTransitive(a: seq<Scrim>, b: seq<Scrim>, c: seq<Scrim>)
    requires Evolves(a, b) && Evolves(b, c)
    ensures Evolves(a, c)
  {
    forall i | 0 <= i < |a| ensures SameButStatus(a[i], c[i]) {
      assert SameButStatus(a[i], b[i]) && SameButStatus(b[i], c[i]);
    }
  }

  /** Retiring a scrim that is active right now is a permitted change of the table. */
  lemma RetireActiveEvolves(rows: seq<Scrim>, messageId: MessageId, status: Status)
    requires UniqueMessageIds(rows)
    requires status != Active
    requires forall i :: 0 <= i < |rows| && rows[i].messageId == messageId ==> rows[i].status == Active
    ensures Evolves(rows, SetStatus(rows, messageId, status))
  {
  }

  /** The number of rows `SetStatus` changes, SQLite's `this.changes`. */
  function CountWithMessageId(rows: seq<Scrim>, messageId: MessageId): nat
    decreases |rows|
  {
    if |rows| == 0 then 0
    else (if rows[0].messageId == messageId then 1 else 0) + CountWithMessageId(rows[1..], messageId)
  }

  /** With unique message ids, an update by message id changes one row or none. */
  lemma {:induction false} CountUnique(rows: seq<Scrim>, messageId: MessageId)
    requires UniqueMessageIds(rows)
    ensures CountWithMessageId(rows, messageId) == if HasMessageId(rows, messageId) then 1 else 0
    decreases |rows|
  {
    if |rows| > 0 {
      var t := rows[1..];
      CountUnique(t, messageId);
      if rows[0].messageId == messageId {
        assert !HasMessageId(t, messageId) by {
          forall i | 0 <= i < |t| ensures t[i].messageId != messageId {
            assert t[i] == rows[i + 1];
          }
        }
      } else {
        assert HasMessageId(rows, messageId) <==> HasMessageId(t, messageId) by {
          forall i | 0 <= i < |t| ensures t[i] == rows[i + 1] { }
          if HasMessageId(rows, messageId) {
            var i :| 0 <= i < |rows| && rows[i].messageId == messageId;
            assert t[i - 1] == rows[i];
          }
        }
      }
    }
  }

  // ---------------------------------------------------------------- maps

  /** `ORDER BY name` with `name TEXT UNIQUE`: strictly increasing names. */
  predicate SortedByName(names: seq<string>) {
    forall i, j :: 0 <= i < j < |names| ==> Below(names[i], names[j])
  }

  /** The catalog after an insert of a name it lacks. */
  function InsertByName(names: seq<string>, x: string): (r: seq<string>)
    ensures |r| == |names| + 1
    ensures forall m :: m in r <==> m in names || m == x
    decreases |names|
  {
    if |names| == 0 || Below(x, names[0]) then [x] + names
    else [names[0]] + InsertByName(names[1..], x)
  }

  lemma {:induction false} InsertByNameSorted(names: seq<string>, x: string)
    requires SortedByName(names) && x !in names
    ensures SortedByName(InsertByName(names, x))
    decreases |names|
  {
    var r := InsertByName(names, x);
    if |names| == 0 {
    } else if Below(x, names[0]) {
      forall j | 1 <= j < |r| ensures Below(x, r[j]) {
        if j > 1 { BelowTransitive(x, names[0], names[j - 1]); }
      }
    } else {
      assert x != names[0];
      BelowTotal(x, names[0]);
      InsertByNameSorted(names[1..], x);
      var rest := InsertByName(names[1..], x);
      forall j | 0 <= j < |rest| ensures Below(names[0], rest[j]) {
        assert rest[j] in names[1..] || rest[j] == x;
        if rest[j] != x {
          var k :| 0 <= k < |names[1..]| && names[1..][k] == rest[j];
          assert names[k + 1] == rest[j];
        }
      }
    }
  }

  /** The catalog after `DELETE FROM maps WHERE name = ?`. */
  function RemoveName(names: seq<string>, x: string): (r: seq<string>)
    ensures forall m :: m in r <==> m in names && m != x
    decreases |names|
  {
    if |names| == 0 then []
    else if names[0] == x then RemoveName(names[1..], x)
    else [names[0]] + RemoveName(names[1..], x)
  }

  lemma {:induction false} RemoveNameSorted(names: seq<string>, x: string)
    requires SortedByName(names)
    ensures SortedByName(RemoveName(names, x))
    ensures x in names ==> |RemoveName(names, x)| == |names| - 1
    ensures x !in names ==> RemoveName(names, x) == names
    decreases |names|
  {
    if |names| > 0 {
      var t := names[1..];
      RemoveNameSorted(t, x);
      var rest := RemoveName(t, x);
      forall j | 0 <= j < |rest| ensures Below(names[0], rest[j]) {
        assert rest[j] in rest;
        var k :| 0 <= k < |t| && t[k] == rest[j];
        assert names[k + 1] == rest[j];
      }
      if names[0] == x {
        assert x !in t by {
          forall k | 0 <= k < |t| ensures t[k] != x {
            assert names[k + 1] == t[k];
            BelowIrreflexive(x);
          }
        }
      }
    }
  }

  /** Two sorted catalogs with the same names are the same sequence. */
  lemma {:induction false} SortedByNameUnique(a: seq<string>, b: seq<string>)
    requires SortedByName(a) && SortedByName(b)
    requires forall m :: m in a <==> m in b
    ensures a == b
    decreases |a|
  {
    assert |a| == 0 <==> |b| == 0 by {
      if |a| > 0 { assert a[0] in b; }
      if |b| > 0 { assert b[0] in a; }
    }
    if |a| > 0 {
      assert a[0] == b[0] by {
        if a[0] != b[0] {
          SortedHeadFirst(a, b[0]);
          SortedHeadFirst(b, a[0]);
          BelowTransitive(a[0], b[0], a[0]);
          BelowIrreflexive(a[0]);
        }
      }
      forall m ensures m in a[1..] <==> m in b[1..] {
        SortedTailExcludesHead(a, m);
        SortedTailExcludesHead(b, m);
      }
      SortedByNameUnique(a[1..], b[1..]);
      assert a == [a[0]] + a[1..] && b == [b[0]] + b[1..];
    }
  }

  /** The first name of a sorted catalog comes before every other name in it. */
  lemma SortedHeadFirst(a: seq<string>, m: string)
    requires SortedByName(a) && m in a && m != a[0]
    ensures Below(a[0], m)
  {
    var k :| 0 <= k < |a| && a[k] == m;
  }

  lemma SortedTailExcludesHead(a: seq<string>, m: string)
    requires SortedByName(a) && |a| > 0
    ensures m in a[1..] <==> m in a && m != a[0]
  {
    BelowIrreflexive(a[0]);
    if m in a && m != a[0] {
      var k :| 0 <= k < |a| && a[k] == m;
      assert a[1..][k - 1] == m;
    }
    if m in a[1..] {
      var k :| 0 <= k < |a| - 1 && a[1..][k] == m;
      assert Below(a[0], a[k + 1]);
    }
  }

  // ---------------------------------------------------------------- alerts

  predicate UniqueAlertUsers(rows: seq<AlertRow>) {
    forall i, j :: 0 <= i < j < |rows| ==> rows[i].user != rows[j].user
  }

  /** `SELECT * FROM alert_preferences WHERE user_id = ?`. */
  function AlertLookup(rows: seq<AlertRow>, user: UserId): (r: Option<bool>)
    ensures r.Some? <==> exists i :: 0 <= i < |rows| && rows[i].user == user
    ensures r.Some? ==> AlertRow(user, r.value) in rows
    decreases |rows|
  {
    if |rows| == 0 then None
    else if rows[0].user == user then Some(rows[0].enabled)
    else AlertLookup(rows[1..], user)
  }

  /** The rows without the given user's row. */
  function WithoutUser(rows: seq<AlertRow>, user: UserId): (r: seq<AlertRow>)
    ensures forall x :: x in r <==> x in rows && x.user != user
    decreases |rows|
  {
    if |rows| == 0 then []
    else if rows[0].user == user then WithoutUser(rows[1..], user)
    else [rows[0]] + WithoutUser(rows[1..], user)
  }

  /** `INSERT OR REPLACE`: the old row for the key is deleted and a new one appended. */
  function UpsertAlert(rows: seq<AlertRow>, user: UserId, enabled: bool): seq<AlertRow> {
    WithoutUser(rows, user) + [AlertRow(user, enabled)]
  }

  lemma {:induction false} WithoutUserLookup(rows: seq<AlertRow>, user: UserId, other: UserId)
    requires other != user
    ensures AlertLookup(WithoutUser(rows, user), other) == AlertLookup(rows, other)
    decreases |rows|
  {
    if |rows| > 0 { WithoutUserLookup(rows[1..], user, other); }
  }

  lemma {:induction false} LookupAppend(rows: seq<AlertRow>, row: AlertRow, who: UserId)
    ensures AlertLookup(rows + [row], who)
      == if AlertLookup(rows, who).Some? then AlertLookup(rows, who)
         else if row.user == who then Some(row.enabled) else None
    decreases |rows|
  {
    if |rows| > 0 {
      assert (rows + [row])[1..] == rows[1..] + [row];
      LookupAppend(rows[1..], row, who);
    }
  }

  /** After an upsert the user's stored preference is the new one, every other
      user's is what it was, and there is still one row per user. */
  lemma UpsertAlertSpec(rows: seq<AlertRow>, user: UserId, enabled: bool, who: UserId)
    requires UniqueAlertUsers(rows)
    ensures UniqueAlertUsers(UpsertAlert(rows, user, enabled))
    ensures AlertLookup(UpsertAlert(rows, user, enabled), who)
      == if who == user then Some(enabled) else AlertLookup(rows, who)
  {
    var w := WithoutUser(rows, user);
    var r := UpsertAlert(rows, user, enabled);
    WithoutUserUnique(rows, user);
    assert AlertLookup(w, user).None? by {
      forall i | 0 <= i < |w| ensures w[i].user != user {
        assert w[i] in w;
      }
    }
    LookupAppend(w, AlertRow(user, enabled), who);
    if who != user { WithoutUserLookup(rows, user, who); }
    forall i, j | 0 <= i < j < |r| ensures r[i].user != r[j].user {
      if j == |r| - 1 { assert r[i] in w; }
    }
  }

  lemma {:induction false} WithoutUserUnique(rows: seq<AlertRow>, user: UserId)
    requires UniqueAlertUsers(rows)
    ensures UniqueAlertUsers(WithoutUser(rows, user))
    decreases |rows|
  {
    if |rows| > 0 {
      var t := rows[1..];
      assert UniqueAlertUsers(t) by {
        forall i, j | 0 <= i < j < |t| ensures t[i].user != t[j].user {
          assert t[i] == rows[i + 1] && t[j] == rows[j + 1];
        }
      }
      WithoutUserUnique(t, user);
      var rest := WithoutUser(t, user);
      forall k | 0 <= k < |rest| ensures rest[k].user != rows[0].user {
        var m :| 0 <= m < |t| && t[m] == rest[k];
        assert rows[m + 1] == t[m];
      }
    }
  }

  /** `SELECT user_id FROM alert_preferences WHERE alerts_enabled = true`. */
  function EnabledUsers(rows: seq<AlertRow>): (r: seq<UserId>)
    ensures forall u :: u in r <==> AlertRow(u, true) in rows
    decreases |rows|
  {
    if |rows| == 0 then []
    else
      assert forall x :: x in rows <==> x == rows[0] || x in rows[1..] by {
        assert rows == [rows[0]] + rows[1..];
      }
      if rows[0].enabled then [rows[0].user] + EnabledUsers(rows[1..]) else EnabledUsers(rows[1..])
  }

  // ---------------------------------------------------------------- the store

  datatype InsertError = MapsMissing | DuplicateMessageId

  /** What `createScrim` resolves to: the new row id, or the constraint it broke. */
  datatype Inserted = Inserted(id: nat) | InsertFailed(error: InsertError)

  class Database {
    var scrims: seq<Scrim>
    var maps: seq<string>
    var profiles: map<UserId, Profile>
    var alertRows: seq<AlertRow>

    /** The table constraints of the schema. */
    ghost predicate Valid()
      reads this
    {
      && UniqueMessageIds(scrims)
      && IdsAreRowNumbers(scrims)
      && SortedByName(maps)
      && UniqueAlertUsers(alertRows)
    }

    /** A new database file: empty tables, then `init` seeds the default maps. */
    constructor ()
      ensures Valid()
      ensures scrims == [] && profiles == map[] && alertRows == []
      ensures forall m :: m in maps <==> m in DefaultMaps
    {
      scrims, maps, profiles, alertRows := [], [], map[], [];
      new;
      Init();
    }

    /** `init`: `INSERT OR IGNORE` of every default map, leaving other tables alone.
        Seeding a catalog that already holds the defaults changes nothing. */
    method Init()
      requires Valid()
      modifies this
      ensures Valid()
      ensures scrims == old(scrims) && profiles == old(profiles) && alertRows == old(alertRows)
      ensures forall m :: m in maps <==> m in old(maps) || m in DefaultMaps
      ensures (forall d :: d in DefaultMaps ==> d in old(maps)) ==> maps == old(maps)
    {
      var k := 0;
      while k < |DefaultMaps|
        invariant 0 <= k <= |DefaultMaps|
        invariant Valid()
        invariant scrims == old(scrims) && profiles == old(profiles) && alertRows == old(alertRows)
        invariant forall m :: m in maps <==> m in old(maps) || m in DefaultMaps[..k]
      {
        var _ := InsertMapOrIgnore(DefaultMaps[k]);
        assert DefaultMaps[..k + 1] == DefaultMaps[..k] + [DefaultMaps[k]];
        k := k + 1;
      }
      assert DefaultMaps[..k] == DefaultMaps;
      if forall d :: d in DefaultMaps ==> d in old(maps) {
        SortedByNameUnique(maps, old(maps));
      }
    }

    /** `INSERT OR IGNORE INTO maps (name) VALUES (?)`. */
    method InsertMapOrIgnore(name: string) returns (inserted: bool)
      requires Valid()
      modifies this`maps
      ensures Valid()
      ensures inserted == (name !in old(maps))
      ensures maps == if inserted then InsertByName(old(maps), name) else old(maps)
    {
      inserted := name !in maps;
      if inserted {
        InsertByNameSorted(maps, name);
        maps := InsertByName(maps, name);
      }
    }

    /** `addMap`: a plain INSERT, which the UNIQUE constraint rejects for a name already stored. */
    method AddMap(name: string) returns (ok: bool)
      requires Valid()
      modifies this`maps
      ensures Valid()
      ensures ok == (name !in old(maps))
      ensures maps == if ok then InsertByName(old(maps), name) else old(maps)
    {
      ok := InsertMapOrIgnore(name);
    }

    /** `removeMap`: deletes the row with exactly that name and reports how many went. */
    method RemoveMap(name: string) returns (changes: nat)
      requires Valid()
      modifies this`maps
      ensures Valid()
      ensures maps == RemoveName(old(maps), name)
      ensures changes == if name in old(maps) then 1 else 0
    {
      RemoveNameSorted(maps, name);
      changes := if name in maps then 1 else 0;
      maps := RemoveName(maps, name);
    }

    /** `getAllMaps`: the catalog in name order. */
    function AllMaps(): (r: seq<string>)
      requires Valid()
      reads this
      ensures SortedByName(r)
    {
      maps
    }

    /** `createScrim`: NOT NULL on `maps` and UNIQUE on `message_id` are enforced;
        a new row gets the next id, the clock's time and status `active`. */
    method CreateScrim(messageId: MessageId, threadId: Option<string>, teamName: string, division: string,
                       date: string, time: string, mapsText: Option<string>, hasServer: bool,
                       owner: UserId, now: int) returns (r: Inserted)
      requires Valid()
      modifies this`scrims
      ensures Valid()
      ensures r.InsertFailed? <==> mapsText.None? || HasMessageId(old(scrims), messageId)
      ensures r.InsertFailed? ==> scrims == old(scrims)
      ensures r.Inserted? ==> (r.id == |old(scrims)| + 1 && mapsText.Some?
        && scrims == old(scrims) + [Scrim(r.id, messageId, threadId, teamName, division, date, time,
                                          mapsText.value, hasServer, owner, now, Active)])
      ensures Evolves(old(scrims), scrims)
    {
      if mapsText.None? {
        return InsertFailed(MapsMissing);
      }
      if exists i :: 0 <= i < |scrims| && scrims[i].messageId == messageId {
        return InsertFailed(DuplicateMessageId);
      }
      var row := Scrim(|scrims| + 1, messageId, threadId, teamName, division, date, time,
                       mapsText.value, hasServer, owner, now, Active);
      scrims := scrims + [row];
      r := Inserted(row.id);
    }

    /** `getActiveScrim`. */
    function ActiveScrim(messageId: MessageId): (r: Option<Scrim>)
      reads this
      ensures r.Some? ==> r.value in scrims && r.value.messageId == messageId && r.value.status == Active
      ensures r.None? <==> forall i :: 0 <= i < |scrims| ==> scrims[i].messageId != messageId || scrims[i].status != Active
    {
      FindActive(scrims, messageId)
    }

    /** `updateScrimStatus`: whatever the row's current status; resolves to the
        number of rows changed. */
    method UpdateScrimStatus(messageId: MessageId, status: Status) returns (changes: nat)
      requires Valid()
      modifies this`scrims
      ensures Valid()
      ensures scrims == SetStatus(old(scrims), messageId, status)
      ensures changes == if HasMessageId(old(scrims), messageId) then 1 else 0
    {
      CountUnique(scrims, messageId);
      changes := CountWithMessageId(scrims, messageId);
      scrims := SetStatus(scrims, messageId, status);
    }

    /** `getAllActiveScrims`. */
    function AllActiveScrims(): (r: seq<Scrim>)
      reads this
      ensures IsNewestFirst(r)
      ensures forall x :: x in r <==> x in scrims && x.status == Active
      ensures multiset(r) == multiset(ActiveRows(scrims))
    {
      AllActiveSpec(scrims);
      AllActive(scrims)
    }

    /** `getExpiredScrims`. */
    function ExpiredScrims(now: int, scheduledPast: string -> bool): (r: seq<Scrim>)
      reads this
      ensures |r| <= |scrims|
      ensures forall x :: x in r <==> x in scrims && Staleness.IsExpired(x, now, scheduledPast)
    {
      Expired(scrims, now, scheduledPast)
    }

    /** `getProfile`. */
    function GetProfile(user: UserId): (r: Option<Profile>)
      reads this
      ensures r.Some? <==> user in profiles
      ensures r.Some? ==> r.value == profiles[user]
    {
      if user in profiles then Some(profiles[user]) else None
    }

    /** `updateProfile`: INSERT OR REPLACE keyed by user id. */
    method UpdateProfile(user: UserId, teamName: string, division: string)
      requires Valid()
      modifies this`profiles
      ensures Valid()
      ensures profiles == old(profiles)[user := Profile(teamName, division)]
    {
      profiles := profiles[user := Profile(teamName, division)];
    }

    /** `getAlertPreference`. */
    function GetAlertPreference(user: UserId): (r: Option<bool>)
      reads this
      ensures r.Some? <==> exists i :: 0 <= i < |alertRows| && alertRows[i].user == user
      ensures r.Some? ==> AlertRow(user, r.value) in alertRows
    {
      AlertLookup(alertRows, user)
    }

    /** `setAlertPreference`: INSERT OR REPLACE keyed by user id. */
    method SetAlertPreference(user: UserId, enabled: bool)
      requires Valid()
      modifies this`alertRows
      ensures Valid()
      ensures alertRows == UpsertAlert(old(alertRows), user, enabled)
      ensures GetAlertPreference(user) == Some(enabled)
      ensures forall other :: other != user ==> GetAlertPreference(other) == old(GetAlertPreference(other))
    {
      UpsertAlertSpec(alertRows, user, enabled, user);
      forall who ensures AlertLookup(UpsertAlert(alertRows, user, enabled), who)
        == if who == user then Some(enabled) else AlertLookup(alertRows, who) {
        UpsertAlertSpec(alertRows, user, enabled, who);
      }
      alertRows := UpsertAlert(alertRows, user, enabled);
    }

    /** `getUsersWithAlertsEnabled`. */
    function UsersWithAlertsEnabled(): (r: seq<UserId>)
      reads this
      ensures forall u :: u in r <==> AlertRow(u, true) in alertRows
    {
      EnabledUsers(alertRows)
    }
  }
}
