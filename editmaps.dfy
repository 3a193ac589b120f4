/** `/editmaps` (commands/editmaps.js): administrators add, remove and list
    the maps the wizard offers. Names are compared ignoring letter case. */
module EditMaps {
  import opened Entities
  import opened Text
  import Store

  const MinNameLength: nat := 2
  const MaxNameLength: nat := 30

  /** The first catalog name equal to `name` ignoring case, as `Array.find` returns it. */
  function FindIgnoringCase(names: seq<string>, name: string): (r: Option<string>)
    ensures r.Some? ==> r.value in names && SameIgnoringCase(r.value, name)
    ensures r.None? <==> forall m :: m in names ==> !SameIgnoringCase(m, name)
    ensures r.Some? ==> exists k :: (0 <= k < |names| && names[k] == r.value
                                     && forall j :: 0 <= j < k ==> !SameIgnoringCase(names[j], name))
    decreases |names|
  {
    if |names| == 0 then None
    else if SameIgnoringCase(names[0], name) then Some(names[0])
    else
      var r := FindIgnoringCase(names[1..], name);
      assert forall m :: m in names <==> m == names[0] || m in names[1..] by {
        assert names == [names[0]] + names[1..];
      }
      if r.Some? then
        assert exists k :: (0 <= k < |names| && names[k] == r.value
                            && forall j :: 0 <= j < k ==> !SameIgnoringCase(names[j], name)) by {
          var k :| 0 <= k < |names[1..]| && names[1..][k] == r.value
                   && forall j :: 0 <= j < k ==> !SameIgnoringCase(names[1..][j], name);
          assert names[k + 1] == r.value;
          forall j | 0 <= j < k + 1 ensures !SameIgnoringCase(names[j], name) {
            if j > 0 { assert names[j] == names[1..][j - 1]; }
          }
        }
        r
      else r
  }

  /** No two catalog names differ only in letter case. */
  predicate NoCaseDuplicates(names: seq<string>) {
    forall i, j :: 0 <= i < j < |names| ==> !SameIgnoringCase(names[i], names[j])
  }

  /** Start-up seeding re-inserts every default map by its exact name, so it
      can break what `/editmaps add` keeps: after an administrator replaces
      "Mirage" by "mirage", the catalog `Init` leaves holds both. `seeded` is
      any catalog with the names `Store.Database.Init` promises for that one. */
  lemma SeedingCanBreakNoCaseDuplicates(seeded: seq<string>)
    requires forall m :: m in seeded <==> m in ["mirage"] || m in Store.DefaultMaps
    ensures NoCaseDuplicates(["mirage"])
    ensures !NoCaseDuplicates(seeded)
  {
    assert "mirage" in seeded && "Mirage" in seeded;
    var i :| 0 <= i < |seeded| && seeded[i] == "mirage";
    var j :| 0 <= j < |seeded| && seeded[j] == "Mirage";
    assert Lower("Mirage") == "mirage" && Lower("mirage") == "mirage";
    assert SameIgnoringCase(seeded[i], seeded[j]) && SameIgnoringCase(seeded[j], seeded[i]);
    assert i != j;
  }

  /** The length rule of `addMap`, on JavaScript's `.length` (UTF-16 units). */
  predicate LengthAllowed(name: string) {
    MinNameLength <= Utf16Length(name) <= MaxNameLength
  }

  /** A map named by the single character U+1F525 is two units long, so it
      passes the length rule although it is one character. */
  lemma AstralNameLengthAllowed()
    ensures var name := Trim("\U{1F525}");
      |name| == 1 && LengthAllowed(name)
  {
    assert !IsTrimmable('\U{1F525}');
    assert Trim("\U{1F525}") == "\U{1F525}";
    Utf16LengthOfAstral();
  }

  datatype AddReply = NotAdministrator | BadLength | AlreadyExists | Added(name: string) | AddFailed

  datatype RemoveReply = RemoveNotAdministrator | NotFound | Removed(name: string) | RemoveFailed

  /** `addMap`: the trimmed name must be 2 to 30 UTF-16 units long and must not match
      any stored name ignoring case; otherwise it is inserted as typed. The
      database's exact-match UNIQUE check can then never fire, and a catalog
      free of case-insensitive duplicates stays free of them. */
  method AddMap(isAdministrator: bool, raw: string, db: Store.Database) returns (r: AddReply)
    requires db.Valid()
    modifies db`maps
    ensures db.Valid()
    ensures var name := Trim(raw);
      && (r.NotAdministrator? <==> !isAdministrator)
      && (r.BadLength? <==> isAdministrator && !LengthAllowed(name))
      && (r.AlreadyExists? <==> (isAdministrator && LengthAllowed(name)
                                 && FindIgnoringCase(old(db.maps), name).Some?))
      && (r.Added? ==> r.name == name && db.maps == Store.InsertByName(old(db.maps), name))
      && (!r.Added? ==> db.maps == old(db.maps))
      && !r.AddFailed?
    ensures NoCaseDuplicates(old(db.maps)) ==> NoCaseDuplicates(db.maps)
  {
    if !isAdministrator {
      return NotAdministrator;
    }
    var name := Trim(raw);
    if !LengthAllowed(name) {
      return BadLength;
    }
    var existing := db.AllMaps();
    if FindIgnoringCase(existing, name).Some? {
      return AlreadyExists;
    }
    assert name !in existing;
    var ok := db.AddMap(name);
    if !ok {
      return AddFailed;
    }
    InsertKeepsNoCaseDuplicates(existing, name);
    r := Added(name);
  }

  lemma InsertKeepsNoCaseDuplicates(names: seq<string>, x: string)
    requires forall m :: m in names ==> !SameIgnoringCase(m, x)
    ensures NoCaseDuplicates(names) ==> NoCaseDuplicates(Store.InsertByName(names, x))
  {
    var r := Store.InsertByName(names, x);
    if NoCaseDuplicates(names) {
      forall i, j | 0 <= i < j < |r| ensures !SameIgnoringCase(r[i], r[j]) {
        InsertedAt(names, x, i, j);
      }
    }
  }

  /** Two places of the catalog after an insert hold either two old names at
      distinct places, or the new name and an old one. */
  lemma {:induction false} InsertedAt(names: seq<string>, x: string, i: nat, j: nat)
    requires i < j < |Store.InsertByName(names, x)|
    ensures var r := Store.InsertByName(names, x);
      || (r[i] == x && r[j] in names)
      || (r[j] == x && r[i] in names)
      || exists a, b :: 0 <= a < b < |names| && r[i] == names[a] && r[j] == names[b]
    decreases |names|
  {
    var r := Store.InsertByName(names, x);
    if |names| == 0 {
    } else if Below(x, names[0]) {
      assert r == [x] + names;
      if i > 0 { assert r[i] == names[i - 1] && r[j] == names[j - 1]; }
    } else {
      var rest := Store.InsertByName(names[1..], x);
      assert r == [names[0]] + rest;
      if i == 0 {
        assert r[j] == rest[j - 1] && rest[j - 1] in rest;
        if r[j] != x {
          var b :| 0 <= b < |names[1..]| && names[1..][b] == r[j];
          assert names[b + 1] == r[j];
        }
      } else {
        InsertedAt(names[1..], x, i - 1, j - 1);
        assert r[i] == rest[i - 1] && r[j] == rest[j - 1];
        if exists a, b :: 0 <= a < b < |names[1..]| && rest[i - 1] == names[1..][a] && rest[j - 1] == names[1..][b] {
          var a, b :| 0 <= a < b < |names[1..]| && rest[i - 1] == names[1..][a] && rest[j - 1] == names[1..][b];
          assert r[i] == names[a + 1] && r[j] == names[b + 1];
        }
        forall m | m in names[1..] ensures m in names { }
      }
    }
  }

  /** `removeMap`: the trimmed name is looked up ignoring case and the stored
      spelling is deleted; the deletion always changes exactly that one row. */
  method RemoveMap(isAdministrator: bool, raw: string, db: Store.Database) returns (r: RemoveReply)
    requires db.Valid()
    modifies db`maps
    ensures db.Valid()
    ensures var found := FindIgnoringCase(old(db.maps), Trim(raw));
      && (r.RemoveNotAdministrator? <==> !isAdministrator)
      && (r.NotFound? <==> isAdministrator && found.None?)
      && (r.Removed? <==> isAdministrator && found.Some?)
      && (r.Removed? ==> r.name == found.value && r.name !in db.maps
                         && db.maps == Store.RemoveName(old(db.maps), found.value)
                         && |db.maps| == |old(db.maps)| - 1)
      && (!r.Removed? ==> db.maps == old(db.maps))
  {
    if !isAdministrator {
      return RemoveNotAdministrator;
    }
    var name := Trim(raw);
    var existing := db.AllMaps();
    var found := FindIgnoringCase(existing, name);
    if found.None? {
      return NotFound;
    }
    Store.RemoveNameSorted(existing, found.value);
    var changes := db.RemoveMap(found.value);
    if changes > 0 {
      r := Removed(found.value);
    } else {
      r := RemoveFailed;
    }
  }

  /** A numbered line of the listing. */
  datatype Line = Line(number: nat, name: string)

  datatype ListReply = ListNotAdministrator | NoMaps | Listing(lines: seq<Line>, total: nat)

  /** `listMaps`: every catalog name in name order, numbered from 1, with the count. */
  function ListMaps(isAdministrator: bool, names: seq<string>): (r: ListReply)
    ensures r.ListNotAdministrator? <==> !isAdministrator
    ensures r.NoMaps? <==> isAdministrator && names == []
    ensures r.Listing? ==> (r.total == |r.lines| == |names| > 0
      && forall k :: 0 <= k < |names| ==> r.lines[k] == Line(k + 1, names[k]))
  {
    if !isAdministrator then ListNotAdministrator
    else if |names| == 0 then NoMaps
    else Listing(seq(|names|, k requires 0 <= k < |names| => Line(k + 1, names[k])), |names|)
  }
}
