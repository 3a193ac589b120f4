/** `/profile` (commands/profile.js): a user's saved team name and division,
    used to prefill the scrim wizard. */
module Profiles {
  import opened Entities
  import opened Text
  import Store
  import Wizard

  const TeamMin: nat := 2
  const TeamMax: nat := 50
  const DivisionMin: nat := 2
  const DivisionMax: nat := 30

  /** What `/profile view` shows. */
  datatype ViewReply = NoProfile(buttons: seq<string>) | ShowProfile(profile: Profile, buttons: seq<string>)

  /** `viewProfile`: without a profile only "Create Profile" is offered; with
      one, its fields with "Edit Profile" and "Quick Scrim". */
  function ViewProfile(saved: Option<Profile>): (r: ViewReply)
    ensures r.NoProfile? <==> saved.None?
    ensures r.NoProfile? ==> r.buttons == ["create_profile"]
    ensures r.ShowProfile? ==> r.profile == saved.value && r.buttons == ["edit_profile", "quick_scrim"]
  {
    match saved
    case None => NoProfile(["create_profile"])
    case Some(p) => ShowProfile(p, ["edit_profile", "quick_scrim"])
  }

  /** `editProfile`: the `edit_profile_modal` form, filled with the saved values
      when there are any. */
  function EditProfile(saved: Option<Profile>): (f: Wizard.Form)
    ensures f.customId == "edit_profile_modal" && |f.inputs| == 2
    ensures f.inputs[0].customId == "profile_team_name" && f.inputs[0].maxLength == Some(TeamMax)
    ensures f.inputs[1].customId == "profile_division" && f.inputs[1].maxLength == Some(DivisionMax)
    ensures saved.Some? ==> f.inputs[0].value == Some(saved.value.teamName)
                            && f.inputs[1].value == Some(saved.value.division)
    ensures saved.None? ==> f.inputs[0].value.None? && f.inputs[1].value.None?
  {
    Wizard.Form("edit_profile_modal", [
      Wizard.TextInput("profile_team_name", Some(TeamMax), if saved.Some? then Some(saved.value.teamName) else None),
      Wizard.TextInput("profile_division", Some(DivisionMax), if saved.Some? then Some(saved.value.division) else None)])
  }

  datatype Checked = TeamLength | DivisionLength | Valid(profile: Profile)

  /** The checks of `handleProfileModal`: both fields trimmed, the team name
      checked first (2 to 50 UTF-16 units, JavaScript's `.length`), then the
      division (2 to 30). */
  function CheckProfile(teamRaw: string, divisionRaw: string): (r: Checked)
    ensures var t, d := Trim(teamRaw), Trim(divisionRaw);
      && (r.TeamLength? <==> !(TeamMin <= Utf16Length(t) <= TeamMax))
      && (r.DivisionLength? <==> TeamMin <= Utf16Length(t) <= TeamMax
                                 && !(DivisionMin <= Utf16Length(d) <= DivisionMax))
      && (r.Valid? ==> r.profile == Profile(t, d) && |t| <= TeamMax && |d| <= DivisionMax)
  {
    var t, d := Trim(teamRaw), Trim(divisionRaw);
    if Utf16Length(t) < TeamMin || Utf16Length(t) > TeamMax then TeamLength
    else if Utf16Length(d) < DivisionMin || Utf16Length(d) > DivisionMax then DivisionLength
    else Valid(Profile(t, d))
  }

  /** Lengths are UTF-16 units: 26 copies of U+1F525 are 26 characters but 52
      units, so that team name is refused. */
  lemma AstralTeamNameRejected()
    ensures var team := seq(26, _ => '\U{1F525}');
      |team| <= TeamMax && CheckProfile(team, "Open") == TeamLength
  {
    var team := seq(26, _ => '\U{1F525}');
    assert Trim(team) == team by {
      assert !IsTrimmable(team[0]) && !IsTrimmable(team[25]);
      assert TrimStart(team) == team;
    }
    assert Utf16Length(team) == 52;
  }

  /** A profile the modal accepted. */
  predicate Acceptable(p: Profile) {
    CheckProfile(p.teamName, p.division) == Valid(p)
  }

  /** Opening the editor on a saved profile and submitting it unchanged saves
      the same profile again: what was stored is trimmed and within bounds. */
  lemma ResubmitKeepsProfile(teamRaw: string, divisionRaw: string)
    requires CheckProfile(teamRaw, divisionRaw).Valid?
    ensures Acceptable(CheckProfile(teamRaw, divisionRaw).profile)
  {
    TrimIdempotent(teamRaw);
    TrimIdempotent(divisionRaw);
  }

  /** A saved profile never trips the wizard's blank-field check on the two
      fields it prefills. */
  lemma SavedProfilePassesWizard(p: Profile)
    requires Acceptable(p)
    ensures Trim(p.teamName) != "" && Trim(p.division) != ""
  {
  }

  datatype ModalReply = BadTeamName | BadDivision | Saved(profile: Profile, buttons: seq<string>)

  /** `handleProfileModal`: a valid submission replaces the user's profile and
      offers "Create Scrim Now"; an invalid one stores nothing. */
  method HandleProfileModal(user: UserId, teamRaw: string, divisionRaw: string, db: Store.Database)
    returns (r: ModalReply)
    requires db.Valid()
    modifies db`profiles
    ensures db.Valid()
    ensures var c := CheckProfile(teamRaw, divisionRaw);
      && (r.BadTeamName? <==> c.TeamLength?)
      && (r.BadDivision? <==> c.DivisionLength?)
      && (r.Saved? ==> c.Valid? && r.profile == c.profile && r.buttons == ["quick_scrim_from_profile"]
                       && db.profiles == old(db.profiles)[user := c.profile]
                       && db.GetProfile(user) == Some(c.profile))
      && (!r.Saved? ==> db.profiles == old(db.profiles))
  {
    match CheckProfile(teamRaw, divisionRaw)
    case TeamLength => return BadTeamName;
    case DivisionLength => return BadDivision;
    case Valid(p) =>
      db.UpdateProfile(user, p.teamName, p.division);
      r := Saved(p, ["quick_scrim_from_profile"]);
  }
}
