/** How events/interactionCreate.js dispatches buttons, select menus and
    modal submissions by their custom id. */
module Router {
  import Wizard

  datatype Kind = Button | SelectMenu | ModalSubmit

  /** The handler an interaction reaches. */
  datatype Action =
    | EditProfile
    | StartCreation(useProfile: bool)
    | ServerAnswer(hasServer: bool)
    | ShowInterest
    | MarkFilled
    | CancelScrim
    | Paginate(action: string)
    | CleanupDecision(customId: string)
    | SelectMaps
    | BasicInfo
    | ProfileModal
    | Ignore

  predicate StartsWith(s: string, prefix: string) {
    |prefix| <= |s| && s[..|prefix|] == prefix
  }

  /** The button ids with a handler of their own, besides the `scrimlist_` prefix. */
  const KnownButtons: set<string> := {
    "create_profile", "edit_profile", "quick_scrim", "quick_scrim_from_profile", "use_profile",
    "new_scrim", "server_yes", "server_no", "show_interest", "scrim_filled", "cancel_scrim",
    "cleanup_confirm", "cleanup_cancel"}

  /** The custom id tests of `handleButtonInteraction`, `handleSelectMenuInteraction`
      and `handleModalSubmission`, tried in the source's order. */
  function Route(kind: Kind, customId: string): (a: Action)
    ensures a.EditProfile? <==> kind == Button && customId in {"create_profile", "edit_profile"}
    ensures a.ServerAnswer? ==> kind == Button && a.hasServer == (customId == "server_yes")
    ensures a.ShowInterest? <==> kind == Button && customId == "show_interest"
    ensures a.MarkFilled? <==> kind == Button && customId == "scrim_filled"
    ensures a.CancelScrim? <==> kind == Button && customId == "cancel_scrim"
    ensures a.Paginate? ==> kind == Button && customId == "scrimlist_" + a.action
    ensures a.CleanupDecision? <==> kind == Button && customId in {"cleanup_confirm", "cleanup_cancel"}
    ensures a.CleanupDecision? ==> a.customId == customId
    ensures a.SelectMaps? <==> kind == SelectMenu && StartsWith(customId, "map_select_")
    ensures a.BasicInfo? <==> kind == ModalSubmit && customId == "scrim_basic_info"
    ensures a.ProfileModal? <==> kind == ModalSubmit && customId == "edit_profile_modal"
    ensures a.Ignore? <==>
      || (kind == Button && customId !in KnownButtons && !StartsWith(customId, "scrimlist_"))
      || (kind == SelectMenu && !StartsWith(customId, "map_select_"))
      || (kind == ModalSubmit && customId !in {"scrim_basic_info", "edit_profile_modal"})
  {
    match kind
    case Button =>
      if customId == "create_profile" || customId == "edit_profile" then EditProfile
      else if customId == "quick_scrim" || customId == "quick_scrim_from_profile" then StartCreation(true)
      else if customId == "use_profile" then StartCreation(true)
      else if customId == "new_scrim" then StartCreation(false)
      else if customId == "server_yes" || customId == "server_no" then ServerAnswer(customId == "server_yes")
      else if customId == "show_interest" then ShowInterest
      else if customId == "scrim_filled" then MarkFilled
      else if customId == "cancel_scrim" then CancelScrim
      else if StartsWith(customId, "scrimlist_") then
        assert customId == customId[..10] + customId[10..] && customId[0] == 's';
        Paginate(customId[|"scrimlist_"|..])
      else if customId == "cleanup_confirm" || customId == "cleanup_cancel" then CleanupDecision(customId)
      else Ignore
    case SelectMenu =>
      if StartsWith(customId, "map_select_") then SelectMaps else Ignore
    case ModalSubmit =>
      if customId == "scrim_basic_info" then BasicInfo
      else if customId == "edit_profile_modal" then ProfileModal
      else Ignore
  }

  /** Every button that starts the wizard from a saved profile, and only those,
      asks for the profile to be used; "Create New" opens the empty form. */
  lemma StartCreationButtons(customId: string)
    ensures Route(Button, customId) == StartCreation(true)
      <==> customId in {"quick_scrim", "quick_scrim_from_profile", "use_profile"}
    ensures Route(Button, customId) == StartCreation(false) <==> customId == "new_scrim"
  {
  }

  /** Only `server_yes` records a server. */
  lemma ServerButtons(customId: string)
    ensures Route(Button, customId).ServerAnswer? <==> customId in {"server_yes", "server_no"}
    ensures Route(Button, customId) == ServerAnswer(true) <==> customId == "server_yes"
  {
  }

  /** A pagination button hands over the text after its prefix, so each page
      action string reaches `handlePagination` unchanged. */
  lemma PaginationButtons(action: string)
    ensures Route(Button, "scrimlist_" + action) == Paginate(action)
  {
    var id := "scrimlist_" + action;
    assert id[..10] == "scrimlist_";
    assert id[5] == 'l' && id[6] == 'i';
  }

  /** Every menu the wizard builds is routed to the map-selection step. */
  lemma MapMenusRouteToSelection(k: nat)
    ensures Route(SelectMenu, Wizard.MenuId(k)) == SelectMaps
  {
    assert Wizard.MenuId(k)[..11] == "map_select_";
  }

  /** Select menus are told apart by their id's prefix only: any id starting
      with `map_select_` reaches the map step, every other select is ignored. */
  lemma SelectRouting(customId: string)
    ensures Route(SelectMenu, customId) == SelectMaps <==> StartsWith(customId, "map_select_")
    ensures Route(SelectMenu, customId) != SelectMaps ==> Route(SelectMenu, customId) == Ignore
  {
  }
}
