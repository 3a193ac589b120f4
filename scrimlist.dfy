/** `/scrimlist` (commands/scrimlist.js): the active scrims, five to a page,
    with previous, next and refresh buttons whose state is kept per user. */
module ScrimList {
  import opened Entities
  import opened Chunking
  import Store

  const PerPage: nat := 5

  /** `global.scrimListPagination[userId]`. */
  datatype PageState = PageState(currentPage: int, totalPages: int, items: seq<Scrim>)

  /** A listed scrim with the number shown before its team name. */
  datatype Numbered = Numbered(number: nat, scrim: Scrim)

  /** One rendered page: the numbered items, "Showing x of y", "Page p of n",
      and, when there are buttons, whether Previous and Next are disabled. */
  datatype PageView = PageView(numbered: seq<Numbered>, showing: nat, of: nat, pageLabel: int, pagesLabel: int)

  datatype Nav = Nav(prevDisabled: bool, nextDisabled: bool)

  /** The last page index of a list: page 0 when the list has no page at all. */
  function LastPage(totalPages: nat): nat {
    if totalPages == 0 then 0 else totalPages - 1
  }

  /** `Math.max(0, currentPage - 1)`. */
  function PrevPage(currentPage: int): (p: int)
    ensures p >= 0
    ensures currentPage > 0 ==> p == currentPage - 1
    ensures currentPage <= 0 ==> p == 0
  {
    if currentPage - 1 > 0 then currentPage - 1 else 0
  }

  /** `Math.min(totalPages - 1, currentPage + 1)` exactly as written. */
  function NextPageAsWritten(currentPage: int, totalPages: int): int {
    if totalPages - 1 < currentPage + 1 then totalPages - 1 else currentPage + 1
  }

  /** `currentPage === totalPages - 1` exactly as written. */
  predicate NextDisabledAsWritten(currentPage: int, totalPages: int) {
    currentPage == totalPages - 1
  }

  /** After a refresh finds no active scrim the state is page 0 of 0 pages; the
      Next button is still enabled there, and pressing it moves to page -1. */
  lemma AsWrittenNextLeavesTheList()
    ensures var s := RefreshedState(PageState(0, 2, []), []);
      && s.currentPage == 0 && s.totalPages == 0
      && !NextDisabledAsWritten(s.currentPage, s.totalPages)
      && NextPageAsWritten(s.currentPage, s.totalPages) == -1
  {
  }

  /** Next, clamped to the last page that exists. */
  function NextPage(currentPage: int, totalPages: nat): int {
    if LastPage(totalPages) < currentPage + 1 then LastPage(totalPages) else currentPage + 1
  }

  /** Next moves one page on until the last page and then stays, never leaving
      the pages of the list. */
  lemma NextStaysOnAPage(currentPage: int, totalPages: nat)
    requires 0 <= currentPage <= LastPage(totalPages)
    ensures 0 <= NextPage(currentPage, totalPages) <= LastPage(totalPages)
    ensures currentPage < LastPage(totalPages) <==> NextPage(currentPage, totalPages) == currentPage + 1
    ensures currentPage == LastPage(totalPages) <==> NextPage(currentPage, totalPages) == currentPage
  {
  }

  function NextDisabled(currentPage: int, totalPages: nat): bool {
    currentPage == LastPage(totalPages)
  }

  /** `Math.ceil(n / 5)`. */
  function PageCount(items: seq<Scrim>): (n: nat)
    ensures n == (|items| + PerPage - 1) / PerPage
  {
    PieceCountIsCeil(|items|, PerPage);
    PieceCount(|items|, PerPage)
  }

  /** The state the refresh button leaves: the new list, its page count, and the
      current page kept unless it is past the end. */
  function RefreshedState(s: PageState, reloaded: seq<Scrim>): (r: PageState)
    ensures r.items == reloaded && r.totalPages == PageCount(reloaded)
    ensures s.currentPage >= 0 ==> WellFormed(r)
    ensures 0 <= s.currentPage < r.totalPages ==> r.currentPage == s.currentPage
    ensures s.currentPage >= r.totalPages ==> r.currentPage == LastPage(r.totalPages)
  {
    var total := PageCount(reloaded);
    PageState(if s.currentPage >= total then LastPage(total) else s.currentPage, total, reloaded)
  }

  /** A stored state whose page is one the list has. */
  predicate WellFormed(s: PageState) {
    && s.totalPages == PageCount(s.items)
    && 0 <= s.currentPage <= LastPage(s.totalPages)
  }

  /** Page `page`, numbered from `5 * page + 1`. */
  function Render(items: seq<Scrim>, page: nat, totalPages: nat): (v: PageView)
    ensures |v.numbered| <= PerPage && v.showing == |v.numbered| && v.of == |items|
    ensures v.pageLabel == page + 1 && v.pagesLabel == totalPages
    ensures forall j :: 0 <= j < |v.numbered| ==>
      PerPage * page + j < |items| && v.numbered[j] == Numbered(PerPage * page + j + 1, items[PerPage * page + j])
    ensures PerPage * page < |items| ==> |v.numbered| > 0
  {
    var slice := Piece(items, PerPage, page);
    var numbered := seq(|slice|, j requires 0 <= j < |slice| => Numbered(PerPage * page + j + 1, slice[j]));
    PageView(numbered, |numbered|, |items|, page + 1, totalPages)
  }

  /** Every item of a well-formed state's list is shown on exactly the page
      `index / 5`, at place `index % 5`, with number `index + 1`. */
  lemma EveryItemOnItsPage(items: seq<Scrim>, index: nat)
    requires index < |items|
    ensures var page := index / PerPage;
      && page <= LastPage(PageCount(items))
      && Render(items, page, PageCount(items)).numbered[index % PerPage] == Numbered(index + 1, items[index])
  {
    var page := index / PerPage;
    PieceCountBounds(|items|, PerPage);
    var v := Render(items, page, PageCount(items));
    assert |Piece(items, PerPage, page)| > index % PerPage;
  }

  /** The reply to `/scrimlist`. */
  datatype ListReply = ListFailed | NoActiveScrims | FirstPage(view: PageView, nav: Option<Nav>)

  /** The reply to a pagination button. */
  datatype PageReply = StateNotFound | RefreshFailed | ShowPage(view: PageView, nav: Nav)

  class Lists {
    var pagination: map<UserId, PageState>

    ghost predicate Valid()
      reads this
    {
      forall u :: u in pagination ==> WellFormed(pagination[u])
    }

    constructor ()
      ensures Valid() && pagination == map[]
    {
      pagination := map[];
    }

    /** `execute`: the active scrims, newest first, page 0 shown. Navigation
        and a stored state exist only when there is more than one page; a
        state from an earlier listing is otherwise left as it was. */
    method Execute(user: UserId, db: Store.Database, queryThrows: bool) returns (r: ListReply)
      requires Valid()
      modifies this
      ensures Valid()
      ensures var items := Store.AllActive(old(db.scrims));
        && (r.ListFailed? <==> queryThrows)
        && (r.NoActiveScrims? <==> !queryThrows && items == [])
        && (r.FirstPage? ==> r.view == Render(items, 0, PageCount(items))
                             && (r.nav.Some? <==> PageCount(items) > 1))
        && (r.FirstPage? && r.nav.Some? ==>
              && r.nav.value == Nav(true, false)
              && pagination == old(pagination)[user := PageState(0, PageCount(items), items)])
        && (!(r.FirstPage? && r.nav.Some?) ==> pagination == old(pagination))
    {
      if queryThrows {
        return ListFailed;
      }
      var items := db.AllActiveScrims();
      if |items| == 0 {
        return NoActiveScrims;
      }
      var total := PageCount(items);
      var view := Render(items, 0, total);
      if total > 1 {
        pagination := pagination[user := PageState(0, total, items)];
        r := FirstPage(view, Some(Nav(true, NextDisabled(0, total))));
      } else {
        r := FirstPage(view, None);
      }
    }

    /** `handlePagination`: without a stored state the user is told to list
        again; prev and next move within the pages; refresh reloads the list and
        pulls the page back if it is now past the end; the state is stored and
        the page redrawn. A failed reload changes nothing. */
    method HandlePagination(user: UserId, action: string, db: Store.Database, refreshThrows: bool)
      returns (r: PageReply)
      requires Valid()
      modifies this
      ensures Valid()
      ensures r.StateNotFound? <==> user !in old(pagination)
      ensures r.RefreshFailed? <==> user in old(pagination) && action == "refresh" && refreshThrows
      ensures (r.StateNotFound? || r.RefreshFailed?) ==> pagination == old(pagination)
      ensures r.ShowPage? ==>
        var s := old(pagination)[user];
        var s' := if action == "prev" then s.(currentPage := PrevPage(s.currentPage))
                  else if action == "next" then s.(currentPage := NextPage(s.currentPage, s.totalPages))
                  else if action == "refresh" then RefreshedState(s, Store.AllActive(db.scrims))
                  else s;
        && pagination == old(pagination)[user := s']
        && r.view == Render(s'.items, s'.currentPage, s'.totalPages)
        && r.nav == Nav(s'.currentPage == 0, NextDisabled(s'.currentPage, s'.totalPages))
    {
      if user !in pagination {
        return StateNotFound;
      }
      var s := pagination[user];
      if action == "prev" {
        s := s.(currentPage := PrevPage(s.currentPage));
      } else if action == "next" {
        NextStaysOnAPage(s.currentPage, s.totalPages);
        s := s.(currentPage := NextPage(s.currentPage, s.totalPages));
      } else if action == "refresh" {
        if refreshThrows {
          return RefreshFailed;
        }
        s := RefreshedState(s, db.AllActiveScrims());
      }
      pagination := pagination[user := s];
      r := ShowPage(Render(s.items, s.currentPage, s.totalPages), Nav(s.currentPage == 0, NextDisabled(s.currentPage, s.totalPages)));
    }
  }

  /** A well-formed state stays well-formed under every button, so the page
      shown always belongs to the list, and is non-empty whenever the list is. */
  lemma ButtonsKeepPageOnList(s: PageState, reloaded: seq<Scrim>)
    requires WellFormed(s)
    ensures WellFormed(s.(currentPage := PrevPage(s.currentPage)))
    ensures WellFormed(s.(currentPage := NextPage(s.currentPage, s.totalPages)))
    ensures WellFormed(RefreshedState(s, reloaded))
    ensures |s.items| > 0 ==> |Render(s.items, s.currentPage, s.totalPages).numbered| > 0
  {
    NextStaysOnAPage(s.currentPage, s.totalPages);
    PieceCountBounds(|s.items|, PerPage);
  }
}
