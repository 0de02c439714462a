/** The user list of the users page: search, fixed-size pagination, page
    navigation, delete of the selected user and save of an edited user.
    The table's state is the component's local state (the working copy of
    the users, the search text, the current page and the selected user);
    dialogs and markup are not modelled. */
module UsersTable {
  import opened Wrappers
  import opened Seqs
  import opened Text
  import opened UserRecords

  /** Rows shown per page. */
  const ItemsPerPage: nat := 6

  // ---------------------------------------------------------------------
  // Search
  // ---------------------------------------------------------------------

  /** A user is kept by a non-empty search when the lower-cased search text
      occurs in the lower-cased name, e-mail or profile, or the raw search
      text occurs in the NIT (case-sensitively). The phone is not searched. */
  function Matches(u: UserRecord, search: string): (r: bool)
    ensures search == "" ==> r
  {
    var lower := Lower(search);
    || Contains(Lower(u.nombreCompleto), lower)
    || Contains(u.nit, search)
    || Contains(Lower(u.email), lower)
    || Contains(Lower(u.perfil), lower)
  }

  /** `filteredUsers`: the list itself for an empty search, otherwise the
      users that match, in list order. */
  function FilterUsers(users: seq<UserRecord>, search: string): (r: seq<UserRecord>)
    ensures search == "" ==> r == users
    ensures |r| <= |users|
    ensures forall i :: 0 <= i < |r| ==> Matches(r[i], search)
  {
    if search == "" then users else Filter(users, u => Matches(u, search))
  }

  /** The search keeps a user iff the user is in the list and matches,
      whatever the search text (the empty search matches everyone). */
  lemma FilterUsersMembership(users: seq<UserRecord>, search: string, u: UserRecord)
    ensures u in FilterUsers(users, search) <==> u in users && Matches(u, search)
  {
    if search != "" {
      FilterMembership(users, u => Matches(u, search), u);
    }
  }

  /** The matching users keep their list order and their multiplicity. */
  lemma FilterUsersPreservesOrder(users: seq<UserRecord>, search: string, u: UserRecord)
    ensures IsSubsequence(FilterUsers(users, search), users)
    ensures multiset(FilterUsers(users, search))[u] ==
            if Matches(u, search) then multiset(users)[u] else 0
  {
    if search == "" {
      FilterIsSubsequence(users, _ => true);
      FilterKeepsAll(users, (_: UserRecord) => true);
    } else {
      FilterIsSubsequence(users, u => Matches(u, search));
      FilterCount(users, u => Matches(u, search), u);
    }
  }

  /** `Matches` stated with explicit occurrence positions instead of
      `includes`. */
  lemma MatchesIffOccurs(u: UserRecord, search: string)
    ensures Matches(u, search) <==>
            || (exists i :: OccursAt(Lower(u.nombreCompleto), Lower(search), i))
            || (exists i :: OccursAt(u.nit, search, i))
            || (exists i :: OccursAt(Lower(u.email), Lower(search), i))
            || (exists i :: OccursAt(Lower(u.perfil), Lower(search), i))
  {
    ContainsIffOccurs(Lower(u.nombreCompleto), Lower(search));
    ContainsIffOccurs(u.nit, search);
    ContainsIffOccurs(Lower(u.email), Lower(search));
    ContainsIffOccurs(Lower(u.perfil), Lower(search));
  }

  /** The phone is never searched: changing one user's phone does not
      change whether the search keeps that user. */
  lemma PhoneNotSearched(users: seq<UserRecord>, i: int, phone: string, search: string)
    requires 0 <= i < |users|
    ensures var edited := users[i := users[i].(telefono := phone)];
            users[i] in FilterUsers(users, search) <==>
            edited[i] in FilterUsers(edited, search)
  {
    var edited := users[i := users[i].(telefono := phone)];
    FilterUsersMembership(users, search, users[i]);
    FilterUsersMembership(edited, search, edited[i]);
  }

  /** The name is searched case-insensitively but the NIT is not: "AB"
      finds a user named "ab", and does not find one whose NIT is "ab". */
  lemma SearchCaseSensitivity()
    ensures Matches(UserRecord(1, "ab", "", "", "", "", "", ""), "AB")
    ensures !Matches(UserRecord(1, "", "ab", "", "", "", "", ""), "AB")
    ensures Matches(UserRecord(1, "", "ab", "", "", "", "", ""), "ab")
  {
    assert Lower("AB") == "ab";
    assert Lower("ab") == "ab";
    assert Lower("") == "";
    assert !Contains("ab", "AB") by {
      assert "ab"[..2] != "AB" by { assert "ab"[0] != "AB"[0]; }
      assert !Contains("b", "AB");
    }
  }

  // ---------------------------------------------------------------------
  // Pagination
  // ---------------------------------------------------------------------

  /** The page count, `n / 6` rounded up: the least page count that holds `n`
      rows; zero when there are no rows. */
  function TotalPages(n: nat): (r: nat)
    ensures r * ItemsPerPage >= n
    ensures r > 0 ==> (r - 1) * ItemsPerPage < n
    ensures r == 0 <==> n == 0
  {
    (n + ItemsPerPage - 1) / ItemsPerPage
  }

  /** Index of the first row of a 1-based page. */
  function PageOffset(page: int): int
  {
    (page - 1) * ItemsPerPage
  }

  function Min(a: int, b: int): int
  {
    if a <= b then a else b
  }

  /** The visible page: the filtered rows from index `(page - 1) * 6` up to
      `page * 6`, with JavaScript's slicing rules. */
  function PaginatedUsers(filtered: seq<UserRecord>, page: int): (r: seq<UserRecord>)
    ensures page >= 1 ==> |r| <= ItemsPerPage
    ensures page >= 1 && PageOffset(page) >= |filtered| ==> r == []
    ensures page >= 1 && PageOffset(page) < |filtered| ==>
              r == filtered[PageOffset(page)..Min(page * ItemsPerPage, |filtered|)]
  {
    JsSlice(filtered, PageOffset(page), page * ItemsPerPage)
  }

  /** First row number of the "Mostrando a de b" label (1-based). */
  function ShownFrom(page: int): int
  {
    PageOffset(page) + 1
  }

  /** Last row number of the "Mostrando a de b" label. */
  function ShownTo(page: int, n: nat): int
  {
    Min(page * ItemsPerPage, n)
  }

  /** The label's range and the visible page agree: the page holds exactly
      the rows `ShownFrom .. ShownTo` of the filtered list (none when the
      range is empty). */
  lemma ShownRangeAgrees(filtered: seq<UserRecord>, page: int)
    requires page >= 1
    ensures var p := PaginatedUsers(filtered, page);
            var from := ShownFrom(page);
            var to := ShownTo(page, |filtered|);
            && |p| == (if to >= from then to - from + 1 else 0)
            && forall k :: 0 <= k < |p| ==> p[k] == filtered[from - 1 + k]
  {
  }

  /** Every row of the filtered list is reachable: row `row` (0-based) is
      at position `row % 6` of page `row / 6 + 1`, an existing page. */
  lemma RowOnItsPage(filtered: seq<UserRecord>, row: nat)
    requires row < |filtered|
    ensures var page := row / ItemsPerPage + 1;
            && 1 <= page <= TotalPages(|filtered|)
            && row % ItemsPerPage < |PaginatedUsers(filtered, page)|
            && PaginatedUsers(filtered, page)[row % ItemsPerPage] == filtered[row]
  {
    var page := row / ItemsPerPage + 1;
    assert PageOffset(page) + row % ItemsPerPage == row;
  }

  /** Seven users on pages of six: the second page holds the last user and
      there are two pages. */
  lemma SevenUsersSecondPage(users: seq<UserRecord>)
    requires |users| == 7
    ensures TotalPages(|users|) == 2
    ensures PaginatedUsers(users, 2) == [users[6]]
  {
  }

  // ---------------------------------------------------------------------
  // Table state and its transitions
  // ---------------------------------------------------------------------

  datatype Table = Table(
    users: seq<UserRecord>,
    search: string,
    currentPage: int,
    selected: Option<UserRecord>)

  /** The table as it is mounted, over the initial user list. */
  function Initial(users: seq<UserRecord>): (t: Table)
    ensures t.currentPage == 1 && t.selected == None
    ensures Filtered(t) == users
  {
    Table(users, "", 1, None)
  }

  function Filtered(t: Table): seq<UserRecord>
  {
    FilterUsers(t.users, t.search)
  }

  function Pages(t: Table): nat
  {
    TotalPages(|Filtered(t)|)
  }

  function VisiblePage(t: Table): seq<UserRecord>
  {
    PaginatedUsers(Filtered(t), t.currentPage)
  }

  /** Typing in the search box: new search text, back to page 1. */
  function ChangeSearch(t: Table, search: string): (r: Table)
    ensures r.search == search && r.currentPage == 1
    ensures r.users == t.users && r.selected == t.selected
    ensures Filtered(r) == FilterUsers(t.users, search)
  {
    t.(search := search, currentPage := 1)
  }

  /** Clicking the view, edit or delete button of a visible row. */
  function SelectRow(t: Table, row: nat): (r: Table)
    requires row < |VisiblePage(t)|
    ensures r.selected.Some? && r.selected.value in Filtered(t)
    ensures t.currentPage >= 1 ==>
              && PageOffset(t.currentPage) + row < |Filtered(t)|
              && r.selected == Some(Filtered(t)[PageOffset(t.currentPage) + row])
    ensures r.users == t.users && r.search == t.search && r.currentPage == t.currentPage
  {
    t.(selected := Some(VisiblePage(t)[row]))
  }

  /** The pagination controls below the table. */
  datatype PageControl = First | Previous | Next | Last | GoTo(page: int)

  /** The controls exist only when there is more than one page. */
  function PagerVisible(t: Table): (r: bool)
    ensures r <==> |Filtered(t)| > ItemsPerPage
  {
    Pages(t) > 1
  }

  /** First/previous are disabled on page 1, next/last on the last page;
      the numbered buttons are `1 .. totalPages`. */
  function ControlEnabled(t: Table, c: PageControl): (r: bool)
    ensures r ==> |Filtered(t)| > ItemsPerPage
    ensures r && c.GoTo? ==> |PaginatedUsers(Filtered(t), c.page)| > 0
  {
    PagerVisible(t) &&
    match c
    case First => t.currentPage != 1
    case Previous => t.currentPage != 1
    case Next => t.currentPage != Pages(t)
    case Last => t.currentPage != Pages(t)
    case GoTo(k) => 1 <= k <= Pages(t)
  }

  /** Clicking a control; a disabled or absent control does nothing. */
  function Navigate(t: Table, c: PageControl): (r: Table)
    ensures r.users == t.users && r.search == t.search && r.selected == t.selected
    ensures !ControlEnabled(t, c) ==> r == t
    ensures ControlEnabled(t, c) ==>
              match c
              case First => r.currentPage == 1
              case Previous => r.currentPage == t.currentPage - 1
              case Next => r.currentPage == t.currentPage + 1
              case Last => r.currentPage == Pages(t)
              case GoTo(k) => r.currentPage == k
  {
    if !ControlEnabled(t, c) then t
    else
      match c
      case First => t.(currentPage := 1)
      case Previous => t.(currentPage := t.currentPage - 1)
      case Next => t.(currentPage := t.currentPage + 1)
      case Last => t.(currentPage := Pages(t))
      case GoTo(k) => t.(currentPage := k)
  }

  /** The enabled controls keep the current page within `1 .. totalPages`
      when it starts there. */
  lemma NavigateStaysInRange(t: Table, c: PageControl)
    requires 1 <= t.currentPage <= Pages(t)
    ensures 1 <= Navigate(t, c).currentPage <= Pages(Navigate(t, c))
  {
  }

  /** The current page never drops below 1, from any reachable page. */
  lemma NavigateKeepsPageAtLeastOne(t: Table, c: PageControl)
    requires t.currentPage >= 1
    ensures Navigate(t, c).currentPage >= 1
  {
  }

  /** Past the last page, "next" is still enabled (it is disabled only when
      the current page equals the page count) and moves further away. */
  lemma NextEnabledPastLastPage(t: Table)
    requires PagerVisible(t) && t.currentPage > Pages(t)
    ensures ControlEnabled(t, Next)
    ensures Navigate(t, Next).currentPage > Pages(Navigate(t, Next))
    ensures VisiblePage(Navigate(t, Next)) == []
  {
  }

  // ---------------------------------------------------------------------
  // Delete and edit
  // ---------------------------------------------------------------------

  /** The delete: every user whose id differs from `id`, in order. */
  function RemoveById(users: seq<UserRecord>, id: int): (r: seq<UserRecord>)
    ensures |r| <= |users|
    ensures forall i :: 0 <= i < |r| ==> r[i].id != id
  {
    Filter(users, (u: UserRecord) => u.id != id)
  }

  /** Delete removes exactly the records with the given id, keeping all
      others with their order and multiplicity. */
  lemma RemoveByIdExact(users: seq<UserRecord>, id: int, u: UserRecord)
    ensures u in RemoveById(users, id) <==> u in users && u.id != id
    ensures multiset(RemoveById(users, id))[u] == if u.id != id then multiset(users)[u] else 0
    ensures IsSubsequence(RemoveById(users, id), users)
  {
    FilterMembership(users, (v: UserRecord) => v.id != id, u);
    FilterCount(users, (v: UserRecord) => v.id != id, u);
    FilterIsSubsequence(users, (v: UserRecord) => v.id != id);
  }

  /** With unique ids, deleting an id that is present removes exactly one
      record. */
  lemma {:induction false} RemoveByIdLength(users: seq<UserRecord>, id: int)
    requires UniqueIds(users)
    ensures |RemoveById(users, id)| ==
            if exists i :: 0 <= i < |users| && users[i].id == id then |users| - 1 else |users|
  {
    if |users| > 0 {
      RemoveByIdLength(users[1..], id);
      if users[0].id == id {
        assert forall j :: 0 <= j < |users[1..]| ==> users[1..][j].id != id;
      } else {
        if exists i :: 0 <= i < |users[1..]| && users[1..][i].id == id {
          var i :| 0 <= i < |users[1..]| && users[1..][i].id == id;
          assert users[i + 1].id == id;
        }
        if exists i :: 0 <= i < |users| && users[i].id == id {
          var i :| 0 <= i < |users| && users[i].id == id;
          assert users[1..][i - 1].id == id;
        }
      }
    }
  }

  /** Deleting keeps the ids unique. */
  lemma {:induction false} RemoveByIdKeepsUniqueIds(users: seq<UserRecord>, id: int)
    requires UniqueIds(users)
    ensures UniqueIds(RemoveById(users, id))
  {
    if |users| > 0 {
      RemoveByIdKeepsUniqueIds(users[1..], id);
      var rest := RemoveById(users[1..], id);
      if users[0].id != id {
        assert RemoveById(users, id) == [users[0]] + rest;
        forall j | 0 <= j < |rest|
          ensures rest[j].id != users[0].id
        {
          FilterMembership(users[1..], (v: UserRecord) => v.id != id, rest[j]);
        }
        assert RemoveById(users, id)[1..] == rest;
      }
    }
  }

  /** `handleDelete`: with a selection, drop every user with the selected
      id and clear the selection; without one, nothing happens. The current
      page is left as it is. */
  function DeleteSelected(t: Table): (r: Table)
    ensures r.search == t.search && r.currentPage == t.currentPage
    ensures t.selected.None? ==> r == t
    ensures t.selected.Some? ==>
              r.users == RemoveById(t.users, t.selected.value.id) && r.selected == None
  {
    match t.selected
    case None => t
    case Some(sel) => t.(users := RemoveById(t.users, sel.id), selected := None)
  }

  /** Deleting the only user of the last page strands the table: the
      current page is past the page count, nothing is visible, and with a
      single page left the pagination controls are gone. */
  lemma DeleteDoesNotClampPage(users: seq<UserRecord>)
    requires |users| == 7 && UniqueIds(users)
    ensures var t := Table(users, "", 2, Some(users[6]));
            var r := DeleteSelected(t);
            && VisiblePage(t) == [users[6]]
            && r.currentPage == 2
            && Pages(r) == 1
            && VisiblePage(r) == []
            && !PagerVisible(r)
  {
    UniqueIdsPairwise(users);
    RemoveByIdLength(users, users[6].id);
  }

  /** The edit dialog's save: each user carrying the edited record's id is
      replaced by that record. */
  function ReplaceById(users: seq<UserRecord>, updated: UserRecord): (r: seq<UserRecord>)
    ensures |r| == |users|
    ensures forall i :: 0 <= i < |r| ==> r[i].id == users[i].id
  {
    seq(|users|, i requires 0 <= i < |users| =>
      if users[i].id == updated.id then updated else users[i])
  }

  /** Save replaces the records carrying the edited id and leaves every
      other position untouched. */
  lemma ReplaceByIdEffect(users: seq<UserRecord>, updated: UserRecord, i: int)
    requires 0 <= i < |users|
    ensures users[i].id == updated.id ==> ReplaceById(users, updated)[i] == updated
    ensures users[i].id != updated.id ==> ReplaceById(users, updated)[i] == users[i]
  {
  }

  /** Saving keeps the ids, and hence their uniqueness. */
  lemma ReplaceByIdKeepsUniqueIds(users: seq<UserRecord>, updated: UserRecord)
    requires UniqueIds(users)
    ensures UniqueIds(ReplaceById(users, updated))
  {
    UniqueIdsPairwise(users);
    UniqueIdsPairwise(ReplaceById(users, updated));
  }

  /** Saving the same record twice is saving it once. */
  lemma ReplaceByIdIdempotent(users: seq<UserRecord>, updated: UserRecord)
    ensures ReplaceById(ReplaceById(users, updated), updated) == ReplaceById(users, updated)
  {
  }

  /** Saving a record whose id is absent leaves the list unchanged. */
  lemma ReplaceByIdAbsent(users: seq<UserRecord>, updated: UserRecord)
    requires forall i :: 0 <= i < |users| ==> users[i].id != updated.id
    ensures ReplaceById(users, updated) == users
  {
  }

  /** The edit dialog's save as a table transition: the users change, the
      search, page and selection do not. */
  function SaveEdit(t: Table, updated: UserRecord): (r: Table)
    ensures r.search == t.search && r.currentPage == t.currentPage && r.selected == t.selected
    ensures r.users == ReplaceById(t.users, updated)
    ensures |r.users| == |t.users|
    ensures forall i :: 0 <= i < |t.users| && t.users[i].id != updated.id ==> r.users[i] == t.users[i]
    ensures (exists i :: 0 <= i < |t.users| && t.users[i].id == updated.id) ==> updated in r.users
  {
    t.(users := ReplaceById(t.users, updated))
  }
}
