/** The view state of the users table and the rows it derives from the
    loaded list: sort, page window, page count and the expanded row. */
module ListPresenter {
  import opened Wrappers
  import opened Users
  import opened SortEngine
  import opened Paginator

  /** The options of the "Users per page" select box. */
  const PageSizes: set<nat> := {5, 10, 15}

  /** `active={index === active}` for each row of a page with `rowCount`
      rows. */
  function ActiveFlags(rowCount: nat, active: Option<nat>): (r: seq<bool>)
    ensures |r| == rowCount
    ensures forall i, j :: 0 <= i < rowCount && 0 <= j < rowCount && r[i] && r[j] ==> i == j
    ensures active.Some? && active.value < rowCount ==> r[active.value]
    ensures (active.None? || active.value >= rowCount) ==> forall i :: 0 <= i < rowCount ==> !r[i]
  {
    seq(rowCount, i => active == Some(i))
  }

  /** A stretch of a list holds no user more often than the list does. */
  lemma SliceSubMultiset(s: seq<User>, a: int, b: int)
    requires 0 <= a <= b <= |s|
    ensures multiset(s[a..b]) <= multiset(s)
  {
    assert s == s[..a] + s[a..b] + s[b..];
  }

  /** A page shows no user more often than the list holds it. */
  lemma WindowSubMultiset(sorted: seq<User>, page: int, perPage: nat)
    requires page >= 1
    ensures multiset(Window(sorted, page, perPage)) <= multiset(sorted)
  {
    WindowIsClippedSlice(sorted, page, perPage);
    MulNonNegative(page - 1, perPage);
    SliceSubMultiset(sorted, Min((page - 1) * perPage, |sorted|), Min(page * perPage, |sorted|));
  }

  /** The state the `UsersTable` component keeps with `useState`. */
  class ViewState {
    var sortField: Field
    var sortDirection: Direction
    var currentPage: int
    var perPage: nat
    var active: Option<nat>

    ghost predicate Valid()
      reads this
    {
      currentPage >= 1 && perPage in PageSizes
    }

    /** The initial state: sorted by name ascending, page 1, five users
        per page, no row expanded. */
    constructor ()
      ensures Valid()
      ensures sortField == Name && sortDirection == Asc
      ensures currentPage == 1 && perPage == 5 && active == None
    {
      sortField, sortDirection := Name, Asc;
      currentPage, perPage := 1, 5;
      active := None;
    }

    function Sort(): SortState
      reads this
    {
      SortState(sortField, sortDirection)
    }

    /** `handleSort(field)`, run when a sortable header is clicked. */
    method HandleSort(field: Field)
      requires Valid()
      modifies this
      ensures Valid()
      ensures Sort() == NextSort(old(Sort()), field)
      ensures currentPage == old(currentPage) && perPage == old(perPage)
      ensures active == old(active)
    {
      var isAsc := sortField == field && sortDirection == Asc;
      sortField := field;
      sortDirection := if isAsc then Desc else Asc;
    }

    /** `handlePageChange(newPage)`; the model assumes the pagination
        control reports pages from 1 on. */
    method HandlePageChange(newPage: int)
      requires Valid() && newPage >= 1
      modifies this
      ensures Valid()
      ensures currentPage == newPage
      ensures Sort() == old(Sort()) && perPage == old(perPage) && active == old(active)
    {
      currentPage := newPage;
    }

    /** `handleUsersPerPage(value)`: `None` stands for the select box
        reporting `null` or an empty string, both of which are ignored. */
    method HandleUsersPerPage(value: Option<nat>)
      requires Valid() && (value.Some? ==> value.value in PageSizes)
      modifies this
      ensures Valid()
      ensures perPage == if value.Some? then value.value else old(perPage)
      ensures Sort() == old(Sort()) && currentPage == old(currentPage)
      ensures active == old(active)
    {
      if value.Some? {
        perPage := value.value;
      }
    }

    /** `setActive(index)`, run when row `index` of the page is clicked;
        clicking the expanded row again leaves it expanded. */
    method SetActive(index: nat)
      requires Valid()
      modifies this
      ensures Valid()
      ensures active == Some(index)
      ensures Sort() == old(Sort()) && currentPage == old(currentPage)
      ensures perPage == old(perPage)
      ensures old(active) == Some(index) ==> unchanged(this)
    {
      active := Some(index);
    }

    /** `currentUsers`: the rows on screen, at most one page of users taken
        from the list sorted by the current field and direction. */
    function CurrentUsers(users: seq<User>): (r: seq<User>)
      reads this
      requires Valid()
      ensures |r| <= perPage
      ensures multiset(r) <= multiset(users)
    {
      var sorted := SortUsers(users, sortField, sortDirection);
      WindowSubMultiset(sorted, currentPage, perPage);
      Window(sorted, currentPage, perPage)
    }

    /** The `total` handed to the pagination control: the fewest pages
        that hold every user. */
    function PageCount(users: seq<User>): (r: nat)
      reads this
      requires Valid()
      ensures |users| <= r * perPage
      ensures r == 0 || (r - 1) * perPage < |users|
    {
      TotalPages(|users|, perPage)
    }

    /** Which rows of the current page are drawn expanded. */
    function RowFlags(users: seq<User>): (r: seq<bool>)
      reads this
      requires Valid()
      ensures |r| == |CurrentUsers(users)|
      ensures forall i, j :: 0 <= i < |r| && 0 <= j < |r| && r[i] && r[j] ==> i == j
      ensures active.Some? && active.value < |r| ==> r[active.value]
      ensures (active.None? || active.value >= |r|) ==> forall i :: 0 <= i < |r| ==> !r[i]
    {
      ActiveFlags(|CurrentUsers(users)|, active)
    }
  }

  /** Two clicks on the name header: ascending, then descending, then
      ascending again, with the page left where it was. */
  method NameHeaderClickedTwice()
  {
    var view := new ViewState();
    view.HandlePageChange(2);
    view.HandleSort(Name);
    assert view.sortDirection == Desc && view.currentPage == 2;
    view.HandleSort(Name);
    assert view.sortDirection == Asc && view.currentPage == 2;
  }
}
