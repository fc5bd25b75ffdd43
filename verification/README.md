# UsersTable list presentation, in Dafny

This project models the list-presentation logic of the `UsersTable` React
component. The component receives the loaded users from a store and turns
them into the rows on screen. It keeps five pieces of view state:

- the sort field;
- the sort direction;
- the current page;
- the number of users per page;
- the index of the expanded row.

From that state it derives the sorted list, the current page's window and
the page count.

Modules:

- `Wrappers`: the `Option` type.
- `Users`: the user record and the sortable string attributes (`Field`).
  It also defines JavaScript's `<` on strings as a lexicographic order
  (`Less`) and proves it is a strict total order.
- `SortEngine`: `sortUsers` as a three-way comparator (`Compare`) plus an
  insertion sort (`Insert`, `SortUsers`). Also the `handleSort` toggle
  (`NextSort`) and repeated header clicks (`Clicks`).
- `Paginator`: `Array.prototype.slice` with its index clamping (`Slice`),
  the page window of lines 70-72 (`Window`), the page count of line 171
  (`TotalPages`), and the pages laid end to end (`Pages`).
- `ListPresenter`: the `ViewState` class, with one field per `useState`
  variable and one method per event handler. It also derives the rows on
  screen, the page count and the expanded-row flags.

The code has no fallback for an unrecognised page size:
`handleUsersPerPage` (src/components/UsersTable.tsx:64-68) ignores only a
`null` or empty value, and the select box (line 178) offers only 5, 10
and 15.

`sortUsers` ignores its `usersToSort` parameter and sorts the closed-over
`users` (src/components/UsersTable.tsx:32). Its only call site passes
`users` (src/components/UsersTable.tsx:57), so `SortUsers` takes the list
as its argument. `sortedUsers` is sorted only `if (sortField)`. The field
is always a non-empty attribute name, so that test always passes, and
`CurrentUsers` always sorts.

## Model

| member | source | states |
|---|---|---|
| `Users.Key` | src/components/UsersTable.tsx:33-34 | `a[field]`: the value of one of the five string attributes |
| `Users.Less` | src/components/UsersTable.tsx:33-34 | JavaScript's string `<`: `a < b` exactly when `a` is a proper prefix of `b`, or at the first position where they differ `a` has the smaller character |
| `Users.LessIrreflexive` | src/components/UsersTable.tsx:33-34 | No string is `<` itself, so the comparator's first two branches never both fire on equal keys |
| `Users.LessAsymmetric` | src/components/UsersTable.tsx:33-34 | `a < b` and `b < a` never both hold |
| `Users.LessTransitive` | src/components/UsersTable.tsx:33-34 | String `<` is transitive |
| `Users.LessTotal` | src/components/UsersTable.tsx:33-35 | Two strings are equal or ordered one way, so the comparator returns 0 only on equal keys |
| `SortEngine.Compare` | src/components/UsersTable.tsx:32-36 | The comparator returns -1, 0 or 1. It is negative exactly when `a` goes first in the chosen direction, positive exactly when `b` does, and 0 exactly on equal keys. `'desc'` reverses the ascending answer |
| `SortEngine.Insert` | src/components/UsersTable.tsx:32 | One insertion step adds exactly the new user to the list (multiset) |
| `SortEngine.InsertFollowsComparator` | src/components/UsersTable.tsx:32-36 | The insertion step moves past an element exactly when the comparator answers positive |
| `SortEngine.InsertOrdered` | src/components/UsersTable.tsx:32-36 | Inserting into an ordered list keeps it ordered |
| `SortEngine.SortUsers` | src/components/UsersTable.tsx:31-37 | The sorted copy is a permutation of the input with the same length. It is non-decreasing by the field for `'asc'` and non-increasing for `'desc'` |
| `SortEngine.SortOrderedIsIdentity` | src/components/UsersTable.tsx:31-37 | A list already ordered by the field and direction is returned unchanged |
| `SortEngine.SortIdempotent` | src/components/UsersTable.tsx:31-37 | Sorting twice by the same field and direction equals sorting once |
| `SortEngine.SortStable` | src/components/UsersTable.tsx:31-37 | The sort is stable, as ES2019 requires of `Array.prototype.sort`: for every key, the users with that key appear in the sorted list in their input order |
| `SortEngine.Reverse` | src/components/UsersTable.tsx:33-35 | Reference list for the descending-versus-ascending property (no code of its own): reading a list backwards keeps its users and puts element `i` at `n-1-i` |
| `SortEngine.ReverseAscendingIsDescending` | src/components/UsersTable.tsx:33-35 | An ascending list read backwards is descending |
| `SortEngine.OrderedPermutationsShareKeys` | src/components/UsersTable.tsx:33-35 | Two orderings of the same users by the same field and direction show the same column of keys. They can differ only in how ties are arranged |
| `SortEngine.DescendingIsReversedAscending` | src/components/UsersTable.tsx:31-37 | Sorting `'desc'` gives the same keys as sorting `'asc'` and reading backwards, up to tie order |
| `SortEngine.NextSort` | src/components/UsersTable.tsx:39-43 | The clicked field becomes active. It flips the direction when it was already active and starts ascending when it is a new field |
| `SortEngine.ClicksAlternate` | src/components/UsersTable.tsx:39-43 | `n` clicks on one header leave that field active. The direction alternates with the parity of `n`, starting from the first click's choice |
| `SortEngine.TwoClicksOnActiveFieldRestore` | src/components/UsersTable.tsx:39-43 | Two clicks on the active header restore the sort state (asc to desc to asc) |
| `Paginator.Slice` | src/components/UsersTable.tsx:72 | `slice` never returns more elements than the list has |
| `Paginator.SliceInRange` | src/components/UsersTable.tsx:72 | With non-negative arguments, `slice` returns the stretch between them, clamped to the list's length |
| `Paginator.Window` | src/components/UsersTable.tsx:70-72 | A page never shows more than `perPage` rows, for any page number |
| `Paginator.TotalPages` | src/components/UsersTable.tsx:171 | `ceil(len / perPage)`: the fewest pages of `perPage` rows that hold `len` rows |
| `Paginator.WindowIsClippedSlice` | src/components/UsersTable.tsx:70-72 | From page 1 on, the window is `sorted[(page-1)*per .. page*per]` clipped to the list |
| `Paginator.WindowEmptyPastEnd` | src/components/UsersTable.tsx:70-72 | A page starting at or past the end of the list is empty, with no error |
| `Paginator.WindowIsContiguous` | src/components/UsersTable.tsx:70-72 | Row `k` of the window is row `(page-1)*per + k` of the sorted list, so the window is a contiguous, order-preserving run |
| `Paginator.PageStartsInList` | src/components/UsersTable.tsx:171 | Every page from 1 to the page count starts inside the list |
| `Paginator.WindowLength` | src/components/UsersTable.tsx:70-72 | A page starting inside the list holds `min(per, len - (page-1)*per)` rows |
| `Paginator.PageLength` | src/components/UsersTable.tsx:70-72 | Every page `p` in `[1, TotalPages]` holds `min(per, len - (p-1)*per)` rows |
| `Paginator.PagesArePrefix` | src/components/UsersTable.tsx:70-72 | Pages 1 to `n` laid end to end are the first `n*per` rows |
| `Paginator.PagesCoverList` | src/components/UsersTable.tsx:70-72 | Pages 1 to `TotalPages` laid end to end are exactly the sorted list |
| `Paginator.TwelveRowsScenario` | src/components/UsersTable.tsx:70-72 | 12 rows at 5 per page: page 1 is rows 1-5 and page 3 is rows 11-12. At 10 per page, page 3 is empty |
| `ListPresenter.ActiveFlags` | src/components/UsersTable.tsx:84 | At most one row of a page is drawn active. It is the row at `active` when that index is on the page, and no row otherwise |
| `ListPresenter.WindowSubMultiset` | src/components/UsersTable.tsx:72 | A page shows only loaded users, none more often than the list holds it |
| `ListPresenter.ViewState.constructor` | src/components/UsersTable.tsx:25-29 | The initial state: sorted by name ascending, page 1, 5 per page, no row expanded |
| `ListPresenter.ViewState.HandleSort` | src/components/UsersTable.tsx:39-43 | The sort state becomes `NextSort` of the old one. Page, page size and expanded row are unchanged |
| `ListPresenter.ViewState.HandlePageChange` | src/components/UsersTable.tsx:60-62 | Only `currentPage` changes |
| `ListPresenter.ViewState.HandleUsersPerPage` | src/components/UsersTable.tsx:64-68 | A `null`/empty value is ignored and any other value becomes the page size. Sort, page and expanded row are unchanged, so the page is not reset |
| `ListPresenter.ViewState.SetActive` | src/components/UsersTable.tsx:84-86 | Row `index` becomes the expanded row. Nothing else changes, and clicking the expanded row again changes nothing |
| `ListPresenter.ViewState.CurrentUsers` | src/components/UsersTable.tsx:55-72 | The rows on screen are at most `perPage` users, all taken from the loaded list |
| `ListPresenter.ViewState.PageCount` | src/components/UsersTable.tsx:171 | The page count handed to the pagination control is the fewest pages that hold every user |
| `ListPresenter.ViewState.RowFlags` | src/components/UsersTable.tsx:78-86 | One flag per row on screen, at most one of them set: the row at `active` when that index is on the page, and none otherwise |

## Left out

- Rendering with JSX and Mantine (`Table`, `NavLink`, `Pagination`, `Select`, `LoadingOverlay`, `Tooltip`, `Image`) is not modelled. It has no behaviour beyond the values above.
- The permanently disabled "Edit User" button is not modelled. It has no logic.
- The `href`, `src` and `alt` strings are not modelled, and neither is `roles.join(' & ')`. They are presentational formatting.
- The Zustand store and the `visible` loading flag are not modelled. They belong to an external store. `users` is a given sequence.
- Sort keys: only the string attributes (name, gender, hair, eyes, avatar) are modelled. `glasses`, `id` and `roles` are not. Only `name` is wired to a header, and the model does not define JavaScript's `<` on booleans or arrays.
- String order: `Less` compares Dafny characters (Unicode scalar values). JavaScript compares UTF-16 code units. The two orders differ for characters outside the Basic Multilingual Plane.
- `Array.prototype.sort` is modelled by an insertion sort. Like the sort ES2019 requires of `Array.prototype.sort`, it is stable (`SortStable`): users with equal keys keep their input order. `SortOrderedIsIdentity` and `SortIdempotent` state exact equality of lists and depend on that stability. The order in which the runtime calls the comparator is left to the engine and is not modelled. `DescendingIsReversedAscending` compares keys, not users, because a stable descending sort keeps ties in input order rather than reversing them.
- React batches the two setters of `handleSort` into one re-render. `HandleSort` models this as one atomic update.
- `parseInt(usersPerPage, 10)` is not modelled. The page size is kept as a number from {5, 10, 15}. `None` stands for the select box's `null` or empty string.
- `ViewState.HandlePageChange` requires a page of at least 1: the model assumes the pagination control reports pages from 1 on. The pagination library is not part of this model. `Window` itself takes any integer page and follows `slice`'s handling of negative indices.
- `ViewState.CurrentUsers` states only the size bound and that rows come from the loaded list. Which rows appear, and in what order, is stated by `WindowIsClippedSlice`, `WindowIsContiguous` and `SortUsers` about the functions it is built from.
