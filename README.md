# Library management core in Dafny

This project models the server side of a small library-management system
built on Laravel. It covers four pieces of that server:

- **The books catalogue.** Books are kept with a `stock` of copies and an
  `available` count of copies on the shelf.
- **Loans.** `borrowings` rows are each in one of three states: `borrowed`,
  `returned` or `overdue`. Creating a loan takes a copy off the shelf.
  Returning it puts the copy back: either through the return action or
  through an update to `returned`. Deleting a loan that is still active also
  puts the copy back.
- **Book edits.** Editing a book's stock recomputes the shelf count from the
  number of active loans, clamped at zero.
- **The dashboard.** It shows the table sizes, the number of active loans,
  the five newest loans and the five most borrowed books.

How the model is laid out:

- **Records** (`records.dfy`): the rows of the two tables, the status column
  and its validation, and the HTTP answer codes.
- **BookModel** (`book_model.dfy`): the `borrowings` and `activeBorrowings`
  relations of a book, and how the active count changes when a row is
  inserted, overwritten or deleted.
- **Ranking** (`ranking.dfy`): `orderBy … desc`, `latest()` and `limit(n)` as
  a stable descending sort and its first `n` rows.
- **LibraryStore** (`library_store.dfy`): the two tables and the
  auto-increment counters, held as a `Library` object. It also holds:
  - the store invariant `Consistent`;
  - the accounting predicates. `Accounted` is `available + activeCount`.
    `Balanced` says every book accounts for exactly its stock. `Conserved`
    and `Shifted` say how an action moves a book's accounted copies.
- **BorrowingController** and **BookController**: the actions on those
  tables. Read-only actions are functions. Actions that write are methods
  that modify the `Library` and state its exact new contents. Lemmas beside
  them prove what each write does to the invariant and to every book's
  accounts.
- **Dashboard** (`dashboard.dfy`): `stats` as a pure function of the tables.

Conventions:

- Each table is a sequence in storage order.
- A lookup by primary key returns a position, or `None` for a 404.
- Dates and times are integers.
- The current time and the current year are parameters. So is the id of the
  authenticated caller.

## Model

| member | source | states |
|---|---|---|
| Records.ParseStatus | app/Http/Controllers/Api/BorrowingController.php:80 | accepts a status exactly when it is one of 'borrowed', 'returned', 'overdue', and then names that status |
| Seqs.RemoveAt | app/Http/Controllers/Api/BorrowingController.php:110 | deleting a row leaves the other rows in their order, with the multiset shrunk by exactly that row |
| BookModel.WithStatusMembers | app/Models/Book.php:35-38 | `where('status', st)` keeps exactly the rows with status `st`, never more often than they occur |
| BookModel.WithStatus | app/Http/Controllers/Api/DashboardController.php:17 | `where('status', st)` returns no more rows than the table has (membership in `WithStatusMembers`, count in `WithStatusCount`) |
| BookModel.BorrowingsOf | app/Models/Book.php:30-33 | `hasMany(Borrowing::class)` returns no more rows than the table has (membership in `BorrowingsOfMembers`) |
| BookModel.ActiveOf | app/Models/Book.php:35-38 | every active borrowing of a book is a row of the table on that book with status 'borrowed', and there are no more of them than of its borrowings |
| BookModel.ActiveCount | app/Models/Book.php:35-38 | `activeBorrowings()->count()` is at most the book's borrowings count, which is at most the table size |
| BookModel.BorrowingsOfMembers | app/Models/Book.php:30-33 | a book's borrowings are exactly the rows whose book key is the book |
| BookModel.ActiveOfMembers | app/Models/Book.php:35-38 | a book's active borrowings are exactly its rows with status 'borrowed'; active count ≤ borrowings count ≤ table size |
| BookModel.NoActiveBorrowings | app/Http/Controllers/Api/BookController.php:92 | the active count of a book is zero iff no row of that book has status 'borrowed' |
| BookModel.WithStatusCount | app/Http/Controllers/Api/DashboardController.php:17 | the count of `where('status', st)` equals the number of positions whose status is exactly `st` |
| BookModel.ActiveCountConcat | app/Models/Book.php:35-38 | the active count of a book distributes over concatenation of tables |
| BookModel.ActiveCountAppend | app/Http/Controllers/Api/BorrowingController.php:50-57 | inserting a row adds its share (1 iff active on that book) to each book's active count |
| BookModel.ActiveCountRemove | app/Http/Controllers/Api/BorrowingController.php:110 | deleting a row takes its share off each book's active count |
| BookModel.ActiveCountReplace | app/Http/Controllers/Api/BorrowingController.php:93 | overwriting a row swaps the old row's share for the new row's share |
| Ranking.SortDesc | app/Http/Controllers/Api/BorrowingController.php:27 | `latest()`: the result is ordered newest first and is a permutation of the input |
| Ranking.Top | app/Http/Controllers/Api/DashboardController.php:20-23 | `…->limit(n)` after a descending order: min(n, size) rows, ordered, a sub-multiset of the input (all of it when n ≥ size), and no row left out has a larger key than a row kept |
| Ranking.TopMembers | app/Http/Controllers/Api/DashboardController.php:20-23 | every row kept is a row of the table |
| Ranking.TopOmitted | app/Http/Controllers/Api/DashboardController.php:25-28 | a row left out has a key no larger than any row kept |
| LibraryStore.FindBook | app/Http/Controllers/Api/BookController.php:59 | `findOrFail`: a position holding the key, or none exactly when no book has the key |
| LibraryStore.FindBorrowing | app/Http/Controllers/Api/BorrowingController.php:76 | `findOrFail`: a position holding the key, or none exactly when no loan has the key |
| LibraryStore.AddAvailable | app/Http/Controllers/Api/BorrowingController.php:60 | `increment`/`decrement('available')`: only that book's `available` changes, by exactly `d` |
| LibraryStore.BalancedBounds | app/Http/Controllers/Api/BookController.php:37 | in a balanced store every book has `0 ≤ available ≤ stock` |
| LibraryStore.BorrowKeepsConsistent | app/Http/Controllers/Api/BorrowingController.php:50-60 | appending an active loan of a stored book under the next key, with shelf counts changed only in `available` and non-negative, keeps the store invariant |
| LibraryStore.ReplaceKeepsConsistent | app/Http/Controllers/Api/BorrowingController.php:127-133 | overwriting a loan without reactivating it (a returned one with a date) keeps the store invariant |
| LibraryStore.RemoveKeepsConsistent | app/Http/Controllers/Api/BorrowingController.php:101-110 | deleting a loan keeps the store invariant |
| LibraryStore.BorrowConserves | app/Http/Controllers/Api/BorrowingController.php:50-60 | creating an active loan and decrementing its book keeps `available + activeCount` of every book |
| LibraryStore.ReplaceConserves | app/Http/Controllers/Api/BorrowingController.php:93 | overwriting a loan with one of the same book and the same activeness keeps every book's accounts |
| LibraryStore.ReturnShifts | app/Http/Controllers/Api/BorrowingController.php:127-133 | returning a loan and incrementing its book keeps every book's accounts, except +1 for the book when the loan was not active |
| LibraryStore.RemoveConserves | app/Http/Controllers/Api/BorrowingController.php:105-110 | deleting a loan, incrementing its book first when it was 'borrowed', keeps every book's accounts |
| LibraryStore.RemoveInactiveConserves | app/Http/Controllers/Api/BorrowingController.php:110 | deleting a loan that is not active keeps every book's accounts |
| BorrowingController.OfUser | app/Http/Controllers/Api/BorrowingController.php:24 | `where('user_id', …)` returns no more rows than the table has (membership in `OfUserMembers`) |
| BorrowingController.OfUserMembers | app/Http/Controllers/Api/BorrowingController.php:23-25 | `where('user_id', …)` keeps exactly the caller's rows |
| BorrowingController.Selected | app/Http/Controllers/Api/BorrowingController.php:17-25 | a row is selected iff its status column equals the sent status (when one is sent) and it is the caller's (when `my_borrowings` is sent) |
| BorrowingController.Index | app/Http/Controllers/Api/BorrowingController.php:13-30 | the listing holds exactly the selected rows, newest first, each at most as often as stored |
| BorrowingController.Show | app/Http/Controllers/Api/BorrowingController.php:68-72 | the loan with that key, or not found exactly when no loan has it |
| BorrowingController.StoreRequestValid | app/Http/Controllers/Api/BorrowingController.php:34-39 | a valid request names a stored book (`exists:books,id`) and carries both dates, the due date strictly after the borrow date |
| BorrowingController.NewBorrowing | app/Http/Controllers/Api/BorrowingController.php:50-57 | the inserted row has the next key, the caller, the sent dates and notes, no return date, and is one active loan of the requested book |
| BorrowingController.BorrowConsistent | app/Http/Controllers/Api/BorrowingController.php:50-60 | a new loan with one copy taken off its book's shelf keeps the store invariant |
| BorrowingController.BorrowStep | app/Http/Controllers/Api/BorrowingController.php:50-60 | the rows `store` writes keep every book's accounts, keep a balanced store balanced, and add no 'overdue' loan |
| BorrowingController.ReturnConsistent | app/Http/Controllers/Api/BorrowingController.php:127-133 | marking a loan returned with a date and incrementing its book keeps the store invariant |
| BorrowingController.ReturnStep | app/Http/Controllers/Api/BorrowingController.php:127-133 | a return keeps every book's accounts, except that returning an 'overdue' loan adds one copy; a balanced store without 'overdue' loans stays balanced |
| BorrowingController.ReturnOrphanConsistent | app/Http/Controllers/Api/BorrowingController.php:127-130 | saving a loan as returned with no book changed keeps the store invariant |
| BorrowingController.ReturnOrphanStep | app/Http/Controllers/Api/BorrowingController.php:133 | a not-returned loan whose book is gone can only be 'overdue'; saving it returned leaves every stored book's accounts as they were |
| BorrowingController.EditConsistent | app/Http/Controllers/Api/BorrowingController.php:93 | saving new notes on a loan keeps the store invariant |
| BorrowingController.EditStep | app/Http/Controllers/Api/BorrowingController.php:93 | an edit that keeps book and status keeps every book's accounts and the absence of 'overdue' loans |
| BorrowingController.AfterDelete | app/Http/Controllers/Api/BorrowingController.php:105-108 | the book table after `destroy`: each book gains one copy exactly when the deleted loan was its active loan |
| BorrowingController.DeleteConsistent | app/Http/Controllers/Api/BorrowingController.php:101-110 | an active loan always has a stored book, and deleting a loan keeps the store invariant |
| BorrowingController.DeleteStep | app/Http/Controllers/Api/BorrowingController.php:101-110 | `destroy` keeps every book's accounts, keeps a balanced store balanced, and adds no 'overdue' loan |
| BorrowingController.Store | app/Http/Controllers/Api/BorrowingController.php:32-66 | invalid request: 422, nothing changes; no copy on the shelf: 400, nothing changes; otherwise 201, exactly one new 'borrowed' row for the caller under the next key, and that book's `available` one lower |
| BorrowingController.UpdateRequestValid | app/Http/Controllers/Api/BorrowingController.php:78-82 | a request is valid exactly when its status, if sent, is one of 'borrowed', 'returned', 'overdue' |
| BorrowingController.Returning | app/Http/Controllers/Api/BorrowingController.php:85 | the return transition happens only for a valid request asking for 'returned', on a loan that is 'borrowed' or 'overdue' |
| BorrowingController.Patched | app/Http/Controllers/Api/BorrowingController.php:84-93 | the saved row differs only in return date, status and notes; the status changes only to 'returned' and only when requested; the return date changes only on the return transition and is the sent date or now; notes change exactly when sent |
| BorrowingController.Update | app/Http/Controllers/Api/BorrowingController.php:74-99 | unknown key: 404; bad status: 422; both leave the store unchanged. Return transition: the patched row, and its book one higher, or 500 with nothing saved when the book is gone. Otherwise only the notes are saved |
| BorrowingController.PatchedTwice | app/Http/Controllers/Api/BorrowingController.php:85 | a second identical update does not return the loan again and saves the same row |
| BorrowingController.BorrowThenDelete | app/Http/Controllers/Api/BorrowingController.php:101-110 | deleting the loan `store` has just created restores both tables exactly |
| BorrowingController.Destroy | app/Http/Controllers/Api/BorrowingController.php:101-115 | unknown key: 404 and no change; otherwise the row is gone and its book is one copy higher exactly when the loan was 'borrowed' |
| BorrowingController.ReturnBook | app/Http/Controllers/Api/BorrowingController.php:117-139 | unknown key: 404; already returned: 400; both leave the store unchanged. Otherwise the row becomes 'returned' at `now`, and its book one higher, or 500 with the row already saved when the book is gone |
| BookController.Index | app/Http/Controllers/Api/BookController.php:11-15 | every book in order, each with its active-loan count, never above its loan count |
| BookController.Show | app/Http/Controllers/Api/BookController.php:48-55 | not found exactly when no book has the key; otherwise the book and exactly min(5, n) of its n loans, all its own, newest first; all of them when n ≤ 5, and no loan left out is newer than one shown |
| BookController.NewestOfMembers | app/Http/Controllers/Api/BookController.php:50-52 | the loans shown with a book are rows of the table that belong to it |
| BookController.IsbnFree | app/Http/Controllers/Api/BookController.php:64 | a free isbn differs from the isbn of every stored book other than the excepted one |
| BookController.OwnIsbnFree | app/Http/Controllers/Api/BookController.php:64 | `unique:books,isbn,$id` accepts a book's own isbn on update, while `unique:books` refuses it to a new book |
| BookController.StoreInputValid | app/Http/Controllers/Api/BookController.php:19-28 | a valid input carries title, author and a non-negative stock, and an isbn that no stored book has |
| BookController.NewBook | app/Http/Controllers/Api/BookController.php:30-40 | the new row has the next key, every sent column (title, author, isbn, publisher, year, description, cover) as sent, and `available == stock ==` the sent stock |
| BookController.AddBookStep | app/Http/Controllers/Api/BookController.php:30-40 | a new book has no loans yet; adding it keeps the store invariant and the balance |
| BookController.Store | app/Http/Controllers/Api/BookController.php:17-46 | invalid input (missing or long title/author, missing or taken isbn, year outside 1000..current, missing or negative stock): 422, nothing changes; otherwise 201 and exactly the new book appended |
| BookController.PatchValid | app/Http/Controllers/Api/BookController.php:61-70 | a valid patch's isbn, if sent, belongs to no other stored book, and its stock, if sent, is non-negative |
| BookController.ApplyPatch | app/Http/Controllers/Api/BookController.php:72-79 | keeps the key; every other sent column overwrites its value and every unsent one is kept. Without a sent stock, stock and `available` are unchanged. With stock `s`: stock becomes `s`, and `available` becomes `s − active`, or 0 when that is negative |
| BookController.PatchIgnoresAvailable | app/Http/Controllers/Api/BookController.php:79 | whatever `available` the request carries, validation decides alike and the saved row is the same |
| BookController.PatchAccounts | app/Http/Controllers/Api/BookController.php:73-77 | after a stock edit, `available + active == max(s, active)`: the book balances iff `s ≥ active`, and `0 ≤ available ≤ stock` right after the edit |
| BookController.EditBookStep | app/Http/Controllers/Api/BookController.php:72-79 | the saved row keeps the store invariant. The store stays balanced when no stock is sent or the stock covers the active loans, and is unbalanced when it does not |
| BookController.Update | app/Http/Controllers/Api/BookController.php:57-85 | unknown key: 404; invalid fields (isbn uniqueness ignoring the book itself): 422; both unchanged. Otherwise 200 and exactly that row replaced by the patched row; balance kept under the same condition |
| BookController.StockCutThenReturns | app/Http/Controllers/Api/BookController.php:73-77 | two copies out on loan, stock edited to 1, both loans returned: the shelf holds 2 copies of a book whose stock is 1 |
| BookController.DropBookStep | app/Http/Controllers/Api/BookController.php:92-98 | deleting a book without active loans keeps the store invariant and the balance |
| BookController.Destroy | app/Http/Controllers/Api/BookController.php:87-103 | unknown key: 404; active loans: 400; both unchanged. Otherwise 200 and exactly that row deleted |
| Dashboard.WithBorrowingsCount | app/Http/Controllers/Api/DashboardController.php:25 | every book in order with the number of its loans of any status |
| Dashboard.StatusPartition | app/Http/Controllers/Api/DashboardController.php:17-18 | the 'borrowed', 'returned' and 'overdue' rows together make up the whole loan table |
| Dashboard.NoActiveLoans | app/Http/Controllers/Api/DashboardController.php:17 | the active count is zero iff no loan is 'borrowed' |
| Dashboard.RecentBorrowings | app/Http/Controllers/Api/DashboardController.php:20-23 | min(5, size) loans, newest first, taken from the table, and no loan left out is newer than one listed |
| Dashboard.RankedMembers | app/Http/Controllers/Api/DashboardController.php:25-28 | each ranked entry is a stored book with its own loan count |
| Dashboard.RankedOmitted | app/Http/Controllers/Api/DashboardController.php:25-28 | a book left out of the ranking has no more loans than any ranked book |
| Dashboard.PopularBooks | app/Http/Controllers/Api/DashboardController.php:25-28 | min(5, books) entries with non-increasing counts, different rows of the counted book table, each a stored book with its true count; a book left out has no more loans than any listed |
| Dashboard.StatsOf | app/Http/Controllers/Api/DashboardController.php:13-40 | totals are the table sizes; active loans = rows with status exactly 'borrowed' (≤ total); active + returned + overdue = total; zero iff no loan is active; the two lists are `RecentBorrowings` and `PopularBooks` of the tables |

Invariants and accounting:

- **The store invariant.** `Library.Valid()` is kept by every writing
  action. It says:
  - book keys and isbns are unique;
  - keys lie below the counters;
  - stock and `available` are never negative;
  - a returned loan has a return date;
  - every 'borrowed' loan belongs to a stored book.
- **The accounts.** The writing methods state their new tables as
  `AddAvailable`, `RemoveAt`, `AfterDelete`, `ApplyPatch` and `Patched` of
  the old ones. The `…Step` lemmas state what those same tables do to
  `available + activeCount`.
  - `available + activeCount` of every book is conserved by `store` and
    `destroy`.
  - It is conserved by returns (through `returnBook` or `update`) of loans
    that are not 'overdue'.
  - It is conserved by note edits.
- **The dashboard.** `stats` writes nothing. `StatsOf` is a pure function
  of the tables.

## Left out

- Authentication, the `users` table contents and the JSON shape of answers
  are not modelled. The caller's id is a parameter; users appear only as a
  set, for their count.
- Eager loading (`with(['user', 'book'])`, `load`) is not modelled. The loan
  rows stand in for the loaded structures.
- Date parsing and the `date` rule are not modelled. Dates are integers that
  a request either carries or does not. Date validity is not checked.
- `Carbon::now()` and `date('Y')` are parameters (`now`, `currentYear`).
- Database transactions and concurrent requests are not modelled. Each
  action runs alone. The separate writes of `store`, `update`, `destroy` and
  `returnBook` are not atomic in the source. A failure between them is
  modelled only where the source's own code fails: the missing book of a
  loan, shown as a 500.
- Strings are validated by length only. Empty strings are taken as already
  turned into null by the framework's request middleware, and `nullable`
  fields hold `None`. An empty title counts as missing in `store` (422 by
  `required`). In `update` it is a null that fails `string` (422).
  `ShortText` refuses `""` in both.
- The database's order for rows with equal timestamps or counts is not
  modelled. The model sorts stably, keeping storage order among ties.
- Foreign-key cascades on deleting a book are not modelled. The migrations
  are not part of this model. Loans of a deleted book stay in the table.
- 'overdue' is never written by any action here. `update` acts on a sent
  status only when it is 'returned' (the return transition). A sent
  'borrowed' or 'overdue' passes validation and is then ignored, so
  'overdue' is never written. Rows with that label are still allowed in the
  store, and the lemmas account for them.
- A new book starts with all its copies on the shelf
  (BookController.php:37), and the accounting is meant to keep
  `available == stock − activeCount`, hence `0 ≤ available ≤ stock`. The
  code does not keep the upper bound:
  - Editing the stock below the number of active loans clamps `available`
    at 0. Returning those loans then pushes `available` above the stock.
    Example: stock 2 with two active loans, stock edited to 1, then both
    returned: `available` 2.
  - `StockCutThenReturns` proves this example. `PatchAccounts` states the
    overshoot in general (`available + active == max(s, active)`).
    `EditBookStep` proves that the store is then unbalanced.
  - The model follows the code. So `Balanced` is proved preserved only under
    the condition the code actually meets.
- Integers are unbounded. `stock` has no upper validation rule, and the
  width and overflow of the database's integer columns are not modelled.
- Book pages, forms and the other front-end code are not part of this model.
