/**
 * The borrowing lifecycle: creating a loan takes a copy off the shelf,
 * returning it (by the return action or by an update to 'returned') puts the
 * copy back once, and deleting an active loan puts it back as well.
 */
module BorrowingController {
  import opened Records
  import opened Seqs
  import opened BookModel
  import opened Ranking
  import opened LibraryStore

  /** The rows of `s` borrowed by user `userId`, in storage order (`where('user_id', …)`). */
  function OfUser(s: seq<Borrowing>, userId: int): (r: seq<Borrowing>)
    ensures |r| <= |s|
  {
    if s == [] then []
    else (if s[0].userId == userId then [s[0]] else []) + OfUser(s[1..], userId)
  }

  lemma {:induction false} OfUserMembers(s: seq<Borrowing>, userId: int)
    ensures multiset(OfUser(s, userId)) <= multiset(s)
    ensures forall b :: b in OfUser(s, userId) <==> b in s && b.userId == userId
  {
    if s != [] {
      assert s == [s[0]] + s[1..];
      OfUserMembers(s[1..], userId);
    }
  }

  /** The rows `index` selects before ordering them. */
  function Selected(borrowings: seq<Borrowing>, status: Option<string>, myBorrowings: bool, userId: int): (r: seq<Borrowing>)
    ensures multiset(r) <= multiset(borrowings)
    ensures forall b :: b in r <==>
      && b in borrowings
      && (status.Some? ==> StatusName(b.status) == status.value)
      && (myBorrowings ==> b.userId == userId)
  {
    var byStatus :=
      match status
      case None => borrowings
      case Some(t) =>
        match ParseStatus(t)
        case None => []
        case Some(st) => WithStatus(borrowings, st);
    assert multiset(byStatus) <= multiset(borrowings) &&
      forall b :: b in byStatus <==> b in borrowings && (status.Some? ==> StatusName(b.status) == status.value)
    by {
      if status.Some? && ParseStatus(status.value).Some? {
        WithStatusMembers(borrowings, ParseStatus(status.value).value);
      }
    }
    if myBorrowings then
      OfUserMembers(byStatus, userId);
      OfUser(byStatus, userId)
    else byStatus
  }

  /**
   * `index`: the loans, narrowed to those whose status column equals `status`
   * when one is sent and to the caller's own when `myBorrowings` is sent,
   * newest first.
   */
  function Index(borrowings: seq<Borrowing>, status: Option<string>, myBorrowings: bool, userId: int): (r: seq<Borrowing>)
    ensures forall b :: b in r <==>
      && b in borrowings
      && (status.Some? ==> StatusName(b.status) == status.value)
      && (myBorrowings ==> b.userId == userId)
    ensures multiset(r) <= multiset(borrowings)
    ensures SortedDesc(r, CreatedAt)
  {
    var picked := Selected(borrowings, status, myBorrowings, userId);
    var r := SortDesc(picked, CreatedAt);
    assert forall b :: b in r <==> b in picked by {
      forall b ensures b in r <==> b in picked {
        assert b in r <==> b in multiset(r);
        assert b in picked <==> b in multiset(picked);
      }
    }
    r
  }

  /** `show`: the loan with primary key `id`, if there is one. */
  function Show(borrowings: seq<Borrowing>, id: int): (r: Option<Borrowing>)
    ensures r.Some? ==> r.value in borrowings && r.value.id == id
    ensures r.None? <==> forall j :: 0 <= j < |borrowings| ==> borrowings[j].id != id
  {
    match FindBorrowing(borrowings, id)
    case None => None
    case Some(j) => Some(borrowings[j])
  }

  /** The body of a `store` request; every key may be missing. */
  datatype StoreRequest = StoreRequest(bookId: Option<int>, borrowDate: Option<int>, dueDate: Option<int>, notes: Option<string>)

  /** The validation of `store`: a stored `book_id`, both dates, and a due date strictly after the borrow date. */
  predicate StoreRequestValid(books: seq<Book>, req: StoreRequest): (r: bool)
    ensures r ==> req.bookId.Some? && exists i :: 0 <= i < |books| && books[i].id == req.bookId.value
    ensures r ==> req.borrowDate.Some? && req.dueDate.Some? && req.borrowDate.value < req.dueDate.value
  {
    && req.bookId.Some? && FindBook(books, req.bookId.value).Some?
    && req.borrowDate.Some? && req.dueDate.Some?
    && req.borrowDate.value < req.dueDate.value
  }

  /** The row `store` inserts: the caller's loan of the requested book, active, not yet returned. */
  function NewBorrowing(id: int, userId: int, req: StoreRequest, now: int): (r: Borrowing)
    requires req.bookId.Some? && req.borrowDate.Some? && req.dueDate.Some?
    ensures r.id == id && r.userId == userId && r.createdAt == now
    ensures ActiveShare(r, req.bookId.value) == 1 && r.returnDate.None?
    ensures r.borrowDate == req.borrowDate.value && r.dueDate == req.dueDate.value && r.notes == req.notes
  {
    Borrowing(id, userId, req.bookId.value, req.borrowDate.value, req.dueDate.value, None, Borrowed, req.notes, now)
  }

  /** A new active loan of book `k` with one copy fewer on its shelf keeps the store consistent. */
  lemma BorrowConsistent(books: seq<Book>, loans: seq<Borrowing>, nextBookId: int, nextBorrowingId: int, k: nat, row: Borrowing)
    requires Consistent(books, loans, nextBookId, nextBorrowingId)
    requires k < |books| && books[k].available > 0
    requires row.id == nextBorrowingId && row.bookId == books[k].id && row.status == Borrowed
    ensures Consistent(AddAvailable(books, k, -1), loans + [row], nextBookId, nextBorrowingId + 1)
  {
    BorrowKeepsConsistent(books, loans, nextBookId, nextBorrowingId, AddAvailable(books, k, -1), row);
  }

  /**
   * What a successful `store` does to the accounts: a new active loan of book
   * `k` and one copy fewer on its shelf keep `available + activeCount` of
   * every book, and so keep a balanced store balanced.
   */
  lemma BorrowStep(books: seq<Book>, loans: seq<Borrowing>, k: nat, row: Borrowing)
    requires UniqueBookIds(books)
    requires k < |books| && row.bookId == books[k].id && row.status == Borrowed
    ensures Conserved(books, loans, AddAvailable(books, k, -1), loans + [row])
    ensures Balanced(books, loans) ==> Balanced(AddAvailable(books, k, -1), loans + [row])
    ensures NoOverdue(loans) ==> NoOverdue(loans + [row])
  {
    var books1 := AddAvailable(books, k, -1);
    BorrowConserves(books, loans, k, row);
    if Balanced(books, loans) {
      ShiftedKeepsBalance(books, loans, books1, loans + [row], 0);
    }
    assert NoOverdue(loans) ==> NoOverdue(loans + [row]) by {
      if NoOverdue(loans) {
        forall j | 0 <= j < |loans + [row]| ensures (loans + [row])[j].status != Overdue {
          if j < |loans| {
            assert (loans + [row])[j] == loans[j];
          }
        }
      }
    }
  }

  /** Returning loan `j` and putting a copy back on the shelf of its book `k` keeps the store consistent. */
  lemma ReturnConsistent(books: seq<Book>, loans: seq<Borrowing>, nextBookId: int, nextBorrowingId: int,
                         j: nat, k: nat, row: Borrowing)
    requires Consistent(books, loans, nextBookId, nextBorrowingId)
    requires j < |loans| && k < |books| && loans[j].status != Returned
    requires row.id == loans[j].id && row.bookId == loans[j].bookId
    requires row.status == Returned && row.returnDate.Some?
    ensures Consistent(AddAvailable(books, k, 1), loans[j := row], nextBookId, nextBorrowingId)
  {
    ReplaceKeepsConsistent(books, loans, nextBookId, nextBorrowingId, AddAvailable(books, k, 1), j, row);
  }

  /**
   * What a return does to the accounts when the loan's book `k` is stored:
   * the row becomes returned and the book gets a copy back. Every book keeps
   * `available + activeCount`, except that returning an 'overdue' loan adds
   * one copy; so a balanced store without 'overdue' loans stays balanced.
   */
  lemma ReturnStep(books: seq<Book>, loans: seq<Borrowing>, j: nat, k: nat, row: Borrowing)
    requires UniqueBookIds(books)
    requires j < |loans| && k < |books| && books[k].id == loans[j].bookId && loans[j].status != Returned
    requires row.bookId == loans[j].bookId && row.status == Returned
    ensures Shifted(books, loans, AddAvailable(books, k, 1), loans[j := row],
                    loans[j].bookId, if loans[j].status == Overdue then 1 else 0)
    ensures NoOverdue(loans) ==> NoOverdue(loans[j := row])
    ensures Balanced(books, loans) && NoOverdue(loans) ==> Balanced(AddAvailable(books, k, 1), loans[j := row])
  {
    var books1 := AddAvailable(books, k, 1);
    ReturnShifts(books, loans, j, k, row);
    if Balanced(books, loans) && NoOverdue(loans) {
      assert loans[j].status != Overdue;
      ShiftedKeepsBalance(books, loans, books1, loans[j := row], loans[j].bookId);
    }
  }

  /** Returning loan `j` with no book changed keeps the store consistent. */
  lemma ReturnOrphanConsistent(books: seq<Book>, loans: seq<Borrowing>, nextBookId: int, nextBorrowingId: int,
                               j: nat, row: Borrowing)
    requires Consistent(books, loans, nextBookId, nextBorrowingId)
    requires j < |loans| && row.id == loans[j].id && row.bookId == loans[j].bookId
    requires row.status == Returned && row.returnDate.Some?
    ensures Consistent(books, loans[j := row], nextBookId, nextBorrowingId)
  {
    ReplaceKeepsConsistent(books, loans, nextBookId, nextBorrowingId, books, j, row);
  }

  /**
   * A return of a loan whose book is no longer stored: such a loan can only be
   * 'overdue' (an active loan is always on a stored book), and saving the row
   * returned changes no stored book's accounts.
   */
  lemma ReturnOrphanStep(books: seq<Book>, loans: seq<Borrowing>, nextBookId: int, nextBorrowingId: int,
                         j: nat, row: Borrowing)
    requires Consistent(books, loans, nextBookId, nextBorrowingId)
    requires j < |loans| && FindBook(books, loans[j].bookId).None? && loans[j].status != Returned
    requires row.bookId == loans[j].bookId && row.status == Returned
    ensures loans[j].status == Overdue && !NoOverdue(loans)
    ensures Conserved(books, loans, books, loans[j := row])
  {
    assert loans[j].status != Borrowed;
    ReplaceConserves(books, loans, j, row);
  }

  /** Overwriting loan `j` with a row of the same key, book, status and return date keeps the store consistent. */
  lemma EditConsistent(books: seq<Book>, loans: seq<Borrowing>, nextBookId: int, nextBorrowingId: int,
                       j: nat, row: Borrowing)
    requires Consistent(books, loans, nextBookId, nextBorrowingId)
    requires j < |loans| && row.id == loans[j].id && row.bookId == loans[j].bookId
    requires row.status == loans[j].status && row.returnDate == loans[j].returnDate
    ensures Consistent(books, loans[j := row], nextBookId, nextBorrowingId)
  {
    ReplaceKeepsConsistent(books, loans, nextBookId, nextBorrowingId, books, j, row);
  }

  /** An edit that keeps a loan's book and status keeps every book's accounts. */
  lemma EditStep(books: seq<Book>, loans: seq<Borrowing>, j: nat, row: Borrowing)
    requires j < |loans| && row.bookId == loans[j].bookId && row.status == loans[j].status
    ensures Shifted(books, loans, books, loans[j := row], loans[j].bookId, 0)
    ensures NoOverdue(loans) ==> NoOverdue(loans[j := row])
    ensures Balanced(books, loans) ==> Balanced(books, loans[j := row])
  {
    ReplaceConserves(books, loans, j, row);
    if Balanced(books, loans) {
      ShiftedKeepsBalance(books, loans, books, loans[j := row], 0);
    }
  }

  /**
   * The book table after loan `j` is deleted: the loan's book gets a copy
   * back exactly when the loan was active, and nothing else changes.
   */
  function AfterDelete(books: seq<Book>, loans: seq<Borrowing>, j: nat): (r: seq<Book>)
    requires UniqueBookIds(books)
    requires j < |loans|
    requires loans[j].status == Borrowed ==> FindBook(books, loans[j].bookId).Some?
    ensures |r| == |books|
    ensures forall i :: 0 <= i < |books| ==>
      r[i] == books[i].(available := books[i].available + ActiveShare(loans[j], books[i].id))
  {
    if loans[j].status == Borrowed then AddAvailable(books, FindBook(books, loans[j].bookId).value, 1)
    else books
  }

  /** Deleting loan `j`, with its copy back on the shelf when it was active, keeps the store consistent. */
  lemma DeleteConsistent(books: seq<Book>, loans: seq<Borrowing>, nextBookId: int, nextBorrowingId: int, j: nat)
    requires Consistent(books, loans, nextBookId, nextBorrowingId)
    requires j < |loans|
    ensures loans[j].status == Borrowed ==> FindBook(books, loans[j].bookId).Some?
    ensures Consistent(AfterDelete(books, loans, j), RemoveAt(loans, j), nextBookId, nextBorrowingId)
  {
    RemoveKeepsConsistent(books, loans, nextBookId, nextBorrowingId, AfterDelete(books, loans, j), j);
  }

  /**
   * What `destroy` does to the accounts: deleting loan `j`, with its copy
   * back on the shelf when it was active, keeps `available + activeCount`
   * of every book, and so keeps a balanced store balanced.
   */
  lemma DeleteStep(books: seq<Book>, loans: seq<Borrowing>, nextBookId: int, nextBorrowingId: int, j: nat)
    requires Consistent(books, loans, nextBookId, nextBorrowingId)
    requires j < |loans|
    ensures loans[j].status == Borrowed ==> FindBook(books, loans[j].bookId).Some?
    ensures Conserved(books, loans, AfterDelete(books, loans, j), RemoveAt(loans, j))
    ensures Balanced(books, loans) ==> Balanced(AfterDelete(books, loans, j), RemoveAt(loans, j))
    ensures NoOverdue(loans) ==> NoOverdue(RemoveAt(loans, j))
  {
    var books1 := AfterDelete(books, loans, j);
    var loans1 := RemoveAt(loans, j);
    if loans[j].status == Borrowed {
      RemoveConserves(books, loans, j, FindBook(books, loans[j].bookId).value);
    } else {
      RemoveInactiveConserves(books, loans, j);
    }
    if Balanced(books, loans) {
      ShiftedKeepsBalance(books, loans, books1, loans1, 0);
    }
  }

  /** `store`: borrow a copy of a book for the caller `userId` at time `now`. */
  method Store(lib: Library, req: StoreRequest, userId: int, now: int) returns (code: Code)
    requires lib.Valid()
    modifies lib
    ensures lib.Valid()
    ensures lib.users == old(lib.users) && lib.nextBookId == old(lib.nextBookId)
    ensures !StoreRequestValid(old(lib.books), req) ==> code == Unprocessable && unchanged(lib)
    ensures StoreRequestValid(old(lib.books), req) ==>
      var k := FindBook(old(lib.books), req.bookId.value).value;
      if old(lib.books)[k].available <= 0 then
        code == BadRequest && unchanged(lib)
      else
        && code == Created
        && lib.borrowings == old(lib.borrowings) + [NewBorrowing(old(lib.nextBorrowingId), userId, req, now)]
        && lib.nextBorrowingId == old(lib.nextBorrowingId) + 1
        && lib.books == AddAvailable(old(lib.books), k, -1)
  {
    code := Unprocessable;
    if !StoreRequestValid(lib.books, req) {
      return;
    }
    var k := FindBook(lib.books, req.bookId.value).value;
    if lib.books[k].available <= 0 {
      code := BadRequest;
      return;
    }
    var row := NewBorrowing(lib.nextBorrowingId, userId, req, now);
    BorrowConsistent(lib.books, lib.borrowings, lib.nextBookId, lib.nextBorrowingId, k, row);
    lib.borrowings := lib.borrowings + [row];
    lib.nextBorrowingId := lib.nextBorrowingId + 1;
    lib.books := AddAvailable(lib.books, k, -1);
    code := Created;
  }

  /** The body of an `update` request; every key may be missing. */
  datatype UpdateRequest = UpdateRequest(returnDate: Option<int>, status: Option<string>, notes: Field<Option<string>>)

  /** The validation of `update`: a status, when sent, is one of the three names. */
  predicate UpdateRequestValid(req: UpdateRequest): (r: bool)
    ensures r <==> req.status.Some? ==> req.status.value in ["borrowed", "returned", "overdue"]
  {
    req.status.Some? ==> ParseStatus(req.status.value).Some?
  }

  /** `update` performs the return transition: 'returned' is requested and the loan is not returned yet. */
  predicate Returning(b: Borrowing, req: UpdateRequest): (r: bool)
    ensures r ==> UpdateRequestValid(req) && req.status.Some? && ParseStatus(req.status.value) == Some(Returned)
    ensures r ==> b.status == Borrowed || b.status == Overdue
  {
    req.status == Some("returned") && b.status != Returned
  }

  /**
   * The row `update` saves: the return transition when `Returning`, with the
   * sent return date or `now`; then the notes, when sent. Nothing else is
   * taken from the request.
   */
  function Patched(b: Borrowing, req: UpdateRequest, now: int): (r: Borrowing)
    ensures r.(returnDate := b.returnDate, status := b.status, notes := b.notes) == b
    ensures r.status != b.status ==> r.status == Returned && req.status == Some("returned")
    ensures r.status == Returned <==> b.status == Returned || req.status == Some("returned")
    ensures r.returnDate != b.returnDate ==> Returning(b, req)
    ensures Returning(b, req) ==> r.returnDate == Some(req.returnDate.GetOr(now))
    ensures req.notes.Absent? ==> r.notes == b.notes
    ensures req.notes.Given? ==> r.notes == req.notes.value
  {
    var returned :=
      if Returning(b, req) then b.(returnDate := Some(req.returnDate.GetOr(now)), status := Returned)
      else b;
    match req.notes
    case Absent => returned
    case Given(n) => returned.(notes := n)
  }

  /** `update`: change a loan's notes, and perform the return transition when 'returned' is requested. */
  method Update(lib: Library, id: int, req: UpdateRequest, now: int) returns (code: Code)
    requires lib.Valid()
    modifies lib
    ensures lib.Valid()
    ensures lib.users == old(lib.users) && lib.nextBookId == old(lib.nextBookId)
    ensures lib.nextBorrowingId == old(lib.nextBorrowingId)
    ensures FindBorrowing(old(lib.borrowings), id).None? ==> code == NotFound && unchanged(lib)
    ensures FindBorrowing(old(lib.borrowings), id).Some? && !UpdateRequestValid(req) ==>
      code == Unprocessable && unchanged(lib)
    ensures FindBorrowing(old(lib.borrowings), id).Some? && UpdateRequestValid(req) ==>
      var j := FindBorrowing(old(lib.borrowings), id).value;
      var b := old(lib.borrowings)[j];
      if !Returning(b, req) then
        && code == Ok
        && lib.borrowings == old(lib.borrowings)[j := Patched(b, req, now)]
        && lib.books == old(lib.books)
      else
        match FindBook(old(lib.books), b.bookId)
        case None => code == ServerError && unchanged(lib)
        case Some(k) =>
          && code == Ok
          && lib.borrowings == old(lib.borrowings)[j := Patched(b, req, now)]
          && lib.books == AddAvailable(old(lib.books), k, 1)
  {
    var found := FindBorrowing(lib.borrowings, id);
    if found.None? {
      code := NotFound;
      return;
    }
    if !UpdateRequestValid(req) {
      code := Unprocessable;
      return;
    }
    var j := found.value;
    var b := lib.borrowings[j];
    var row := Patched(b, req, now);
    if Returning(b, req) {
      var owner := FindBook(lib.books, b.bookId);
      if owner.None? {
        // `$borrowing->book` is null: the increment fails before the row is saved.
        code := ServerError;
        return;
      }
      var k := owner.value;
      ReturnConsistent(lib.books, lib.borrowings, lib.nextBookId, lib.nextBorrowingId, j, k, row);
      lib.books, lib.borrowings := AddAvailable(lib.books, k, 1), lib.borrowings[j := row];
    } else {
      EditConsistent(lib.books, lib.borrowings, lib.nextBookId, lib.nextBorrowingId, j, row);
      lib.borrowings := lib.borrowings[j := row];
    }
    code := Ok;
  }

  /**
   * Sending the same `update` twice saves nothing more the second time: the
   * loan is returned already, so the second request does not return it again.
   */
  lemma PatchedTwice(b: Borrowing, req: UpdateRequest, now: int, later: int)
    ensures !Returning(Patched(b, req, now), req)
    ensures Patched(Patched(b, req, now), req, later) == Patched(b, req, now)
  {
  }

  /**
   * Deleting the loan `store` has just created undoes it: the loan table and
   * the book table are as they were before the loan.
   */
  lemma BorrowThenDelete(books: seq<Book>, loans: seq<Borrowing>, k: nat, row: Borrowing)
    requires UniqueBookIds(books)
    requires k < |books| && row.bookId == books[k].id && row.status == Borrowed
    ensures UniqueBookIds(AddAvailable(books, k, -1))
    ensures FindBook(AddAvailable(books, k, -1), row.bookId).Some?
    ensures RemoveAt(loans + [row], |loans|) == loans
    ensures AfterDelete(AddAvailable(books, k, -1), loans + [row], |loans|) == books
  {
    var books1 := AddAvailable(books, k, -1);
    assert books1[k].id == row.bookId;
    var after := AfterDelete(books1, loans + [row], |loans|);
    assert (loans + [row])[|loans|] == row;
    forall i | 0 <= i < |books| ensures after[i] == books[i] {
      if i != k {
        assert books[i].id != books[k].id;
      }
    }
  }

  /** `destroy`: delete a loan; an active one puts its copy back on the shelf first. */
  method Destroy(lib: Library, id: int) returns (code: Code)
    requires lib.Valid()
    modifies lib
    ensures lib.Valid()
    ensures lib.users == old(lib.users) && lib.nextBookId == old(lib.nextBookId)
    ensures lib.nextBorrowingId == old(lib.nextBorrowingId)
    ensures FindBorrowing(old(lib.borrowings), id).None? ==> code == NotFound && unchanged(lib)
    ensures FindBorrowing(old(lib.borrowings), id).Some? ==>
      var j := FindBorrowing(old(lib.borrowings), id).value;
      && code == Ok
      && lib.borrowings == RemoveAt(old(lib.borrowings), j)
      && lib.books == AfterDelete(old(lib.books), old(lib.borrowings), j)
  {
    var found := FindBorrowing(lib.borrowings, id);
    if found.None? {
      code := NotFound;
      return;
    }
    var j := found.value;
    DeleteConsistent(lib.books, lib.borrowings, lib.nextBookId, lib.nextBorrowingId, j);
    lib.books, lib.borrowings := AfterDelete(lib.books, lib.borrowings, j), RemoveAt(lib.borrowings, j);
    code := Ok;
  }

  /** `returnBook`: return a loan at time `now`; a loan already returned is refused. */
  method ReturnBook(lib: Library, id: int, now: int) returns (code: Code)
    requires lib.Valid()
    modifies lib
    ensures lib.Valid()
    ensures lib.users == old(lib.users) && lib.nextBookId == old(lib.nextBookId)
    ensures lib.nextBorrowingId == old(lib.nextBorrowingId)
    ensures FindBorrowing(old(lib.borrowings), id).None? ==> code == NotFound && unchanged(lib)
    ensures FindBorrowing(old(lib.borrowings), id).Some? ==>
      var j := FindBorrowing(old(lib.borrowings), id).value;
      var b := old(lib.borrowings)[j];
      if b.status == Returned then
        code == BadRequest && unchanged(lib)
      else
        && lib.borrowings == old(lib.borrowings)[j := b.(returnDate := Some(now), status := Returned)]
        && match FindBook(old(lib.books), b.bookId)
           case None => code == ServerError && lib.books == old(lib.books)
           case Some(k) => code == Ok && lib.books == AddAvailable(old(lib.books), k, 1)
  {
    var found := FindBorrowing(lib.borrowings, id);
    if found.None? {
      code := NotFound;
      return;
    }
    var j := found.value;
    var b := lib.borrowings[j];
    if b.status == Returned {
      code := BadRequest;
      return;
    }
    var row := b.(returnDate := Some(now), status := Returned);
    var owner := FindBook(lib.books, b.bookId);
    if owner.None? {
      // The row is saved as returned; then `$borrowing->book` is null and the increment fails.
      ReturnOrphanConsistent(lib.books, lib.borrowings, lib.nextBookId, lib.nextBorrowingId, j, row);
      lib.borrowings := lib.borrowings[j := row];
      code := ServerError;
      return;
    }
    var k := owner.value;
    ReturnConsistent(lib.books, lib.borrowings, lib.nextBookId, lib.nextBorrowingId, j, k, row);
    lib.books, lib.borrowings := AddAvailable(lib.books, k, 1), lib.borrowings[j := row];
    code := Ok;
  }
}
