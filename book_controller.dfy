/**
 * The book catalogue: creating a book puts its whole stock on the shelf,
 * editing the stock recomputes the copies on the shelf from the active loans,
 * and a book with an active loan cannot be deleted.
 */
module BookController {
  import opened Records
  import opened Seqs
  import opened BookModel
  import opened Ranking
  import opened LibraryStore

  /** A book row as `index` lists it: with the number of its active borrowings. */
  datatype BookListing = BookListing(book: Book, activeBorrowingsCount: nat)

  /** `index`: every book in storage order, each with its active-borrowing count. */
  function Index(books: seq<Book>, loans: seq<Borrowing>): (r: seq<BookListing>)
    ensures |r| == |books|
    ensures forall i :: 0 <= i < |r| ==> r[i].book == books[i]
    ensures forall i :: 0 <= i < |r| ==>
      r[i].activeBorrowingsCount == ActiveCount(loans, books[i].id) <= |BorrowingsOf(loans, books[i].id)|
  {
    if books == [] then []
    else
      ActiveOfMembers(loans, books[0].id);
      [BookListing(books[0], ActiveCount(loans, books[0].id))] + Index(books[1..], loans)
  }

  /** A book with the borrowings `show` loads along with it. */
  datatype BookDetail = BookDetail(book: Book, borrowings: seq<Borrowing>)

  /**
   * `show`: the book with primary key `id` and at most five of its borrowings,
   * newest first; no borrowing of the book left out is newer than one shown.
   */
  function Show(books: seq<Book>, loans: seq<Borrowing>, id: int): (r: Option<BookDetail>)
    ensures r.None? <==> forall i :: 0 <= i < |books| ==> books[i].id != id
    ensures r.Some? ==> r.value.book in books && r.value.book.id == id
    ensures r.Some? ==>
      && |r.value.borrowings| == (if |BorrowingsOf(loans, id)| < 5 then |BorrowingsOf(loans, id)| else 5)
      && SortedDesc(r.value.borrowings, CreatedAt)
      && (forall b :: b in r.value.borrowings ==> b in loans && b.bookId == id)
      && multiset(r.value.borrowings) <= multiset(BorrowingsOf(loans, id))
      && (|BorrowingsOf(loans, id)| <= 5 ==> multiset(r.value.borrowings) == multiset(BorrowingsOf(loans, id)))
      && (forall x, y :: x in multiset(BorrowingsOf(loans, id)) - multiset(r.value.borrowings) && y in r.value.borrowings ==>
            x.createdAt <= y.createdAt)
  {
    match FindBook(books, id)
    case None => None
    case Some(k) =>
      var mine := BorrowingsOf(loans, id);
      var shown := Top(mine, 5, CreatedAt);
      NewestOfMembers(loans, id);
      Some(BookDetail(books[k], shown))
  }

  /** The newest five borrowings of a book are rows of the table that belong to the book. */
  lemma NewestOfMembers(loans: seq<Borrowing>, id: int)
    ensures forall b :: b in Top(BorrowingsOf(loans, id), 5, CreatedAt) ==> b in loans && b.bookId == id
  {
    BorrowingsOfMembers(loans, id);
    TopMembers(BorrowingsOf(loans, id), 5, CreatedAt);
  }

  /** A name-like text field: present after empty strings became null, and `max:255`. */
  predicate ShortText(t: string) {
    0 < |t| <= 255
  }

  /** No stored book other than the one with key `except` has this isbn (`unique:books,isbn,except`). */
  predicate IsbnFree(books: seq<Book>, isbn: string, except: Option<int>): (r: bool)
    ensures r ==> forall b :: b in books && Some(b.id) != except ==> b.isbn != isbn
  {
    forall i :: 0 <= i < |books| && Some(books[i].id) != except ==> books[i].isbn != isbn
  }

  /**
   * `unique:books,isbn,$id` lets a book keep its own isbn on `update`, where
   * `unique:books` refuses that isbn to a new book.
   */
  lemma OwnIsbnFree(books: seq<Book>, k: nat)
    requires UniqueIsbns(books) && k < |books|
    ensures IsbnFree(books, books[k].isbn, Some(books[k].id))
    ensures !IsbnFree(books, books[k].isbn, None)
  {
    forall i | 0 <= i < |books| && Some(books[i].id) != Some(books[k].id)
      ensures books[i].isbn != books[k].isbn
    {
      assert i != k;
    }
  }

  /** The body of a `store` request; every key may be missing. */
  datatype BookInput = BookInput(
    title: Option<string>,
    author: Option<string>,
    isbn: Option<string>,
    publisher: Option<string>,
    publicationYear: Option<int>,
    stock: Option<int>,
    description: Option<string>,
    coverImage: Option<string>)

  /** The validation of `store`, with `currentYear` the year of the request. */
  predicate StoreInputValid(books: seq<Book>, input: BookInput, currentYear: int): (r: bool)
    ensures r ==> input.isbn.Some? && forall b :: b in books ==> b.isbn != input.isbn.value
    ensures r ==> input.title.Some? && input.author.Some? && input.stock.Some? && input.stock.value >= 0
  {
    && input.title.Some? && ShortText(input.title.value)
    && input.author.Some? && ShortText(input.author.value)
    && input.isbn.Some? && |input.isbn.value| > 0 && IsbnFree(books, input.isbn.value, None)
    && (input.publisher.Some? ==> |input.publisher.value| <= 255)
    && (input.publicationYear.Some? ==> 1000 <= input.publicationYear.value <= currentYear)
    && input.stock.Some? && input.stock.value >= 0
  }

  /** The row `store` creates under key `id`: the sent fields, and every copy on the shelf. */
  function NewBook(id: int, input: BookInput): (r: Book)
    requires input.title.Some? && input.author.Some? && input.isbn.Some? && input.stock.Some?
    ensures r.id == id && r.available == r.stock == input.stock.value
    ensures r.title == input.title.value && r.author == input.author.value && r.isbn == input.isbn.value
    ensures r.publisher == input.publisher && r.publicationYear == input.publicationYear
    ensures r.description == input.description && r.coverImage == input.coverImage
  {
    Book(id, input.title.value, input.author.value, input.isbn.value, input.publisher,
         input.publicationYear, input.stock.value, input.stock.value, input.description, input.coverImage)
  }

  /**
   * Adding a book under the next key, with all its copies on the shelf, keeps
   * the store consistent and balanced: no loan names the new key yet.
   */
  lemma AddBookStep(books: seq<Book>, loans: seq<Borrowing>, nextBookId: int, nextBorrowingId: int, x: Book)
    requires Consistent(books, loans, nextBookId, nextBorrowingId)
    requires x.id == nextBookId && x.available == x.stock >= 0 && IsbnFree(books, x.isbn, None)
    ensures ActiveCount(loans, x.id) == 0 && BorrowingsOf(loans, x.id) == []
    ensures Consistent(books + [x], loans, nextBookId + 1, nextBorrowingId)
    ensures Balanced(books, loans) ==> Balanced(books + [x], loans)
  {
    var books1 := books + [x];
    assert BorrowingsOf(loans, x.id) == [] by {
      BorrowingsOfMembers(loans, x.id);
      if BorrowingsOf(loans, x.id) != [] {
        assert false;
      }
    }
    assert CatalogueConsistent(books1, nextBookId + 1) by {
      forall i, j | 0 <= i < j < |books1| ensures books1[i].id != books1[j].id && books1[i].isbn != books1[j].isbn {
        assert books1[i] == books[i];
        if j < |books| {
          assert books1[j] == books[j];
        }
      }
      forall i | 0 <= i < |books1| ensures books1[i].id < nextBookId + 1 && books1[i].stock >= 0 && books1[i].available >= 0 {
        if i < |books| {
          assert books1[i] == books[i];
        }
      }
    }
    assert ActiveLoansOnShelf(books1, loans) by {
      forall j | 0 <= j < |loans| && loans[j].status == Borrowed ensures FindBook(books1, loans[j].bookId).Some? {
        var i := FindBook(books, loans[j].bookId).value;
        assert books1[i] == books[i];
      }
    }
    if Balanced(books, loans) {
      forall i | 0 <= i < |books1| ensures Accounted(books1[i], loans) == books1[i].stock {
        if i < |books| {
          assert books1[i] == books[i];
        }
      }
    }
  }

  /** `store`: add a book; `currentYear` is the year of the request. */
  method Store(lib: Library, input: BookInput, currentYear: int) returns (code: Code)
    requires lib.Valid()
    modifies lib
    ensures lib.Valid()
    ensures lib.users == old(lib.users) && lib.borrowings == old(lib.borrowings)
    ensures lib.nextBorrowingId == old(lib.nextBorrowingId)
    ensures !StoreInputValid(old(lib.books), input, currentYear) ==> code == Unprocessable && unchanged(lib)
    ensures StoreInputValid(old(lib.books), input, currentYear) ==>
      && code == Created
      && lib.books == old(lib.books) + [NewBook(old(lib.nextBookId), input)]
      && lib.nextBookId == old(lib.nextBookId) + 1
    ensures old(Balanced(lib.books, lib.borrowings)) ==> Balanced(lib.books, lib.borrowings)
  {
    if !StoreInputValid(lib.books, input, currentYear) {
      code := Unprocessable;
      return;
    }
    var x := NewBook(lib.nextBookId, input);
    AddBookStep(lib.books, lib.borrowings, lib.nextBookId, lib.nextBorrowingId, x);
    lib.books := lib.books + [x];
    lib.nextBookId := lib.nextBookId + 1;
    code := Created;
  }

  /** The body of an `update` request; every key may be missing, and the nullable ones may be sent as null. */
  datatype BookPatch = BookPatch(
    title: Field<string>,
    author: Field<string>,
    isbn: Field<string>,
    publisher: Field<Option<string>>,
    publicationYear: Field<Option<int>>,
    stock: Field<int>,
    available: Field<int>,
    description: Field<Option<string>>,
    coverImage: Field<Option<string>>)

  /** The validation of `update` on the book with key `id`; `available` has no rule. */
  predicate PatchValid(books: seq<Book>, id: int, p: BookPatch, currentYear: int): (r: bool)
    ensures r && p.isbn.Given? ==> forall b :: b in books && b.id != id ==> b.isbn != p.isbn.value
    ensures r && p.stock.Given? ==> p.stock.value >= 0
  {
    && (p.title.Given? ==> ShortText(p.title.value))
    && (p.author.Given? ==> ShortText(p.author.value))
    && (p.isbn.Given? ==> |p.isbn.value| > 0 && IsbnFree(books, p.isbn.value, Some(id)))
    && (p.publisher.Given? && p.publisher.value.Some? ==> |p.publisher.value.value| <= 255)
    && (p.publicationYear.Given? && p.publicationYear.value.Some? ==>
          1000 <= p.publicationYear.value.value <= currentYear)
    && (p.stock.Given? ==> p.stock.value >= 0)
  }

  /**
   * The row `update` saves for book `b` with `active` active loans: every sent
   * key except `available` overwrites its column, and a sent stock `s` puts
   * `max(0, s - active)` copies on the shelf.
   */
  function ApplyPatch(b: Book, p: BookPatch, active: nat): (r: Book)
    ensures r.id == b.id
    ensures r == b.(title := p.title.Or(b.title), author := p.author.Or(b.author), isbn := p.isbn.Or(b.isbn),
                    publisher := p.publisher.Or(b.publisher), publicationYear := p.publicationYear.Or(b.publicationYear),
                    stock := p.stock.Or(b.stock), description := p.description.Or(b.description),
                    coverImage := p.coverImage.Or(b.coverImage), available := r.available)
    ensures p.stock.Absent? ==> r.stock == b.stock && r.available == b.available
    ensures p.stock.Given? ==>
      && r.stock == p.stock.value
      && r.available >= 0 && r.available >= p.stock.value - active
      && (r.available == 0 || r.available == p.stock.value - active)
  {
    var available := if p.stock.Given? && p.stock.value - active > 0 then p.stock.value - active
                     else if p.stock.Given? then 0
                     else b.available;
    Book(b.id, p.title.Or(b.title), p.author.Or(b.author), p.isbn.Or(b.isbn), p.publisher.Or(b.publisher),
         p.publicationYear.Or(b.publicationYear), p.stock.Or(b.stock), available,
         p.description.Or(b.description), p.coverImage.Or(b.coverImage))
  }

  /**
   * `update` never takes `available` from the request: whatever is sent for
   * it, the request is accepted or refused alike and the saved row is the same.
   */
  lemma PatchIgnoresAvailable(books: seq<Book>, b: Book, p: BookPatch, active: nat, sent: Field<int>, currentYear: int)
    ensures PatchValid(books, b.id, p.(available := sent), currentYear) == PatchValid(books, b.id, p, currentYear)
    ensures ApplyPatch(b, p.(available := sent), active) == ApplyPatch(b, p, active)
  {
  }

  /**
   * A stock edit leaves `available + activeCount` at `max(s, activeCount)`:
   * the book's accounts balance again exactly when the new stock covers the active loans.
   */
  lemma PatchAccounts(b: Book, p: BookPatch, active: nat)
    requires p.stock.Given? && p.stock.value >= 0
    ensures var r := ApplyPatch(b, p, active);
      && r.available + active == (if p.stock.value >= active then p.stock.value else active)
      && (r.available + active == r.stock <==> p.stock.value >= active)
      && 0 <= r.available <= r.stock
  {
  }

  /**
   * Saving an edited book row keeps the store consistent; the store stays
   * balanced when no stock is sent or the sent stock covers the active loans,
   * and is unbalanced afterwards when the sent stock is below them.
   */
  lemma EditBookStep(books: seq<Book>, loans: seq<Borrowing>, nextBookId: int, nextBorrowingId: int,
                     k: nat, p: BookPatch)
    requires Consistent(books, loans, nextBookId, nextBorrowingId)
    requires k < |books|
    requires p.isbn.Given? ==> IsbnFree(books, p.isbn.value, Some(books[k].id))
    requires p.stock.Given? ==> p.stock.value >= 0
    ensures var books1 := books[k := ApplyPatch(books[k], p, ActiveCount(loans, books[k].id))];
      && Consistent(books1, loans, nextBookId, nextBorrowingId)
      && (Balanced(books, loans) && (p.stock.Absent? || p.stock.value >= ActiveCount(loans, books[k].id)) ==>
            Balanced(books1, loans))
      && (p.stock.Given? && p.stock.value < ActiveCount(loans, books[k].id) ==> !Balanced(books1, loans))
  {
    var active := ActiveCount(loans, books[k].id);
    var x := ApplyPatch(books[k], p, active);
    var books1 := books[k := x];
    assert UniqueIsbns(books1) by {
      forall i, j | 0 <= i < j < |books1| ensures books1[i].isbn != books1[j].isbn {
        if i != k && j != k {
          assert books1[i] == books[i] && books1[j] == books[j];
        }
      }
    }
    assert UniqueBookIds(books1) by {
      forall i, j | 0 <= i < j < |books1| ensures books1[i].id != books1[j].id {
        assert books1[i].id == books[i].id && books1[j].id == books[j].id;
      }
    }
    forall j | 0 <= j < |loans| && loans[j].status == Borrowed ensures FindBook(books1, loans[j].bookId).Some? {
      var i := FindBook(books, loans[j].bookId).value;
      assert books1[i].id == books[i].id;
    }
    if Balanced(books, loans) && (p.stock.Absent? || p.stock.value >= active) {
      forall i | 0 <= i < |books1| ensures Accounted(books1[i], loans) == books1[i].stock {
        assert Accounted(books[i], loans) == books[i].stock;
      }
    }
    if p.stock.Given? && p.stock.value < active {
      assert Accounted(books1[k], loans) != books1[k].stock;
    }
  }

  /** `update`: edit the book with key `id`; `currentYear` is the year of the request. */
  method Update(lib: Library, id: int, p: BookPatch, currentYear: int) returns (code: Code)
    requires lib.Valid()
    modifies lib
    ensures lib.Valid()
    ensures lib.users == old(lib.users) && lib.borrowings == old(lib.borrowings)
    ensures lib.nextBookId == old(lib.nextBookId) && lib.nextBorrowingId == old(lib.nextBorrowingId)
    ensures FindBook(old(lib.books), id).None? ==> code == NotFound && unchanged(lib)
    ensures FindBook(old(lib.books), id).Some? && !PatchValid(old(lib.books), id, p, currentYear) ==>
      code == Unprocessable && unchanged(lib)
    ensures FindBook(old(lib.books), id).Some? && PatchValid(old(lib.books), id, p, currentYear) ==>
      var k := FindBook(old(lib.books), id).value;
      && code == Ok
      && lib.books == old(lib.books)[k := ApplyPatch(old(lib.books)[k], p, ActiveCount(old(lib.borrowings), id))]
    ensures old(Balanced(lib.books, lib.borrowings)) && (p.stock.Absent? || p.stock.value >= ActiveCount(lib.borrowings, id)) ==>
      Balanced(lib.books, lib.borrowings)
  {
    var found := FindBook(lib.books, id);
    if found.None? {
      code := NotFound;
      return;
    }
    var k := found.value;
    if !PatchValid(lib.books, id, p, currentYear) {
      code := Unprocessable;
      return;
    }
    EditBookStep(lib.books, lib.borrowings, lib.nextBookId, lib.nextBorrowingId, k, p);
    lib.books := lib.books[k := ApplyPatch(lib.books[k], p, ActiveCount(lib.borrowings, id))];
    code := Ok;
  }

  /** Deleting a book without active loans keeps the store consistent and balanced. */
  lemma DropBookStep(books: seq<Book>, loans: seq<Borrowing>, nextBookId: int, nextBorrowingId: int, k: nat)
    requires Consistent(books, loans, nextBookId, nextBorrowingId)
    requires k < |books| && ActiveCount(loans, books[k].id) == 0
    ensures Consistent(RemoveAt(books, k), loans, nextBookId, nextBorrowingId)
    ensures Balanced(books, loans) ==> Balanced(RemoveAt(books, k), loans)
  {
    var books1 := RemoveAt(books, k);
    assert CatalogueConsistent(books1, nextBookId) by {
      forall a, b | 0 <= a < b < |books1| ensures books1[a].id != books1[b].id && books1[a].isbn != books1[b].isbn {
        var a0 := if a < k then a else a + 1;
        var b0 := if b < k then b else b + 1;
        assert books1[a] == books[a0] && books1[b] == books[b0];
      }
      forall i | 0 <= i < |books1| ensures books1[i].id < nextBookId && books1[i].stock >= 0 && books1[i].available >= 0 {
        var i0 := if i < k then i else i + 1;
        assert books1[i] == books[i0];
      }
    }
    NoActiveBorrowings(loans, books[k].id);
    forall j | 0 <= j < |loans| && loans[j].status == Borrowed ensures FindBook(books1, loans[j].bookId).Some? {
      var i := FindBook(books, loans[j].bookId).value;
      assert i != k;
      var i1 := if i < k then i else i - 1;
      assert books1[i1] == books[i];
    }
    if Balanced(books, loans) {
      forall i | 0 <= i < |books1| ensures Accounted(books1[i], loans) == books1[i].stock {
        var i0 := if i < k then i else i + 1;
        assert books1[i] == books[i0];
      }
    }
  }

  /** `destroy`: delete the book with key `id`, unless one of its loans is active. */
  method Destroy(lib: Library, id: int) returns (code: Code)
    requires lib.Valid()
    modifies lib
    ensures lib.Valid()
    ensures lib.users == old(lib.users) && lib.borrowings == old(lib.borrowings)
    ensures lib.nextBookId == old(lib.nextBookId) && lib.nextBorrowingId == old(lib.nextBorrowingId)
    ensures FindBook(old(lib.books), id).None? ==> code == NotFound && unchanged(lib)
    ensures FindBook(old(lib.books), id).Some? && ActiveCount(old(lib.borrowings), id) > 0 ==>
      code == BadRequest && unchanged(lib)
    ensures FindBook(old(lib.books), id).Some? && ActiveCount(old(lib.borrowings), id) == 0 ==>
      code == Ok && lib.books == RemoveAt(old(lib.books), FindBook(old(lib.books), id).value)
    ensures old(Balanced(lib.books, lib.borrowings)) ==> Balanced(lib.books, lib.borrowings)
  {
    var found := FindBook(lib.books, id);
    if found.None? {
      code := NotFound;
      return;
    }
    var k := found.value;
    if ActiveCount(lib.borrowings, id) > 0 {
      code := BadRequest;
      return;
    }
    DropBookStep(lib.books, lib.borrowings, lib.nextBookId, lib.nextBorrowingId, k);
    lib.books := RemoveAt(lib.books, k);
    code := Ok;
  }

  /**
   * Clamping at zero loses copies. Take a book whose two copies are both out
   * on loan, edit its stock down to 1, and return both loans: the shelf then
   * holds 2 copies of a book whose stock is 1.
   */
  lemma StockCutThenReturns(b: Book, l1: Borrowing, l2: Borrowing, p: BookPatch)
    requires l1.bookId == b.id && l2.bookId == b.id && l1.status == Borrowed && l2.status == Borrowed
    requires p.stock == Given(1)
    ensures var edited := [ApplyPatch(b, p, ActiveCount([l1, l2], b.id))];
      var back := AddAvailable(AddAvailable(edited, 0, 1), 0, 1);
      && edited[0].stock == 1 && edited[0].available == 0
      && back[0].stock == 1 && back[0].available == 2
  {
    ActiveCountAppend([l1], l2, b.id);
    ActiveCountSingle(l1, b.id);
    assert [l1] + [l2] == [l1, l2];
  }
}
