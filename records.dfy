/**
 * The records of the library store: books, borrowings, the three borrowing
 * statuses, request fields and the result codes of the API actions.
 */
module Records {

  datatype Option<+T> = None | Some(value: T) {
    function GetOr(default: T): T {
      match this
      case Some(v) => v
      case None => default
    }
  }

  /** A key of a partial-update request: left out of the request, or sent with a value. */
  datatype Field<+T> = Absent | Given(value: T) {
    /** The sent value, or the stored one when the key is left out. */
    function Or(stored: T): T {
      match this
      case Given(v) => v
      case Absent => stored
    }
  }

  /** The `status` column of a borrowing. Only 'borrowed' counts as an active loan. */
  datatype Status = Borrowed | Returned | Overdue

  /** The string stored in the `status` column. */
  function StatusName(s: Status): string {
    match s
    case Borrowed => "borrowed"
    case Returned => "returned"
    case Overdue => "overdue"
  }

  /** Reads a status string as the validation rule `in:borrowed,returned,overdue` does. */
  function ParseStatus(t: string): (r: Option<Status>)
    ensures r.Some? <==> t == "borrowed" || t == "returned" || t == "overdue"
    ensures r.Some? ==> StatusName(r.value) == t
  {
    if t == "borrowed" then Some(Borrowed)
    else if t == "returned" then Some(Returned)
    else if t == "overdue" then Some(Overdue)
    else None
  }

  /** A row of the `books` table; `stock`, `available` and `publication_year` are integers. */
  datatype Book = Book(
    id: int,
    title: string,
    author: string,
    isbn: string,
    publisher: Option<string>,
    publicationYear: Option<int>,
    stock: int,
    available: int,
    description: Option<string>,
    coverImage: Option<string>)

  /** A row of the `borrowings` table; dates and the creation time are integers. */
  datatype Borrowing = Borrowing(
    id: int,
    userId: int,
    bookId: int,
    borrowDate: int,
    dueDate: int,
    returnDate: Option<int>,
    status: Status,
    notes: Option<string>,
    createdAt: int)

  /**
   * What an action answers: 200, 201, 400, 404, a validation failure (422),
   * or an unhandled error (500).
   */
  datatype Code = Ok | Created | BadRequest | NotFound | Unprocessable | ServerError
}
