/**
 * The persistent entities of the lending system, after the Django models of
 * the library app. Calendar dates are day numbers; "today" is always an
 * explicit parameter instead of a clock read.
 */
module Models {
  import opened Wrappers

  /** A calendar date, as a day number. */
  type Day = int

  /** Column widths of the `Book` table. */
  const TitleMaxLength := 100
  const AuthorMaxLength := 50
  const IsbnMaxLength := 17

  /** Length of a loan in the JSON API: the due date is sixty days after the borrow date. */
  const LoanDays := 60

  /**
   * A stored password. The salted hash itself is not modelled: a hash only
   * remembers which password it was made from. `Unusable` is what Django
   * stores when it is asked to hash a missing password.
   */
  datatype PasswordHash = Hashed(secret: string) | Unusable

  /** Does the raw password match the stored hash? */
  predicate CheckPassword(raw: string, h: PasswordHash)
  {
    h == Hashed(raw)
  }

  /** Hash a password; a missing password gives a hash nothing matches. */
  function MakePassword(raw: Option<string>): (h: PasswordHash)
    ensures raw.Some? ==> CheckPassword(raw.value, h)
    ensures raw.None? ==> forall p :: !CheckPassword(p, h)
  {
    if raw.Some? then Hashed(raw.value) else Unusable
  }

  /** A hash made from one password is matched by that password and no other. */
  lemma OnlyTheHashedPasswordMatches(raw: string, other: string)
    ensures CheckPassword(raw, MakePassword(Some(other))) <==> raw == other
  {
  }

  /** A row of the user table (Django's own `User`, of which the model uses the name and password). */
  datatype User = User(id: int, username: string, password: PasswordHash)

  /** A row of the `Book` table; the book's id is its key in the store. */
  datatype Book = Book(title: string, author: string, isbn: string, isBorrowed: bool)

  /** Do the three text fields fit their columns? The ISBN may be empty. */
  predicate FitsColumns(title: string, author: string, isbn: string)
  {
    |title| <= TitleMaxLength && |author| <= AuthorMaxLength && |isbn| <= IsbnMaxLength
  }

  /** A freshly created book: `is_borrowed` takes its default, false. */
  function NewBook(title: string, author: string, isbn: string): (b: Book)
    ensures !b.isBorrowed
    ensures b.title == title && b.author == author && b.isbn == isbn
  {
    Book(title, author, isbn, false)
  }

  /**
   * A row of the `BorrowRecord` table. `returnDate` is the field the JSON API
   * writes on return; the older schema has no such column and leaves it `None`.
   */
  datatype BorrowRecord = BorrowRecord(
    id: int,
    userId: int,
    bookId: int,
    borrowDate: Day,
    dueDate: Day,
    returned: bool,
    returnDate: Option<Day>)

  /**
   * A freshly created record: `borrow_date` is stamped with today's date
   * (`auto_now_add`, which overrides any value passed in) and `returned`
   * takes its default, false.
   */
  function NewRecord(id: int, userId: int, bookId: int, today: Day, due: Day): (r: BorrowRecord)
    ensures !r.returned && r.returnDate.None?
    ensures r.borrowDate == today && r.dueDate == due
    ensures r.id == id && r.userId == userId && r.bookId == bookId
  {
    BorrowRecord(id, userId, bookId, today, due, false, None)
  }

  /** The `is_overdue` property: past the due date and not yet returned. */
  predicate IsOverdue(r: BorrowRecord, today: Day)
  {
    r.dueDate < today && !r.returned
  }

  /** A returned record is never overdue, whatever its due date. */
  lemma ReturnedIsNeverOverdue(r: BorrowRecord, today: Day)
    requires r.returned
    ensures !IsOverdue(r, today)
  {
  }

  /** An open record that is overdue stays overdue on every later day. */
  lemma OverdueStaysOverdue(r: BorrowRecord, day: Day, later: Day)
    requires IsOverdue(r, day) && day <= later
    ensures IsOverdue(r, later)
  {
  }

  /** A loan of the JSON API is overdue exactly from the sixty-first day on, while open. */
  lemma ApiLoanFallsDueAfterSixtyDays(id: int, userId: int, bookId: int, borrowed: Day, today: Day)
    ensures IsOverdue(NewRecord(id, userId, bookId, borrowed, borrowed + LoanDays), today)
            <==> today > borrowed + 60
  {
  }
}
