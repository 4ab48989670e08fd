/**
 * The JSON API of the lending server (`libmanagesystem/backend/libmanage/views.py`).
 *
 * Each handler is first stated as a function from the database and the
 * request to the new database and the JSON reply; the class `LibraryApi`
 * then holds the tables as fields and performs the same steps in place.
 * Internal server errors (the catch-all 500 replies) are not modelled:
 * every database call here succeeds unless the code itself rejects the request.
 */
module ApiViews {
  import opened Wrappers
  import opened Seqs
  import opened Models
  import opened Store

  /**
   * The request body as the handler sees it: parsed JSON fields, a body whose
   * content type is not `application/json`, or text the JSON decoder rejects
   * (with the decoder's message).
   */
  datatype Body<T> = Json(fields: T) | NotJson | BadJson(detail: string)

  /** `username` and `password` of a login or register request; `None` when absent. Only string values are modelled. */
  datatype Credentials = Credentials(username: Option<string>, password: Option<string>)

  /** `title`, `author` and `isbn` of a book-create request. */
  datatype BookFields = BookFields(title: Option<string>, author: Option<string>, isbn: Option<string>)

  /** One entry of `borrowed_books` on the user's home page (it has no `returned` field). */
  datatype OpenLoanRow = OpenLoanRow(id: int, bookTitle: string, borrowDate: Day, dueDate: Day, isOverdue: bool)

  /** One entry of `all_records` on the user's home page. */
  datatype LoanRow = LoanRow(
    id: int, bookTitle: string, borrowDate: Day, dueDate: Day,
    returnDate: Option<Day>, returned: bool, isOverdue: bool)

  /** The data merged into a reply next to `error` and `message`. */
  datatype Payload =
    | NoData
    | Account(userId: int, username: string)
    | CreatedBook(bookId: int)
    | Home(username: string, borrowedBooks: seq<OpenLoanRow>, allRecords: seq<LoanRow>, now: Day)

  /** A JSON reply: HTTP status, the `error` flag, the `message` text and the extra data. */
  datatype Response = Response(status: int, error: bool, message: string, payload: Payload)

  /** The database after a handler and the reply it sends. */
  datatype Step = Step(db: Db, resp: Response)

  /** `error_response`: the flag set and no extra data. */
  function Failure(message: string, status: int): (r: Response)
    ensures r.error && r.message == message && r.status == status && r.payload.NoData?
  {
    Response(status, true, message, NoData)
  }

  /** `success_response`: the flag cleared. */
  function Success(message: string, payload: Payload, status: int): (r: Response)
    ensures !r.error && r.message == message && r.status == status && r.payload == payload
  {
    Response(status, false, message, payload)
  }

  /** A JSON string field is truthy when present and non-empty. */
  predicate Filled(s: Option<string>)
  {
    s.Some? && s.value != ""
  }

  /** A JSON `user_id` is truthy when present and not zero. */
  predicate GivenId(id: Option<int>)
  {
    id.Some? && id.value != 0
  }

  /** The reply to a body that is not usable JSON, if it is not. */
  function BodyFailure<T>(body: Body<T>): (r: Option<Response>)
    ensures r.None? <==> body.Json?
    ensures r.Some? ==> r.value.error && r.value.status == 400
  {
    match body
    case Json(_) => None
    case NotJson => Some(Failure("Content-Type must be application/json", 400))
    case BadJson(detail) => Some(Failure("Invalid JSON: " + detail, 400))
  }

  // ---------------------------------------------------------------------
  // Accounts

  /** `login_api` (lines 39-76): a reply only; the database is not touched. */
  function LoginReply(db: Db, body: Body<Credentials>): (r: Response)
    requires UniqueUsernames(db.users)
    ensures !r.error <==>
              body.Json? && Filled(body.fields.username) && Filled(body.fields.password) &&
              exists i :: 0 <= i < |db.users| && db.users[i].username == body.fields.username.value &&
                          CheckPassword(body.fields.password.value, db.users[i].password)
    ensures !r.error ==>
              && UserByName(db.users, body.fields.username.value).Some?
              && r.status == 200
              && r.message == "歡迎：" + body.fields.username.value
              && r.payload == Account(db.users[UserByName(db.users, body.fields.username.value).value].id,
                                      body.fields.username.value)
    ensures r.error ==> r.status == 400
  {
    match BodyFailure(body)
    case Some(fail) => fail
    case None =>
      var c := body.fields;
      if !Filled(c.username) || !Filled(c.password) then Failure("請輸入帳號與密碼", 400)
      else match UserByName(db.users, c.username.value)
        case None => Failure("帳號或密碼錯誤", 400)
        case Some(i) =>
          var u := db.users[i];
          if !CheckPassword(c.password.value, u.password) then Failure("帳號或密碼錯誤", 400)
          else Success("歡迎：" + u.username, Account(u.id, u.username), 200)
  }

  /** An unknown username and a wrong password get the very same reply. */
  lemma LoginHidesWhichCheckFailed(db: Db, name: string, password: string)
    requires UniqueUsernames(db.users)
    requires name != "" && password != ""
    requires forall i :: 0 <= i < |db.users| && db.users[i].username == name ==>
                           !CheckPassword(password, db.users[i].password)
    ensures LoginReply(db, Json(Credentials(Some(name), Some(password)))) == Failure("帳號或密碼錯誤", 400)
  {
  }

  /** `register_api` (lines 80-119). */
  function RegisterStep(db: Db, body: Body<Credentials>): (r: Step)
    ensures !r.resp.error <==>
              body.Json? && Filled(body.fields.username) && Filled(body.fields.password) &&
              forall i :: 0 <= i < |db.users| ==> db.users[i].username != body.fields.username.value
    ensures r.resp.error ==> r.db == db && r.resp.status == 400
    ensures !r.resp.error ==>
              && r.resp.status == 201
              && r.db.users == db.users + [User(db.nextUserId, body.fields.username.value,
                                                MakePassword(body.fields.password))]
              && r.db.books == db.books && r.db.records == db.records
              && r.db == AddUser(db, body.fields.username.value, MakePassword(body.fields.password))
              && r.resp.payload == Account(db.nextUserId, body.fields.username.value)
  {
    match BodyFailure(body)
    case Some(fail) => Step(db, fail)
    case None =>
      var c := body.fields;
      if !Filled(c.username) || !Filled(c.password) then Step(db, Failure("請輸入帳號與密碼", 400))
      else if UserByName(db.users, c.username.value).Some? then Step(db, Failure("帳號已存在", 400))
      else
        var id := db.nextUserId;
        Step(AddUser(db, c.username.value, MakePassword(c.password)),
             Success("註冊成功", Account(id, c.username.value), 201))
  }

  lemma RegisterKeepsConsistent(db: Db, body: Body<Credentials>)
    requires Consistent(db)
    ensures Consistent(RegisterStep(db, body).db)
  {
    if !RegisterStep(db, body).resp.error {
      AddUserKeepsConsistent(db, body.fields.username.value, MakePassword(body.fields.password));
    }
  }

  /** After a successful registration the same credentials log in, as the new user. */
  lemma RegisteredUserCanLogIn(db: Db, name: string, password: string)
    requires Consistent(db)
    requires !RegisterStep(db, Json(Credentials(Some(name), Some(password)))).resp.error
    ensures var db' := RegisterStep(db, Json(Credentials(Some(name), Some(password)))).db;
            LoginReply(db', Json(Credentials(Some(name), Some(password)))).payload ==
              Account(db.nextUserId, name)
  {
    var body := Json(Credentials(Some(name), Some(password)));
    var db' := RegisterStep(db, body).db;
    RegisterKeepsConsistent(db, body);
    var n := |db.users|;
    assert db'.users[n].username == name;
    var i := UserByName(db'.users, name).value;
    assert i == n by {
      assert db'.users[i].username == db'.users[n].username;
    }
  }

  // ---------------------------------------------------------------------
  // The user's home page

  /** The title of a record's book. */
  function TitleOf(books: map<int, Book>, r: BorrowRecord): string
    requires r.bookId in books
  {
    books[r.bookId].title
  }

  /** `borrowed_books`: one entry per record, in order. */
  function OpenLoanRows(rs: seq<BorrowRecord>, books: map<int, Book>, today: Day): (rows: seq<OpenLoanRow>)
    requires RecordsReferToBooks(rs, books)
    ensures |rows| == |rs|
    ensures forall k :: 0 <= k < |rs| ==>
              rows[k] == OpenLoanRow(rs[k].id, TitleOf(books, rs[k]), rs[k].borrowDate, rs[k].dueDate,
                                     IsOverdue(rs[k], today))
  {
    seq(|rs|, k requires 0 <= k < |rs| =>
      OpenLoanRow(rs[k].id, TitleOf(books, rs[k]), rs[k].borrowDate, rs[k].dueDate, IsOverdue(rs[k], today)))
  }

  /** `all_records`: one entry per record, in order. */
  function LoanRows(rs: seq<BorrowRecord>, books: map<int, Book>, today: Day): (rows: seq<LoanRow>)
    requires RecordsReferToBooks(rs, books)
    ensures |rows| == |rs|
    ensures forall k :: 0 <= k < |rs| ==>
              rows[k] == LoanRow(rs[k].id, TitleOf(books, rs[k]), rs[k].borrowDate, rs[k].dueDate,
                                 rs[k].returnDate, rs[k].returned, IsOverdue(rs[k], today))
  {
    seq(|rs|, k requires 0 <= k < |rs| =>
      LoanRow(rs[k].id, TitleOf(books, rs[k]), rs[k].borrowDate, rs[k].dueDate,
              rs[k].returnDate, rs[k].returned, IsOverdue(rs[k], today)))
  }

  /** The `borrowed_books` loop: one row per record, each with its book's title and overdue flag. */
  method BuildOpenLoanRows(rs: seq<BorrowRecord>, books: map<int, Book>, today: Day) returns (rows: seq<OpenLoanRow>)
    requires RecordsReferToBooks(rs, books)
    ensures rows == OpenLoanRows(rs, books, today)
  {
    rows := [];
    for k := 0 to |rs|
      invariant |rows| == k
      invariant forall j :: 0 <= j < k ==>
                  rows[j] == OpenLoanRow(rs[j].id, TitleOf(books, rs[j]), rs[j].borrowDate,
                                         rs[j].dueDate, IsOverdue(rs[j], today))
    {
      var rec := rs[k];
      rows := rows + [OpenLoanRow(rec.id, books[rec.bookId].title, rec.borrowDate, rec.dueDate,
                                  IsOverdue(rec, today))];
    }
  }

  /** The `all_records` loop: one row per record, with its return state and overdue flag. */
  method BuildLoanRows(rs: seq<BorrowRecord>, books: map<int, Book>, today: Day) returns (rows: seq<LoanRow>)
    requires RecordsReferToBooks(rs, books)
    ensures rows == LoanRows(rs, books, today)
  {
    rows := [];
    for k := 0 to |rs|
      invariant |rows| == k
      invariant forall j :: 0 <= j < k ==>
                  rows[j] == LoanRow(rs[j].id, TitleOf(books, rs[j]), rs[j].borrowDate, rs[j].dueDate,
                                     rs[j].returnDate, rs[j].returned, IsOverdue(rs[j], today))
    {
      var rec := rs[k];
      rows := rows + [LoanRow(rec.id, books[rec.bookId].title, rec.borrowDate, rec.dueDate,
                              rec.returnDate, rec.returned, IsOverdue(rec, today))];
    }
  }

  /** Records drawn from the table still refer to existing books. */
  lemma SubsetReferToBooks(rs: seq<BorrowRecord>, records: seq<BorrowRecord>, books: map<int, Book>)
    requires RecordsReferToBooks(records, books)
    requires forall k :: 0 <= k < |rs| ==> rs[k] in records
    ensures RecordsReferToBooks(rs, books)
  {
    forall k | 0 <= k < |rs| ensures rs[k].bookId in books {
      var j :| 0 <= j < |records| && records[j] == rs[k];
    }
  }

  /** The user's unreturned records, in id order. */
  function BorrowedList(db: Db, userId: int, today: Day): (rows: seq<OpenLoanRow>)
    requires RecordsReferToBooks(db.records, db.books)
    ensures |rows| == |OpenLoansOf(db.records, userId)|
  {
    var open := OpenLoansOf(db.records, userId);
    SubsetReferToBooks(open, db.records, db.books);
    OpenLoanRows(open, db.books, today)
  }

  /** All the user's records, newest first. */
  function HistoryList(db: Db, userId: int, today: Day): seq<LoanRow>
    requires RecordsReferToBooks(db.records, db.books)
  {
    var all := SortNewestFirst(LoansOf(db.records, userId));
    SortedLoansAreTheUsers(db.records, userId, all);
    SubsetReferToBooks(all, db.records, db.books);
    LoanRows(all, db.books, today)
  }

  /** `user_home_api` (lines 127-175): `userId` is the `user_id` query parameter, `None` when absent or empty. */
  function UserHomeReply(db: Db, userId: Option<int>, today: Day): (r: Response)
    requires RecordsReferToBooks(db.records, db.books)
    ensures userId.None? ==> r == Failure("User ID is required", 401)
    ensures userId.Some? && UserById(db.users, userId.value).None? ==> r == Failure("User not found", 404)
    ensures !r.error <==> userId.Some? && UserById(db.users, userId.value).Some?
    ensures !r.error ==> r.status == 200 && r.payload.Home? && r.payload.now == today &&
                         r.payload.username == db.users[UserById(db.users, userId.value).value].username &&
                         r.payload.borrowedBooks == BorrowedList(db, userId.value, today) &&
                         r.payload.allRecords == HistoryList(db, userId.value, today)
  {
    if userId.None? then Failure("User ID is required", 401)
    else match UserById(db.users, userId.value)
      case None => Failure("User not found", 404)
      case Some(i) =>
        Success("資料載入成功",
                Home(db.users[i].username, BorrowedList(db, userId.value, today),
                     HistoryList(db, userId.value, today), today),
                200)
  }

  /** The row stands for an unreturned record of the user, with its overdue flag computed for today. */
  ghost predicate IsOpenLoanRowOf(db: Db, userId: int, today: Day, row: OpenLoanRow)
  {
    exists j :: 0 <= j < |db.records| && db.records[j].id == row.id &&
                db.records[j].userId == userId && !db.records[j].returned &&
                row.isOverdue == (db.records[j].dueDate < today)
  }

  /** Every entry of `borrowed_books` is an unreturned record of the user, with overdue computed for today. */
  lemma BorrowedListHasOnlyOpenLoans(db: Db, userId: int, today: Day)
    requires RecordsReferToBooks(db.records, db.books)
    ensures forall row :: row in BorrowedList(db, userId, today) ==> IsOpenLoanRowOf(db, userId, today, row)
  {
    var rows := BorrowedList(db, userId, today);
    var open := OpenLoansOf(db.records, userId);
    SubsetReferToBooks(open, db.records, db.books);
    assert rows == OpenLoanRows(open, db.books, today);
    forall row | row in rows ensures IsOpenLoanRowOf(db, userId, today, row) {
      var k :| 0 <= k < |rows| && rows[k] == row;
      assert open[k] in db.records && open[k].userId == userId && !open[k].returned;
      var j :| 0 <= j < |db.records| && db.records[j] == open[k];
      assert db.records[j].id == row.id;
    }
  }

  /** Every unreturned record of the user appears in `borrowed_books`. */
  lemma BorrowedListHasEveryOpenLoan(db: Db, userId: int, today: Day)
    requires RecordsReferToBooks(db.records, db.books)
    ensures var rows := BorrowedList(db, userId, today);
            forall j :: 0 <= j < |db.records| && db.records[j].userId == userId && !db.records[j].returned ==>
              exists k :: 0 <= k < |rows| && rows[k].id == db.records[j].id
  {
    var rows := BorrowedList(db, userId, today);
    var open := OpenLoansOf(db.records, userId);
    SubsetReferToBooks(open, db.records, db.books);
    assert rows == OpenLoanRows(open, db.books, today);
    forall j | 0 <= j < |db.records| && db.records[j].userId == userId && !db.records[j].returned
      ensures exists k :: 0 <= k < |rows| && rows[k].id == db.records[j].id
    {
      OpenLoansOfIsComplete(db.records, userId, j);
      var k :| 0 <= k < |open| && open[k] == db.records[j];
      assert rows[k].id == open[k].id;
    }
  }

  /** `all_records` has one entry per record of the user, newest borrow date first. */
  lemma HistoryListIsNewestFirst(db: Db, userId: int, today: Day)
    requires RecordsReferToBooks(db.records, db.books)
    ensures var rows := HistoryList(db, userId, today);
            && (forall i, j :: 0 <= i < j < |rows| ==> rows[i].borrowDate >= rows[j].borrowDate)
            && |rows| == |LoansOf(db.records, userId)|
  {
    var loans := LoansOf(db.records, userId);
    var all := SortNewestFirst(loans);
    assert |all| == |loans| by {
      assert |multiset(all)| == |multiset(loans)|;
    }
  }

  /** Every record of the user appears in `all_records`. */
  lemma HistoryListHasEveryLoan(db: Db, userId: int, today: Day)
    requires RecordsReferToBooks(db.records, db.books)
    ensures var rows := HistoryList(db, userId, today);
            forall j :: 0 <= j < |db.records| && db.records[j].userId == userId ==>
              exists k :: 0 <= k < |rows| && rows[k].id == db.records[j].id
  {
    var rows := HistoryList(db, userId, today);
    var all := SortNewestFirst(LoansOf(db.records, userId));
    SortedLoansAreTheUsers(db.records, userId, all);
    SubsetReferToBooks(all, db.records, db.books);
    assert rows == LoanRows(all, db.books, today);
    forall j | 0 <= j < |db.records| && db.records[j].userId == userId
      ensures exists k :: 0 <= k < |rows| && rows[k].id == db.records[j].id
    {
      SortedLoansAreComplete(db.records, userId, j);
      LoanRowsCoverRecords(all, db.books, today, db.records[j]);
    }
  }

  /** A record of the list has an entry, under its id. */
  lemma LoanRowsCoverRecords(rs: seq<BorrowRecord>, books: map<int, Book>, today: Day, x: BorrowRecord)
    requires RecordsReferToBooks(rs, books) && x in rs
    ensures exists k :: 0 <= k < |LoanRows(rs, books, today)| && LoanRows(rs, books, today)[k].id == x.id
  {
    var k :| 0 <= k < |rs| && rs[k] == x;
    assert LoanRows(rs, books, today)[k].id == rs[k].id;
  }

  // ---------------------------------------------------------------------
  // Books

  /** `book_create_api` (lines 192-221); a value too long for its column is refused by the database with `dbError`. */
  function CreateBookStep(db: Db, body: Body<BookFields>, dbError: string): (r: Step)
    ensures r.resp.error ==> r.db == db && r.resp.status == 400
    ensures body.Json? && !(Filled(body.fields.title) && Filled(body.fields.author) && Filled(body.fields.isbn)) ==>
              r == Step(db, Failure("請填寫所有欄位", 400))
    ensures body.Json? && Filled(body.fields.title) && Filled(body.fields.author) && Filled(body.fields.isbn) &&
            !FitsColumns(body.fields.title.value, body.fields.author.value, body.fields.isbn.value) ==>
              r == Step(db, Failure("新增失敗：" + dbError, 400))
    ensures !r.resp.error <==>
              body.Json? && Filled(body.fields.title) && Filled(body.fields.author) && Filled(body.fields.isbn) &&
              FitsColumns(body.fields.title.value, body.fields.author.value, body.fields.isbn.value)
    ensures !r.resp.error ==>
              && r.resp.status == 201 && r.resp.message == "書籍新增成功" && r.resp.payload == CreatedBook(db.nextBookId)
              && r.db.books == db.books[db.nextBookId := NewBook(body.fields.title.value, body.fields.author.value,
                                                                body.fields.isbn.value)]
              && r.db.records == db.records && r.db.users == db.users
              && r.db == AddBook(db, body.fields.title.value, body.fields.author.value, body.fields.isbn.value)
  {
    match BodyFailure(body)
    case Some(fail) => Step(db, fail)
    case None =>
      var f := body.fields;
      if !(Filled(f.title) && Filled(f.author) && Filled(f.isbn)) then Step(db, Failure("請填寫所有欄位", 400))
      else if !FitsColumns(f.title.value, f.author.value, f.isbn.value) then Step(db, Failure("新增失敗：" + dbError, 400))
      else
        var id := db.nextBookId;
        Step(AddBook(db, f.title.value, f.author.value, f.isbn.value), Success("書籍新增成功", CreatedBook(id), 201))
  }

  lemma CreateBookKeepsConsistent(db: Db, body: Body<BookFields>, dbError: string)
    requires Consistent(db)
    ensures Consistent(CreateBookStep(db, body, dbError).db)
  {
    if !CreateBookStep(db, body, dbError).resp.error {
      var f := body.fields;
      AddBookKeepsConsistent(db, f.title.value, f.author.value, f.isbn.value);
    }
  }

  /** `book_delete_api` (lines 225-241): the book and, by the cascade, all its records go. */
  function DeleteBookStep(db: Db, bookId: int): (r: Step)
    ensures bookId !in db.books ==> r == Step(db, Failure("書籍不存在", 404))
    ensures bookId in db.books ==>
              && !r.resp.error
              && r.resp.message == "書籍 \"" + db.books[bookId].title + "\" 已成功刪除"
              && r.db.books == db.books - {bookId}
              && r.db.records == RecordsWithout(db.records, bookId)
              && r.resp.status == 200 && r.resp.payload.NoData?
              && r.db.users == db.users
              && r.db.nextUserId == db.nextUserId && r.db.nextBookId == db.nextBookId
              && r.db.nextRecordId == db.nextRecordId
              && (forall k :: 0 <= k < |r.db.records| ==> r.db.records[k].bookId != bookId && r.db.records[k] in db.records)
  {
    if bookId !in db.books then Step(db, Failure("書籍不存在", 404))
    else Step(RemoveBook(db, bookId), Success("書籍 \"" + db.books[bookId].title + "\" 已成功刪除", NoData, 200))
  }

  // ---------------------------------------------------------------------
  // Lending

  /**
   * `borrow_book_api` (lines 245-295). `userId` is the JSON `user_id`;
   * `dateText` is the `%Y-%m-%d` rendering of a day.
   */
  function BorrowStep(db: Db, bookId: int, body: Body<Option<int>>, today: Day, dateText: Day -> string): (r: Step)
    ensures r.resp.error ==> r.db == db
    ensures body.Json? && !GivenId(body.fields) ==> r.resp == Failure("User ID is required", 401)
    ensures body.Json? && GivenId(body.fields) && UserById(db.users, body.fields.value).None? ==>
              r.resp == Failure("使用者不存在", 404)
    ensures body.Json? && GivenId(body.fields) && UserById(db.users, body.fields.value).Some? && bookId !in db.books ==>
              r.resp == Failure("書籍不存在", 404)
    ensures bookId in db.books && db.books[bookId].isBorrowed ==> r.resp.error
    ensures !r.resp.error <==>
              body.Json? && GivenId(body.fields) && UserById(db.users, body.fields.value).Some? &&
              bookId in db.books && !db.books[bookId].isBorrowed &&
              !HasOpenLoanBy(db.records, body.fields.value, bookId)
    ensures !r.resp.error ==>
              && r.db.records == db.records + [NewRecord(db.nextRecordId, body.fields.value, bookId, today, today + LoanDays)]
              && r.db.books == db.books[bookId := db.books[bookId].(isBorrowed := true)]
              && r.db.users == db.users
              && r.db == OpenLoan(db, body.fields.value, bookId, today, today + LoanDays)
              && r.resp.status == 200 && r.resp.payload.NoData?
              && r.resp.message == db.books[bookId].title + " 借閱成功，歸還日期：" + dateText(today + LoanDays)
  {
    match BodyFailure(body)
    case Some(fail) => Step(db, fail)
    case None =>
      if !GivenId(body.fields) then Step(db, Failure("User ID is required", 401))
      else
        var userId := body.fields.value;
        if UserById(db.users, userId).None? then Step(db, Failure("使用者不存在", 404))
        else if bookId !in db.books then Step(db, Failure("書籍不存在", 404))
        else
          var book := db.books[bookId];
          if book.isBorrowed then Step(db, Failure("此書已被借出", 400))
          else if HasOpenLoanBy(db.records, userId, bookId) then Step(db, Failure("您已借閱此書且尚未歸還", 409))
          else
            var due := today + LoanDays;
            Step(OpenLoan(db, userId, bookId, today, due),
                 Success(book.title + " 借閱成功，歸還日期：" + dateText(due), NoData, 200))
  }

  /** Borrowing a book marked borrowed is refused with "此書已被借出" whoever asks. */
  lemma BorrowingABorrowedBookFails(db: Db, bookId: int, userId: int, today: Day, dateText: Day -> string)
    requires userId != 0 && UserById(db.users, userId).Some?
    requires bookId in db.books && db.books[bookId].isBorrowed
    ensures BorrowStep(db, bookId, Json(Some(userId)), today, dateText) == Step(db, Failure("此書已被借出", 400))
  {
  }

  /** In a consistent store the 409 reply cannot happen: an available book has no open record at all. */
  lemma DuplicateLoanReplyUnreachable(db: Db, bookId: int, body: Body<Option<int>>, today: Day, dateText: Day -> string)
    requires Consistent(db)
    ensures BorrowStep(db, bookId, body, today, dateText).resp.status != 409
  {
    if body.Json? && GivenId(body.fields) && bookId in db.books && !db.books[bookId].isBorrowed {
      assert !HasOpenLoan(db.records, bookId);
    }
  }

  lemma BorrowKeepsConsistent(db: Db, bookId: int, body: Body<Option<int>>, today: Day, dateText: Day -> string)
    requires Consistent(db)
    ensures Consistent(BorrowStep(db, bookId, body, today, dateText).db)
  {
    if !BorrowStep(db, bookId, body, today, dateText).resp.error {
      OpenLoanKeepsConsistent(db, body.fields.value, bookId, today, today + LoanDays);
    }
  }

  /** `return_book_api` (lines 299-322). */
  function ReturnStep(db: Db, recordId: int, today: Day): (r: Step)
    requires RecordsReferToBooks(db.records, db.books)
    ensures RecordById(db.records, recordId).None? ==> r == Step(db, Failure("借閱記錄不存在", 404))
    ensures RecordById(db.records, recordId).Some? && db.records[RecordById(db.records, recordId).value].returned ==>
              r == Step(db, Failure("此書已歸還", 409))
    ensures !r.resp.error <==>
              RecordById(db.records, recordId).Some? && !db.records[RecordById(db.records, recordId).value].returned
    ensures !r.resp.error ==>
              var i := RecordById(db.records, recordId).value;
              var rec := db.records[i];
              && |r.db.records| == |db.records|
              && r.db.records[i] == rec.(returned := true, returnDate := Some(today))
              && (forall k :: 0 <= k < |db.records| && k != i ==> r.db.records[k] == db.records[k])
              && r.db.books == db.books[rec.bookId := db.books[rec.bookId].(isBorrowed := false)]
              && r.db.users == db.users
              && r.db == CloseLoan(db, i, Some(today))
              && r.resp.status == 200 && r.resp.payload.NoData?
              && r.resp.message == db.books[rec.bookId].title + " 已成功歸還"
  {
    match RecordById(db.records, recordId)
    case None => Step(db, Failure("借閱記錄不存在", 404))
    case Some(i) =>
      var rec := db.records[i];
      if rec.returned then Step(db, Failure("此書已歸還", 409))
      else Step(CloseLoan(db, i, Some(today)), Success(db.books[rec.bookId].title + " 已成功歸還", NoData, 200))
  }

  lemma ReturnKeepsConsistent(db: Db, recordId: int, today: Day)
    requires Consistent(db)
    ensures Consistent(ReturnStep(db, recordId, today).db)
  {
    if !ReturnStep(db, recordId, today).resp.error {
      CloseLoanKeepsConsistent(db, RecordById(db.records, recordId).value, Some(today));
    }
  }

  /** Borrowing and then returning through the new record leaves the book available again. */
  lemma BorrowThenReturnFreesTheBook(db: Db, bookId: int, userId: int, today: Day, later: Day, dateText: Day -> string)
    requires Consistent(db)
    requires !BorrowStep(db, bookId, Json(Some(userId)), today, dateText).resp.error
    ensures var db1 := BorrowStep(db, bookId, Json(Some(userId)), today, dateText).db;
            Consistent(db1) &&
            var db2 := ReturnStep(db1, db.nextRecordId, later).db;
            !ReturnStep(db1, db.nextRecordId, later).resp.error &&
            bookId in db2.books && !db2.books[bookId].isBorrowed
  {
    var db1 := BorrowStep(db, bookId, Json(Some(userId)), today, dateText).db;
    BorrowKeepsConsistent(db, bookId, Json(Some(userId)), today, dateText);
    var n := |db.records|;
    assert db1.records[n].id == db.nextRecordId;
    forall k | 0 <= k < |db1.records| && k != n
      ensures db1.records[k].id != db.nextRecordId
    {
      assert db1.records[k] == db.records[k];
    }
  }

  // ---------------------------------------------------------------------
  // The server, holding its tables

  class LibraryApi {
    var users: seq<User>
    var books: map<int, Book>
    var records: seq<BorrowRecord>
    var nextUserId: int
    var nextBookId: int
    var nextRecordId: int

    /** The tables as one value. */
    function Snapshot(): Db
      reads this
    {
      Db(users, books, records, nextUserId, nextBookId, nextRecordId)
    }

    ghost predicate Valid()
      reads this
    {
      Consistent(Snapshot())
    }

    /** A server over empty tables. */
    constructor ()
      ensures Valid() && Snapshot() == EmptyDb
    {
      users, books, records := [], map[], [];
      nextUserId, nextBookId, nextRecordId := 1, 1, 1;
      EmptyDbIsConsistent();
    }

    method Login(body: Body<Credentials>) returns (resp: Response)
      requires Valid()
      ensures resp == LoginReply(Snapshot(), body)
    {
      var fail := BodyFailure(body);
      if fail.Some? {
        return fail.value;
      }
      var c := body.fields;
      if !Filled(c.username) || !Filled(c.password) {
        return Failure("請輸入帳號與密碼", 400);
      }
      var i := UserByName(users, c.username.value);
      if i.None? || !CheckPassword(c.password.value, users[i.value].password) {
        return Failure("帳號或密碼錯誤", 400);
      }
      var u := users[i.value];
      resp := Success("歡迎：" + u.username, Account(u.id, u.username), 200);
    }

    method Register(body: Body<Credentials>) returns (resp: Response)
      requires Valid()
      modifies this
      ensures Valid()
      ensures Step(Snapshot(), resp) == RegisterStep(old(Snapshot()), body)
    {
      RegisterKeepsConsistent(Snapshot(), body);
      var fail := BodyFailure(body);
      if fail.Some? {
        return fail.value;
      }
      var c := body.fields;
      if !Filled(c.username) || !Filled(c.password) {
        return Failure("請輸入帳號與密碼", 400);
      }
      if UserByName(users, c.username.value).Some? {
        return Failure("帳號已存在", 400);
      }
      var id := nextUserId;
      users := users + [User(id, c.username.value, MakePassword(c.password))];
      nextUserId := nextUserId + 1;
      resp := Success("註冊成功", Account(id, c.username.value), 201);
    }

    /**
     * `user_home_api`: one scan of the record table collects the user's records and the
     * unreturned ones; the history is sorted newest first; each list is then turned into rows.
     */
    method UserHome(userId: Option<int>, today: Day) returns (resp: Response)
      requires Valid()
      ensures resp == UserHomeReply(Snapshot(), userId, today)
    {
      if userId.None? {
        return Failure("User ID is required", 401);
      }
      var id := userId.value;
      var i := UserById(users, id);
      if i.None? {
        return Failure("User not found", 404);
      }
      var mine, open := ScanLoans(records, id);
      var all := SortNewestFirst(mine);
      SubsetReferToBooks(open, records, books);
      SortedLoansAreTheUsers(records, id, all);
      SubsetReferToBooks(all, records, books);
      var borrowed := BuildOpenLoanRows(open, books, today);
      var history := BuildLoanRows(all, books, today);
      resp := Success("資料載入成功", Home(users[i.value].username, borrowed, history, today), 200);
    }

    method CreateBook(body: Body<BookFields>, dbError: string) returns (resp: Response)
      requires Valid()
      modifies this
      ensures Valid()
      ensures Step(Snapshot(), resp) == CreateBookStep(old(Snapshot()), body, dbError)
    {
      CreateBookKeepsConsistent(Snapshot(), body, dbError);
      var fail := BodyFailure(body);
      if fail.Some? {
        return fail.value;
      }
      var f := body.fields;
      if !(Filled(f.title) && Filled(f.author) && Filled(f.isbn)) {
        return Failure("請填寫所有欄位", 400);
      }
      if !FitsColumns(f.title.value, f.author.value, f.isbn.value) {
        return Failure("新增失敗：" + dbError, 400);
      }
      var id := nextBookId;
      books := books[id := NewBook(f.title.value, f.author.value, f.isbn.value)];
      nextBookId := nextBookId + 1;
      resp := Success("書籍新增成功", CreatedBook(id), 201);
    }

    method DeleteBook(bookId: int) returns (resp: Response)
      requires Valid()
      modifies this
      ensures Valid()
      ensures Step(Snapshot(), resp) == DeleteBookStep(old(Snapshot()), bookId)
    {
      RemoveBookKeepsConsistent(Snapshot(), bookId);
      if bookId !in books {
        return Failure("書籍不存在", 404);
      }
      var title := books[bookId].title;
      books := books - {bookId};
      records := RecordsWithout(records, bookId);
      resp := Success("書籍 \"" + title + "\" 已成功刪除", NoData, 200);
    }

    method Borrow(bookId: int, body: Body<Option<int>>, today: Day, dateText: Day -> string) returns (resp: Response)
      requires Valid()
      modifies this
      ensures Valid()
      ensures Step(Snapshot(), resp) == BorrowStep(old(Snapshot()), bookId, body, today, dateText)
    {
      BorrowKeepsConsistent(Snapshot(), bookId, body, today, dateText);
      var fail := BodyFailure(body);
      if fail.Some? {
        return fail.value;
      }
      if !GivenId(body.fields) {
        return Failure("User ID is required", 401);
      }
      var userId := body.fields.value;
      if UserById(users, userId).None? {
        return Failure("使用者不存在", 404);
      }
      if bookId !in books {
        return Failure("書籍不存在", 404);
      }
      var book := books[bookId];
      if book.isBorrowed {
        return Failure("此書已被借出", 400);
      }
      if HasOpenLoanBy(records, userId, bookId) {
        return Failure("您已借閱此書且尚未歸還", 409);
      }
      var due := today + LoanDays;
      records := records + [NewRecord(nextRecordId, userId, bookId, today, due)];
      nextRecordId := nextRecordId + 1;
      books := books[bookId := book.(isBorrowed := true)];
      resp := Success(book.title + " 借閱成功，歸還日期：" + dateText(due), NoData, 200);
    }

    method Return(recordId: int, today: Day) returns (resp: Response)
      requires Valid()
      modifies this
      ensures Valid()
      ensures Step(Snapshot(), resp) == ReturnStep(old(Snapshot()), recordId, today)
    {
      ReturnKeepsConsistent(Snapshot(), recordId, today);
      var i := RecordById(records, recordId);
      if i.None? {
        return Failure("借閱記錄不存在", 404);
      }
      var rec := records[i.value];
      if rec.returned {
        return Failure("此書已歸還", 409);
      }
      records := records[i.value := rec.(returned := true, returnDate := Some(today))];
      var book := books[rec.bookId];
      books := books[rec.bookId := book.(isBorrowed := false)];
      resp := Success(book.title + " 已成功歸還", NoData, 200);
    }
  }
}
