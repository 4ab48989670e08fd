/**
 * The older, template-rendering views of the lending site
 * (`libmanagesystem/libmanage/views.py`). They keep the signed-in user's id
 * in the session, report outcomes through flashed messages and answer with
 * a redirect or a rendered page.
 *
 * A view that looks up a row with `get` and finds none raises, which the
 * framework turns into a server error; `get_object_or_404` gives a 404 page.
 */
module TemplateViews {
  import opened Wrappers
  import opened Models
  import opened Store

  datatype Level = Info | Problem

  /** A flashed message (`messages.success` / `messages.error`). */
  datatype Flash = Flash(level: Level, text: string)

  /** What a view answers with. */
  datatype Page =
    | Redirect(target: string)
    | Render(template: string)
    | RenderHome(user: User, borrowed: seq<BorrowRecord>, allRecords: seq<BorrowRecord>)
    | NotFound
    | ServerError

  /** The posted fields of the login form; `None` for a field that was not sent. */
  datatype LoginForm = LoginForm(account: Option<string>, password: Option<string>, action: Option<string>)

  /** The posted fields of the register form. */
  datatype RegisterForm = RegisterForm(account: Option<string>, password: Option<string>)

  /** A request: a plain page load, or a form post. */
  datatype Request<F> = Get | Post(form: F)

  /** The database, the session's user id and the messages flashed so far. */
  datatype Site = Site(db: Db, session: Option<int>, messages: seq<Flash>)

  datatype Outcome = Outcome(site: Site, page: Page)

  /** The user name that is sent to the book-create page after logging in. */
  const AdminName := "admin"

  /** A form field is truthy when it was sent and is not empty. */
  predicate Given(s: Option<string>)
  {
    s.Some? && s.value != ""
  }

  /** `if not user_id`: a missing id and the falsy id 0 both count as signed out. */
  predicate SignedIn(session: Option<int>)
  {
    session.Some? && session.value != 0
  }

  function Flashed(site: Site, level: Level, text: string): (s: Site)
    ensures s.db == site.db && s.session == site.session && s.messages == site.messages + [Flash(level, text)]
  {
    site.(messages := site.messages + [Flash(level, text)])
  }

  // ---------------------------------------------------------------------
  // Accounts

  /** `login` (lines 20-58): one form with a `register` and a `login` action. */
  function LoginView(site: Site, req: Request<LoginForm>): (r: Outcome)
    ensures req.Get? ==> r == Outcome(site, Render("login.html"))
    ensures req.Post? && !(Given(req.form.account) && Given(req.form.password)) ==>
              r == Outcome(Flashed(site, Problem, "請輸入帳號與密碼"), Redirect("login"))
    ensures req.Post? && Given(req.form.account) && Given(req.form.password) && req.form.action == Some("register") ==>
              var found := UserByName(site.db.users, req.form.account.value);
              && (found.Some? ==> r == Outcome(Flashed(site, Problem, "帳號已存在，請直接登入"), Redirect("login")))
              && (found.None? ==>
                    && r.site.db == AddUser(site.db, req.form.account.value, MakePassword(req.form.password))
                    && r.site.session == Some(site.db.nextUserId)
                    && r.site.messages == site.messages + [Flash(Info, "註冊成功")]
                    && r.page == Redirect("user_home"))
    ensures req.Post? && Given(req.form.account) && Given(req.form.password) && req.form.action == Some("login") ==>
              var found := UserByName(site.db.users, req.form.account.value);
              if found.None? || !CheckPassword(req.form.password.value, site.db.users[found.value].password) then
                r == Outcome(Flashed(site, Problem, "帳號或密碼錯誤"), Redirect("login"))
              else
                && r.site.db == site.db
                && r.site.session == Some(site.db.users[found.value].id)
                && r.site.messages == site.messages + [Flash(Info, "歡迎：" + req.form.account.value)]
                && r.page == (if req.form.account.value == AdminName then Redirect("book_create") else Redirect("user_home"))
    ensures req.Post? && Given(req.form.account) && Given(req.form.password) &&
            req.form.action != Some("register") && req.form.action != Some("login") ==>
              r == Outcome(site, Render("login.html"))
    ensures r.site.db != site.db <==>
              && req.Post? && Given(req.form.account) && Given(req.form.password)
              && req.form.action == Some("register")
              && UserByName(site.db.users, req.form.account.value).None?
    ensures r.site.session != site.session ==>
              req.Post? && r.site.session.Some? &&
              exists i :: 0 <= i < |r.site.db.users| && r.site.db.users[i].id == r.site.session.value &&
                          r.site.db.users[i].username == req.form.account.value &&
                          CheckPassword(req.form.password.value, r.site.db.users[i].password)
  {
    match req
    case Get => Outcome(site, Render("login.html"))
    case Post(f) =>
      if !Given(f.account) || !Given(f.password) then
        Outcome(Flashed(site, Problem, "請輸入帳號與密碼"), Redirect("login"))
      else
        var account := f.account.value;
        var found := UserByName(site.db.users, account);
        if f.action == Some("register") then
          if found.Some? then Outcome(Flashed(site, Problem, "帳號已存在，請直接登入"), Redirect("login"))
          else
            var id := site.db.nextUserId;
            var db' := AddUser(site.db, account, MakePassword(f.password));
            assert db'.users[|site.db.users|].id == id;
            Outcome(Site(db', Some(id), site.messages + [Flash(Info, "註冊成功")]), Redirect("user_home"))
        else if f.action == Some("login") then
          if found.None? || !CheckPassword(f.password.value, site.db.users[found.value].password) then
            Outcome(Flashed(site, Problem, "帳號或密碼錯誤"), Redirect("login"))
          else
            var user := site.db.users[found.value];
            Outcome(Site(site.db, Some(user.id), site.messages + [Flash(Info, "歡迎：" + user.username)]),
                    if user.username == AdminName then Redirect("book_create") else Redirect("user_home"))
        else Outcome(site, Render("login.html"))
  }

  /** Logging in as `admin` lands on the book-create page; anyone else on their home page. */
  lemma AdminLandsOnBookCreate(site: Site, account: string, password: string)
    requires account != "" && password != ""
    requires UserByName(site.db.users, account).Some?
    requires CheckPassword(password, site.db.users[UserByName(site.db.users, account).value].password)
    ensures var r := LoginView(site, Post(LoginForm(Some(account), Some(password), Some("login"))));
            r.page == (if account == AdminName then Redirect("book_create") else Redirect("user_home")) &&
            r.site.session == Some(site.db.users[UserByName(site.db.users, account).value].id) &&
            r.site.db == site.db
  {
  }

  lemma LoginViewKeepsConsistent(site: Site, req: Request<LoginForm>)
    requires Consistent(site.db)
    ensures Consistent(LoginView(site, req).site.db)
  {
    if req.Post? && req.form.action == Some("register") && Given(req.form.account) && Given(req.form.password) &&
       UserByName(site.db.users, req.form.account.value).None? {
      AddUserKeepsConsistent(site.db, req.form.account.value, MakePassword(req.form.password));
    }
  }

  /**
   * `register` (lines 60-77). It does not check for empty fields: a missing
   * password is hashed to an unusable one, and a missing account name makes
   * the insert fail (the column is not nullable).
   */
  function RegisterView(site: Site, req: Request<RegisterForm>): (r: Outcome)
    ensures req.Get? ==> r == Outcome(site, Render("register.html"))
    ensures req.Post? && req.form.account.Some? && UserByName(site.db.users, req.form.account.value).Some? ==>
              r == Outcome(Flashed(site, Problem, "帳號已存在"), Redirect("register"))
    ensures req.Post? && req.form.account.Some? && UserByName(site.db.users, req.form.account.value).None? ==>
              && r.site.db == AddUser(site.db, req.form.account.value, MakePassword(req.form.password))
              && r.site.session == Some(site.db.nextUserId)
              && r.site.messages == site.messages + [Flash(Info, "註冊成功")]
              && r.page == Redirect("user_home")
    ensures req.Post? && req.form.account.None? ==> r == Outcome(site, ServerError)
    ensures r.site.db != site.db ==>
              req.Post? && req.form.account.Some? && UserByName(site.db.users, req.form.account.value).None?
  {
    match req
    case Get => Outcome(site, Render("register.html"))
    case Post(f) =>
      if f.account.None? then Outcome(site, ServerError)
      else if UserByName(site.db.users, f.account.value).Some? then
        Outcome(Flashed(site, Problem, "帳號已存在"), Redirect("register"))
      else
        var id := site.db.nextUserId;
        Outcome(Site(AddUser(site.db, f.account.value, MakePassword(f.password)), Some(id),
                     site.messages + [Flash(Info, "註冊成功")]),
                Redirect("user_home"))
  }

  /** An account registered without a password can never log in. */
  lemma PasswordlessAccountCannotLogIn(site: Site, account: string, password: string)
    requires Consistent(site.db)
    requires UserByName(site.db.users, account).None?
    ensures var site' := RegisterView(site, Post(RegisterForm(Some(account), None))).site;
            LoginView(site', Post(LoginForm(Some(account), Some(password), Some("login")))).page == Redirect("login")
  {
    var site' := RegisterView(site, Post(RegisterForm(Some(account), None))).site;
    var n := |site.db.users|;
    assert site'.db.users[n].username == account;
    AddUserKeepsConsistent(site.db, account, Unusable);
    var i := UserByName(site'.db.users, account);
    assert i.Some? ==> i.value == n by {
      if i.Some? {
        assert site'.db.users[i.value].username == site'.db.users[n].username;
      }
    }
  }

  /** `logout` (lines 80-82): the whole session goes. */
  function LogoutView(site: Site): (r: Outcome)
    ensures r.site.session.None? && r.site.db == site.db && r.page == Redirect("home")
  {
    Outcome(site.(session := None), Redirect("home"))
  }

  // ---------------------------------------------------------------------
  // The user's home page

  /** `user_home` (lines 85-99). */
  function UserHomeView(site: Site): (r: Outcome)
    ensures r.site == site
    ensures !SignedIn(site.session) ==> r.page == Redirect("login")
    ensures SignedIn(site.session) && UserById(site.db.users, site.session.value).None? ==> r.page == ServerError
    ensures SignedIn(site.session) && UserById(site.db.users, site.session.value).Some? ==>
              && r.page.RenderHome?
              && r.page.user == site.db.users[UserById(site.db.users, site.session.value).value]
              && r.page.borrowed == OpenLoansOf(site.db.records, site.session.value)
    ensures r.page.RenderHome? ==>
              && SignedIn(site.session) && r.page.user.id == site.session.value
              && (forall k :: 0 <= k < |r.page.borrowed| ==>
                    r.page.borrowed[k] in site.db.records && r.page.borrowed[k].userId == site.session.value &&
                    !r.page.borrowed[k].returned)
              && (forall k :: 0 <= k < |r.page.allRecords| ==>
                    r.page.allRecords[k].userId == site.session.value && r.page.allRecords[k] in site.db.records)
              && NewestFirst(r.page.allRecords)
              && multiset(r.page.allRecords) == multiset(LoansOf(site.db.records, site.session.value))
  {
    if !SignedIn(site.session) then Outcome(site, Redirect("login"))
    else
      var id := site.session.value;
      match UserById(site.db.users, id)
      case None => Outcome(site, ServerError)
      case Some(i) =>
        var all := SortNewestFirst(LoansOf(site.db.records, id));
        SortedLoansAreTheUsers(site.db.records, id, all);
        Outcome(site, RenderHome(site.db.users[i], OpenLoansOf(site.db.records, id), all))
  }

  // ---------------------------------------------------------------------
  // Lending

  /**
   * `borrow_book` (lines 144-165). `twoMonthsAfter` is the calendar's
   * two-months-later day; `dueText` is how the due timestamp is printed.
   */
  function BorrowBookView(site: Site, bookId: int, today: Day, twoMonthsAfter: Day -> Day, dueText: string): (r: Outcome)
    ensures !SignedIn(site.session) ==> r == Outcome(site, Redirect("login"))
    ensures SignedIn(site.session) && UserById(site.db.users, site.session.value).None? ==>
              r == Outcome(site, ServerError)
    ensures SignedIn(site.session) && UserById(site.db.users, site.session.value).Some? && bookId !in site.db.books ==>
              r == Outcome(site, NotFound)
    ensures r.site.session == site.session
    ensures bookId in site.db.books && site.db.books[bookId].isBorrowed ==> r.site.db == site.db
    ensures SignedIn(site.session) && UserById(site.db.users, site.session.value).Some? &&
            bookId in site.db.books && site.db.books[bookId].isBorrowed ==>
              r == Outcome(Flashed(site, Problem, "此書已被借出"), Redirect("book_list"))
    ensures r.site.db != site.db <==>
              SignedIn(site.session) && UserById(site.db.users, site.session.value).Some? &&
              bookId in site.db.books && !site.db.books[bookId].isBorrowed
    ensures r.site.db != site.db ==>
              && r.site.db.records == site.db.records +
                   [NewRecord(site.db.nextRecordId, site.session.value, bookId, today, twoMonthsAfter(today))]
              && r.site.db.books == site.db.books[bookId := site.db.books[bookId].(isBorrowed := true)]
              && r.site.db.nextRecordId == site.db.nextRecordId + 1
              && r.site.db.users == site.db.users
              && r.site.db.nextUserId == site.db.nextUserId && r.site.db.nextBookId == site.db.nextBookId
              && r.page == Redirect("book_list")
              && r.site.messages == site.messages +
                   [Flash(Info, site.db.books[bookId].title + " 借閱成功，歸還日期：" + dueText)]
  {
    if !SignedIn(site.session) then Outcome(site, Redirect("login"))
    else
      var userId := site.session.value;
      if UserById(site.db.users, userId).None? then Outcome(site, ServerError)
      else if bookId !in site.db.books then Outcome(site, NotFound)
      else
        var book := site.db.books[bookId];
        if book.isBorrowed then Outcome(Flashed(site, Problem, "此書已被借出"), Redirect("book_list"))
        else
          var db' := OpenLoan(site.db, userId, bookId, today, twoMonthsAfter(today));
          assert |db'.records| == |site.db.records| + 1;
          Outcome(Site(db', site.session, site.messages + [Flash(Info, book.title + " 借閱成功，歸還日期：" + dueText)]),
                  Redirect("book_list"))
  }

  lemma BorrowBookViewKeepsConsistent(site: Site, bookId: int, today: Day, twoMonthsAfter: Day -> Day, dueText: string)
    requires Consistent(site.db)
    ensures Consistent(BorrowBookView(site, bookId, today, twoMonthsAfter, dueText).site.db)
  {
    if BorrowBookView(site, bookId, today, twoMonthsAfter, dueText).site.db != site.db {
      OpenLoanKeepsConsistent(site.db, site.session.value, bookId, today, twoMonthsAfter(today));
    }
  }

  /**
   * `return_book` (lines 167-174) as written: the record is marked returned
   * and its book available, whatever the record's state. The older schema has
   * no return-date column, so `returnDate` is left as it was.
   */
  function ReturnBookAsWritten(site: Site, recordId: int): (r: Outcome)
    requires RecordsReferToBooks(site.db.records, site.db.books)
    ensures RecordById(site.db.records, recordId).None? ==> r == Outcome(site, NotFound)
    ensures RecordById(site.db.records, recordId).Some? ==>
              var i := RecordById(site.db.records, recordId).value;
              && r.site.db == CloseLoan(site.db, i, site.db.records[i].returnDate)
              && r.site.db.records[i] == site.db.records[i].(returned := true)
              && !r.site.db.books[site.db.records[i].bookId].isBorrowed
              && r.site.session == site.session
              && r.site.messages == site.messages + [Flash(Info, site.db.books[site.db.records[i].bookId].title + " 已成功歸還")]
              && r.page == Redirect("user_home")
  {
    match RecordById(site.db.records, recordId)
    case None => Outcome(site, NotFound)
    case Some(i) =>
      var rec := site.db.records[i];
      Outcome(Site(CloseLoan(site.db, i, rec.returnDate), site.session,
                   site.messages + [Flash(Info, site.db.books[rec.bookId].title + " 已成功歸還")]),
              Redirect("user_home"))
  }

  /** As written, returning twice leaves the same database as returning once. */
  lemma ReturnTwiceIsReturnOnce(site: Site, recordId: int)
    requires RecordsReferToBooks(site.db.records, site.db.books)
    ensures var once := ReturnBookAsWritten(site, recordId).site;
            RecordsReferToBooks(once.db.records, once.db.books) &&
            ReturnBookAsWritten(once, recordId).site.db == once.db
  {
    var once := ReturnBookAsWritten(site, recordId).site;
    if RecordById(site.db.records, recordId).Some? {
      var i := RecordById(site.db.records, recordId).value;
      assert forall k :: 0 <= k < |site.db.records| ==>
        once.db.records[k].id == site.db.records[k].id && once.db.records[k].bookId == site.db.records[k].bookId;
      assert RecordById(once.db.records, recordId) == Some(i) by {
        var j := RecordById(once.db.records, recordId);
        assert j.Some? && forall k :: 0 <= k < j.value ==> once.db.records[k].id != recordId;
      }
    }
  }

  /**
   * The database behind the discrepancy: one book, returned once by record 1
   * and lent again by record 2, still open.
   */
  const ReLentBook := Db(
    [User(1, "reader", Hashed("pw"))],
    map[1 := Book("Dune", "Herbert", "", true)],
    [BorrowRecord(1, 1, 1, 10, 70, true, None), BorrowRecord(2, 1, 1, 20, 80, false, None)],
    2, 2, 3)

  /** The starting database of the counterexample satisfies every invariant. */
  lemma ReLentBookIsConsistent()
    ensures Consistent(ReLentBook)
  {
    assert ReLentBook.records[0].returned && !ReLentBook.records[1].returned;
  }

  /**
   * Returning the old record 1 again marks the book available although
   * record 2 is still open: the invariant is broken.
   */
  lemma ReturnAsWrittenBreaksTheInvariant()
    ensures Consistent(ReLentBook)
    ensures var after := ReturnBookAsWritten(Site(ReLentBook, None, []), 1).site.db;
            !after.books[1].isBorrowed && HasOpenLoan(after.records, 1) && !Consistent(after)
  {
    ReLentBookIsConsistent();
    var db := ReLentBook;
    assert HasOpenLoan(db.records, 1) by {
      assert db.records[1].bookId == 1 && !db.records[1].returned;
    }
    assert RecordById(db.records, 1) == Some(0);
    var after := ReturnBookAsWritten(Site(db, None, []), 1).site.db;
    assert after.records[1] == db.records[1];
  }

  /** `return_book` as evidently intended: an already returned record is refused and nothing changes. */
  function ReturnBookView(site: Site, recordId: int): (r: Outcome)
    requires RecordsReferToBooks(site.db.records, site.db.books)
    ensures RecordById(site.db.records, recordId).None? ==> r == Outcome(site, NotFound)
    ensures RecordById(site.db.records, recordId).Some? && site.db.records[RecordById(site.db.records, recordId).value].returned ==>
              r == Outcome(Flashed(site, Problem, "此書已歸還"), Redirect("user_home"))
    ensures RecordById(site.db.records, recordId).Some? && !site.db.records[RecordById(site.db.records, recordId).value].returned ==>
              var i := RecordById(site.db.records, recordId).value;
              && r.site.db == CloseLoan(site.db, i, site.db.records[i].returnDate)
              && r.site.db.records[i] == site.db.records[i].(returned := true)
              && !r.site.db.books[site.db.records[i].bookId].isBorrowed
              && r.site.session == site.session
              && r.site.messages == site.messages + [Flash(Info, site.db.books[site.db.records[i].bookId].title + " 已成功歸還")]
              && r.page == Redirect("user_home")
    ensures r.site.db != site.db ==>
              RecordById(site.db.records, recordId).Some? && !site.db.records[RecordById(site.db.records, recordId).value].returned
  {
    match RecordById(site.db.records, recordId)
    case None => Outcome(site, NotFound)
    case Some(i) =>
      if site.db.records[i].returned then Outcome(Flashed(site, Problem, "此書已歸還"), Redirect("user_home"))
      else ReturnBookAsWritten(site, recordId)
  }

  lemma ReturnBookKeepsConsistent(site: Site, recordId: int)
    requires Consistent(site.db)
    ensures Consistent(ReturnBookView(site, recordId).site.db)
  {
    match RecordById(site.db.records, recordId)
    case None =>
    case Some(i) =>
      if !site.db.records[i].returned {
        CloseLoanKeepsConsistent(site.db, i, site.db.records[i].returnDate);
      }
  }

  // ---------------------------------------------------------------------
  // The site, holding its tables and the session

  class LibrarySite {
    var users: seq<User>
    var books: map<int, Book>
    var records: seq<BorrowRecord>
    var nextUserId: int
    var nextBookId: int
    var nextRecordId: int
    var session: Option<int>
    var messages: seq<Flash>

    function Tables(): Db
      reads this
    {
      Db(users, books, records, nextUserId, nextBookId, nextRecordId)
    }

    function Current(): Site
      reads this
    {
      Site(Tables(), session, messages)
    }

    ghost predicate Valid()
      reads this
    {
      Consistent(Tables())
    }

    /** A site over a consistent database, with no one signed in. */
    constructor (db: Db)
      requires Consistent(db)
      ensures Valid() && Current() == Site(db, None, [])
    {
      users, books, records := db.users, db.books, db.records;
      nextUserId, nextBookId, nextRecordId := db.nextUserId, db.nextBookId, db.nextRecordId;
      session, messages := None, [];
    }

    method Login(req: Request<LoginForm>) returns (page: Page)
      requires Valid()
      modifies this
      ensures Valid()
      ensures Outcome(Current(), page) == LoginView(old(Current()), req)
    {
      LoginViewKeepsConsistent(Current(), req);
      if req.Get? {
        return Render("login.html");
      }
      var f := req.form;
      if !Given(f.account) || !Given(f.password) {
        messages := messages + [Flash(Problem, "請輸入帳號與密碼")];
        return Redirect("login");
      }
      var found := UserByName(users, f.account.value);
      if f.action == Some("register") {
        if found.Some? {
          messages := messages + [Flash(Problem, "帳號已存在，請直接登入")];
          return Redirect("login");
        }
        var id := nextUserId;
        users := users + [User(id, f.account.value, MakePassword(f.password))];
        nextUserId := nextUserId + 1;
        session := Some(id);
        messages := messages + [Flash(Info, "註冊成功")];
        return Redirect("user_home");
      } else if f.action == Some("login") {
        if found.None? || !CheckPassword(f.password.value, users[found.value].password) {
          messages := messages + [Flash(Problem, "帳號或密碼錯誤")];
          return Redirect("login");
        }
        var user := users[found.value];
        session := Some(user.id);
        messages := messages + [Flash(Info, "歡迎：" + user.username)];
        page := if user.username == AdminName then Redirect("book_create") else Redirect("user_home");
      } else {
        page := Render("login.html");
      }
    }

    method Register(req: Request<RegisterForm>) returns (page: Page)
      requires Valid()
      modifies this
      ensures Valid()
      ensures Outcome(Current(), page) == RegisterView(old(Current()), req)
    {
      var r := RegisterView(Current(), req);
      if r.site.db != Tables() {
        AddUserKeepsConsistent(Tables(), req.form.account.value, MakePassword(req.form.password));
      }
      if req.Get? {
        return Render("register.html");
      }
      var f := req.form;
      if f.account.None? {
        return ServerError;
      }
      if UserByName(users, f.account.value).Some? {
        messages := messages + [Flash(Problem, "帳號已存在")];
        return Redirect("register");
      }
      var id := nextUserId;
      users := users + [User(id, f.account.value, MakePassword(f.password))];
      nextUserId := nextUserId + 1;
      session := Some(id);
      messages := messages + [Flash(Info, "註冊成功")];
      page := Redirect("user_home");
    }

    /** Only the session changes, so the tables stay consistent. */
    method Logout() returns (page: Page)
      requires Valid()
      modifies this
      ensures Valid()
      ensures Tables() == old(Tables())
      ensures Outcome(Current(), page) == LogoutView(old(Current()))
    {
      session := None;
      page := Redirect("home");
    }

    /** `user_home`: the two record queries run as one scan of the table; the history is then sorted. */
    method UserHome() returns (page: Page)
      requires Valid()
      ensures Outcome(Current(), page) == UserHomeView(Current())
    {
      if !SignedIn(session) {
        return Redirect("login");
      }
      var id := session.value;
      var i := UserById(users, id);
      if i.None? {
        return ServerError;
      }
      var mine, open := ScanLoans(records, id);
      page := RenderHome(users[i.value], open, SortNewestFirst(mine));
    }

    method BorrowBook(bookId: int, today: Day, twoMonthsAfter: Day -> Day, dueText: string) returns (page: Page)
      requires Valid()
      modifies this
      ensures Valid()
      ensures Outcome(Current(), page) == BorrowBookView(old(Current()), bookId, today, twoMonthsAfter, dueText)
    {
      BorrowBookViewKeepsConsistent(Current(), bookId, today, twoMonthsAfter, dueText);
      if !SignedIn(session) {
        return Redirect("login");
      }
      var userId := session.value;
      if UserById(users, userId).None? {
        return ServerError;
      }
      if bookId !in books {
        return NotFound;
      }
      var book := books[bookId];
      if book.isBorrowed {
        messages := messages + [Flash(Problem, "此書已被借出")];
        return Redirect("book_list");
      }
      records := records + [NewRecord(nextRecordId, userId, bookId, today, twoMonthsAfter(today))];
      nextRecordId := nextRecordId + 1;
      books := books[bookId := book.(isBorrowed := true)];
      messages := messages + [Flash(Info, book.title + " 借閱成功，歸還日期：" + dueText)];
      page := Redirect("book_list");
    }

    /** `return_book`, with the already-returned check it evidently needs. */
    method ReturnBook(recordId: int) returns (page: Page)
      requires Valid()
      modifies this
      ensures Valid()
      ensures Outcome(Current(), page) == ReturnBookView(old(Current()), recordId)
    {
      ReturnBookKeepsConsistent(Current(), recordId);
      var i := RecordById(records, recordId);
      if i.None? {
        return NotFound;
      }
      var rec := records[i.value];
      if rec.returned {
        messages := messages + [Flash(Problem, "此書已歸還")];
        return Redirect("user_home");
      }
      records := records[i.value := rec.(returned := true)];
      var book := books[rec.bookId];
      books := books[rec.bookId := book.(isBorrowed := false)];
      messages := messages + [Flash(Info, book.title + " 已成功歸還")];
      page := Redirect("user_home");
    }
  }
}
