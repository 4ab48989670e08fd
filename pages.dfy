/**
 * The decision logic of the two React clients: which screen `renderPage`
 * shows, the checks a form makes before it sends anything, and the guards
 * on the book list's buttons. The newer client (`frontend/src/App.js`)
 * treats `yucheng` as the administrator, the older one
 * (`libmanagesystem/frontend/src/App.js`) treats `admin` so.
 */
module ClientPages {
  import opened Wrappers

  /**
   * The signed-in user the client keeps: an id and a name, both absent after
   * logout. JavaScript tests the id for truthiness, so an id of 0 counts as
   * absent.
   */
  datatype Session = Session(id: Option<int>, username: Option<string>)

  const SignedOut := Session(None, None)

  predicate SignedIn(s: Session)
  {
    s.id.Some? && s.id.value != 0
  }

  /** The administrator's name in the newer client, and in the older one. */
  const AdminName := "yucheng"
  const LegacyAdminName := "admin"

  predicate IsNamed(s: Session, name: string)
  {
    s.username == Some(name)
  }

  // ---------------------------------------------------------------------
  // Routing

  /** The screens a client can show. */
  datatype Screen =
    | HomeScreen | LoginScreen | RegisterScreen | UserHomeScreen | BookListScreen
    | BookCreateScreen | EditProfileScreen | QuickScanScreen | BookEditScreen(bookId: int)

  /**
   * The page the newer client was asked for: a name, or an object with a
   * name and an optional book id parameter.
   */
  datatype PageRequest = Named(name: string) | WithParams(name: string, bookId: Option<int>)

  /** Screens that need a signed-in user. */
  predicate NeedsSignIn(s: Screen)
  {
    s == UserHomeScreen || s == EditProfileScreen || s == QuickScanScreen
  }

  /** Screens that need the administrator. */
  predicate NeedsAdmin(s: Screen)
  {
    s == BookCreateScreen || s.BookEditScreen?
  }

  /**
   * `renderPage` of the newer client (lines 1615-1664). A screen that needs
   * a signed-in user is shown only to one, a screen that needs the
   * administrator only to `yucheng`, and a book is edited only with a
   * non-zero book id.
   */
  function RenderPage(page: PageRequest, session: Session): (r: Screen)
    ensures NeedsSignIn(r) ==> SignedIn(session)
    ensures NeedsAdmin(r) ==> IsNamed(session, AdminName)
    ensures r.BookEditScreen? ==> page == WithParams("edit_book", Some(r.bookId)) && r.bookId != 0
  {
    match page
    case WithParams(name, bookId) =>
      if name == "edit_book" && IsNamed(session, AdminName) && bookId.Some? && bookId.value != 0
      then BookEditScreen(bookId.value)
      else HomeScreen
    case Named(name) =>
      if name == "home" then HomeScreen
      else if name == "login" then LoginScreen
      else if name == "register" then RegisterScreen
      else if name == "user_home" then (if SignedIn(session) then UserHomeScreen else LoginScreen)
      else if name == "book_list" then BookListScreen
      else if name == "book_create" then (if IsNamed(session, AdminName) then BookCreateScreen else HomeScreen)
      else if name == "edit_profile" then (if SignedIn(session) then EditProfileScreen else LoginScreen)
      else if name == "quick_scan" then (if SignedIn(session) then QuickScanScreen else LoginScreen)
      else HomeScreen
  }

  /** The page names the newer client knows. */
  const KnownPages: set<string> :=
    {"home", "login", "register", "user_home", "book_list", "book_create", "edit_profile", "quick_scan"}

  /** An unknown page name shows Home, whoever asks. */
  lemma UnknownPageShowsHome(name: string, session: Session)
    requires name !in KnownPages
    ensures RenderPage(Named(name), session) == HomeScreen
  {
  }

  /** The pages behind the sign-in gate show Login to a signed-out user, and the page itself otherwise. */
  lemma SignInGate(name: string, session: Session)
    requires name == "user_home" || name == "edit_profile" || name == "quick_scan"
    ensures !SignedIn(session) ==> RenderPage(Named(name), session) == LoginScreen
    ensures SignedIn(session) ==> NeedsSignIn(RenderPage(Named(name), session))
  {
  }

  /** Anyone but the administrator asking for an administrator's page gets Home. */
  lemma AdminGate(page: PageRequest, session: Session)
    requires page == Named("book_create") || page.WithParams?
    requires !IsNamed(session, AdminName)
    ensures RenderPage(page, session) == HomeScreen
  {
  }

  /** `renderPage` of the older client (lines 954-982): no scan page, and `admin` as the administrator. */
  function RenderLegacyPage(name: string, session: Session): (r: Screen)
    ensures NeedsSignIn(r) ==> SignedIn(session)
    ensures NeedsAdmin(r) ==> IsNamed(session, LegacyAdminName)
    ensures r != QuickScanScreen && !r.BookEditScreen?
  {
    if name == "home" then HomeScreen
    else if name == "login" then LoginScreen
    else if name == "register" then RegisterScreen
    else if name == "user_home" then (if SignedIn(session) then UserHomeScreen else LoginScreen)
    else if name == "book_list" then BookListScreen
    else if name == "book_create" then (if IsNamed(session, LegacyAdminName) then BookCreateScreen else HomeScreen)
    else if name == "edit_profile" then (if SignedIn(session) then EditProfileScreen else LoginScreen)
    else HomeScreen
  }

  /** The older client's pages, and its answer to any other name. */
  lemma LegacyUnknownPageShowsHome(name: string, session: Session)
    requires name !in {"home", "login", "register", "user_home", "book_list", "book_create", "edit_profile"}
    ensures RenderLegacyPage(name, session) == HomeScreen
  {
  }

  /** The two clients agree on every page but the scan page and the administrator's. */
  lemma ClientsAgreeOnSharedPages(name: string, session: Session)
    requires name != "quick_scan" && name != "book_create"
    ensures RenderLegacyPage(name, session) == RenderPage(Named(name), session)
  {
  }

  // ---------------------------------------------------------------------
  // Form checks

  /** What a form submission does: show an error and stop, or send the request. */
  datatype Check<T> = Refuse(message: string) | Submit(request: T)

  /**
   * The number of UTF-16 code units of a text, which is what JavaScript's
   * `length` counts: characters beyond the Basic Multilingual Plane take two.
   */
  function Utf16Length(s: string): (n: nat)
    ensures |s| <= n <= 2 * |s|
  {
    if s == [] then 0 else (if s[0] as int > 0xFFFF then 2 else 1) + Utf16Length(s[1..])
  }

  const NotSignedInText := "您尚未登入。"
  const MissingPasswordText := "請輸入新密碼和確認密碼。"
  const MismatchText := "新密碼與確認密碼不一致。"
  const TooShortText := "密碼長度至少為 6 個字元。"
  const MinPasswordLength := 6

  /** The password change request: the user's id and name and the new password. */
  datatype PasswordChange = PasswordChange(userId: int, username: Option<string>, newPassword: string)

  /**
   * `EditProfile.handleSubmit` of both clients (lines 1119-1142 of the newer,
   * 790-813 of the older): the request is sent exactly when the user is
   * signed in, both fields are filled and equal, and the password has at
   * least six UTF-16 code units.
   */
  function CheckPasswordChange(session: Session, newPassword: string, confirm: string): (r: Check<PasswordChange>)
    ensures r.Submit? <==>
              SignedIn(session) && newPassword != "" && confirm != "" && newPassword == confirm
              && Utf16Length(newPassword) >= MinPasswordLength
    ensures r.Submit? ==> r.request == PasswordChange(session.id.value, session.username, newPassword)
  {
    if !SignedIn(session) then Refuse(NotSignedInText)
    else if newPassword == "" || confirm == "" then Refuse(MissingPasswordText)
    else if newPassword != confirm then Refuse(MismatchText)
    else if Utf16Length(newPassword) < MinPasswordLength then Refuse(TooShortText)
    else Submit(PasswordChange(session.id.value, session.username, newPassword))
  }

  /** The checks come in order: each message is shown only when every earlier check passed. */
  lemma PasswordChecksInOrder(session: Session, newPassword: string, confirm: string)
    ensures CheckPasswordChange(session, newPassword, confirm) == Refuse(NotSignedInText) <==> !SignedIn(session)
    ensures CheckPasswordChange(session, newPassword, confirm) == Refuse(MissingPasswordText) <==>
              SignedIn(session) && (newPassword == "" || confirm == "")
    ensures CheckPasswordChange(session, newPassword, confirm) == Refuse(MismatchText) <==>
              SignedIn(session) && newPassword != "" && confirm != "" && newPassword != confirm
  {
  }

  /**
   * A text made only of characters beyond the Basic Multilingual Plane has
   * twice as many code units as characters, so three of them already pass
   * the six-unit minimum.
   */
  lemma {:induction false} AstralCharactersCountTwice(s: string)
    requires forall k :: 0 <= k < |s| ==> s[k] as int > 0xFFFF
    ensures Utf16Length(s) == 2 * |s|
    ensures |s| >= 3 ==> Utf16Length(s) >= MinPasswordLength
  {
    if s != [] {
      AstralCharactersCountTwice(s[1..]);
    }
  }

  /** Within the Basic Multilingual Plane, `length` counts characters. */
  lemma {:induction false} BasicPlaneCharactersCountOnce(s: string)
    requires forall k :: 0 <= k < |s| ==> s[k] as int <= 0xFFFF
    ensures Utf16Length(s) == |s|
  {
    if s != [] {
      BasicPlaneCharactersCountOnce(s[1..]);
    }
  }

  /** A new book as the newer client sends it. */
  datatype NewBookForm = NewBookForm(title: string, author: string, isbn: string, category: string, status: string)

  const MissingFieldText := "請填寫所有欄位"

  /** `BookCreate.handleSubmit` of the newer client (lines 748-757): all five fields must be filled. */
  function CheckNewBook(form: NewBookForm): (r: Check<NewBookForm>)
    ensures r.Submit? <==>
              form.title != "" && form.author != "" && form.isbn != "" && form.category != "" && form.status != ""
    ensures r.Submit? ==> r.request == form
    ensures r.Refuse? ==> r.message == MissingFieldText
  {
    if form.title == "" || form.author == "" || form.isbn == "" || form.category == "" || form.status == ""
    then Refuse(MissingFieldText)
    else Submit(form)
  }

  /** A new book as the older client sends it. */
  datatype LegacyBookForm = LegacyBookForm(title: string, author: string, isbn: string)

  /** `BookCreate.handleSubmit` of the older client (lines 649-658): title, author and ISBN must be filled. */
  function CheckLegacyBook(form: LegacyBookForm): (r: Check<LegacyBookForm>)
    ensures r.Submit? <==> form.title != "" && form.author != "" && form.isbn != ""
    ensures r.Submit? ==> r.request == form
    ensures r.Refuse? ==> r.message == MissingFieldText
  {
    if form.title == "" || form.author == "" || form.isbn == "" then Refuse(MissingFieldText)
    else Submit(form)
  }

  /** The newer form is the stricter one: what it sends, the older one would send too. */
  lemma NewerBookCheckIsStricter(form: NewBookForm)
    requires CheckNewBook(form).Submit?
    ensures CheckLegacyBook(LegacyBookForm(form.title, form.author, form.isbn)).Submit?
  {
  }

  // ---------------------------------------------------------------------
  // The older client's book list

  /** A book as the list shows it. */
  datatype ListedBook = ListedBook(id: int, title: string, isBorrowed: bool)

  /** The requests the book list can make. */
  datatype ListRequest = BorrowRequest(bookId: int, userId: int) | DeleteRequest(bookId: int)

  /** What a click on the list does. */
  datatype ListAction = Navigate(target: Screen, message: string) | ShowError(message: string) | Cancelled | Send(request: ListRequest)

  /** The borrow button is shown for a book that is not lent out, to a signed-in user (line 600). */
  predicate OffersBorrow(book: ListedBook, session: Session)
  {
    !book.isBorrowed && SignedIn(session)
  }

  /** The delete button is shown to the administrator (line 608). */
  predicate OffersDelete(session: Session)
  {
    IsNamed(session, LegacyAdminName)
  }

  /**
   * `handleBorrowBook` (lines 479-494): a signed-out user is sent to Login
   * with a message and nothing is requested; otherwise, once confirmed, the
   * borrow request carries the user's id.
   */
  function BorrowClick(session: Session, bookId: int, confirmed: bool): (r: ListAction)
    ensures !SignedIn(session) ==> r == Navigate(LoginScreen, "請先登入才能借閱書籍")
    ensures r.Send? <==> SignedIn(session) && confirmed
    ensures r.Send? ==> r.request == BorrowRequest(bookId, session.id.value)
  {
    if !SignedIn(session) then Navigate(LoginScreen, "請先登入才能借閱書籍")
    else if !confirmed then Cancelled
    else Send(BorrowRequest(bookId, session.id.value))
  }

  /**
   * `handleDeleteBook` (lines 516-530): refused unless the user is `admin`;
   * otherwise, once confirmed, the delete request is sent.
   */
  function DeleteClick(session: Session, bookId: int, confirmed: bool): (r: ListAction)
    ensures !IsNamed(session, LegacyAdminName) ==> r == ShowError("只有管理員才能刪除書籍")
    ensures r.Send? <==> IsNamed(session, LegacyAdminName) && confirmed
    ensures r.Send? ==> r.request == DeleteRequest(bookId)
  {
    if !IsNamed(session, LegacyAdminName) then ShowError("只有管理員才能刪除書籍")
    else if !confirmed then Cancelled
    else Send(DeleteRequest(bookId))
  }

  /** A click on a button the list shows, once confirmed, always sends its request. */
  lemma OfferedButtonsSend(book: ListedBook, session: Session)
    ensures OffersBorrow(book, session) ==> BorrowClick(session, book.id, true) == Send(BorrowRequest(book.id, session.id.value))
    ensures OffersDelete(session) ==> DeleteClick(session, book.id, true) == Send(DeleteRequest(book.id))
  {
  }
}
