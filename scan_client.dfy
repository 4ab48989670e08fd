/**
 * The quick-scan page of the newer React client (`frontend/src/App.js`):
 * how a reply of the scan endpoint is classified, and how a decoded text is
 * turned into at most one borrow or return request. Every fetch result is an
 * input: a parsed reply, or the message of the exception it threw.
 */
module ScanClient {
  import opened Wrappers
  import opened Seqs
  import opened ClientPages
  import ApiViews
  import Models
  import Store

  /** JavaScript truthiness of an optional text: present and not empty. */
  predicate Truthy(s: Option<string>)
  {
    s.Some? && s.value != ""
  }

  // ---------------------------------------------------------------------
  // Classifying a reply of the scan endpoint

  /** The parsed body of a scan reply, with the HTTP `ok` flag. */
  datatype ScanReply = ScanReply(ok: bool, decodedText: Option<string>, message: Option<string>)

  /** What the scanner does with a reply: hand the text over and stop, report an error, or go on silently. */
  datatype ScanVerdict = Deliver(text: string) | ReportError(message: string) | KeepScanning

  const NothingFoundText := "未找到條碼或QR碼"
  const ScanFailedText := "掃描失敗，網路或伺服器錯誤。"

  /**
   * `captureAndSendFrame` (lines 1349-1361); `None` stands for a request or
   * a JSON parse that threw. A decoded text is delivered only from an `ok`
   * reply; the "nothing found" message, like no message at all, keeps the
   * scanner going.
   */
  function Classify(reply: Option<ScanReply>): (v: ScanVerdict)
    ensures v.Deliver? <==> reply.Some? && reply.value.ok && Truthy(reply.value.decodedText)
    ensures v.Deliver? ==> v.text == reply.value.decodedText.value
    ensures reply.None? ==> v == ReportError(ScanFailedText)
    ensures reply.Some? && v.ReportError? ==>
              Truthy(reply.value.message) && v.message == reply.value.message.value && v.message != NothingFoundText
  {
    match reply
    case None => ReportError(ScanFailedText)
    case Some(r) =>
      if r.ok && Truthy(r.decodedText) then Deliver(r.decodedText.value)
      else if Truthy(r.message) && r.message.value != NothingFoundText then ReportError(r.message.value)
      else KeepScanning
  }

  /** A reply without a decoded text keeps the scanner going exactly when its message is absent, empty or "nothing found". */
  lemma NothingFoundKeepsScanning(reply: ScanReply)
    requires !(reply.ok && Truthy(reply.decodedText))
    ensures Classify(Some(reply)) == KeepScanning <==>
              !Truthy(reply.message) || reply.message.value == NothingFoundText
  {
  }

  // ---------------------------------------------------------------------
  // Acting on a decoded text

  datatype Intent = BorrowIntent | ReturnIntent

  /** A book of the catalog list (`book_list_api`). */
  datatype CatalogBook = CatalogBook(id: int, title: string, isbn: string)

  /**
   * A `borrowed_books` entry as the client reads it. `returned` is `None`
   * when the entry has no such field, which is how `user_home_api` sends it.
   */
  datatype HomeRow = HomeRow(id: int, bookTitle: string, returned: Option<bool>)

  /** A fetch as the client sees it: a parsed body with the `ok` flag, or the message of what it threw. */
  datatype Fetched<T> = Answer(ok: bool, body: T) | Threw(error: string)

  /** The body of a borrow or return reply. */
  datatype ActionReply = ActionReply(message: Option<string>)

  /** The requests the page makes, in the order it makes them. */
  datatype Request = FetchCatalog | FetchUserHome(userId: int) | BorrowBook(bookId: int, userId: int) | ReturnRecord(recordId: int)

  /** The requests made and the message left on the page. */
  datatype ScanOutcome = ScanOutcome(requests: seq<Request>, message: string, isError: bool)

  const LoginFirstText := "請先登入才能進行借還操作。"
  const NoSuchBookText := "未找到對應的書籍。"
  const NoOpenRecordText := "未找到您借閱此書的未歸還記錄。"
  const HandlingErrorPrefix := "處理掃描結果時發生錯誤："

  /** `!record.returned`: a missing field counts as not returned. */
  predicate NotReturned(row: HomeRow)
  {
    row.returned != Some(true)
  }

  /** The first catalog book whose ISBN is exactly the decoded text. */
  function FindByIsbn(books: seq<CatalogBook>, text: string): (r: Option<CatalogBook>)
    ensures r.Some? ==> r.value in books && r.value.isbn == text
    ensures r.None? <==> forall i :: 0 <= i < |books| ==> books[i].isbn != text
  {
    match IndexWhere(books, (b: CatalogBook) => b.isbn == text)
    case None => None
    case Some(i) => Some(books[i])
  }

  /** The index of the first entry with the book's title that is not marked returned. */
  function RecordToReturn(rows: seq<HomeRow>, title: string): (r: Option<nat>)
    ensures r.Some? ==> r.value < |rows| && rows[r.value].bookTitle == title && NotReturned(rows[r.value])
    ensures r.Some? ==> forall j :: 0 <= j < r.value ==> rows[j].bookTitle != title || !NotReturned(rows[j])
    ensures r.None? ==> forall j :: 0 <= j < |rows| ==> rows[j].bookTitle != title || !NotReturned(rows[j])
  {
    IndexWhere(rows, (row: HomeRow) => row.bookTitle == title && NotReturned(row))
  }

  /** The body of a fetch, or the fallback the code substitutes when the reply is not `ok`. */
  function BodyOr<T>(ok: bool, body: T, fallback: T): T
  {
    if ok then body else fallback
  }

  /** The last step: the message of the action reply, or the default text for its outcome. */
  function Finish(requests: seq<Request>, reply: Fetched<ActionReply>, success: string, failure: string): (r: ScanOutcome)
    ensures r.requests == requests
    ensures reply.Threw? ==> r == ScanOutcome(requests, HandlingErrorPrefix + reply.error, true)
    ensures reply.Answer? ==> r.isError == !reply.ok
    ensures reply.Answer? && Truthy(reply.body.message) ==> r.message == reply.body.message.value
    ensures reply.Answer? && !Truthy(reply.body.message) ==> r.message == (if reply.ok then success else failure)
  {
    match reply
    case Threw(e) => ScanOutcome(requests, HandlingErrorPrefix + e, true)
    case Answer(ok, ActionReply(message)) =>
      var text := if Truthy(message) then message.value else if ok then success else failure;
      ScanOutcome(requests, text, !ok)
  }

  /**
   * `QuickScanPage.handleScanResult` (lines 1413-1489). `catalog` is the
   * reply of the catalog fetch, `home` that of the user-home fetch (used only
   * to return a book) and `reply` that of the borrow or return request (used
   * only when one is made).
   */
  function HandleScan(session: Session, text: string, intent: Intent,
                      catalog: Fetched<seq<CatalogBook>>, home: Fetched<seq<HomeRow>>,
                      reply: Fetched<ActionReply>): (r: ScanOutcome)
    ensures !SignedIn(session) ==> r == ScanOutcome([], LoginFirstText, true)
    ensures |r.requests| <= 3
    ensures forall i :: 0 <= i < |r.requests| - 1 ==> !IsAction(r.requests[i])
  {
    if !SignedIn(session) then ScanOutcome([], LoginFirstText, true)
    else
      var userId := session.id.value;
      match catalog
      case Threw(e) => ScanOutcome([FetchCatalog], HandlingErrorPrefix + e, true)
      case Answer(ok, books) =>
        match FindByIsbn(BodyOr(ok, books, []), text)
        case None => ScanOutcome([FetchCatalog], NoSuchBookText, true)
        case Some(book) =>
          if intent == BorrowIntent then
            Finish([FetchCatalog, BorrowBook(book.id, userId)], reply,
                   book.title + " 借閱成功！", book.title + " 借閱失敗。")
          else
            match home
            case Threw(e) => ScanOutcome([FetchCatalog, FetchUserHome(userId)], HandlingErrorPrefix + e, true)
            case Answer(homeOk, rows) =>
              var rows := BodyOr(homeOk, rows, []);
              match RecordToReturn(rows, book.title)
              case None => ScanOutcome([FetchCatalog, FetchUserHome(userId)], NoOpenRecordText, true)
              case Some(i) =>
                Finish([FetchCatalog, FetchUserHome(userId), ReturnRecord(rows[i].id)], reply,
                       book.title + " 歸還成功！", book.title + " 歸還失敗。")
  }

  /** A borrow or return request, as opposed to a lookup. */
  predicate IsAction(q: Request)
  {
    q.BorrowBook? || q.ReturnRecord?
  }

  /** The action request the outcome made, if any: always the last request. */
  function ActionOf(r: ScanOutcome): Option<Request>
  {
    if r.requests != [] && IsAction(r.requests[|r.requests| - 1]) then Some(r.requests[|r.requests| - 1]) else None
  }

  /** When no catalog book carries the decoded text as its ISBN, only the catalog is asked and nothing is borrowed or returned. */
  lemma UnknownIsbnMakesNoRequest(session: Session, text: string, intent: Intent, ok: bool, books: seq<CatalogBook>,
                                  home: Fetched<seq<HomeRow>>, reply: Fetched<ActionReply>)
    requires SignedIn(session)
    requires forall i :: 0 <= i < |books| ==> books[i].isbn != text
    ensures HandleScan(session, text, intent, Answer(ok, books), home, reply) ==
            ScanOutcome([FetchCatalog], NoSuchBookText, true)
  {
  }

  /** Borrowing sends one request, for the first book with the scanned ISBN, on behalf of the signed-in user. */
  lemma BorrowTargetsTheScannedBook(session: Session, text: string, books: seq<CatalogBook>,
                                    home: Fetched<seq<HomeRow>>, reply: Fetched<ActionReply>)
    requires SignedIn(session) && FindByIsbn(books, text).Some?
    ensures var r := HandleScan(session, text, BorrowIntent, Answer(true, books), home, reply);
            var book := FindByIsbn(books, text).value;
            r.requests == [FetchCatalog, BorrowBook(book.id, session.id.value)] &&
            book.isbn == text && book in books &&
            r == Finish(r.requests, reply, book.title + " 借閱成功！", book.title + " 借閱失敗。")
  {
  }

  /**
   * Returning sends one request, for the first open entry carrying the found
   * book's title; without such an entry it reports that and sends nothing.
   */
  lemma ReturnTargetsFirstTitleMatch(session: Session, text: string, books: seq<CatalogBook>,
                                     rows: seq<HomeRow>, reply: Fetched<ActionReply>)
    requires SignedIn(session) && FindByIsbn(books, text).Some?
    ensures var r := HandleScan(session, text, ReturnIntent, Answer(true, books), Answer(true, rows), reply);
            var i := RecordToReturn(rows, FindByIsbn(books, text).value.title);
            (i.None? ==> r == ScanOutcome([FetchCatalog, FetchUserHome(session.id.value)], NoOpenRecordText, true)) &&
            (i.Some? ==> ActionOf(r) == Some(ReturnRecord(rows[i.value].id))) &&
            (i.Some? ==> r == Finish(r.requests, reply, FindByIsbn(books, text).value.title + " 歸還成功！",
                                     FindByIsbn(books, text).value.title + " 歸還失敗。"))
  {
  }

  /**
   * The record to return is chosen by title alone: two catalog books with
   * the same title, scanned by their different ISBNs, lead to the same
   * return request.
   */
  lemma ReturnChoiceIgnoresWhichCopy(session: Session, text1: string, text2: string, books: seq<CatalogBook>,
                                     rows: seq<HomeRow>, reply: Fetched<ActionReply>)
    requires SignedIn(session)
    requires FindByIsbn(books, text1).Some? && FindByIsbn(books, text2).Some?
    requires FindByIsbn(books, text1).value.title == FindByIsbn(books, text2).value.title
    ensures ActionOf(HandleScan(session, text1, ReturnIntent, Answer(true, books), Answer(true, rows), reply)) ==
            ActionOf(HandleScan(session, text2, ReturnIntent, Answer(true, books), Answer(true, rows), reply))
  {
  }

  /** `borrowed_books` entries as the server sends them: without a `returned` field. */
  function FromServer(rows: seq<ApiViews.OpenLoanRow>): (r: seq<HomeRow>)
    ensures |r| == |rows|
    ensures forall k :: 0 <= k < |rows| ==> r[k].id == rows[k].id && r[k].bookTitle == rows[k].bookTitle && r[k].returned.None?
  {
    seq(|rows|, k requires 0 <= k < |rows| => HomeRow(rows[k].id, rows[k].bookTitle, None))
  }

  /**
   * On the server's own entries the client's `returned` test never rejects
   * anything, and the chosen entry is an unreturned record of the user:
   * with a consistent store, one the return endpoint accepts.
   */
  lemma ServerEntriesMatchOnTitleAlone(db: Store.Db, userId: int, today: Models.Day, title: string)
    requires Store.RecordsReferToBooks(db.records, db.books)
    ensures var rows := FromServer(ApiViews.BorrowedList(db, userId, today));
            var i := RecordToReturn(rows, title);
            (i.None? <==> forall k :: 0 <= k < |rows| ==> rows[k].bookTitle != title) &&
            (i.Some? ==> exists j :: 0 <= j < |db.records| && db.records[j].id == rows[i.value].id &&
                                    db.records[j].userId == userId && !db.records[j].returned)
  {
    var server := ApiViews.BorrowedList(db, userId, today);
    var rows := FromServer(server);
    ApiViews.BorrowedListHasOnlyOpenLoans(db, userId, today);
    var i := RecordToReturn(rows, title);
    if i.Some? {
      assert rows[i.value].id == server[i.value].id;
    }
  }
}
