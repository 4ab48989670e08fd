# Library lending system — a Dafny model

This project models the core of a small library-lending system. It has four parts:

- **The JSON API** (`libmanagesystem/backend/libmanage/views.py`). It handles login, registration, the user's home
  page, creating and deleting books, borrowing and returning, over a database of users, books and borrow records.
- **The older template views** (`libmanagesystem/libmanage/views.py`). They drive the same tables through a session
  and flashed messages.
- **The two React clients** (`frontend/src/App.js`, the newer one with the quick-scan page, and
  `libmanagesystem/frontend/src/App.js`, the older one). From them the model takes page routing, form checks, the book
  list's buttons and the quick-scan borrow/return flow.
- **The QR-code scripts** (`barcode-detect/QRCODE.py`, `barcode-detect/barcode.py`). They write a book's fields as
  `key: value` lines, parse them back, and run a webcam loop that prints each new payload as a JSON object.

Modules:

- `Models` — the `Book`, `BorrowRecord` and `User` rows, the overdue rule, the column widths and password hashing.
- `Store` — the database value and its integrity invariant `Consistent`:
  - ids are issued in order and usernames are unique;
  - every record refers to an existing book and user;
  - a book is marked borrowed exactly when it has an open (unreturned) record, and it has at most one;
  - book fields fit their columns.
- `Store` also holds the row-level changes and the user's loan listings.
- `ApiViews` — one specification function per JSON endpoint, returning the new database and the response. The class
  `LibraryApi` holds the tables as fields and updates them in place. Each of its methods is proved to produce what its
  function specifies.
- `TemplateViews` — the same structure for the template views: a `Site` value (database, session, flashed messages)
  and the class `LibrarySite`.
- `ClientPages` — routing in both clients, the profile and book forms, and the older client's book-list buttons.
- `ScanClient` — the quick-scan page: classifying a scan reply and choosing the requests for a scanned code.
- `QrText` — Python's `split`, `strip` and `replace`, the QR payload format, the parse loop (a method proved against
  its specification function) and the serialize/parse round trip.
- `QrScanner` — the webcam loop over the payloads decoded in each frame (a method with nested loops) and the three
  ways a payload is turned into output.
- `Wrappers` and `Seqs` — `Option` and generic sequence helpers.

Dates are day numbers. "Today", the calendar's "two months later" and date formatting are parameters, so no clock is
read.

## Model

Source paths are relative to the repository root.

| member | source | states |
|---|---|---|
| Models.MakePassword | libmanagesystem/libmanage/views.py:69-72 | a given password matches its hash; a missing password gives a hash that no password matches |
| Models.CheckPassword | libmanagesystem/libmanage/views.py:49 | `check_password`: a password matches a hash exactly when the hash was made from it; `OnlyTheHashedPasswordMatches` states this |
| Models.FitsColumns | libmanagesystem/libmanage/models.py:10-12 | the `max_length` of title (100), author (50) and ISBN (17); `CreateBookStep` succeeds only for fields that fit |
| Models.OnlyTheHashedPasswordMatches | libmanagesystem/backend/libmanage/views.py:65-66 | a hash made from one password is matched by that password and by no other |
| Models.NewBook | libmanagesystem/libmanage/models.py:10-13 | a new book has the given title, author and ISBN, and `is_borrowed` starts false |
| Models.NewRecord | libmanagesystem/libmanage/models.py:19-24 | a new record is stamped with today as borrow date (`auto_now_add`), has the given due date, and is not returned |
| Models.IsOverdue | libmanagesystem/libmanage/models.py:29-31 | overdue means open and past its due date; `ReturnedIsNeverOverdue` and `OverdueStaysOverdue` state its properties |
| Models.ReturnedIsNeverOverdue | libmanagesystem/libmanage/models.py:29-31 | a returned record is never overdue |
| Models.OverdueStaysOverdue | libmanagesystem/libmanage/models.py:29-31 | an overdue open record stays overdue on every later day |
| Models.ApiLoanFallsDueAfterSixtyDays | libmanagesystem/backend/libmanage/views.py:276-285 | an API loan is overdue exactly from day 61 after borrowing while open |
| Store.UserById | libmanagesystem/backend/libmanage/views.py:135-138 | found: the position of the user with that id; not found: no user has it |
| Store.UserByName | libmanagesystem/backend/libmanage/views.py:60-63 | found: the position of a user with that name; not found: no user has it |
| Store.RecordById | libmanagesystem/backend/libmanage/views.py:303-306 | found: the position of the record with that id; not found: no record has it |
| Store.AddUser | libmanagesystem/backend/libmanage/views.py:104-107 | exactly one user is appended, under the next id with the given name and hash; books, records and the other counters are unchanged |
| Store.AddBook | libmanagesystem/backend/libmanage/views.py:212 | exactly one book is added, under the next id, available; the other books, users, records and the other counters are unchanged |
| Store.OpenLoan | libmanagesystem/backend/libmanage/views.py:280-288 | exactly one open record is appended under the next id; the lent book equals its old value with only `is_borrowed` set; other books, users and the other counters are unchanged |
| Store.CloseLoan | libmanagesystem/backend/libmanage/views.py:311-315 | that record equals its old value with only `returned` set and the return date stored; its book equals its old value with only `is_borrowed` cleared; other records, books, users and counters are unchanged |
| Store.RemoveBook | libmanagesystem/backend/libmanage/views.py:234-235 | the book goes with all its records (the cascade); the other books are unchanged, the remaining records are earlier records of other books; users and counters are unchanged |
| Store.EmptyDbIsConsistent | libmanagesystem/libmanage/models.py:8-24 | the empty database satisfies the integrity invariant |
| Store.AddUserKeepsConsistent | libmanagesystem/backend/libmanage/views.py:100-107 | inserting a user whose name is not taken keeps the invariant |
| Store.AddBookKeepsConsistent | libmanagesystem/backend/libmanage/views.py:211-214 | inserting a book whose fields fit their columns keeps the invariant |
| Store.OpenLoanKeepsConsistent | libmanagesystem/backend/libmanage/views.py:270-288 | opening a loan on an available book for an existing user keeps the invariant |
| Store.CloseLoanKeepsConsistent | libmanagesystem/backend/libmanage/views.py:308-315 | closing an open record and freeing its book keeps the invariant |
| Store.RemoveBookKeepsConsistent | libmanagesystem/backend/libmanage/views.py:234-235 | deleting a book together with its records (the cascade) keeps the invariant |
| Store.OpenLoanCountPositive | libmanagesystem/backend/libmanage/views.py:273-274 | the number of open records on a book is positive exactly when it has an open record |
| Store.OpenLoanCountAtMostOne | libmanagesystem/backend/libmanage/views.py:270-274 | under the one-open-loan invariant a book has at most one open record |
| Store.BorrowedIffExactlyOneOpenLoan | libmanagesystem/libmanage/models.py:13 | in a consistent database a book is marked borrowed exactly when it has exactly one open record |
| Store.LoansOf | libmanagesystem/backend/libmanage/views.py:144-146 | every listed record is one of the database's records and belongs to the user |
| Store.LoansOfIsComplete | libmanagesystem/backend/libmanage/views.py:144-146 | every record of the user is listed |
| Store.OpenLoansOf | libmanagesystem/backend/libmanage/views.py:140-142 | every listed record is in the database, belongs to the user and is not returned |
| Store.OpenLoansOfIsComplete | libmanagesystem/backend/libmanage/views.py:140-142 | every open record of the user is listed |
| Store.ScanLoans | libmanagesystem/backend/libmanage/views.py:140-146 | one pass over the record table collects exactly the user's records and the user's open records, in table order |
| Store.InsertNewestFirst | libmanagesystem/backend/libmanage/views.py:146 | inserting into a newest-first list keeps it newest-first and adds exactly that record |
| Store.SortNewestFirst | libmanagesystem/backend/libmanage/views.py:146 | `order_by('-borrow_date')`: the output is newest-first and a permutation of the input |
| Store.SortedLoansAreComplete | libmanagesystem/libmanage/views.py:92 | the sorted history holds every record of the user |
| Store.SortedLoansAreTheUsers | libmanagesystem/libmanage/views.py:92 | the sorted history holds only the user's records |
| ApiViews.Failure | libmanagesystem/backend/libmanage/views.py:17-19 | an error response carries `error: true`, the message and the status, and no data |
| ApiViews.Success | libmanagesystem/backend/libmanage/views.py:21-25 | a success response carries `error: false`, the message, the status and the data |
| ApiViews.BodyFailure | libmanagesystem/backend/libmanage/views.py:44-50 | a body that is not JSON gives a 400 error; a JSON body passes |
| ApiViews.LoginReply | libmanagesystem/backend/libmanage/views.py:39-72 | login succeeds exactly when both fields are filled and some user has that name and password; success is 200 with "歡迎：" and the name, and the payload carries the id and name of the user found by that name; every failure is 400 |
| ApiViews.LoginHidesWhichCheckFailed | libmanagesystem/backend/libmanage/views.py:60-66 | an unknown name and a wrong password give the same reply |
| ApiViews.RegisterStep | libmanagesystem/backend/libmanage/views.py:80-115 | registration succeeds exactly when both fields are filled and the name is free; on success the database is `AddUser` of that name and password hash, so exactly one user with the next id and a matching hash is appended (201); otherwise nothing changes (400) |
| ApiViews.RegisterKeepsConsistent | libmanagesystem/backend/libmanage/views.py:80-115 | registration keeps the invariant |
| ApiViews.RegisteredUserCanLogIn | libmanagesystem/backend/libmanage/views.py:104-112 | after a successful registration, logging in with the same name and password returns the new account |
| ApiViews.OpenLoanRows | libmanagesystem/backend/libmanage/views.py:148-154 | one row per record, with its id, book title, dates and overdue flag |
| ApiViews.LoanRows | libmanagesystem/backend/libmanage/views.py:156-164 | one row per record, also with return date and returned flag |
| ApiViews.BuildOpenLoanRows | libmanagesystem/backend/libmanage/views.py:148-154 | the `borrowed_books` loop builds exactly the rows `OpenLoanRows` gives |
| ApiViews.BuildLoanRows | libmanagesystem/backend/libmanage/views.py:156-164 | the `all_records` loop builds exactly the rows `LoanRows` gives |
| ApiViews.BorrowedList | libmanagesystem/backend/libmanage/views.py:140-154 | one row per open record of the user; `BorrowedListHasOnlyOpenLoans` and `BorrowedListHasEveryOpenLoan` state it lists exactly those |
| ApiViews.HistoryList | libmanagesystem/backend/libmanage/views.py:144-164 | the rows of the user's records sorted newest first; `HistoryListIsNewestFirst` and `HistoryListHasEveryLoan` state its order and completeness |
| ApiViews.UserHomeReply | libmanagesystem/backend/libmanage/views.py:127-171 | missing id gives 401 and unknown user gives 404; otherwise 200 with that user's name, borrowed list and history |
| ApiViews.BorrowedListHasOnlyOpenLoans | libmanagesystem/backend/libmanage/views.py:140-154 | every borrowed row is an open record of the user, and its overdue flag is "due date before today" |
| ApiViews.BorrowedListHasEveryOpenLoan | libmanagesystem/backend/libmanage/views.py:140-154 | every open record of the user has a borrowed row |
| ApiViews.HistoryListIsNewestFirst | libmanagesystem/backend/libmanage/views.py:144-164 | history rows are ordered by borrow date, newest first, one per record of the user |
| ApiViews.HistoryListHasEveryLoan | libmanagesystem/backend/libmanage/views.py:144-164 | every record of the user has a history row |
| ApiViews.CreateBookStep | libmanagesystem/backend/libmanage/views.py:192-217 | creation succeeds exactly when the three fields are filled and fit their columns; on success the database is `AddBook` of the three fields, so one available book is added under the next id (201, "書籍新增成功"); a missing field gives "請填寫所有欄位" and a refused insert "新增失敗：" with the database's text, both 400 with nothing changed |
| ApiViews.CreateBookKeepsConsistent | libmanagesystem/backend/libmanage/views.py:192-217 | book creation keeps the invariant |
| ApiViews.DeleteBookStep | libmanagesystem/backend/libmanage/views.py:225-237 | an unknown book gives 404 and no change; otherwise 200 naming the title, the book and all its records go (`RemoveBook`), the other books and records stay, and users and the id counters are unchanged |
| ApiViews.BorrowStep | libmanagesystem/backend/libmanage/views.py:245-291 | each error reply in its order (401, 404 user, 404 book, lent out); success exactly when the user and book exist, the book is free and the user has no open loan of it; then the reply is 200 with no data and the database is `OpenLoan` of the user, the book, today and today + 60 days: one open record under the next id, the book marked borrowed, everything else unchanged; any error leaves the database unchanged |
| ApiViews.BorrowingABorrowedBookFails | libmanagesystem/backend/libmanage/views.py:270-271 | borrowing a lent-out book gives "此書已被借出" (400) and changes nothing |
| ApiViews.DuplicateLoanReplyUnreachable | libmanagesystem/backend/libmanage/views.py:273-274 | in a consistent database the 409 "already borrowed by you" reply never happens: the `is_borrowed` check answers first |
| ApiViews.BorrowKeepsConsistent | libmanagesystem/backend/libmanage/views.py:245-291 | borrowing keeps the invariant |
| ApiViews.ReturnStep | libmanagesystem/backend/libmanage/views.py:299-318 | an unknown record gives 404 and a returned one 409, both with no change; otherwise the reply is 200 with no data and the database is `CloseLoan` of that record with today's date: exactly that record is marked returned, its book is freed, and nothing else changes |
| ApiViews.ReturnKeepsConsistent | libmanagesystem/backend/libmanage/views.py:299-318 | returning keeps the invariant |
| ApiViews.BorrowThenReturnFreesTheBook | libmanagesystem/backend/libmanage/views.py:245-318 | returning the record a borrow created succeeds and leaves the book available again |
| ApiViews.LibraryApi.Login | libmanagesystem/backend/libmanage/views.py:39-76 | the reply is the one `LoginReply` specifies; the tables are not touched |
| ApiViews.LibraryApi.Register | libmanagesystem/backend/libmanage/views.py:80-119 | the new tables and reply are those of `RegisterStep` on the old tables, and the invariant holds |
| ApiViews.LibraryApi.UserHome | libmanagesystem/backend/libmanage/views.py:127-175 | one scan of the record table and two row loops give exactly the reply `UserHomeReply` specifies: 401 without an id, 404 for an unknown user, else the user's open loans and newest-first history as rows |
| ApiViews.LibraryApi.CreateBook | libmanagesystem/backend/libmanage/views.py:192-221 | the new tables and reply are those of `CreateBookStep`, and the invariant holds |
| ApiViews.LibraryApi.DeleteBook | libmanagesystem/backend/libmanage/views.py:225-241 | the new tables and reply are those of `DeleteBookStep`, and the invariant holds |
| ApiViews.LibraryApi.Borrow | libmanagesystem/backend/libmanage/views.py:245-295 | the new tables and reply are those of `BorrowStep`, and the invariant holds |
| ApiViews.LibraryApi.Return | libmanagesystem/backend/libmanage/views.py:299-322 | the new tables and reply are those of `ReturnStep`, and the invariant holds |
| TemplateViews.Flashed | libmanagesystem/libmanage/views.py:27 | flashing appends exactly one message and leaves the database and session alone |
| TemplateViews.LoginView | libmanagesystem/libmanage/views.py:20-58 | GET renders the form; empty fields give "請輸入帳號與密碼"; register with a taken name flashes "帳號已存在，請直接登入" and changes nothing, with a free name adds that user, signs them in and sends them home; login with an unknown name or wrong password flashes "帳號或密碼錯誤", otherwise signs the user in, flashes "歡迎：" and the name, and sends `admin` to book creation and others home; any other action renders the form; the database changes exactly on registering a free name |
| TemplateViews.AdminLandsOnBookCreate | libmanagesystem/libmanage/views.py:48-56 | a correct login signs the user in without changing the database, and sends `admin` to book creation and everyone else home |
| TemplateViews.LoginViewKeepsConsistent | libmanagesystem/libmanage/views.py:20-58 | the login view keeps the invariant |
| TemplateViews.RegisterView | libmanagesystem/libmanage/views.py:60-77 | GET renders the form; a POST with no account name is a server error with nothing changed; a taken name gives "帳號已存在"; a free name adds exactly that user, signs them in and flashes "註冊成功"; nothing else changes the database |
| TemplateViews.PasswordlessAccountCannotLogIn | libmanagesystem/libmanage/views.py:60-72 | an account registered without a password can never log in |
| TemplateViews.LogoutView | libmanagesystem/libmanage/views.py:80-82 | logout clears the session, keeps the database and redirects home |
| TemplateViews.UserHomeView | libmanagesystem/libmanage/views.py:85-99 | signed out (no session id, or the falsy id 0) goes to login; an unknown session user is a server error; a known user gets the home page with exactly the user's open records as borrowed, and exactly the user's records newest-first as history |
| TemplateViews.BorrowBookView | libmanagesystem/libmanage/views.py:144-165 | signed out (no session id, or the falsy id 0) goes to login with nothing changed; an unknown session user is a server error and an unknown book 404, both with nothing changed; a lent-out book gives "此書已被借出" and no change; the database changes exactly when a signed-in user borrows a free book, and then by one record under the next id and the borrowed flag, with users and the other counters unchanged |
| TemplateViews.BorrowBookViewKeepsConsistent | libmanagesystem/libmanage/views.py:144-165 | the borrow view keeps the invariant |
| TemplateViews.ReturnBookAsWritten | libmanagesystem/libmanage/views.py:167-174 | as written: any existing record, returned or not, is closed as `CloseLoan` does (that record marked returned, its book freed, other records, books and users unchanged), the session kept, "<title> 已成功歸還" flashed, and the user sent home |
| TemplateViews.ReturnTwiceIsReturnOnce | libmanagesystem/libmanage/views.py:167-174 | as written, a second return of the same record changes nothing more |
| TemplateViews.ReturnAsWrittenBreaksTheInvariant | libmanagesystem/libmanage/views.py:167-174 | returning an old, already returned record of a re-lent book frees the book while its newer loan is open |
| TemplateViews.ReturnBookView | libmanagesystem/libmanage/views.py:167-174 | corrected: an unknown record gives 404; an already returned one only flashes "此書已歸還"; an open record is closed as `CloseLoan` does (that record returned, its book freed, everything else unchanged), with the title flashed and the user sent home |
| TemplateViews.ReturnBookKeepsConsistent | libmanagesystem/libmanage/views.py:167-174 | the corrected return keeps the invariant |
| TemplateViews.LibrarySite.Login | libmanagesystem/libmanage/views.py:20-58 | the new state and page are those of `LoginView`, and the invariant holds |
| TemplateViews.LibrarySite.Register | libmanagesystem/libmanage/views.py:60-77 | the new state and page are those of `RegisterView`, and the invariant holds |
| TemplateViews.LibrarySite.Logout | libmanagesystem/libmanage/views.py:80-82 | the tables are unchanged, the invariant holds, and the state is that of `LogoutView` |
| TemplateViews.LibrarySite.UserHome | libmanagesystem/libmanage/views.py:85-99 | one scan of the record table gives the borrowed list and the history, sorted newest first; the page is exactly the one `UserHomeView` specifies |
| TemplateViews.LibrarySite.BorrowBook | libmanagesystem/libmanage/views.py:144-165 | the new state and page are those of `BorrowBookView`, and the invariant holds |
| TemplateViews.LibrarySite.ReturnBook | libmanagesystem/libmanage/views.py:167-174 | the new state and page are those of the corrected `ReturnBookView`, and the invariant holds |
| QrText.FirstIndex | barcode-detect/QRCODE.py:67 | the first position of the character, or none when it does not occur |
| QrText.Split | barcode-detect/QRCODE.py:64 | `str.split(sep)`: at least one piece, no piece holds the separator, and joining the pieces gives the text back |
| QrText.SplitJoin | barcode-detect/QRCODE.py:64 | splitting a join of separator-free pieces gives the pieces back |
| QrText.SplitKeepsAbsence | barcode-detect/QRCODE.py:64 | a character absent from the text is absent from every piece |
| QrText.OneLineExactly | barcode-detect/barcode.py:48 | the split has one piece exactly when the separator does not occur |
| QrText.FirstIndexAfterFreePrefix | barcode-detect/QRCODE.py:67 | the first occurrence follows a prefix that does not hold the character |
| QrText.SplitOnce | barcode-detect/QRCODE.py:67 | `split(':', 1)`: two parts exactly when the colon occurs; the first part holds no colon, and the parts joined by the colon give the line |
| QrText.TrimLeft | barcode-detect/QRCODE.py:68 | a suffix after a run of whitespace that does not start with whitespace |
| QrText.TrimRight | barcode-detect/QRCODE.py:68 | a prefix before a run of whitespace that does not end with whitespace |
| QrText.Strip | barcode-detect/QRCODE.py:68 | the result has no whitespace at either end, and an already stripped text is unchanged |
| QrText.StripIsASlice | barcode-detect/QRCODE.py:68 | strip removes whitespace at both ends and nothing else: the result is a slice of the text with only whitespace before and after it |
| QrText.TrimLeftSpaces | barcode-detect/QRCODE.py:68 | leading whitespace before a text that does not start with whitespace is removed, and only that |
| QrText.StripAfterSpaces | barcode-detect/QRCODE.py:68 | stripping leading whitespace off a stripped text gives that text |
| QrText.ReplaceAll | barcode-detect/barcode.py:57 | `str.replace`: a text without the pattern is unchanged |
| QrText.FieldLines | barcode-detect/QRCODE.py:14-18 | the five `key: value` lines, title first and status last; `FieldLinesAreRead` states they read back as the five entries |
| QrText.Serialize | barcode-detect/QRCODE.py:14-18 | the five lines joined by newlines; `SerializeHasFiveLines` and `RoundTrip` state what parsing gets back |
| QrText.SerializeHasFiveLines | barcode-detect/QRCODE.py:14-18 | a payload whose fields hold no newline splits into exactly its five `key: value` lines, title first and status last |
| QrText.LineEntry | barcode-detect/QRCODE.py:66-68 | a line gives an entry exactly when it holds a colon |
| QrText.EntriesBy | barcode-detect/QRCODE.py:65-68 | one entry per line |
| QrText.EntryAt | barcode-detect/QRCODE.py:65-68 | entry i is read from line i |
| QrText.EntriesOfConcat | barcode-detect/QRCODE.py:65-68 | the entries of two blocks of lines are the entries of each, in order |
| QrText.CollectOneMore | barcode-detect/QRCODE.py:65-68 | one more loop step adds that line's pair, overriding an earlier value, or nothing for a colon-free line |
| QrText.Collect | barcode-detect/QRCODE.py:65-68 | the map built from the entries in order, later keys overwriting earlier ones; `CollectedKeys` and `LastEntryWins` state its keys and values |
| QrText.ParsedFrom | barcode-detect/QRCODE.py:63-68 | the map collected from the lines' entries; `ParsedKeys` and `LastOccurrenceWins` state its keys and values |
| QrText.ParseKeyValues | barcode-detect/barcode.py:47-52 | the loop over the lines builds exactly the map the specification function gives for the split text |
| QrText.EmptyEntryIsIgnored | barcode-detect/QRCODE.py:66 | a line without an entry does not change the parsed map |
| QrText.ColonFreeLineIsIgnored | barcode-detect/QRCODE.py:66 | inserting a colon-free line anywhere does not change the parsed map |
| QrText.CollectedKeys | barcode-detect/QRCODE.py:65-68 | a key is in the collected map exactly when some entry has it |
| QrText.ParsedKeys | barcode-detect/QRCODE.py:65-68 | a key is parsed exactly when some line reads to that key |
| QrText.LastEntryWins | barcode-detect/QRCODE.py:68 | a repeated key keeps the value of its last entry |
| QrText.LastOccurrenceWins | barcode-detect/QRCODE.py:68 | a key repeated over lines keeps the value of its last line |
| QrText.SplitAtFirstColon | barcode-detect/QRCODE.py:67-68 | a line is split at its first colon, and key and value are stripped |
| QrText.SomethingParsedFromAColon | barcode-detect/barcode.py:59 | lines with a colon parse to a non-empty map |
| QrText.NothingParsedWithoutColons | barcode-detect/barcode.py:61 | colon-free lines parse to the empty map |
| QrText.FieldLineEntry | barcode-detect/QRCODE.py:14-18 | a written `key: value` line reads back as that key and value |
| QrText.PayloadKeysAreKeys | barcode-detect/QRCODE.py:14-18 | the five field names hold no colon and are stripped |
| QrText.FieldLinesAreRead | barcode-detect/QRCODE.py:14-18 | the five written lines read back as the five field entries |
| QrText.CollectFieldEntries | barcode-detect/QRCODE.py:14-18 | the five field entries collect to the map of the five fields |
| QrText.RoundTrip | barcode-detect/QRCODE.py:14-68 | parsing a generated payload gives back all five fields under their keys, when the fields hold no newline and have no surrounding whitespace |
| QrScanner.Describe | barcode-detect/barcode.py:47-62 | the printed object is the one `OutputFor` chooses for the payload |
| QrScanner.OutputFor | barcode-detect/barcode.py:56-62 | every processed payload prints an object with at least one key: the ISBN, the parsed fields or the whole text |
| QrScanner.IsbnOnlyPayload | barcode-detect/barcode.py:56-58 | a one-line payload holding "ISBN: " gives its text with every "ISBN: " removed, stripped |
| QrScanner.ParsedPayload | barcode-detect/barcode.py:59-60 | a payload that is not ISBN-only and has a colon line gives the parsed map |
| QrScanner.IsbnPrefixHasAColon | barcode-detect/barcode.py:56 | a text holding "ISBN: " holds a colon |
| QrScanner.ColonFreePayload | barcode-detect/barcode.py:61-62 | a payload without a colon is passed on whole under "content" |
| QrScanner.Processed | barcode-detect/barcode.py:41-42 | no more payloads are processed than were decoded; the last decoded one is processed last; no payload is processed twice in a row |
| QrScanner.ProcessedOneMore | barcode-detect/barcode.py:41-42 | a new payload is processed exactly when it differs from the previous one |
| QrScanner.NoRepeatsAllProcessed | barcode-detect/barcode.py:41-42 | payloads with no repeat next to each other are all processed, in order |
| QrScanner.ReturningPayloadIsProcessedAgain | barcode-detect/barcode.py:41-42 | A, B, A is processed in full: only the last payload is remembered |
| QrScanner.RepeatIsSuppressed | barcode-detect/barcode.py:41-42 | a payload repeated right away is processed once |
| QrScanner.RememberedIsLastProcessed | barcode-detect/barcode.py:20 | the remembered payload is the one processed last |
| QrScanner.Scan | barcode-detect/barcode.py:22-66 | the loop processes exactly `Processed` of all decoded payloads, prints `OutputFor` of each, and remembers the last payload |
| ClientPages.RenderPage | frontend/src/App.js:1615-1664 | a page that needs sign-in is shown only to a signed-in user; an admin page only to `yucheng`; the book editor only for `edit_book` with a non-zero id |
| ClientPages.UnknownPageShowsHome | frontend/src/App.js:1659-1660 | an unknown page name shows Home |
| ClientPages.SignInGate | frontend/src/App.js:1636-1658 | user home, profile and quick scan send a signed-out user to Login |
| ClientPages.AdminGate | frontend/src/App.js:1618-1648 | book creation and the book editor show Home to anyone but `yucheng` |
| ClientPages.RenderLegacyPage | libmanagesystem/frontend/src/App.js:954-982 | the same gates with `admin` as administrator; there is no scan page and no book editor |
| ClientPages.LegacyUnknownPageShowsHome | libmanagesystem/frontend/src/App.js:979-980 | an unknown page name shows Home |
| ClientPages.ClientsAgreeOnSharedPages | libmanagesystem/frontend/src/App.js:954-982 | apart from quick scan and book creation, both clients show the same screen for a page name |
| ClientPages.Utf16Length | frontend/src/App.js:1138 | `length` counts UTF-16 code units: between one and two per character |
| ClientPages.CheckPasswordChange | frontend/src/App.js:1119-1142 | the request is sent exactly when the user is signed in and the two entries are filled, equal and at least 6 code units long; it carries the user and the new password |
| ClientPages.PasswordChecksInOrder | libmanagesystem/frontend/src/App.js:790-813 | each refusal message is given exactly when the checks before it pass and its own check fails |
| ClientPages.AstralCharactersCountTwice | frontend/src/App.js:1138 | a text of characters outside the basic plane has twice as many code units as characters, so three of them pass the six-unit minimum |
| ClientPages.BasicPlaneCharactersCountOnce | frontend/src/App.js:1138 | within the basic plane the code-unit count is the character count |
| ClientPages.CheckNewBook | frontend/src/App.js:752-756 | the form is sent exactly when all five fields are filled; otherwise "請填寫所有欄位" |
| ClientPages.CheckLegacyBook | libmanagesystem/frontend/src/App.js:653-657 | the form is sent exactly when title, author and ISBN are filled; otherwise "請填寫所有欄位" |
| ClientPages.NewerBookCheckIsStricter | frontend/src/App.js:752 | a form the newer client sends also passes the older client's check |
| ClientPages.BorrowClick | libmanagesystem/frontend/src/App.js:479-497 | signed out goes to Login with "請先登入才能借閱書籍"; the borrow request for this book and user is sent exactly when signed in and confirmed |
| ClientPages.DeleteClick | libmanagesystem/frontend/src/App.js:516-530 | anyone but `admin` gets "只有管理員才能刪除書籍"; the delete request is sent exactly for `admin` who confirms |
| ClientPages.OfferedButtonsSend | libmanagesystem/frontend/src/App.js:600-615 | a button the list shows leads, once confirmed, to its request |
| ScanClient.Classify | frontend/src/App.js:1349-1361 | a reply delivers the text exactly when it is ok and has decoded text; a failed request reports the network error; any other error is a real message other than "未找到條碼或QR碼" |
| ScanClient.NothingFoundKeepsScanning | frontend/src/App.js:1353-1357 | without a result, scanning goes on exactly when there is no message or it is "未找到條碼或QR碼" |
| ScanClient.FindByIsbn | frontend/src/App.js:1435 | the found book is in the list and has exactly the scanned text as ISBN; none is found only when no book has it |
| ScanClient.RecordToReturn | frontend/src/App.js:1451 | the first listed record with the book's title that is not returned |
| ScanClient.Finish | frontend/src/App.js:1465-1488 | the server's message is shown when it has one, else the success or failure text; a thrown error gives the error prefix |
| ScanClient.HandleScan | frontend/src/App.js:1413-1489 | signed out makes no request; at most three requests, and only the last one may borrow or return |
| ScanClient.UnknownIsbnMakesNoRequest | frontend/src/App.js:1437-1441 | a code that is no book's ISBN stops after the catalog fetch with "未找到對應的書籍。" |
| ScanClient.BorrowTargetsTheScannedBook | frontend/src/App.js:1443-1481 | borrowing sends the borrow request for the book with the scanned ISBN and the signed-in user, and the outcome is `Finish` with "<title> 借閱成功！" / "<title> 借閱失敗。" as defaults |
| ScanClient.ReturnTargetsFirstTitleMatch | frontend/src/App.js:1448-1481 | returning sends the return request for the first open record with the book's title, and the outcome is `Finish` with "<title> 歸還成功！" / "<title> 歸還失敗。" as defaults; without such a record it stops with "未找到您借閱此書的未歸還記錄。" |
| ScanClient.ReturnChoiceIgnoresWhichCopy | frontend/src/App.js:1451 | two different books with the same title lead to the same record |
| ScanClient.FromServer | libmanagesystem/backend/libmanage/views.py:148-154 | the server's borrowed rows keep id and title, and have no `returned` field |
| ScanClient.ServerEntriesMatchOnTitleAlone | frontend/src/App.js:1449-1451 | on the server's rows a record is chosen exactly when one has the title, and the chosen one is an open record of the user |

## Left out

- The `except Exception` branches that answer 500 and the JSON `Content-Type` check are modelled only as the 400
  reply for a non-JSON body (`ApiViews.BodyFailure`). A failed `get` in the template views is modelled as a
  `ServerError` page.
- `test_api`, `logout_api` and `book_list_api` are not modelled. They read nothing back and change nothing.
- The template views `home`, `book_create_view` and `book_list` are not modelled. They only render or insert without
  checks.
- The template `book_delete` is not modelled. It looks up the name `book` before it is bound, so it always raises.
- Camera access, timers, canvas capture, `fetch`, `window.confirm` and the React state hooks are not modelled. Fetch
  results and the confirmation enter as parameters. The scanner's `scanning` flag and `stopScan` are left out.
- JSON encoding (`json.dumps`, key order, indentation) is not modelled. Outputs are maps.
- The database returns an unordered query in id order. `order_by('-borrow_date')` is modelled as an insertion sort,
  which puts records with equal dates in the order it meets them. The model states only newest-first order and
  permutation, not the database's tie order.
- Date arithmetic is done by parameters: `twoMonthsAfter` for `relativedelta(months=2)` and `dateText`/`dueText` for
  date formatting. The API's 60 days are an addition on day numbers.
- Column widths are assumed to be enforced by the database backend, which the repository does not name. Django's
  `create` does not check `max_length` itself, and SQLite would accept longer text. The refusal's text enters as the
  `dbError` parameter.
- The `except` around the insert in `register_api` (`libmanagesystem/backend/libmanage/views.py:113-115`) answers 400
  "註冊失敗：…" when the insert raises. The model's insert cannot fail once the name is free, so this branch is not
  modelled. The same holds for the "註冊失敗" flash of the template `login` (`libmanagesystem/libmanage/views.py:44-46`).
- The 405 answer that `require_http_methods` gives to a request with another HTTP method is not modelled. Each
  endpoint is modelled only for the method it allows.
- Password hashing is abstracted: a hash remembers the password it came from.
- JSON values of other types are not modelled. `ApiViews.Credentials` and `ApiViews.BookFields` carry only strings,
  and the `user_id` of a borrow body (`ApiViews.BorrowStep`) and of the home query (`ApiViews.UserHomeReply`) only
  integers. The handlers test only truthiness and hand the value to the ORM, which converts it. So
  `{"username": 123, "password": "pw"}` would register the user "123"
  (`libmanagesystem/backend/libmanage/views.py:97-112`), and `"user_id": "5"` would borrow for user 5 (line 263). A
  value the ORM cannot convert ends in the unmodelled 500 reply.
- The newer client's book list, book editor, user page, login and register forms are not modelled. Its book list
  also requires `status === 'AVAILABLE'` to offer borrowing (`frontend/src/App.js:704`).
- URLs are modelled as request constructors (`BorrowRequest`, `ReturnRecord`, ...), not as text.
- The "已辨識到" message that the quick-scan page shows before deciding is not modelled.
- `topic1/`, `test.py` and the two `urls.py` files are not part of this model.
- QrText.ReplaceAll: only states that a text without the pattern is unchanged. The replacement itself is given by its
  definition (left to right, no overlaps).
- QrScanner.Scan: frames are given as the list of payloads decoded in each, so reading frames, the 'q' key and
  drawing boxes are not modelled.

## Findings

| source | as written | input that shows it | evidently intended | confidence | as-written member | corrected member |
|---|---|---|---|---|---|---|
| libmanagesystem/libmanage/views.py:167-174 | `return_book` marks any record returned and clears its book's `is_borrowed`, even when the record was already returned | book 1 ("Dune") has record 1, returned, and record 2, open; returning record 1 again frees book 1 while record 2 is still open, so a second user can borrow a book that is out | refuse a record that is already returned, as the JSON API does at line 308 | high (not executed) | TemplateViews.ReturnAsWrittenBreaksTheInvariant | TemplateViews.ReturnBookKeepsConsistent |
