/**
 * The database the lending views work on: the user, book and borrow-record
 * tables and their id sequences, the integrity invariant every view keeps,
 * and the row-level changes the views are built from.
 *
 * Users and records are kept in id order, which is the order an unordered
 * query returns them in this model; books are looked up by id only.
 */
module Store {
  import opened Wrappers
  import opened Seqs
  import opened Models

  datatype Db = Db(
    users: seq<User>,
    books: map<int, Book>,
    records: seq<BorrowRecord>,
    nextUserId: int,
    nextBookId: int,
    nextRecordId: int)

  /** A database with no rows; every id sequence starts at 1. */
  const EmptyDb := Db([], map[], [], 1, 1, 1)

  // ---------------------------------------------------------------------
  // Lookups

  /** `User.objects.get(id=...)`: the position of the user with that id. */
  function UserById(users: seq<User>, id: int): (r: Option<nat>)
    ensures r.Some? ==> r.value < |users| && users[r.value].id == id
    ensures r.None? ==> forall i :: 0 <= i < |users| ==> users[i].id != id
  {
    IndexWhere(users, (u: User) => u.id == id)
  }

  /** `User.objects.get(username=...)`: the position of the user with that name. */
  function UserByName(users: seq<User>, name: string): (r: Option<nat>)
    ensures r.Some? ==> r.value < |users| && users[r.value].username == name
    ensures r.None? ==> forall i :: 0 <= i < |users| ==> users[i].username != name
  {
    IndexWhere(users, (u: User) => u.username == name)
  }

  /** `BorrowRecord.objects.get(id=...)`: the position of the record with that id. */
  function RecordById(records: seq<BorrowRecord>, id: int): (r: Option<nat>)
    ensures r.Some? ==> r.value < |records| && records[r.value].id == id
    ensures r.None? ==> forall i :: 0 <= i < |records| ==> records[i].id != id
  {
    IndexWhere(records, (rec: BorrowRecord) => rec.id == id)
  }

  /** Is there an unreturned record of this book? */
  predicate HasOpenLoan(records: seq<BorrowRecord>, bookId: int)
  {
    exists i :: 0 <= i < |records| && records[i].bookId == bookId && !records[i].returned
  }

  /** `BorrowRecord.objects.filter(user=..., book=..., returned=False).exists()` */
  predicate HasOpenLoanBy(records: seq<BorrowRecord>, userId: int, bookId: int)
  {
    exists i :: 0 <= i < |records| && records[i].userId == userId &&
                records[i].bookId == bookId && !records[i].returned
  }

  // ---------------------------------------------------------------------
  // The integrity invariant

  /** Every id lies in its sequence's issued range; user and record ids ascend. */
  ghost predicate IdsIssued(db: Db)
  {
    && 1 <= db.nextUserId && 1 <= db.nextBookId && 1 <= db.nextRecordId
    && (forall i :: 0 <= i < |db.users| ==> 1 <= db.users[i].id < db.nextUserId)
    && (forall i, j :: 0 <= i < j < |db.users| ==> db.users[i].id < db.users[j].id)
    && (forall b :: b in db.books ==> 1 <= b < db.nextBookId)
    && (forall i :: 0 <= i < |db.records| ==> 1 <= db.records[i].id < db.nextRecordId)
    && (forall i, j :: 0 <= i < j < |db.records| ==> db.records[i].id < db.records[j].id)
  }

  /** The username column is unique. */
  ghost predicate UniqueUsernames(users: seq<User>)
  {
    forall i, j :: 0 <= i < |users| && 0 <= j < |users| && users[i].username == users[j].username ==> i == j
  }

  /** Every record's book exists (deleting a book deletes its records). */
  ghost predicate RecordsReferToBooks(records: seq<BorrowRecord>, books: map<int, Book>)
  {
    forall i :: 0 <= i < |records| ==> records[i].bookId in books
  }

  /** The ids of the user table. */
  ghost function UserIds(users: seq<User>): set<int>
  {
    set u | u in users :: u.id
  }

  /** Every record's user exists. */
  ghost predicate RecordsReferToUsers(records: seq<BorrowRecord>, users: seq<User>)
  {
    forall i :: 0 <= i < |records| ==> records[i].userId in UserIds(users)
  }

  /** A book is marked borrowed exactly when it has an unreturned record. */
  ghost predicate BorrowedFlagMatchesLoans(books: map<int, Book>, records: seq<BorrowRecord>)
  {
    forall b :: b in books ==> (books[b].isBorrowed <==> HasOpenLoan(records, b))
  }

  /** No book has two unreturned records. */
  ghost predicate AtMostOneOpenLoan(records: seq<BorrowRecord>)
  {
    forall i, j ::
      (0 <= i < |records| && 0 <= j < |records| &&
       records[i].bookId == records[j].bookId &&
       !records[i].returned && !records[j].returned) ==> i == j
  }

  /** Every book's text fields fit their columns. */
  ghost predicate BooksFitColumns(books: map<int, Book>)
  {
    forall b :: b in books ==> FitsColumns(books[b].title, books[b].author, books[b].isbn)
  }

  ghost predicate Consistent(db: Db)
  {
    && IdsIssued(db)
    && UniqueUsernames(db.users)
    && RecordsReferToBooks(db.records, db.books)
    && RecordsReferToUsers(db.records, db.users)
    && BorrowedFlagMatchesLoans(db.books, db.records)
    && AtMostOneOpenLoan(db.records)
    && BooksFitColumns(db.books)
  }

  lemma EmptyDbIsConsistent()
    ensures Consistent(EmptyDb)
  {
  }

  // ---------------------------------------------------------------------
  // Row-level changes

  /** `User.objects.create(...)`: a new user under the next user id; the other tables stay. */
  function AddUser(db: Db, username: string, password: PasswordHash): (r: Db)
    ensures |r.users| == |db.users| + 1 && r.users[..|db.users|] == db.users
    ensures r.users[|db.users|] == User(db.nextUserId, username, password) && r.nextUserId == db.nextUserId + 1
    ensures r.books == db.books && r.records == db.records
    ensures r.nextBookId == db.nextBookId && r.nextRecordId == db.nextRecordId
  {
    db.(users := db.users + [User(db.nextUserId, username, password)],
        nextUserId := db.nextUserId + 1)
  }

  /** `Book.objects.create(...)`: a new, available book under the next book id; the other tables stay. */
  function AddBook(db: Db, title: string, author: string, isbn: string): (r: Db)
    ensures r.books.Keys == db.books.Keys + {db.nextBookId} && r.nextBookId == db.nextBookId + 1
    ensures r.books[db.nextBookId] == NewBook(title, author, isbn)
    ensures forall b :: b in db.books && b != db.nextBookId ==> r.books[b] == db.books[b]
    ensures r.users == db.users && r.records == db.records
    ensures r.nextUserId == db.nextUserId && r.nextRecordId == db.nextRecordId
  {
    db.(books := db.books[db.nextBookId := NewBook(title, author, isbn)],
        nextBookId := db.nextBookId + 1)
  }

  /** A new record for (user, book) under the next record id, and the book marked borrowed. */
  function OpenLoan(db: Db, userId: int, bookId: int, today: Day, due: Day): (r: Db)
    requires bookId in db.books
    ensures |r.records| == |db.records| + 1 && r.records[..|db.records|] == db.records
    ensures r.records[|db.records|] == NewRecord(db.nextRecordId, userId, bookId, today, due)
    ensures r.nextRecordId == db.nextRecordId + 1
    ensures r.books.Keys == db.books.Keys && r.books[bookId].isBorrowed
    ensures r.books[bookId] == db.books[bookId].(isBorrowed := true)
    ensures forall b :: b in db.books && b != bookId ==> r.books[b] == db.books[b]
    ensures r.users == db.users && r.nextUserId == db.nextUserId && r.nextBookId == db.nextBookId
  {
    db.(records := db.records + [NewRecord(db.nextRecordId, userId, bookId, today, due)],
        books := db.books[bookId := db.books[bookId].(isBorrowed := true)],
        nextRecordId := db.nextRecordId + 1)
  }

  /** The record at position `i` marked returned (with `returnDate` stored) and its book marked available. */
  function CloseLoan(db: Db, i: nat, returnDate: Option<Day>): (r: Db)
    requires i < |db.records| && db.records[i].bookId in db.books
    ensures |r.records| == |db.records| && r.records[i].returned && r.records[i].returnDate == returnDate
    ensures r.records[i].id == db.records[i].id && r.records[i].userId == db.records[i].userId
    ensures r.records[i].bookId == db.records[i].bookId && r.records[i].dueDate == db.records[i].dueDate
    ensures r.records[i] == db.records[i].(returned := true, returnDate := returnDate)
    ensures forall k :: 0 <= k < |db.records| && k != i ==> r.records[k] == db.records[k]
    ensures r.books.Keys == db.books.Keys && !r.books[db.records[i].bookId].isBorrowed
    ensures r.books[db.records[i].bookId] == db.books[db.records[i].bookId].(isBorrowed := false)
    ensures forall b :: b in db.books && b != db.records[i].bookId ==> r.books[b] == db.books[b]
    ensures r.users == db.users
    ensures r.nextUserId == db.nextUserId && r.nextBookId == db.nextBookId && r.nextRecordId == db.nextRecordId
  {
    var r := db.records[i];
    db.(records := db.records[i := r.(returned := true, returnDate := returnDate)],
        books := db.books[r.bookId := db.books[r.bookId].(isBorrowed := false)])
  }

  /** The records of every book but one, in their order. */
  function RecordsWithout(records: seq<BorrowRecord>, bookId: int): seq<BorrowRecord>
  {
    Filter(records, (r: BorrowRecord) => r.bookId != bookId)
  }

  /** The records of every other book are kept. */
  lemma RecordsWithoutKeepsOthers(records: seq<BorrowRecord>, bookId: int, j: nat)
    requires j < |records| && records[j].bookId != bookId
    ensures records[j] in RecordsWithout(records, bookId)
  {
    FilterKeepsMatches(records, (r: BorrowRecord) => r.bookId != bookId, j);
  }

  /** `book.delete()`: the book goes, and with it (on-delete cascade) every record of it. */
  function RemoveBook(db: Db, bookId: int): (r: Db)
    ensures r.books.Keys == db.books.Keys - {bookId}
    ensures forall b :: b in r.books ==> r.books[b] == db.books[b]
    ensures forall k :: 0 <= k < |r.records| ==> r.records[k] in db.records && r.records[k].bookId != bookId
    ensures r.users == db.users
    ensures r.nextUserId == db.nextUserId && r.nextBookId == db.nextBookId && r.nextRecordId == db.nextRecordId
  {
    db.(books := db.books - {bookId},
        records := RecordsWithout(db.records, bookId))
  }

  // ---------------------------------------------------------------------
  // Every change keeps the invariant under the guard its view checks

  lemma AddUserKeepsConsistent(db: Db, username: string, password: PasswordHash)
    requires Consistent(db)
    requires UserByName(db.users, username).None?
    ensures Consistent(AddUser(db, username, password))
  {
    var db' := AddUser(db, username, password);
    assert UserIds(db.users) <= UserIds(db'.users);
  }

  lemma AddBookKeepsConsistent(db: Db, title: string, author: string, isbn: string)
    requires Consistent(db)
    requires FitsColumns(title, author, isbn)
    ensures Consistent(AddBook(db, title, author, isbn))
  {
    var db' := AddBook(db, title, author, isbn);
    var b := db.nextBookId;
    assert !HasOpenLoan(db.records, b) by {
      forall i | 0 <= i < |db.records| ensures db.records[i].bookId != b {
        assert db.records[i].bookId in db.books;
      }
    }
  }

  lemma OpenLoanKeepsConsistent(db: Db, userId: int, bookId: int, today: Day, due: Day)
    requires Consistent(db)
    requires UserById(db.users, userId).Some?
    requires bookId in db.books && !db.books[bookId].isBorrowed
    ensures Consistent(OpenLoan(db, userId, bookId, today, due))
  {
    var db' := OpenLoan(db, userId, bookId, today, due);
    var rec := NewRecord(db.nextRecordId, userId, bookId, today, due);
    assert db'.records == db.records + [rec];
    assert db.users[UserById(db.users, userId).value] in db.users;
    AppendKeepsReferences(db.records, rec, db.books, db'.books, db.users);
    AppendOpenKeepsFlags(db.books, db.records, rec);
    AppendOpenKeepsOneOpenLoan(db.records, rec);
    AppendKeepsIdOrder(db.records, rec, db.nextRecordId);
  }

  /** Appending a record whose book and user exist keeps every reference valid. */
  lemma AppendKeepsReferences(records: seq<BorrowRecord>, rec: BorrowRecord,
                              books: map<int, Book>, books': map<int, Book>, users: seq<User>)
    requires RecordsReferToBooks(records, books) && RecordsReferToUsers(records, users)
    requires books'.Keys == books.Keys && rec.bookId in books && rec.userId in UserIds(users)
    ensures RecordsReferToBooks(records + [rec], books') && RecordsReferToUsers(records + [rec], users)
  {
    forall k | 0 <= k < |records| + 1
      ensures (records + [rec])[k].bookId in books'
      ensures (records + [rec])[k].userId in UserIds(users)
    {
      if k < |records| {
        assert (records + [rec])[k] == records[k];
      }
    }
  }

  /** Appending the next record id keeps record ids ascending and issued. */
  lemma AppendKeepsIdOrder(records: seq<BorrowRecord>, rec: BorrowRecord, next: int)
    requires forall i :: 0 <= i < |records| ==> 1 <= records[i].id < next
    requires forall i, j :: 0 <= i < j < |records| ==> records[i].id < records[j].id
    requires rec.id == next && 1 <= next
    ensures forall i :: 0 <= i < |records + [rec]| ==> 1 <= (records + [rec])[i].id < next + 1
    ensures forall i, j :: 0 <= i < j < |records + [rec]| ==> (records + [rec])[i].id < (records + [rec])[j].id
  {
    var r := records + [rec];
    assert forall k :: 0 <= k < |records| ==> r[k] == records[k];
  }

  /** Opening a loan of an available book marks exactly that book borrowed. */
  lemma AppendOpenKeepsFlags(books: map<int, Book>, records: seq<BorrowRecord>, rec: BorrowRecord)
    requires BorrowedFlagMatchesLoans(books, records)
    requires rec.bookId in books && !books[rec.bookId].isBorrowed && !rec.returned
    ensures BorrowedFlagMatchesLoans(books[rec.bookId := books[rec.bookId].(isBorrowed := true)], records + [rec])
  {
    var books' := books[rec.bookId := books[rec.bookId].(isBorrowed := true)];
    var r := records + [rec];
    assert r[|records|] == rec;
    forall b | b in books'
      ensures books'[b].isBorrowed <==> HasOpenLoan(r, b)
    {
      if b != rec.bookId {
        if HasOpenLoan(records, b) {
          var i :| 0 <= i < |records| && records[i].bookId == b && !records[i].returned;
          assert r[i] == records[i];
        }
        if HasOpenLoan(r, b) {
          var i :| 0 <= i < |r| && r[i].bookId == b && !r[i].returned;
          assert r[i] == records[i];
        }
      }
    }
  }

  /** Appending an open record of a book with no open record keeps loans unique. */
  lemma AppendOpenKeepsOneOpenLoan(records: seq<BorrowRecord>, rec: BorrowRecord)
    requires AtMostOneOpenLoan(records) && !HasOpenLoan(records, rec.bookId)
    ensures AtMostOneOpenLoan(records + [rec])
  {
    var r := records + [rec];
    forall i, j | 0 <= i < |r| && 0 <= j < |r| && r[i].bookId == r[j].bookId && !r[i].returned && !r[j].returned
      ensures i == j
    {
      if i < |records| {
        assert r[i] == records[i];
      }
      if j < |records| {
        assert r[j] == records[j];
      }
    }
  }

  lemma CloseLoanKeepsConsistent(db: Db, i: nat, returnDate: Option<Day>)
    requires Consistent(db)
    requires i < |db.records| && !db.records[i].returned
    ensures Consistent(CloseLoan(db, i, returnDate))
  {
    var db' := CloseLoan(db, i, returnDate);
    assert forall k :: 0 <= k < |db.records| ==>
      db'.records[k].id == db.records[k].id && db'.records[k].bookId == db.records[k].bookId &&
      db'.records[k].userId == db.records[k].userId;
    CloseKeepsFlags(db.books, db.records, i, returnDate);
    CloseKeepsOneOpenLoan(db.records, i, returnDate);
  }

  /** Closing the only open record of a book and marking the book available keeps the flags right. */
  lemma CloseKeepsFlags(books: map<int, Book>, records: seq<BorrowRecord>, i: nat, returnDate: Option<Day>)
    requires BorrowedFlagMatchesLoans(books, records) && AtMostOneOpenLoan(records)
    requires i < |records| && !records[i].returned && records[i].bookId in books
    ensures var book := records[i].bookId;
            BorrowedFlagMatchesLoans(books[book := books[book].(isBorrowed := false)],
                                     records[i := records[i].(returned := true, returnDate := returnDate)])
  {
    var book := records[i].bookId;
    var books' := books[book := books[book].(isBorrowed := false)];
    var records' := records[i := records[i].(returned := true, returnDate := returnDate)];
    forall k | 0 <= k < |records'| && records'[k].bookId == book
      ensures records'[k].returned
    {
      if k != i {
        assert records'[k] == records[k];
      }
    }
    forall b | b in books' && b != book
      ensures books'[b].isBorrowed <==> HasOpenLoan(records', b)
    {
      if HasOpenLoan(records, b) {
        var k :| 0 <= k < |records| && records[k].bookId == b && !records[k].returned;
        assert records'[k] == records[k];
      }
      if HasOpenLoan(records', b) {
        var k :| 0 <= k < |records'| && records'[k].bookId == b && !records'[k].returned;
        assert records'[k] == records[k];
      }
    }
  }

  /** Closing a record opens none. */
  lemma CloseKeepsOneOpenLoan(records: seq<BorrowRecord>, i: nat, returnDate: Option<Day>)
    requires AtMostOneOpenLoan(records) && i < |records|
    ensures AtMostOneOpenLoan(records[i := records[i].(returned := true, returnDate := returnDate)])
  {
    var records' := records[i := records[i].(returned := true, returnDate := returnDate)];
    assert forall k :: 0 <= k < |records| && !records'[k].returned ==> records'[k] == records[k];
  }

  lemma RemoveBookKeepsConsistent(db: Db, bookId: int)
    requires Consistent(db)
    ensures Consistent(RemoveBook(db, bookId))
  {
    var rest := RecordsWithout(db.records, bookId);
    RemoveKeepsIdOrder(db.records, bookId);
    RemoveKeepsLoanFlags(db.books, db.records, bookId);
    RemoveKeepsOneOpenLoan(db.records, (r: BorrowRecord) => r.bookId != bookId);
    RemoveKeepsReferences(db.records, bookId, db.books, db.users, db.nextRecordId);
    assert RemoveBook(db, bookId).records == rest;
  }

  /** The records left after a cascade delete still refer to existing books and users, under issued ids. */
  lemma RemoveKeepsReferences(records: seq<BorrowRecord>, bookId: int, books: map<int, Book>, users: seq<User>, next: int)
    requires RecordsReferToBooks(records, books) && RecordsReferToUsers(records, users)
    requires forall i :: 0 <= i < |records| ==> 1 <= records[i].id < next
    ensures var r := RecordsWithout(records, bookId);
            RecordsReferToBooks(r, books - {bookId}) && RecordsReferToUsers(r, users) &&
            forall i :: 0 <= i < |r| ==> 1 <= r[i].id < next
  {
    var r := RecordsWithout(records, bookId);
    forall k | 0 <= k < |r|
      ensures r[k].bookId in books - {bookId} && r[k].userId in UserIds(users) && 1 <= r[k].id < next
    {
      var k' :| 0 <= k' < |records| && records[k'] == r[k];
    }
  }

  lemma RemoveKeepsLoanFlags(books: map<int, Book>, records: seq<BorrowRecord>, bookId: int)
    requires BorrowedFlagMatchesLoans(books, records)
    ensures BorrowedFlagMatchesLoans(books - {bookId}, RecordsWithout(records, bookId))
  {
    var books' := books - {bookId};
    var records' := RecordsWithout(records, bookId);
    forall b | b in books'
      ensures books'[b].isBorrowed <==> HasOpenLoan(records', b)
    {
      if HasOpenLoan(records, b) {
        var k :| 0 <= k < |records| && records[k].bookId == b && !records[k].returned;
        RecordsWithoutKeepsOthers(records, bookId, k);
        var k' :| 0 <= k' < |records'| && records'[k'] == records[k];
      }
      if HasOpenLoan(records', b) {
        var k :| 0 <= k < |records'| && records'[k].bookId == b && !records'[k].returned;
        var k' :| 0 <= k' < |records| && records[k'] == records'[k];
      }
    }
  }

  /** Filtering records cannot create a second open loan of a book. */
  lemma {:induction false} RemoveKeepsOneOpenLoan(records: seq<BorrowRecord>, keep: BorrowRecord -> bool)
    requires AtMostOneOpenLoan(records)
    ensures AtMostOneOpenLoan(Filter(records, keep))
  {
    if records != [] {
      var tail := records[1..];
      assert AtMostOneOpenLoan(tail) by {
        forall i, j | 0 <= i < |tail| && 0 <= j < |tail| &&
                      tail[i].bookId == tail[j].bookId && !tail[i].returned && !tail[j].returned
          ensures i == j
        {
          assert tail[i] == records[i + 1] && tail[j] == records[j + 1];
        }
      }
      RemoveKeepsOneOpenLoan(tail, keep);
      var ft := Filter(tail, keep);
      if !records[0].returned {
        forall k | 0 <= k < |ft| && ft[k].bookId == records[0].bookId
          ensures ft[k].returned
        {
          var x := ft[k];
          assert x in tail;
          var k' :| 0 <= k' < |tail| && tail[k'] == x;
          assert records[k' + 1] == x;
        }
      }
      var r := Filter(records, keep);
      assert r == (if keep(records[0]) then [records[0]] else []) + ft;
    }
  }

  /** Deleting a book's records keeps record ids ascending. */
  lemma RemoveKeepsIdOrder(records: seq<BorrowRecord>, bookId: int)
    requires forall i, j :: 0 <= i < j < |records| ==> records[i].id < records[j].id
    ensures var r := RecordsWithout(records, bookId);
            forall i, j :: 0 <= i < j < |r| ==> r[i].id < r[j].id
  {
    var key := (r: BorrowRecord) => r.id;
    FilterKeepsAscending(records, (r: BorrowRecord) => r.bookId != bookId, key);
  }

  // ---------------------------------------------------------------------
  // What the invariant gives

  /** The number of unreturned records of a book. */
  function OpenLoanCount(records: seq<BorrowRecord>, bookId: int): nat
  {
    if records == [] then 0
    else (if records[0].bookId == bookId && !records[0].returned then 1 else 0)
         + OpenLoanCount(records[1..], bookId)
  }

  lemma {:induction false} OpenLoanCountPositive(records: seq<BorrowRecord>, bookId: int)
    ensures OpenLoanCount(records, bookId) > 0 <==> HasOpenLoan(records, bookId)
  {
    if records != [] {
      OpenLoanCountPositive(records[1..], bookId);
      if HasOpenLoan(records[1..], bookId) {
        var k :| 0 <= k < |records[1..]| && records[1..][k].bookId == bookId && !records[1..][k].returned;
        assert records[k + 1] == records[1..][k];
      }
      if HasOpenLoan(records, bookId) && !(records[0].bookId == bookId && !records[0].returned) {
        var k :| 0 <= k < |records| && records[k].bookId == bookId && !records[k].returned;
        assert records[1..][k - 1] == records[k];
      }
    }
  }

  lemma {:induction false} OpenLoanCountAtMostOne(records: seq<BorrowRecord>, bookId: int)
    requires AtMostOneOpenLoan(records)
    ensures OpenLoanCount(records, bookId) <= 1
  {
    if records != [] {
      var tail := records[1..];
      assert AtMostOneOpenLoan(tail) by {
        forall i, j | 0 <= i < |tail| && 0 <= j < |tail| &&
                      tail[i].bookId == tail[j].bookId && !tail[i].returned && !tail[j].returned
          ensures i == j
        {
          assert tail[i] == records[i + 1] && tail[j] == records[j + 1];
        }
      }
      OpenLoanCountAtMostOne(tail, bookId);
      if records[0].bookId == bookId && !records[0].returned {
        forall k | 0 <= k < |tail| && tail[k].bookId == bookId
          ensures tail[k].returned
        {
          assert tail[k] == records[k + 1];
        }
        OpenLoanCountPositive(tail, bookId);
      }
    }
  }

  /** In a consistent store a book is marked borrowed exactly when it has one unreturned record, and never more. */
  lemma BorrowedIffExactlyOneOpenLoan(db: Db, bookId: int)
    requires Consistent(db) && bookId in db.books
    ensures db.books[bookId].isBorrowed <==> OpenLoanCount(db.records, bookId) == 1
    ensures OpenLoanCount(db.records, bookId) <= 1
  {
    OpenLoanCountPositive(db.records, bookId);
    OpenLoanCountAtMostOne(db.records, bookId);
  }

  // ---------------------------------------------------------------------
  // The user's listing

  /** All records of a user, in id order (`filter(user=...)`). */
  function LoansOf(records: seq<BorrowRecord>, userId: int): (r: seq<BorrowRecord>)
    ensures forall i :: 0 <= i < |r| ==> r[i] in records && r[i].userId == userId
  {
    Filter(records, (rec: BorrowRecord) => rec.userId == userId)
  }

  /** No record of the user is missing from `LoansOf`. */
  lemma LoansOfIsComplete(records: seq<BorrowRecord>, userId: int, j: nat)
    requires j < |records| && records[j].userId == userId
    ensures records[j] in LoansOf(records, userId)
  {
    FilterKeepsMatches(records, (rec: BorrowRecord) => rec.userId == userId, j);
  }

  /** The user's unreturned records, in id order (`filter(user=..., returned=False)`). */
  function OpenLoansOf(records: seq<BorrowRecord>, userId: int): (r: seq<BorrowRecord>)
    ensures forall i :: 0 <= i < |r| ==> r[i] in records && r[i].userId == userId && !r[i].returned
  {
    Filter(records, (rec: BorrowRecord) => rec.userId == userId && !rec.returned)
  }

  /** No unreturned record of the user is missing from `OpenLoansOf`. */
  lemma OpenLoansOfIsComplete(records: seq<BorrowRecord>, userId: int, j: nat)
    requires j < |records| && records[j].userId == userId && !records[j].returned
    ensures records[j] in OpenLoansOf(records, userId)
  {
    FilterKeepsMatches(records, (rec: BorrowRecord) => rec.userId == userId && !rec.returned, j);
  }

  /**
   * The two queries of the user's home page, as one scan over the record
   * table: all the user's records and the unreturned ones, each in id order.
   */
  method ScanLoans(records: seq<BorrowRecord>, userId: int) returns (mine: seq<BorrowRecord>, open: seq<BorrowRecord>)
    ensures mine == LoansOf(records, userId)
    ensures open == OpenLoansOf(records, userId)
  {
    mine, open := [], [];
    for k := 0 to |records|
      invariant mine == LoansOf(records[..k], userId)
      invariant open == OpenLoansOf(records[..k], userId)
    {
      var rec := records[k];
      assert records[..k + 1] == records[..k] + [rec];
      FilterOneMore(records[..k], rec, (r: BorrowRecord) => r.userId == userId);
      FilterOneMore(records[..k], rec, (r: BorrowRecord) => r.userId == userId && !r.returned);
      if rec.userId == userId {
        mine := mine + [rec];
        if !rec.returned {
          open := open + [rec];
        }
      }
    }
    assert records[..|records|] == records;
  }

  ghost predicate NewestFirst(rs: seq<BorrowRecord>)
  {
    forall i, j :: 0 <= i < j < |rs| ==> rs[i].borrowDate >= rs[j].borrowDate
  }

  /** The newest borrow date among `r` and the records of a newest-first list: the head of the insertion. */
  function NewestDate(r: BorrowRecord, sorted: seq<BorrowRecord>): Day
  {
    if sorted == [] || r.borrowDate >= sorted[0].borrowDate then r.borrowDate else sorted[0].borrowDate
  }

  /** Insert a record into a newest-first list, before the first record not newer than it. */
  function InsertNewestFirst(r: BorrowRecord, sorted: seq<BorrowRecord>): (out: seq<BorrowRecord>)
    requires NewestFirst(sorted)
    ensures NewestFirst(out)
    ensures multiset(out) == multiset(sorted) + multiset{r}
    ensures |out| == |sorted| + 1 && out[0].borrowDate == NewestDate(r, sorted)
  {
    if sorted == [] || r.borrowDate >= sorted[0].borrowDate then
      PrependNewest(r, sorted);
      [r] + sorted
    else
      assert NewestFirst(sorted[1..]);
      var rest := InsertNewestFirst(r, sorted[1..]);
      assert sorted == [sorted[0]] + sorted[1..];
      PrependNewest(sorted[0], rest);
      [sorted[0]] + rest
  }

  /** A record no older than the head of a newest-first list may go in front of it. */
  lemma PrependNewest(x: BorrowRecord, rs: seq<BorrowRecord>)
    requires NewestFirst(rs)
    requires rs != [] ==> rs[0].borrowDate <= x.borrowDate
    ensures NewestFirst([x] + rs)
  {
    var out := [x] + rs;
    forall i, j | 0 <= i < j < |out| ensures out[i].borrowDate >= out[j].borrowDate {
      if i == 0 {
        assert out[j] == rs[j - 1];
        assert rs[0].borrowDate >= rs[j - 1].borrowDate;
      } else {
        assert out[i] == rs[i - 1] && out[j] == rs[j - 1];
      }
    }
  }

  /** `order_by('-borrow_date')`: records newest first; records of the same day keep id order. */
  function SortNewestFirst(rs: seq<BorrowRecord>): (out: seq<BorrowRecord>)
    ensures NewestFirst(out)
    ensures multiset(out) == multiset(rs)
  {
    if rs == [] then []
    else
      assert rs == [rs[0]] + rs[1..];
      InsertNewestFirst(rs[0], SortNewestFirst(rs[1..]))
  }

  /** Sorting the user's records loses none of them. */
  lemma SortedLoansAreComplete(records: seq<BorrowRecord>, userId: int, j: nat)
    requires j < |records| && records[j].userId == userId
    ensures records[j] in SortNewestFirst(LoansOf(records, userId))
  {
    LoansOfIsComplete(records, userId, j);
    assert records[j] in multiset(LoansOf(records, userId));
  }

  /** Sorting the user's records brings in no other record. */
  lemma SortedLoansAreTheUsers(records: seq<BorrowRecord>, userId: int, all: seq<BorrowRecord>)
    requires all == SortNewestFirst(LoansOf(records, userId))
    ensures forall k :: 0 <= k < |all| ==> all[k] in records && all[k].userId == userId
  {
    var loans := LoansOf(records, userId);
    forall k | 0 <= k < |all| ensures all[k] in records && all[k].userId == userId {
      assert all[k] in multiset(loans);
    }
  }
}
