/** The library service over its store: adding books, borrowing and
    returning, and the status report. The store's fields are the catalogue
    (in insertion order), the borrow records and the next book id; whether
    each database write succeeds is an input. */
module Library {
  import opened Wrappers
  import opened Text
  import opened Validation
  import opened Store
  import opened Fees
  import opened Reports

  /** Copies a return is meant to put back on the shelf. */
  const RETURN_RESTORE := 1
  /** Copies `return_book_by_patron` puts back as written. */
  const AS_WRITTEN_RETURN_RESTORE := 4

  datatype AddResult = BookAdded(id: int, title: string) | AddFailed(error: AddError)

  datatype LoanError =
    | InvalidPatronId
    | BookNotFound
    | NotAvailable
    | LimitReached
    | NotBorrowedByPatron
    | RecordWriteFailed
    | AvailabilityWriteFailed
    | ReturnWriteFailed

  datatype BorrowResult = Borrowed(title: string, dueDate: int) | BorrowFailed(error: LoanError)

  datatype ReturnResult = Returned(title: string) | ReturnFailed(error: LoanError)

  /** The checks of `borrow_book_by_patron` before anything is written, in
      order. A patron holding five books may still borrow; six is refused. */
  function BorrowCheck(patron: string, book: Option<Book>, count: nat): (e: Option<LoanError>)
    ensures e.None? <==>
      PatronIdOk(patron) && book.Some? && book.value.availableCopies > 0 && count <= BORROW_LIMIT
    ensures !PatronIdOk(patron) ==> e == Some(InvalidPatronId)
    ensures PatronIdOk(patron) && book.None? ==> e == Some(BookNotFound)
    ensures PatronIdOk(patron) && book.Some? && book.value.availableCopies <= 0 ==> e == Some(NotAvailable)
    ensures PatronIdOk(patron) && book.Some? && book.value.availableCopies > 0 && count > BORROW_LIMIT
            ==> e == Some(LimitReached)
  {
    if !PatronIdOk(patron) then Some(InvalidPatronId)
    else if book.None? then Some(BookNotFound)
    else if book.value.availableCopies <= 0 then Some(NotAvailable)
    else if count > BORROW_LIMIT then Some(LimitReached)
    else None
  }

  /** The checks of `return_book_by_patron` before anything is written, in
      order: the patron must hold an outstanding loan of the book. */
  function ReturnCheck(patron: string, bookId: int, book: Option<Book>, borrows: seq<BorrowRecord>)
    : (e: Option<LoanError>)
    ensures e.None? <==>
      PatronIdOk(patron) && book.Some? && exists b :: b in borrows && b.bookId == bookId
    ensures !PatronIdOk(patron) ==> e == Some(InvalidPatronId)
    ensures PatronIdOk(patron) && book.None? ==> e == Some(BookNotFound)
    ensures PatronIdOk(patron) && book.Some? && (forall b | b in borrows :: b.bookId != bookId)
            ==> e == Some(NotBorrowedByPatron)
  {
    if !PatronIdOk(patron) then Some(InvalidPatronId)
    else if book.None? then Some(BookNotFound)
    else if FindLoan(borrows, bookId).None? then Some(NotBorrowedByPatron)
    else None
  }

  /** The boundary of the borrowing limit, as the source's tests pin it. */
  lemma BorrowLimitBoundary(patron: string, book: Book)
    requires PatronIdOk(patron) && book.availableCopies > 0
    ensures BorrowCheck(patron, Some(book), 5).None?
    ensures BorrowCheck(patron, Some(book), 6) == Some(LimitReached)
  {
  }

  /** `add_book_to_catalog` followed by `get_book_by_isbn` and
      `get_book_by_id`: a book appended under a fresh id and a new ISBN is
      what both lookups then find. */
  lemma {:induction false} AppendedBookIsFound(books: seq<Book>, b: Book)
    requires FindByIsbn(books, b.isbn).None?
    requires forall i | 0 <= i < |books| :: books[i].id != b.id
    ensures FindByIsbn(books + [b], b.isbn) == Some(b)
    ensures FindBook(books + [b], b.id) == Some(b)
  {
    if books != [] {
      assert (books + [b])[1..] == books[1..] + [b];
      AppendedBookIsFound(books[1..], b);
    }
  }

  /** What inserting a book under a fresh id and a new ISBN establishes. */
  lemma AddedBookFacts(books: seq<Book>, records: seq<BorrowRecord>, added: Book)
    requires forall i | 0 <= i < |books| :: books[i].id < added.id
    requires forall k | 0 <= k < |records| :: records[k].bookId < added.id
    requires FindByIsbn(books, added.isbn).None?
    requires 0 <= added.availableCopies == added.totalCopies
    ensures FindByIsbn(books + [added], added.isbn) == Some(added)
    ensures FindBook(books + [added], added.id) == Some(added)
    ensures UniqueIds(books) ==> UniqueIds(books + [added])
    ensures forall i | 0 <= i < |books + [added]| :: (books + [added])[i].id <= added.id
    ensures Conserved(books, records) ==> Conserved(books + [added], records)
  {
    AppendedBookIsFound(books, added);
    if Conserved(books, records) {
      AddKeepsConserved(books, records, added);
    }
  }

  class LibraryService {
    var books: seq<Book>
    var records: seq<BorrowRecord>
    var nextId: int

    /** Book ids are distinct and below `nextId`, and every record names a
        book id below `nextId`. */
    ghost predicate Valid()
      reads this
    {
      && UniqueIds(books)
      && (forall i | 0 <= i < |books| :: books[i].id < nextId)
      && (forall k | 0 <= k < |records| :: records[k].bookId < nextId)
    }

    constructor ()
      ensures Valid() && books == [] && records == [] && nextId == 1
    {
      books, records, nextId := [], [], 1;
    }

    /** `add_book_to_catalog(title, author, isbn, copies)`; `insertOk` is
        what the database answers to the insert. */
    method AddBook(title: string, author: string, isbn: string, copies: int, insertOk: bool)
      returns (r: AddResult)
      requires Valid()
      modifies this
      ensures Valid() && records == old(records)
      ensures CheckBookFields(title, author, isbn, copies).Some? ==>
        && r == AddFailed(CheckBookFields(title, author, isbn, copies).value)
        && books == old(books) && nextId == old(nextId)
      ensures CheckBookFields(title, author, isbn, copies).None? ==>
        && (FindByIsbn(old(books), isbn).Some? ==>
              r == AddFailed(DuplicateIsbn) && books == old(books) && nextId == old(nextId))
        && (FindByIsbn(old(books), isbn).None? ==>
              if insertOk then
                var added := Book(old(nextId), Strip(title), Strip(author), isbn, copies, copies);
                && r == BookAdded(old(nextId), Strip(title))
                && books == old(books) + [added] && nextId == old(nextId) + 1
                && FindByIsbn(books, isbn) == Some(added) && FindBook(books, r.id) == Some(added)
              else
                r == AddFailed(DatabaseError) && books == old(books) && nextId == old(nextId))
      ensures r.BookAdded? && old(Conserved(books, records)) ==> Conserved(books, records)
    {
      var fieldError := CheckBookFields(title, author, isbn, copies);
      if fieldError.Some? {
        r := AddFailed(fieldError.value);
      } else {
        r := InsertBook(Strip(title), Strip(author), isbn, copies, insertOk);
      }
    }

    /** The store half of `add_book_to_catalog`, once the fields have
        passed: the duplicate-ISBN check and the insert of the stripped
        title and author under the next id, all copies on the shelf. */
    method InsertBook(title: string, author: string, isbn: string, copies: int, insertOk: bool)
      returns (r: AddResult)
      requires Valid() && copies > 0
      modifies this
      ensures Valid() && records == old(records)
      ensures FindByIsbn(old(books), isbn).Some? ==>
        r == AddFailed(DuplicateIsbn) && books == old(books) && nextId == old(nextId)
      ensures FindByIsbn(old(books), isbn).None? ==>
        if insertOk then
          var added := Book(old(nextId), title, author, isbn, copies, copies);
          && r == BookAdded(old(nextId), title)
          && books == old(books) + [added] && nextId == old(nextId) + 1
          && FindByIsbn(books, isbn) == Some(added) && FindBook(books, r.id) == Some(added)
        else
          r == AddFailed(DatabaseError) && books == old(books) && nextId == old(nextId)
      ensures r.BookAdded? && old(Conserved(books, records)) ==> Conserved(books, records)
    {
      if FindByIsbn(books, isbn).Some? {
        r := AddFailed(DuplicateIsbn);
      } else if !insertOk {
        r := AddFailed(DatabaseError);
      } else {
        var added := Book(nextId, title, author, isbn, copies, copies);
        AddedBookFacts(books, records, added);
        books := books + [added];
        nextId := nextId + 1;
        r := BookAdded(added.id, added.title);
      }
    }

    /** `borrow_book_by_patron(patron, bookId)` at time `now`.
        `recordWriteOk` and `availabilityWriteOk` are the database's answers
        to the two writes; a failed second write leaves the new record in
        place. */
    method BorrowBook(patron: string, bookId: int, now: int, recordWriteOk: bool, availabilityWriteOk: bool)
      returns (r: BorrowResult)
      requires Valid()
      modifies this
      ensures Valid() && nextId == old(nextId)
      ensures BorrowCheck(patron, FindBook(old(books), bookId), BorrowCount(old(records), patron)).Some? ==>
        && r == BorrowFailed(BorrowCheck(patron, FindBook(old(books), bookId), BorrowCount(old(records), patron)).value)
        && books == old(books) && records == old(records)
      ensures BorrowCheck(patron, FindBook(old(books), bookId), BorrowCount(old(records), patron)).None? ==>
        if !recordWriteOk then
          r == BorrowFailed(RecordWriteFailed) && books == old(books) && records == old(records)
        else
          && records == old(records) + [BorrowRecord(patron, bookId, now, now + LOAN_DAYS * DAY, None)]
          && if availabilityWriteOk then
               && r == Borrowed(FindBook(old(books), bookId).value.title, now + LOAN_DAYS * DAY)
               && books == AdjustAvailability(old(books), bookId, -1)
             else
               r == BorrowFailed(AvailabilityWriteFailed) && books == old(books)
      ensures r.Borrowed? && old(Conserved(books, records)) ==> Conserved(books, records)
    {
      var book := FindBook(books, bookId);
      var check := BorrowCheck(patron, book, BorrowCount(records, patron));
      if check.Some? {
        return BorrowFailed(check.value);
      }
      var due := now + LOAN_DAYS * DAY;
      if !recordWriteOk {
        return BorrowFailed(RecordWriteFailed);
      }
      var loan := BorrowRecord(patron, bookId, now, due, None);
      if Conserved(books, records) {
        BorrowKeepsConserved(books, records, loan);
      }
      records := records + [loan];
      if !availabilityWriteOk {
        return BorrowFailed(AvailabilityWriteFailed);
      }
      AdjustPointwise(books, bookId, -1);
      books := AdjustAvailability(books, bookId, -1);
      r := Borrowed(book.value.title, due);
    }

    /** The return procedure with `restore` copies put back: both writes are
        attempted whatever the first one answers, and the return succeeds
        only if both do. */
    method ReturnRestoring(patron: string, bookId: int, now: int, restore: int,
                           closeWriteOk: bool, availabilityWriteOk: bool)
      returns (r: ReturnResult)
      requires Valid()
      modifies this
      ensures Valid() && nextId == old(nextId)
      ensures ReturnCheck(patron, bookId, FindBook(old(books), bookId), ActiveBorrows(old(records), patron)).Some? ==>
        && r == ReturnFailed(ReturnCheck(patron, bookId, FindBook(old(books), bookId), ActiveBorrows(old(records), patron)).value)
        && books == old(books) && records == old(records)
      ensures ReturnCheck(patron, bookId, FindBook(old(books), bookId), ActiveBorrows(old(records), patron)).None? ==>
        && records == (if closeWriteOk then CloseLoans(old(records), patron, bookId, now) else old(records))
        && books == (if availabilityWriteOk then AdjustAvailability(old(books), bookId, restore) else old(books))
        && (if closeWriteOk && availabilityWriteOk
            then r == Returned(FindBook(old(books), bookId).value.title)
            else r == ReturnFailed(ReturnWriteFailed))
    {
      var book := FindBook(books, bookId);
      var check := ReturnCheck(patron, bookId, book, ActiveBorrows(records, patron));
      if check.Some? {
        return ReturnFailed(check.value);
      }
      if closeWriteOk {
        records := CloseLoans(records, patron, bookId, now);
      }
      if availabilityWriteOk {
        AdjustPointwise(books, bookId, restore);
        books := AdjustAvailability(books, bookId, restore);
      }
      r := if closeWriteOk && availabilityWriteOk then Returned(book.value.title) else ReturnFailed(ReturnWriteFailed);
    }

    /** `return_book_by_patron` as written: four copies go back on the
        shelf on every return. */
    method ReturnBookAsWritten(patron: string, bookId: int, now: int, closeWriteOk: bool, availabilityWriteOk: bool)
      returns (r: ReturnResult)
      requires Valid()
      modifies this
      ensures Valid() && nextId == old(nextId)
      ensures ReturnCheck(patron, bookId, FindBook(old(books), bookId), ActiveBorrows(old(records), patron)).Some? ==>
        && r == ReturnFailed(ReturnCheck(patron, bookId, FindBook(old(books), bookId), ActiveBorrows(old(records), patron)).value)
        && books == old(books) && records == old(records)
      ensures ReturnCheck(patron, bookId, FindBook(old(books), bookId), ActiveBorrows(old(records), patron)).None? ==>
        && records == (if closeWriteOk then CloseLoans(old(records), patron, bookId, now) else old(records))
        && books == (if availabilityWriteOk
                     then AdjustAvailability(old(books), bookId, AS_WRITTEN_RETURN_RESTORE)
                     else old(books))
        && (r.Returned? <==> closeWriteOk && availabilityWriteOk)
    {
      r := ReturnRestoring(patron, bookId, now, AS_WRITTEN_RETURN_RESTORE, closeWriteOk, availabilityWriteOk);
    }

    /** `return_book_by_patron` with one copy restored: a completed return
        of the patron's only copy keeps copy conservation. */
    method ReturnBook(patron: string, bookId: int, now: int, closeWriteOk: bool, availabilityWriteOk: bool)
      returns (r: ReturnResult)
      requires Valid()
      modifies this
      ensures Valid() && nextId == old(nextId)
      ensures ReturnCheck(patron, bookId, FindBook(old(books), bookId), ActiveBorrows(old(records), patron)).Some? ==>
        && r == ReturnFailed(ReturnCheck(patron, bookId, FindBook(old(books), bookId), ActiveBorrows(old(records), patron)).value)
        && books == old(books) && records == old(records)
      ensures ReturnCheck(patron, bookId, FindBook(old(books), bookId), ActiveBorrows(old(records), patron)).None? ==>
        && records == (if closeWriteOk then CloseLoans(old(records), patron, bookId, now) else old(records))
        && books == (if availabilityWriteOk then AdjustAvailability(old(books), bookId, RETURN_RESTORE) else old(books))
        && (r.Returned? <==> closeWriteOk && availabilityWriteOk)
      ensures r.Returned? && old(Conserved(books, records)) && old(CopiesHeld(records, patron, bookId)) == 1 ==>
        Conserved(books, records)
    {
      if Conserved(books, records) && CopiesHeld(records, patron, bookId) == 1 {
        ReturnKeepsConserved(books, records, patron, bookId, now);
      }
      r := ReturnRestoring(patron, bookId, now, RETURN_RESTORE, closeWriteOk, availabilityWriteOk);
    }

    /** `get_patron_status_report(patron)` at time `now`. */
    method StatusReport(patron: string, now: int) returns (r: Report)
      ensures r == ReportOf(records, patron, now)
    {
      if !PatronIdOk(patron) {
        return InvalidPatronReport;
      }
      var borrowed := ActiveBorrows(records, patron);
      var overdue, totalFees := CollectOverdue(patron, borrowed, now);
      r := PatronReport(patron, |borrowed|, BORROW_LIMIT - |borrowed|, totalFees, overdue, borrowed);
    }

    /** The report's loop: one pass over the loans in `borrowed`, adding up
        the positive fees and listing the loans they belong to. */
    method CollectOverdue(patron: string, borrowed: seq<BorrowRecord>, now: int)
      returns (overdue: seq<OverdueEntry>, totalFees: int)
      ensures overdue == OverdueEntries(records, patron, borrowed, now)
      ensures totalFees == TotalFees(overdue)
    {
      totalFees := 0;
      overdue := [];
      var i := 0;
      while i < |borrowed|
        invariant 0 <= i <= |borrowed|
        invariant overdue == OverdueEntries(records, patron, borrowed[..i], now)
        invariant totalFees == TotalFees(overdue)
      {
        var fee := LateFeeFor(records, patron, borrowed[i].bookId, now);
        assert borrowed[..i + 1] == borrowed[..i] + [borrowed[i]];
        OverdueEntriesSnoc(records, patron, borrowed[..i], borrowed[i], now);
        if fee.feeCents > 0 {
          var entry := OverdueEntry(borrowed[i].bookId, fee.daysOverdue, fee.feeCents);
          TotalFeesSnoc(overdue, entry);
          totalFees := totalFees + fee.feeCents;
          overdue := overdue + [entry];
        }
        i := i + 1;
      }
      assert borrowed[..i] == borrowed;
    }
  }

  /** The end-to-end scenario of book 4 with three copies: patron 123456
      borrows one copy and returns it. With one copy restored the shelf is
      back to three and copy conservation holds; as written the shelf shows
      six copies of a three-copy book. */
  lemma ReturnRestoreScenario()
    ensures
      var book := Book(4, "The Hunger Games", "Suzanne Collins", "9780439023528", 3, 3);
      var loan := BorrowRecord("123456", 4, 0, LOAN_DAYS * DAY, None);
      var lent := AdjustAvailability([book], 4, -1);
      var returned := CloseLoans([loan], "123456", 4, DAY);
      && Conserved([book], []) && Conserved(lent, [loan])
      && ReturnCheck("123456", 4, FindBook(lent, 4), ActiveBorrows([loan], "123456")).None?
      && AdjustAvailability(lent, 4, RETURN_RESTORE)[0].availableCopies == 3
      && Conserved(AdjustAvailability(lent, 4, RETURN_RESTORE), returned)
      && AdjustAvailability(lent, 4, AS_WRITTEN_RETURN_RESTORE)[0].availableCopies == 6
      && !Conserved(AdjustAvailability(lent, 4, AS_WRITTEN_RETURN_RESTORE), returned)
  {
    var book := Book(4, "The Hunger Games", "Suzanne Collins", "9780439023528", 3, 3);
    var loan := BorrowRecord("123456", 4, 0, LOAN_DAYS * DAY, None);
    var lent := AdjustAvailability([book], 4, -1);
    var returned := CloseLoans([loan], "123456", 4, DAY);
    PatronIdExamples();
    assert CopiesOut([], 4) == 0;
    assert CopiesOut([loan], 4) == 1 by {
      assert [loan][..0] == [];
    }
    assert CopiesOut(returned, 4) == 0 by {
      assert returned[..0] == [];
    }
    assert ActiveBorrows([loan], "123456") == [loan];
  }
}
