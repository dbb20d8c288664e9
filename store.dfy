/** The persistence contract the service consumes: books and borrow
    records as values, the store's read queries and the effect of its two
    update statements, and the copy-conservation invariant that borrowing
    and returning are meant to keep. */
module Store {
  import opened Wrappers

  datatype Book = Book(
    id: int,
    title: string,
    author: string,
    isbn: string,
    totalCopies: int,
    availableCopies: int)

  /** A loan; `returnDate` is `None` while the book is still out. Times are
      seconds on the service's clock. */
  datatype BorrowRecord = BorrowRecord(
    patronId: string,
    bookId: int,
    borrowDate: int,
    dueDate: int,
    returnDate: Option<int>)

  predicate IsActive(r: BorrowRecord) {
    r.returnDate.None?
  }

  predicate ActiveFor(r: BorrowRecord, patron: string) {
    r.patronId == patron && IsActive(r)
  }

  predicate UniqueIds(books: seq<Book>) {
    forall i, j | 0 <= i < j < |books| :: books[i].id != books[j].id
  }

  /** `get_book_by_id`: the first book with that id. */
  function FindBook(books: seq<Book>, id: int): (r: Option<Book>)
    ensures r.Some? ==> r.value in books && r.value.id == id
    ensures r.None? <==> forall i | 0 <= i < |books| :: books[i].id != id
  {
    if books == [] then None
    else if books[0].id == id then Some(books[0])
    else FindBook(books[1..], id)
  }

  /** `get_book_by_isbn`: the first book with that ISBN. */
  function FindByIsbn(books: seq<Book>, isbn: string): (r: Option<Book>)
    ensures r.Some? ==> r.value in books && r.value.isbn == isbn
    ensures r.None? <==> forall i | 0 <= i < |books| :: books[i].isbn != isbn
  {
    if books == [] then None
    else if books[0].isbn == isbn then Some(books[0])
    else FindByIsbn(books[1..], isbn)
  }

  /** `get_patron_borrowed_books`: the patron's outstanding loans, in
      record order. */
  function ActiveBorrows(records: seq<BorrowRecord>, patron: string): (r: seq<BorrowRecord>)
    ensures |r| <= |records|
  {
    if records == [] then []
    else (if ActiveFor(records[0], patron) then [records[0]] else [])
         + ActiveBorrows(records[1..], patron)
  }

  /** The patron's outstanding loans are exactly the records that are
      outstanding and the patron's. */
  lemma {:induction false} ActiveBorrowsMembers(records: seq<BorrowRecord>, patron: string)
    ensures forall x :: x in ActiveBorrows(records, patron) <==> x in records && ActiveFor(x, patron)
  {
    if records != [] {
      ActiveBorrowsMembers(records[1..], patron);
      assert records == [records[0]] + records[1..];
    }
  }

  lemma {:induction false} ActiveBorrowsAppend(records: seq<BorrowRecord>, patron: string, loan: BorrowRecord)
    ensures ActiveBorrows(records + [loan], patron)
         == ActiveBorrows(records, patron) + (if ActiveFor(loan, patron) then [loan] else [])
  {
    if records != [] {
      assert (records + [loan])[1..] == records[1..] + [loan];
      ActiveBorrowsAppend(records[1..], patron, loan);
    }
  }

  /** `get_patron_borrow_count`. */
  function BorrowCount(records: seq<BorrowRecord>, patron: string): nat {
    |ActiveBorrows(records, patron)|
  }

  /** The first loan in `borrows` for the given book, as
      `next(b for b in borrowed if b['book_id'] == book_id)` picks it. */
  function FindLoan(borrows: seq<BorrowRecord>, bookId: int): (r: Option<BorrowRecord>)
    ensures r.Some? ==> r.value in borrows && r.value.bookId == bookId
    ensures r.None? <==> forall b | b in borrows :: b.bookId != bookId
  {
    if borrows == [] then None
    else if borrows[0].bookId == bookId then Some(borrows[0])
    else FindLoan(borrows[1..], bookId)
  }

  /** The loan found is the first one for the book: it sits at some index
      `k` and no earlier loan is for that book. */
  lemma {:induction false} FindLoanFirst(borrows: seq<BorrowRecord>, bookId: int)
    ensures FindLoan(borrows, bookId).Some? ==> exists k | 0 <= k < |borrows| ::
      borrows[k] == FindLoan(borrows, bookId).value && forall j | 0 <= j < k :: borrows[j].bookId != bookId
  {
    if borrows != [] && borrows[0].bookId != bookId {
      FindLoanFirst(borrows[1..], bookId);
      if FindLoan(borrows[1..], bookId).Some? {
        var k :| 0 <= k < |borrows| - 1 && borrows[1..][k] == FindLoan(borrows, bookId).value
                 && forall j | 0 <= j < k :: borrows[1..][j].bookId != bookId;
        assert borrows[k + 1] == FindLoan(borrows, bookId).value;
      }
    }
  }

  /** A loan added behind the others is found only when none of the others
      is for the book: the earliest outstanding loan wins. */
  lemma {:induction false} FindLoanAppend(borrows: seq<BorrowRecord>, loan: BorrowRecord, bookId: int)
    ensures FindLoan(borrows + [loan], bookId)
         == if FindLoan(borrows, bookId).Some? then FindLoan(borrows, bookId)
            else if loan.bookId == bookId then Some(loan)
            else None
  {
    if borrows != [] {
      assert (borrows + [loan])[1..] == borrows[1..] + [loan];
      FindLoanAppend(borrows[1..], loan, bookId);
    }
  }

  /** `update_book_availability(id, delta)`: adds `delta` to the available
      copies of the book with that id, with no bound check. */
  function AdjustAvailability(books: seq<Book>, id: int, delta: int): (r: seq<Book>)
    ensures |r| == |books|
  {
    if books == [] then []
    else [Adjusted(books[0], id, delta)] + AdjustAvailability(books[1..], id, delta)
  }

  function Adjusted(b: Book, id: int, delta: int): Book {
    if b.id == id then b.(availableCopies := b.availableCopies + delta) else b
  }

  /** Each entry of the catalogue is adjusted on its own. */
  lemma {:induction false} AdjustPointwise(books: seq<Book>, id: int, delta: int)
    ensures forall i | 0 <= i < |books| :: AdjustAvailability(books, id, delta)[i] == Adjusted(books[i], id, delta)
  {
    if books != [] {
      AdjustPointwise(books[1..], id, delta);
      var after := AdjustAvailability(books, id, delta);
      forall i | 1 <= i < |books|
        ensures after[i] == Adjusted(books[i], id, delta)
      {
        assert after[i] == AdjustAvailability(books[1..], id, delta)[i - 1];
      }
    }
  }

  /** `update_borrow_record_return_date(patron, id, when)`: stamps every
      outstanding loan of that book by that patron as returned. */
  function CloseLoans(records: seq<BorrowRecord>, patron: string, id: int, when: int): (r: seq<BorrowRecord>)
    ensures |r| == |records|
    ensures forall k | 0 <= k < |records| ::
      r[k] == if ActiveFor(records[k], patron) && records[k].bookId == id
              then records[k].(returnDate := Some(when))
              else records[k]
  {
    seq(|records|, k requires 0 <= k < |records| =>
      if ActiveFor(records[k], patron) && records[k].bookId == id
      then records[k].(returnDate := Some(when))
      else records[k])
  }

  /** What the catalogue lookup sees after `update_book_availability`: the
      book with the id has `delta` more copies on the shelf. */
  lemma {:induction false} FindAfterAdjust(books: seq<Book>, id: int, delta: int)
    ensures FindBook(AdjustAvailability(books, id, delta), id)
         == if FindBook(books, id).Some? then Some(Adjusted(FindBook(books, id).value, id, delta)) else None
  {
    if books != [] {
      AdjustTail(books, id, delta);
      if books[0].id != id {
        FindAfterAdjust(books[1..], id, delta);
      }
    }
  }

  /** Every other id finds what it found before the update. */
  lemma {:induction false} FindOtherAfterAdjust(books: seq<Book>, id: int, delta: int, other: int)
    requires other != id
    ensures FindBook(AdjustAvailability(books, id, delta), other) == FindBook(books, other)
  {
    if books != [] {
      AdjustTail(books, id, delta);
      FindOtherAfterAdjust(books[1..], id, delta, other);
    }
  }

  lemma AdjustTail(books: seq<Book>, id: int, delta: int)
    requires books != []
    ensures AdjustAvailability(books, id, delta)[0] == Adjusted(books[0], id, delta)
    ensures AdjustAvailability(books, id, delta)[1..] == AdjustAvailability(books[1..], id, delta)
  {
    assert AdjustAvailability(books, id, delta)
        == [Adjusted(books[0], id, delta)] + AdjustAvailability(books[1..], id, delta);
  }

  /** What the loan queries see after `update_borrow_record_return_date`:
      the patron no longer holds the book, other patrons' loans are
      untouched, and the patron's count drops by the copies of the book
      they held. */
  lemma {:induction false} LoansAfterClose(records: seq<BorrowRecord>, patron: string, id: int, when: int, other: string)
    ensures FindLoan(ActiveBorrows(CloseLoans(records, patron, id, when), patron), id).None?
    ensures other != patron ==>
      ActiveBorrows(CloseLoans(records, patron, id, when), other) == ActiveBorrows(records, other)
    ensures BorrowCount(CloseLoans(records, patron, id, when), patron)
         == BorrowCount(records, patron) - CopiesHeld(records, patron, id)
  {
    var closed := CloseLoans(records, patron, id, when);
    ActiveBorrowsMembers(closed, patron);
    if records != [] {
      var n := |records| - 1;
      assert records == records[..n] + [records[n]];
      assert closed == CloseLoans(records[..n], patron, id, when) + [closed[n]];
      LoansAfterClose(records[..n], patron, id, when, other);
      ActiveBorrowsAppend(records[..n], patron, records[n]);
      ActiveBorrowsAppend(records[..n], other, records[n]);
      ActiveBorrowsAppend(CloseLoans(records[..n], patron, id, when), patron, closed[n]);
      ActiveBorrowsAppend(CloseLoans(records[..n], patron, id, when), other, closed[n]);
    }
  }

  /** The number of copies of a book currently out, over all patrons. */
  function CopiesOut(records: seq<BorrowRecord>, id: int): nat {
    if records == [] then 0
    else CopiesOut(records[..|records| - 1], id)
         + (if IsActive(records[|records| - 1]) && records[|records| - 1].bookId == id then 1 else 0)
  }

  /** The number of copies of a book the given patron currently holds. */
  function CopiesHeld(records: seq<BorrowRecord>, patron: string, id: int): nat {
    if records == [] then 0
    else CopiesHeld(records[..|records| - 1], patron, id)
         + (if ActiveFor(records[|records| - 1], patron) && records[|records| - 1].bookId == id then 1 else 0)
  }

  /** Copy conservation: for every book, the copies on the shelf plus the
      copies on loan make up the total, and none is negative. */
  ghost predicate Conserved(books: seq<Book>, records: seq<BorrowRecord>) {
    forall i | 0 <= i < |books| ::
      books[i].availableCopies >= 0
      && books[i].availableCopies + CopiesOut(records, books[i].id) == books[i].totalCopies
  }

  lemma CopiesOutAppend(records: seq<BorrowRecord>, r: BorrowRecord, id: int)
    ensures CopiesOut(records + [r], id)
         == CopiesOut(records, id) + (if IsActive(r) && r.bookId == id then 1 else 0)
  {
    assert (records + [r])[..|records|] == records;
  }

  lemma {:induction false} CopiesOutNone(records: seq<BorrowRecord>, id: int)
    requires forall k | 0 <= k < |records| :: records[k].bookId != id
    ensures CopiesOut(records, id) == 0
  {
    if records != [] {
      CopiesOutNone(records[..|records| - 1], id);
    }
  }

  /** Closing a patron's loans of book `id` takes exactly the copies that
      patron held off the loan count of `id`, and no other book's. */
  lemma {:induction false} CopiesOutAfterClose(records: seq<BorrowRecord>, patron: string, id: int, when: int, other: int)
    ensures CopiesHeld(records, patron, id) <= CopiesOut(records, id)
    ensures CopiesOut(CloseLoans(records, patron, id, when), other)
         == CopiesOut(records, other) - (if other == id then CopiesHeld(records, patron, id) else 0)
  {
    if records != [] {
      var n := |records| - 1;
      assert CloseLoans(records, patron, id, when)[..n] == CloseLoans(records[..n], patron, id, when);
      CopiesOutAfterClose(records[..n], patron, id, when, other);
    }
  }

  /** With unique ids, every entry carrying the id `FindBook` found is that
      book. */
  lemma FoundIsOnly(books: seq<Book>, id: int, i: int)
    requires UniqueIds(books) && FindBook(books, id).Some?
    requires 0 <= i < |books| && books[i].id == id
    ensures books[i] == FindBook(books, id).value
  {
  }

  /** Adding a book nobody holds keeps copy conservation when it starts
      with all its copies on the shelf. */
  lemma AddKeepsConserved(books: seq<Book>, records: seq<BorrowRecord>, b: Book)
    requires Conserved(books, records)
    requires forall k | 0 <= k < |records| :: records[k].bookId != b.id
    requires 0 <= b.availableCopies == b.totalCopies
    ensures Conserved(books + [b], records)
  {
    CopiesOutNone(records, b.id);
  }

  /** A completed borrow (the new loan recorded and one copy taken off the
      shelf) keeps copy conservation. */
  lemma BorrowKeepsConserved(books: seq<Book>, records: seq<BorrowRecord>, loan: BorrowRecord)
    requires Conserved(books, records) && UniqueIds(books)
    requires IsActive(loan)
    requires FindBook(books, loan.bookId).Some? && FindBook(books, loan.bookId).value.availableCopies > 0
    ensures Conserved(AdjustAvailability(books, loan.bookId, -1), records + [loan])
  {
    var after := AdjustAvailability(books, loan.bookId, -1);
    AdjustPointwise(books, loan.bookId, -1);
    forall i | 0 <= i < |after|
      ensures after[i].availableCopies >= 0
      ensures after[i].availableCopies + CopiesOut(records + [loan], after[i].id) == after[i].totalCopies
    {
      CopiesOutAppend(records, loan, books[i].id);
      if books[i].id == loan.bookId {
        FoundIsOnly(books, loan.bookId, i);
      }
    }
  }

  /** A completed return that restores ONE copy keeps copy conservation
      when the patron held exactly one copy of the book. */
  lemma ReturnKeepsConserved(books: seq<Book>, records: seq<BorrowRecord>, patron: string, id: int, when: int)
    requires Conserved(books, records)
    requires CopiesHeld(records, patron, id) == 1
    ensures Conserved(AdjustAvailability(books, id, 1), CloseLoans(records, patron, id, when))
  {
    var after := AdjustAvailability(books, id, 1);
    AdjustPointwise(books, id, 1);
    forall i | 0 <= i < |after|
      ensures after[i].availableCopies >= 0
      ensures after[i].availableCopies + CopiesOut(CloseLoans(records, patron, id, when), after[i].id)
           == after[i].totalCopies
    {
      CopiesOutAfterClose(records, patron, id, when, books[i].id);
    }
  }
}
