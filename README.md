# Library policy engine, modelled in Dafny

This project models the business rules of a small library-management
service (`services/library_service.py`). The service:

- validates new catalogue entries and patron card numbers;
- lends and takes back books against a store of books and borrow records;
- computes tiered late fees with a $15.00 cap;
- searches the catalogue;
- reports a patron's status;
- charges and refunds late fees through an injected payment gateway.

The model has these modules:

- `Text`: ASCII versions of the string operations the service uses (`strip`, `lower`, `isdigit`, `startswith`, `in`).
- `Validation`: the patron-id gate, the book-field checks in their fixed order, the transaction-id and refund-amount checks.
- `Store`: books and borrow records as values, and the store's queries and updates as functions. It also holds the copy-conservation invariant (copies on the shelf + copies on loan == total) and the lemmas that add, borrow and return keep it.
- `Fees`: the late-fee calculator, in integer cents with time in seconds.
- `Search`: catalogue search.
- `Reports`: the status report as a specification function.
- `Payments`: `pay_late_fees` and `refund_late_fee_payment`. The gateway's reply is an input. Each outcome records the request actually sent to the gateway, and `None` means the gateway was never called.
- `Library`: the class `LibraryService`. Its fields are the catalogue, the borrow records and the next book id. Its methods are add, borrow, return and the status report. Whether each database write succeeds is a method parameter.

Money is held in cents (50 and 100 cents per day, cap 1500). Every fee the source computes is a multiple of $0.50, so nothing is lost. The clock is a parameter `now`, in seconds; a day is 86400 seconds.

Some of the code's behaviour differs from what is often assumed about it. The model keeps the code's behaviour:

- The $15.00 cap is not reached at 17 overdue days: 0.5·7 + 1·10 is 13.50, not 15.00. Under the code's tiers, 17 days cost $13.50 and 18 days cost $14.50. The cap, and with it the " (maximum fee applied)" marker, is reached at 19 days (`Fees.CAP_DAY`, `Fees.FeeBoundaries`).
- There is no rollback when the second write of a borrow fails. The new record is kept and availability is left untouched (`Library.LibraryService.BorrowBook`).
- The borrowing limit rejects only counts strictly above 5. A patron holding five books may borrow a sixth, and their report then shows −1 slots remaining (`Reports.SixthLoanOverdrawsAllowance`).
- Return adds 4 copies. See Findings.

## Model

| member | source | states |
|---|---|---|
| `Text.Strip` | services/library_service.py:30-39 | `strip()` returns a slice of its input; everything cut off before and after it is whitespace, and the slice neither starts nor ends with whitespace; it is empty exactly when the input is all whitespace |
| `Text.StripLowerCommute` | services/library_service.py:209 | stripping then lowering equals lowering then stripping |
| `Validation.PatronIdOk` | services/library_service.py:75 | a patron id passes iff it is exactly 6 characters, all digits (so empty ids fail) |
| `Validation.PatronIdExamples` | services/library_service.py:75 | the patron-id gate admits "123456" and refuses "12A456", "123" and the empty id |
| `Validation.CheckBookFields` | services/library_service.py:30-46 | each field error is reported iff all earlier checks pass and this one fails: blank title, stripped title > 200, blank author, stripped author > 100, ISBN length ≠ 13, copies ≤ 0; no error iff all pass |
| `Validation.IsbnLengthOnly` | services/library_service.py:42-43 | thirteen letters pass the ISBN check: only the length is checked |
| `Validation.TransactionIdOk` | services/library_service.py:352 | a transaction id passes iff it starts with `txn_` |
| `Validation.CheckRefund` | services/library_service.py:351-359 | no error iff the id has the `txn_` prefix and 0 < amount ≤ 1500 cents; a bad id gives "invalid transaction id" whatever the amount; with a good id, amount ≤ 0 gives "not positive" and amount > 1500 gives "exceeds maximum" |
| `Store.FindBook` | services/library_service.py:79-81 | the book found carries the id and is in the catalogue; nothing is found iff no book has that id |
| `Store.FindByIsbn` | services/library_service.py:49-51 | the book found carries the ISBN; nothing is found iff no book has that ISBN |
| `Store.ActiveBorrowsMembers` | services/library_service.py:126 | a patron's borrowed books are exactly the records of that patron with no return date |
| `Store.FindLoan` | services/library_service.py:155 | the loan found is in the list and is for the book; none is found iff no loan in the list is for that book |
| `Store.FindLoanFirst` | services/library_service.py:155 | the loan found is the FIRST loan for the book: it sits at an index before which no loan is for that book |
| `Store.FindLoanAppend` | services/library_service.py:155 | a loan appended behind the others is found only when none of the earlier loans is for the book |
| `Store.ActiveBorrowsAppend` | services/library_service.py:97 | appending a record adds it to the end of the patron's borrowed books iff it is that patron's and unreturned; earlier ones are kept in order |
| `Store.FindAfterAdjust` | services/library_service.py:101 | after `update_book_availability(id, delta)` the lookup of that id finds the same book with `delta` more available copies, and finds nothing iff it found nothing before |
| `Store.FindOtherAfterAdjust` | services/library_service.py:135 | after the availability update every other id looks up exactly what it did before |
| `Store.LoansAfterClose` | services/library_service.py:134 | after `update_borrow_record_return_date` the patron holds no loan of the book, every other patron's borrowed books are unchanged, and the patron's count drops by exactly the copies of that book they held |
| `Store.CopiesOutAfterClose` | services/library_service.py:134 | closing takes the patron's copies of that book, and only those, off the loan count |
| `Store.AddKeepsConserved` | services/library_service.py:54 | a new book with available = total and no loans keeps shelf + loans == total |
| `Store.BorrowKeepsConserved` | services/library_service.py:97-101 | recording a loan and taking one copy off a shelf that has one keeps shelf + loans == total, with no shelf negative |
| `Store.ReturnKeepsConserved` | services/library_service.py:133-135 | closing the patron's only loan and restoring ONE copy keeps shelf + loans == total |
| `Fees.DaysOverdue` | services/library_service.py:176 | overdue days are whole days rounded down: d·86400 ≤ now − due < (d+1)·86400 |
| `Fees.CappedFee` | services/library_service.py:179-185 | the fee never exceeds 1500 cents; it equals 1500 iff d ≥ 19; it is 0 iff d = 0; it is always a multiple of 50 cents |
| `Fees.CappedFeeIsFormula` | services/library_service.py:179-185 | the tiered fee equals min(1500, 50·min(d,7) + 100·max(d−7,0)) |
| `Fees.FeeMonotone` | services/library_service.py:179-185 | the fee never decreases with more days, and strictly increases up to day 19 |
| `Fees.FeeBoundaries` | services/library_service.py:179-185 | at the tier and cap edges: 7 days → 350 cents, 8 → 450, 17 → 1350, 18 → 1450, 19, 30 and 100 → 1500 |
| `Fees.Assess` | services/library_service.py:157-195 | no loan gives 0 fee with "no active record"; now ≤ due gives 0 "not overdue"; otherwise the fee follows the formula for the floored days, and "maximum fee applied" is marked iff d ≥ 19; the fee is positive iff the loan is at least one whole day late |
| `Fees.LateFeeFor` | services/library_service.py:146-195 | the fee is at most 1500; with no outstanding loan of the book it is 0; a positive fee means an outstanding loan of the book at least a day late |
| `Fees.FeeAfterBorrow` | services/library_service.py:92-97 | after a loan made at `now` is recorded: if the patron already held the book the fee is still the earlier loan's; otherwise it is 0 "not overdue" up to now + 14 days and positive from a whole day after that |
| `Search.ParseSearchType` | services/library_service.py:212-219 | exactly "title", "author" and "isbn" are search types |
| `Search.Filter` | services/library_service.py:213-217 | a book is in the result iff it is in the catalogue and matches |
| `Search.FilterAppend` | services/library_service.py:213-217 | the comprehension keeps catalogue order: filtering two parts of a catalogue gives the first part's matches followed by the second's |
| `Search.SearchCatalog` | services/library_service.py:199-219 | a blank term or an unknown type gives []; otherwise a book is found iff it is in the catalogue and its lowered title or author contains the stripped, lowered term (the ISBN is matched without lowering); the result is `Filter` of the catalogue, so in catalogue order |
| `Search.SearchIgnoresTermCase` | services/library_service.py:209-215 | a term and its lower-case form find the same books |
| `Search.SearchIgnoresPadding` | services/library_service.py:206-209 | spaces around the term do not change the result |
| `Reports.OverdueEntries` | services/library_service.py:242-250 | no more entries than loans; every entry's fee is in (0, 1500] |
| `Reports.OverdueEntriesExact` | services/library_service.py:242-250 | there is an entry for every loan whose assessed fee is positive, and every entry comes from such a loan |
| `Reports.TotalFeesBounds` | services/library_service.py:239-245 | the accumulated total lies in [0, 1500 · entries], and is 0 iff no entry is overdue |
| `Reports.ReportOf` | services/library_service.py:224-268 | an invalid id gives the error report and nothing else does; otherwise: borrowed = the patron's outstanding count, remaining = 5 − borrowed, total fees in [0, 1500 · overdue], current = the outstanding loans |
| `Reports.SixthLoanOverdrawsAllowance` | services/library_service.py:255 | after a sixth outstanding loan the remaining allowance is −1 |
| `Payments.PayLateFees` | services/library_service.py:271-333 | the gateway is called iff the id is valid, the fee is positive and the book exists; it is asked for exactly that fee (in (0, 1500]) for that patron and title; an invalid id gives "invalid patron id", a valid id with no fee gives "no late fees", a fee for a missing book gives "book not found"; success with the gateway's transaction id iff it was called and approved; decline and exception give failures carrying its message |
| `Payments.RefundLateFee` | services/library_service.py:337-376 | the gateway is called iff the id has the `txn_` prefix and 0 < amount ≤ 1500, with exactly those arguments; success iff called and refunded; otherwise the first failed check, or the decline or exception |
| `Payments.ChargedFeeIsRefundable` | services/library_service.py:358 | a fee charged under a `txn_` transaction passes the refund checks in full |
| `Payments.RefundBoundaries` | tests/test_payment_mock_stub.py:181-196 | 1500 is sent to the gateway; 1501, 0 and −500 cents and the id "invalid_txn" are refused before it |
| `Library.BorrowCheck` | services/library_service.py:74-90 | no error iff the id is valid, the book exists, it has a copy and the count ≤ 5; an invalid id is reported first, then a missing book, then no copy on the shelf ("not available"), then a count > 5 ("limit reached") |
| `Library.BorrowLimitBoundary` | services/library_service.py:89-90 | a count of 5 is admitted and 6 refused |
| `Library.ReturnCheck` | services/library_service.py:117-130 | no error iff the id is valid, the book exists and the patron has an outstanding loan of it; an invalid id is reported first, then a missing book, then "not borrowed by patron" |
| `Library.AppendedBookIsFound` | services/library_service.py:49-54 | after the insert, looking up the ISBN and the new id finds the new book |
| `Library.AddedBookFacts` | services/library_service.py:54 | the insert keeps ids unique and copy conservation, and both lookups find the new book |
| `Library.LibraryService.AddBook` | services/library_service.py:15-58 | the first failed field check, then a duplicate ISBN, then a failed insert each refuse with the store unchanged; otherwise one book is appended with stripped title and author, available = total = copies, and the ISBN and id lookups find it |
| `Library.LibraryService.InsertBook` | services/library_service.py:48-58 | with the fields already checked: a duplicate ISBN or a failed insert leaves the store unchanged; otherwise one book with the next id and available = total = copies is appended, the ISBN and id lookups find it, and copy conservation is kept |
| `Library.LibraryService.BorrowBook` | services/library_service.py:62-105 | a failed check changes nothing; a failed record write changes nothing; otherwise exactly one loan due now + 14 days is appended; if the availability write also succeeds, that book alone loses one copy, else books stay as they were and the record remains; a completed borrow keeps copy conservation |
| `Library.LibraryService.ReturnRestoring` | services/library_service.py:132-140 | after the checks both writes are attempted independently; the return succeeds iff both report success |
| `Library.LibraryService.ReturnBookAsWritten` | services/library_service.py:111-140 | a failed check changes nothing; otherwise the patron's loans of the book are closed if that write succeeds, and 4 copies are added if that write succeeds; success iff both writes succeed |
| `Library.LibraryService.ReturnBook` | services/library_service.py:111-140 | as above with ONE copy restored; a completed return of the patron's only copy keeps copy conservation |
| `Library.LibraryService.StatusReport` | services/library_service.py:224-268 | the report equals `Reports.ReportOf` for the current records |
| `Library.LibraryService.CollectOverdue` | services/library_service.py:239-250 | the loop's list is exactly `Reports.OverdueEntries` and its total is exactly the sum of that list's fees |
| `Library.ReturnRestoreScenario` | services/library_service.py:135 | book 4 with 3 copies is lent to 123456 and returned: with one copy restored the shelf is back to 3 and conservation holds; as written it shows 6 and conservation fails |

## Findings

| source | as written | input that shows it | evidently intended | confidence | as-written member | corrected member |
|---|---|---|---|---|---|---|
| services/library_service.py:135 | a return adds 4 to the book's available copies | book 4 has 3 copies. Patron 123456 borrows one, leaving 2 on the shelf, then returns it: the shelf shows 6 copies of a 3-copy book | a return puts back the one copy that was lent, so shelf + loans == total | high; not executed | `Library.LibraryService.ReturnBookAsWritten`, `Library.ReturnRestoreScenario` | `Library.LibraryService.ReturnBook`, `Store.ReturnKeepsConserved` |

## Left out

- The `database` module is not part of this model. Its functions are modelled on the class's fields with these assumed semantics:
  - `get_book_by_id` and `get_book_by_isbn` return the first match.
  - `get_patron_borrowed_books` returns the patron's records with no return date, in record order.
  - `update_book_availability` adds the delta with no bound check.
  - `update_borrow_record_return_date` stamps every outstanding loan of that book by that patron.
  - `get_all_books` returns the catalogue in insertion order; the real query may sort it.
  - Each write's success or failure is a parameter.
- `Store.ReturnKeepsConserved`: conservation is proved only when the patron held exactly one copy of the book. Because the record update closes every matching loan, a patron holding two copies has both closed while one copy is restored.
- The real `PaymentGateway` (`services/payment_service.py`) is not part of this model, nor is the branch that builds a default gateway when none is passed (lines 314-315, 362-363). The gateway is an input reply. An exception is the `Raised` reply; how exceptions propagate is not modelled.
- The `if not fee_info or 'fee_amount' not in fee_info` branch of `pay_late_fees` (lines 300-301) is not modelled. The modelled calculator always returns an assessment with a fee, so the branch cannot be reached.
- `datetime.now()` is replaced by the parameter `now`. `strftime` date formatting is left out: the success messages' due date is the integer due time, and the report's `current_borrows` lists the records themselves. The stored `is_overdue` flag is not modelled.
- Floating point and `round(...)`: amounts are integer cents. Refund amounts that are not whole cents are not modelled.
- Strings are modelled on ASCII. `strip` removes tab to carriage return, U+001C to U+001F and space, as Python does for ASCII; the non-ASCII whitespace Python also strips (U+0085, U+00A0, U+1680, U+2000 to U+200A, U+2028, U+2029, U+202F, U+205F, U+3000) is treated as ordinary text. `lower` maps only A to Z, and `isdigit` accepts only 0 to 9: non-ASCII case mappings and digits are not modelled.
- Message texts are replaced by distinguishing error constructors. The gateway's own message is carried through.
- `Reports.OverdueEntries`: an entry carries the book id instead of the joined `title` column of the borrowed-books query.
- `isinstance(total_copies, int)` is implied by the parameter's type.
- Concurrency is not modelled; the service is single-threaded.
