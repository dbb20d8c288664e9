/** The patron status report: outstanding loans, the remaining borrowing
    allowance and the late fees owed, as a specification the service's
    accumulating loop is proved against. */
module Reports {
  import opened Store
  import opened Fees
  import opened Validation

  /** The number of books a patron is meant to hold at once. */
  const BORROW_LIMIT := 5

  datatype OverdueEntry = OverdueEntry(bookId: int, daysOverdue: nat, feeCents: nat)

  /** `current` stands for the `current_borrows` list; its formatted dates
      are not modelled. */
  datatype Report =
    | InvalidPatronReport
    | PatronReport(
        patronId: string,
        totalBorrowed: nat,
        limitRemaining: int,
        totalFeesCents: int,
        overdue: seq<OverdueEntry>,
        current: seq<BorrowRecord>)

  /** Whether the fee assessed for this loan's book is positive; the fee is
      looked up by book, so it is the patron's first loan of that book that
      is assessed. */
  predicate IsCharged(records: seq<BorrowRecord>, patron: string, b: BorrowRecord, now: int) {
    LateFeeFor(records, patron, b.bookId, now).feeCents > 0
  }

  function EntryFor(records: seq<BorrowRecord>, patron: string, b: BorrowRecord, now: int): OverdueEntry {
    var a := LateFeeFor(records, patron, b.bookId, now);
    OverdueEntry(b.bookId, a.daysOverdue, a.feeCents)
  }

  /** One entry per loan of `borrows` with a positive fee, in loan order. */
  function OverdueEntries(records: seq<BorrowRecord>, patron: string, borrows: seq<BorrowRecord>, now: int)
    : (r: seq<OverdueEntry>)
    ensures |r| <= |borrows|
    ensures forall e | e in r :: 0 < e.feeCents <= FEE_CAP_CENTS
  {
    if borrows == [] then []
    else
      var front := borrows[..|borrows| - 1];
      var last := borrows[|borrows| - 1];
      OverdueEntries(records, patron, front, now)
      + (if IsCharged(records, patron, last, now) then [EntryFor(records, patron, last, now)] else [])
  }

  /** The overdue list holds an entry for exactly the charged loans. */
  lemma {:induction false} OverdueEntriesExact(records: seq<BorrowRecord>, patron: string,
                                               borrows: seq<BorrowRecord>, now: int)
    ensures forall b | b in borrows && IsCharged(records, patron, b, now) ::
      EntryFor(records, patron, b, now) in OverdueEntries(records, patron, borrows, now)
    ensures forall e | e in OverdueEntries(records, patron, borrows, now) ::
      exists b :: b in borrows && IsCharged(records, patron, b, now) && e == EntryFor(records, patron, b, now)
  {
    if borrows != [] {
      var front := borrows[..|borrows| - 1];
      assert borrows == front + [borrows[|borrows| - 1]];
      OverdueEntriesExact(records, patron, front, now);
    }
  }

  function TotalFees(entries: seq<OverdueEntry>): int {
    if entries == [] then 0
    else TotalFees(entries[..|entries| - 1]) + entries[|entries| - 1].feeCents
  }

  lemma OverdueEntriesSnoc(records: seq<BorrowRecord>, patron: string, borrows: seq<BorrowRecord>,
                           b: BorrowRecord, now: int)
    ensures OverdueEntries(records, patron, borrows + [b], now)
         == OverdueEntries(records, patron, borrows, now)
            + (if IsCharged(records, patron, b, now) then [EntryFor(records, patron, b, now)] else [])
  {
    assert (borrows + [b])[..|borrows|] == borrows;
  }

  lemma TotalFeesSnoc(entries: seq<OverdueEntry>, e: OverdueEntry)
    ensures TotalFees(entries + [e]) == TotalFees(entries) + e.feeCents
  {
    assert (entries + [e])[..|entries|] == entries;
  }

  /** The total of fees in a list of entries each in (0, 15.00] lies
      between nothing and fifteen dollars an entry, and is positive as soon
      as one entry is there. */
  lemma {:induction false} TotalFeesBounds(entries: seq<OverdueEntry>)
    requires forall e | e in entries :: 0 < e.feeCents <= FEE_CAP_CENTS
    ensures 0 <= TotalFees(entries) <= FEE_CAP_CENTS * |entries|
    ensures TotalFees(entries) == 0 <==> entries == []
  {
    if entries != [] {
      var front := entries[..|entries| - 1];
      assert forall e | e in front :: e in entries;
      TotalFeesBounds(front);
    }
  }

  /** `get_patron_status_report(patron)` against the records at time `now`. */
  function ReportOf(records: seq<BorrowRecord>, patron: string, now: int): (r: Report)
    ensures !PatronIdOk(patron) <==> r == InvalidPatronReport
    ensures r.PatronReport? ==>
      && r.patronId == patron
      && r.current == ActiveBorrows(records, patron)
      && r.totalBorrowed == BorrowCount(records, patron)
      && r.limitRemaining == BORROW_LIMIT - r.totalBorrowed
      && |r.overdue| <= r.totalBorrowed
      && 0 <= r.totalFeesCents <= FEE_CAP_CENTS * |r.overdue|
      && (r.totalFeesCents == 0 <==> r.overdue == [])
  {
    if !PatronIdOk(patron) then InvalidPatronReport
    else
      var borrows := ActiveBorrows(records, patron);
      var overdue := OverdueEntries(records, patron, borrows, now);
      TotalFeesBounds(overdue);
      PatronReport(patron, |borrows|, BORROW_LIMIT - |borrows|, TotalFees(overdue), overdue, borrows)
  }

  /** The limit check admits a sixth loan, after which the report's
      remaining allowance is negative. */
  lemma SixthLoanOverdrawsAllowance(records: seq<BorrowRecord>, patron: string, loan: BorrowRecord, now: int)
    requires PatronIdOk(patron) && BorrowCount(records, patron) == BORROW_LIMIT
    requires ActiveFor(loan, patron)
    ensures ReportOf(records + [loan], patron, now).limitRemaining == -1
  {
    ActiveBorrowsAppend(records, patron, loan);
  }
}
