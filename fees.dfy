/** The tiered late-fee calculator. Money is held in cents; time in
    seconds. Overdue days are whole days, rounded down. */
module Fees {
  import opened Wrappers
  import opened Store

  const DAY := 86400
  const LOAN_DAYS := 14
  /** Days charged at the first-tier rate. */
  const FIRST_TIER_DAYS := 7
  const FIRST_TIER_CENTS := 50
  const SECOND_TIER_CENTS := 100
  const FEE_CAP_CENTS := 1500
  /** The first whole overdue day at which the cap is reached: 18 days
      cost 7 * 50 + 11 * 100 == 1450, 19 days would cost 1550. */
  const CAP_DAY := 19

  /** Whole days from `due` to `now`, rounded down like `timedelta.days`. */
  function DaysOverdue(due: int, now: int): (d: nat)
    requires now > due
    ensures d * DAY <= now - due < (d + 1) * DAY
  {
    (now - due) / DAY
  }

  /** The tiered fee before the cap: 50 cents a day for the first seven
      days, a dollar a day after that. */
  function UncappedFee(d: nat): nat {
    if d <= FIRST_TIER_DAYS then d * FIRST_TIER_CENTS
    else FIRST_TIER_DAYS * FIRST_TIER_CENTS + (d - FIRST_TIER_DAYS) * SECOND_TIER_CENTS
  }

  function Min(a: int, b: int): int {
    if a <= b then a else b
  }

  function Max(a: int, b: int): int {
    if a <= b then b else a
  }

  /** The fee for `d` whole overdue days, capped at $15.00. */
  function CappedFee(d: nat): (c: nat)
    ensures c <= FEE_CAP_CENTS
    ensures c == FEE_CAP_CENTS <==> d >= CAP_DAY
    ensures c == 0 <==> d == 0
    ensures c % FIRST_TIER_CENTS == 0
  {
    Min(UncappedFee(d), FEE_CAP_CENTS)
  }

  /** The closed form of the fee schedule, stated independently of the
      tiers: `min(15.00, 0.50 * min(d, 7) + 1.00 * max(d - 7, 0))`. */
  function FeeFormula(d: nat): int {
    Min(FEE_CAP_CENTS, FIRST_TIER_CENTS * Min(d, FIRST_TIER_DAYS)
                       + SECOND_TIER_CENTS * Max(d - FIRST_TIER_DAYS, 0))
  }

  lemma CappedFeeIsFormula(d: nat)
    ensures CappedFee(d) == FeeFormula(d)
  {
  }

  /** More overdue days never cost less, and cost strictly more until the
      cap is reached. */
  lemma FeeMonotone(d1: nat, d2: nat)
    requires d1 <= d2
    ensures CappedFee(d1) <= CappedFee(d2)
    ensures d1 < d2 <= CAP_DAY ==> CappedFee(d1) < CappedFee(d2)
  {
  }

  /** The fee at the edges of the two tiers and of the cap. */
  lemma FeeBoundaries()
    ensures CappedFee(7) == 350 && CappedFee(8) == 450
    ensures CappedFee(17) == 1350 && CappedFee(18) == 1450 && CappedFee(19) == 1500
    ensures CappedFee(30) == 1500 && CappedFee(100) == 1500
  {
  }

  datatype FeeStatus =
    | NoActiveRecord
    | NotOverdue
    /** A late-fee message; `maximumApplied` marks " (maximum fee applied)". */
    | LateFee(maximumApplied: bool)

  datatype FeeAssessment = FeeAssessment(feeCents: nat, daysOverdue: nat, status: FeeStatus)

  /** The assessment of one loan (or of its absence) at time `now`. */
  function Assess(loan: Option<BorrowRecord>, now: int): (a: FeeAssessment)
    ensures a.feeCents <= FEE_CAP_CENTS
    ensures loan.None? ==> a == FeeAssessment(0, 0, NoActiveRecord)
    ensures loan.Some? && now <= loan.value.dueDate ==> a == FeeAssessment(0, 0, NotOverdue)
    ensures loan.Some? && now > loan.value.dueDate ==>
      && a.daysOverdue * DAY <= now - loan.value.dueDate < (a.daysOverdue + 1) * DAY
      && a.feeCents == FeeFormula(a.daysOverdue)
      && a.status == LateFee(a.daysOverdue >= CAP_DAY)
    ensures a.feeCents > 0 <==> loan.Some? && now - loan.value.dueDate >= DAY
  {
    match loan
    case None => FeeAssessment(0, 0, NoActiveRecord)
    case Some(r) =>
      if now <= r.dueDate then FeeAssessment(0, 0, NotOverdue)
      else
        var d := DaysOverdue(r.dueDate, now);
        var fee := CappedFee(d);
        CappedFeeIsFormula(d);
        FeeAssessment(fee, d, LateFee(fee >= FEE_CAP_CENTS))
  }

  /** `calculate_late_fee_for_book`: the patron's first outstanding loan of
      the book decides the fee. The patron id is not checked here. */
  function LateFeeFor(records: seq<BorrowRecord>, patron: string, bookId: int, now: int): (a: FeeAssessment)
    ensures a.feeCents <= FEE_CAP_CENTS
    ensures FindLoan(ActiveBorrows(records, patron), bookId).None? ==> a.status == NoActiveRecord && a.feeCents == 0
    ensures a.feeCents > 0 ==> exists r :: r in records && ActiveFor(r, patron) && r.bookId == bookId
                                         && now - r.dueDate >= DAY
  {
    ActiveBorrowsMembers(records, patron);
    Assess(FindLoan(ActiveBorrows(records, patron), bookId), now)
  }

  /** The fee after `borrow_book_by_patron` records a loan made at `now`:
      a patron who already held the book is still charged for the earlier
      loan; otherwise the new loan is charged nothing up to its due date
      and a positive fee from a whole day after it. */
  lemma FeeAfterBorrow(records: seq<BorrowRecord>, patron: string, bookId: int, now: int, t: int)
    ensures
      var loan := BorrowRecord(patron, bookId, now, now + LOAN_DAYS * DAY, None);
      var held := FindLoan(ActiveBorrows(records, patron), bookId);
      var after := LateFeeFor(records + [loan], patron, bookId, t);
      && (held.Some? ==> after == LateFeeFor(records, patron, bookId, t))
      && (held.None? && t <= now + LOAN_DAYS * DAY ==> after == FeeAssessment(0, 0, NotOverdue))
      && (held.None? && t >= now + (LOAN_DAYS + 1) * DAY ==> after.feeCents > 0)
  {
    var loan := BorrowRecord(patron, bookId, now, now + LOAN_DAYS * DAY, None);
    ActiveBorrowsAppend(records, patron, loan);
    FindLoanAppend(ActiveBorrows(records, patron), loan, bookId);
  }
}
