/** Late-fee payment and refund against an injected payment gateway. The
    gateway is not run: its reply is an input, and each outcome records the
    request the service actually sent, so `None` means the gateway was
    never called. A gateway exception is the reply `Raised`. */
module Payments {
  import opened Wrappers
  import opened Store
  import opened Fees
  import opened Validation

  /** What `process_payment` answers: approval with a transaction id,
      a decline, or an exception. */
  datatype PaymentReply =
    | Approved(transactionId: string, message: string)
    | Declined(message: string)
    | Raised(message: string)

  /** What `refund_payment` answers. */
  datatype RefundReply =
    | Refunded(message: string)
    | RefundRefused(message: string)
    | RefundRaised(message: string)

  /** The arguments of a `process_payment` call; `bookTitle` stands for the
      description "Late fees for '<title>'". */
  datatype ChargeRequest = ChargeRequest(patronId: string, amountCents: int, bookTitle: string)

  datatype RefundRequest = RefundRequest(transactionId: string, amountCents: int)

  datatype PayError =
    | InvalidPatronId
    | NoLateFees
    | BookNotFound
    | PaymentFailed(message: string)
    | PaymentProcessingError(message: string)

  datatype PayResult =
    | Paid(transactionId: string, message: string)
    | PayFailed(error: PayError)

  datatype PayOutcome = PayOutcome(result: PayResult, charge: Option<ChargeRequest>)

  datatype RefundResult =
    | RefundDone(message: string)
    | RefundFailed(error: RefundError)

  datatype RefundOutcome = RefundOutcome(result: RefundResult, request: Option<RefundRequest>)

  /** `pay_late_fees(patron, book)` against the store contents `books` and
      `records` at time `now`, with `reply` the gateway's answer if asked. */
  function PayLateFees(books: seq<Book>, records: seq<BorrowRecord>, patron: string, bookId: int,
                       now: int, reply: PaymentReply): (o: PayOutcome)
    // The gateway is called exactly when the id is valid, a fee is due and the book exists.
    ensures o.charge.Some? <==>
      PatronIdOk(patron) && LateFeeFor(records, patron, bookId, now).feeCents > 0
      && FindBook(books, bookId).Some?
    // It is asked for exactly the computed fee, which lies in (0, 15.00].
    ensures o.charge.Some? ==>
      && o.charge.value.patronId == patron
      && o.charge.value.amountCents == LateFeeFor(records, patron, bookId, now).feeCents
      && 0 < o.charge.value.amountCents <= FEE_CAP_CENTS
      && o.charge.value.bookTitle == FindBook(books, bookId).value.title
    // A transaction id comes back only from an approving gateway that was called.
    ensures o.result.Paid? <==> o.charge.Some? && reply.Approved?
    ensures o.result.Paid? ==> o.result.transactionId == reply.transactionId
    ensures !PatronIdOk(patron) ==> o.result == PayFailed(InvalidPatronId)
    ensures PatronIdOk(patron) && LateFeeFor(records, patron, bookId, now).feeCents == 0
            ==> o.result == PayFailed(NoLateFees)
    ensures PatronIdOk(patron) && LateFeeFor(records, patron, bookId, now).feeCents > 0 && FindBook(books, bookId).None?
            ==> o.result == PayFailed(BookNotFound)
    ensures o.charge.Some? && reply.Declined? ==> o.result == PayFailed(PaymentFailed(reply.message))
    ensures o.charge.Some? && reply.Raised? ==> o.result == PayFailed(PaymentProcessingError(reply.message))
  {
    if !PatronIdOk(patron) then PayOutcome(PayFailed(InvalidPatronId), None)
    else
      var fee := LateFeeFor(records, patron, bookId, now);
      if fee.feeCents <= 0 then PayOutcome(PayFailed(NoLateFees), None)
      else
        match FindBook(books, bookId)
        case None => PayOutcome(PayFailed(BookNotFound), None)
        case Some(book) =>
          var charge := Some(ChargeRequest(patron, fee.feeCents, book.title));
          match reply
          case Approved(txn, msg) => PayOutcome(Paid(txn, msg), charge)
          case Declined(msg) => PayOutcome(PayFailed(PaymentFailed(msg)), charge)
          case Raised(msg) => PayOutcome(PayFailed(PaymentProcessingError(msg)), charge)
  }

  /** `refund_late_fee_payment(txn, amount)`, the amount in cents. */
  function RefundLateFee(txn: string, amountCents: int, reply: RefundReply): (o: RefundOutcome)
    // The gateway is called exactly when the id has the `txn_` prefix and 0 < amount <= 15.00.
    ensures o.request.Some? <==> TransactionIdOk(txn) && 0 < amountCents <= MAX_REFUND_CENTS
    ensures o.request.Some? ==> o.request.value == RefundRequest(txn, amountCents)
    ensures o.result.RefundDone? <==> o.request.Some? && reply.Refunded?
    ensures o.request.None? ==> o.result == RefundFailed(CheckRefund(txn, amountCents).value)
    ensures o.request.Some? && reply.RefundRefused? ==> o.result == RefundFailed(RefundDeclined(reply.message))
    ensures o.request.Some? && reply.RefundRaised? ==> o.result == RefundFailed(RefundProcessingError(reply.message))
  {
    match CheckRefund(txn, amountCents)
    case Some(e) => RefundOutcome(RefundFailed(e), None)
    case None =>
      var request := Some(RefundRequest(txn, amountCents));
      match reply
      case Refunded(msg) => RefundOutcome(RefundDone(msg), request)
      case RefundRefused(msg) => RefundOutcome(RefundFailed(RefundDeclined(msg)), request)
      case RefundRaised(msg) => RefundOutcome(RefundFailed(RefundProcessingError(msg)), request)
  }

  /** The refund limit matches the fee cap: whatever `pay_late_fees`
      charged under a `txn_` transaction can be refunded in full. */
  lemma ChargedFeeIsRefundable(books: seq<Book>, records: seq<BorrowRecord>, patron: string, bookId: int,
                               now: int, reply: PaymentReply, refundReply: RefundReply)
    requires reply.Approved? && TransactionIdOk(reply.transactionId)
    requires PayLateFees(books, records, patron, bookId, now, reply).result.Paid?
    ensures
      var paid := PayLateFees(books, records, patron, bookId, now, reply);
      RefundLateFee(paid.result.transactionId, paid.charge.value.amountCents, refundReply).request.Some?
  {
  }

  /** The refund bounds the tests pin: 15.00 is accepted, 15.01, 0 and
      negative amounts are refused without a gateway call. */
  lemma RefundBoundaries(reply: RefundReply)
    ensures RefundLateFee("txn_abc123", 1500, reply).request.Some?
    ensures RefundLateFee("txn_abc123", 1501, reply).result == RefundFailed(AmountExceedsMaximum)
    ensures RefundLateFee("txn_abc123", 0, reply).result == RefundFailed(AmountNotPositive)
    ensures RefundLateFee("txn_abc123", -500, reply).result == RefundFailed(AmountNotPositive)
    ensures RefundLateFee("invalid_txn", 500, reply).result == RefundFailed(InvalidTransactionId)
  {
  }
}
