/** The input gates of the library service: the patron card number, the
    fields of a new catalogue entry, the payment transaction id and the
    refund amount. Each is checked before the store or the payment gateway
    is consulted. */
module Validation {
  import opened Wrappers
  import opened Text

  const PATRON_ID_LENGTH := 6
  const MAX_TITLE_LENGTH := 200
  const MAX_AUTHOR_LENGTH := 100
  const ISBN_LENGTH := 13
  const TRANSACTION_PREFIX := "txn_"
  /** The largest refund, in cents: the maximum late fee for one book. */
  const MAX_REFUND_CENTS := 1500

  /** The patron-id gate shared by borrow, return, status report and
      payment: `not p or not p.isdigit() or len(p) != 6` rejects. */
  function PatronIdOk(p: string): (ok: bool)
    ensures ok <==> |p| == PATRON_ID_LENGTH && forall i | 0 <= i < |p| :: IsDigitChar(p[i])
  {
    !(p == [] || !IsDigitString(p) || |p| != PATRON_ID_LENGTH)
  }

  /** The ways `add_book_to_catalog` can refuse a book. The first six are
      field checks; the last two involve the store. */
  datatype AddError =
    | TitleRequired
    | TitleTooLong
    | AuthorRequired
    | AuthorTooLong
    | IsbnWrongLength
    | CopiesNotPositive
    | DuplicateIsbn
    | DatabaseError

  /** The field checks of a new book, in the source's order; the first
      failure wins. The ISBN is checked for its length only. */
  function CheckBookFields(title: string, author: string, isbn: string, copies: int): (e: Option<AddError>)
    ensures e != Some(DuplicateIsbn) && e != Some(DatabaseError)
    ensures e == Some(TitleRequired) <==> AllSpace(title)
    ensures e == Some(TitleTooLong) <==> !AllSpace(title) && |Strip(title)| > MAX_TITLE_LENGTH
    ensures e == Some(AuthorRequired) <==>
      !AllSpace(title) && |Strip(title)| <= MAX_TITLE_LENGTH && AllSpace(author)
    ensures e == Some(AuthorTooLong) <==>
      !AllSpace(title) && |Strip(title)| <= MAX_TITLE_LENGTH
      && !AllSpace(author) && |Strip(author)| > MAX_AUTHOR_LENGTH
    ensures e == Some(IsbnWrongLength) <==>
      !AllSpace(title) && |Strip(title)| <= MAX_TITLE_LENGTH
      && !AllSpace(author) && |Strip(author)| <= MAX_AUTHOR_LENGTH
      && |isbn| != ISBN_LENGTH
    ensures e == Some(CopiesNotPositive) <==>
      !AllSpace(title) && |Strip(title)| <= MAX_TITLE_LENGTH
      && !AllSpace(author) && |Strip(author)| <= MAX_AUTHOR_LENGTH
      && |isbn| == ISBN_LENGTH && copies <= 0
    ensures e == None <==>
      !AllSpace(title) && |Strip(title)| <= MAX_TITLE_LENGTH
      && !AllSpace(author) && |Strip(author)| <= MAX_AUTHOR_LENGTH
      && |isbn| == ISBN_LENGTH && copies > 0
  {
    if title == [] || Strip(title) == [] then Some(TitleRequired)
    else if |Strip(title)| > MAX_TITLE_LENGTH then Some(TitleTooLong)
    else if author == [] || Strip(author) == [] then Some(AuthorRequired)
    else if |Strip(author)| > MAX_AUTHOR_LENGTH then Some(AuthorTooLong)
    else if |isbn| != ISBN_LENGTH then Some(IsbnWrongLength)
    else if copies <= 0 then Some(CopiesNotPositive)
    else None
  }

  /** A transaction id the refund accepts: `txn_` followed by anything. */
  function TransactionIdOk(txn: string): (ok: bool)
    ensures ok <==> |txn| >= 4 && txn[0] == 't' && txn[1] == 'x' && txn[2] == 'n' && txn[3] == '_'
  {
    !(txn == [] || !StartsWith(txn, TRANSACTION_PREFIX))
  }

  datatype RefundError =
    | InvalidTransactionId
    | AmountNotPositive
    | AmountExceedsMaximum
    | RefundDeclined(message: string)
    | RefundProcessingError(message: string)

  /** The input checks of `refund_late_fee_payment`, in order. */
  function CheckRefund(txn: string, amountCents: int): (e: Option<RefundError>)
    ensures e.None? <==> TransactionIdOk(txn) && 0 < amountCents <= MAX_REFUND_CENTS
    ensures !TransactionIdOk(txn) ==> e == Some(InvalidTransactionId)
    ensures TransactionIdOk(txn) && amountCents <= 0 ==> e == Some(AmountNotPositive)
    ensures TransactionIdOk(txn) && amountCents > MAX_REFUND_CENTS ==> e == Some(AmountExceedsMaximum)
  {
    if !TransactionIdOk(txn) then Some(InvalidTransactionId)
    else if amountCents <= 0 then Some(AmountNotPositive)
    else if amountCents > MAX_REFUND_CENTS then Some(AmountExceedsMaximum)
    else None
  }

  /** "123456" passes the gate; "12A456", "123" and the empty id do not. */
  lemma PatronIdExamples()
    ensures PatronIdOk("123456")
    ensures !PatronIdOk("12A456") && !PatronIdOk("123") && !PatronIdOk("")
  {
    assert !IsDigitChar("12A456"[2]);
  }

  /** Only the ISBN's length is checked: thirteen letters pass. */
  lemma IsbnLengthOnly()
    ensures CheckBookFields("Book", "Author", "abcdefghijklm", 1) == None
  {
    assert !IsSpace("Book"[0]) && !IsSpace("Author"[0]);
  }
}
