/**
 * Request validation that runs before the borrow and return handlers
 * (books/serializers.py). Validators only look rows up and either reject
 * with a message or hand their input back unchanged.
 */
module Serializers {
  import opened Wrappers
  import opened Models

  datatype ValidationError =
    | AvailableExceedsTotal
    | BookNotFound
    | NoCopiesAvailable
    | BorrowNotFound
    | AlreadyReturned
    | NotOwnBorrow

  /** The copy counts of a Book create or update payload; either may be absent. */
  datatype BookAttrs = BookAttrs(totalCopies: Option<nat>, availableCopies: Option<nat>)

  /**
   * `BookSerializer.validate`: reject a payload whose available count exceeds
   * its total, an absent count reading as 0; otherwise pass it through.
   */
  function ValidateBook(attrs: BookAttrs): (r: Result<BookAttrs, ValidationError>)
    ensures r.Success? <==> attrs.availableCopies.GetOr(0) <= attrs.totalCopies.GetOr(0)
    ensures r.Success? ==> r.value == attrs
    ensures r.Failure? ==> r.error == AvailableExceedsTotal
  {
    var available := attrs.availableCopies.GetOr(0);
    var total := attrs.totalCopies.GetOr(0);
    if available > total then Failure(AvailableExceedsTotal) else Success(attrs)
  }

  /** Payloads that state both counts are accepted exactly when they satisfy the Book invariant. */
  lemma ValidateBookFullPayload(total: nat, available: nat)
    ensures ValidateBook(BookAttrs(Some(total), Some(available))).Success? <==> available <= total
  {
  }

  /**
   * A payload that updates only the available count is measured against a
   * total of 0, so any positive available count is rejected.
   */
  lemma ValidateBookAvailableOnly(available: nat)
    ensures ValidateBook(BookAttrs(None, Some(available))).Success? <==> available == 0
  {
  }

  /**
   * `BorrowCreateSerializer.validate_book_id`: the book must exist and have
   * a copy on the shelf.
   */
  function ValidateBookId(books: map<BookId, Book>, value: BookId): (r: Result<BookId, ValidationError>)
    ensures value !in books ==> r == Failure(BookNotFound)
    ensures value in books && books[value].availableCopies == 0 ==> r == Failure(NoCopiesAvailable)
    ensures r.Success? <==> value in books && books[value].availableCopies > 0
    ensures r.Success? ==> r.value == value
  {
    if value !in books then Failure(BookNotFound)
    else if books[value].availableCopies <= 0 then Failure(NoCopiesAvailable)
    else Success(value)
  }

  /**
   * `ReturnBookSerializer.validate_borrow_id`: the borrow must exist, must
   * not be returned yet and, when a request is in context, must belong to
   * its user. The three checks are made in that order.
   */
  function ValidateBorrowId(borrows: seq<Borrow>, requester: Option<UserId>, value: BorrowId)
    : (r: Result<BorrowId, ValidationError>)
    ensures FindBorrow(borrows, value).None? ==> r == Failure(BorrowNotFound)
    ensures FindBorrow(borrows, value).Some? && !IsActive(borrows[FindBorrow(borrows, value).value]) ==>
      r == Failure(AlreadyReturned)
    ensures r == Failure(NotOwnBorrow) <==>
      && FindBorrow(borrows, value).Some?
      && IsActive(borrows[FindBorrow(borrows, value).value])
      && requester.Some?
      && requester.value != borrows[FindBorrow(borrows, value).value].user
    ensures r.Success? <==>
      && FindBorrow(borrows, value).Some?
      && IsActive(borrows[FindBorrow(borrows, value).value])
      && (requester.None? || requester.value == borrows[FindBorrow(borrows, value).value].user)
    ensures r.Success? ==> r.value == value
  {
    var k := FindBorrow(borrows, value);
    if k.None? then Failure(BorrowNotFound)
    else if borrows[k.value].returnDate.Some? then Failure(AlreadyReturned)
    else if requester.Some? && requester.value != borrows[k.value].user then Failure(NotOwnBorrow)
    else Success(value)
  }

  /**
   * An accepted borrow id names an existing, active borrow that belongs to
   * the requester whenever there is one.
   */
  lemma ValidBorrowIdIsOwnActiveBorrow(borrows: seq<Borrow>, requester: Option<UserId>, value: BorrowId)
    requires ValidateBorrowId(borrows, requester, value).Success?
    ensures FindBorrow(borrows, value).Some?
    ensures IsActive(borrows[FindBorrow(borrows, value).value])
    ensures requester.Some? ==> borrows[FindBorrow(borrows, value).value].user == requester.value
  {
  }

  /** Without a request in context, the ownership check is skipped. */
  lemma ValidateBorrowIdWithoutRequest(borrows: seq<Borrow>, value: BorrowId)
    ensures ValidateBorrowId(borrows, None, value).Success? <==>
      FindBorrow(borrows, value).Some? && IsActive(borrows[FindBorrow(borrows, value).value])
  {
  }
}
