/**
 * The borrowing endpoints (books/views.py): the borrow and return handlers,
 * each one atomic step on the Store, their composition with the request
 * validators that run first, the active-borrow listing, and the write
 * permission used by the catalogue endpoints.
 */
module Views {
  import opened Wrappers
  import opened Models
  import Serializers

  /** At most this many active borrows per user. */
  const MaxActiveBorrows: nat := 3

  /** HTTP methods that only read. */
  const SafeMethods: set<string> := {"GET", "HEAD", "OPTIONS"}

  /** `IsAdminOrReadOnly.has_permission`: anyone may read; only staff may write. */
  function HasPermission(httpMethod: string, isStaff: bool): (allowed: bool)
    ensures httpMethod in SafeMethods ==> allowed
    ensures httpMethod !in SafeMethods ==> (allowed <==> isStaff)
  {
    if httpMethod in SafeMethods then true else isStaff
  }

  /** `list_user_borrows`: the user's borrows that have not been returned, in store order. */
  function ListUserBorrows(borrows: seq<Borrow>, user: UserId): (r: seq<Borrow>)
    ensures |r| <= |borrows|
    ensures forall i :: 0 <= i < |r| ==> r[i].user == user && IsActive(r[i])
  {
    if |borrows| == 0 then []
    else
      var last := borrows[|borrows| - 1];
      ListUserBorrows(borrows[..|borrows| - 1], user) + (if last.user == user && IsActive(last) then [last] else [])
  }

  /** The listing holds exactly the user's active borrows. */
  lemma {:induction false} ListUserBorrowsMembers(borrows: seq<Borrow>, user: UserId)
    ensures forall b :: b in ListUserBorrows(borrows, user) <==> b in borrows && b.user == user && IsActive(b)
    decreases |borrows|
  {
    if |borrows| > 0 {
      var init := borrows[..|borrows| - 1];
      ListUserBorrowsMembers(init, user);
      assert borrows == init + [borrows[|borrows| - 1]];
    }
  }

  lemma ListUserBorrowsAppend(borrows: seq<Borrow>, b: Borrow, user: UserId)
    ensures ListUserBorrows(borrows + [b], user) ==
      ListUserBorrows(borrows, user) + (if b.user == user && IsActive(b) then [b] else [])
  {
  }

  /** Closing one of the user's active borrows removes it from their list. */
  lemma {:induction false} ListUserBorrowsShrinks(borrows: seq<Borrow>, k: nat, closed: Borrow)
    requires k < |borrows| && IsActive(borrows[k]) && !IsActive(closed)
    ensures |ListUserBorrows(borrows[k := closed], borrows[k].user)| + 1
         == |ListUserBorrows(borrows, borrows[k].user)|
    decreases |borrows|
  {
    var n := |borrows|;
    var user := borrows[k].user;
    assert borrows[k := closed][..n - 1] == if k < n - 1 then borrows[..n - 1][k := closed] else borrows[..n - 1];
    if k < n - 1 {
      ListUserBorrowsShrinks(borrows[..n - 1], k, closed);
    }
  }

  datatype BorrowResponse =
    | Created(borrow: Borrow)
    | LimitExceeded
    | OutOfStock
    | BookNotFound
    | BorrowRejected(error: Serializers.ValidationError)

  datatype ReturnResponse =
    | Returned(penaltyPointsAdded: nat, totalPenaltyPoints: nat, borrow: Borrow)
    | BorrowNotFound
    | ReturnRejected(error: Serializers.ValidationError)

  function BorrowStatus(r: BorrowResponse): nat {
    match r
    case Created(_) => 201
    case BookNotFound => 404
    case _ => 400
  }

  function ReturnStatus(r: ReturnResponse): nat {
    match r
    case Returned(_, _, _) => 200
    case BorrowNotFound => 404
    case ReturnRejected(_) => 400
  }

  /** Number of borrows `user` still holds: the count of the same query the listing runs. */
  function ActiveCount(borrows: seq<Borrow>, user: UserId): (n: nat)
    ensures n == |ListUserBorrows(borrows, user)|
  {
    if |borrows| == 0 then 0
    else
      var last := borrows[|borrows| - 1];
      ActiveCount(borrows[..|borrows| - 1], user) + (if last.user == user && IsActive(last) then 1 else 0)
  }

  /**
   * The body of `borrow_book` once the payload is valid: refuse a user at
   * the limit, a missing book or a book with no copy left; otherwise record
   * a 14-day borrow and take one copy off the shelf.
   */
  method BorrowBook(store: Store, user: UserId, bookId: BookId, now: Time) returns (resp: BorrowResponse)
    requires store.Valid()
    requires user in store.penaltyPoints
    modifies store
    ensures store.Valid()
    ensures resp.Created? || resp.LimitExceeded? || resp.BookNotFound? || resp.OutOfStock?
    ensures resp.LimitExceeded? <==> ActiveCount(old(store.borrows), user) >= MaxActiveBorrows
    ensures resp.BookNotFound? <==>
      ActiveCount(old(store.borrows), user) < MaxActiveBorrows && bookId !in old(store.books)
    ensures resp.OutOfStock? <==>
      && ActiveCount(old(store.borrows), user) < MaxActiveBorrows
      && bookId in old(store.books) && old(store.books[bookId]).availableCopies == 0
    ensures !resp.Created? ==> unchanged(store)
    ensures resp.Created? ==>
      && resp.borrow == Borrow(old(store.nextBorrowId), user, bookId, now, now + LoanPeriod, None)
      && store.borrows == old(store.borrows) + [resp.borrow]
      && bookId in old(store.books) && old(store.books[bookId]).availableCopies > 0
      && store.books == CheckedOut(old(store.books), bookId)
      && store.penaltyPoints == old(store.penaltyPoints)
      && store.nextBorrowId == old(store.nextBorrowId) + 1
    ensures resp.Created? ==> ActiveCount(store.borrows, user) == ActiveCount(old(store.borrows), user) + 1
    ensures Holdings(store.books, store.borrows) == old(Holdings(store.books, store.borrows))
  {
    ghost var books0, borrows0 := store.books, store.borrows;
    var active := ActiveCount(store.borrows, user);
    if active >= MaxActiveBorrows {
      return LimitExceeded;
    }
    if bookId !in store.books {
      return BookNotFound;
    }
    var book := store.books[bookId];
    if book.availableCopies <= 0 {
      return OutOfStock;
    }
    var borrow := store.CreateBorrow(user, bookId, Some(now + LoanPeriod), now);
    book := book.(availableCopies := book.availableCopies - 1);
    store.SaveBook(book);
    assert store.books == CheckedOut(books0, bookId);
    ListUserBorrowsAppend(borrows0, borrow, user);
    CheckOutConserves(books0, borrows0, borrow);
    resp := Created(borrow);
  }

  /**
   * The body of `return_book` once the payload is valid: close the borrow
   * at `now`, charge any late penalty to its user and put the copy back on
   * the shelf (subject to the Book clamp). The handler itself does not
   * re-check that the borrow is still active or whose it is.
   */
  method ReturnBook(store: Store, borrowId: BorrowId, now: Time) returns (resp: ReturnResponse)
    requires store.Valid()
    modifies store
    ensures store.Valid()
    ensures resp.Returned? || resp.BorrowNotFound?
    ensures FindBorrow(old(store.borrows), borrowId).None? ==> resp.BorrowNotFound? && unchanged(store)
    ensures FindBorrow(old(store.borrows), borrowId).Some? ==>
      var k := FindBorrow(old(store.borrows), borrowId).value;
      var closed := old(store.borrows[k]).(returnDate := Some(now));
      var penalty := CalculatePenaltyOnReturn(closed);
      var book := old(store.books[closed.book]);
      var points := old(store.penaltyPoints[closed.user]);
      && resp == Returned(penalty, points + penalty, closed)
      && store.borrows == old(store.borrows)[k := closed]
      && store.penaltyPoints ==
           (if penalty > 0 then old(store.penaltyPoints)[closed.user := points + penalty]
            else old(store.penaltyPoints))
      && closed.book in old(store.books)
      && store.books == CheckedIn(old(store.books), closed.book)
    ensures forall u :: u in old(store.penaltyPoints) ==>
      u in store.penaltyPoints && store.penaltyPoints[u] >= old(store.penaltyPoints[u])
    ensures store.nextBorrowId == old(store.nextBorrowId)
    ensures FindBorrow(old(store.borrows), borrowId).Some? ==>
      var b := old(store.borrows[FindBorrow(store.borrows, borrowId).value]);
      b.book in old(store.books) &&
      (IsActive(b) && old(store.books[b.book]).availableCopies < old(store.books[b.book]).totalCopies ==>
        Holdings(store.books, store.borrows) == old(Holdings(store.books, store.borrows)))
  {
    ghost var books0, borrows0, points0 := store.books, store.borrows, store.penaltyPoints;
    var found := FindBorrow(store.borrows, borrowId);
    if found.None? {
      return BorrowNotFound;
    }
    var borrow := store.borrows[found.value];
    var book := store.books[borrow.book];
    var points := store.penaltyPoints[borrow.user];
    ghost var open := borrow;
    borrow := borrow.(returnDate := Some(now));
    var penalty := CalculatePenaltyOnReturn(borrow);
    if penalty > 0 {
      points := points + penalty;
      store.SavePenaltyPoints(borrow.user, points);
    }
    store.SaveBorrow(borrow);
    assert store.borrows == borrows0[found.value := borrow];
    var row := book.(availableCopies := book.availableCopies + 1);
    store.SaveBook(row);
    assert store.books == CheckedIn(books0, borrow.book);
    if IsActive(open) && book.availableCopies < book.totalCopies {
      CheckInConserves(books0, borrows0, found.value, borrow);
    }
    resp := Returned(penalty, points, borrow);
  }

  /**
   * `borrow_book` as a request: validate the book id, then run the handler.
   * A book the validator found can no longer be missing in the same atomic
   * step, so the handler's not-found answer is unreachable.
   */
  method BorrowBookRequest(store: Store, user: UserId, bookId: BookId, now: Time) returns (resp: BorrowResponse)
    requires store.Valid()
    requires user in store.penaltyPoints
    modifies store
    ensures store.Valid()
    ensures Serializers.ValidateBookId(old(store.books), bookId).Failure? ==>
      resp == BorrowRejected(Serializers.ValidateBookId(old(store.books), bookId).error)
    ensures !resp.BookNotFound? && BorrowStatus(resp) != 404
    ensures resp.LimitExceeded? <==>
      Serializers.ValidateBookId(old(store.books), bookId).Success? &&
      ActiveCount(old(store.borrows), user) >= MaxActiveBorrows
    ensures resp.Created? <==>
      && bookId in old(store.books) && old(store.books[bookId]).availableCopies > 0
      && ActiveCount(old(store.borrows), user) < MaxActiveBorrows
    ensures !resp.Created? ==> unchanged(store)
    ensures resp.Created? ==>
      && resp.borrow == Borrow(old(store.nextBorrowId), user, bookId, now, now + LoanPeriod, None)
      && store.borrows == old(store.borrows) + [resp.borrow]
      && store.books == CheckedOut(old(store.books), bookId)
      && store.nextBorrowId == old(store.nextBorrowId) + 1
      && ActiveCount(store.borrows, user) == ActiveCount(old(store.borrows), user) + 1
      && store.penaltyPoints == old(store.penaltyPoints)
    ensures Balanced(old(store.books), old(store.borrows)) ==> Balanced(store.books, store.borrows)
  {
    var valid := Serializers.ValidateBookId(store.books, bookId);
    if valid.Failure? {
      return BorrowRejected(valid.error);
    }
    ghost var books0, borrows0 := store.books, store.borrows;
    resp := BorrowBook(store, user, valid.value, now);
    if Balanced(books0, borrows0) && resp.Created? {
      BalancedByHoldings(books0, borrows0, store.books, store.borrows);
    }
  }

  /**
   * `return_book` as a request: validate the borrow id against the
   * requesting user, then run the handler. Only an active borrow of the
   * requester reaches the handler, and in a balanced store its copy always
   * fits under the total, so the return conserves copies.
   */
  method ReturnBookRequest(store: Store, requester: UserId, borrowId: BorrowId, now: Time)
    returns (resp: ReturnResponse)
    requires store.Valid()
    modifies store
    ensures store.Valid()
    ensures Serializers.ValidateBorrowId(old(store.borrows), Some(requester), borrowId).Failure? ==>
      && resp == ReturnRejected(Serializers.ValidateBorrowId(old(store.borrows), Some(requester), borrowId).error)
      && unchanged(store)
    ensures !resp.BorrowNotFound? && ReturnStatus(resp) != 404
    ensures resp.Returned? <==> Serializers.ValidateBorrowId(old(store.borrows), Some(requester), borrowId).Success?
    ensures resp.Returned? ==>
      && FindBorrow(old(store.borrows), borrowId).Some?
      && var k := FindBorrow(old(store.borrows), borrowId).value;
      && resp.borrow == old(store.borrows[k]).(returnDate := Some(now))
      && store.borrows == old(store.borrows)[k := resp.borrow]
      && resp.borrow.id == borrowId && resp.borrow.user == requester
      && resp.penaltyPointsAdded == CalculatePenaltyOnReturn(resp.borrow)
      && requester in old(store.penaltyPoints)
      && store.penaltyPoints ==
           old(store.penaltyPoints)[requester := old(store.penaltyPoints[requester]) + resp.penaltyPointsAdded]
      && resp.totalPenaltyPoints == store.penaltyPoints[requester]
      && ActiveCount(store.borrows, requester) + 1 == ActiveCount(old(store.borrows), requester)
      && resp.borrow.book in old(store.books)
      && store.books == CheckedIn(old(store.books), resp.borrow.book)
      && store.nextBorrowId == old(store.nextBorrowId)
    ensures Balanced(old(store.books), old(store.borrows)) ==> Balanced(store.books, store.borrows)
  {
    var valid := Serializers.ValidateBorrowId(store.borrows, Some(requester), borrowId);
    if valid.Failure? {
      return ReturnRejected(valid.error);
    }
    ghost var books0, borrows0 := store.books, store.borrows;
    ghost var k := FindBorrow(store.borrows, borrowId).value;
    ListUserBorrowsShrinks(borrows0, k, borrows0[k].(returnDate := Some(now)));
    ghost var points0 := store.penaltyPoints;
    resp := ReturnBook(store, valid.value, now);
    assert resp.Returned? ==> store.penaltyPoints == points0[requester := points0[requester] + resp.penaltyPointsAdded];
    if Balanced(books0, borrows0) {
      BalancedLeavesRoom(books0, borrows0, k);
      BalancedByHoldings(books0, borrows0, store.books, store.borrows);
    }
  }
}
