/**
 * Walkthroughs of the lending rules, proved from the contracts of the request
 * endpoints and the validators: the last copy, the borrow limit, a late return, a second return
 * and a return by someone else.
 */
module Scenarios {
  import opened Models
  import opened Views
  import Serializers

  /** One copy: the first borrower gets it for 14 days, the next one is turned away. */
  method LastCopy(now: Time) {
    var store := new Store(map[7 := Book(7, 1, 1)], map[1 := 0, 2 := 0]);
    var first := BorrowBookRequest(store, 1, 7, now);
    assert first.Created?;
    assert store.books[7].availableCopies == 0;
    assert first.borrow.dueDate == first.borrow.borrowDate + LoanPeriod;
    var second := BorrowBookRequest(store, 2, 7, now);
    assert second == BorrowRejected(Serializers.NoCopiesAvailable);
    assert store.books[7].availableCopies == 0;
  }

  /** A user holding three books cannot borrow a fourth. */
  method FourthBorrow(now: Time) {
    var store := new Store(map[7 := Book(7, 5, 5)], map[1 := 0]);
    var r := BorrowBookRequest(store, 1, 7, now);
    assert r.Created?;
    r := BorrowBookRequest(store, 1, 7, now);
    assert r.Created?;
    r := BorrowBookRequest(store, 1, 7, now);
    assert r.Created? && ActiveCount(store.borrows, 1) == 3;
    var count := |store.borrows|;
    r := BorrowBookRequest(store, 1, 7, now);
    assert r == LimitExceeded;
    assert |store.borrows| == count && store.books[7].availableCopies == 2;
  }

  /** Returned five days and three hours late: five points, and the copy is back. */
  method LateReturn(now: Time) {
    var store := new Store(map[7 := Book(7, 1, 1)], map[1 := 0]);
    var b := BorrowBookRequest(store, 1, 7, now);
    assert b.Created?;
    PenaltyFiveDaysThreeHoursLate(b.borrow);
    var r := ReturnBookRequest(store, 1, b.borrow.id, b.borrow.dueDate + 5 * MicrosPerDay + 3 * MicrosPerHour);
    assert r.Returned? && r.penaltyPointsAdded == 5 && r.totalPenaltyPoints == 5;
    assert store.books[7].availableCopies == 1;
  }

  /** A second return of the same borrow is refused and changes nothing. */
  method SecondReturn(now: Time) {
    var store := new Store(map[7 := Book(7, 1, 1)], map[1 := 0]);
    var b := BorrowBookRequest(store, 1, 7, now);
    assert b.Created?;
    var r := ReturnBookRequest(store, 1, b.borrow.id, now);
    assert r.Returned?;
    var points, copies := store.penaltyPoints[1], store.books[7].availableCopies;
    r := ReturnBookRequest(store, 1, b.borrow.id, now);
    assert r == ReturnRejected(Serializers.AlreadyReturned);
    assert store.penaltyPoints[1] == points && store.books[7].availableCopies == copies;
  }

  /** Only the borrower may return a book. */
  method StrangerReturn(now: Time) {
    var store := new Store(map[7 := Book(7, 1, 1)], map[1 := 0, 2 := 0]);
    var b := BorrowBookRequest(store, 1, 7, now);
    assert b.Created?;
    var r := ReturnBookRequest(store, 2, b.borrow.id, now);
    assert r == ReturnRejected(Serializers.NotOwnBorrow);
    assert store.books[7].availableCopies == 0;
  }
}
