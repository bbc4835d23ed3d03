/**
 * The Book and Borrow models of the lending service (books/models.py):
 * stored rows, the overdue and penalty arithmetic on their timestamps, and
 * an in-memory store standing for the database tables the handlers update.
 *
 * Times are timezone-aware instants written as integer microseconds; a
 * duration's `timedelta.days` is its floor division by a day's worth of
 * microseconds.
 */
module Models {
  import opened Wrappers

  type Time = int
  type BookId = int
  type UserId = int
  type BorrowId = int

  const MicrosPerDay: int := 86_400_000_000
  const MicrosPerHour: int := 3_600_000_000

  /** Default loan period: `timedelta(days=14)`. */
  const LoanDays: nat := 14
  const LoanPeriod: int := LoanDays * MicrosPerDay

  /** A stored Book row; catalogue fields (title, author, ...) carry no logic here. */
  datatype Book = Book(id: BookId, totalCopies: nat, availableCopies: nat)

  /** A stored Borrow row; `returnDate == None` means the borrow is active. */
  datatype Borrow = Borrow(
    id: BorrowId,
    user: UserId,
    book: BookId,
    borrowDate: Time,
    dueDate: Time,
    returnDate: Option<Time>)

  predicate IsActive(b: Borrow) {
    b.returnDate.None?
  }

  // ---------------------------------------------------------------------
  // Whole days of a duration
  // ---------------------------------------------------------------------

  /** `timedelta.days`: the number of whole days in `d`, rounded down. */
  function Days(d: int): (n: int)
    ensures n * MicrosPerDay <= d < (n + 1) * MicrosPerDay
    ensures d >= 0 ==> n >= 0
  {
    d / MicrosPerDay
  }

  /** The whole-day count is the unique `n` that brackets the duration. */
  lemma DaysUnique(d: int, n: int)
    requires n * MicrosPerDay <= d < (n + 1) * MicrosPerDay
    ensures Days(d) == n
  {
  }

  // ---------------------------------------------------------------------
  // Borrow.is_overdue, Borrow.days_overdue, Borrow.calculate_penalty_on_return
  // ---------------------------------------------------------------------

  /** Overdue at `now`: still out and past its due date. */
  function IsOverdue(b: Borrow, now: Time): (overdue: bool)
    ensures b.returnDate.Some? ==> !overdue
    ensures b.returnDate.None? ==> (overdue <==> now > b.dueDate)
  {
    if b.returnDate.Some? then false else now > b.dueDate
  }

  /** Whole days past the due date at `now`, or 0 when not overdue. */
  function DaysOverdue(b: Borrow, now: Time): (n: nat)
    ensures !IsOverdue(b, now) ==> n == 0
    ensures IsOverdue(b, now) ==>
      n * MicrosPerDay <= now - b.dueDate < (n + 1) * MicrosPerDay
  {
    if !IsOverdue(b, now) then 0 else Days(now - b.dueDate)
  }

  /** Penalty points earned on return: one per whole day between due and return date. */
  function CalculatePenaltyOnReturn(b: Borrow): (points: nat)
    ensures b.returnDate.None? ==> points == 0
    ensures b.returnDate.Some? && b.returnDate.value <= b.dueDate ==> points == 0
    ensures b.returnDate.Some? && b.returnDate.value > b.dueDate ==>
      points * MicrosPerDay <= b.returnDate.value - b.dueDate < (points + 1) * MicrosPerDay
  {
    if b.returnDate.None? then 0
    else if b.returnDate.value > b.dueDate then Days(b.returnDate.value - b.dueDate)
    else 0
  }

  /** Closing an active borrow at `t` costs exactly the days it is overdue at `t`. */
  lemma PenaltyIsDaysOverdueAtReturn(b: Borrow, t: Time)
    requires IsActive(b)
    ensures CalculatePenaltyOnReturn(b.(returnDate := Some(t))) == DaysOverdue(b, t)
  {
  }

  /** Returning later never earns fewer penalty points. */
  lemma PenaltyMonotone(b: Borrow, t1: Time, t2: Time)
    requires t1 <= t2
    ensures CalculatePenaltyOnReturn(b.(returnDate := Some(t1)))
         <= CalculatePenaltyOnReturn(b.(returnDate := Some(t2)))
  {
  }

  /** Once late, each further day of delay adds exactly one point. */
  lemma PenaltyOnePointPerDay(b: Borrow, t: Time)
    requires t > b.dueDate
    ensures CalculatePenaltyOnReturn(b.(returnDate := Some(t + MicrosPerDay)))
         == CalculatePenaltyOnReturn(b.(returnDate := Some(t))) + 1
  {
  }

  /** Returned on or before the due date: no penalty; exactly three days late: three points. */
  lemma PenaltyOnTimeAndThreeDaysLate(b: Borrow)
    ensures forall t :: t <= b.dueDate ==> CalculatePenaltyOnReturn(b.(returnDate := Some(t))) == 0
    ensures CalculatePenaltyOnReturn(b.(returnDate := Some(b.dueDate + 3 * MicrosPerDay))) == 3
  {
  }

  /** Five days and three hours late earns five points: partial days are dropped. */
  lemma PenaltyFiveDaysThreeHoursLate(b: Borrow)
    ensures CalculatePenaltyOnReturn(
              b.(returnDate := Some(b.dueDate + 5 * MicrosPerDay + 3 * MicrosPerHour))) == 5
  {
  }

  // ---------------------------------------------------------------------
  // Borrow.save: the default due date
  // ---------------------------------------------------------------------

  /**
   * The due date `Borrow.save` leaves on the instance, as written: an unset
   * due date becomes `borrow_date + 14 days`, computed from the instance's
   * `borrow_date` as it is when `save` runs. None stands for the TypeError
   * raised when that `borrow_date` is itself unset.
   */
  function DueDateAsWritten(borrowDate: Option<Time>, dueDate: Option<Time>): (due: Option<Time>)
    ensures dueDate.Some? ==> due == dueDate
    ensures dueDate.None? && borrowDate.Some? ==> due == Some(borrowDate.value + LoanPeriod)
    ensures dueDate.None? && borrowDate.None? ==> due.None?
  {
    if dueDate.Some? then dueDate
    else if borrowDate.Some? then Some(borrowDate.value + LoanPeriod)
    else None
  }

  /**
   * `borrow_date` is an auto-now-add column: it is assigned while the row is
   * inserted, after the overridden `save` has run. A new Borrow created
   * without a due date therefore reaches the default with no borrow date,
   * and the save fails instead of defaulting.
   */
  lemma DefaultDueDateFailsOnInsert()
    ensures DueDateAsWritten(None, None).None?
  {
  }

  /**
   * The intended rule on insert: the borrow date is the insertion instant
   * `now`; an unset due date becomes that instant plus the loan period.
   */
  function DueDateOnInsert(now: Time, dueDate: Option<Time>): (due: Time)
    ensures dueDate.Some? ==> due == dueDate.value
    ensures dueDate.None? ==> due > now && Days(due - now) == LoanDays
  {
    dueDate.GetOr(now + LoanPeriod)
  }

  /** The intended rule is the written one with the borrow date assigned first. */
  lemma DueDateOnInsertMatchesWrittenRule(now: Time, dueDate: Option<Time>)
    ensures DueDateAsWritten(Some(now), dueDate) == Some(DueDateOnInsert(now, dueDate))
  {
  }

  /** A borrow is never overdue, and earns no penalty, before its due date has passed. */
  lemma NotOverdueUntilDue(b: Borrow, now: Time)
    requires now <= b.dueDate
    ensures !IsOverdue(b, now) && DaysOverdue(b, now) == 0
  {
  }

  // ---------------------------------------------------------------------
  // Store queries
  // ---------------------------------------------------------------------

  /** Index of the borrow row with primary key `id`, if any. */
  function FindBorrow(borrows: seq<Borrow>, id: BorrowId): (k: Option<nat>)
    ensures k.Some? ==> k.value < |borrows| && borrows[k.value].id == id
    ensures k.None? ==> forall i :: 0 <= i < |borrows| ==> borrows[i].id != id
  {
    if |borrows| == 0 then None
    else if borrows[|borrows| - 1].id == id then Some(|borrows| - 1)
    else FindBorrow(borrows[..|borrows| - 1], id)
  }

  /** Copies of `book` currently lent out: its active borrows. */
  function OnLoan(borrows: seq<Borrow>, book: BookId): nat
  {
    if |borrows| == 0 then 0
    else OnLoan(borrows[..|borrows| - 1], book) + LoanOf(borrows[|borrows| - 1], book)
  }

  /** 1 when `b` is an active borrow of `book`, else 0. */
  function LoanOf(b: Borrow, book: BookId): nat {
    if b.book == book && IsActive(b) then 1 else 0
  }

  /** Replacing one row changes the count by that row's old and new contribution. */
  lemma {:induction false} OnLoanUpdate(borrows: seq<Borrow>, k: nat, b: Borrow, book: BookId)
    requires k < |borrows|
    ensures OnLoan(borrows[k := b], book) == OnLoan(borrows, book) - LoanOf(borrows[k], book) + LoanOf(b, book)
    decreases |borrows|
  {
    var n := |borrows|;
    var updated := borrows[k := b];
    assert updated[..n - 1] == if k < n - 1 then borrows[..n - 1][k := b] else borrows[..n - 1];
    if k < n - 1 {
      OnLoanUpdate(borrows[..n - 1], k, b, book);
    }
  }

  /** Appending one row adds that row's contribution. */
  lemma OnLoanAppend(borrows: seq<Borrow>, b: Borrow, book: BookId)
    ensures OnLoan(borrows + [b], book) == OnLoan(borrows, book) + LoanOf(b, book)
  {
  }

  /** An active borrow of a book means at least one copy of it is on loan. */
  lemma {:induction false} OnLoanOfActive(borrows: seq<Borrow>, k: nat)
    requires k < |borrows| && IsActive(borrows[k])
    ensures OnLoan(borrows, borrows[k].book) >= 1
    decreases |borrows|
  {
    var n := |borrows|;
    if k < n - 1 {
      OnLoanOfActive(borrows[..n - 1], k);
    }
  }

  /** For each book, the copies the library still accounts for: on the shelf plus on loan. */
  function Holdings(books: map<BookId, Book>, borrows: seq<Borrow>): map<BookId, int> {
    map id | id in books :: books[id].availableCopies + OnLoan(borrows, id)
  }

  /** Copies on the shelf plus copies on loan equal the copies owned, for every book. */
  ghost predicate Balanced(books: map<BookId, Book>, borrows: seq<Borrow>) {
    forall id :: id in books ==> books[id].availableCopies + OnLoan(borrows, id) == books[id].totalCopies
  }

  /** Lending a copy: one fewer on the shelf, one more active borrow of that book. */
  function CheckedOut(books: map<BookId, Book>, book: BookId): map<BookId, Book>
    requires book in books && books[book].availableCopies > 0
  {
    books[book := books[book].(availableCopies := books[book].availableCopies - 1)]
  }

  /** Taking a copy off the shelf while recording an active borrow of it conserves every book's holdings. */
  lemma CheckOutConserves(books: map<BookId, Book>, borrows: seq<Borrow>, b: Borrow)
    requires b.book in books && books[b.book].availableCopies > 0 && IsActive(b)
    ensures Holdings(CheckedOut(books, b.book), borrows + [b]) == Holdings(books, borrows)
  {
  }

  /** Returning a copy: one more on the shelf, clamped to the total. */
  function CheckedIn(books: map<BookId, Book>, book: BookId): map<BookId, Book>
    requires book in books
  {
    var row := books[book];
    books[book := row.(availableCopies :=
      if row.availableCopies + 1 > row.totalCopies then row.totalCopies else row.availableCopies + 1)]
  }

  /**
   * Closing an active borrow while putting its copy back conserves every
   * book's holdings, as long as the clamp does not cut the returned copy.
   */
  lemma CheckInConserves(books: map<BookId, Book>, borrows: seq<Borrow>, k: nat, closed: Borrow)
    requires k < |borrows| && IsActive(borrows[k]) && borrows[k].book in books
    requires closed.book == borrows[k].book && !IsActive(closed)
    requires books[closed.book].availableCopies < books[closed.book].totalCopies
    ensures Holdings(CheckedIn(books, closed.book), borrows[k := closed]) == Holdings(books, borrows)
  {
    forall id | id in books
      ensures Holdings(CheckedIn(books, closed.book), borrows[k := closed])[id] == Holdings(books, borrows)[id]
    {
      OnLoanUpdate(borrows, k, closed, id);
    }
  }

  /** Balance depends only on holdings and totals. */
  lemma BalancedByHoldings(books: map<BookId, Book>, borrows: seq<Borrow>,
                           books': map<BookId, Book>, borrows': seq<Borrow>)
    requires Balanced(books, borrows)
    requires Holdings(books', borrows') == Holdings(books, borrows)
    requires forall id :: id in books' ==> id in books && books'[id].totalCopies == books[id].totalCopies
    ensures Balanced(books', borrows')
  {
    forall id | id in books'
      ensures books'[id].availableCopies + OnLoan(borrows', id) == books'[id].totalCopies
    {
      assert Holdings(books', borrows')[id] == Holdings(books, borrows)[id];
    }
  }

  /** In a balanced store, returning an active borrow never meets the clamp. */
  lemma BalancedLeavesRoom(books: map<BookId, Book>, borrows: seq<Borrow>, k: nat)
    requires Balanced(books, borrows)
    requires k < |borrows| && IsActive(borrows[k]) && borrows[k].book in books
    ensures books[borrows[k].book].availableCopies < books[borrows[k].book].totalCopies
  {
    OnLoanOfActive(borrows, k);
  }

  // ---------------------------------------------------------------------
  // The tables
  // ---------------------------------------------------------------------

  /**
   * The Book, Borrow and User tables as the lending engine sees them. User
   * rows are reduced to their penalty-point balance. Borrow primary keys come
   * from an auto-increment counter.
   */
  class Store {
    var books: map<BookId, Book>
    var borrows: seq<Borrow>
    var penaltyPoints: map<UserId, nat>
    var nextBorrowId: BorrowId

    ghost predicate Valid()
      reads this
    {
      && (forall id :: id in books ==> books[id].id == id)
      && (forall id :: id in books ==> books[id].availableCopies <= books[id].totalCopies)
      && (forall i :: 0 <= i < |borrows| ==> borrows[i].id < nextBorrowId)
      && (forall i :: 0 <= i < |borrows| ==> borrows[i].book in books && borrows[i].user in penaltyPoints)
      && (forall i :: 0 <= i < |borrows| ==> borrows[i].borrowDate <= borrows[i].dueDate)
      && (forall i, j :: 0 <= i < j < |borrows| ==> borrows[i].id != borrows[j].id)
    }

    /** Tables holding a saved catalogue and user list, with no borrows yet. */
    constructor (books: map<BookId, Book>, penaltyPoints: map<UserId, nat>)
      requires forall id :: id in books ==> books[id].id == id
      requires forall id :: id in books ==> books[id].availableCopies <= books[id].totalCopies
      ensures Valid()
      ensures this.books == books && this.penaltyPoints == penaltyPoints && borrows == []
    {
      this.books := books;
      this.penaltyPoints := penaltyPoints;
      borrows := [];
      nextBorrowId := 1;
    }

    /** `Book.save`: clamp the available count to the total, then write the row. */
    method SaveBook(book: Book)
      requires Valid()
      modifies this
      ensures Valid()
      ensures book.id in books
      ensures books[book.id].availableCopies <= books[book.id].totalCopies
      ensures book.availableCopies <= book.totalCopies ==> books[book.id] == book
      ensures book.availableCopies > book.totalCopies ==>
        books[book.id] == book.(availableCopies := book.totalCopies)
      ensures books == old(books)[book.id := books[book.id]]
      ensures borrows == old(borrows) && penaltyPoints == old(penaltyPoints)
      ensures nextBorrowId == old(nextBorrowId)
    {
      var row := book;
      if row.availableCopies > row.totalCopies {
        row := row.(availableCopies := row.totalCopies);
      }
      books := books[row.id := row];
    }

    /**
     * `Borrow.objects.create(...)`: a new active row with the next primary
     * key, the insertion instant as borrow date and the due date of the
     * corrected `Borrow.save` rule.
     */
    method CreateBorrow(user: UserId, book: BookId, dueDate: Option<Time>, now: Time) returns (b: Borrow)
      requires Valid()
      requires user in penaltyPoints && book in books
      requires dueDate.None? || now <= dueDate.value
      modifies this
      ensures Valid()
      ensures b == Borrow(old(nextBorrowId), user, book, now, DueDateOnInsert(now, dueDate), None)
      ensures borrows == old(borrows) + [b]
      ensures books == old(books) && penaltyPoints == old(penaltyPoints)
      ensures nextBorrowId == old(nextBorrowId) + 1
    {
      var due := dueDate;
      if due.None? {
        due := Some(now + LoanPeriod);
      }
      b := Borrow(nextBorrowId, user, book, now, due.value, None);
      borrows := borrows + [b];
      nextBorrowId := nextBorrowId + 1;
    }

    /**
     * `Borrow.save` on an existing row: the due date is already set, so the
     * row is written back under its primary key.
     */
    method SaveBorrow(b: Borrow)
      requires Valid()
      requires FindBorrow(borrows, b.id).Some?
      requires b.book in books && b.user in penaltyPoints
      requires b.borrowDate <= b.dueDate
      modifies this
      ensures Valid()
      ensures borrows == old(borrows)[FindBorrow(old(borrows), b.id).value := b]
      ensures books == old(books) && penaltyPoints == old(penaltyPoints)
      ensures nextBorrowId == old(nextBorrowId)
    {
      var k := FindBorrow(borrows, b.id).value;
      borrows := borrows[k := b];
    }

    /** `user.save()` after a change of penalty-point balance. */
    method SavePenaltyPoints(user: UserId, points: nat)
      requires Valid()
      requires user in penaltyPoints
      modifies this
      ensures Valid()
      ensures penaltyPoints == old(penaltyPoints)[user := points]
      ensures books == old(books) && borrows == old(borrows)
      ensures nextBorrowId == old(nextBorrowId)
    {
      penaltyPoints := penaltyPoints[user := points];
    }
  }
}
