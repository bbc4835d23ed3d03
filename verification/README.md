# Library lending engine: a Dafny model

This project models the borrow/return engine of a small library lending API. It covers:

- the Book and Borrow model rules of `books/models.py`: the copy-count clamp on save, the default
  14-day due date, overdue status, days overdue and the late-return penalty;
- the request validators of `books/serializers.py`;
- the `borrow_book`, `return_book` and `list_user_borrows` endpoints and the `IsAdminOrReadOnly`
  permission of `books/views.py`.

Layout, one module per source file plus two small ones:

- `wrappers.dfy` (`Wrappers`): `Option` and `Result`.
- `models.dfy` (`Models`): the stored rows (`Book`, `Borrow`) and the timestamp arithmetic. Times
  are integer microseconds, and `timedelta.days` is floor division by one day (`Days`). The module
  also holds the copy-accounting functions (`OnLoan`, `Holdings`, `Balanced`) and the `Store` class.
  `Store` stands for the Book, Borrow and User tables: a map of books, a sequence of borrows, a map
  of user penalty points and the auto-increment borrow key. `Book.save` and `Borrow.save` are
  `Store` methods. Each adjusts the row the way the model method adjusts its instance, then writes
  the row.
- `serializers.dfy` (`Serializers`): the three validators, as pure functions returning `Result`.
- `views.dfy` (`Views`): each handler is one atomic method on a `Store`. `BorrowBookRequest` and
  `ReturnBookRequest` are the endpoints: the validator first, then the handler. A rejection
  changes nothing.
- `scenarios.dfy` (`Scenarios`): client walkthroughs proved from the endpoint contracts alone.
  They cover the last copy, the fourth borrow, a return 5 days 3 hours late, a second return and a
  return by another user.

The main properties proved:

- every stored book keeps `available <= total`;
- each book's copies on the shelf plus its active borrows (`Holdings`) are unchanged by a borrow,
  and by a return of an active borrow when the clamp does not cut the copy;
- in a store where holdings equal the totals (`Balanced`), both endpoints keep it that way;
- the penalty is the number of whole days late, one point per day;
- the validators accept exactly what they should, and the handlers' not-found branches cannot be
  reached behind them.

Two facts about the order of checks shape the request models:

- `validate_book_id` runs before the handler's 3-borrow limit check (books/views.py:93-100),
  so an unknown or exhausted book is reported before the limit.
- Validation failures, including an unknown borrow id, are 400 responses
  (books/views.py:136, 210); the handlers' 404 branches cannot be reached behind the validators.

## Model

| member | source | states |
|---|---|---|
| `Models.Days` | books/models.py:88 | `timedelta.days`: the whole-day count n with n days <= d < n+1 days; non-negative for non-negative durations |
| `Models.DaysUnique` | books/models.py:88 | the whole-day count is the unique n bracketing the duration |
| `Models.IsOverdue` | books/models.py:70-74 | false once returned; for an active borrow, true exactly when now is past the due date |
| `Models.DaysOverdue` | books/models.py:76-80 | 0 when not overdue; otherwise the whole days between due date and now, never negative |
| `Models.CalculatePenaltyOnReturn` | books/models.py:82-90 | 0 without a return date or when returned by the due date; otherwise the whole days late |
| `Models.PenaltyIsDaysOverdueAtReturn` | books/models.py:76-90 | closing an active borrow at t costs exactly its days overdue at t |
| `Models.PenaltyMonotone` | books/models.py:87-89 | returning later never earns fewer points |
| `Models.PenaltyOnePointPerDay` | books/models.py:87-89 | once late, each extra day of delay adds exactly one point |
| `Models.PenaltyOnTimeAndThreeDaysLate` | books/models.py:84-90 | returned at or before the due date gives 0; exactly three days late gives 3 |
| `Models.PenaltyFiveDaysThreeHoursLate` | books/models.py:87-89 | five days three hours late gives 5: partial days are dropped |
| `Models.NotOverdueUntilDue` | books/models.py:71-80 | up to the due date a borrow is neither overdue nor has days overdue |
| `Models.DueDateAsWritten` | books/models.py:64-67 | an explicit due date is kept; an unset one becomes borrow date + 14 days, and fails if the borrow date is unset |
| `Models.DefaultDueDateFailsOnInsert` | books/models.py:53-67 | on insert the borrow date is still unset when the default is computed, so the default path fails |
| `Models.DueDateOnInsert` | books/models.py:64-68 | intended rule: an explicit due date is kept; otherwise it is the insertion instant plus 14 whole days |
| `Models.DueDateOnInsertMatchesWrittenRule` | books/models.py:64-67 | the intended rule is the written one with the borrow date assigned first |
| `Models.FindBorrow` | books/views.py:179 | the lookup by primary key returns an index holding that id, or None when no row has it |
| `Models.OnLoanAppend` | books/views.py:116-120 | recording a borrow adds its contribution to its book's on-loan count |
| `Models.OnLoanUpdate` | books/views.py:183-192 | rewriting one borrow row changes a book's on-loan count by that row's old and new contributions only |
| `Models.OnLoanOfActive` | books/views.py:183-196 | an active borrow means its book has at least one copy on loan |
| `Models.CheckOutConserves` | books/views.py:116-124 | one fewer copy on the shelf plus one more active borrow leaves every book's holdings unchanged |
| `Models.CheckInConserves` | books/views.py:183-196 | closing an active borrow and shelving its copy leaves every book's holdings unchanged when the clamp does not fire |
| `Models.BalancedByHoldings` | books/views.py:116-124 | equal holdings and totals preserve the shelf + loans = total balance |
| `Models.BalancedLeavesRoom` | books/models.py:44-48 | in a balanced store, returning an active borrow never reaches the clamp |
| `Models.Store.SaveBook` | books/models.py:44-48 | after save, available <= total; an excess is clamped to the total; otherwise the row is written as given; nothing else changes |
| `Models.Store.CreateBorrow` | books/views.py:116-120 | exactly one new active row is appended, with the next key, borrow date now and the due date of the save rule; the store invariant, including due date >= borrow date, is kept |
| `Models.Store.SaveBorrow` | books/views.py:192 | the row with the borrow's key is replaced; nothing else changes; the store invariant, including due date >= borrow date, is kept |
| `Models.Store.SavePenaltyPoints` | books/views.py:188-190 | only that user's balance changes |
| `Serializers.ValidateBook` | books/serializers.py:40-49 | rejects exactly when available > total, an absent count reading 0; otherwise returns the payload unchanged |
| `Serializers.ValidateBookFullPayload` | books/serializers.py:40-49 | a payload with both counts passes exactly when available <= total |
| `Serializers.ValidateBookAvailableOnly` | books/serializers.py:42-48 | a payload with only an available count passes only when it is 0 |
| `Serializers.ValidateBookId` | books/serializers.py:73-82 | "Book not found" for an unknown id; "No copies available" for a book at 0; otherwise the id unchanged |
| `Serializers.ValidateBorrowId` | books/serializers.py:87-101 | unknown id, then already returned, then (with a request) not the owner, in that order; accepts exactly an existing active borrow that belongs to the requester (or any, with no request), returning the id unchanged |
| `Serializers.ValidBorrowIdIsOwnActiveBorrow` | books/serializers.py:87-101 | an accepted id names an existing active borrow of the requester |
| `Serializers.ValidateBorrowIdWithoutRequest` | books/serializers.py:96-99 | with no request in context the ownership check is skipped |
| `Views.HasPermission` | books/views.py:18-23 | safe methods always allowed; any other method exactly when the user is staff |
| `Views.ListUserBorrows` | books/views.py:149-153 | the listing is no longer than the table and every entry belongs to the requester and has no return date |
| `Views.ActiveCount` | books/views.py:99 | the count the limit check reads equals the length of the user's active-borrow listing |
| `Views.ListUserBorrowsMembers` | books/views.py:149-153 | the listing holds exactly the requester's borrows with no return date |
| `Views.ListUserBorrowsAppend` | books/views.py:99 | a new borrow of the user adds one to their active count, and other users' counts are unchanged |
| `Views.ListUserBorrowsShrinks` | books/views.py:183-184 | closing an active borrow removes one from its user's active count |
| `Views.BorrowBook` | books/views.py:95-134 | limit of 3 first, then missing book (404), then no copy left; each rejection changes nothing; success appends one active borrow due now + 14 days, takes one copy off that book only and conserves holdings |
| `Views.ReturnBook` | books/views.py:175-208 | unknown id changes nothing (404); otherwise sets the return date to now, adds a positive penalty to the owner, shelves one copy subject to the clamp and reports the penalty and new balance; conserves holdings for an active borrow when the clamp does not fire |
| `Views.BorrowBookRequest` | books/views.py:92-136 | validator then handler: rejected ids change nothing, the 404 branch is unreachable, success happens exactly for an existing book with a copy and a user under the limit; on success the new row (next key, borrow date now, due now + 14 days, active) is appended, one copy leaves the shelf, the key counter advances, the user's active count rises by one and balances are untouched; balance is preserved |
| `Views.ReturnBookRequest` | books/views.py:172-210 | validator then handler: succeeds exactly for the requester's own active borrow, rejections change nothing, the 404 branch is unreachable; on success the row gets return date now, the penalty is added to the requester's balance and no one else's, the requester's active count drops by exactly one, one copy is shelved subject to the clamp, the key counter is unchanged, and balance is preserved |

## Left out

- Concurrency: row locks (`select_for_update`), lock ordering and transaction isolation are not modelled. Each handler is one atomic step. The gap between the limit check and the locked section in `borrow_book` is therefore not represented.
- Clock: `timezone.now()` is the parameter `now`. `borrow_book` reads the clock twice, once for the due date and once when `borrow_date` is assigned at insert. The model uses one instant for both, so the due date is exactly borrow date + 14 days.
- Time zones and the database's timestamp resolution are not modelled. Times are integer microseconds.
- Views.ListUserBorrows: returns the active borrows in store (creation) order. The default ordering by descending `borrow_date` is not modelled.
- Users are reduced to their `penalty_points` balance. A user exists when it has a key in that map. `authentication/models.py` is not part of this model.
- Authentication: `IsAuthenticated` appears as the borrow handler's precondition that the requester is a known user. JWT issuing, registration, login and `UserPenaltyView` are not modelled.
- Only `id`, `total_copies` and `available_copies` of a Book are modelled. Title, description, author, category and timestamps carry no logic in the core. Author and Category are not modelled.
- Catalogue CRUD views, filtering, search and ordering, response serializers and their field lists, URL routing, admin configuration and the sample-data command are not modelled. They are framework plumbing or I/O.
- Deleting books, users or borrows (cascades included) happens outside the core and is not modelled.
- In `return_book`, a missing Book or User row (books/views.py:180-181) would raise `Book.DoesNotExist` or `User.DoesNotExist` inside the `try` block, which only catches `Borrow.DoesNotExist` (books/views.py:205), so the error would escape as a server error. The store invariant (every borrow references an existing book and user) rules this out, so it is not modelled as an outcome.
- The clock is not assumed monotone: successive `now` values are independent parameters, so a return date is not proved to fall on or after the borrow date. The store invariant does keep every due date on or after its borrow date; `Models.Store.CreateBorrow` therefore asks that an explicit due date not precede now, which the borrow endpoint's now + 14 days always meets.
- Response bodies: the error message strings and the serialized borrow fields are not modelled. Responses are datatypes whose constructors name the outcome, and `BorrowStatus`/`ReturnStatus` give their HTTP status codes.
- The 32-bit bound of the `PositiveIntegerField` counts is not modelled, and neither is the width of `penalty_points`. Counts are unbounded naturals.
- Payload parsing (integer coercion of `book_id` and `borrow_id`) is assumed done. Ids reach the validators as integers.
- The store's `CreateBorrow` uses the corrected due-date rule (see Findings). The borrow endpoint always supplies an explicit due date, so the difference never shows there.

## Findings

| source | as written | input that shows it | evidently intended | confidence | as-written member | corrected member |
|---|---|---|---|---|---|---|
| books/models.py:64-67 | the default due date is computed from `self.borrow_date`, but that auto-now-add field is assigned only during the insert inside `super().save()`, so on a new Borrow it is still unset | creating a Borrow with no `due_date` (e.g. `Borrow.objects.create(user=u, book=b)`): the save computes None + 14 days and raises TypeError; see `Models.DefaultDueDateFailsOnInsert` | due date = insertion instant + 14 days | medium, not executed (rests on Django assigning auto-now-add values at insert time) | `Models.DueDateAsWritten` | `Models.DueDateOnInsert` |
