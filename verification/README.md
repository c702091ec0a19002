# Smart Library lending ledger in Dafny

This project models the lending ledger of a university library desktop
application, together with the small account and book-club handlers around
it. In the application, librarians keep a catalog of books, and members
borrow and return copies and join book clubs. All state lives in one
relational database that the UI event handlers read and write directly.

Here the database is one immutable `Store.Library` record holding:

- books: id ↦ (title, isbn, author, category, copies_total, copies_available);
- loans: id ↦ (book, member, loan day, due day, return day, status);
- clubs and the `club_members` pairs;
- users: username ↦ (user id, password, role);
- members: user id ↦ (member id, full name).

Each handler's sequence of SQL statements is one pure function. It returns
`Ok(newState)` or `Err(failure)`, and a refusal writes nothing. Serial primary
keys are `next*` counters. The current date is a parameter `today`, an integer
day number.

Modules:

- `Text`: Python's `str.strip()`, using the exact set of characters that
  Python's `str.isspace()` accepts.
- `Store`: the state, the failures, open-loan counting and the two ledger
  invariants. `LedgerValid` says that `copies_available + open loans of b ==
  copies_total` and that every loan names an existing book. `WithinCap` says
  that no member holds more than 3 open loans.
- `Ledger`: the main window's borrow and return, the return tab's open-loan
  filter, and the uncapped `Member.borrow_book`.
- `Catalog`: `Book.add_book`.
- `Clubs`: insert-if-absent join, delete-pair leave, and club creation, for
  the main window, `BookClub` and `BookClubWindow`.
- `Accounts`: login, account creation, `User.authenticate`, and the start-up
  lookup of a user's member id.
- `Lifecycle`: runs of the modelled handlers (borrow, return from the tab,
  add book, the joins and leaves of both windows, assign and remove, club
  creation and account creation), which preserve both invariants. Logins,
  the edit and delete handlers and `Member.borrow_book` are not actions of a
  run. It also holds a lending scenario and the uncapped path's
  counterexample.

Notes on the model:

- Return as written. `return_book` updates the loan and the book without
  looking at the loan's status. `Ledger.ReturnUnchecked` is that code.
  `Ledger.Return` adds the precondition that the loan is open, because the
  return tab lists only loans with status 'borrowed'.
  `Ledger.SecondReturnOverIncrements` shows what goes wrong without this
  precondition: a second return of the same loan over-increments the book.
- Users are keyed by username. `create_account` refuses a username that
  already exists, so each username matches at most one row, and `fetchone()`
  in login and `authenticate` is a plain lookup.
- Club pairs in the club window are keyed by user id. `BookClubWindow` keys
  the pair by its `user_id`, while the main window uses the resolved
  `member_id`. The model keeps this as written.
  `Clubs.WindowJoinMissesMemberId` shows the consequence. The code that
  constructs `BookClubWindow` is not part of this model, so whether callers
  pass a member id there is unknown.
- Same club-name rule. `MainWindow.add_club` (main_window.py:386-395) applies
  the same non-empty stripped-name rule as the club window, and
  `Clubs.CreateClub` stands for both in effect: an empty stripped name writes
  nothing. The two differ in what the user sees. The club window shows
  "Name is required!", while `add_club` returns silently
  (main_window.py:388-389), so for `add_club` the `Err(ClubNameRequired)`
  result means only "nothing written", not a message.
- The club window's `user_id` defaults to None (book_club_window.py:8), and
  the join and leave buttons are wired for every role. With None, the DELETE
  of `leave_club` compares `member_id = NULL`, matches no row and removes
  nothing; `Clubs.WindowLeave` models this.

## Model

| member | source | states |
|---|---|---|
| Text.Strip | login_window.py:104-105 | the stripped text has no space character at either end, is a slice of the input with only space characters removed around it, and is empty exactly when the input is all space characters |
| Ledger.NewLoan | main_window.py:524-525 | the inserted loan is 'borrowed', has no return date, names the book and member, and is due 14 days after its loan day, which is today |
| Ledger.Lend | main_window.py:524-526 | the insert-and-decrement adds exactly one loan under the next loan-counter value, lowers only that book's available copies by exactly 1, and changes nothing else |
| Ledger.Borrow | main_window.py:502-531 | no member record gives MemberRecordNotFound; a missing book or one with no copy available gives NoCopiesAvailable, checked before the cap; 3 or more open loans gives BorrowLimitExceeded; success happens exactly when all checks pass, lends one copy due today + 14, and never leaves available copies negative |
| Ledger.MemberBorrow | member.py:9-20 | a missing book fails at the fetch and a book with no copy fails with NoCopiesAvailable, both without writes; otherwise it lends one copy to the member with no cap check, and available copies stay non-negative |
| Ledger.ReturnUnchecked | main_window.py:575-586 | the given loan, if it exists, becomes 'returned' with today as return day and its other fields kept; the given book, if it exists, gains exactly one available copy; nothing else changes; the loan's status is not consulted |
| Ledger.Return | main_window.py:557-586 | for a loan the return tab lists (status 'borrowed'), exactly that loan is closed on today, its own book gains exactly one available copy, and no other book, counter or table changes |
| Ledger.ReturnTabRows | main_window.py:552-562 | the return tab lists nothing without a member record; otherwise it lists exactly the loans of that member whose status is 'borrowed' and whose book row exists (the JOIN with books), and in a consistent ledger as many as the member's active-loan count |
| Ledger.OpenLoansHaveBooks | main_window.py:557-561 | in a consistent ledger the JOIN with books drops no open loan, so the tab's rows are exactly the member's open loans |
| Ledger.ReturnTabRowsAreReturnable | main_window.py:557-562 | every row the return tab offers is an open loan of that member, so it meets the precondition of Return |
| Ledger.LentCounts | main_window.py:524-526 | a successful lend puts exactly one more copy of that book on loan and gives exactly that member one more open loan; every other book and member count is unchanged |
| Ledger.ReturnCounts | main_window.py:584-585 | returning an open loan takes exactly one copy of its book off loan and one open loan from its member; other counts are unchanged |
| Ledger.LentPreservesValid | main_window.py:524-526 | a lend keeps available + open loans = total for every book, and keeps every loan pointing at an existing book |
| Ledger.BorrowPreservesValid | main_window.py:513-526 | a successful main-window borrow keeps the ledger invariant |
| Ledger.MemberBorrowPreservesValid | member.py:12-19 | a successful member-path borrow keeps the ledger invariant |
| Ledger.BorrowPreservesCap | main_window.py:518-522 | if no member held more than 3 open loans before a main-window borrow, none does after it |
| Ledger.ReturnPreservesValid | main_window.py:584-585 | returning an open loan keeps the ledger invariant |
| Ledger.ReturnPreservesCap | main_window.py:584 | returning an open loan keeps every member within the cap |
| Ledger.BorrowThenReturn | main_window.py:524-585 | borrowing and then returning the loan just created restores every book row and every member's active-loan count |
| Ledger.SecondReturnOverIncrements | main_window.py:584-585 | returning the same loan a second time, on any day, as the unchecked code allows, changes only that loan's return date, to the day of the second return, but adds a second copy, so the book has one more copy than its total allows and the ledger invariant fails |
| Catalog.AddBook | book.py:14-19 | the new book is keyed by the next book-counter value, stores title, isbn, author and category exactly as given, and sets both total and available to the unvalidated `copies`; no other book and no loan changes |
| Catalog.AddBookPreservesValid | book.py:17-19 | the new book has no open loans, and the ledger invariant still holds after the insert |
| Clubs.Insert | book_club.py:13-15 | after the insert-if-absent the pair is present; no other pair is added or removed; an existing pair leaves the set as it was |
| Clubs.Delete | main_window.py:669 | after the delete the pair is absent and every other pair is kept; deleting an absent pair changes nothing |
| Clubs.JoinClub | main_window.py:633-650 | the join is refused exactly when there is no member record; with one it always succeeds, only the membership pairs change, and they gain exactly (club, member id) |
| Clubs.LeaveClub | main_window.py:658-670 | the leave is refused exactly when there is no member record; with one it always succeeds, only the membership pairs change, and they lose exactly (club, member id) |
| Clubs.AssignMember | main_window.py:438-443 | the librarian's assign adds exactly the typed (club, member) pair when it is absent, and changes nothing else |
| Clubs.RemoveMember | main_window.py:461 | the librarian's remove deletes exactly the typed pair and changes nothing else |
| Clubs.JoinByRecord | book_club.py:10-17 | after `BookClub.join_club` the pair is present; all other pairs are as before; an existing pair leaves the whole state unchanged |
| Clubs.WindowJoin | book_club_window.py:104-110 | the club window inserts the pair keyed by its user id, if absent, and changes nothing else |
| Clubs.WindowLeave | book_club_window.py:133 | the club window deletes the pair keyed by its user id, and leaving a club one is not in changes nothing; with no user id (the None default) nothing changes |
| Clubs.CreateClub | book_club_window.py:166-175 | the club is refused with ClubNameRequired exactly when the name is empty after stripping; otherwise one club is stored under the next club-counter value with its name and description stripped, and nothing else changes |
| Clubs.JoinIdempotent | main_window.py:644-650 | joining the same club twice has the same effect as joining once |
| Clubs.JoinByRecordIdempotent | book_club.py:13-16 | calling `join_club` twice has the same effect as calling it once |
| Clubs.LeaveClubUndoesJoinClub | main_window.py:633-670 | for a member with a record who is not in the club, joining then leaving from the main window both succeed and restore the state |
| Clubs.LeaveUndoesJoin | main_window.py:438-461 | removing a pair that an assign just added restores the state |
| Clubs.JoinUndoesLeave | main_window.py:438-442 | assigning a pair that a remove just deleted restores the state |
| Clubs.WindowJoinMissesMemberId | book_club_window.py:104-108 | for a member whose member id differs from their user id, joining in the club window adds (club, user id) but leaves (club, member id) absent |
| Clubs.WindowLeaveUndoesWindowJoin | book_club_window.py:104-133 | in the club window, leaving a club right after joining it restores the state the join started from |
| Clubs.CreatedNameIsTrimmed | book_club_window.py:167-171 | a created club's name is non-empty and stripping it again changes nothing |
| Accounts.Login | login_window.py:103-125 | an empty username or password after stripping gives MissingCredentials; otherwise login succeeds exactly when a user with that stripped username, password and lower-cased role exists, and returns that user's id, name and role |
| Accounts.CreateAccount | login_window.py:128-159 | the checks run in order: empty username or password, then a member with an empty full name, then an existing username; each refusal writes nothing; success adds one user under the next user-counter value and, only for the member role, one linked member row under the next member-counter value; nothing outside the users and members tables and their counters changes |
| Accounts.Authenticate | user.py:10-19 | returns the stored id and role exactly when a user with that username and password exists, with no stripping and no role test; it writes nothing |
| Accounts.ResolveMemberId | main_window.py:43-54 | a member id is resolved exactly for a member-role user with a member row, and it is that row's id |
| Accounts.CreateAccountPreservesValid | login_window.py:150-155 | account creation keeps ids below their counters, so new keys never collide |
| Accounts.CreateThenLogin | login_window.py:150-162 | an account just created logs in with the same form contents and gets the new user id |
| Accounts.CreatedAccountResolves | login_window.py:154-155 | a new member account resolves to its new member id, and a new librarian account resolves to none |
| Accounts.DuplicateUsernameRejected | login_window.py:143-148 | an existing username is always refused, so usernames stay unique |
| Accounts.LoginIsAuthenticatePlusRole | login_window.py:114-122 | for credentials without surrounding spaces, login succeeds exactly when `authenticate` succeeds and the stored role is the selected one, and then both return the same user |
| Lifecycle.StepPreservesInvariants | main_window.py:502-595 | any single borrow, return from the tab, book insert, join or leave of either window, assign, remove, club creation or account creation keeps both the ledger invariant and the 3-loan cap |
| Lifecycle.RunPreservesInvariants | main_window.py:502-595 | after any sequence of those actions, available + open loans = total for every book, and no member has more than 3 open loans |
| Lifecycle.MemberBorrowExceedsCap | member.py:12-19 | for a member with 3 open loans and a book with a copy, the main window refuses with BorrowLimitExceeded, but `Member.borrow_book` succeeds, leaving 4 open loans and the cap broken |
| Lifecycle.FourthLoanOnMemberPath | member.py:14-19 | a concrete library where the member path grants a fourth loan that the main window refuses |
| Lifecycle.TwoCopiesScenario | main_window.py:513-585 | for a book with two copies, two borrows succeed, each due on day 114 for day 100, leaving 0 copies; a third fails with NoCopiesAvailable; returning the first loan closes it on day 103 and leaves 1 copy |

## Left out

- PyQt widgets, tables, message boxes and dialogs are not modelled. This includes the "select a row first" checks, the role-specific tabs, the edit-book form and the add-book form with its `int()` parse. The handlers' messages become the `Failure` constructors.
- The database connection, the stylesheet and the event loop are I/O and framework plumbing.
- Concurrency and transactions are not modelled. Each handler is one atomic step, so the check-then-act race between the SELECT and the UPDATE in the borrow paths is not modelled.
- Database failures are not modelled: lost connections, constraint violations and the `except Exception` branches. A foreign-key violation for a member id with no `members` row is among them, because the schema is not available.
- `delete_book` and `delete_club` are left out. Their effect on loans and club pairs depends on cascade rules in a schema that is not available.
- Display-only queries and their ordering are left out: the books tables, member lists, member loans and club lists.
- Real calendar arithmetic is not modelled. CURRENT_DATE is an integer day, and `loan_date` is taken to be the column default, today.
- Two wiring defects outside the logic are left out. `open_main_window` passes one argument to a three-argument `MainWindow`, and `add_book` passes a parent to the parameterless `AddBookDialog`.
- Password handling is modelled only as text equality. Storage is plaintext, and that security concern is out of scope.
- Ledger.Return: requires the loan to be open instead of reproducing the source's silent no-op or double increment. The as-written behaviour is `Ledger.ReturnUnchecked`.
- Clubs.CreateClub: does not model the Cancel button of the main window's input dialogs.
- Clubs.WindowJoin / Clubs.WindowLeave: take an integer user id for the join. With the None default of `BookClubWindow.__init__`, `join_club`'s SELECT compares `member_id = NULL` and never matches, so the join is not insert-if-absent. It then inserts `(club, NULL)` on every click or fails on a constraint, depending on a schema that is not available. A NULL pair cannot be represented in `clubMembers`, so that join is not modelled. The None leave is modelled: it removes nothing.

## Findings

| source | as written | input that shows it | evidently intended | confidence | as-written member | corrected member |
|---|---|---|---|---|---|---|
| member.py:12-19 | `Member.borrow_book` inserts a loan after checking only the available copies; it never counts the member's open loans | a member with 3 open loans borrows a book with a copy left: the call succeeds and the member holds 4 open loans | the same 3-loan cap as `MainWindow.borrow_book` (main_window.py:518-522) | medium, not executed | Lifecycle.MemberBorrowExceedsCap | Ledger.BorrowPreservesCap |
