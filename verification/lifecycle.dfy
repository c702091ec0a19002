/** Runs of the application: any sequence of the modelled handlers (borrow,
    return from the tab, add book, the joins and leaves of both windows, the
    librarian's assign and remove, club creation and account creation), each
    taken as one atomic step, keeps the ledger consistent and every member
    within the borrow cap; the uncapped `Member.borrow_book` path does not
    keep the cap. */
module Lifecycle {
  import opened Store
  import Ledger
  import Catalog
  import Clubs
  import Accounts

  /** One user action, with the day it happens on where the handler reads
      the current date. */
  datatype Action =
    | BorrowAction(memberId: Option<int>, bookId: int, today: int)
    | ReturnAction(loanId: int, today: int)
    | AddBookAction(title: string, isbn: string, authorId: string, category: string, copies: int)
    | JoinAction(memberId: Option<int>, club: int)
    | LeaveAction(memberId: Option<int>, club: int)
    | AssignAction(member: int, club: int)
    | RemoveAction(member: int, club: int)
    | WindowJoinAction(windowUserId: int, club: int)
    | WindowLeaveAction(windowUser: Option<int>, club: int)
    | CreateClubAction(name: string, description: string)
    | CreateAccountAction(username: string, fullName: string, password: string, choice: Accounts.RoleChoice)

  /** The state after one action. A refused action leaves the state as it
      was; a return is only offered for a loan the return tab lists, so any
      other loan id cannot be picked and changes nothing. */
  function Step(st: Library, a: Action): Library
  {
    match a
    case BorrowAction(m, b, today) =>
      (match Ledger.Borrow(st, m, b, today) case Ok(st') => st' case Err(_) => st)
    case ReturnAction(id, today) =>
      if id in st.loans && st.loans[id].status == Borrowed then Ledger.Return(st, id, today) else st
    case AddBookAction(title, isbn, authorId, category, copies) =>
      Catalog.AddBook(st, title, isbn, authorId, category, copies)
    case JoinAction(m, club) =>
      (match Clubs.JoinClub(st, m, club) case Ok(st') => st' case Err(_) => st)
    case LeaveAction(m, club) =>
      (match Clubs.LeaveClub(st, m, club) case Ok(st') => st' case Err(_) => st)
    case AssignAction(m, club) => Clubs.AssignMember(st, m, club)
    case RemoveAction(m, club) => Clubs.RemoveMember(st, m, club)
    case WindowJoinAction(u, club) => Clubs.WindowJoin(st, u, club)
    case WindowLeaveAction(u, club) => Clubs.WindowLeave(st, u, club)
    case CreateClubAction(name, desc) =>
      (match Clubs.CreateClub(st, name, desc) case Ok(st') => st' case Err(_) => st)
    case CreateAccountAction(u, f, p, c) =>
      (match Accounts.CreateAccount(st, u, f, p, c) case Ok(st') => st' case Err(_) => st)
  }

  /** The state after the actions, in order. */
  function Run(st: Library, actions: seq<Action>): Library
    decreases |actions|
  {
    if actions == [] then st else Run(Step(st, actions[0]), actions[1..])
  }

  /** Whether the action is one of the handlers that read or write books
      and loans. */
  predicate WritesLedger(a: Action)
  {
    a.BorrowAction? || a.ReturnAction? || a.AddBookAction?
  }

  /** The club and account handlers leave the books, the loans and their
      counters as they were. */
  lemma {:induction false} StepOutsideLedger(st: Library, a: Action)
    requires !WritesLedger(a)
    ensures Step(st, a).books == st.books && Step(st, a).nextBookId == st.nextBookId
    ensures Step(st, a).loans == st.loans && Step(st, a).nextLoanId == st.nextLoanId
  {
    match a
    case JoinAction(m, club) =>
    case LeaveAction(m, club) =>
    case AssignAction(m, club) =>
    case RemoveAction(m, club) =>
    case WindowJoinAction(u, club) =>
    case WindowLeaveAction(u, club) =>
    case CreateClubAction(name, desc) =>
    case CreateAccountAction(u, f, p, c) =>
  }

  lemma {:induction false} StepPreservesInvariants(st: Library, a: Action)
    requires LedgerValid(st) && WithinCap(st)
    ensures LedgerValid(Step(st, a)) && WithinCap(Step(st, a))
  {
    match a
    case BorrowAction(m, b, today) =>
      Ledger.BorrowPreservesValid(st, m, b, today);
      Ledger.BorrowPreservesCap(st, m, b, today);
    case ReturnAction(id, today) =>
      if id in st.loans && st.loans[id].status == Borrowed {
        Ledger.ReturnPreservesValid(st, id, today);
        Ledger.ReturnPreservesCap(st, id, today);
      }
    case AddBookAction(title, isbn, authorId, category, copies) =>
      Catalog.AddBookPreservesValid(st, title, isbn, authorId, category, copies);
    case JoinAction(m, club) =>
    case LeaveAction(m, club) =>
    case _ =>
      StepOutsideLedger(st, a);
  }

  /** After any sequence of actions from a consistent state, every book's
      available copies plus its open loans still equal its total, and no
      member holds more than three open loans. */
  lemma {:induction false} RunPreservesInvariants(st: Library, actions: seq<Action>)
    requires LedgerValid(st) && WithinCap(st)
    ensures LedgerValid(Run(st, actions)) && WithinCap(Run(st, actions))
    decreases |actions|
  {
    if actions != [] {
      StepPreservesInvariants(st, actions[0]);
      RunPreservesInvariants(Step(st, actions[0]), actions[1..]);
    }
  }

  // ---------------------------------------------------------------------
  // The uncapped borrow path
  // ---------------------------------------------------------------------

  /** `Member.borrow_book` lends to a member who already holds three open
      loans, leaving them with four: the cap does not hold on this path. */
  lemma {:induction false} MemberBorrowExceedsCap(st: Library, m: int, b: int, today: int)
    requires LedgerValid(st)
    requires ActiveLoanCount(st.loans, m) == MaxActiveLoans
    requires b in st.books && st.books[b].copiesAvailable > 0
    ensures Ledger.MemberBorrow(st, m, b, today).Ok?
    ensures ActiveLoanCount(Ledger.MemberBorrow(st, m, b, today).value.loans, m) == MaxActiveLoans + 1
    ensures !WithinCap(Ledger.MemberBorrow(st, m, b, today).value)
    ensures Ledger.Borrow(st, Some(m), b, today) == Err(BorrowLimitExceeded)
  {
    var st' := Ledger.MemberBorrow(st, m, b, today).value;
    Ledger.LentCounts(st, st', b, m, today);
  }

  /** A concrete library in which the cap bites: member 1 holds three open
      loans on book 1, which has two more copies on the shelf. */
  function ThreeLoansState(): (st: Library)
    ensures LedgerValid(st) && WithinCap(st)
    ensures ActiveLoanCount(st.loans, 1) == MaxActiveLoans
    ensures 1 in st.books && st.books[1].copiesAvailable == 2
  {
    var loan := Ledger.NewLoan(1, 1, 0);
    var loans := map[1 := loan, 2 := loan, 3 := loan];
    assert OpenLoansOfBook(loans, 1) == {1, 2, 3};
    assert OpenLoansOfMember(loans, 1) == {1, 2, 3};
    var st := Library(map[1 := Book("t", "i", "a", "c", 5, 2)], 2, loans, 4,
                      map[], 1, {}, map[], 1, map[], 1);
    assert forall n :: n != 1 ==> OpenLoansOfMember(loans, n) == {};
    st
  }

  /** On that library the main window refuses a fourth borrow while
      `Member.borrow_book` grants it. */
  lemma FourthLoanOnMemberPath()
    ensures Ledger.Borrow(ThreeLoansState(), Some(1), 1, 10) == Err(BorrowLimitExceeded)
    ensures Ledger.MemberBorrow(ThreeLoansState(), 1, 1, 10).Ok?
    ensures !WithinCap(Ledger.MemberBorrow(ThreeLoansState(), 1, 1, 10).value)
  {
    MemberBorrowExceedsCap(ThreeLoansState(), 1, 1, 10);
  }

  // ---------------------------------------------------------------------
  // A lending scenario
  // ---------------------------------------------------------------------

  /** A library holding one book with two copies and nothing else. */
  function TwoCopiesState(): (st: Library)
    ensures LedgerValid(st) && WithinCap(st)
    ensures st.books.Keys == {1} && st.books[1].copiesTotal == 2 && st.books[1].copiesAvailable == 2
  {
    var st := Library(map[1 := Book("t", "i", "a", "c", 2, 2)], 2, map[], 1,
                      map[], 1, {}, map[], 1, map[], 1);
    assert OpenLoansOfBook(st.loans, 1) == {};
    assert forall n :: OpenLoansOfMember(st.loans, n) == {};
    st
  }

  /** Member 7 borrows both copies on day 100; a third borrow finds no copy;
      returning the first loan on day 103 puts one copy back and closes it. */
  lemma TwoCopiesScenario()
    ensures var st0 := TwoCopiesState();
            && Ledger.Borrow(st0, Some(7), 1, 100).Ok?
            && var st1 := Ledger.Borrow(st0, Some(7), 1, 100).value;
            && st1.loans[1].dueDay == 114 && st1.books[1].copiesAvailable == 1
            && Ledger.Borrow(st1, Some(7), 1, 100).Ok?
            && var st2 := Ledger.Borrow(st1, Some(7), 1, 100).value;
            && 2 in st2.loans && st2.loans[2].dueDay == 114
            && st2.books[1].copiesAvailable == 0
            && Ledger.Borrow(st2, Some(7), 1, 100) == Err(NoCopiesAvailable)
            && 1 in st2.loans && st2.loans[1].status == Borrowed
            && Ledger.Return(st2, 1, 103).books[1].copiesAvailable == 1
            && Ledger.Return(st2, 1, 103).loans[1].status == Returned
            && Ledger.Return(st2, 1, 103).loans[1].returnDay == Some(103)
  {
    var st0 := TwoCopiesState();
    var st1 := Ledger.Borrow(st0, Some(7), 1, 100).value;
    Ledger.LentCounts(st0, st1, 1, 7, 100);
    Ledger.LentPreservesValid(st0, st1, 1, 7, 100);
    assert ActiveLoanCount(st1.loans, 7) == 1;
  }
}
