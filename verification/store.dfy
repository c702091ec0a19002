/** The library's persistent state, as the application's tables hold it.

    Every handler of the application reads and writes one relational store;
    here that store is a single immutable record, and each handler becomes a
    pure function from one record to the next. SERIAL primary keys are the
    `next*` counters: a database sequence never hands out the same value
    twice, so a new row's key is the counter and the counter moves on.
 */
module Store {

  /** Days between a loan's creation and its due date. */
  const LoanPeriodDays := 14

  /** The most loans with status 'borrowed' a member may hold when borrowing
      from the main window. */
  const MaxActiveLoans := 3

  datatype Option<+T> = None | Some(value: T)

  /** Every refusal the handlers report to the user, one constructor per
      distinct message box. */
  datatype Failure =
    | MemberRecordNotFound   // "Member record not found!"
    | BookNotFound           // fetchone() is None, so indexing it raises
    | NoCopiesAvailable      // "No copies available"
    | BorrowLimitExceeded    // "You cannot borrow more than 3 books at a time"
    | MissingCredentials     // empty username or password
    | InvalidCredentials     // "Invalid credentials!"
    | FullNameRequired       // "Members must provide full name!"
    | UsernameTaken          // "Username already exists!"
    | ClubNameRequired       // "Name is required!"

  datatype Result<+T> = Ok(value: T) | Err(error: Failure)

  /** A row of `books`. The author reference is kept as the text the form
      passes through unparsed. */
  datatype Book = Book(
    title: string,
    isbn: string,
    authorId: string,
    category: string,
    copiesTotal: int,
    copiesAvailable: int)

  datatype LoanStatus = Borrowed | Returned

  /** A row of `loans`; days are integer day numbers. */
  datatype Loan = Loan(
    bookId: int,
    memberId: int,
    loanDay: int,
    dueDay: int,
    returnDay: Option<int>,
    status: LoanStatus)

  datatype Club = Club(name: string, description: string)

  /** A row of `users`, keyed in `Library.users` by its username. */
  datatype UserRow = UserRow(userId: int, password: string, role: string)

  /** A row of `members`, keyed in `Library.members` by the user it belongs to. */
  datatype MemberRow = MemberRow(memberId: int, fullName: string)

  datatype Library = Library(
    books: map<int, Book>,
    nextBookId: int,
    loans: map<int, Loan>,
    nextLoanId: int,
    clubs: map<int, Club>,
    nextClubId: int,
    clubMembers: set<(int, int)>,   // (club_id, member_id) rows of club_members
    users: map<string, UserRow>,
    nextUserId: int,
    members: map<int, MemberRow>,
    nextMemberId: int)

  /** Ids of the loans of book `b` whose status is 'borrowed'. */
  function OpenLoansOfBook(loans: map<int, Loan>, b: int): set<int>
  {
    set id | id in loans && loans[id].bookId == b && loans[id].status == Borrowed
  }

  /** Ids of the loans of member `m` whose status is 'borrowed'. */
  function OpenLoansOfMember(loans: map<int, Loan>, m: int): set<int>
  {
    set id | id in loans && loans[id].memberId == m && loans[id].status == Borrowed
  }

  /** How many copies of book `b` are out on loan. */
  function OnLoan(loans: map<int, Loan>, b: int): nat
  {
    |OpenLoansOfBook(loans, b)|
  }

  /** The `SELECT COUNT(*) ... status='borrowed'` of the borrow handler. */
  function ActiveLoanCount(loans: map<int, Loan>, m: int): nat
  {
    |OpenLoansOfMember(loans, m)|
  }

  /** Keys are below their counters, every loan names an existing book, and
      each book's available copies plus its open loans make up its total. */
  predicate LedgerValid(st: Library)
  {
    && (forall b :: b in st.books ==> b < st.nextBookId)
    && (forall id :: id in st.loans ==> id < st.nextLoanId && st.loans[id].bookId in st.books)
    && (forall b :: b in st.books ==>
          st.books[b].copiesAvailable + OnLoan(st.loans, b) == st.books[b].copiesTotal)
  }

  /** No member holds more open loans than the cap. */
  ghost predicate WithinCap(st: Library)
  {
    forall m :: ActiveLoanCount(st.loans, m) <= MaxActiveLoans
  }

  /** The parts of the state that the lending ledger never writes. */
  predicate SameOutsideLedger(st: Library, st': Library)
  {
    && st'.clubs == st.clubs
    && st'.nextClubId == st.nextClubId
    && st'.clubMembers == st.clubMembers
    && st'.users == st.users
    && st'.nextUserId == st.nextUserId
    && st'.members == st.members
    && st'.nextMemberId == st.nextMemberId
  }

  /** Adding an open loan under a fresh id adds that id to exactly the two
      open-loan sets it belongs to: its book's and its member's. */
  lemma {:induction false} OpenLoansAfterInsert(loans: map<int, Loan>, id: int, loan: Loan)
    requires id !in loans
    requires loan.status == Borrowed
    ensures forall b :: OpenLoansOfBook(loans[id := loan], b)
                        == if b == loan.bookId then OpenLoansOfBook(loans, b) + {id}
                           else OpenLoansOfBook(loans, b)
    ensures forall m :: OpenLoansOfMember(loans[id := loan], m)
                        == if m == loan.memberId then OpenLoansOfMember(loans, m) + {id}
                           else OpenLoansOfMember(loans, m)
  {
  }

  /** Closing an open loan removes its id from exactly the two open-loan sets
      it belonged to. */
  lemma {:induction false} OpenLoansAfterClose(loans: map<int, Loan>, id: int, loan: Loan)
    requires id in loans && loans[id].status == Borrowed
    requires loan.status == Returned
    requires loan.bookId == loans[id].bookId && loan.memberId == loans[id].memberId
    ensures forall b :: OpenLoansOfBook(loans[id := loan], b)
                        == if b == loan.bookId then OpenLoansOfBook(loans, b) - {id}
                           else OpenLoansOfBook(loans, b)
    ensures forall m :: OpenLoansOfMember(loans[id := loan], m)
                        == if m == loan.memberId then OpenLoansOfMember(loans, m) - {id}
                           else OpenLoansOfMember(loans, m)
  {
  }

  /** Counting form of `OpenLoansAfterInsert`. */
  lemma {:induction false} CountsAfterInsert(loans: map<int, Loan>, id: int, loan: Loan)
    requires id !in loans
    requires loan.status == Borrowed
    ensures forall b :: OnLoan(loans[id := loan], b)
                        == if b == loan.bookId then OnLoan(loans, b) + 1 else OnLoan(loans, b)
    ensures forall m :: ActiveLoanCount(loans[id := loan], m)
                        == if m == loan.memberId then ActiveLoanCount(loans, m) + 1
                           else ActiveLoanCount(loans, m)
  {
    OpenLoansAfterInsert(loans, id, loan);
  }

  /** Counting form of `OpenLoansAfterClose`. */
  lemma {:induction false} CountsAfterClose(loans: map<int, Loan>, id: int, loan: Loan)
    requires id in loans && loans[id].status == Borrowed
    requires loan.status == Returned
    requires loan.bookId == loans[id].bookId && loan.memberId == loans[id].memberId
    ensures forall b :: OnLoan(loans[id := loan], b)
                        == if b == loan.bookId then OnLoan(loans, b) - 1 else OnLoan(loans, b)
    ensures forall m :: ActiveLoanCount(loans[id := loan], m)
                        == if m == loan.memberId then ActiveLoanCount(loans, m) - 1
                           else ActiveLoanCount(loans, m)
  {
    OpenLoansAfterClose(loans, id, loan);
  }
}
