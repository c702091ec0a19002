/** The lending ledger: borrowing and returning a copy of a book.

    Two borrow paths exist. The main window's handler checks, in this order,
    that a member record was resolved, that the book has a copy available,
    and that the member holds fewer than three open loans. `Member.borrow_book`
    runs the same insert and decrement but skips the cap. Returning closes a
    loan and puts its copy back on the shelf.
 */
module Ledger {
  import opened Store

  /** The loan row both borrow paths insert. `loan_date` is left to the
      column default, the current date. */
  function NewLoan(bookId: int, memberId: int, today: int): (loan: Loan)
    ensures loan.status == Borrowed && loan.returnDay == None
    ensures loan.dueDay - loan.loanDay == LoanPeriodDays && loan.loanDay == today
    ensures loan.bookId == bookId && loan.memberId == memberId
  {
    Loan(bookId, memberId, today, today + LoanPeriodDays, None, Borrowed)
  }

  /** `st'` is `st` after one open loan of book `b` for member `m` was
      recorded on day `today` and one copy of `b` left the shelf. */
  predicate Lent(st: Library, st': Library, b: int, m: int, today: int)
  {
    && b in st.books
    && st'.nextLoanId == st.nextLoanId + 1
    && st'.loans.Keys == st.loans.Keys + {st.nextLoanId}
    && (forall id :: id in st.loans && id != st.nextLoanId ==> st'.loans[id] == st.loans[id])
    && st'.loans[st.nextLoanId] == NewLoan(b, m, today)
    && st'.books.Keys == st.books.Keys
    && st'.books[b].copiesAvailable == st.books[b].copiesAvailable - 1
    && st'.books[b] == st.books[b].(copiesAvailable := st'.books[b].copiesAvailable)
    && (forall k :: k in st.books && k != b ==> st'.books[k] == st.books[k])
    && st'.nextBookId == st.nextBookId
    && SameOutsideLedger(st, st')
  }

  /** The INSERT into `loans` followed by the UPDATE of `books` that both
      borrow paths run once their checks have passed. */
  function Lend(st: Library, b: int, m: int, today: int): (st': Library)
    requires b in st.books
    ensures Lent(st, st', b, m, today)
  {
    var book := st.books[b];
    st.(loans := st.loans[st.nextLoanId := NewLoan(b, m, today)],
        nextLoanId := st.nextLoanId + 1,
        books := st.books[b := book.(copiesAvailable := book.copiesAvailable - 1)])
  }

  /** `MainWindow.borrow_book`. `memberId` is the id the window resolved at
      start-up, `None` when the user has no member record. */
  function Borrow(st: Library, memberId: Option<int>, b: int, today: int): (r: Result<Library>)
    ensures memberId.None? ==> r == Err(MemberRecordNotFound)
    ensures memberId.Some? && (b !in st.books || st.books[b].copiesAvailable <= 0)
            ==> r == Err(NoCopiesAvailable)
    ensures memberId.Some? && b in st.books && st.books[b].copiesAvailable > 0
            && ActiveLoanCount(st.loans, memberId.value) >= MaxActiveLoans
            ==> r == Err(BorrowLimitExceeded)
    ensures r.Ok? <==> (&& memberId.Some? && b in st.books && st.books[b].copiesAvailable > 0
                        && ActiveLoanCount(st.loans, memberId.value) < MaxActiveLoans)
    ensures r.Ok? ==> Lent(st, r.value, b, memberId.value, today)
                      && r.value.books[b].copiesAvailable >= 0
  {
    match memberId
    case None => Err(MemberRecordNotFound)
    case Some(m) =>
      if b !in st.books || st.books[b].copiesAvailable <= 0 then Err(NoCopiesAvailable)
      else if ActiveLoanCount(st.loans, m) >= MaxActiveLoans then Err(BorrowLimitExceeded)
      else Ok(Lend(st, b, m, today))
  }

  /** `Member.borrow_book`: the same effect as `Borrow`, with no active-loan
      cap. A missing book fails at the fetch, before any write. */
  function MemberBorrow(st: Library, memberId: int, b: int, today: int): (r: Result<Library>)
    ensures b !in st.books ==> r == Err(BookNotFound)
    ensures b in st.books && st.books[b].copiesAvailable <= 0 ==> r == Err(NoCopiesAvailable)
    ensures r.Ok? <==> b in st.books && st.books[b].copiesAvailable > 0
    ensures r.Ok? ==> Lent(st, r.value, b, memberId, today) && r.value.books[b].copiesAvailable >= 0
  {
    if b !in st.books then Err(BookNotFound)
    else if st.books[b].copiesAvailable <= 0 then Err(NoCopiesAvailable)
    else Ok(Lend(st, b, memberId, today))
  }

  /** The loan row after its return on day `today`. */
  function Closed(loan: Loan, today: int): (loan': Loan)
    ensures loan'.status == Returned && loan'.returnDay == Some(today)
    ensures loan'.bookId == loan.bookId && loan'.memberId == loan.memberId
    ensures loan'.loanDay == loan.loanDay && loan'.dueDay == loan.dueDay
  {
    loan.(status := Returned, returnDay := Some(today))
  }

  /** `MainWindow.return_book` as written: the two UPDATEs by loan id and by
      the book id read from the selected row, with no look at the loan's
      status. An UPDATE whose WHERE matches no row changes nothing. */
  function ReturnUnchecked(st: Library, loanId: int, b: int, today: int): (st': Library)
    ensures st'.loans.Keys == st.loans.Keys && st'.books.Keys == st.books.Keys
    ensures loanId in st.loans ==> st'.loans[loanId] == Closed(st.loans[loanId], today)
    ensures forall id :: id in st.loans && id != loanId ==> st'.loans[id] == st.loans[id]
    ensures b in st.books ==> && st'.books[b].copiesAvailable == st.books[b].copiesAvailable + 1
                              && st'.books[b] == st.books[b].(copiesAvailable := st'.books[b].copiesAvailable)
    ensures forall k :: k in st.books && k != b ==> st'.books[k] == st.books[k]
    ensures st'.nextLoanId == st.nextLoanId && st'.nextBookId == st.nextBookId
    ensures SameOutsideLedger(st, st')
  {
    var loans := if loanId in st.loans then st.loans[loanId := Closed(st.loans[loanId], today)]
                 else st.loans;
    var books := if b in st.books
                 then st.books[b := st.books[b].(copiesAvailable := st.books[b].copiesAvailable + 1)]
                 else st.books;
    st.(loans := loans, books := books)
  }

  /** A return issued from the return tab, which lists only the member's
      loans whose status is 'borrowed' and takes the book id from the loan. */
  function Return(st: Library, loanId: int, today: int): (st': Library)
    requires loanId in st.loans && st.loans[loanId].status == Borrowed
    ensures st'.loans == st.loans[loanId := Closed(st.loans[loanId], today)]
    ensures st'.books.Keys == st.books.Keys
    ensures var b := st.loans[loanId].bookId;
            b in st.books ==> && st'.books[b].copiesAvailable == st.books[b].copiesAvailable + 1
                              && st'.books[b] == st.books[b].(copiesAvailable := st'.books[b].copiesAvailable)
    ensures forall k :: k in st.books && k != st.loans[loanId].bookId ==> st'.books[k] == st.books[k]
    ensures st'.nextLoanId == st.nextLoanId && st'.nextBookId == st.nextBookId
    ensures SameOutsideLedger(st, st')
  {
    ReturnUnchecked(st, loanId, st.loans[loanId].bookId, today)
  }

  /** The rows of the return tab: the member's loans whose status is
      'borrowed' and whose book row exists (the query joins `books`), none
      when no member record was resolved. In a consistent ledger every loan's
      book exists, so the tab lists all of the member's open loans. */
  function ReturnTabRows(st: Library, memberId: Option<int>): (rows: set<int>)
    ensures memberId.None? ==> rows == {}
    ensures memberId.Some? ==>
              forall id :: id in rows <==> && id in st.loans && st.loans[id].memberId == memberId.value
                                           && st.loans[id].status == Borrowed
                                           && st.loans[id].bookId in st.books
    ensures memberId.Some? && LedgerValid(st) ==> |rows| == ActiveLoanCount(st.loans, memberId.value)
  {
    match memberId
    case None => {}
    case Some(m) =>
      var rows := set id | id in st.loans && st.loans[id].memberId == m && st.loans[id].status == Borrowed
                           && st.loans[id].bookId in st.books;
      if LedgerValid(st) then OpenLoansHaveBooks(st, m, rows); rows else rows
  }

  /** In a consistent ledger the join with `books` drops no open loan. */
  lemma {:induction false} OpenLoansHaveBooks(st: Library, m: int, rows: set<int>)
    requires LedgerValid(st)
    requires forall id :: id in rows <==> && id in st.loans && st.loans[id].memberId == m
                                          && st.loans[id].status == Borrowed
                                          && st.loans[id].bookId in st.books
    ensures rows == OpenLoansOfMember(st.loans, m)
  {
    var open := OpenLoansOfMember(st.loans, m);
    forall id | id in open ensures id in rows {
      assert id in st.loans && st.loans[id].bookId in st.books;
    }
    forall id | id in rows ensures id in open {
    }
    assert rows == open;
  }

  // ---------------------------------------------------------------------
  // Counting facts about single steps
  // ---------------------------------------------------------------------

  /** A successful borrow on either path puts exactly one more copy of that
      book on loan and gives exactly that member one more open loan. */
  lemma {:induction false} LentCounts(st: Library, st': Library, b: int, m: int, today: int)
    requires LedgerValid(st) && Lent(st, st', b, m, today)
    ensures OnLoan(st'.loans, b) == OnLoan(st.loans, b) + 1
    ensures forall k :: k != b ==> OnLoan(st'.loans, k) == OnLoan(st.loans, k)
    ensures ActiveLoanCount(st'.loans, m) == ActiveLoanCount(st.loans, m) + 1
    ensures forall n :: n != m ==> ActiveLoanCount(st'.loans, n) == ActiveLoanCount(st.loans, n)
  {
    var inserted := st.loans[st.nextLoanId := NewLoan(b, m, today)];
    assert st'.loans.Keys == inserted.Keys;
    forall id | id in inserted ensures st'.loans[id] == inserted[id] {
      if id != st.nextLoanId {
        assert id in st.loans;
      }
    }
    assert st'.loans == inserted;
    CountsAfterInsert(st.loans, st.nextLoanId, NewLoan(b, m, today));
  }

  /** Returning an open loan takes exactly one copy of its book off loan and
      exactly one open loan from its member. */
  lemma {:induction false} ReturnCounts(st: Library, loanId: int, today: int)
    requires loanId in st.loans && st.loans[loanId].status == Borrowed
    ensures var st' := Return(st, loanId, today);
            var b := st.loans[loanId].bookId;
            var m := st.loans[loanId].memberId;
            && OnLoan(st'.loans, b) == OnLoan(st.loans, b) - 1
            && (forall k :: k != b ==> OnLoan(st'.loans, k) == OnLoan(st.loans, k))
            && ActiveLoanCount(st'.loans, m) == ActiveLoanCount(st.loans, m) - 1
            && (forall n :: n != m ==> ActiveLoanCount(st'.loans, n) == ActiveLoanCount(st.loans, n))
  {
    CountsAfterClose(st.loans, loanId, Closed(st.loans[loanId], today));
  }

  // ---------------------------------------------------------------------
  // Invariants
  // ---------------------------------------------------------------------

  /** Conservation (available + open loans = total) and referential
      integrity survive any successful lend, on either borrow path. */
  lemma {:induction false} LentPreservesValid(st: Library, st': Library, b: int, m: int, today: int)
    requires LedgerValid(st) && Lent(st, st', b, m, today)
    ensures LedgerValid(st')
  {
    LentCounts(st, st', b, m, today);
    forall k | k in st'.books
      ensures st'.books[k].copiesAvailable + OnLoan(st'.loans, k) == st'.books[k].copiesTotal
    {
      if k != b {
        assert st'.books[k] == st.books[k];
      }
    }
  }

  lemma {:induction false} BorrowPreservesValid(st: Library, memberId: Option<int>, b: int, today: int)
    requires LedgerValid(st)
    ensures Borrow(st, memberId, b, today).Ok? ==> LedgerValid(Borrow(st, memberId, b, today).value)
  {
    var r := Borrow(st, memberId, b, today);
    if r.Ok? {
      LentPreservesValid(st, r.value, b, memberId.value, today);
    }
  }

  lemma {:induction false} MemberBorrowPreservesValid(st: Library, memberId: int, b: int, today: int)
    requires LedgerValid(st)
    ensures MemberBorrow(st, memberId, b, today).Ok?
            ==> LedgerValid(MemberBorrow(st, memberId, b, today).value)
  {
    var r := MemberBorrow(st, memberId, b, today);
    if r.Ok? {
      LentPreservesValid(st, r.value, b, memberId, today);
    }
  }

  /** The main-window borrow never lets a member exceed three open loans. */
  lemma {:induction false} BorrowPreservesCap(st: Library, memberId: Option<int>, b: int, today: int)
    requires LedgerValid(st) && WithinCap(st)
    ensures Borrow(st, memberId, b, today).Ok? ==> WithinCap(Borrow(st, memberId, b, today).value)
  {
    var r := Borrow(st, memberId, b, today);
    if r.Ok? {
      var m := memberId.value;
      LentCounts(st, r.value, b, m, today);
      forall n ensures ActiveLoanCount(r.value.loans, n) <= MaxActiveLoans {
        if n != m {
          assert ActiveLoanCount(st.loans, n) <= MaxActiveLoans;
        }
      }
    }
  }

  lemma {:induction false} ReturnPreservesValid(st: Library, loanId: int, today: int)
    requires LedgerValid(st)
    requires loanId in st.loans && st.loans[loanId].status == Borrowed
    ensures LedgerValid(Return(st, loanId, today))
  {
    var st' := Return(st, loanId, today);
    var b := st.loans[loanId].bookId;
    ReturnCounts(st, loanId, today);
    forall k | k in st'.books
      ensures st'.books[k].copiesAvailable + OnLoan(st'.loans, k) == st'.books[k].copiesTotal
    {
      if k != b {
        assert st'.books[k] == st.books[k];
      }
    }
  }

  lemma {:induction false} ReturnPreservesCap(st: Library, loanId: int, today: int)
    requires WithinCap(st)
    requires loanId in st.loans && st.loans[loanId].status == Borrowed
    ensures WithinCap(Return(st, loanId, today))
  {
    var st' := Return(st, loanId, today);
    ReturnCounts(st, loanId, today);
    forall n ensures ActiveLoanCount(st'.loans, n) <= MaxActiveLoans {
      assert ActiveLoanCount(st.loans, n) <= MaxActiveLoans;
    }
  }

  /** Every row the return tab offers may be returned, so the precondition
      of `Return` is what the window guarantees. */
  lemma {:induction false} ReturnTabRowsAreReturnable(st: Library, memberId: int, loanId: int)
    requires loanId in ReturnTabRows(st, Some(memberId))
    ensures loanId in st.loans && st.loans[loanId].status == Borrowed
    ensures st.loans[loanId].memberId == memberId
  {
  }

  // ---------------------------------------------------------------------
  // Round trip and the unchecked return
  // ---------------------------------------------------------------------

  /** Borrowing a book and returning the loan just created restores every
      book's copy counts and every member's number of open loans. */
  lemma {:induction false} BorrowThenReturn(st: Library, m: int, b: int, today: int, later: int)
    requires LedgerValid(st)
    requires Borrow(st, Some(m), b, today).Ok?
    ensures var st1 := Borrow(st, Some(m), b, today).value;
            && st.nextLoanId in st1.loans && st1.loans[st.nextLoanId].status == Borrowed
            && Return(st1, st.nextLoanId, later).books == st.books
            && forall n :: ActiveLoanCount(Return(st1, st.nextLoanId, later).loans, n)
                           == ActiveLoanCount(st.loans, n)
  {
    var st1 := Borrow(st, Some(m), b, today).value;
    var st2 := Return(st1, st.nextLoanId, later);
    LentCounts(st, st1, b, m, today);
    ReturnCounts(st1, st.nextLoanId, later);
    assert st2.books[b] == st.books[b];
    assert st2.books == st.books;
  }

  /** Without the open-loan precondition, returning the same loan a second
      time, on day `later`, only moves its return date to `later`, yet puts a
      second copy back on the shelf although only one came off: the book then
      has more copies available than its open loans allow. */
  lemma {:induction false} SecondReturnOverIncrements(st: Library, loanId: int, today: int, later: int)
    requires LedgerValid(st)
    requires loanId in st.loans && st.loans[loanId].status == Borrowed
    ensures var b := st.loans[loanId].bookId;
            var st1 := Return(st, loanId, today);
            var st2 := ReturnUnchecked(st1, loanId, b, later);
            && st2.loans == st1.loans[loanId := st1.loans[loanId].(returnDay := Some(later))]
            && st2.books[b].copiesAvailable == st.books[b].copiesAvailable + 2
            && st2.books[b].copiesAvailable + OnLoan(st2.loans, b) == st2.books[b].copiesTotal + 1
            && !LedgerValid(st2)
  {
    var b := st.loans[loanId].bookId;
    var st1 := Return(st, loanId, today);
    var st2 := ReturnUnchecked(st1, loanId, b, later);
    ReturnCounts(st, loanId, today);
    assert st2.loans == st1.loans[loanId := st1.loans[loanId].(returnDay := Some(later))];
    assert OpenLoansOfBook(st2.loans, b) == OpenLoansOfBook(st1.loans, b);
    assert st2.books[b].copiesTotal == st.books[b].copiesTotal;
  }
}
