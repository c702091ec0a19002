/** The book catalog: `Book.add_book`. */
module Catalog {
  import opened Store

  /** `Book.add_book`: one INSERT into `books` with both copy counts set to
      `copies`. Nothing validates `copies`; any integer is stored. */
  function AddBook(st: Library, title: string, isbn: string, authorId: string, category: string,
                   copies: int): (st': Library)
    ensures st'.nextBookId == st.nextBookId + 1
    ensures st'.books.Keys == st.books.Keys + {st.nextBookId}
    ensures var book := st'.books[st.nextBookId];
            && book.title == title && book.isbn == isbn
            && book.authorId == authorId && book.category == category
            && book.copiesTotal == copies && book.copiesAvailable == copies
    ensures forall k :: k in st.books && k != st.nextBookId ==> st'.books[k] == st.books[k]
    ensures st'.loans == st.loans && st'.nextLoanId == st.nextLoanId
    ensures SameOutsideLedger(st, st')
  {
    st.(books := st.books[st.nextBookId := Book(title, isbn, authorId, category, copies, copies)],
        nextBookId := st.nextBookId + 1)
  }

  /** A new book has no open loans, so every copy of it is available and the
      ledger's invariant survives the insert. */
  lemma {:induction false} AddBookPreservesValid(st: Library, title: string, isbn: string,
                                                 authorId: string, category: string, copies: int)
    requires LedgerValid(st)
    ensures var st' := AddBook(st, title, isbn, authorId, category, copies);
            && OnLoan(st'.loans, st.nextBookId) == 0
            && LedgerValid(st')
  {
    var st' := AddBook(st, title, isbn, authorId, category, copies);
    assert OpenLoansOfBook(st.loans, st.nextBookId) == {} by {
      forall id | id in st.loans ensures st.loans[id].bookId != st.nextBookId {
        assert st.loans[id].bookId in st.books;
      }
    }
    forall k | k in st'.books
      ensures st'.books[k].copiesAvailable + OnLoan(st'.loans, k) == st'.books[k].copiesTotal
    {
      if k != st.nextBookId {
        assert k in st.books;
      }
    }
  }
}
