/**
  The inventory ledger: the copy counts of a book against its loans.

  Two invariants are stated here. `CopiesWithinTotal` is the catalog rule
  0 <= available <= total. `Balanced` is the accounting rule the borrow and
  return paths keep: the available copies of a book plus its open loans make
  up its total. The lemmas show which statement sequences keep them.
 */
module Ledger {
  import opened Wrappers
  import opened SqlStore

  predicate CopiesWithinTotal(books: map<nat, BookRow>) {
    forall id :: id in books ==> 0 <= books[id].availableCopies <= books[id].totalCopies
  }

  /** The open loans of a book. */
  function OnLoan(loans: map<nat, LoanRow>, bookId: nat): set<nat> {
    set id | id in loans && loans[id].bookId == bookId && loans[id].returnedAt.None?
  }

  predicate Balanced(t: Tables) {
    forall b :: b in t.books ==> t.books[b].availableCopies + |OnLoan(t.loans, b)| == t.books[b].totalCopies
  }

  /** Adding a loan under a fresh id adds it to its book's open loans, if it
      is open, and leaves every other book's open loans as they were. */
  lemma OnLoanAfterInsert(loans: map<nat, LoanRow>, k: nat, row: LoanRow, b: nat)
    requires k !in loans
    ensures row.bookId == b && row.returnedAt.None? ==>
      OnLoan(loans[k := row], b) == OnLoan(loans, b) + {k} && |OnLoan(loans[k := row], b)| == |OnLoan(loans, b)| + 1
    ensures !(row.bookId == b && row.returnedAt.None?) ==> OnLoan(loans[k := row], b) == OnLoan(loans, b)
  {
    if row.bookId == b && row.returnedAt.None? {
      assert OnLoan(loans[k := row], b) == OnLoan(loans, b) + {k};
      assert k !in OnLoan(loans, b);
    } else {
      assert OnLoan(loans[k := row], b) == OnLoan(loans, b);
    }
  }

  /** Closing an open loan removes it from its book's open loans only. */
  lemma OnLoanAfterReturn(loans: map<nat, LoanRow>, k: nat, at: int, b: nat)
    requires k in loans && loans[k].returnedAt.None?
    ensures loans[k].bookId == b ==>
      OnLoan(loans[k := loans[k].(returnedAt := Some(at))], b) == OnLoan(loans, b) - {k}
      && |OnLoan(loans[k := loans[k].(returnedAt := Some(at))], b)| == |OnLoan(loans, b)| - 1
    ensures loans[k].bookId != b ==>
      OnLoan(loans[k := loans[k].(returnedAt := Some(at))], b) == OnLoan(loans, b)
  {
    var after := loans[k := loans[k].(returnedAt := Some(at))];
    if loans[k].bookId == b {
      assert OnLoan(after, b) == OnLoan(loans, b) - {k};
      assert k in OnLoan(loans, b);
    } else {
      assert OnLoan(after, b) == OnLoan(loans, b);
    }
  }

  /** Both guarded copy updates keep 0 <= available <= total. */
  lemma GuardedUpdatesKeepCopiesWithinTotal(t: Tables, id: nat)
    requires CopiesWithinTotal(t.books)
    ensures CopiesWithinTotal(Decremented(t, id).books)
    ensures CopiesWithinTotal(Incremented(t, id).books)
  {
  }

  /** Lending a copy (decrement, then an open loan for that book under a
      fresh id) keeps every book balanced. */
  lemma LendingKeepsBalance(t: Tables, bookId: nat, memberId: nat, at: int, due: int)
    requires WellFormed(t) && Balanced(t) && CanDecrement(t, bookId)
    ensures Balanced(InsertedLoan(Decremented(t, bookId), bookId, memberId, at, due))
  {
    var t1 := Decremented(t, bookId);
    var t2 := InsertedLoan(t1, bookId, memberId, at, due);
    var row := LoanRow(bookId, memberId, at, due, None);
    forall b | b in t2.books
      ensures t2.books[b].availableCopies + |OnLoan(t2.loans, b)| == t2.books[b].totalCopies
    {
      OnLoanAfterInsert(t1.loans, t.loanSeq, row, b);
    }
  }

  /** Returning an open loan of a balanced store always finds the increment's
      guard true for the loan's book, and the increment rebalances it. */
  lemma ReturningKeepsBalance(t: Tables, loanId: nat, at: int)
    requires Balanced(t) && IsOpenLoan(t, loanId)
    ensures t.loans[loanId].bookId in t.books ==> CanIncrement(MarkedReturned(t, loanId, at), t.loans[loanId].bookId)
    ensures Balanced(Incremented(MarkedReturned(t, loanId, at), t.loans[loanId].bookId))
  {
    var bookId := t.loans[loanId].bookId;
    var t1 := MarkedReturned(t, loanId, at);
    if bookId in t.books {
      OnLoanAfterReturn(t.loans, loanId, at, bookId);
      assert loanId in OnLoan(t.loans, bookId);
    }
    var t2 := Incremented(t1, bookId);
    forall b | b in t2.books
      ensures t2.books[b].availableCopies + |OnLoan(t2.loans, b)| == t2.books[b].totalCopies
    {
      OnLoanAfterReturn(t.loans, loanId, at, b);
    }
  }

  /** Statements on members, roles and reservations leave the ledger alone. */
  lemma LedgerIgnoresOtherTables(t: Tables, u: Tables)
    requires t.books == u.books && t.loans == u.loans
    ensures Balanced(t) <==> Balanced(u)
    ensures CopiesWithinTotal(t.books) <==> CopiesWithinTotal(u.books)
  {
  }
}
