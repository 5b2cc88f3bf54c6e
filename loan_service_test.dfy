/**
  The circulation scenarios of the service tests, run against a fresh store
  and proved for every clock reading `now`.
 */
module LoanServiceTest {
  import opened Wrappers
  import opened SqlStore
  import opened Ledger
  import BookService
  import MemberService
  import opened LoanService

  /** A fresh store with one book of the given copies and one member, both
      created through their services. */
  method Fixture(isbn: string, copies: int32, email: string) returns (store: Store, bookId: nat, memberId: nat)
    ensures fresh(store) && store.Valid()
    ensures LiveBook(store.State(), bookId) && LiveMember(store.State(), memberId)
    ensures store.books[bookId].totalCopies == copies && store.books[bookId].availableCopies == copies
    ensures store.members[memberId].email == email && store.members[memberId].roleId.None?
    ensures store.books.Keys == {bookId} && store.members.Keys == {memberId}
    ensures store.loans == map[] && store.reservations == map[]
  {
    store := new Store();
    var book := BookService.Create(store, BookService.BookInput("Title", "Author", isbn, copies, copies));
    bookId := store.bookSeq - 1;
    var member := MemberService.Create(store, MemberService.MemberInput("Name", email));
    memberId := store.memberSeq - 1;
  }

  /** Borrowing one of two copies leaves one on the shelf and opens a loan
      due fourteen days later. */
  method BorrowCreatesLoanAndDecrementsCopies(now: int) returns (available: int, loan: Result<Loan>)
    ensures available == 1
    ensures loan.Ok? && loan.value.row.borrowedAt == now && loan.value.row.dueDate == now + 14 * SecondsPerDay
    ensures loan.value.row.returnedAt.None?
  {
    var store, bookId, memberId := Fixture("isbn-1", 2, "alice@example.com");
    assert OpenLoansOf(store.loans, memberId, None) == {};
    assert OpenLoansOf(store.loans, memberId, Some(now)) == {};
    loan := Borrow(store, DefaultBorrowing, bookId, memberId, now);
    var book := BookService.Get(store.State(), bookId);
    available := book.value.availableCopies;
  }

  /** With a limit of one active loan, the second borrow fails. */
  method BorrowFailsWhenMemberOverLimit(now: int) returns (first: Result<Loan>, second: Result<Loan>)
    ensures first.Ok?
    ensures second == Err(BusinessRule(MaxActiveLoansReached))
  {
    var cfg := BorrowingConfig(1, 14);
    var store, bookId, memberId := Fixture("isbn-2", 10, "bob@example.com");
    assert OpenLoansOf(store.loans, memberId, None) == {};
    assert OpenLoansOf(store.loans, memberId, Some(now)) == {};
    first := Borrow(store, cfg, bookId, memberId, now);
    assert first.value.id in OpenLoansOf(store.loans, memberId, None);
    second := Borrow(store, cfg, bookId, memberId, now);
  }

  /** A loan that fell due a day ago blocks the next borrow. */
  method BorrowFailsWhenOverdueLoanExists(now: int) returns (r: Result<Loan>)
    ensures r == Err(BusinessRule(OverdueLoans))
  {
    var store, bookId, memberId := Fixture("isbn-3", 3, "carol@example.com");
    var id := store.InsertLoan(bookId, memberId, now - 30 * SecondsPerDay, now - SecondsPerDay);
    assert OpenLoansOf(store.loans, memberId, None) == {id};
    assert id in OpenLoansOf(store.loans, memberId, Some(now));
    r := Borrow(store, DefaultBorrowing, bookId, memberId, now);
  }

  /** A fresh store with one copy of one book and two members. */
  method TwoMembers() returns (store: Store, bookId: nat, holder: nat, waiter: nat)
    ensures fresh(store) && store.Valid()
    ensures Balanced(store.State()) && CopiesWithinTotal(store.books)
    ensures LiveBook(store.State(), bookId) && store.books[bookId].availableCopies == 1
    ensures LiveMember(store.State(), holder) && LiveMember(store.State(), waiter) && holder != waiter
    ensures store.loans == map[] && store.reservations == map[]
  {
    store, bookId, holder := Fixture("isbn-4", 1, "holder@example.com");
    assert Balanced(store.State()) && CopiesWithinTotal(store.books) by {
      assert forall b :: b in store.books ==> OnLoan(store.loans, b) == {};
    }
    assert "holder@example.com"[0] != "waiter@example.com"[0];
    assert !MemberService.EmailTaken(store.State(), "waiter@example.com");
    var created := MemberService.Create(store, MemberService.MemberInput("Other", "waiter@example.com"));
    waiter := store.memberSeq - 1;
  }

  /** One member borrows the only copy of a book; a second member exists
      with no loans. */
  method LastCopyLent(now: int) returns (store: Store, bookId: nat, loanId: nat, waiter: nat)
    ensures fresh(store) && store.Valid()
    ensures Balanced(store.State()) && CopiesWithinTotal(store.books)
    ensures LiveBook(store.State(), bookId) && store.books[bookId].availableCopies == 0
    ensures IsOpenLoan(store.State(), loanId) && store.loans[loanId].bookId == bookId
    ensures store.loans.Keys == {loanId} && store.loans[loanId].memberId != waiter
    ensures LiveMember(store.State(), waiter) && store.reservations == map[]
  {
    var holder;
    store, bookId, holder, waiter := TwoMembers();
    assert OpenLoansOf(store.loans, holder, None) == {};
    assert OpenLoansOf(store.loans, holder, Some(now)) == {};
    ghost var before := store.State();
    var lent := Borrow(store, DefaultBorrowing, bookId, holder, now);
    BorrowKeepsLedger(before, store.State(), lent, DefaultBorrowing, bookId, holder, now);
    loanId := lent.value.id;
  }

  /** The last copy is on loan to one member when another asks for it: the
      second borrow fails and queues a reservation. */
  method QueueBehindLastCopy(now: int)
    returns (store: Store, bookId: nat, loanId: nat, waiter: nat, waiting: Result<Loan>)
    ensures fresh(store) && store.Valid()
    ensures Balanced(store.State()) && CopiesWithinTotal(store.books)
    ensures LiveBook(store.State(), bookId) && store.books[bookId].availableCopies == 0
    ensures IsOpenLoan(store.State(), loanId) && store.loans[loanId].bookId == bookId
    ensures waiting.Err? && waiting.failure.BusinessRule? && waiting.failure.reason.NoCopiesReservationCreated?
    ensures LiveMember(store.State(), waiter)
    ensures var k := waiting.failure.reason.reservationId;
      IsNextToFulfil(store.reservations, bookId, k) && store.reservations[k].memberId == waiter
  {
    store, bookId, loanId, waiter := LastCopyLent(now);
    assert OpenLoansOf(store.loans, waiter, None) == {};
    assert OpenLoansOf(store.loans, waiter, Some(now)) == {};
    ghost var before := store.State();
    waiting := Borrow(store, DefaultBorrowing, bookId, waiter, now);
    BorrowKeepsLedger(before, store.State(), waiting, DefaultBorrowing, bookId, waiter, now);
    var k := waiting.failure.reason.reservationId;
    assert store.reservations.Keys == {k};
    assert IsNextToFulfil(store.reservations, bookId, k);
  }

  /** The return of that copy hands it straight to the waiting member: the
      reservation is FULFILLED and the waiting member holds a loan for it. */
  method ReturnHandsCopyToWaitingMember(now: int)
    returns (returned: Result<Loan>, status: ReservationStatus, available: int, handedOn: LoanRow,
             waiter: nat, bookId: nat)
    ensures returned.Ok? && returned.value.row.returnedAt == Some(now + 1)
    ensures handedOn.memberId == waiter && handedOn.bookId == bookId
    ensures status == Fulfilled
    ensures available == 0
    ensures handedOn.returnedAt.None? && handedOn.borrowedAt == now + 1
    ensures handedOn.dueDate == now + 1 + 14 * SecondsPerDay
  {
    var store, loanId, waiting;
    store, bookId, loanId, waiter, waiting := QueueBehindLastCopy(now);
    var k := waiting.failure.reason.reservationId;
    var nextLoan := store.loanSeq;
    ghost var before := store.State();
    returned := ReturnLoan(store, DefaultBorrowing, loanId, now + 1);
    ReturnServesQueue(before, store.State(), returned, DefaultBorrowing, loanId, k, now + 1);
    ReturnKeepsLedger(before, store.State(), returned, DefaultBorrowing, loanId, now + 1);
    status := store.reservations[k].status;
    available := store.books[bookId].availableCopies;
    handedOn := store.loans[nextLoan];
  }
}
