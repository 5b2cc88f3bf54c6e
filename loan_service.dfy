/**
  The circulation engine: borrowing, returning, the reservation queue's
  fulfilment on return, and the loan search filter.

  A service call reads the clock once; `now` is that instant in seconds.
  The borrowing limits are a parameter (`BorrowingConfig`).
 */
module LoanService {
  import opened Wrappers
  import opened JavaText
  import opened SqlStore
  import opened Ledger
  import ReservationService

  const SecondsPerDay: int := 86400

  /** app.borrowing.max-active-loans-per-member and app.borrowing.max-loan-days. */
  datatype BorrowingConfig = BorrowingConfig(maxActiveLoansPerMember: int, maxLoanDays: int)

  const DefaultBorrowing := BorrowingConfig(5, 14)

  /** borrowedAt plus maxLoanDays whole days. */
  function DueDate(borrowedAt: int, cfg: BorrowingConfig): int {
    borrowedAt + cfg.maxLoanDays * SecondsPerDay
  }

  datatype Loan = Loan(id: nat, row: LoanRow)

  /** get: the loan under that id, or NotFound. */
  function Get(t: Tables, id: nat): (r: Result<Loan>)
    ensures r.Ok? <==> id in t.loans
    ensures r.Ok? ==> r.value.id == id
    ensures r.Err? ==> r.failure == NotFound(LoanNotFound)
  {
    if id in t.loans then Ok(Loan(id, t.loans[id])) else Err(NotFound(LoanNotFound))
  }

  // ---------------------------------------------------------------------------
  // Role names
  // ---------------------------------------------------------------------------

  /** getRoleName as evidently intended: the role's name, and "MEMBER" when the
      member has no role, the role row is missing or its name is null. */
  function RoleName(t: Tables, roleId: Option<nat>): (name: string)
    ensures forall m :: LiveMember(t, m) && t.members[m].roleId == roleId ==>
      name == ReservationService.ResolveRoleNameForMember(t, m)
  {
    match roleId
    case None => "MEMBER"
    case Some(id) =>
      if id !in t.roles then "MEMBER"
      else match t.roles[id].name
        case None => "MEMBER"
        case Some(n) => n
  }

  /** getRoleName as written: the lookup's parameter map rejects a null role
      id, so for a member without a role the call throws (None here). */
  function RoleNameAsWritten(t: Tables, roleId: Option<nat>): (name: Option<string>)
    ensures name.None? <==> roleId.None?
    ensures name.Some? ==> name.value == RoleName(t, roleId)
  {
    match roleId
    case None => None
    case Some(id) =>
      if id !in t.roles then Some("MEMBER")
      else match t.roles[id].name
        case None => Some("MEMBER")
        case Some(n) => Some(n)
  }

  /** Every member the member service creates has no role, so as written a
      borrow of an out-of-stock book by such a member throws instead of
      queueing a reservation. */
  lemma RoleNameAsWrittenFailsForCreatedMembers(t: Tables, name: string, email: string)
    ensures var t1 := InsertedMember(t, name, email);
      RoleNameAsWritten(t1, t1.members[t.memberSeq].roleId).None?
  {
  }

  /** The corrected lookup agrees with the written one wherever that one
      returns, and with the reservation service's resolver for live members. */
  lemma RoleNameAgrees(t: Tables, memberId: nat, roleId: Option<nat>)
    ensures RoleNameAsWritten(t, roleId).Some? ==> RoleNameAsWritten(t, roleId) == Some(RoleName(t, roleId))
    ensures LiveMember(t, memberId) ==>
      RoleName(t, t.members[memberId].roleId) == ReservationService.ResolveRoleNameForMember(t, memberId)
  {
  }

  // ---------------------------------------------------------------------------
  // Lookups by keys
  // ---------------------------------------------------------------------------

  predicate HasKeys(l: LoanRow, bookId: nat, memberId: nat, borrowedAt: int) {
    l.bookId == bookId && l.memberId == memberId && l.borrowedAt == borrowedAt
  }

  predicate KeysTaken(t: Tables, bookId: nat, memberId: nat, borrowedAt: int) {
    exists k :: k in t.loans && HasKeys(t.loans[k], bookId, memberId, borrowedAt)
  }

  /** The loan the lookup by keys reaches first. */
  predicate FirstWithKeys(t: Tables, bookId: nat, memberId: nat, borrowedAt: int, k: nat) {
    k in t.loans && HasKeys(t.loans[k], bookId, memberId, borrowedAt)
    && forall j :: j in t.loans && j < k ==> !HasKeys(t.loans[j], bookId, memberId, borrowedAt)
  }

  /** getLoanByKeys */
  method GetLoanByKeys(store: Store, bookId: nat, memberId: nat, borrowedAt: int) returns (r: Result<Loan>)
    requires store.Valid()
    ensures r.Ok? <==> KeysTaken(store.State(), bookId, memberId, borrowedAt)
    ensures r.Ok? ==> FirstWithKeys(store.State(), bookId, memberId, borrowedAt, r.value.id)
                      && r.value.row == store.loans[r.value.id]
    ensures r.Err? ==> r.failure == NotFound(LoanNotFoundAfterInsert)
  {
    var found := FirstMatch(store.loans, store.loanSeq, (l: LoanRow) => HasKeys(l, bookId, memberId, borrowedAt));
    if found.None? {
      return Err(NotFound(LoanNotFoundAfterInsert));
    }
    r := Ok(Loan(found.value, store.loans[found.value]));
  }

  // ---------------------------------------------------------------------------
  // Borrow
  // ---------------------------------------------------------------------------

  /** The write half of borrow: the guarded decrement, then an open loan due
      maxLoanDays later, read back by its keys. */
  predicate LendSpec(t0: Tables, t1: Tables, r: Result<Loan>, cfg: BorrowingConfig,
                     bookId: nat, memberId: nat, now: int) {
    if !CanDecrement(t0, bookId) then
      t1 == t0 && r == Err(BusinessRule(NoCopiesToBorrow))
    else
      && t1 == InsertedLoan(Decremented(t0, bookId), bookId, memberId, now, DueDate(now, cfg))
      && r.Ok? && FirstWithKeys(t1, bookId, memberId, now, r.value.id) && r.value.row == t1.loans[r.value.id]
      && (!KeysTaken(t0, bookId, memberId, now) ==>
            r.value == Loan(t0.loanSeq, LoanRow(bookId, memberId, now, DueDate(now, cfg), None)))
  }

  /** borrow: book, then member (NotFound for a missing or soft-deleted row),
      then stock (an empty shelf queues a reservation and fails), then the
      active-loan limit, then overdue loans, then the write. */
  predicate BorrowSpec(t0: Tables, t1: Tables, r: Result<Loan>, cfg: BorrowingConfig,
                       bookId: nat, memberId: nat, now: int) {
    if !LiveBook(t0, bookId) then
      t1 == t0 && r == Err(NotFound(BookNotFound))
    else if !LiveMember(t0, memberId) then
      t1 == t0 && r == Err(NotFound(MemberNotFound))
    else if t0.books[bookId].availableCopies <= 0 then
      && t1 == InsertedReservation(t0, bookId, memberId, RoleName(t0, t0.members[memberId].roleId), now)
      && r.Err? && r.failure.BusinessRule? && r.failure.reason.NoCopiesReservationCreated?
      && ReservationService.FirstWithKeys(t1, bookId, memberId, now, r.failure.reason.reservationId)
      && (!ReservationService.KeysTaken(t0, bookId, memberId, now) ==>
            r.failure.reason.reservationId == t0.reservationSeq)
    else if |OpenLoansOf(t0.loans, memberId, None)| >= cfg.maxActiveLoansPerMember then
      t1 == t0 && r == Err(BusinessRule(MaxActiveLoansReached))
    else if |OpenLoansOf(t0.loans, memberId, Some(now))| > 0 then
      t1 == t0 && r == Err(BusinessRule(OverdueLoans))
    else
      LendSpec(t0, t1, r, cfg, bookId, memberId, now)
  }

  method Lend(store: Store, cfg: BorrowingConfig, bookId: nat, memberId: nat, now: int) returns (r: Result<Loan>)
    requires store.Valid()
    modifies store
    ensures store.Valid()
    ensures LendSpec(old(store.State()), store.State(), r, cfg, bookId, memberId, now)
  {
    var affected := store.DecrementCopies(bookId);
    if affected <= 0 {
      return Err(BusinessRule(NoCopiesToBorrow));
    }
    var id := store.InsertLoan(bookId, memberId, now, DueDate(now, cfg));
    assert id in store.loans && HasKeys(store.loans[id], bookId, memberId, now);
    r := GetLoanByKeys(store, bookId, memberId, now);
    assert FirstWithKeys(store.State(), bookId, memberId, now, r.value.id);
    assert !KeysTaken(old(store.State()), bookId, memberId, now) ==> r.value.id == id;
  }

  /** createReservation: the member's role name is recorded with the row. */
  method CreateReservation(store: Store, bookId: nat, memberId: nat, roleId: Option<nat>, now: int)
    returns (reservationId: nat)
    requires store.Valid()
    modifies store
    ensures store.Valid()
    ensures store.State() == InsertedReservation(old(store.State()), bookId, memberId, RoleName(old(store.State()), roleId), now)
    ensures ReservationService.FirstWithKeys(store.State(), bookId, memberId, now, reservationId)
    ensures !ReservationService.KeysTaken(old(store.State()), bookId, memberId, now) ==>
      reservationId == old(store.reservationSeq)
  {
    var roleName := RoleName(store.State(), roleId);
    var created := ReservationService.Create(store, bookId, memberId, roleName, now);
    reservationId := created.id;
  }

  method Borrow(store: Store, cfg: BorrowingConfig, bookId: nat, memberId: nat, now: int) returns (r: Result<Loan>)
    requires store.Valid()
    modifies store
    ensures store.Valid()
    ensures BorrowSpec(old(store.State()), store.State(), r, cfg, bookId, memberId, now)
  {
    if !LiveBook(store.State(), bookId) {
      return Err(NotFound(BookNotFound));
    }
    if !LiveMember(store.State(), memberId) {
      return Err(NotFound(MemberNotFound));
    }
    var book := store.books[bookId];
    var member := store.members[memberId];
    if book.availableCopies <= 0 {
      var reservationId := CreateReservation(store, bookId, memberId, member.roleId, now);
      return Err(BusinessRule(NoCopiesReservationCreated(reservationId)));
    }
    var active := store.CountOpenLoans(memberId, None);
    if active >= cfg.maxActiveLoansPerMember {
      return Err(BusinessRule(MaxActiveLoansReached));
    }
    var overdue := store.CountOpenLoans(memberId, Some(now));
    if overdue > 0 {
      return Err(BusinessRule(OverdueLoans));
    }
    r := Lend(store, cfg, bookId, memberId, now);
  }

  /** A successful borrow takes exactly one copy of the book and opens exactly
      one loan for the member, due maxLoanDays days later. */
  lemma SuccessfulBorrowEffect(t0: Tables, t1: Tables, r: Result<Loan>, cfg: BorrowingConfig,
                               bookId: nat, memberId: nat, now: int)
    requires WellFormed(t0) && BorrowSpec(t0, t1, r, cfg, bookId, memberId, now) && r.Ok?
    ensures bookId in t1.books
    ensures t1.books[bookId].availableCopies == t0.books[bookId].availableCopies - 1 >= 0
    ensures t1.loans == t0.loans[t0.loanSeq := LoanRow(bookId, memberId, now, DueDate(now, cfg), None)]
    ensures |OpenLoansOf(t1.loans, memberId, None)| == |OpenLoansOf(t0.loans, memberId, None)| + 1
    ensures t1.reservations == t0.reservations && t1.members == t0.members
  {
    assert CanDecrement(t0, bookId);
    var lent := Decremented(t0, bookId);
    assert t1 == InsertedLoan(lent, bookId, memberId, now, DueDate(now, cfg));
    assert t0.loanSeq !in t0.loans;
    assert OpenLoansOf(t1.loans, memberId, None) == OpenLoansOf(t0.loans, memberId, None) + {t0.loanSeq};
  }

  /** Every failed borrow leaves books and loans alone; only the out-of-stock
      failure writes anything, and what it writes is one PENDING reservation. */
  lemma FailedBorrowTakesNoCopy(t0: Tables, t1: Tables, r: Result<Loan>, cfg: BorrowingConfig,
                                bookId: nat, memberId: nat, now: int)
    requires BorrowSpec(t0, t1, r, cfg, bookId, memberId, now) && r.Err?
    ensures t1.books == t0.books && t1.loans == t0.loans && t1.members == t0.members
    ensures !r.failure.reason.NoCopiesReservationCreated? ==> t1 == t0
    ensures r.failure.reason.NoCopiesReservationCreated? ==>
      && t1.reservations.Keys == t0.reservations.Keys + {t0.reservationSeq}
      && t1.reservations[t0.reservationSeq].status == Pending
      && t1.reservations[t0.reservationSeq].createdAt == now
  {
  }

  /** Borrowing keeps the ledger: every book stays balanced and within its total. */
  lemma BorrowKeepsLedger(t0: Tables, t1: Tables, r: Result<Loan>, cfg: BorrowingConfig,
                          bookId: nat, memberId: nat, now: int)
    requires WellFormed(t0) && BorrowSpec(t0, t1, r, cfg, bookId, memberId, now)
    ensures Balanced(t0) ==> Balanced(t1)
    ensures CopiesWithinTotal(t0.books) ==> CopiesWithinTotal(t1.books)
  {
    if CopiesWithinTotal(t0.books) {
      GuardedUpdatesKeepCopiesWithinTotal(t0, bookId);
    }
    if r.Ok? {
      if Balanced(t0) {
        LendingKeepsBalance(t0, bookId, memberId, now, DueDate(now, cfg));
      }
    } else {
      FailedBorrowTakesNoCopy(t0, t1, r, cfg, bookId, memberId, now);
    }
  }

  /** The active-loan limit: with a limit of one, a member holding an open
      loan cannot borrow a book that has copies. */
  lemma LimitOfOneBlocksSecondLoan(t0: Tables, t1: Tables, r: Result<Loan>, bookId: nat, memberId: nat,
                                   loanId: nat, now: int)
    requires BorrowSpec(t0, t1, r, BorrowingConfig(1, 14), bookId, memberId, now)
    requires LiveBook(t0, bookId) && LiveMember(t0, memberId) && t0.books[bookId].availableCopies > 0
    requires loanId in t0.loans && t0.loans[loanId].memberId == memberId && t0.loans[loanId].returnedAt.None?
    ensures r == Err(BusinessRule(MaxActiveLoansReached)) && t1 == t0
  {
    assert loanId in OpenLoansOf(t0.loans, memberId, None);
  }

  /** The overdue block: a member holding an open loan due before now cannot
      borrow a book that has copies, while under the active-loan limit. */
  lemma OverdueLoanBlocksBorrow(t0: Tables, t1: Tables, r: Result<Loan>, cfg: BorrowingConfig,
                                bookId: nat, memberId: nat, loanId: nat, now: int)
    requires BorrowSpec(t0, t1, r, cfg, bookId, memberId, now)
    requires LiveBook(t0, bookId) && LiveMember(t0, memberId) && t0.books[bookId].availableCopies > 0
    requires |OpenLoansOf(t0.loans, memberId, None)| < cfg.maxActiveLoansPerMember
    requires loanId in t0.loans && Counted(t0.loans[loanId], memberId, Some(now))
    ensures r == Err(BusinessRule(OverdueLoans)) && t1 == t0
  {
    assert loanId in OpenLoansOf(t0.loans, memberId, Some(now));
  }

  /** The last copy is lent once: after one write half succeeds on a book with
      one copy left, the next one on that book fails and writes nothing. */
  lemma LastCopyLentOnce(t0: Tables, t1: Tables, t2: Tables, r1: Result<Loan>, r2: Result<Loan>,
                         cfg: BorrowingConfig, bookId: nat, m1: nat, m2: nat, now1: int, now2: int)
    requires bookId in t0.books && t0.books[bookId].availableCopies == 1
    requires LendSpec(t0, t1, r1, cfg, bookId, m1, now1) && LendSpec(t1, t2, r2, cfg, bookId, m2, now2)
    ensures r1.Ok? && r2 == Err(BusinessRule(NoCopiesToBorrow)) && t2 == t1
  {
  }

  // ---------------------------------------------------------------------------
  // Fulfilment order
  // ---------------------------------------------------------------------------

  /** ADMIN first, then LIBRARIAN, then everyone else. */
  function RoleRank(roleName: string): (rank: nat)
    ensures 1 <= rank <= 3
    ensures rank == 1 <==> roleName == "ADMIN"
    ensures rank == 2 <==> roleName == "LIBRARIAN"
  {
    if roleName == "ADMIN" then 1 else if roleName == "LIBRARIAN" then 2 else 3
  }

  /** The queue order: role rank, then creation instant; two reservations
      alike in both are taken in id order. */
  predicate Precedes(i: nat, a: ReservationRow, j: nat, b: ReservationRow) {
    RoleRank(a.roleName) < RoleRank(b.roleName)
    || (RoleRank(a.roleName) == RoleRank(b.roleName)
        && (a.createdAt < b.createdAt || (a.createdAt == b.createdAt && i < j)))
  }

  predicate IsPendingFor(res: map<nat, ReservationRow>, bookId: nat, k: nat) {
    k in res && res[k].bookId == bookId && res[k].status == Pending
  }

  /** k is the PENDING reservation of the book that comes first in the queue order. */
  ghost predicate IsNextToFulfil(res: map<nat, ReservationRow>, bookId: nat, k: nat) {
    IsPendingFor(res, bookId, k)
    && forall j :: IsPendingFor(res, bookId, j) && j != k ==> Precedes(k, res[k], j, res[j])
  }

  /** At most one reservation is next. */
  lemma NextToFulfilIsUnique(res: map<nat, ReservationRow>, bookId: nat, k1: nat, k2: nat)
    requires IsNextToFulfil(res, bookId, k1) && IsNextToFulfil(res, bookId, k2)
    ensures k1 == k2
  {
    PrecedesIsStrictTotalOrder(k1, res[k1], k2, res[k2], k1, res[k1]);
  }

  /** The queue order is a strict total order on distinct ids. */
  lemma PrecedesIsStrictTotalOrder(i: nat, a: ReservationRow, j: nat, b: ReservationRow, k: nat, c: ReservationRow)
    ensures Precedes(i, a, j, b) ==> !Precedes(j, b, i, a)
    ensures i != j ==> Precedes(i, a, j, b) || Precedes(j, b, i, a)
    ensures Precedes(i, a, j, b) && Precedes(j, b, k, c) ==> Precedes(i, a, k, c)
  {
  }

  /** Among finitely many pending reservations of a book, one comes first. */
  lemma {:induction false} FirstInQueue(res: map<nat, ReservationRow>, bookId: nat, s: set<nat>)
    requires s != {} && forall k :: k in s ==> IsPendingFor(res, bookId, k)
    ensures exists m :: m in s && m in res && forall j :: j in s && j in res && j != m ==> Precedes(m, res[m], j, res[j])
    decreases |s|
  {
    var x :| x in s;
    var rest := s - {x};
    if rest == {} {
      assert s == rest + {x};
      assert s == {x};
    } else {
      FirstInQueue(res, bookId, rest);
      var m :| m in rest && m in res && forall j :: j in rest && j in res && j != m ==> Precedes(m, res[m], j, res[j]);
      PrecedesIsStrictTotalOrder(x, res[x], m, res[m], m, res[m]);
      if Precedes(x, res[x], m, res[m]) {
        forall j | j in s && j in res && j != x ensures Precedes(x, res[x], j, res[j]) {
          if j != m {
            assert j in rest;
            PrecedesIsStrictTotalOrder(x, res[x], m, res[m], j, res[j]);
          }
        }
      } else {
        forall j | j in s && j in res && j != m ensures Precedes(m, res[m], j, res[j]) {
          if j != x {
            assert j in rest;
          }
        }
      }
    }
  }

  /** A book with a PENDING reservation has one that is next. */
  lemma NextExists(res: map<nat, ReservationRow>, bookId: nat, k0: nat)
    requires IsPendingFor(res, bookId, k0)
    ensures exists k :: IsNextToFulfil(res, bookId, k)
  {
    var s := set k | k in res && IsPendingFor(res, bookId, k);
    assert k0 in s;
    FirstInQueue(res, bookId, s);
    var m :| m in s && m in res && forall j :: j in s && j in res && j != m ==> Precedes(m, res[m], j, res[j]);
    assert IsNextToFulfil(res, bookId, m);
  }

  /** The fulfilment select: the book's PENDING reservations in queue order,
      of which the first is taken. */
  method SelectNextReservation(res: map<nat, ReservationRow>, next: nat, bookId: nat) returns (sel: Option<nat>)
    requires forall k :: k in res ==> k < next
    ensures sel.None? <==> forall k :: !IsPendingFor(res, bookId, k)
    ensures sel.Some? ==> IsNextToFulfil(res, bookId, sel.value)
  {
    sel := None;
    var i := 0;
    while i < next
      invariant 0 <= i <= next
      invariant sel.None? ==> forall k: nat :: k < i ==> !IsPendingFor(res, bookId, k)
      invariant sel.Some? ==> sel.value < i && IsPendingFor(res, bookId, sel.value)
      invariant sel.Some? ==> forall k: nat :: k < i && IsPendingFor(res, bookId, k) && k != sel.value ==>
                                Precedes(sel.value, res[sel.value], k, res[k])
    {
      if IsPendingFor(res, bookId, i) && (sel.None? || Precedes(i, res[i], sel.value, res[sel.value])) {
        sel := Some(i);
      }
      i := i + 1;
    }
  }

  /** A queue of a MEMBER's, then an ADMIN's, then a LIBRARIAN's reservation
      serves the ADMIN first, whatever the arrival order. */
  lemma AdminServedFirst(bookId: nat)
    ensures var res := map[
        1 := ReservationRow(bookId, 10, "MEMBER", Pending, 1, None, None),
        2 := ReservationRow(bookId, 11, "ADMIN", Pending, 2, None, None),
        3 := ReservationRow(bookId, 12, "LIBRARIAN", Pending, 3, None, None)];
      IsNextToFulfil(res, bookId, 2) && !IsNextToFulfil(res, bookId, 3)
  {
    var res := map[
        1 := ReservationRow(bookId, 10, "MEMBER", Pending, 1, None, None),
        2 := ReservationRow(bookId, 11, "ADMIN", Pending, 2, None, None),
        3 := ReservationRow(bookId, 12, "LIBRARIAN", Pending, 3, None, None)];
    assert RoleRank(res[1].roleName) == 3 && RoleRank(res[2].roleName) == 1 && RoleRank(res[3].roleName) == 2;
    assert forall j :: IsPendingFor(res, bookId, j) ==> j in {1, 2, 3};
  }

  // ---------------------------------------------------------------------------
  // Fulfilment
  // ---------------------------------------------------------------------------

  /** The loan write of fulfilment as evidently intended: the loan is created
      only when the guarded decrement took a copy. */
  function GrantedCopy(t: Tables, cfg: BorrowingConfig, bookId: nat, memberId: nat, now: int): (r: Tables)
    ensures CanDecrement(t, bookId) ==>
      && r.loans == t.loans[t.loanSeq := LoanRow(bookId, memberId, now, DueDate(now, cfg), None)]
      && bookId in r.books && r.books[bookId].availableCopies == t.books[bookId].availableCopies - 1
    ensures !CanDecrement(t, bookId) ==> r == t
  {
    if CanDecrement(t, bookId) then InsertedLoan(Decremented(t, bookId), bookId, memberId, now, DueDate(now, cfg))
    else t
  }

  /** The loan write of fulfilment as written: the decrement's row count is
      not looked at and the loan is inserted either way. */
  function GrantedAsWritten(t: Tables, cfg: BorrowingConfig, bookId: nat, memberId: nat, now: int): (r: Tables)
    ensures r.loans == t.loans[t.loanSeq := LoanRow(bookId, memberId, now, DueDate(now, cfg), None)]
    ensures !CanDecrement(t, bookId) ==> r.books == t.books
  {
    InsertedLoan(Decremented(t, bookId), bookId, memberId, now, DueDate(now, cfg))
  }

  /** Granting as intended keeps every book balanced. */
  lemma GrantKeepsBalance(t: Tables, cfg: BorrowingConfig, bookId: nat, memberId: nat, now: int)
    requires WellFormed(t) && Balanced(t)
    ensures Balanced(GrantedCopy(t, cfg, bookId, memberId, now))
    ensures CopiesWithinTotal(t.books) ==> CopiesWithinTotal(GrantedCopy(t, cfg, bookId, memberId, now).books)
  {
    if CanDecrement(t, bookId) {
      LendingKeepsBalance(t, bookId, memberId, now, DueDate(now, cfg));
    }
    if CopiesWithinTotal(t.books) {
      GuardedUpdatesKeepCopiesWithinTotal(t, bookId);
    }
  }

  /** Within one sequential call the two agree: fulfilment only reaches the
      loan write after reading a positive stock, and nothing runs in between. */
  lemma GrantAgreesAfterStockRead(t: Tables, cfg: BorrowingConfig, bookId: nat, memberId: nat, now: int)
    requires bookId in t.books && t.books[bookId].availableCopies > 0
    ensures GrantedCopy(t, cfg, bookId, memberId, now) == GrantedAsWritten(t, cfg, bookId, memberId, now)
    ensures GrantedCopy(t, cfg, bookId, memberId, now).loans.Keys == t.loans.Keys + {t.loanSeq}
  {
  }

  /** Granting as written, when the copy seen on the re-read is gone by the
      time of the decrement (taken by a borrow in between), opens a loan no
      copy backs: a balanced book becomes unbalanced. */
  lemma GrantAsWrittenOverLends(cfg: BorrowingConfig, now: int)
    ensures var t := Tables(map[1 := BookRow("T", "A", "I", 1, 0, None)], map[],
                            map[1 := LoanRow(1, 1, 0, 0, None)], map[], map[], 2, 1, 2, 1, 1);
      && WellFormed(t) && Balanced(t) && CopiesWithinTotal(t.books)
      && !Balanced(GrantedAsWritten(t, cfg, 1, 2, now))
      && Balanced(GrantedCopy(t, cfg, 1, 2, now))
  {
    var t := Tables(map[1 := BookRow("T", "A", "I", 1, 0, None)], map[],
                    map[1 := LoanRow(1, 1, 0, 0, None)], map[], map[], 2, 1, 2, 1, 1);
    assert OnLoan(t.loans, 1) == {1};
    var u := GrantedAsWritten(t, cfg, 1, 2, now);
    assert OnLoan(u.loans, 1) == {1, 2};
    assert u.books[1].availableCopies + |OnLoan(u.loans, 1)| == 2;
  }

  /** fulfillNextReservation for a chosen reservation: the guarded
      PENDING -> FULFILLED update, then book and member (NotFound propagates,
      with the reservation already FULFILLED), then a stock check, then the
      loan. Neither the active-loan limit nor overdue loans are checked. */
  predicate FulfilSpec(t0: Tables, t1: Tables, f: Result<()>, cfg: BorrowingConfig,
                       reservationId: nat, memberId: nat, bookId: nat, now: int) {
    if !IsPending(t0, reservationId) then
      t1 == t0 && f == Ok(())
    else
      var tm := MarkedFulfilled(t0, reservationId, now);
      if !LiveBook(tm, bookId) then t1 == tm && f == Err(NotFound(BookNotFound))
      else if !LiveMember(tm, memberId) then t1 == tm && f == Err(NotFound(MemberNotFound))
      else if tm.books[bookId].availableCopies <= 0 then t1 == tm && f == Ok(())
      else t1 == GrantedCopy(tm, cfg, bookId, memberId, now) && f == Ok(())
  }

  /** fulfillNextReservation: nothing when the book has no PENDING
      reservation; otherwise the fulfilment of the one next in queue order. */
  ghost predicate FulfilNextSpec(t0: Tables, t1: Tables, f: Result<()>, cfg: BorrowingConfig, bookId: nat, now: int) {
    && ((forall k :: !IsPendingFor(t0.reservations, bookId, k)) ==> t1 == t0 && f == Ok(()))
    && (forall k :: IsNextToFulfil(t0.reservations, bookId, k) ==>
          FulfilSpec(t0, t1, f, cfg, k, t0.reservations[k].memberId, bookId, now))
  }

  /** The loan write of fulfilment. */
  method GrantReservedCopy(store: Store, cfg: BorrowingConfig, bookId: nat, memberId: nat, now: int)
    requires store.Valid()
    modifies store
    ensures store.Valid()
    ensures store.State() == GrantedCopy(old(store.State()), cfg, bookId, memberId, now)
  {
    var affected := store.DecrementCopies(bookId);
    if affected > 0 {
      var id := store.InsertLoan(bookId, memberId, now, DueDate(now, cfg));
    }
  }

  method FulfilReservation(store: Store, cfg: BorrowingConfig, reservationId: nat, memberId: nat,
                           bookId: nat, now: int) returns (f: Result<()>)
    requires store.Valid()
    modifies store
    ensures store.Valid()
    ensures FulfilSpec(old(store.State()), store.State(), f, cfg, reservationId, memberId, bookId, now)
  {
    var updated := store.MarkFulfilled(reservationId, now);
    if updated <= 0 {
      return Ok(());
    }
    if !LiveBook(store.State(), bookId) {
      return Err(NotFound(BookNotFound));
    }
    if !LiveMember(store.State(), memberId) {
      return Err(NotFound(MemberNotFound));
    }
    if store.books[bookId].availableCopies <= 0 {
      return Ok(());
    }
    GrantReservedCopy(store, cfg, bookId, memberId, now);
    return Ok(());
  }

  method FulfilNext(store: Store, cfg: BorrowingConfig, bookId: nat, now: int) returns (f: Result<()>)
    requires store.Valid()
    modifies store
    ensures store.Valid()
    ensures FulfilNextSpec(old(store.State()), store.State(), f, cfg, bookId, now)
  {
    var sel := SelectNextReservation(store.reservations, store.reservationSeq, bookId);
    if sel.None? {
      return Ok(());
    }
    var k := sel.value;
    forall k' | IsNextToFulfil(store.reservations, bookId, k') ensures k' == k {
      NextToFulfilIsUnique(store.reservations, bookId, k, k');
    }
    f := FulfilReservation(store, cfg, k, store.reservations[k].memberId, bookId, now);
  }

  /** Fulfilment keeps the ledger, and keeps every loan already present. */
  lemma FulfilKeepsLedger(t0: Tables, t1: Tables, f: Result<()>, cfg: BorrowingConfig,
                          reservationId: nat, memberId: nat, bookId: nat, now: int)
    requires WellFormed(t0) && FulfilSpec(t0, t1, f, cfg, reservationId, memberId, bookId, now)
    ensures Balanced(t0) ==> Balanced(t1)
    ensures CopiesWithinTotal(t0.books) ==> CopiesWithinTotal(t1.books)
    ensures forall k :: k in t0.loans ==> k in t1.loans && t1.loans[k] == t0.loans[k]
  {
    if IsPending(t0, reservationId) {
      var tm := MarkedFulfilled(t0, reservationId, now);
      assert WellFormed(tm);
      LedgerIgnoresOtherTables(t0, tm);
      if Balanced(t0) {
        GrantKeepsBalance(tm, cfg, bookId, memberId, now);
      }
      if CopiesWithinTotal(tm.books) {
        GuardedUpdatesKeepCopiesWithinTotal(tm, bookId);
      }
    }
  }

  // ---------------------------------------------------------------------------
  // Return
  // ---------------------------------------------------------------------------

  /** The part of a fulfilment outcome a return passes on. */
  function Outcome(r: Result<Loan>): Result<()> {
    if r.Err? then Err(r.failure) else Ok(())
  }

  /** The write half of returnLoan: set returned_at if still null (otherwise
      fail), put the copy back if below the total (otherwise nothing), serve
      the queue, and read the loan back. */
  ghost predicate CloseSpec(t0: Tables, t1: Tables, r: Result<Loan>, cfg: BorrowingConfig,
                      loanId: nat, bookId: nat, now: int) {
    if !IsOpenLoan(t0, loanId) then
      t1 == t0 && r == Err(BusinessRule(LoanAlreadyReturned))
    else
      && FulfilNextSpec(Incremented(MarkedReturned(t0, loanId, now), bookId), t1, Outcome(r), cfg, bookId, now)
      && (r.Ok? ==> loanId in t1.loans && r.value == Loan(loanId, t1.loans[loanId]))
  }

  /** returnLoan: NotFound, then the already-returned rule, then the write half. */
  ghost predicate ReturnSpec(t0: Tables, t1: Tables, r: Result<Loan>, cfg: BorrowingConfig, loanId: nat, now: int) {
    if loanId !in t0.loans then t1 == t0 && r == Err(NotFound(LoanNotFound))
    else if t0.loans[loanId].returnedAt.Some? then t1 == t0 && r == Err(BusinessRule(LoanAlreadyReturned))
    else CloseSpec(t0, t1, r, cfg, loanId, t0.loans[loanId].bookId, now)
  }

  method CloseLoan(store: Store, cfg: BorrowingConfig, loanId: nat, bookId: nat, now: int) returns (r: Result<Loan>)
    requires store.Valid()
    requires loanId in store.loans ==> store.loans[loanId].bookId == bookId
    modifies store
    ensures store.Valid()
    ensures CloseSpec(old(store.State()), store.State(), r, cfg, loanId, bookId, now)
  {
    var returned := store.MarkReturned(loanId, now);
    if returned <= 0 {
      return Err(BusinessRule(LoanAlreadyReturned));
    }
    var restocked := store.IncrementCopies(bookId);
    ghost var tm := store.State();
    var f := FulfilNext(store, cfg, bookId, now);
    if f.Err? {
      return Err(f.failure);
    }
    FulfilNextKeepsLoans(tm, store.State(), f, cfg, bookId, now);
    r := Get(store.State(), loanId);
  }

  method ReturnLoan(store: Store, cfg: BorrowingConfig, loanId: nat, now: int) returns (r: Result<Loan>)
    requires store.Valid()
    modifies store
    ensures store.Valid()
    ensures ReturnSpec(old(store.State()), store.State(), r, cfg, loanId, now)
  {
    var loan := Get(store.State(), loanId);
    if loan.Err? {
      return Err(loan.failure);
    }
    if loan.value.row.returnedAt.Some? {
      return Err(BusinessRule(LoanAlreadyReturned));
    }
    r := CloseLoan(store, cfg, loanId, loan.value.row.bookId, now);
  }

  /** The queue step never removes or rewrites a loan. */
  lemma FulfilNextKeepsLoans(t0: Tables, t1: Tables, f: Result<()>, cfg: BorrowingConfig, bookId: nat, now: int)
    requires WellFormed(t0) && FulfilNextSpec(t0, t1, f, cfg, bookId, now)
    ensures forall k :: k in t0.loans ==> k in t1.loans && t1.loans[k] == t0.loans[k]
    ensures Balanced(t0) ==> Balanced(t1)
    ensures CopiesWithinTotal(t0.books) ==> CopiesWithinTotal(t1.books)
  {
    if exists k :: IsPendingFor(t0.reservations, bookId, k) {
      var k0 :| IsPendingFor(t0.reservations, bookId, k0);
      NextExists(t0.reservations, bookId, k0);
      var k :| IsNextToFulfil(t0.reservations, bookId, k);
      FulfilKeepsLedger(t0, t1, f, cfg, k, t0.reservations[k].memberId, bookId, now);
    }
  }

  /** Returning keeps the ledger, and an open loan ends up closed at the
      return instant whatever the queue step does; a loan that was not open
      is left alone and the call fails. */
  lemma ReturnKeepsLedger(t0: Tables, t1: Tables, r: Result<Loan>, cfg: BorrowingConfig, loanId: nat, now: int)
    requires WellFormed(t0) && ReturnSpec(t0, t1, r, cfg, loanId, now)
    ensures Balanced(t0) ==> Balanced(t1)
    ensures CopiesWithinTotal(t0.books) ==> CopiesWithinTotal(t1.books)
    ensures IsOpenLoan(t0, loanId) ==>
      loanId in t1.loans && t1.loans[loanId] == t0.loans[loanId].(returnedAt := Some(now))
    ensures !IsOpenLoan(t0, loanId) ==> t1 == t0 && r.Err?
  {
    if IsOpenLoan(t0, loanId) {
      var bookId := t0.loans[loanId].bookId;
      var tr := MarkedReturned(t0, loanId, now);
      var tm := Incremented(tr, bookId);
      assert WellFormed(tm);
      if Balanced(t0) {
        ReturningKeepsBalance(t0, loanId, now);
      }
      if CopiesWithinTotal(t0.books) {
        assert CopiesWithinTotal(tr.books);
        GuardedUpdatesKeepCopiesWithinTotal(tr, bookId);
      }
      FulfilNextKeepsLoans(tm, t1, Outcome(r), cfg, bookId, now);
    }
  }

  /** A second return of the same loan fails and writes nothing. */
  lemma SecondReturnFails(t0: Tables, t1: Tables, t2: Tables, r1: Result<Loan>, r2: Result<Loan>,
                          cfg: BorrowingConfig, loanId: nat, now1: int, now2: int)
    requires WellFormed(t0) && loanId in t0.loans
    requires ReturnSpec(t0, t1, r1, cfg, loanId, now1) && ReturnSpec(t1, t2, r2, cfg, loanId, now2)
    ensures r2 == Err(BusinessRule(LoanAlreadyReturned)) && t2 == t1
  {
    ReturnKeepsLedger(t0, t1, r1, cfg, loanId, now1);
  }

  /** Returning a copy of a book with a queue serves the reservation next in
      queue order: it becomes FULFILLED, its member gets a loan due
      maxLoanDays later, and the returned copy goes straight to that loan. */
  lemma ReturnServesQueue(t0: Tables, t1: Tables, r: Result<Loan>, cfg: BorrowingConfig, loanId: nat,
                          k: nat, now: int)
    requires WellFormed(t0) && Balanced(t0) && CopiesWithinTotal(t0.books)
    requires ReturnSpec(t0, t1, r, cfg, loanId, now) && IsOpenLoan(t0, loanId)
    requires LiveBook(t0, t0.loans[loanId].bookId)
    requires IsNextToFulfil(t0.reservations, t0.loans[loanId].bookId, k)
    requires LiveMember(t0, t0.reservations[k].memberId)
    ensures r.Ok?
    ensures k in t1.reservations && t1.reservations[k].status == Fulfilled
    ensures t0.loanSeq in t1.loans
    ensures t1.loans[t0.loanSeq] ==
      LoanRow(t0.loans[loanId].bookId, t0.reservations[k].memberId, now, DueDate(now, cfg), None)
    ensures t1.books[t0.loans[loanId].bookId].availableCopies == t0.books[t0.loans[loanId].bookId].availableCopies
  {
    var bookId := t0.loans[loanId].bookId;
    ReturningKeepsBalance(t0, loanId, now);
    var tm := Incremented(MarkedReturned(t0, loanId, now), bookId);
    assert tm.reservations == t0.reservations;
    assert tm.books[bookId].availableCopies == t0.books[bookId].availableCopies + 1;
  }

  // ---------------------------------------------------------------------------
  // Search
  // ---------------------------------------------------------------------------

  /** Search status words. */
  datatype StatusFilter = AnyStatus | ActiveOnly | ReturnedOnly | OverdueOnly

  /** The status word after trimming and upper-casing; any other word adds no filter. */
  function FilterOfWord(normalized: string): StatusFilter {
    if normalized == "ACTIVE" then ActiveOnly
    else if normalized == "RETURNED" then ReturnedOnly
    else if normalized == "OVERDUE" then OverdueOnly
    else AnyStatus
  }

  /** A null or blank status adds no filter. */
  function StatusFilterOf(status: Option<string>): (f: StatusFilter)
    ensures status.None? ==> f == AnyStatus
    ensures f != AnyStatus ==> status.Some? && !IsBlank(status.value)
  {
    if status.None? || IsBlank(status.value) then AnyStatus
    else FilterOfWord(ToUpper(Trim(status.value)))
  }

  /** The parameters of search; a null one adds no condition. */
  datatype LoanSearch = LoanSearch(
    memberId: Option<nat>,
    bookId: Option<nat>,
    status: Option<string>,
    from: Option<int>,
    to: Option<int>)

  /** The member, book and borrowing-window conditions; the window is inclusive. */
  predicate MatchesKeys(l: LoanRow, q: LoanSearch) {
    && (q.memberId.None? || l.memberId == q.memberId.value)
    && (q.bookId.None? || l.bookId == q.bookId.value)
    && (q.from.None? || l.borrowedAt >= q.from.value)
    && (q.to.None? || l.borrowedAt <= q.to.value)
  }

  predicate MatchesStatus(l: LoanRow, f: StatusFilter, now: int) {
    match f
    case AnyStatus => true
    case ActiveOnly => l.returnedAt.None?
    case ReturnedOnly => l.returnedAt.Some?
    case OverdueOnly => l.returnedAt.None? && l.dueDate < now
  }

  /** The ids of the loans a search returns once its status is parsed into a filter. */
  function SearchWith(loans: map<nat, LoanRow>, q: LoanSearch, f: StatusFilter, now: int): (found: set<nat>)
    ensures found <= loans.Keys
    ensures f == AnyStatus && q.memberId.None? && q.bookId.None? && q.from.None? && q.to.None? ==>
      found == loans.Keys
  {
    set id | id in loans && MatchesKeys(loans[id], q) && MatchesStatus(loans[id], f, now)
  }

  /** The ids of the loans search returns. */
  function Search(loans: map<nat, LoanRow>, q: LoanSearch, now: int): (found: set<nat>)
    ensures found <= loans.Keys
    ensures q == LoanSearch(None, None, None, None, None) ==> found == loans.Keys
  {
    SearchWith(loans, q, StatusFilterOf(q.status), now)
  }

  /** A status with nothing to trim and no lower-case letter is its own
      normalised word. */
  lemma NormalisedWord(status: string)
    requires |status| > 0 && status[0] as int > 0x20 && status[|status| - 1] as int > 0x20
    requires forall i :: 0 <= i < |status| ==> !('a' <= status[i] <= 'z')
    ensures StatusFilterOf(Some(status)) == FilterOfWord(status)
  {
    assert TrimStart(status) == status;
    assert TrimEnd(status) == status;
    UpperOfUpperCase(status);
  }

  /** Each status word selects its filter; any other word adds none. */
  lemma ActiveWord() ensures StatusFilterOf(Some("ACTIVE")) == ActiveOnly
  {
    NormalisedWord("ACTIVE");
  }

  lemma ReturnedWord() ensures StatusFilterOf(Some("RETURNED")) == ReturnedOnly
  {
    NormalisedWord("RETURNED");
  }

  lemma OverdueWord() ensures StatusFilterOf(Some("OVERDUE")) == OverdueOnly
  {
    NormalisedWord("OVERDUE");
  }

  lemma OtherWord() ensures StatusFilterOf(Some("LATE")) == AnyStatus
  {
    NormalisedWord("LATE");
  }

  /** The blank check before parsing never changes the outcome: a blank
      status, trimmed and upper-cased, is not one of the status words. */
  lemma BlankCheckChangesNothing(status: string)
    ensures StatusFilterOf(Some(status)) == FilterOfWord(ToUpper(Trim(status)))
  {
    if IsBlank(status) {
      TrimKeepsCharacters(status);
      var w := ToUpper(Trim(status));
      if |w| > 0 {
        assert Trim(status)[0] in status;
        assert IsWhitespace(w[0]);
        assert w[0] != 'A' && w[0] != 'R' && w[0] != 'O';
      }
    }
  }

  /** Surrounding characters at or below U+0020 do not matter: a status and
      its trimmed form select the same filter. */
  lemma TrimmedStatusSameFilter(status: string)
    ensures StatusFilterOf(Some(Trim(status))) == StatusFilterOf(Some(status))
  {
    BlankCheckChangesNothing(status);
    BlankCheckChangesNothing(Trim(status));
    TrimIdempotent(status);
  }

  /** Letter case does not matter: a status and its upper-case form select
      the same filter. */
  lemma UpperCaseSameFilter(status: string)
    ensures StatusFilterOf(Some(ToUpper(status))) == StatusFilterOf(Some(status))
  {
    BlankCheckChangesNothing(status);
    BlankCheckChangesNothing(ToUpper(status));
    TrimOfUpper(status);
    CaseMappingsAbsorb(Trim(status));
  }

  /** A status and its lower-case form select the same filter. */
  lemma LowerCaseSameFilter(status: string)
    ensures StatusFilterOf(Some(ToLower(status))) == StatusFilterOf(Some(status))
  {
    UpperCaseSameFilter(status);
    UpperCaseSameFilter(ToLower(status));
    CaseMappingsAbsorb(status);
  }

  /** The search with a given status, the others unchanged. */
  function WithStatus(q: LoanSearch, status: string): LoanSearch {
    q.(status := Some(status))
  }

  /** A search by a status word is the search with that word's filter. */
  lemma SearchByWord(loans: map<nat, LoanRow>, q: LoanSearch, status: Option<string>, now: int)
    ensures Search(loans, q.(status := status), now) == SearchWith(loans, q, StatusFilterOf(status), now)
  {
    forall id | id in loans ensures MatchesKeys(loans[id], q.(status := status)) == MatchesKeys(loans[id], q) { }
  }

  /** The active and returned filters split what the unfiltered search finds. */
  lemma FiltersPartition(loans: map<nat, LoanRow>, q: LoanSearch, now: int)
    ensures SearchWith(loans, q, ActiveOnly, now) + SearchWith(loans, q, ReturnedOnly, now)
            == SearchWith(loans, q, AnyStatus, now)
    ensures SearchWith(loans, q, ActiveOnly, now) * SearchWith(loans, q, ReturnedOnly, now) == {}
    ensures SearchWith(loans, q, OverdueOnly, now) <= SearchWith(loans, q, ActiveOnly, now)
  {
    var active := SearchWith(loans, q, ActiveOnly, now);
    var returned := SearchWith(loans, q, ReturnedOnly, now);
    var all := SearchWith(loans, q, AnyStatus, now);
    forall id | id in loans
      ensures id in active <==> MatchesKeys(loans[id], q) && loans[id].returnedAt.None?
      ensures id in returned <==> MatchesKeys(loans[id], q) && loans[id].returnedAt.Some?
      ensures id in all <==> MatchesKeys(loans[id], q)
    {
    }
  }

  /** ACTIVE and RETURNED split what the search without status finds. */
  lemma ActiveAndReturnedPartition(loans: map<nat, LoanRow>, q: LoanSearch, now: int)
    ensures Search(loans, WithStatus(q, "ACTIVE"), now) + Search(loans, WithStatus(q, "RETURNED"), now)
            == Search(loans, q.(status := None), now)
    ensures Search(loans, WithStatus(q, "ACTIVE"), now) * Search(loans, WithStatus(q, "RETURNED"), now) == {}
  {
    ActiveWord();
    ReturnedWord();
    SearchByWord(loans, q, Some("ACTIVE"), now);
    SearchByWord(loans, q, Some("RETURNED"), now);
    SearchByWord(loans, q, None, now);
    FiltersPartition(loans, q, now);
  }

  /** Every loan the OVERDUE search finds, the ACTIVE search finds too. */
  lemma OverdueWithinActive(loans: map<nat, LoanRow>, q: LoanSearch, now: int)
    ensures Search(loans, WithStatus(q, "OVERDUE"), now) <= Search(loans, WithStatus(q, "ACTIVE"), now)
  {
    ActiveWord();
    OverdueWord();
    SearchByWord(loans, q, Some("ACTIVE"), now);
    SearchByWord(loans, q, Some("OVERDUE"), now);
    FiltersPartition(loans, q, now);
  }

  /** The overdue filter over one member's loans finds exactly the loans
      borrow's overdue check counts. */
  lemma OverdueFilterIsOverdueCount(loans: map<nat, LoanRow>, q: LoanSearch, memberId: nat, now: int)
    requires q.memberId == Some(memberId) && q.bookId.None? && q.from.None? && q.to.None?
    ensures SearchWith(loans, q, OverdueOnly, now) == OpenLoansOf(loans, memberId, Some(now))
  {
    forall id | id in loans
      ensures id in SearchWith(loans, q, OverdueOnly, now) <==> Counted(loans[id], memberId, Some(now))
    {
    }
  }

  /** A member's OVERDUE search finds exactly the loans borrow's overdue
      check counts. */
  lemma OverdueSearchIsOverdueCount(loans: map<nat, LoanRow>, q: LoanSearch, memberId: nat, now: int)
    requires q.memberId == Some(memberId) && q.bookId.None? && q.from.None? && q.to.None?
    ensures Search(loans, WithStatus(q, "OVERDUE"), now) == OpenLoansOf(loans, memberId, Some(now))
  {
    OverdueWord();
    SearchByWord(loans, q, Some("OVERDUE"), now);
    OverdueFilterIsOverdueCount(loans, q, memberId, now);
  }
}
