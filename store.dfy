/**
  The relational store the services talk to, with the meaning the in-memory
  test adapter gives each statement: one table per entity, each a map from
  id to row, and one id counter per table.

  Every statement the services issue is one atomic method of `Store`. Its
  effect is stated as a pure function on the `Tables` snapshot (the "step"
  functions below), so that properties of a statement, and of sequences of
  statements, are lemmas about those functions. A statement with a guard
  (`where ... and available_copies > 0`) returns the number of rows it
  affected, 1 or 0, as the adapter does.
 */
module SqlStore {
  import opened Wrappers

  /** A Java int. */
  type int32 = x: int | -0x8000_0000 <= x < 0x8000_0000

  datatype BookRow = BookRow(
    title: string,
    author: string,
    isbn: string,
    totalCopies: int32,
    availableCopies: int32,
    deletedAt: Option<int>)

  datatype MemberRow = MemberRow(
    name: string,
    email: string,
    roleId: Option<nat>,
    deletedAt: Option<int>)

  datatype RoleRow = RoleRow(name: Option<string>)

  /** Instants are whole seconds. */
  datatype LoanRow = LoanRow(
    bookId: nat,
    memberId: nat,
    borrowedAt: int,
    dueDate: int,
    returnedAt: Option<int>)

  datatype ReservationStatus = Pending | Fulfilled | Canceled

  datatype ReservationRow = ReservationRow(
    bookId: nat,
    memberId: nat,
    roleName: string,
    status: ReservationStatus,
    createdAt: int,
    fulfilledAt: Option<int>,
    canceledAt: Option<int>)

  /** A snapshot of the whole store. */
  datatype Tables = Tables(
    books: map<nat, BookRow>,
    members: map<nat, MemberRow>,
    loans: map<nat, LoanRow>,
    roles: map<nat, RoleRow>,
    reservations: map<nat, ReservationRow>,
    bookSeq: nat,
    memberSeq: nat,
    loanSeq: nat,
    roleSeq: nat,
    reservationSeq: nat)

  // ---------------------------------------------------------------------------
  // Well-formedness
  // ---------------------------------------------------------------------------

  /** Every id in the table was issued by its counter: ids start at 1 and the
      counter is past every id handed out. */
  predicate IdsIssued<R>(table: map<nat, R>, next: nat) {
    1 <= next && forall id :: id in table ==> 1 <= id < next
  }

  /** The time stamps a reservation carries agree with its status. */
  predicate StampsMatchStatus(r: ReservationRow) {
    match r.status
    case Pending => r.fulfilledAt.None? && r.canceledAt.None?
    case Fulfilled => r.fulfilledAt.Some? && r.canceledAt.None?
    case Canceled => r.fulfilledAt.None? && r.canceledAt.Some?
  }

  predicate WellFormed(t: Tables) {
    && IdsIssued(t.books, t.bookSeq)
    && IdsIssued(t.members, t.memberSeq)
    && IdsIssued(t.loans, t.loanSeq)
    && IdsIssued(t.roles, t.roleSeq)
    && IdsIssued(t.reservations, t.reservationSeq)
    && (forall id :: id in t.reservations ==> StampsMatchStatus(t.reservations[id]))
  }

  /** A book or member row the services' `deleted_at is null` selects see. */
  predicate LiveBook(t: Tables, id: nat) {
    id in t.books && t.books[id].deletedAt.None?
  }

  predicate LiveMember(t: Tables, id: nat) {
    id in t.members && t.members[id].deletedAt.None?
  }

  // ---------------------------------------------------------------------------
  // Statements, as functions on snapshots
  // ---------------------------------------------------------------------------

  /** Frames: a statement on one table leaves every other table and counter as it was. */
  predicate OnlyRolesChange(t: Tables, r: Tables) {
    r.(roles := t.roles, roleSeq := t.roleSeq) == t
  }

  predicate OnlyBooksChange(t: Tables, r: Tables) {
    r.(books := t.books, bookSeq := t.bookSeq) == t
  }

  predicate OnlyMembersChange(t: Tables, r: Tables) {
    r.(members := t.members, memberSeq := t.memberSeq) == t
  }

  predicate OnlyLoansChange(t: Tables, r: Tables) {
    r.(loans := t.loans, loanSeq := t.loanSeq) == t
  }

  predicate OnlyReservationsChange(t: Tables, r: Tables) {
    r.(reservations := t.reservations, reservationSeq := t.reservationSeq) == t
  }

  /** The seeded store: no rows but the three roles, in this order. */
  function Seeded(): (r: Tables)
    ensures WellFormed(r)
  {
    Tables(map[], map[], map[],
           map[1 := RoleRow(Some("ADMIN")), 2 := RoleRow(Some("LIBRARIAN")), 3 := RoleRow(Some("MEMBER"))],
           map[], 1, 1, 1, 4, 1)
  }

  function InsertedRole(t: Tables, name: string): (r: Tables)
    ensures OnlyRolesChange(t, r)
    ensures WellFormed(t) ==> t.roleSeq !in t.roles && WellFormed(r)
  {
    t.(roles := t.roles[t.roleSeq := RoleRow(Some(name))], roleSeq := t.roleSeq + 1)
  }

  /** insert into books: a live row under the next book id. */
  function InsertedBook(t: Tables, title: string, author: string, isbn: string,
                        total: int32, available: int32): (r: Tables)
    ensures OnlyBooksChange(t, r)
    ensures WellFormed(t) ==> t.bookSeq !in t.books && WellFormed(r)
  {
    t.(books := t.books[t.bookSeq := BookRow(title, author, isbn, total, available, None)],
       bookSeq := t.bookSeq + 1)
  }

  /** update books set title, author, isbn, total_copies, available_copies where id. */
  function UpdatedBook(t: Tables, id: nat, title: string, author: string, isbn: string,
                       total: int32, available: int32): (r: Tables)
    ensures OnlyBooksChange(t, r)
    ensures WellFormed(t) ==> WellFormed(r)
  {
    if id in t.books then
      t.(books := t.books[id := t.books[id].(title := title, author := author, isbn := isbn,
                                             totalCopies := total, availableCopies := available)])
    else t
  }

  function DeletedBook(t: Tables, id: nat): (r: Tables)
    ensures OnlyBooksChange(t, r)
    ensures WellFormed(t) ==> WellFormed(r)
  {
    t.(books := t.books - {id})
  }

  /** The guard of the copy decrement. */
  predicate CanDecrement(t: Tables, id: nat) {
    id in t.books && t.books[id].availableCopies > 0
  }

  function Decremented(t: Tables, id: nat): (r: Tables)
    ensures OnlyBooksChange(t, r)
    ensures WellFormed(t) ==> WellFormed(r)
  {
    if CanDecrement(t, id) then
      t.(books := t.books[id := t.books[id].(availableCopies := t.books[id].availableCopies - 1)])
    else t
  }

  /** The guard of the copy increment. */
  predicate CanIncrement(t: Tables, id: nat) {
    id in t.books && t.books[id].availableCopies < t.books[id].totalCopies
  }

  function Incremented(t: Tables, id: nat): (r: Tables)
    ensures OnlyBooksChange(t, r)
    ensures WellFormed(t) ==> WellFormed(r)
  {
    if CanIncrement(t, id) then
      t.(books := t.books[id := t.books[id].(availableCopies := t.books[id].availableCopies + 1)])
    else t
  }

  /** insert into members (name, email): the row has no role. */
  function InsertedMember(t: Tables, name: string, email: string): (r: Tables)
    ensures OnlyMembersChange(t, r)
    ensures WellFormed(t) ==> t.memberSeq !in t.members && WellFormed(r)
  {
    t.(members := t.members[t.memberSeq := MemberRow(name, email, None, None)],
       memberSeq := t.memberSeq + 1)
  }

  /** update members set name, email where id: the role is not among the columns set. */
  function UpdatedMember(t: Tables, id: nat, name: string, email: string): (r: Tables)
    ensures OnlyMembersChange(t, r)
    ensures WellFormed(t) ==> WellFormed(r)
  {
    if id in t.members then
      t.(members := t.members[id := t.members[id].(name := name, email := email)])
    else t
  }

  function DeletedMember(t: Tables, id: nat): (r: Tables)
    ensures OnlyMembersChange(t, r)
    ensures WellFormed(t) ==> WellFormed(r)
  {
    t.(members := t.members - {id})
  }

  /** insert into loans: the new loan is open (returned_at null). */
  function InsertedLoan(t: Tables, bookId: nat, memberId: nat, borrowedAt: int, dueDate: int): (r: Tables)
    ensures OnlyLoansChange(t, r)
    ensures WellFormed(t) ==> t.loanSeq !in t.loans && WellFormed(r)
  {
    t.(loans := t.loans[t.loanSeq := LoanRow(bookId, memberId, borrowedAt, dueDate, None)],
       loanSeq := t.loanSeq + 1)
  }

  predicate IsOpenLoan(t: Tables, id: nat) {
    id in t.loans && t.loans[id].returnedAt.None?
  }

  /** update loans set returned_at where id and returned_at is null. */
  function MarkedReturned(t: Tables, id: nat, at: int): (r: Tables)
    ensures OnlyLoansChange(t, r)
    ensures WellFormed(t) ==> WellFormed(r)
  {
    if IsOpenLoan(t, id) then t.(loans := t.loans[id := t.loans[id].(returnedAt := Some(at))])
    else t
  }

  /** insert into reservations: a PENDING row. */
  function InsertedReservation(t: Tables, bookId: nat, memberId: nat, roleName: string, createdAt: int): (r: Tables)
    ensures OnlyReservationsChange(t, r)
    ensures WellFormed(t) ==> t.reservationSeq !in t.reservations && WellFormed(r)
  {
    t.(reservations := t.reservations[t.reservationSeq :=
         ReservationRow(bookId, memberId, roleName, Pending, createdAt, None, None)],
       reservationSeq := t.reservationSeq + 1)
  }

  predicate IsPending(t: Tables, id: nat) {
    id in t.reservations && t.reservations[id].status == Pending
  }

  /** update reservations set status = 'FULFILLED' where id and status = 'PENDING'. */
  function MarkedFulfilled(t: Tables, id: nat, at: int): (r: Tables)
    ensures OnlyReservationsChange(t, r)
    ensures WellFormed(t) ==> WellFormed(r)
  {
    if IsPending(t, id) then
      t.(reservations := t.reservations[id := t.reservations[id].(status := Fulfilled, fulfilledAt := Some(at))])
    else t
  }

  /** update reservations set status = 'CANCELED' where id and status = 'PENDING'. */
  function MarkedCanceled(t: Tables, id: nat, at: int): (r: Tables)
    ensures OnlyReservationsChange(t, r)
    ensures WellFormed(t) ==> WellFormed(r)
  {
    if IsPending(t, id) then
      t.(reservations := t.reservations[id := t.reservations[id].(status := Canceled, canceledAt := Some(at))])
    else t
  }

  // ---------------------------------------------------------------------------
  // The count query
  // ---------------------------------------------------------------------------

  /** A loan the count query counts: the member's, not returned, and, when a
      `now` is given, due strictly before it. */
  predicate Counted(l: LoanRow, memberId: nat, dueBefore: Option<int>) {
    l.memberId == memberId && l.returnedAt.None?
    && (dueBefore.None? || l.dueDate < dueBefore.value)
  }

  function OpenLoansOf(loans: map<nat, LoanRow>, memberId: nat, dueBefore: Option<int>): set<nat> {
    set id | id in loans && Counted(loans[id], memberId, dueBefore)
  }

  // ---------------------------------------------------------------------------
  // Properties of single statements
  // ---------------------------------------------------------------------------

  /** The guarded decrement never takes a count below zero, and changes
      exactly one count by exactly one when it applies. */
  lemma DecrementStaysNonNegative(t: Tables, id: nat)
    ensures CanDecrement(t, id) ==>
      && Decremented(t, id).books.Keys == t.books.Keys
      && Decremented(t, id).books[id].availableCopies == t.books[id].availableCopies - 1 >= 0
      && (forall b :: b in t.books && b != id ==> Decremented(t, id).books[b] == t.books[b])
    ensures !CanDecrement(t, id) ==> Decremented(t, id) == t
  {
  }

  /** The guarded increment never takes a count above the book's total. */
  lemma IncrementStaysWithinTotal(t: Tables, id: nat)
    ensures CanIncrement(t, id) ==>
      && Incremented(t, id).books[id].availableCopies == t.books[id].availableCopies + 1
      && Incremented(t, id).books[id].availableCopies <= t.books[id].totalCopies
    ensures !CanIncrement(t, id) ==> Incremented(t, id) == t
  {
  }

  /** returned_at is written at most once: a second return changes nothing
      and a returned loan is never rewritten. */
  lemma ReturnedAtSetOnce(t: Tables, id: nat, a: int, b: int)
    ensures !IsOpenLoan(MarkedReturned(t, id, a), id)
    ensures MarkedReturned(MarkedReturned(t, id, a), id, b) == MarkedReturned(t, id, a)
    ensures forall k :: k in t.loans && t.loans[k].returnedAt.Some? ==>
              MarkedReturned(t, id, a).loans[k] == t.loans[k]
  {
  }

  /** FULFILLED and CANCELED are terminal: neither transition touches a row
      that is not PENDING. */
  lemma FinishedReservationsAreFinal(t: Tables, id: nat, a: int)
    ensures forall k :: k in t.reservations && t.reservations[k].status != Pending ==>
              && MarkedFulfilled(t, id, a).reservations[k] == t.reservations[k]
              && MarkedCanceled(t, id, a).reservations[k] == t.reservations[k]
    ensures !IsPending(MarkedFulfilled(t, id, a), id) && !IsPending(MarkedCanceled(t, id, a), id)
  {
  }

  // ---------------------------------------------------------------------------
  // Row lookups
  // ---------------------------------------------------------------------------

  /** findBy / findLoanByKeys: the rows of a table that satisfy `p`, visited in
      ascending id order; the caller uses the first of them, or "none". */
  method FirstMatch<R>(table: map<nat, R>, next: nat, p: R -> bool) returns (found: Option<nat>)
    requires forall id :: id in table ==> id < next
    ensures found.Some? ==> found.value in table && p(table[found.value])
    ensures found.Some? ==> forall id :: id in table && id < found.value ==> !p(table[id])
    ensures found.None? ==> forall id :: id in table ==> !p(table[id])
  {
    var i := 0;
    while i < next
      invariant 0 <= i <= next
      invariant forall id :: id in table && id < i ==> !p(table[id])
    {
      if i in table && p(table[i]) {
        return Some(i);
      }
      i := i + 1;
    }
    return None;
  }

  // ---------------------------------------------------------------------------
  // The store object
  // ---------------------------------------------------------------------------

  class Store {
    var books: map<nat, BookRow>
    var members: map<nat, MemberRow>
    var loans: map<nat, LoanRow>
    var roles: map<nat, RoleRow>
    var reservations: map<nat, ReservationRow>
    var bookSeq: nat
    var memberSeq: nat
    var loanSeq: nat
    var roleSeq: nat
    var reservationSeq: nat

    function State(): Tables
      reads this
    {
      Tables(books, members, loans, roles, reservations,
             bookSeq, memberSeq, loanSeq, roleSeq, reservationSeq)
    }

    ghost predicate Valid()
      reads this
    {
      WellFormed(State())
    }

    /** Empty tables, counters at 1, then the roles ADMIN, LIBRARIAN and
        MEMBER inserted in that order. */
    constructor ()
      ensures Valid()
      ensures State() == Seeded()
    {
      books, members, loans, roles, reservations := map[], map[], map[], map[], map[];
      bookSeq, memberSeq, loanSeq, roleSeq, reservationSeq := 1, 1, 1, 1, 1;
      new;
      var admin := InsertRole("ADMIN");
      var librarian := InsertRole("LIBRARIAN");
      var member := InsertRole("MEMBER");
    }

    method InsertRole(name: string) returns (id: nat)
      requires Valid()
      modifies this
      ensures Valid()
      ensures id == old(roleSeq) && id !in old(roles)
      ensures State() == InsertedRole(old(State()), name)
    {
      id := roleSeq;
      roles := roles[id := RoleRow(Some(name))];
      roleSeq := roleSeq + 1;
    }

    method InsertBook(title: string, author: string, isbn: string, total: int32, available: int32)
      returns (id: nat)
      requires Valid()
      modifies this
      ensures Valid()
      ensures id == old(bookSeq) && id !in old(books)
      ensures State() == InsertedBook(old(State()), title, author, isbn, total, available)
    {
      id := bookSeq;
      books := books[id := BookRow(title, author, isbn, total, available, None)];
      bookSeq := bookSeq + 1;
    }

    method UpdateBook(id: nat, title: string, author: string, isbn: string, total: int32, available: int32)
      returns (affected: nat)
      requires Valid()
      modifies this
      ensures Valid()
      ensures affected == (if id in old(books) then 1 else 0)
      ensures State() == UpdatedBook(old(State()), id, title, author, isbn, total, available)
    {
      if id !in books {
        return 0;
      }
      books := books[id := books[id].(title := title, author := author, isbn := isbn,
                                       totalCopies := total, availableCopies := available)];
      return 1;
    }

    method DeleteBook(id: nat) returns (affected: nat)
      requires Valid()
      modifies this
      ensures Valid()
      ensures affected == (if id in old(books) then 1 else 0)
      ensures State() == DeletedBook(old(State()), id)
    {
      affected := if id in books then 1 else 0;
      books := books - {id};
    }

    /** update books set available_copies = available_copies - 1
        where id = :id and available_copies > 0 */
    method DecrementCopies(id: nat) returns (affected: nat)
      requires Valid()
      modifies this
      ensures Valid()
      ensures affected == (if CanDecrement(old(State()), id) then 1 else 0)
      ensures State() == Decremented(old(State()), id)
    {
      if id !in books {
        return 0;
      }
      var available := books[id].availableCopies;
      if available <= 0 {
        return 0;
      }
      books := books[id := books[id].(availableCopies := available - 1)];
      return 1;
    }

    /** update books set available_copies = available_copies + 1
        where id = :id and available_copies < total_copies */
    method IncrementCopies(id: nat) returns (affected: nat)
      requires Valid()
      modifies this
      ensures Valid()
      ensures affected == (if CanIncrement(old(State()), id) then 1 else 0)
      ensures State() == Incremented(old(State()), id)
    {
      if id !in books {
        return 0;
      }
      var available := books[id].availableCopies;
      var total := books[id].totalCopies;
      if available >= total {
        return 0;
      }
      books := books[id := books[id].(availableCopies := available + 1)];
      return 1;
    }

    method InsertMember(name: string, email: string) returns (id: nat)
      requires Valid()
      modifies this
      ensures Valid()
      ensures id == old(memberSeq) && id !in old(members)
      ensures State() == InsertedMember(old(State()), name, email)
    {
      id := memberSeq;
      members := members[id := MemberRow(name, email, None, None)];
      memberSeq := memberSeq + 1;
    }

    method UpdateMember(id: nat, name: string, email: string) returns (affected: nat)
      requires Valid()
      modifies this
      ensures Valid()
      ensures affected == (if id in old(members) then 1 else 0)
      ensures State() == UpdatedMember(old(State()), id, name, email)
    {
      if id !in members {
        return 0;
      }
      members := members[id := members[id].(name := name, email := email)];
      return 1;
    }

    method DeleteMember(id: nat) returns (affected: nat)
      requires Valid()
      modifies this
      ensures Valid()
      ensures affected == (if id in old(members) then 1 else 0)
      ensures State() == DeletedMember(old(State()), id)
    {
      affected := if id in members then 1 else 0;
      members := members - {id};
    }

    method InsertLoan(bookId: nat, memberId: nat, borrowedAt: int, dueDate: int) returns (id: nat)
      requires Valid()
      modifies this
      ensures Valid()
      ensures id == old(loanSeq) && id !in old(loans)
      ensures State() == InsertedLoan(old(State()), bookId, memberId, borrowedAt, dueDate)
    {
      id := loanSeq;
      loans := loans[id := LoanRow(bookId, memberId, borrowedAt, dueDate, None)];
      loanSeq := loanSeq + 1;
    }

    /** update loans set returned_at = :returnedAt where id = :id and returned_at is null */
    method MarkReturned(id: nat, at: int) returns (affected: nat)
      requires Valid()
      modifies this
      ensures Valid()
      ensures affected == (if IsOpenLoan(old(State()), id) then 1 else 0)
      ensures State() == MarkedReturned(old(State()), id, at)
    {
      if id !in loans || loans[id].returnedAt.Some? {
        return 0;
      }
      loans := loans[id := loans[id].(returnedAt := Some(at))];
      return 1;
    }

    method InsertReservation(bookId: nat, memberId: nat, roleName: string, createdAt: int)
      returns (id: nat)
      requires Valid()
      modifies this
      ensures Valid()
      ensures id == old(reservationSeq) && id !in old(reservations)
      ensures State() == InsertedReservation(old(State()), bookId, memberId, roleName, createdAt)
    {
      id := reservationSeq;
      reservations := reservations[id := ReservationRow(bookId, memberId, roleName, Pending, createdAt, None, None)];
      reservationSeq := reservationSeq + 1;
    }

    method MarkFulfilled(id: nat, at: int) returns (affected: nat)
      requires Valid()
      modifies this
      ensures Valid()
      ensures affected == (if IsPending(old(State()), id) then 1 else 0)
      ensures State() == MarkedFulfilled(old(State()), id, at)
    {
      if id !in reservations || reservations[id].status != Pending {
        return 0;
      }
      reservations := reservations[id := reservations[id].(status := Fulfilled, fulfilledAt := Some(at))];
      return 1;
    }

    method MarkCanceled(id: nat, at: int) returns (affected: nat)
      requires Valid()
      modifies this
      ensures Valid()
      ensures affected == (if IsPending(old(State()), id) then 1 else 0)
      ensures State() == MarkedCanceled(old(State()), id, at)
    {
      if id !in reservations || reservations[id].status != Pending {
        return 0;
      }
      reservations := reservations[id := reservations[id].(status := Canceled, canceledAt := Some(at))];
      return 1;
    }

    /** select count(*) from loans where member_id = :memberId and returned_at
        is null [and due_date < :now]: the size of the set of counted loans. */
    method CountOpenLoans(memberId: nat, dueBefore: Option<int>) returns (count: nat)
      requires Valid()
      ensures count == |OpenLoansOf(loans, memberId, dueBefore)|
    {
      var i := 0;
      count := 0;
      ghost var seen: set<nat> := {};
      while i < loanSeq
        invariant 0 <= i <= loanSeq
        invariant seen == set id | id in loans && id < i && Counted(loans[id], memberId, dueBefore)
        invariant count == |seen|
      {
        if i in loans && Counted(loans[i], memberId, dueBefore) {
          assert i !in seen;
          seen := seen + {i};
          count := count + 1;
        }
        i := i + 1;
      }
      assert seen == OpenLoansOf(loans, memberId, dueBefore);
    }
  }
}
