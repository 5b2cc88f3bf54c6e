# Library circulation engine, modelled in Dafny

This project models the circulation engine of a small library back end:

- lending a book copy (`borrow`);
- taking it back (`returnLoan`);
- the reservation queue, which is served when a copy comes back (`fulfillNextReservation`);
- the loan search filter;
- the catalog and member rules the engine relies on;
- the URL joining of the adapter health check.

The services reach their tables only through SQL statements sent to an adapter. The in-memory adapter used by the tests decides what each statement does to the rows. Here that store is the class `SqlStore.Store`:

- It has one map per table (books, members, loans, roles, reservations) and one id counter per table.
- Each statement the services issue is one method of the class.
- Each such method's postcondition ties the new state to a pure step function on the snapshot `Tables`, for example `State() == Decremented(old(State()), id)`.

Every service operation is a method over a `Store`. Its outcome is stated as a predicate over the state before and after (for example `BorrowSpec` or `ReturnSpec`). Lemmas prove what the library promises about those predicates and step functions:

- the checks run in their fixed order, and a failed check writes nothing;
- borrow, return and fulfilment keep the copy ledger: `0 <= available <= total`, and available copies plus open loans make up the total (the catalog writes `BookService.Create` and `BookService.Update` set the copy counts directly and can leave the second part false);
- a loan is returned once;
- reservation states are final;
- the queue serves ADMIN before LIBRARIAN before everyone else, then the oldest;
- search status words are parsed as described.

Conventions:

- Time is an integer count of seconds. A day is 86400 seconds.
- Each service call reads the clock once, as the parameter `now`.
- The borrowing limits are a `BorrowingConfig` value. It defaults to 5 active loans and 14 days.

Files:

| file | module | contents |
|---|---|---|
| `wrappers.dfy` | `Wrappers` | `Option`, `Result` and the failure kinds (NotFound, BusinessRule) with their reasons |
| `text.dfy` | `JavaText` | the `String` operations the services use: `trim`, `isBlank`, case mapping, decimal text |
| `rows.dfy` | `Rows` | result rows as column maps; `getValue`, `toLong`, `toInt`, `toString` |
| `store.dfy` | `SqlStore` | the tables, the statement step functions, the `Store` class, the first-match scan |
| `ledger.dfy` | `Ledger` | the copy invariants and how lending and returning keep them |
| `book_service.dfy` | `BookService` | catalog create, update, delete and lookups |
| `member_service.dfy` | `MemberService` | member create, update, delete and lookups |
| `reservation_service.dfy` | `ReservationService` | reservation get, create, cancel, role-name resolution |
| `loan_service.dfy` | `LoanService` | borrow, return, queue fulfilment, search filter |
| `health_url.dfy` | `SqlAdapterHealthIndicator` | `joinUrl` and `buildUrl` |
| `loan_service_test.dfy` | `LoanServiceTest` | the service test scenarios, proved for every `now` |

## Model

| member | source | states |
|---|---|---|
| SqlStore.Store.constructor | src/test/java/com/example/library/InMemorySqlAdapterClient.java:11-25 | a fresh store holds roles 1 ADMIN, 2 LIBRARIAN and 3 MEMBER, no other rows, and every other id counter at 1 |
| SqlStore.Store.InsertRole | src/test/java/com/example/library/InMemorySqlAdapterClient.java:263-269 | the new role takes the counter's id, which was free, and the counter advances |
| SqlStore.Store.InsertBook | src/test/java/com/example/library/InMemorySqlAdapterClient.java:31-42 | the book takes the next id, which was free; no other row changes |
| SqlStore.Store.UpdateBook | src/test/java/com/example/library/InMemorySqlAdapterClient.java:44-56 | overwrites the five columns and returns 1 when the id exists; otherwise returns 0 and changes nothing |
| SqlStore.Store.DeleteBook | src/test/java/com/example/library/InMemorySqlAdapterClient.java:58-61 | removes the row and returns 1, or returns 0 when it is absent; other rows are untouched |
| SqlStore.Store.DecrementCopies | src/test/java/com/example/library/InMemorySqlAdapterClient.java:63-75 | one copy is taken exactly when the book exists with available > 0 (returns 1); otherwise returns 0 with no change |
| SqlStore.Store.IncrementCopies | src/test/java/com/example/library/InMemorySqlAdapterClient.java:77-90 | one copy is put back exactly when the book exists with available < total (returns 1); otherwise returns 0 with no change |
| SqlStore.Store.InsertMember | src/test/java/com/example/library/InMemorySqlAdapterClient.java:92-101 | the member takes the next id with no role and no deletion mark |
| SqlStore.Store.UpdateMember | src/test/java/com/example/library/InMemorySqlAdapterClient.java:103-113 | overwrites name and email when the id exists (1); otherwise 0 with no change |
| SqlStore.Store.DeleteMember | src/test/java/com/example/library/InMemorySqlAdapterClient.java:115-118 | removes the row (1) or reports 0 when absent |
| SqlStore.Store.InsertLoan | src/test/java/com/example/library/InMemorySqlAdapterClient.java:120-131 | the loan takes the next id, with returned_at null |
| SqlStore.Store.MarkReturned | src/test/java/com/example/library/InMemorySqlAdapterClient.java:133-141 | sets returned_at exactly when the loan exists and is still open (1); otherwise 0 with no change |
| SqlStore.Store.InsertReservation | src/main/java/com/example/library/service/ReservationService.java:48-52 | the reservation takes the next id, PENDING, stamped with its creation instant and role name |
| SqlStore.Store.MarkFulfilled | src/main/java/com/example/library/service/LoanService.java:293-297 | moves a PENDING reservation to FULFILLED with its instant (1); any other id or status gives 0 and no change |
| SqlStore.Store.MarkCanceled | src/main/java/com/example/library/service/ReservationService.java:72-76 | moves a PENDING reservation to CANCELED with its instant (1); any other id or status gives 0 and no change |
| SqlStore.Store.CountOpenLoans | src/test/java/com/example/library/InMemorySqlAdapterClient.java:211-222 | returns the number of the member's loans with null returned_at, further limited to due_date strictly before `now` in the overdue variant |
| SqlStore.FirstMatch | src/test/java/com/example/library/InMemorySqlAdapterClient.java:234-255 | finds a matching row if and only if one exists, and the one it finds is the matching row with the least id |
| SqlStore.DecrementStaysNonNegative | src/test/java/com/example/library/InMemorySqlAdapterClient.java:63-75 | the guarded decrement takes exactly one copy of that book only, never below 0, and changes nothing when its guard fails |
| SqlStore.IncrementStaysWithinTotal | src/test/java/com/example/library/InMemorySqlAdapterClient.java:77-90 | the guarded increment puts back exactly one copy, never above total, and changes nothing when its guard fails |
| SqlStore.ReturnedAtSetOnce | src/test/java/com/example/library/InMemorySqlAdapterClient.java:133-141 | once set, returned_at does not change: a second mark-returned is a no-op |
| SqlStore.FinishedReservationsAreFinal | src/main/java/com/example/library/service/ReservationService.java:72-76 | FULFILLED and CANCELED reservations are left alone by both status updates |
| SqlStore.Seeded | src/test/java/com/example/library/InMemorySqlAdapterClient.java:11-25 | the seeded snapshot is well-formed: every id below its counter |
| SqlStore.InsertedRole | src/test/java/com/example/library/InMemorySqlAdapterClient.java:263-269 | the role goes under the counter's id, which a well-formed store has free; every other table and counter is unchanged, and a well-formed store stays well-formed |
| SqlStore.InsertedBook | src/test/java/com/example/library/InMemorySqlAdapterClient.java:31-42 | the book goes under the next id, which a well-formed store has free; every other table and counter is unchanged, and a well-formed store stays well-formed |
| SqlStore.UpdatedBook | src/test/java/com/example/library/InMemorySqlAdapterClient.java:44-56 | only the books table changes; every other table and counter is unchanged, and a well-formed store stays well-formed |
| SqlStore.DeletedBook | src/test/java/com/example/library/InMemorySqlAdapterClient.java:58-61 | only the books table changes; every other table and counter is unchanged, and a well-formed store stays well-formed |
| SqlStore.Decremented | src/test/java/com/example/library/InMemorySqlAdapterClient.java:63-75 | only the books table changes; every other table and counter is unchanged, and a well-formed store stays well-formed |
| SqlStore.Incremented | src/test/java/com/example/library/InMemorySqlAdapterClient.java:77-90 | only the books table changes; every other table and counter is unchanged, and a well-formed store stays well-formed |
| SqlStore.InsertedMember | src/test/java/com/example/library/InMemorySqlAdapterClient.java:92-101 | the member goes under the next id, which a well-formed store has free; every other table and counter is unchanged, and a well-formed store stays well-formed |
| SqlStore.UpdatedMember | src/test/java/com/example/library/InMemorySqlAdapterClient.java:103-113 | only the members table changes; every other table and counter is unchanged, and a well-formed store stays well-formed |
| SqlStore.DeletedMember | src/test/java/com/example/library/InMemorySqlAdapterClient.java:115-118 | only the members table changes; every other table and counter is unchanged, and a well-formed store stays well-formed |
| SqlStore.InsertedLoan | src/test/java/com/example/library/InMemorySqlAdapterClient.java:120-131 | the loan goes under the next id, which a well-formed store has free; every other table and counter is unchanged, and a well-formed store stays well-formed |
| SqlStore.MarkedReturned | src/test/java/com/example/library/InMemorySqlAdapterClient.java:133-141 | only the loans table changes; every other table and counter is unchanged, and a well-formed store stays well-formed |
| SqlStore.InsertedReservation | src/main/java/com/example/library/service/ReservationService.java:48-52 | the reservation goes under the next id, which a well-formed store has free; every other table and counter is unchanged, and a well-formed store stays well-formed |
| SqlStore.MarkedFulfilled | src/main/java/com/example/library/service/LoanService.java:293-297 | only the reservations table changes; every other table and counter is unchanged, and a well-formed store stays well-formed (the FULFILLED row gets its stamp) |
| SqlStore.MarkedCanceled | src/main/java/com/example/library/service/ReservationService.java:72-76 | only the reservations table changes; every other table and counter is unchanged, and a well-formed store stays well-formed (the CANCELED row gets its stamp) |
| Ledger.OnLoanAfterInsert | src/test/java/com/example/library/InMemorySqlAdapterClient.java:120-131 | a loan inserted under a fresh id adds exactly one open loan to its book and none to any other |
| Ledger.OnLoanAfterReturn | src/test/java/com/example/library/InMemorySqlAdapterClient.java:133-141 | closing an open loan removes exactly that loan from its book's open loans |
| Ledger.GuardedUpdatesKeepCopiesWithinTotal | src/test/java/com/example/library/InMemorySqlAdapterClient.java:63-90 | both guarded copy updates keep 0 <= available <= total for every book |
| Ledger.LendingKeepsBalance | src/main/java/com/example/library/service/LoanService.java:65-91 | decrement followed by a loan insert keeps available + open loans = total for every book |
| Ledger.ReturningKeepsBalance | src/main/java/com/example/library/service/LoanService.java:101-120 | in a balanced store, returning an open loan always passes the increment's guard and keeps every book balanced |
| Ledger.LedgerIgnoresOtherTables | src/main/java/com/example/library/service/LoanService.java:285-300 | statements on members, roles and reservations neither make nor break the ledger invariants |
| Rows.GetValue | src/main/java/com/example/library/service/LoanService.java:401-414 | the exact key's value when present; otherwise the lower-case key's value when that is present; otherwise the upper-case key's; otherwise null. A present column holding null also reads as null |
| Rows.GetValueOnLowerCaseColumns | src/main/java/com/example/library/service/ReservationService.java:136-149 | on a row with lower-case column names, a key's value is that of its lower-case form, or null |
| Rows.GetValueOnUpperCaseColumns | src/main/java/com/example/library/service/BookService.java:157-170 | on a row with upper-case column names, a key's value is that of its upper-case form, or null |
| Rows.WrapInt | src/main/java/com/example/library/service/LoanService.java:390-391 | `intValue()` narrowing: the result is a 32-bit value congruent to the input, and equal to it when it is already in range |
| Rows.WrapLong | src/main/java/com/example/library/service/LoanService.java:379-380 | `longValue()` narrowing: the result is a 64-bit value congruent to the input, and equal to it when it is already in range |
| Rows.ToLong | src/main/java/com/example/library/service/LoanService.java:374-383 | reads null exactly when the column is absent or null; any value read is in the long range |
| Rows.ToInt | src/main/java/com/example/library/service/LoanService.java:385-394 | an absent or null column reads as 0; any value read is in the int range |
| Rows.ToText | src/main/java/com/example/library/service/LoanService.java:396-399 | reads null exactly when the column is absent or null |
| Rows.LongReadsBack | src/main/java/com/example/library/service/ReservationService.java:106-115 | a long stored as a number or as its decimal text reads back as itself |
| Rows.IntReadsBack | src/main/java/com/example/library/service/BookService.java:141-150 | an int stored as a number or as its decimal text reads back as itself |
| Rows.TextOfNumberIsDecimal | src/main/java/com/example/library/service/ReservationService.java:117-120 | the text of a number column is its decimal form |
| BookService.StoredBookMapsBack | src/main/java/com/example/library/service/BookService.java:119-128 | mapping the selected columns of a stored book gives back exactly that book |
| BookService.MissingCopiesReadAsZero | src/main/java/com/example/library/service/BookService.java:141-150 | a row without copy-count columns maps to a book with 0 total and 0 available copies |
| BookService.MapBook | src/main/java/com/example/library/service/BookService.java:119-128 | the mapping fails with NumberFormatException exactly when the id or one of the two copy columns does not convert; otherwise title and ISBN are the columns' text forms |
| BookService.Get | src/main/java/com/example/library/service/BookService.java:26-35 | succeeds exactly when the id exists, with that id; otherwise NotFound |
| BookService.GetReadsStoredRow | src/main/java/com/example/library/service/BookService.java:26-35 | what get returns is what mapBook reads from the stored row |
| BookService.ExistsByIsbn | src/main/java/com/example/library/service/BookService.java:100-106 | true exactly when some book has the ISBN |
| BookService.GetByIsbn | src/main/java/com/example/library/service/BookService.java:108-117 | succeeds exactly when some book has the ISBN, returning the first such book; otherwise NotFound |
| BookService.Create | src/main/java/com/example/library/service/BookService.java:37-61 | available > total fails before any write; then a taken ISBN fails; otherwise inserts and returns the new book; keeps ISBNs unique and copies within total |
| BookService.ApplyUpdate | src/main/java/com/example/library/service/BookService.java:72-88 | the row write of update: NotFound when zero rows are affected, else the updated book |
| BookService.Update | src/main/java/com/example/library/service/BookService.java:63-89 | checks copies, then NotFound, then the ISBN rule (keeping the book's own ISBN is allowed), then writes; keeps ISBNs unique and copies within total |
| BookService.Delete | src/main/java/com/example/library/service/BookService.java:91-98 | removes the book, or NotFound when zero rows are affected |
| MemberService.MapMember | src/main/java/com/example/library/service/MemberService.java:105-111 | the mapping fails with NumberFormatException exactly when the id does not convert; otherwise name and email are the columns' text forms |
| MemberService.StoredMemberMapsBack | src/main/java/com/example/library/service/MemberService.java:105-111 | mapping the selected columns of a stored member gives back exactly that member |
| MemberService.Get | src/main/java/com/example/library/service/MemberService.java:26-35 | succeeds exactly when the id exists, soft-deleted or not; otherwise NotFound |
| MemberService.ExistsByEmail | src/main/java/com/example/library/service/MemberService.java:86-92 | true exactly when some member has the email |
| MemberService.GetByEmail | src/main/java/com/example/library/service/MemberService.java:94-103 | succeeds exactly when some member has the email, returning the first such member; otherwise NotFound |
| MemberService.Create | src/main/java/com/example/library/service/MemberService.java:37-54 | a taken email fails with no write; otherwise inserts a member without a role and returns it; keeps emails unique |
| MemberService.ApplyUpdate | src/main/java/com/example/library/service/MemberService.java:61-74 | the row write of update: NotFound when zero rows are affected, else the updated member |
| MemberService.Update | src/main/java/com/example/library/service/MemberService.java:56-75 | NotFound, then the email rule (keeping one's own email is allowed), then the write; keeps emails unique |
| MemberService.Delete | src/main/java/com/example/library/service/MemberService.java:77-84 | removes the member, or NotFound when zero rows are affected |
| ReservationService.Get | src/main/java/com/example/library/service/ReservationService.java:27-37 | succeeds exactly when the id exists; otherwise NotFound |
| ReservationService.Create | src/main/java/com/example/library/service/ReservationService.java:39-66 | inserts one PENDING row with the role name and `createdAt = now`, then returns the first row with the same book, member and instant, which is the new row unless an older one shares all three |
| ReservationService.Cancel | src/main/java/com/example/library/service/ReservationService.java:68-80 | only a PENDING reservation becomes CANCELED; a missing or already processed one fails with the same BusinessRule and no change |
| ReservationService.SecondCancelFails | src/main/java/com/example/library/service/ReservationService.java:72-79 | after a cancel the reservation is no longer PENDING, so a second cancel fails and changes nothing |
| ReservationService.ResolveRoleNameForMember | src/main/java/com/example/library/service/ReservationService.java:82-104 | "MEMBER" when the member is absent or deleted, has no role, or has a role that is missing or has no name; otherwise exactly the name of the member's role |
| ReservationService.SeededRolesResolve | src/test/java/com/example/library/InMemorySqlAdapterClient.java:21-25 | with the seeded roles, role 1 resolves to ADMIN, role 2 to LIBRARIAN, and any other id to MEMBER |
| LoanService.Get | src/main/java/com/example/library/service/LoanService.java:35-44 | succeeds exactly when the loan exists; otherwise NotFound |
| LoanService.RoleName | src/main/java/com/example/library/service/LoanService.java:330-340 | the corrected lookup: for every live member holding that role id, the name equals what the reservation service's resolver gives that member |
| LoanService.RoleNameAsWritten | src/main/java/com/example/library/service/LoanService.java:330-340 | as written, the lookup has no result (it throws) exactly when the role id is null; any result it has is the corrected lookup's |
| LoanService.RoleNameAsWrittenFailsForCreatedMembers | src/main/java/com/example/library/service/LoanService.java:330-340 | as written, the role lookup fails for every member the member service creates, since those have no role |
| LoanService.RoleNameAgrees | src/main/java/com/example/library/service/LoanService.java:330-340 | the corrected lookup equals the written one wherever that one returns, and equals the reservation service's resolver for live members |
| LoanService.GetLoanByKeys | src/main/java/com/example/library/service/LoanService.java:226-240 | succeeds exactly when a loan has the book, member and borrowing instant, returning the first such loan; otherwise NotFound |
| LoanService.CreateReservation | src/main/java/com/example/library/service/LoanService.java:242-270 | inserts one PENDING reservation carrying the member's role name and `now`, and returns the id of the first reservation with those keys, which is the new one when the keys were free |
| LoanService.Lend | src/main/java/com/example/library/service/LoanService.java:65-93 | no copy on the shelf: fails "no available copies to borrow" with no change; otherwise takes one copy and inserts an open loan due maxLoanDays later, returned by its keys |
| LoanService.Borrow | src/main/java/com/example/library/service/LoanService.java:46-94 | book then member NotFound; out of stock queues a reservation and fails; then the active-loan limit; then overdue loans; then the write |
| LoanService.SuccessfulBorrowEffect | src/main/java/com/example/library/service/LoanService.java:65-93 | a successful borrow lowers the book's available copies by exactly 1, not below 0, adds exactly one open loan for the member, and touches neither members nor reservations |
| LoanService.FailedBorrowTakesNoCopy | src/main/java/com/example/library/service/LoanService.java:46-63 | a failed borrow changes no book, loan or member; apart from the out-of-stock case it changes nothing; that case adds exactly one PENDING reservation stamped `now` |
| LoanService.BorrowKeepsLedger | src/main/java/com/example/library/service/LoanService.java:46-94 | every borrow outcome keeps every book balanced and within its total |
| LoanService.LimitOfOneBlocksSecondLoan | src/main/java/com/example/library/service/LoanService.java:55-58 | with a limit of one, a member holding an open loan cannot borrow, and nothing is written |
| LoanService.OverdueLoanBlocksBorrow | src/main/java/com/example/library/service/LoanService.java:60-63 | an open loan due strictly before `now` blocks a borrow under the limit, and nothing is written |
| LoanService.LastCopyLentOnce | src/main/java/com/example/library/service/LoanService.java:69-76 | of two lends of a book's last copy, the second fails "no available copies to borrow" and writes nothing |
| LoanService.RoleRank | src/main/java/com/example/library/service/LoanService.java:278 | ADMIN ranks 1, LIBRARIAN ranks 2, every other role name ranks 3 |
| LoanService.PrecedesIsStrictTotalOrder | src/main/java/com/example/library/service/LoanService.java:278 | the queue order by (rank, created_at, id) is asymmetric, total on distinct ids and transitive |
| LoanService.NextToFulfilIsUnique | src/main/java/com/example/library/service/LoanService.java:275-285 | at most one PENDING reservation of a book comes first in queue order |
| LoanService.FirstInQueue | src/main/java/com/example/library/service/LoanService.java:275-285 | any non-empty finite set of PENDING reservations has a first in queue order |
| LoanService.NextExists | src/main/java/com/example/library/service/LoanService.java:275-285 | a book with a PENDING reservation has one that is next to fulfil |
| LoanService.SelectNextReservation | src/main/java/com/example/library/service/LoanService.java:275-285 | finds nothing exactly when the book has no PENDING reservation; otherwise finds the one first in queue order |
| LoanService.AdminServedFirst | src/main/java/com/example/library/service/LoanService.java:278 | a MEMBER, then an ADMIN, then a LIBRARIAN reservation: the ADMIN one is served first |
| LoanService.GrantReservedCopy | src/main/java/com/example/library/service/LoanService.java:308-327 | the loan write of fulfilment: a loan is inserted only when the guarded decrement took a copy |
| LoanService.GrantedCopy | src/main/java/com/example/library/service/LoanService.java:308-327 | corrected: when a copy is on the shelf it is taken and exactly one open loan due maxLoanDays later is added under the next id; otherwise nothing changes |
| LoanService.GrantedAsWritten | src/main/java/com/example/library/service/LoanService.java:308-327 | as written: the open loan is added whatever the decrement did, and with no copy on the shelf the books stay as they were |
| LoanService.GrantKeepsBalance | src/main/java/com/example/library/service/LoanService.java:308-327 | granting as corrected keeps every book balanced and within its total |
| LoanService.GrantAgreesAfterStockRead | src/main/java/com/example/library/service/LoanService.java:302-327 | after a positive stock read, granting as written and as corrected write the same single loan |
| LoanService.GrantAsWrittenOverLends | src/main/java/com/example/library/service/LoanService.java:312-327 | granting as written, when the stock is gone by the decrement, unbalances a balanced book; as corrected it stays balanced |
| LoanService.FulfilReservation | src/main/java/com/example/library/service/LoanService.java:285-327 | a reservation no longer PENDING: no change; otherwise FULFILLED, then book or member NotFound, then an empty shelf ends with no loan; otherwise a loan; no limit or overdue check |
| LoanService.FulfilNext | src/main/java/com/example/library/service/LoanService.java:272-328 | no PENDING reservation: no change; otherwise fulfils the one first in queue order |
| LoanService.FulfilKeepsLedger | src/main/java/com/example/library/service/LoanService.java:285-327 | fulfilment keeps every book balanced and within its total, and keeps every existing loan as it was |
| LoanService.FulfilNextKeepsLoans | src/main/java/com/example/library/service/LoanService.java:272-328 | serving the queue keeps the ledger and never removes or rewrites a loan |
| LoanService.CloseLoan | src/main/java/com/example/library/service/LoanService.java:101-124 | a loan no longer open fails "already returned" with no change; otherwise marks it returned, puts a copy back if below total, serves the queue, and returns the loan |
| LoanService.ReturnLoan | src/main/java/com/example/library/service/LoanService.java:96-125 | NotFound; then "already returned" with no change; then the write half |
| LoanService.ReturnKeepsLedger | src/main/java/com/example/library/service/LoanService.java:96-125 | returning keeps the ledger; an open loan ends up closed at `now` whatever the queue step does; a loan that was not open fails with no change |
| LoanService.SecondReturnFails | src/main/java/com/example/library/service/LoanService.java:96-112 | a second return of the same loan fails "already returned" and writes nothing |
| LoanService.ReturnServesQueue | src/main/java/com/example/library/service/LoanService.java:114-122 | in a balanced store, a return to a queue hands the copy to the next reservation: it becomes FULFILLED and its member gets a loan, and the shelf count ends where it started |
| LoanService.StatusFilterOf | src/main/java/com/example/library/service/LoanService.java:148-157 | a null status adds no filter, and any filter comes from a non-blank status |
| LoanService.SearchWith | src/main/java/com/example/library/service/LoanService.java:127-163 | the search finds only stored loans, and with no condition at all it finds every loan |
| LoanService.Search | src/main/java/com/example/library/service/LoanService.java:127-163 | the search finds only stored loans, and with every parameter null it finds every loan |
| LoanService.NormalisedWord | src/main/java/com/example/library/service/LoanService.java:148-149 | a status with nothing to trim and no lower-case letter is parsed as itself |
| LoanService.ActiveWord | src/main/java/com/example/library/service/LoanService.java:148-151 | the word ACTIVE selects the open loans |
| LoanService.ReturnedWord | src/main/java/com/example/library/service/LoanService.java:148-153 | the word RETURNED selects the returned loans |
| LoanService.OverdueWord | src/main/java/com/example/library/service/LoanService.java:148-156 | the word OVERDUE selects the overdue loans |
| LoanService.OtherWord | src/main/java/com/example/library/service/LoanService.java:148-157 | a word that is none of the three adds no filter |
| LoanService.TrimmedStatusSameFilter | src/main/java/com/example/library/service/LoanService.java:148-149 | surrounding characters at or below U+0020 do not matter: any status and its trimmed form select the same filter |
| LoanService.UpperCaseSameFilter | src/main/java/com/example/library/service/LoanService.java:148-149 | letter case does not matter: any status and its upper-case form select the same filter |
| LoanService.LowerCaseSameFilter | src/main/java/com/example/library/service/LoanService.java:148-149 | any status and its lower-case form select the same filter |
| LoanService.BlankCheckChangesNothing | src/main/java/com/example/library/service/LoanService.java:148-149 | the blank check never changes the outcome: a blank status, trimmed and upper-cased, is none of the status words |
| LoanService.SearchByWord | src/main/java/com/example/library/service/LoanService.java:127-163 | a search with a status finds what the member, book and window conditions plus that status's filter select; the status takes no part in the other conditions |
| LoanService.FiltersPartition | src/main/java/com/example/library/service/LoanService.java:148-157 | the active and returned filters split what the unfiltered search finds, and the overdue filter finds a subset of the active one |
| LoanService.ActiveAndReturnedPartition | src/main/java/com/example/library/service/LoanService.java:127-163 | ACTIVE and RETURNED split the loans the search without status finds: disjoint, and together everything |
| LoanService.OverdueWithinActive | src/main/java/com/example/library/service/LoanService.java:150-156 | every loan the OVERDUE search finds, the ACTIVE search finds too |
| LoanService.OverdueFilterIsOverdueCount | src/main/java/com/example/library/service/LoanService.java:214-224 | the overdue filter on one member's loans finds exactly the loans the overdue check of borrow counts |
| LoanService.OverdueSearchIsOverdueCount | src/main/java/com/example/library/service/LoanService.java:214-224 | a member's OVERDUE search, with no book or window condition, finds exactly the loans the overdue check of borrow counts |
| SqlAdapterHealthIndicator.JoinUrl | src/main/java/com/example/library/sqladapter/SqlAdapterHealthIndicator.java:43-58 | whenever the left side is neither null nor blank, the joined URL starts with it |
| SqlAdapterHealthIndicator.BuildUrl | src/main/java/com/example/library/sqladapter/SqlAdapterHealthIndicator.java:37-41 | whenever the base URL is neither null nor blank, the URL starts with it, whatever the base path and path |
| SqlAdapterHealthIndicator.BlankLeftYieldsRight | src/main/java/com/example/library/sqladapter/SqlAdapterHealthIndicator.java:44-46 | a null or blank left side yields the right side, or "" for null |
| SqlAdapterHealthIndicator.BlankRightYieldsLeft | src/main/java/com/example/library/sqladapter/SqlAdapterHealthIndicator.java:47-49 | a non-blank left side and a null or blank right side yield the left side unchanged |
| SqlAdapterHealthIndicator.JoinedAtOneSlash | src/main/java/com/example/library/sqladapter/SqlAdapterHealthIndicator.java:50-58 | with both sides non-blank the result starts with the left side and is the two sides with one seam slash each taken off and exactly one put back |
| SqlAdapterHealthIndicator.JoinedLength | src/main/java/com/example/library/sqladapter/SqlAdapterHealthIndicator.java:50-58 | the joined length is one less than both sides when both bring a slash, one more when neither does |
| SqlAdapterHealthIndicator.HealthUrlExample | src/main/java/com/example/library/sqladapter/SqlAdapterHealthIndicator.java:37-58 | a base ending in a slash, "/api" and "/health" join with one slash between parts |
| SqlAdapterHealthIndicator.HealthUrlWithoutSlashes | src/main/java/com/example/library/sqladapter/SqlAdapterHealthIndicator.java:37-58 | a base and "health" with no slash on either side get one put in; a null base path is skipped |
| SqlAdapterHealthIndicator.HealthUrlWithoutBase | src/main/java/com/example/library/sqladapter/SqlAdapterHealthIndicator.java:37-46 | with no base and no base path, "/health" is the URL as it is |
| LoanServiceTest.Fixture | src/test/java/com/example/library/LoanServiceTest.java:33-46 | a fresh store with one book of the given copies and one member without a role, created through the services |
| LoanServiceTest.BorrowCreatesLoanAndDecrementsCopies | src/test/java/com/example/library/LoanServiceTest.java:28-54 | borrowing one of two copies leaves 1 available and returns an open loan due 14 days after `now` |
| LoanServiceTest.BorrowFailsWhenMemberOverLimit | src/test/java/com/example/library/LoanServiceTest.java:56-80 | with a limit of 1, the first borrow succeeds and the second fails "maximum active loans" |
| LoanServiceTest.BorrowFailsWhenOverdueLoanExists | src/test/java/com/example/library/LoanServiceTest.java:82-115 | a loan due a day before `now` makes the borrow fail "overdue loans" |
| LoanServiceTest.TwoMembers | src/test/java/com/example/library/LoanServiceTest.java:33-46 | a fresh store with one copy of one book and two distinct members, balanced and with nothing on loan |
| LoanServiceTest.LastCopyLent | src/main/java/com/example/library/service/LoanService.java:46-94 | one member borrows the only copy: the shelf is empty, the loan is the store's only loan and belongs to a member other than the waiter |
| LoanServiceTest.QueueBehindLastCopy | src/main/java/com/example/library/service/LoanService.java:50-53 | when one member holds the last copy, another member's borrow fails and queues a reservation that is next in line |
| LoanServiceTest.ReturnHandsCopyToWaitingMember | src/main/java/com/example/library/service/LoanService.java:114-122 | the return closes the loan, the waiting reservation becomes FULFILLED, the waiting member gets an open loan for that book from the return instant, and the shelf stays at 0 |

## Left out

- Transport. The HTTP and JDBC adapter clients, their audit insert and security context, and the `health()` call itself are I/O and are not modelled. Only the in-memory adapter's statement semantics are.
- Concurrency. Each statement is one atomic step and service calls run one after another. Interleavings are not modelled; the guarded updates are what a sequential model keeps.
- SQL text. The statement-string dispatch and the search's query assembly are not modelled. Each statement is a `Store` method and the search is the set `LoanService.Search`, built on `LoanService.SearchWith`. An unrecognised statement, which returns 0 rows or an empty list, cannot be issued in the model.
- Reservations in the in-memory adapter. That adapter has no reservations table, no role-name or `role_id` lookup statements, and no `deleted_at` columns. The model gives those statements their SQL meaning instead of the adapter's fall-through.
- `update members`. The in-memory adapter writes `role_id` from a parameter the service never passes, which nulls it. The model keeps `role_id`, as the SQL statement does.
- Clock. `Instant.now()`, `Instant.parse` and `Timestamp` conversions are not modelled. Each call gets one integer `now` and uses it for every reading: borrow reads the clock twice in the source (overdue check and loan stamp), and return reads it for the return stamp and again in the fulfilment it triggers (the FULFILLED stamp and the new loan's borrow and due dates), all of which share one reading in the model.
- `list()` operations, `mapLoan` and `toInstant` are not modelled; loans are handed out as their stored rows.
- Search result order (`order by borrowed_at desc`) is not modelled: `LoanService.Search` is a set of ids.
- Row order. `HashMap` iteration order in the adapter's scans is modelled as ascending id order (`SqlStore.FirstMatch`). Queue ties in both role rank and `created_at` are broken by the smaller id.
- Case mapping and `isBlank` cover ASCII letters and the Java whitespace characters only; locale rules are not modelled.
- `JavaText.ParseDecimal` accepts ASCII digits only; `Integer.parseInt` and `Long.parseLong` also accept the other Unicode decimal digits, which the model reads as a NumberFormatException.
- Ids are unbounded naturals. The 64-bit limit appears only in the mapping lemmas (`BookService.StoredBookMapsBack`, `MemberService.StoredMemberMapsBack`).
- Strings passed to the services are never null.
- Security, controllers, DTOs and the exception handler are not modelled.
- The `@Min(0)` validation of copy counts happens in the web layer. So `BookService.Create` and `BookService.Update` keep `0 <= available <= total` only for inputs with `availableCopies >= 0`.
- Inserts always add one row here. So the "insert failed" checks after inserts, and the "not found after insert" re-reads, are proved never to fire. `ReservationService.Create` and `LoanService.CreateReservation` therefore have no error result.
- `LoanService.ReturnServesQueue`: stated only for a store with copies within total whose available copies plus open loans make up each book's total. Borrow, return and fulfilment keep that (`LoanService.BorrowKeepsLedger`, `LoanService.ReturnKeepsLedger`, `LoanService.FulfilKeepsLedger`), but `BookService.Create` with fewer available than total copies and `BookService.Update` with arbitrary counts can break it, and for such a store the lemma says nothing.
- `LoanServiceTest.Fixture`: the member's `roleId(3)` set by the tests is dropped, as `MemberService.create` drops it.

## Findings

| source | as written | input that shows it | evidently intended | confidence | as-written member | corrected member |
|---|---|---|---|---|---|---|
| src/main/java/com/example/library/service/LoanService.java:330-340 | `getRoleName` builds its query parameters with `Map.of("id", roleId)`, which throws on a null value | a member created by `MemberService.create` (role_id null, MemberService.java:45-48) borrows a book with no copies left: instead of a reservation and a BusinessRule failure, the call throws | a member without a role queues as "MEMBER", as `ReservationService.resolveRoleNameForMember` does | not executed; high | LoanService.RoleNameAsWrittenFailsForCreatedMembers | LoanService.RoleName |
| src/main/java/com/example/library/service/LoanService.java:308-327 | fulfilment ignores the row count of its guarded decrement and inserts the loan anyway | a borrow of the last copy runs between fulfilment's stock read (line 302) and its decrement (line 312): available 0, total 1, one open loan; the fulfilment still inserts a second open loan | insert the loan only when the decrement took a copy, as `borrow` does at lines 74-76 | not executed; low (needs two calls interleaved) | LoanService.GrantAsWrittenOverLends | LoanService.GrantReservedCopy |
