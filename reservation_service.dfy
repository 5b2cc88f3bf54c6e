/**
  The reservation service: reading, creating and cancelling reservations, and
  resolving the role name a reservation records for its member.
 */
module ReservationService {
  import opened Wrappers
  import opened SqlStore

  datatype Reservation = Reservation(id: nat, row: ReservationRow)

  /** get: the reservation under that id, or NotFound. */
  function Get(t: Tables, id: nat): (r: Result<Reservation>)
    ensures r.Ok? <==> id in t.reservations
    ensures r.Ok? ==> r.value.id == id
    ensures r.Err? ==> r.failure == NotFound(ReservationNotFound)
  {
    if id in t.reservations then Ok(Reservation(id, t.reservations[id]))
    else Err(NotFound(ReservationNotFound))
  }

  /** The keys the row is looked up by after its insert. */
  predicate HasKeys(r: ReservationRow, bookId: nat, memberId: nat, createdAt: int) {
    r.bookId == bookId && r.memberId == memberId && r.createdAt == createdAt
  }

  predicate KeysTaken(t: Tables, bookId: nat, memberId: nat, createdAt: int) {
    exists k :: k in t.reservations && HasKeys(t.reservations[k], bookId, memberId, createdAt)
  }

  /** The reservation the lookup by keys reaches first. */
  predicate FirstWithKeys(t: Tables, bookId: nat, memberId: nat, createdAt: int, k: nat) {
    k in t.reservations && HasKeys(t.reservations[k], bookId, memberId, createdAt)
    && forall j :: j in t.reservations && j < k ==> !HasKeys(t.reservations[j], bookId, memberId, createdAt)
  }

  /** create: insert a PENDING row stamped `now`, then read back the first
      row with the same book, member and creation instant. That is the new
      row unless an older one shares all three. */
  method Create(store: Store, bookId: nat, memberId: nat, roleName: string, now: int)
    returns (created: Reservation)
    requires store.Valid()
    modifies store
    ensures store.Valid()
    ensures store.State() == InsertedReservation(old(store.State()), bookId, memberId, roleName, now)
    ensures FirstWithKeys(store.State(), bookId, memberId, now, created.id)
    ensures created.row == store.reservations[created.id]
    ensures !KeysTaken(old(store.State()), bookId, memberId, now) ==>
      created == Reservation(old(store.reservationSeq),
                             ReservationRow(bookId, memberId, roleName, Pending, now, None, None))
  {
    var id := store.InsertReservation(bookId, memberId, roleName, now);
    assert id in store.reservations && HasKeys(store.reservations[id], bookId, memberId, now);
    var found := FirstMatch(store.reservations, store.reservationSeq,
                            (r: ReservationRow) => HasKeys(r, bookId, memberId, now));
    assert found.Some?;
    created := Reservation(found.value, store.reservations[found.value]);
    assert !KeysTaken(old(store.State()), bookId, memberId, now) ==> found.value == id;
  }

  /** cancel: only a PENDING reservation moves, to CANCELED; otherwise the
      call fails, whether the id is absent or already processed. */
  method Cancel(store: Store, id: nat, now: int) returns (r: Result<()>)
    requires store.Valid()
    modifies store
    ensures store.Valid()
    ensures store.State() == MarkedCanceled(old(store.State()), id, now)
    ensures r == if IsPending(old(store.State()), id) then Ok(())
                 else Err(BusinessRule(ReservationNotFoundOrProcessed))
  {
    var affected := store.MarkCanceled(id, now);
    if affected <= 0 {
      return Err(BusinessRule(ReservationNotFoundOrProcessed));
    }
    return Ok(());
  }

  /** A second cancel of the same id fails and changes nothing. */
  lemma SecondCancelFails(t: Tables, id: nat, a: int, b: int)
    ensures !IsPending(MarkedCanceled(t, id, a), id)
    ensures MarkedCanceled(MarkedCanceled(t, id, a), id, b) == MarkedCanceled(t, id, a)
  {
  }

  /** resolveRoleNameForMember: the name of the live member's role, and
      "MEMBER" whenever anything along the way is missing. */
  function ResolveRoleNameForMember(t: Tables, memberId: nat): (name: string)
    ensures name != "MEMBER" ==>
      && LiveMember(t, memberId)
      && t.members[memberId].roleId.Some?
      && t.members[memberId].roleId.value in t.roles
      && t.roles[t.members[memberId].roleId.value].name == Some(name)
    ensures !LiveMember(t, memberId) || t.members[memberId].roleId.None? ==> name == "MEMBER"
    ensures LiveMember(t, memberId) && t.members[memberId].roleId.Some? ==>
      var roleId := t.members[memberId].roleId.value;
      && (roleId !in t.roles || t.roles[roleId].name.None? ==> name == "MEMBER")
      && (roleId in t.roles && t.roles[roleId].name.Some? ==> name == t.roles[roleId].name.value)
  {
    if !LiveMember(t, memberId) then "MEMBER"
    else match t.members[memberId].roleId
      case None => "MEMBER"
      case Some(roleId) =>
        if roleId !in t.roles then "MEMBER"
        else match t.roles[roleId].name
          case None => "MEMBER"
          case Some(n) => n
  }

  /** With the seeded roles, a live member's role id resolves to its name. */
  lemma SeededRolesResolve(t: Tables, memberId: nat)
    requires t.roles == Seeded().roles && LiveMember(t, memberId)
    ensures t.members[memberId].roleId == Some(1) ==> ResolveRoleNameForMember(t, memberId) == "ADMIN"
    ensures t.members[memberId].roleId == Some(2) ==> ResolveRoleNameForMember(t, memberId) == "LIBRARIAN"
    ensures t.members[memberId].roleId.Some? && t.members[memberId].roleId.value !in {1, 2} ==>
      ResolveRoleNameForMember(t, memberId) == "MEMBER"
  {
  }
}
