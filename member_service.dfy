/**
  The member service: reading, creating, updating and deleting members, with
  the rule that an email address belongs to one member.
 */
module MemberService {
  import opened Wrappers
  import opened Rows
  import opened SqlStore

  /** The member the service hands out: `select id, name, email` carries no role. */
  datatype Member = Member(id: Option<int>, name: Option<string>, email: Option<string>)

  datatype MemberInput = MemberInput(name: string, email: string)

  /** The columns `select id, name, email` returns for a stored member. */
  function MemberColumns(id: nat, m: MemberRow): Row {
    map["id" := Num(id), "name" := Text(m.name), "email" := Text(m.email)]
  }

  function MemberOf(id: nat, m: MemberRow): Member {
    Member(Some(id), Some(m.name), Some(m.email))
  }

  /** mapMember */
  function MapMember(row: Row): (m: Conversion<Member>)
    ensures m.NumberFormatFailure? <==> ToLong(row, "id").NumberFormatFailure?
    ensures m.Converted? ==> m.value.name == ToText(row, "name") && m.value.email == ToText(row, "email")
  {
    match ToLong(row, "id")
    case NumberFormatFailure => NumberFormatFailure
    case Converted(id) => Converted(Member(id, ToText(row, "name"), ToText(row, "email")))
  }

  /** Reading a stored member back through mapMember gives the member it stands for. */
  lemma StoredMemberMapsBack(id: nat, m: MemberRow)
    requires id < LongHalf
    ensures MapMember(MemberColumns(id, m)) == Converted(MemberOf(id, m))
  {
    assert GetValue(MemberColumns(id, m), "id") == Num(id);
  }

  /** get: the member under that id, soft-deleted or not, or NotFound. */
  function Get(t: Tables, id: nat): (r: Result<Member>)
    ensures r.Ok? <==> id in t.members
    ensures r.Ok? ==> r.value.id == Some(id)
    ensures r.Err? ==> r.failure == NotFound(MemberNotFound)
  {
    if id in t.members then Ok(MemberOf(id, t.members[id])) else Err(NotFound(MemberNotFound))
  }

  predicate EmailTaken(t: Tables, email: string) {
    exists id :: id in t.members && t.members[id].email == email
  }

  /** No two members share an email address. */
  predicate EmailsUnique(members: map<nat, MemberRow>) {
    forall i, j :: i in members && j in members && members[i].email == members[j].email ==> i == j
  }

  /** The member with the email that the lookup by email reaches first. */
  predicate FirstWithEmail(t: Tables, email: string, k: nat) {
    k in t.members && t.members[k].email == email
    && forall j :: j in t.members && j < k ==> t.members[j].email != email
  }

  /** existsByEmail */
  method ExistsByEmail(store: Store, email: string) returns (taken: bool)
    requires store.Valid()
    ensures taken == EmailTaken(store.State(), email)
  {
    var found := FirstMatch(store.members, store.memberSeq, (m: MemberRow) => m.email == email);
    taken := found.Some?;
  }

  /** getByEmail */
  method GetByEmail(store: Store, email: string) returns (r: Result<Member>)
    requires store.Valid()
    ensures r.Ok? <==> EmailTaken(store.State(), email)
    ensures r.Ok? ==> exists k :: FirstWithEmail(store.State(), email, k) && r.value == MemberOf(k, store.members[k])
    ensures r.Err? ==> r.failure == NotFound(MemberNotFoundAfterInsert)
  {
    var found := FirstMatch(store.members, store.memberSeq, (m: MemberRow) => m.email == email);
    if found.None? {
      return Err(NotFound(MemberNotFoundAfterInsert));
    }
    var k := found.value;
    assert FirstWithEmail(store.State(), email, k);
    r := Ok(MemberOf(k, store.members[k]));
  }

  /** create: email uniqueness, then the insert (name and email only, so the
      new member has no role); the member returned is the new one. */
  method Create(store: Store, input: MemberInput) returns (r: Result<Member>)
    requires store.Valid()
    modifies store
    ensures store.Valid()
    ensures EmailTaken(old(store.State()), input.email) ==>
      r == Err(BusinessRule(EmailExists)) && store.State() == old(store.State())
    ensures !EmailTaken(old(store.State()), input.email) ==>
      && store.State() == InsertedMember(old(store.State()), input.name, input.email)
      && r == Ok(MemberOf(old(store.memberSeq), store.members[old(store.memberSeq)]))
    ensures EmailsUnique(old(store.members)) ==> EmailsUnique(store.members)
  {
    var taken := ExistsByEmail(store, input.email);
    if taken {
      return Err(BusinessRule(EmailExists));
    }
    var id := store.InsertMember(input.name, input.email);
    r := GetByEmail(store, input.email);
    assert FirstWithEmail(store.State(), input.email, id);
  }

  /** The row write of update, on its own: NotFound when no row has the id. */
  method ApplyUpdate(store: Store, id: nat, input: MemberInput) returns (r: Result<Member>)
    requires store.Valid()
    modifies store
    ensures store.Valid()
    ensures store.State() == UpdatedMember(old(store.State()), id, input.name, input.email)
    ensures id !in old(store.members) ==> r == Err(NotFound(MemberNotFound))
    ensures id in old(store.members) ==> r == Ok(MemberOf(id, store.members[id]))
  {
    var affected := store.UpdateMember(id, input.name, input.email);
    if affected <= 0 {
      return Err(NotFound(MemberNotFound));
    }
    r := Get(store.State(), id);
  }

  /** update: NotFound, then the email rule (keeping one's own email is
      allowed), then the write. */
  method Update(store: Store, id: nat, input: MemberInput) returns (r: Result<Member>)
    requires store.Valid()
    modifies store
    ensures store.Valid()
    ensures id !in old(store.members) ==>
      r == Err(NotFound(MemberNotFound)) && store.State() == old(store.State())
    ensures id in old(store.members) && old(store.members)[id].email != input.email
            && EmailTaken(old(store.State()), input.email) ==>
      r == Err(BusinessRule(EmailExists)) && store.State() == old(store.State())
    ensures id in old(store.members)
            && (old(store.members)[id].email == input.email || !EmailTaken(old(store.State()), input.email)) ==>
      && store.State() == UpdatedMember(old(store.State()), id, input.name, input.email)
      && r == Ok(MemberOf(id, store.members[id]))
    ensures EmailsUnique(old(store.members)) ==> EmailsUnique(store.members)
  {
    var existing := Get(store.State(), id);
    if existing.Err? {
      return Err(existing.failure);
    }
    if existing.value.email != Some(input.email) {
      var taken := ExistsByEmail(store, input.email);
      if taken {
        return Err(BusinessRule(EmailExists));
      }
    }
    r := ApplyUpdate(store, id, input);
  }

  /** delete: NotFound when no row was removed. */
  method Delete(store: Store, id: nat) returns (r: Result<()>)
    requires store.Valid()
    modifies store
    ensures store.Valid()
    ensures store.State() == DeletedMember(old(store.State()), id)
    ensures r == if id in old(store.members) then Ok(()) else Err(NotFound(MemberNotFound))
  {
    var affected := store.DeleteMember(id);
    if affected <= 0 {
      return Err(NotFound(MemberNotFound));
    }
    return Ok(());
  }
}
