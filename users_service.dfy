/** The users service: the business rules that span several documents.
    Email addresses are unique across the collection, and a document must
    exist before it is updated or removed. Each rule is a sequence of
    repository calls with an early exit before the write. */
module Service {
  import opened Outcomes
  import opened UserEntities
  import opened DocumentStore
  import opened Mapper
  import opened Pagination
  import opened Repository

  function EmailInUseMessage(email: string): string {
    "Email \"" + email + "\" is already in use"
  }

  /** The conflict `update` detects: a non-empty new email whose first
      holder is a document other than the one being updated. */
  predicate EmailTakenByOther(docs: seq<Doc>, id: string, dto: UpdateUserDto)
    ensures EmailTakenByOther(docs, id, dto) ==>
              && dto.email.Some?
              && var holder := FirstWithEmail(docs, dto.email.value);
              && holder.Some? && holder.value in docs
              && holder.value.email == dto.email.value && holder.value.id != id
  {
    && dto.email.Some? && dto.email.value != ""
    && FirstWithEmail(docs, dto.email.value).Some?
    && FirstWithEmail(docs, dto.email.value).value.id != id
  }

  /** While emails are unique, looking at the first holder of the email is
      the same as asking whether any other document holds it. */
  lemma EmailTakenByOtherIff(docs: seq<Doc>, id: string, dto: UpdateUserDto)
    requires UniqueEmails(docs)
    ensures EmailTakenByOther(docs, id, dto) <==>
              && dto.email.Some? && dto.email.value != ""
              && exists k :: 0 <= k < |docs| && docs[k].email == dto.email.value && docs[k].id != id
  {
    if dto.email.Some? && dto.email.value != "" {
      var e := dto.email.value;
      var first := FirstWithEmail(docs, e);
      if exists k :: 0 <= k < |docs| && docs[k].email == e && docs[k].id != id {
        var k :| 0 <= k < |docs| && docs[k].email == e && docs[k].id != id;
        var j :| 0 <= j < |docs| && docs[j] == first.value;
        assert j == k;
      }
    }
  }

  /** Keeping one's own email is never a conflict. */
  lemma OwnEmailIsNoConflict(docs: seq<Doc>, id: string, dto: UpdateUserDto)
    requires UniqueEmails(docs) && UniqueIds(docs) && Get(docs, id).Some?
    requires dto.email == Some(Get(docs, id).value.email)
    ensures !EmailTakenByOther(docs, id, dto)
  {
    EmailTakenByOtherIff(docs, id, dto);
    var d := Get(docs, id).value;
    var i :| 0 <= i < |docs| && docs[i] == d;
    assert forall k :: 0 <= k < |docs| && docs[k].email == d.email ==> k == i;
  }

  /** A document created with an email nobody holds keeps emails unique. */
  lemma CreateKeepsEmailsUnique(docs: seq<Doc>, dto: CreateUserDto, id: string, now: int)
    requires UniqueEmails(docs) && !HasEmail(docs, dto.email)
    ensures UniqueEmails([NewDoc(dto, id, now)] + Delete(docs, id))
  {
    var rest := Delete(docs, id);
    var d := NewDoc(dto, id, now);
    DeletePreserves(docs, id);
    HasEmailMember(docs, dto.email);
    assert !HasEmail(rest, dto.email) by {
      HasEmailMember(rest, dto.email);
    }
    PrependEmail(rest, d);
  }

  /** An update that passed the conflict check keeps emails unique. */
  lemma UpdateKeepsEmailsUnique(docs: seq<Doc>, id: string, dto: UpdateUserDto, now: int)
    requires UniqueEmails(docs) && UniqueIds(docs) && Get(docs, id).Some?
    requires ValidUpdateUserDto(dto) && !EmailTakenByOther(docs, id, dto)
    ensures IndexOf(docs, id).Some?
    ensures var i := IndexOf(docs, id).value;
            UniqueEmails(docs[i := Merge(docs[i], dto, now)])
  {
    var i := IndexOf(docs, id).value;
    var m := Merge(docs[i], dto, now);
    EmailTakenByOtherIff(docs, id, dto);
    forall k | 0 <= k < |docs| && k != i ensures docs[k].email != m.email {
      assert docs[k].id != id;
    }
    ReplaceKeepsEmailsUnique(docs, i, m);
  }

  class UsersService {
    const repo: UsersRepository

    /** The repository's invariant and unique emails. */
    ghost predicate Valid()
      reads this, repo
    {
      repo.Valid() && UniqueEmails(repo.docs)
    }

    constructor(repo: UsersRepository)
      requires repo.Valid() && UniqueEmails(repo.docs)
      ensures this.repo == repo && Valid()
    {
      this.repo := repo;
    }

    /** `create(dto)`: Conflict when the email is already in use, with the
        collection unchanged; otherwise the repository's `create`. */
    method Create(dto: CreateUserDto, autoId: string) returns (r: Result<UserEntity>)
      requires Valid() && ValidCreateUserDto(dto) && IsAutoId(autoId)
      modifies repo
      ensures Valid()
      ensures repo.log == old(repo.log)
      ensures HasEmail(old(repo.docs), dto.email) ==>
                && r == Err(Conflict(EmailInUseMessage(dto.email)))
                && repo.docs == old(repo.docs) && repo.clock == old(repo.clock)
      ensures !HasEmail(old(repo.docs), dto.email) ==>
                && repo.clock == old(repo.clock) + 1
                && repo.docs == [NewDoc(dto, autoId, repo.clock)] + Delete(old(repo.docs), autoId)
                && r == Ok(ToEntity(NewDoc(dto, autoId, repo.clock)))
      ensures r.Ok? ==> Get(repo.docs, r.value.id).Some? && ToEntity(Get(repo.docs, r.value.id).value) == r.value
    {
      var existing := repo.FindByEmail(dto.email);
      if existing.value.Some? {
        return Err(Conflict(EmailInUseMessage(dto.email)));
      }
      ghost var before := repo.docs;
      r := repo.Create(dto, autoId);
      CreateKeepsEmailsUnique(before, dto, autoId, repo.clock);
      CreatedIsRetrievable(before, dto, autoId, repo.clock);
    }

    /** `findAll(query)`: the repository's page. */
    method FindAll(query: PaginateUsersDto) returns (r: Result<PaginatedResponse>)
      requires Valid() && ValidPaginateUsersDto(query)
      modifies repo
      ensures Valid()
      ensures repo.docs == old(repo.docs) && repo.clock == old(repo.clock) && repo.log == old(repo.log)
      ensures r == ExpectedPage(repo.docs, query)
    {
      r := repo.FindAll(query);
    }

    /** `findOne(id)`: the repository's `findById`, NotFound included. */
    method FindOne(id: string) returns (r: Result<UserEntity>)
      requires Valid()
      modifies repo
      ensures Valid()
      ensures repo.docs == old(repo.docs) && repo.clock == old(repo.clock) && repo.log == old(repo.log)
      ensures r.Err? <==> Get(repo.docs, id).None?
      ensures r.Err? ==> r.error == NotFound(NotFoundMessage(id))
      ensures r.Ok? ==> r.value == ToEntity(Get(repo.docs, id).value)
    {
      r := repo.FindById(id);
    }

    /** `update(id, dto)`: NotFound first; then, when a new email is given
        and another document holds it, Conflict; otherwise the repository's
        merge update. Nothing is written on either error. */
    method Update(id: string, dto: UpdateUserDto) returns (r: Result<UserEntity>)
      requires Valid() && ValidUpdateUserDto(dto)
      modifies repo
      ensures Valid()
      ensures repo.log == old(repo.log)
      ensures Get(old(repo.docs), id).None? ==>
                && r == Err(NotFound(NotFoundMessage(id)))
                && repo.docs == old(repo.docs) && repo.clock == old(repo.clock)
      ensures Get(old(repo.docs), id).Some? && EmailTakenByOther(old(repo.docs), id, dto) ==>
                && r == Err(Conflict(EmailInUseMessage(dto.email.value)))
                && repo.docs == old(repo.docs) && repo.clock == old(repo.clock)
      ensures Get(old(repo.docs), id).Some? && !EmailTakenByOther(old(repo.docs), id, dto) ==>
                && IndexOf(old(repo.docs), id).Some?
                && repo.clock == old(repo.clock) + 1
                && (var i := IndexOf(old(repo.docs), id).value;
                    repo.docs == old(repo.docs)[i := Merge(old(repo.docs)[i], dto, repo.clock)])
                && r == Ok(ToEntity(Merge(Get(old(repo.docs), id).value, dto, repo.clock)))
    {
      var found := repo.FindById(id);
      if found.Err? {
        return Err(found.error);
      }
      if dto.email.Some? && dto.email.value != "" {
        var existing := repo.FindByEmail(dto.email.value);
        if existing.value.Some? && existing.value.value.id != id {
          return Err(Conflict(EmailInUseMessage(dto.email.value)));
        }
      }
      ghost var before := repo.docs;
      UpdateKeepsEmailsUnique(before, id, dto, repo.clock + 1);
      r := repo.Update(id, dto);
    }

    /** `remove(id)`: the repository's `remove`, NotFound included. */
    method Remove(id: string) returns (r: Result<()>)
      requires Valid()
      modifies repo
      ensures Valid()
      ensures repo.clock == old(repo.clock) && repo.log == old(repo.log)
      ensures Get(old(repo.docs), id).None? ==> r == Err(NotFound(NotFoundMessage(id))) && repo.docs == old(repo.docs)
      ensures Get(old(repo.docs), id).Some? ==> r == Ok(()) && repo.docs == Delete(old(repo.docs), id)
    {
      DeletePreserves(repo.docs, id);
      r := repo.Remove(id);
    }
  }

  /** Once `remove(id)` has succeeded, `findOne(id)` is NotFound. */
  method RemoveThenFindOne(service: UsersService, id: string) returns (removed: Result<()>, found: Result<UserEntity>)
    requires service.Valid()
    modifies service.repo
    ensures service.Valid()
    ensures removed.Ok? ==> found == Err(NotFound(NotFoundMessage(id)))
    ensures removed.Err? ==> removed.error == NotFound(NotFoundMessage(id)) && found == Err(NotFound(NotFoundMessage(id)))
  {
    ghost var before := service.repo.docs;
    removed := service.Remove(id);
    RemovedIsGone(before, id);
    found := service.FindOne(id);
  }
}
