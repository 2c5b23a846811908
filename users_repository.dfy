/** The users repository: the collection of user documents, the store's
    clock that stamps writes, and the error log of the failure boundary.
    Every operation runs inside `Run`, the boundary inherited from the base
    repository. */
module Repository {
  import opened Outcomes
  import opened UserEntities
  import opened DocumentStore
  import opened Mapper
  import opened Pagination
  import opened BaseRepository

  function NotFoundMessage(id: string): string {
    "User with id \"" + id + "\" not found"
  }

  /** An id the store generates for `doc()`: twenty letters and digits. */
  predicate IsAutoId(id: string) {
    |id| == 20 && forall i :: 0 <= i < |id| ==> IsAutoIdChar(id[i])
  }

  predicate IsAutoIdChar(c: char) {
    ('A' <= c <= 'Z') || ('a' <= c <= 'z') || ('0' <= c <= '9')
  }

  /** The document `create` writes, stamped at `now`. */
  function NewDoc(dto: CreateUserDto, id: string, now: int): Doc {
    Doc(id, dto.name, dto.email, dto.role.GetOr(User), Some(true), now, now)
  }

  /** The entity `create` returns: the given name and email, the given role
      or `user`, active, created and updated at the same instant. */
  lemma CreatedEntityDefaults(dto: CreateUserDto, id: string, now: int)
    ensures var u := ToEntity(NewDoc(dto, id, now));
            && u.id == id && u.name == dto.name && u.email == dto.email
            && (dto.role.Some? ==> u.role == dto.role.value)
            && (dto.role.None? ==> u.role == User)
            && u.isActive
            && u.createdAt == u.updatedAt == now
  {
  }

  /** `docRef.update({...dto, updatedAt})`: the fields the DTO carries
      replace the stored ones, the others stay, and `updatedAt` moves to
      `now`. */
  function Merge(d: Doc, dto: UpdateUserDto, now: int): (m: Doc)
    ensures m.id == d.id && m.createdAt == d.createdAt && m.updatedAt == now
    ensures m.name == (if dto.name.Some? then dto.name.value else d.name)
    ensures m.email == (if dto.email.Some? then dto.email.value else d.email)
    ensures m.role == (if dto.role.Some? then dto.role.value else d.role)
    ensures m.isActive == (if dto.isActive.Some? then dto.isActive else d.isActive)
  {
    Doc(d.id,
        dto.name.GetOr(d.name),
        dto.email.GetOr(d.email),
        dto.role.GetOr(d.role),
        if dto.isActive.Some? then dto.isActive else d.isActive,
        d.createdAt,
        now)
  }

  /** An update that supplies no field only moves `updatedAt`. */
  lemma EmptyMergeTouchesOnlyUpdatedAt(d: Doc, now: int)
    ensures Merge(d, UpdateUserDto(None, None, None, None), now) == d.(updatedAt := now)
  {
  }

  class UsersRepository {
    /** The `users` collection, newest first. */
    var docs: seq<Doc>
    /** The last server timestamp the store handed out. */
    var clock: int
    /** The contexts logged by the failure boundary. */
    var log: seq<string>

    /** Ids are unique and non-empty, the collection is newest first, and
        no document was written after the clock. */
    ghost predicate Valid()
      reads this
    {
      && UniqueIds(docs) && NewestFirst(docs) && NonEmptyIds(docs)
      && forall d :: d in docs ==> d.createdAt <= d.updatedAt <= clock
    }

    constructor(initial: seq<Doc>, now: int)
      requires UniqueIds(initial) && NewestFirst(initial) && NonEmptyIds(initial)
      requires forall d :: d in initial ==> d.createdAt <= d.updatedAt <= now
      ensures Valid()
      ensures docs == initial && clock == now && log == []
    {
      docs := initial;
      clock := now;
      log := [];
    }

    /** `run(context, fn)` once `fn` has produced `outcome`. */
    method Run<T>(context: string, outcome: Result<T>) returns (r: Result<T>)
      modifies this
      ensures r == Normalize(context, outcome)
      ensures log == old(log) + Logged(context, outcome)
      ensures docs == old(docs) && clock == old(clock)
    {
      if outcome.Err? && !IsDomainError(outcome.error) {
        log := log + [context];
        r := Err(InternalServerError(context));
      } else {
        r := outcome;
      }
    }

    /** `create(dto)`: `doc()` draws `autoId`, `set` writes the new document
        (replacing one of that id, should the store ever draw an id in use),
        and the document read back is returned. */
    method Create(dto: CreateUserDto, autoId: string) returns (r: Result<UserEntity>)
      requires Valid() && ValidCreateUserDto(dto) && IsAutoId(autoId)
      modifies this
      ensures Valid()
      ensures clock == old(clock) + 1 && log == old(log)
      ensures docs == [NewDoc(dto, autoId, clock)] + Delete(old(docs), autoId)
      ensures r == Ok(ToEntity(NewDoc(dto, autoId, clock)))
    {
      clock := clock + 1;
      var doc := NewDoc(dto, autoId, clock);
      var rest := Delete(docs, autoId);
      DeletePreserves(docs, autoId);
      PrependPreserves(rest, doc);
      docs := [doc] + rest;
      var snap := Get(docs, autoId);
      assert snap == Some(doc);
      r := Run("Failed to create user", Ok(ToEntity(snap.value)));
    }

    /** `findAll(query)`: the limit defaults to 10, the role filter and the
        cursor refine the newest-first query, a cursor that names no
        document is rejected, and `limit + 1` documents are fetched to tell
        whether another page follows. */
    method FindAll(query: PaginateUsersDto) returns (r: Result<PaginatedResponse>)
      requires Valid() && ValidPaginateUsersDto(query)
      modifies this
      ensures Valid()
      ensures docs == old(docs) && clock == old(clock) && log == old(log)
      ensures r == ExpectedPage(docs, query)
    {
      var outcome := FetchPage(query);
      assert Logged("Failed to fetch users", outcome) == [];
      r := Run("Failed to fetch users", outcome);
    }

    /** The body `findAll` runs inside the boundary: read the cursor
        document when a cursor is given, query one entry more than the
        limit after it, and cut the surplus entry off as the sign of a next
        page. */
    method FetchPage(query: PaginateUsersDto) returns (outcome: Result<PaginatedResponse>)
      requires Valid() && ValidPaginateUsersDto(query)
      ensures outcome == ExpectedPage(docs, query)
    {
      var limit := query.limit.GetOr(DefaultLimit);
      var startAfter: Option<int> := None;
      var cursorMissing := false;
      if query.cursor.Some? && query.cursor.value != "" {
        var cursorDoc := Get(docs, query.cursor.value);
        if cursorDoc.None? {
          cursorMissing := true;
        } else {
          startAfter := Some(cursorDoc.value.createdAt);
        }
      }
      if cursorMissing {
        outcome := Err(BadRequest(InvalidCursorMessage(query.cursor.value)));
      } else {
        assert startAfter == CursorBound(docs, query);
        var fetched := Query(docs, query.role, startAfter, limit + 1);
        var hasNextPage := |fetched| > limit;
        var pageDocs := if hasNextPage then fetched[..limit] else fetched;
        var nextCursor := if hasNextPage then Some(pageDocs[|pageDocs| - 1].id) else None;
        TruncatedFetchIsPage(docs, query, fetched, limit, hasNextPage, pageDocs);
        outcome := Ok(PaginatedResponse(ToEntities(pageDocs), PageMeta(limit, hasNextPage, nextCursor)));
      }
    }

    /** `findById(id)`: the document of that id, or NotFound. */
    method FindById(id: string) returns (r: Result<UserEntity>)
      requires Valid()
      modifies this
      ensures Valid()
      ensures docs == old(docs) && clock == old(clock) && log == old(log)
      ensures r.Err? <==> Get(docs, id).None?
      ensures r.Err? ==> r.error == NotFound(NotFoundMessage(id))
      ensures r.Ok? ==> r.value == ToEntity(Get(docs, id).value)
    {
      var snap := Get(docs, id);
      var outcome: Result<UserEntity>;
      if snap.None? {
        outcome := Err(NotFound(NotFoundMessage(id)));
      } else {
        outcome := Ok(ToEntity(snap.value));
      }
      r := Run("Failed to fetch user " + id, outcome);
    }

    /** `findByEmail(email)`: the first document with that email, or null. */
    method FindByEmail(email: string) returns (r: Result<Option<UserEntity>>)
      requires Valid()
      modifies this
      ensures Valid()
      ensures docs == old(docs) && clock == old(clock) && log == old(log)
      ensures r.Ok?
      ensures r.value.None? <==> !HasEmail(docs, email)
      ensures r.value.Some? ==> r.value.value == ToEntity(FirstWithEmail(docs, email).value)
    {
      var snap := FirstWithEmail(docs, email);
      var outcome: Result<Option<UserEntity>>;
      if snap.None? {
        outcome := Ok(None);
      } else {
        outcome := Ok(Some(ToEntity(snap.value)));
      }
      r := Run("Failed to fetch user by email " + email, outcome);
    }

    /** `update(id, dto)`: NotFound for an unknown id; otherwise the
        supplied fields are merged into the document, `updatedAt` is
        stamped, and the document read back is returned. */
    method Update(id: string, dto: UpdateUserDto) returns (r: Result<UserEntity>)
      requires Valid() && ValidUpdateUserDto(dto)
      modifies this
      ensures Valid()
      ensures log == old(log)
      ensures Get(old(docs), id).None? ==>
                r == Err(NotFound(NotFoundMessage(id))) && docs == old(docs) && clock == old(clock)
      ensures Get(old(docs), id).Some? ==>
                && IndexOf(old(docs), id).Some?
                && clock == old(clock) + 1
                && (var i := IndexOf(old(docs), id).value;
                    docs == old(docs)[i := Merge(old(docs)[i], dto, clock)])
                && r == Ok(ToEntity(Merge(Get(old(docs), id).value, dto, clock)))
    {
      var snap := Get(docs, id);
      var outcome: Result<UserEntity>;
      if snap.None? {
        outcome := Err(NotFound(NotFoundMessage(id)));
      } else {
        clock := clock + 1;
        var i := IndexOf(docs, id).value;
        var merged := Merge(docs[i], dto, clock);
        ReplacePreserves(docs, i, merged);
        docs := docs[i := merged];
        assert docs[i] == merged;
        GetMember(docs, merged);
        var updated := Get(docs, id);
        outcome := Ok(ToEntity(updated.value));
      }
      r := Run("Failed to update user " + id, outcome);
    }

    /** `remove(id)`: NotFound for an unknown id; otherwise that document is
        deleted and nothing else changes. */
    method Remove(id: string) returns (r: Result<()>)
      requires Valid()
      modifies this
      ensures Valid()
      ensures clock == old(clock) && log == old(log)
      ensures Get(old(docs), id).None? ==> r == Err(NotFound(NotFoundMessage(id))) && docs == old(docs)
      ensures Get(old(docs), id).Some? ==> r == Ok(()) && docs == Delete(old(docs), id)
    {
      var snap := Get(docs, id);
      var outcome: Result<()>;
      if snap.None? {
        outcome := Err(NotFound(NotFoundMessage(id)));
      } else {
        DeletePreserves(docs, id);
        docs := Delete(docs, id);
        outcome := Ok(());
      }
      r := Run("Failed to delete user " + id, outcome);
    }
  }

  /** After `create`, the new document is the one found under its id, and,
      when the id was not in use, the collection gained exactly it. */
  lemma CreatedIsRetrievable(docs: seq<Doc>, dto: CreateUserDto, id: string, now: int)
    requires UniqueIds(docs)
    ensures Get([NewDoc(dto, id, now)] + Delete(docs, id), id) == Some(NewDoc(dto, id, now))
    ensures Get(docs, id).None? ==> [NewDoc(dto, id, now)] + Delete(docs, id) == [NewDoc(dto, id, now)] + docs
  {
  }

  /** After a successful `update`, every other document is as it was and
      the updated one is found under the same id. */
  lemma UpdateTouchesOnlyTarget(docs: seq<Doc>, id: string, dto: UpdateUserDto, now: int)
    requires UniqueIds(docs) && Get(docs, id).Some?
    ensures IndexOf(docs, id).Some?
    ensures var i := IndexOf(docs, id).value;
            var after := docs[i := Merge(docs[i], dto, now)];
            && |after| == |docs|
            && (forall k :: 0 <= k < |docs| && docs[k].id != id ==> after[k] == docs[k])
            && Get(after, id) == Some(Merge(Get(docs, id).value, dto, now))
  {
    var i := IndexOf(docs, id).value;
    var m := Merge(docs[i], dto, now);
    ReplacePreserves(docs, i, m);
    assert docs[i := m][i] == m;
    GetMember(docs[i := m], m);
  }

  /** After a successful `remove`, the id is gone and every other document
      is still there. */
  lemma RemovedIsGone(docs: seq<Doc>, id: string)
    requires UniqueIds(docs)
    ensures Get(Delete(docs, id), id).None?
    ensures forall d :: d in docs && d.id != id ==> d in Delete(docs, id)
    ensures |Delete(docs, id)| == |docs| - (if Get(docs, id).Some? then 1 else 0)
  {
    match IndexOf(docs, id)
    case None =>
    case Some(i) => DeleteAt(docs, id, i);
  }
}
