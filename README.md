# Users CRUD core over a document store, in Dafny

This project models the core of a NestJS service that manages user records
kept in a Firestore collection named `users`:

- the **users repository** (`UsersRepository`). It owns the collection and
  the mapping from stored documents to user entities. Its operations are
  create, keyset-paginated listing, find by id, find by email, merge
  update and remove.
- the **failure boundary** (`BaseRepository.run`). Every repository call
  runs inside it. It passes values, NotFound and BadRequest through, and it
  logs every other error and turns it into InternalServerError.
- the **users service** (`UsersService`). It enforces the rules that span
  several documents: an email is used by at most one user, and a user must
  exist before it is updated.
- the **id pipe** (`ParseFirestoreIdPipe`). It accepts route ids of 1 to
  128 UTF-16 code units that contain no whitespace and no `/`.
- the **roles guard** (`RolesGuard.canActivate`). It admits a request when
  the route declares no roles, or when the user holds one of the declared
  roles. Before checking, it installs a fixed administrator as the
  request's user.

The store is a sequence of documents, newest first by `createdAt`. The
store's server timestamps come from an integer clock that the repository
advances on every create and every update, so creation times are distinct.
A removal does not read the clock. The store's
random document id is a parameter of `Create`.

Listing is specified positionally. `Pagination.ExpectedPage` takes the full
role-filtered listing and returns the window of `limit` entries that
starts right after the cursor document. `FindAll` does what the source
does: it fetches `limit + 1` documents after the cursor, then truncates.
`FindAll` is proved to return exactly `ExpectedPage`. The properties of
`ExpectedPage` are proved as lemmas:

- the page's order, role filter and cursor bound;
- the next cursor resumes exactly where the page ends;
- two consecutive pages form one contiguous window of the listing;
- following cursors to the end lists every remaining entry exactly once.

Two details of the code that the model keeps:

- The cursor is read directly from the collection rather than through
  `findById`, and a missing cursor raises BadRequest with its own message.
- The service's email check runs for any non-empty email in the update,
  and it passes when the holder is the user being updated.

Module layout, one file per module:

| file | module |
|---|---|
| `outcomes.dfy` | `Outcomes` — option, result, error kinds |
| `js_strings.dfy` | `JsStrings` — the UTF-16 view of strings |
| `user_entity.dfy` | `UserEntities` — the entity, roles and DTOs |
| `base_repository.dfy` | `BaseRepository` |
| `document_store.dfy` | `DocumentStore` — the abstract collection and its queries |
| `entity_mapper.dfy` | `Mapper` |
| `pagination.dfy` | `Pagination` |
| `users_repository.dfy` | `Repository` |
| `users_service.dfy` | `Service` |
| `firestore_id_pipe.dfy` | `FirestoreIdPipe` |
| `roles_guard.dfy` | `Guard` |
| `update_request.dfy` | `UpdateRequest` — the finding below |

## Model

| member | source | states |
|---|---|---|
| BaseRepository.Normalize | src/common/repositories/base.repository.ts:11-20 | a value passes unchanged; NotFound and BadRequest pass unchanged; any other error becomes InternalServerError carrying the context; the error that leaves is always a domain error or that InternalServerError |
| BaseRepository.Logged | src/common/repositories/base.repository.ts:18 | the log gains nothing or exactly the context |
| BaseRepository.LoggedOnlyOnInternal | src/common/repositories/base.repository.ts:14-19 | an entry is logged exactly when the caller receives InternalServerError: never on success, never for a rethrown domain error |
| BaseRepository.NormalizeIdempotent | src/common/repositories/base.repository.ts:11-20 | an outcome that already passed the boundary passes it again unchanged |
| Repository.UsersRepository.Run | src/common/repositories/base.repository.ts:11-20 | returns the normalized outcome, appends `Logged` to the log and leaves the collection and clock alone |
| UserEntities.ValidatorLength | src/users/dto/create-user.dto.ts:15-16 | the length the name bounds are checked against: at most the number of characters, which is at most the UTF-16 length, and equal to the number of characters when no variation selector occurs |
| UserEntities.WideNameAccepted | src/users/dto/create-user.dto.ts:15-16 | a name of 2..100 emoji passes the bounds on create and on update, although its JavaScript length is twice that |
| JsStrings.AstralLength | src/users/dto/create-user.dto.ts:15-16 | a string of characters outside the Basic Multilingual Plane has two code units per character |
| JsStrings.Utf16Units | src/common/pipes/parse-firestore-id.pipe.ts:15 | a string has between one and two code units per character |
| JsStrings.IsWhitespaceUnit | src/common/pipes/parse-firestore-id.pipe.ts:15 | the code units `\s` matches; none of them is `/` or a surrogate half, so a character outside the Basic Multilingual Plane never counts as whitespace |
| DocumentStore.Get | src/users/users.repository.ts:101-102 | the snapshot is missing exactly when no document has the id; a found document is in the collection and has that id |
| DocumentStore.GetMember | src/users/users.repository.ts:101-103 | with unique ids, every stored document is the one found under its id |
| DocumentStore.Delete | src/users/users.repository.ts:136 | deleting an absent id changes nothing; every other document survives; with unique ids, the id is gone afterwards |
| DocumentStore.DeleteAt | src/users/users.repository.ts:136 | deletion removes exactly one position and keeps the others in order |
| DocumentStore.DeletePreserves | src/users/users.repository.ts:136 | deletion keeps ids unique, the newest-first order and unique emails |
| DocumentStore.ReplacePreserves | src/users/users.repository.ts:121-124 | overwriting a document with one of the same id and creation time keeps ids unique, the order and non-empty ids; no document other than the new one appears |
| DocumentStore.ReplaceKeepsEmailsUnique | src/users/users.service.ts:39-47 | that overwrite keeps emails unique when no other document holds the new email |
| DocumentStore.PrependPreserves | src/users/users.repository.ts:49-58 | a newer document with an unused id in front keeps ids unique, the order and non-empty ids |
| DocumentStore.PrependEmail | src/users/users.service.ts:19-24 | a document with an unused email in front keeps emails unique |
| DocumentStore.FirstWithEmail | src/users/users.repository.ts:109-111 | null exactly when no document has the email; otherwise a stored document with that email |
| DocumentStore.Select | src/users/users.repository.ts:69-82 | the query keeps exactly the documents that pass the role filter and lie strictly before the cursor's `createdAt`, and keeps the newest-first order |
| DocumentStore.Take | src/users/users.repository.ts:85 | `limit(n)` keeps the first `min(n, size)` documents |
| DocumentStore.Query | src/users/users.repository.ts:69-85 | at most `n` documents, each stored and passing the filters |
| Mapper.ToEntity | src/users/users.repository.ts:32-41 | id, name, email, role and timestamps are copied; `isActive` is true unless stored as false |
| Mapper.ToEntities | src/users/users.repository.ts:93 | the mapping is element by element and keeps the length |
| Mapper.ToEntitiesAppend | src/users/users.repository.ts:93 | mapping distributes over concatenation |
| Pagination.EffectiveLimit | src/users/users.repository.ts:67 | a limit the caller gives is used as it is; an absent one is 10; the result is within 1..100 |
| Pagination.HasCursor | src/users/users.repository.ts:75 | a cursor is used exactly when it is present and truthy, that is, of non-zero JavaScript length |
| Pagination.Listing | src/users/users.repository.ts:69-73 | the ordered query with the role filter and no cursor; without a role filter it is the whole collection, and it is never longer than it |
| Pagination.ListingOrderedAndFiltered | src/users/users.repository.ts:69-73 | the listing of a newest-first collection is newest first and holds only stored documents with the requested role |
| Pagination.SkipNotOlder | src/users/users.repository.ts:82 | resuming after time `t` skips exactly the leading entries not older than `t` |
| Pagination.StartOf | src/users/users.repository.ts:75-82 | the page starts inside the listing |
| Pagination.ExpectedPage | src/users/users.repository.ts:65-96 | BadRequest with the cursor message exactly when a non-empty cursor names no document; otherwise at most `limit` entries, `meta.limit` is the effective limit, `nextCursor` is present exactly when `hasNextPage`, and then the page is full and the cursor is its last id |
| Pagination.FirstPageOfLargeCollection | src/users/users.repository.ts:85-94 | with no cursor, no filter and more than `limit` documents: a full page, a next page, and the cursor is the id of the `limit`-th document |
| Pagination.SelectAll | src/users/users.repository.ts:69-73 | without a role filter the listing is the whole collection |
| Pagination.PageWindow | src/users/users.repository.ts:85-94 | the page is the listing window from the start position, cut at `limit`; a next page exists exactly when entries remain after it |
| Pagination.PageOrderedFilteredAfterCursor | src/users/users.repository.ts:69-90 | page entries are strictly newest first, match the role filter and are all older than the cursor document |
| Pagination.WindowProperties | src/users/users.repository.ts:69-90 | the same three facts for any window of the filtered listing that starts after the cursor |
| Pagination.SelectAllOlder | src/users/users.repository.ts:82 | when every document is older than the cursor, `startAfter` drops nothing |
| Pagination.SelectStartAfter | src/users/users.repository.ts:75-82 | the query resumed after a cursor is the suffix of the listing after every entry not older than the cursor |
| Pagination.SkipNotOlderAt | src/users/users.repository.ts:82 | resuming after the listing's entry `j` starts at `j + 1` |
| Pagination.NextCursorResumes | src/users/users.repository.ts:88-90 | following `nextCursor` is accepted and the next page starts `limit` entries later |
| Pagination.ConsecutivePagesJoin | src/users/users.repository.ts:88-90 | a page and the next one together are one contiguous window: nothing skipped, nothing repeated |
| Pagination.CursorResumesAfter | src/users/users.repository.ts:75-82 | a listed document used as cursor is found, and the page resumes right after it |
| Pagination.CrawlListsTheRest | src/users/users.repository.ts:65-96 | following cursors to the end yields the rest of the listing, in order, each entry once |
| Pagination.CrawlFrom | src/users/users.repository.ts:65-96 | the induction over pages behind the previous row |
| Pagination.CursorBound | src/users/users.repository.ts:75-82 | the query is bounded exactly when a non-empty cursor is given and found |
| Pagination.FetchIsSuffix | src/users/users.repository.ts:69-85 | the store's filtered query after the cursor is the listing from the page start on |
| Pagination.TruncatedFetchIsPage | src/users/users.repository.ts:85-94 | fetching `limit + 1` and truncating gives exactly the positional page: `hasNextPage` is "more than `limit` came back", and the cursor is the last kept id |
| Repository.CreatedEntityDefaults | src/users/users.repository.ts:51-58 | the created entity carries the given name and email, the given role or `user`, is active, and has `createdAt == updatedAt` |
| Repository.Merge | src/users/users.repository.ts:121-124 | the merge update replaces exactly the supplied fields, keeps id and `createdAt`, and stamps `updatedAt` |
| Repository.EmptyMergeTouchesOnlyUpdatedAt | src/users/users.repository.ts:121-124 | an update with no fields only moves `updatedAt` |
| Repository.UsersRepository.constructor | src/users/users.repository.ts:22-24 | starts from a valid collection with an empty log |
| Repository.UsersRepository.Create | src/users/users.repository.ts:46-63 | advances the clock, puts the new document in front (replacing one of the same id), returns its entity, logs nothing and keeps the invariant |
| Repository.UsersRepository.FindAll | src/users/users.repository.ts:65-66 | returns exactly `ExpectedPage` of the collection through the failure boundary and changes nothing |
| Repository.UsersRepository.FetchPage | src/users/users.repository.ts:67-96 | the callback run inside the boundary: reading the cursor document, querying `limit + 1` entries after it and truncating yields exactly `ExpectedPage`, including the bad request for a missing cursor |
| Repository.UsersRepository.FindById | src/users/users.repository.ts:99-105 | NotFound with the id message exactly when no document has the id; otherwise that document's entity; changes nothing |
| Repository.UsersRepository.FindByEmail | src/users/users.repository.ts:107-113 | null exactly when no document has the email; otherwise the entity of the first holder; changes nothing |
| Repository.UsersRepository.Update | src/users/users.repository.ts:115-129 | an unknown id is NotFound and changes nothing; otherwise the clock advances, the document at that id is replaced by the merge, and the merged entity is returned |
| Repository.UsersRepository.Remove | src/users/users.repository.ts:131-138 | an unknown id is NotFound and changes nothing; otherwise exactly that document is deleted |
| Repository.CreatedIsRetrievable | src/users/users.repository.ts:46-61 | the created document is found under its id; when the id was unused, the collection gained exactly it |
| Repository.UpdateTouchesOnlyTarget | src/users/users.repository.ts:115-129 | after an update, every other document is unchanged and the merged one is found under the same id |
| Repository.RemovedIsGone | src/users/users.repository.ts:131-138 | after a removal the id is gone, every other document remains, and the size drops by one exactly when the id existed |
| Service.EmailTakenByOtherIff | src/users/users.service.ts:40-44 | with unique emails, the service's check "first holder of the email is another user" means "some other user holds it" |
| Service.EmailTakenByOther | src/users/users.service.ts:40-42 | the conflict the update checks: when it holds, the first holder of the new email is a stored document with that email and another id |
| Service.OwnEmailIsNoConflict | src/users/users.service.ts:42 | an update that keeps the user's own email is never a conflict |
| Service.CreateKeepsEmailsUnique | src/users/users.service.ts:19-24 | creating with an unused email keeps emails unique |
| Service.UpdateKeepsEmailsUnique | src/users/users.service.ts:39-47 | an update that passed the check keeps emails unique |
| Service.UsersService.constructor | src/users/users.service.ts:16 | wraps a repository whose collection is valid and has unique emails |
| Service.UsersService.Create | src/users/users.service.ts:18-25 | Conflict with the email message and nothing written when the email is in use; otherwise the repository's create, and the result is found under its id; emails stay unique |
| Service.UsersService.FindAll | src/users/users.service.ts:27-29 | the repository's page, nothing changed |
| Service.UsersService.FindOne | src/users/users.service.ts:31-33 | the repository's `findById`, NotFound included |
| Service.UsersService.Update | src/users/users.service.ts:35-48 | NotFound first, with nothing written; then Conflict when another user holds the new email, with nothing written; otherwise the repository's merge update; emails stay unique |
| Service.UsersService.Remove | src/users/users.service.ts:50-52 | the repository's `remove`, NotFound included; emails stay unique |
| Service.RemoveThenFindOne | src/users/users.service.ts:31-52 | once `remove(id)` succeeded, `findOne(id)` is NotFound |
| FirestoreIdPipe.Transform | src/common/pipes/parse-firestore-id.pipe.ts:17-24 | accepts exactly the non-empty values of at most 128 code units with no whitespace and no `/`, returns them unchanged, and rejects the others with BadRequest naming the value |
| FirestoreIdPipe.MatchesIdRegex | src/common/pipes/parse-firestore-id.pipe.ts:15-18 | `ID_REGEX.test`: a match is non-empty, at most 128 code units long and holds no `/` |
| FirestoreIdPipe.UnitsAllowedIff | src/common/pipes/parse-firestore-id.pipe.ts:15 | the code-unit reading of `[^\s/]` agrees with the character reading |
| FirestoreIdPipe.EmptyRejected | src/common/pipes/parse-firestore-id.pipe.ts:18 | the empty string is rejected |
| FirestoreIdPipe.TransformIdempotent | src/common/pipes/parse-firestore-id.pipe.ts:17-24 | an accepted value passes again, unchanged |
| FirestoreIdPipe.AutoIdsAccepted | src/common/pipes/parse-firestore-id.pipe.ts:15 | every id the store generates is accepted |
| FirestoreIdPipe.SlashOrLongRejected | src/common/pipes/parse-firestore-id.pipe.ts:15-21 | a value with a `/` or longer than 128 code units is rejected |
| Guard.Decide | src/common/guards/roles.guard.ts:33-67 | never false; open routes pass; no user is Forbidden "Authentication required"; otherwise it passes exactly when the user's role is required, and refuses with the list of required roles |
| Guard.MockAdmin | src/common/guards/roles.guard.ts:43-51 | the installed user is an active administrator whose timestamps are the time of the request |
| Guard.CanActivate | src/common/guards/roles.guard.ts:27-68 | open routes pass and leave the request alone; guarded routes install the administrator and decide for it, so "Authentication required" never occurs and a route passes exactly when it admits administrators |
| Guard.AdminDecision | src/common/guards/roles.guard.ts:42-67 | for the administrator, a route passes exactly when it is open or lists `admin` |
| Guard.EveryRoutePasses | src/users/users.controller.ts:38-68 | every handler of the users controller passes for the administrator |
| Guard.ModeratorDecisions | src/common/guards/roles.guard.ts:60-65 | the refusal message format on fixed routes: a moderator is told "admin" on create and remove and passes update. `CanActivate` never reaches this branch, since it installs the administrator |
| Guard.UserRefusedOnUpdate | src/common/guards/roles.guard.ts:60-65 | the refusal message format with two roles: a plain user is told "admin, moderator" on update. `CanActivate` never reaches this branch, since it installs the administrator |
| UpdateRequest.ReceivedUpdateDto | src/users/dto/update-user.dto.ts:9 | the update DTO as received always carries a role, `user` unless the body gave one |
| UpdateRequest.RenameDemotesAdmin | src/users/users.repository.ts:121-124 | as written, renaming an administrator sets their role to `user` |
| UpdateRequest.AbsentFieldsKept | src/users/users.repository.ts:121-124 | a field the body leaves out, the role included, keeps its stored value |

## Left out

- Store failures are not modelled. Network, permission and quota errors,
  and an invalid document path, are left out. Every store call succeeds,
  so the repository's operations never reach the InternalServerError
  branch of `run` and never log. `Normalize`, `Logged` and
  `UsersRepository.Run` are stated for every outcome.
- The logger's second argument (the caught error) and its formatting are
  not modelled. The log keeps the context strings only.
- A cursor containing `/` is not modelled: the model treats every cursor
  as a plain id of the collection. How the store reads such a string as a
  document path, and which of those paths it refuses, is the store
  client's behaviour, which is not part of this model.
- Server timestamps and `Timestamp.toDate` are not modelled. They are an
  integer clock that every create and every update advances by one. A document always
  carries both timestamps, so the `?.toDate()` undefined case does not
  arise.
- Repository.UsersRepository.Create: does not promise that the new id was
  unused. The store draws it at random. The contract follows `set` and
  overwrites on a collision. `Repository.CreatedIsRetrievable` states the
  unused-id case.
- DocumentStore.FirstWithEmail: returns the newest holder of the email.
  `where('email', '==', e).limit(1)` returns the holder first in document
  id order. The two agree while emails are unique, which the service
  keeps.
- Request validation is not modelled. This covers `class-validator`,
  `class-transformer`, the whitelist and implicit conversion. The DTOs are
  values that already passed it, and their constraints are preconditions.
  The email syntax check (`IsEmail`) is reduced to "non-empty". The name's
  2..100 bound is measured as the length validators measure it
  (`UserEntities.ValidatorLength`): characters, with a surrogate pair
  counting once and the variation selectors U+FE0E and U+FE0F not at all,
  so a name of 60 emoji is accepted. Validation
  lets one kind of value through that the DTOs cannot hold; see the next
  line.
- Repository.Merge: does not model an explicit `null` field in a PATCH
  body. `@IsOptional()` skips validation for `null` as well as for a
  missing field (update-user.dto.ts:11, and every field `PartialType`
  makes optional), so such a body reaches the merge update and stores
  `null`. `UserEntities.UpdateUserDto` has only "absent" and "given" per
  field, so the model does not capture these cases:
  - `{"isActive": null}` stores null. `toEntity` reads it as active
    (`?? true`), which reactivates a deactivated user.
  - `{"email": null}` is falsy, so it skips the service's email check
    (users.service.ts:40) and stores a null email.
  - `{"name": null}` and `{"role": null}` likewise store null.
- Stored documents whose `role` is not one of the three enum values are
  not modelled.
- The check-then-write race on emails between concurrent requests is not
  modelled, because the model is sequential.
- These parts are not part of this model:
  - the controller's routing, HTTP status codes and throttling;
  - the role decorator's reflection metadata (the declared role lists are
    constants in `Guard`);
  - the exception filter, the response interceptors, the Firebase
    service and module, and bootstrap.
- `UsersService.findAll` is declared to return a list of entities but
  returns the paginated object. `PaginatedResponse` is imported from
  `paginate-users.dto.ts`, which does not declare it. The model uses the
  `{data, meta}` shape that the repository builds.
- Guard.MockAdmin: stamps `createdAt` and `updatedAt` with the one
  parameter `now`. The source calls `new Date()` once for each
  (roles.guard.ts:49-50), so the two may differ by a millisecond.

## Findings

| source | as written | input that shows it | evidently intended | confidence | as-written member | corrected member |
|---|---|---|---|---|---|---|
| src/users/dto/update-user.dto.ts:9 | `PartialType(CreateUserDto)` copies the create DTO's initializer `role = user` (create-user.dto.ts:25) into every update DTO built by the transforming validation pipe (main.ts:16-21). The merge update spreads that role into the document | PATCH of an administrator with body `{"name": "New Name"}`: the stored role becomes `user` | fields absent from the body keep their stored values | medium, not executed; it rests on the mapped-types library's initializer inheritance | UpdateRequest.RenameDemotesAdmin | UpdateRequest.AbsentFieldsKept |
