/** How a PATCH body becomes the update DTO. The validation pipe runs with
    `transform` on, so it builds an `UpdateUserDto` with its constructor
    and then copies the body's fields in. `PartialType(CreateUserDto)`
    gives that constructor the create DTO's field initializers, and the
    create DTO initialises `role` to `user`. A body without `role` so
    arrives with `role` set to `user`, and the merge update writes it. */
module UpdateRequest {
  import opened Outcomes
  import opened UserEntities
  import opened DocumentStore
  import opened Repository

  /** The DTO the service receives for `body`, as the code is written. */
  function ReceivedUpdateDto(body: UpdateUserDto): (dto: UpdateUserDto)
    ensures dto.name == body.name && dto.email == body.email && dto.isActive == body.isActive
    ensures dto.role.Some?
    ensures body.role.Some? ==> dto.role == body.role
  {
    body.(role := Some(body.role.GetOr(User)))
  }

  /** As written: renaming an administrator demotes them to `user`. */
  lemma RenameDemotesAdmin(d: Doc, now: int)
    requires d.role == Admin
    ensures var body := UpdateUserDto(Some("New Name"), None, None, None);
            && Merge(d, ReceivedUpdateDto(body), now).role == User
            && Merge(d, body, now).role == Admin
  {
  }

  /** As intended, and as the service and repository are modelled: the
      body's fields are the update, so every field the body leaves out,
      the role included, keeps its stored value. */
  lemma AbsentFieldsKept(d: Doc, body: UpdateUserDto, now: int)
    ensures body.role.None? ==> Merge(d, body, now).role == d.role
    ensures body.name.None? ==> Merge(d, body, now).name == d.name
    ensures body.email.None? ==> Merge(d, body, now).email == d.email
    ensures body.isActive.None? ==> Merge(d, body, now).isActive == d.isActive
  {
  }
}
