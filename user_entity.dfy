/** The user entity, its roles, and the request DTOs with the constraints
    that the validation layer checks before the core is called. */
module UserEntities {
  import opened Outcomes
  import opened JsStrings

  datatype Role = Admin | User | Moderator

  /** The enum's string value. */
  function RoleName(r: Role): string {
    match r
    case Admin => "admin"
    case User => "user"
    case Moderator => "moderator"
  }

  /** Timestamps are abstract instants of the store's clock. */
  datatype UserEntity = UserEntity(
    id: string,
    name: string,
    email: string,
    role: Role,
    isActive: bool,
    createdAt: int,
    updatedAt: int)

  datatype CreateUserDto = CreateUserDto(name: string, email: string, role: Option<Role>)

  /** The length that the `MinLength`/`MaxLength` validators measure: the
      UTF-16 length less one per surrogate pair and one per variation
      selector U+FE0E or U+FE0F, that is, the characters other than those
      two selectors. */
  function ValidatorLength(s: string): (n: nat)
    ensures n <= |s| <= JsLength(s)
    ensures (forall i :: 0 <= i < |s| ==> s[i] != '\U{FE0E}' && s[i] != '\U{FE0F}') ==> n == |s|
  {
    if s == [] then 0
    else (if s[0] == '\U{FE0E}' || s[0] == '\U{FE0F}' then 0 else 1) + ValidatorLength(s[1..])
  }

  /** A name of 2 to 100 characters outside the Basic Multilingual Plane
      passes the name bounds although its UTF-16 length exceeds 100 once it
      has more than 50 characters: 60 emoji are a valid name. */
  lemma WideNameAccepted(name: string)
    requires 2 <= |name| <= 100
    requires forall i :: 0 <= i < |name| ==> name[i] as int >= 0x1_0000
    ensures ValidatorLength(name) == |name| && JsLength(name) == 2 * |name|
    ensures ValidUpdateUserDto(UpdateUserDto(Some(name), None, None, None))
    ensures ValidCreateUserDto(CreateUserDto(name, "a@b.c", None))
  {
    AstralLength(name);
  }

  /** 2 to 100 characters of name, as the length validators count them, and a
      non-empty email; the full e-mail syntax check is not modelled. */
  predicate ValidCreateUserDto(dto: CreateUserDto) {
    2 <= ValidatorLength(dto.name) <= 100 && dto.email != ""
  }

  /** Every field optional; the ones present are validated as on create. */
  datatype UpdateUserDto = UpdateUserDto(
    name: Option<string>,
    email: Option<string>,
    role: Option<Role>,
    isActive: Option<bool>)

  predicate ValidUpdateUserDto(dto: UpdateUserDto) {
    && (dto.name.Some? ==> 2 <= ValidatorLength(dto.name.value) <= 100)
    && (dto.email.Some? ==> dto.email.value != "")
  }

  datatype PaginateUsersDto = PaginateUsersDto(
    limit: Option<int>,
    cursor: Option<string>,
    role: Option<Role>)

  const DefaultLimit: int := 10
  const MaxLimit: int := 100

  predicate ValidPaginateUsersDto(q: PaginateUsersDto) {
    q.limit.Some? ==> 1 <= q.limit.value <= MaxLimit
  }

  datatype PageMeta = PageMeta(limit: int, hasNextPage: bool, nextCursor: Option<string>)

  datatype PaginatedResponse = PaginatedResponse(data: seq<UserEntity>, meta: PageMeta)
}
