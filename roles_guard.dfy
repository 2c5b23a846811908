/** The roles guard: a route that declares required roles admits a request
    whose user holds one of them and refuses the others with Forbidden; a
    route without required roles is open. Before the check the guard
    installs a fixed administrator as the request's user, so every guarded
    route is decided for that administrator. */
module Guard {
  import opened Outcomes
  import opened UserEntities

  /** The roles each handler of the users controller declares; `findAll`
      and `findOne` declare none. */
  const CreateRoles: Option<seq<Role>> := Some([Admin])
  const FindRoles: Option<seq<Role>> := None
  const UpdateRoles: Option<seq<Role>> := Some([Admin, Moderator])
  const RemoveRoles: Option<seq<Role>> := Some([Admin])

  /** No metadata, or an empty list. */
  predicate IsOpenRoute(required: Option<seq<Role>>) {
    required.None? || |required.value| == 0
  }

  /** `roles.join(', ')` over the role names. */
  function JoinRoleNames(roles: seq<Role>): string {
    if |roles| == 0 then ""
    else if |roles| == 1 then RoleName(roles[0])
    else RoleName(roles[0]) + ", " + JoinRoleNames(roles[1..])
  }

  function MissingRoleMessage(required: seq<Role>): string {
    "Requires one of the following roles: " + JoinRoleNames(required)
  }

  const AuthenticationRequired: string := "Authentication required"

  /** The decision once the request's user is known: open routes pass, a
      request without a user is refused, and otherwise the user's role must
      be one of the required ones. The guard never answers false. */
  function Decide(required: Option<seq<Role>>, user: Option<UserEntity>): (r: Result<bool>)
    ensures r != Ok(false)
    ensures IsOpenRoute(required) ==> r == Ok(true)
    ensures !IsOpenRoute(required) && user.None? ==> r == Err(Forbidden(AuthenticationRequired))
    ensures !IsOpenRoute(required) && user.Some? ==>
              (r.Ok? <==> user.value.role in required.value) &&
              (r.Err? ==> r.error == Forbidden(MissingRoleMessage(required.value)))
  {
    if IsOpenRoute(required) then Ok(true)
    else if user.None? then Err(Forbidden(AuthenticationRequired))
    else if user.value.role in required.value then Ok(true)
    else Err(Forbidden(MissingRoleMessage(required.value)))
  }

  /** The administrator installed on every guarded request, stamped with
      the time of the request. */
  function MockAdmin(now: int): (u: UserEntity)
    ensures u.role == Admin && u.isActive
    ensures u.createdAt == now && u.updatedAt == now
  {
    UserEntity("mock-id", "Mock Admin", "admin@mock.com", Admin, true, now, now)
  }

  /** The request the guard sees; only its user matters here. */
  class Request {
    var user: Option<UserEntity>

    constructor(user: Option<UserEntity>)
      ensures this.user == user
    {
      this.user := user;
    }
  }

  /** `canActivate`: an open route passes and leaves the request alone;
      otherwise the request's user is replaced by the administrator and
      the decision is taken for it, so "Authentication required" is never
      the answer. */
  method CanActivate(required: Option<seq<Role>>, request: Request, now: int) returns (r: Result<bool>)
    modifies request
    ensures IsOpenRoute(required) ==> r == Ok(true) && request.user == old(request.user)
    ensures !IsOpenRoute(required) ==> request.user == Some(MockAdmin(now))
    ensures r == Decide(required, request.user)
    ensures r != Err(Forbidden(AuthenticationRequired))
    ensures r.Ok? <==> IsOpenRoute(required) || Admin in required.value
  {
    if IsOpenRoute(required) {
      return Ok(true);
    }
    request.user := Some(MockAdmin(now));
    var user := request.user;
    if user.None? {
      return Err(Forbidden(AuthenticationRequired));
    }
    if user.value.role !in required.value {
      return Err(Forbidden(MissingRoleMessage(required.value)));
    }
    return Ok(true);
  }

  /** For the administrator, a guarded route passes exactly when it admits
      administrators. */
  lemma AdminDecision(required: Option<seq<Role>>, now: int)
    ensures Decide(required, Some(MockAdmin(now))).Ok? <==> IsOpenRoute(required) || Admin in required.value
  {
  }

  /** Every route of the users controller passes for the administrator. */
  lemma EveryRoutePasses(now: int)
    ensures Decide(CreateRoles, Some(MockAdmin(now))) == Ok(true)
    ensures Decide(FindRoles, Some(MockAdmin(now))) == Ok(true)
    ensures Decide(UpdateRoles, Some(MockAdmin(now))) == Ok(true)
    ensures Decide(RemoveRoles, Some(MockAdmin(now))) == Ok(true)
  {
  }

  /** The refusal message on fixed routes: what a moderator would be told on
      the administrator-only routes, and that it would pass the update
      route. `CanActivate` does not reach this refusal, because it installs
      the administrator first. */
  lemma ModeratorDecisions(u: UserEntity)
    requires u.role == Moderator
    ensures Decide(CreateRoles, Some(u)) == Err(Forbidden("Requires one of the following roles: admin"))
    ensures Decide(RemoveRoles, Some(u)) == Err(Forbidden("Requires one of the following roles: admin"))
    ensures Decide(UpdateRoles, Some(u)) == Ok(true)
  {
  }

  /** The refusal message with two roles: a plain user is refused on the
      update route with both role names listed. `CanActivate` does not reach
      this refusal either. */
  lemma UserRefusedOnUpdate(u: UserEntity)
    requires u.role == User
    ensures Decide(UpdateRoles, Some(u)) == Err(Forbidden("Requires one of the following roles: admin, moderator"))
  {
  }
}
