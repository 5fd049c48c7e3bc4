/**
 * RolesGuard: a handler marked with required roles admits only an
 * authenticated principal whose role is one of them; an unmarked handler
 * admits everyone. The guard refuses by throwing, never by answering false.
 */
module RolesGuard {
  import opened Common
  import opened Entities

  const NotEnoughRights := "Недостаточно прав"

  /** request.user as the access-token strategy leaves it: the token payload. */
  datatype Principal = Principal(id: Id, email: string, name: string, role: Role)

  /**
   * canActivate. `required` is the handler's roles metadata (None when the
   * handler has none); an empty list is still metadata, and admits nobody.
   */
  function CanActivate(required: Option<seq<Role>>, user: Option<Principal>): (r: Result<bool>)
    ensures r.Ok? ==> r.value
    ensures r.Ok? <==> required.None? || (user.Some? && user.value.role in required.value)
    ensures r.Err? ==> r.error == Forbidden(NotEnoughRights)
  {
    if required.None? then Ok(true)
    else if user.None? then Err(Forbidden(NotEnoughRights))
    else if user.value.role !in required.value then Err(Forbidden(NotEnoughRights))
    else Ok(true)
  }

  /** On an admin-only handler, exactly the ADMIN principals pass. */
  lemma AdminOnly(user: Option<Principal>)
    ensures CanActivate(Some([AdminRole]), user).Ok? <==> user.Some? && user.value.role == AdminRole
  {
  }

  /** Requiring more roles never shuts out a principal who passed before. */
  lemma MoreRolesAdmitMore(required: seq<Role>, extra: seq<Role>, user: Option<Principal>)
    requires CanActivate(Some(required), user).Ok?
    ensures CanActivate(Some(required + extra), user).Ok?
  {
  }

  /** An empty role list admits nobody, not even an authenticated principal. */
  lemma EmptyRolesAdmitNobody(user: Option<Principal>)
    ensures CanActivate(Some([]), user) == Err(Forbidden(NotEnoughRights))
  {
  }
}
