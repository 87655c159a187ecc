/** The role gate of src/middlewares/authorizeRole.js. */
module AuthorizeRole {
  import opened Wrappers
  import opened TokenUtil

  datatype RoleDecision = Pass | Deny(status: int, message: string)

  const FORBIDDEN := "Forbidden: insufficient permissions"

  /** `authorizeRole(requiredRole)` applied to a request whose `req.user` is
      `user`: an exact string comparison, so a role passes only its own gate.
      Being a function, the gate cannot change the request. */
  function AuthorizeRole(requiredRole: string, user: Option<Claims>): (d: RoleDecision)
    ensures d == Pass <==> user.Some? && user.value.role == requiredRole
    ensures d != Pass ==> d == Deny(403, FORBIDDEN)
  {
    if user.None? || user.value.role != requiredRole then Deny(403, FORBIDDEN) else Pass
  }

  /** There is no hierarchy: an admin is refused by the moderator gate and a
      moderator by the admin gate. */
  lemma NoRoleHierarchy(c: Claims)
    requires c.role == "admin"
    ensures AuthorizeRole("moderator", Some(c)) == Deny(403, FORBIDDEN)
    ensures AuthorizeRole("admin", Some(c.(role := "moderator"))) == Deny(403, FORBIDDEN)
    ensures AuthorizeRole("admin", Some(c)) == Pass
  {
  }

  /** A guest (no `req.user`) passes no gate. */
  lemma GuestDenied(requiredRole: string)
    ensures AuthorizeRole(requiredRole, None) == Deny(403, FORBIDDEN)
  {
  }
}
