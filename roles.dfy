/** The role guard placed in front of instructor-only routes (`permit(role)`). */
module Roles {
  import opened Common
  import opened Models

  /** The user the authentication middleware attaches to a request, taken
      from the verified token payload. */
  datatype AuthUser = AuthUser(id: Id, role: string)

  datatype Guard = Continue | Deny(status: nat, message: string)

  /** `permit(role)` applied to a request whose `req.user` is `user`. */
  function Permit(role: string, user: Option<AuthUser>): (g: Guard)
    ensures g == Continue <==> user.Some? && user.value.role == role
    ensures g.Deny? ==> g == Deny(403, "Forbidden: insufficient permissions")
  {
    if user.None? || user.value.role != role then Deny(403, "Forbidden: insufficient permissions")
    else Continue
  }

  /** A request passes at most one of two guards for different roles, so the
      Instructor guard never admits a Student and vice versa. */
  lemma GuardsAreExclusive(r1: Role, r2: Role, user: Option<AuthUser>)
    requires r1 != r2
    ensures Permit(RoleName(r1), user).Deny? || Permit(RoleName(r2), user).Deny?
  {
  }
}
