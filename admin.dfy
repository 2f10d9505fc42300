/**
 * The admin gate placed in front of the sentence-management routes: it runs after
 * authentication and either answers the request itself or passes it on.
 */
module Admin {
  import opened Common

  const AdminRole: string := "admin"

  /** The authenticated user the request carries (`req.user`), as far as the gate looks. */
  datatype User = User(userId: nat, role: string)

  /** What the gate does with a request: pass it to the route, or answer it. */
  datatype Decision = Next | Reject(status: nat, message: string)

  /** `adminMiddleware`: 401 without a user, 403 for a user whose role is not exactly
      `admin`, otherwise the request goes on. */
  function AdminGate(user: Option<User>): (d: Decision)
    ensures d == Next <==> user.Some? && user.value.role == AdminRole
    ensures d == Reject(401, "Authentication required") <==> user.None?
    ensures d == Reject(403, "Admin access required") <==> user.Some? && user.value.role != AdminRole
  {
    if user.None? then Reject(401, "Authentication required")
    else if user.value.role != AdminRole then Reject(403, "Admin access required")
    else Next
  }
}
