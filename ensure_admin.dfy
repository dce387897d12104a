/** `ensureAdmin`: lets a request through only when its role is exactly "ADMIN". */
module EnsureAdmin {
  import opened Wrappers
  import opened Errors
  import opened Entities
  import opened AuthMiddleware
  import opened Messages

  /** Reads the request and never writes it. */
  function EnsureAdmin(req: AuthRequest): (r: Result<()>)
    reads req
    ensures r.Ok? <==> req.role == Some(RoleAdmin)
    ensures r.Err? ==> r == Err(App(ForbiddenError(AdminOnly)))
  {
    if req.role != Some("ADMIN") then Err(App(ForbiddenError(AdminOnly))) else Ok(())
  }
}
