/** src/components/ProtectedRoute.tsx: what a guarded route shows, decided from the
    authentication context in a fixed order: loading first, then signed in, then the admin role
    when the route asks for it. */
module ProtectedRoute {
  import opened Wrappers
  import opened ClientAuth
  import opened AuthContext

  const LoginPath := "/login"
  const HomePath := "/"

  /** The spinner, a redirect that replaces the current entry (to the login page, carrying
      the location the user came from, or to the home page), or the children. */
  datatype Outcome =
    | Spinner
    | Redirect(to: string, from: Option<string>)
    | RenderChildren

  /** `requerirAdmin` defaults to false. */
  function Decide(auth: AuthValue, requerirAdmin: Option<bool>, location: string): (r: Outcome)
    ensures auth.cargando ==> r == Spinner
    ensures !auth.cargando && !auth.estaAutenticado ==> r == Redirect(LoginPath, Some(location))
    ensures r == Redirect(HomePath, None) <==>
      !auth.cargando && auth.estaAutenticado && requerirAdmin == Some(true) && !auth.esAdmin
    ensures r == RenderChildren <==>
      !auth.cargando && auth.estaAutenticado && (requerirAdmin != Some(true) || auth.esAdmin)
  {
    if auth.cargando then Spinner
    else if !auth.estaAutenticado then Redirect(LoginPath, Some(location))
    else if requerirAdmin.GetOr(false) && !auth.esAdmin then Redirect(HomePath, None)
    else RenderChildren
  }

  /** With a provider's state, the children of an admin route are rendered only to a signed-in
      user whose role is admin, holding a non-empty token. */
  lemma {:induction false} AdminRouteNeedsAdmin(token: Option<string>, usuario: Option<ClientUser>, location: string)
    requires Decide(ValueOf(token, usuario, false), Some(true), location) == RenderChildren
    ensures Truthy(token) && usuario.Some? && usuario.value.rol == AdminRol
  {
    var v := ValueOf(token, usuario, false);
    assert v.estaAutenticado && v.esAdmin;
  }

  /** After logout no guarded route renders its children, whatever the route asks for: the
      user is sent to the login page (or sees the spinner while loading). */
  lemma {:induction false} LoggedOutNeverRenders(cargando: bool, requerirAdmin: Option<bool>, location: string)
    ensures var r := Decide(ValueOf(None, None, cargando), requerirAdmin, location);
      r != RenderChildren && (!cargando ==> r == Redirect(LoginPath, Some(location)))
  {
    var v := ValueOf(None, None, cargando);
    assert !v.estaAutenticado;
  }
}
