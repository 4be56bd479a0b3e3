/** src/context/AuthContext.tsx: the provider that holds the signed-in user and token in
    component state, mirrors them into local storage, and restores them when the application
    starts. The server's answer to the profile request made at start-up is a parameter. */
module AuthContext {
  import opened Wrappers
  import opened ClientAuth

  const OutsideProviderMessage := "useAuth debe ser usado dentro de un AuthProvider"

  /** The value the provider hands to its consumers. */
  datatype AuthValue = AuthValue(
    usuario: Option<ClientUser>,
    token: Option<string>,
    estaAutenticado: bool,
    esAdmin: bool,
    cargando: bool)

  /** The context value for a state: signed in needs a non-empty token and a user; admin needs
      a user with the admin role. */
  function ValueOf(token: Option<string>, usuario: Option<ClientUser>, cargando: bool): (v: AuthValue)
    ensures v.token == token && v.usuario == usuario && v.cargando == cargando
    ensures v.estaAutenticado <==> Truthy(token) && usuario.Some?
    ensures v.esAdmin <==> usuario.Some? && usuario.value.rol == AdminRol
  {
    AuthValue(usuario, token, Truthy(token) && usuario.Some?,
              usuario.Some? && usuario.value.rol == AdminRol, cargando)
  }

  /** Admin without being signed in happens exactly when a user is held with an empty or
      missing token; with a token in state, admin implies signed in. */
  lemma AdminNeedsTokenToBeSignedIn(token: Option<string>, usuario: Option<ClientUser>, cargando: bool)
    ensures var v := ValueOf(token, usuario, cargando);
      (v.esAdmin && !v.estaAutenticado) <==> (!Truthy(token) && usuario.Some? && usuario.value.rol == AdminRol)
  {
  }

  /** `useAuth`: outside a provider there is no value and the hook throws. */
  function UseAuth(ctx: Option<AuthValue>): (r: Result<AuthValue, string>)
    ensures r.Err? <==> ctx.None?
    ensures r.Err? ==> r.error == OutsideProviderMessage
    ensures r.Ok? ==> r.value == ctx.value
  {
    match ctx
    case None => Err(OutsideProviderMessage)
    case Some(v) => Ok(v)
  }

  /** The provider's state: `token`, `usuario` and `cargando`, over the browser storage. */
  class AuthProvider {
    const storage: BrowserStorage
    var token: Option<string>
    var usuario: Option<ClientUser>
    var cargando: bool

    /** State and storage agree. */
    ghost predicate Synced()
      reads this, storage
    {
      token == storage.ObtenerToken() && usuario == storage.ObtenerUsuario()
    }

    function Value(): AuthValue
      reads this
    {
      ValueOf(token, usuario, cargando)
    }

    /** A fresh provider: no user, no token, loading. */
    constructor (storage: BrowserStorage)
      ensures this.storage == storage && token.None? && usuario.None? && cargando
      ensures !Value().estaAutenticado && !Value().esAdmin
    {
      this.storage := storage;
      token := None;
      usuario := None;
      cargando := true;
    }

    /** `login`: both entries written to storage, then both pieces of state set. */
    method Login(nuevoToken: string, nuevoUsuario: ClientUser)
      modifies this, storage
      ensures storage.items == old(storage.items)[TokenKey := nuevoToken][UserKey := EncodeUser(nuevoUsuario)]
      ensures token == Some(nuevoToken) && usuario == Some(nuevoUsuario) && cargando == old(cargando)
      ensures Synced()
      ensures Value().estaAutenticado <==> nuevoToken != ""
      ensures Value().esAdmin <==> nuevoUsuario.rol == AdminRol
    {
      storage.GuardarToken(nuevoToken);
      storage.GuardarUsuario(nuevoUsuario);
      token := Some(nuevoToken);
      usuario := Some(nuevoUsuario);
    }

    /** `logout`: both entries removed and both pieces of state cleared. */
    method Logout()
      modifies this, storage
      ensures storage.items == old(storage.items) - {TokenKey, UserKey}
      ensures token.None? && usuario.None? && cargando == old(cargando)
      ensures Synced()
      ensures !Value().estaAutenticado && !Value().esAdmin
    {
      storage.EliminarToken();
      storage.EliminarUsuario();
      assert storage.items == old(storage.items) - {TokenKey, UserKey};
      token := None;
      usuario := None;
    }

    /** `actualizarUsuario`: the user is replaced in storage and state; the token is left as
        it is in both. */
    method ActualizarUsuario(nuevoUsuario: ClientUser)
      modifies this, storage
      ensures storage.items == old(storage.items)[UserKey := EncodeUser(nuevoUsuario)]
      ensures usuario == Some(nuevoUsuario) && token == old(token) && cargando == old(cargando)
      ensures storage.ObtenerToken() == old(storage.ObtenerToken())
      ensures old(Synced()) ==> Synced()
    {
      storage.GuardarUsuario(nuevoUsuario);
      usuario := Some(nuevoUsuario);
    }

    /** `verificarAutenticacion`, run once when the application starts, at `nowMs` on the
        clock. A stored non-empty token, a stored user and an unexpired token are adopted, and
        dropped again (logout) when the server refuses the profile request; otherwise any
        stored entry is cleared with logout. Loading ends either way. */
    method VerificarAutenticacion(nowMs: int, perfilAceptado: bool)
      modifies this, storage
      ensures !cargando
      ensures var t0 := old(storage.ObtenerToken());
        var u0 := old(storage.ObtenerUsuario());
        var adopt := Truthy(t0) && u0.Some? && TokenValido(t0, nowMs);
        && (adopt && perfilAceptado ==>
              token == t0 && usuario == u0 && storage.items == old(storage.items))
        && (adopt && !perfilAceptado ==>
              token.None? && usuario.None? && storage.items == old(storage.items) - {TokenKey, UserKey})
        && (!adopt && (Truthy(t0) || u0.Some?) ==>
              token.None? && usuario.None? && storage.items == old(storage.items) - {TokenKey, UserKey})
        && (!adopt && !(Truthy(t0) || u0.Some?) ==>
              token == old(token) && usuario == old(usuario) && storage.items == old(storage.items))
      ensures old(token).None? && old(usuario).None? && Value().estaAutenticado ==>
        Synced() && storage.TokenEsValido(nowMs) && storage.items == old(storage.items)
    {
      var tokenStorage := storage.ObtenerToken();
      var usuarioStorage := storage.ObtenerUsuario();
      if Truthy(tokenStorage) && usuarioStorage.Some? && storage.TokenEsValido(nowMs) {
        token := tokenStorage;
        usuario := usuarioStorage;
        if !perfilAceptado {
          Logout();
        }
      } else {
        if Truthy(tokenStorage) || usuarioStorage.Some? {
          Logout();
        }
      }
      cargando := false;
    }
  }
}
