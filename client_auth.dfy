/** src/utils/auth.ts: the browser's local storage as the client uses it, under two fixed keys,
    one for the session token and one for the signed-in user, and the checks the front end
    derives from them. The storage is a map from key to text; the user is kept in the escaped
    field encoding that stands for `JSON.stringify`/`JSON.parse`. */
module ClientAuth {
  import opened Wrappers
  import Codec
  import Crypto
  import Accounts

  const TokenKey := "lineas_profundizacion_token"
  const UserKey := "lineas_profundizacion_usuario"
  const AdminRol := "admin"

  /** The `Usuario` the client keeps: what register and login answer with. */
  datatype ClientUser = ClientUser(id: string, nombre: string, email: string, rol: string)

  /** `JSON.stringify(usuario)`. */
  function EncodeUser(u: ClientUser): (s: string)
    ensures s != ""
  {
    var s := Codec.EncodeFields([u.id, u.nombre, u.email, u.rol]);
    assert |s| >= 1;
    s
  }

  /** `JSON.parse(text)` read as a user; None when the text is not one (the parse throws and
      `obtenerUsuario` answers null). */
  function DecodeUser(s: string): Option<ClientUser> {
    var fs := Codec.DecodeFields(s);
    if |fs| == 4 then Some(ClientUser(fs[0], fs[1], fs[2], fs[3])) else None
  }

  lemma DecodeEncodeUser(u: ClientUser)
    ensures DecodeUser(EncodeUser(u)) == Some(u)
  {
    Codec.DecodeEncodeFields([u.id, u.nombre, u.email, u.rol]);
  }

  /** `!!s` for a string that may be null: present and not empty. */
  predicate Truthy(s: Option<string>) {
    s.Some? && s.value != ""
  }

  // ----- the two keys, read off the storage map -----

  function Lookup(items: map<string, string>, key: string): Option<string> {
    if key in items then Some(items[key]) else None
  }

  /** `obtenerToken`. */
  function TokenIn(items: map<string, string>): Option<string> {
    Lookup(items, TokenKey)
  }

  /** `obtenerUsuario`: an absent or empty entry is null, and so is one that does not parse. */
  function UserIn(items: map<string, string>): Option<ClientUser> {
    var s := Lookup(items, UserKey);
    if Truthy(s) then DecodeUser(s.value) else None
  }

  /** `estaAutenticado`: a non-empty token is stored, whatever the user entry holds. */
  predicate AuthenticatedIn(items: map<string, string>) {
    Truthy(TokenIn(items))
  }

  /** `esAdmin`: the stored user parses and has the admin role. */
  predicate AdminIn(items: map<string, string>) {
    UserIn(items).Some? && UserIn(items).value.rol == AdminRol
  }

  lemma KeysDiffer()
    ensures TokenKey != UserKey
  {
    assert |TokenKey| == 27 && |UserKey| == 29;
  }

  /** Saving a token and reading it back gives that token; the user entry is not touched. */
  lemma {:induction false} TokenRoundTrip(items: map<string, string>, t: string)
    ensures TokenIn(items[TokenKey := t]) == Some(t)
    ensures UserIn(items[TokenKey := t]) == UserIn(items)
    ensures TokenIn(items - {TokenKey}) == None
    ensures UserIn(items - {TokenKey}) == UserIn(items)
  {
    KeysDiffer();
    assert Lookup(items[TokenKey := t], UserKey) == Lookup(items, UserKey);
    assert Lookup(items - {TokenKey}, UserKey) == Lookup(items, UserKey);
  }

  /** Saving a user and reading it back gives that user; removing it reads as null; the token
      entry is not touched. */
  lemma {:induction false} UserRoundTrip(items: map<string, string>, u: ClientUser)
    ensures UserIn(items[UserKey := EncodeUser(u)]) == Some(u)
    ensures TokenIn(items[UserKey := EncodeUser(u)]) == TokenIn(items)
    ensures UserIn(items - {UserKey}) == None
    ensures TokenIn(items - {UserKey}) == TokenIn(items)
  {
    KeysDiffer();
    DecodeEncodeUser(u);
    assert Lookup(items[UserKey := EncodeUser(u)], UserKey) == Some(EncodeUser(u));
    assert Lookup(items[UserKey := EncodeUser(u)], TokenKey) == Lookup(items, TokenKey);
    assert Lookup(items - {UserKey}, TokenKey) == Lookup(items, TokenKey);
  }

  /** Whether the client counts as signed in depends on the token entry alone: writing or
      removing the user entry never changes it. */
  lemma AuthenticationIgnoresUser(items: map<string, string>, u: ClientUser)
    ensures AuthenticatedIn(items[UserKey := EncodeUser(u)]) == AuthenticatedIn(items)
    ensures AuthenticatedIn(items - {UserKey}) == AuthenticatedIn(items)
  {
    UserRoundTrip(items, u);
  }

  /** After both entries are removed the client is neither signed in nor an admin. */
  lemma {:induction false} SignedOutIn(items: map<string, string>)
    ensures !AuthenticatedIn(items - {TokenKey, UserKey})
    ensures !AdminIn(items - {TokenKey, UserKey})
  {
    assert TokenKey !in items - {TokenKey, UserKey};
    assert UserKey !in items - {TokenKey, UserKey};
  }

  // ----- expiry -----

  /** `tokenEsValido` on the stored token at `nowMs` milliseconds: false without a token or
      when its payload does not decode; otherwise whether the clock is still before the `exp`
      claim, which counts seconds. */
  function TokenValido(token: Option<string>, nowMs: int): (ok: bool)
    ensures ok <==>
      && Truthy(token) && Crypto.PayloadOf(token.value).Some?
      && Crypto.DecodeClaims(Crypto.PayloadOf(token.value).value).Some?
      && nowMs < Crypto.DecodeClaims(Crypto.PayloadOf(token.value).value).value.exp * 1000
  {
    if !Truthy(token) then false
    else match Crypto.PayloadOf(token.value)
      case None => false
      case Some(p) =>
        match Crypto.DecodeClaims(p)
        case None => false
        case Some(c) => nowMs < c.exp * 1000
  }

  /** A token the server signed is valid on the client exactly while the millisecond clock is
      before its expiry; at the expiry instant itself it is already invalid. */
  lemma {:induction false} SignedTokenValidity(c: Crypto.Claims, key: string, nowMs: int)
    ensures TokenValido(Some(Crypto.Sign(c, key)), nowMs) <==> nowMs < c.exp * 1000
    ensures !TokenValido(Some(Crypto.Sign(c, key)), c.exp * 1000)
  {
    Crypto.PayloadOfSigned(c, key);
    assert |Crypto.Sign(c, key)| > 0 by {
      assert |Crypto.Header| > 0;
    }
  }

  /** The client's expiry check agrees with the server's: for a token `generarToken` issued at
      `issued` seconds, read on a clock that shows `later` whole seconds, the client accepts it
      exactly when `verificarToken` on the server does. */
  lemma {:induction false} ClientExpiryAgreesWithServer(userId: nat, cfg: Accounts.JwtConfig, issued: nat, later: nat)
    ensures var token := Accounts.GenerarToken(userId, cfg, issued);
      TokenValido(Some(token), later * 1000) <==> Accounts.VerificarToken(token, cfg, later).Ok?
  {
    var c := Accounts.TokenClaims(userId, cfg, issued);
    SignedTokenValidity(c, Accounts.Secret(cfg), later * 1000);
    Accounts.IssuedTokenVerifies(userId, cfg, issued, later);
  }

  // ----- the storage object -----

  /** `window.localStorage`; the helpers of utils/auth.ts are its methods. */
  class BrowserStorage {
    var items: map<string, string>

    constructor (items: map<string, string>)
      ensures this.items == items
    {
      this.items := items;
    }

    function ObtenerToken(): Option<string>
      reads this
    {
      TokenIn(items)
    }

    function ObtenerUsuario(): Option<ClientUser>
      reads this
    {
      UserIn(items)
    }

    function EstaAutenticado(): bool
      reads this
    {
      AuthenticatedIn(items)
    }

    function EsAdmin(): bool
      reads this
    {
      AdminIn(items)
    }

    /** `tokenEsValido` against the clock reading `nowMs`. */
    function TokenEsValido(nowMs: int): bool
      reads this
    {
      TokenValido(ObtenerToken(), nowMs)
    }

    /** `guardarToken`: the token entry is written; the user entry stays. */
    method GuardarToken(token: string)
      modifies this
      ensures items == old(items)[TokenKey := token]
      ensures ObtenerToken() == Some(token) && ObtenerUsuario() == old(ObtenerUsuario())
    {
      TokenRoundTrip(items, token);
      items := items[TokenKey := token];
    }

    /** `eliminarToken`. */
    method EliminarToken()
      modifies this
      ensures items == old(items) - {TokenKey}
      ensures ObtenerToken().None? && ObtenerUsuario() == old(ObtenerUsuario())
      ensures !EstaAutenticado()
    {
      TokenRoundTrip(items, "");
      items := items - {TokenKey};
    }

    /** `guardarUsuario`: the encoded user is written; the token entry stays. */
    method GuardarUsuario(u: ClientUser)
      modifies this
      ensures items == old(items)[UserKey := EncodeUser(u)]
      ensures ObtenerUsuario() == Some(u) && ObtenerToken() == old(ObtenerToken())
      ensures EstaAutenticado() == old(EstaAutenticado())
      ensures EsAdmin() <==> u.rol == AdminRol
    {
      UserRoundTrip(items, u);
      items := items[UserKey := EncodeUser(u)];
    }

    /** `eliminarUsuario`. */
    method EliminarUsuario()
      modifies this
      ensures items == old(items) - {UserKey}
      ensures ObtenerUsuario().None? && ObtenerToken() == old(ObtenerToken())
      ensures !EsAdmin()
    {
      UserRoundTrip(items, ClientUser("", "", "", ""));
      items := items - {UserKey};
    }

    /** `cerrarSesion`: both entries go, so the client is neither signed in nor an admin. */
    method CerrarSesion()
      modifies this
      ensures items == old(items) - {TokenKey, UserKey}
      ensures ObtenerToken().None? && ObtenerUsuario().None?
      ensures !EstaAutenticado() && !EsAdmin()
    {
      EliminarToken();
      EliminarUsuario();
      assert items == old(items) - {TokenKey, UserKey};
    }
  }
}
