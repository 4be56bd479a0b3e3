/** src/controllers/authController.ts over the account store: registration, login and password
    change with their ordered checks, and the tokens they issue and verify. The store is a map
    from id to account; ids are handed out in order. */
module Accounts {
  import opened Wrappers
  import Text
  import Codec
  import Crypto
  import opened ErrorHandler
  import opened UserModel

  const RegisterRequiredMessage := "Nombre, email y contraseña son requeridos"
  const ShortPasswordMessage := "La contraseña debe tener al menos 6 caracteres"
  const BadEmailFormatMessage := "El formato del email no es válido"
  const UserExistsMessage := "El usuario ya existe"
  const LoginRequiredMessage := "Email y contraseña son requeridos"
  const BadCredentialsMessage := "Credenciales inválidas"
  const InactiveMessage := "Cuenta inactiva. Contacte al administrador."
  const ChangeRequiredMessage := "La contraseña actual y la nueva contraseña son requeridas"
  const ShortNewPasswordMessage := "La nueva contraseña debe tener al menos 6 caracteres"
  const UserNotFoundMessage := "Usuario no encontrado"
  const WrongCurrentMessage := "La contraseña actual es incorrecta"
  const TokenInvalidMessage := "Token inválido o expirado"
  /** What the store's unique index on `email` raises, shortened from the driver's full text;
      it carries no status, so it answers 500. */
  const DuplicateKeyMessage := "E11000 duplicate key error collection: usuarios index: email_1"

  // ----- tokens -----

  const Issuer := "lineas-profundizacion-api"
  const DefaultSecret := "secret_key"
  /** The default `expiresIn` of '24h', in seconds. */
  const DefaultExpiry: nat := 86400

  /** The two environment settings: `JWT_SECRET` ("" when unset) and `JWT_EXPIRES_IN`
      written as a plain numeral (None when unset or empty). Environment values are strings,
      and jsonwebtoken reads a numeral string without a unit as milliseconds. */
  datatype JwtConfig = JwtConfig(secretEnv: string, expiresIn: Option<nat>)

  function Secret(cfg: JwtConfig): (k: string)
    ensures k != ""
    ensures cfg.secretEnv != "" ==> k == cfg.secretEnv
    ensures cfg.secretEnv == "" ==> k == DefaultSecret
  {
    if cfg.secretEnv != "" then cfg.secretEnv else DefaultSecret
  }

  /** The token lifetime in whole seconds: '24h' by default; a setting of n milliseconds
      gives the seconds it spans, rounded down. */
  function Ttl(cfg: JwtConfig): (t: nat)
    ensures cfg.expiresIn.None? ==> t == DefaultExpiry
    ensures cfg.expiresIn.Some? ==> t * 1000 <= cfg.expiresIn.value < t * 1000 + 1000
  {
    match cfg.expiresIn
    case None => DefaultExpiry
    case Some(ms) => ms / 1000
  }

  /** The claims `generarToken(userId)` signs at time now: the user id as payload and as
      subject, the issuer, and an expiry `Ttl` seconds on. */
  function TokenClaims(userId: nat, cfg: JwtConfig, now: nat): Crypto.Claims {
    var id := Codec.NatToString(userId);
    Crypto.Claims(id, now, now + Ttl(cfg), Issuer, id)
  }

  function GenerarToken(userId: nat, cfg: JwtConfig, now: nat): string {
    Crypto.Sign(TokenClaims(userId, cfg, now), Secret(cfg))
  }

  /** `verificarToken`: the claims, or one 401 for every way verification fails. */
  function VerificarToken(token: string, cfg: JwtConfig, now: nat): (r: Result<Crypto.Claims, Failure>)
    ensures r.Err? ==> r.error == Fail(TokenInvalidMessage, 401)
    ensures r.Ok? ==> now < r.value.exp
  {
    match Crypto.Verify(token, Secret(cfg), now)
    case Some(c) => Ok(c)
    case None => Err(Fail(TokenInvalidMessage, 401))
  }

  /** A token issued at `now` verifies under the same settings exactly until its expiry, and
      carries the user id as subject and the issuer; after that it gives the 401. */
  lemma {:induction false} IssuedTokenVerifies(userId: nat, cfg: JwtConfig, now: nat, later: nat)
    ensures var c := TokenClaims(userId, cfg, now);
      && c.sub == Codec.NatToString(userId) && c.userId == c.sub && c.iss == Issuer && c.exp == now + Ttl(cfg)
      && VerificarToken(GenerarToken(userId, cfg, now), cfg, later)
         == (if later < now + Ttl(cfg) then Ok(c) else Err(Fail(TokenInvalidMessage, 401)))
  {
    Crypto.VerifySigned(TokenClaims(userId, cfg, now), Secret(cfg), Secret(cfg), later);
  }

  /** A token from one secret is refused under another. */
  lemma {:induction false} ForeignTokenRefused(userId: nat, cfg: JwtConfig, other: JwtConfig, now: nat, later: nat)
    requires Secret(other) != Secret(cfg)
    ensures VerificarToken(GenerarToken(userId, cfg, now), other, later) == Err(Fail(TokenInvalidMessage, 401))
  {
    Crypto.VerifySigned(TokenClaims(userId, cfg, now), Secret(cfg), Secret(other), later);
  }

  // ----- the account store -----

  /** Ids are 0 .. n-1, each account sits under its own id and satisfies the schema, and no two
      accounts share an e-mail (the unique index). */
  ghost predicate UsersValid(m: map<nat, StoredUser>, n: nat) {
    && (forall i :: i in m ==> i < n)
    && (forall i :: 0 <= i < n ==> i in m)
    && (forall i :: i in m ==> m[i].id == i && ValidUser(m[i]))
    && (forall i, j :: i in m && j in m && i != j ==> m[i].email != m[j].email)
  }

  /** `findOne({email})`: the first account, in id order below n, with exactly this e-mail. */
  function FindByEmail(m: map<nat, StoredUser>, e: string, n: nat): (r: Option<nat>)
    ensures r.Some? ==> r.value < n && r.value in m && m[r.value].email == e
    ensures r.None? ==> forall i :: 0 <= i < n && i in m ==> m[i].email != e
  {
    if n == 0 then None
    else match FindByEmail(m, e, n - 1)
      case Some(i) => Some(i)
      case None => if n - 1 in m && m[n - 1].email == e then Some(n - 1) else None
  }

  /** In a valid store the account with an e-mail is unique, so the lookup finds it. */
  lemma FindsTheAccount(m: map<nat, StoredUser>, n: nat, i: nat)
    requires UsersValid(m, n) && i in m
    ensures FindByEmail(m, m[i].email, n) == Some(i)
  {
  }

  // ----- register -----

  /** The body of `POST /auth/registro`; a missing field is "". */
  datatype RegisterInput = RegisterInput(nombre: string, email: string, password: string, rol: string)

  /** `rol || 'estudiante'`. */
  function RolOrDefault(rol: string): (r: string)
    ensures rol == "" ==> r == Estudiante
    ensures rol != "" ==> r == rol
  {
    if rol == "" then Estudiante else rol
  }

  /** The account a successful registration stores: name trimmed, e-mail lowered and trimmed,
      the password hashed by the pre-save hook, the role as given or 'estudiante'. */
  function NewUser(id: nat, b: RegisterInput, salt: nat): StoredUser {
    StoredUser(id, Text.Trim(b.nombre), NormaliseEmail(b.email), Crypto.Hash(b.password, salt), RolOrDefault(b.rol))
  }

  /** `registrarUsuario`. The checks run in order: a falsy field, a short password, the
      e-mail pattern, an existing account, then the schema validation of `save`, then the
      unique index on the e-mail. The lookup `findOne({ email })` goes through the schema's
      `trim` and `lowercase` setters, so it looks for the normalised e-mail, the one the index
      holds. */
  function RegisterOutcome(m: map<nat, StoredUser>, n: nat, b: RegisterInput, salt: nat): (r: Result<StoredUser, Failure>)
    ensures b.nombre == "" || b.email == "" || b.password == "" ==> r == Err(Fail(RegisterRequiredMessage, 400))
    ensures b.nombre != "" && b.email != "" && b.password != "" && |b.password| < 6 ==>
      r == Err(Fail(ShortPasswordMessage, 400))
    ensures b.nombre != "" && b.email != "" && |b.password| >= 6 && !Text.ValidEmail(b.email) ==>
      r == Err(Fail(BadEmailFormatMessage, 400))
    ensures b.nombre != "" && b.email != "" && |b.password| >= 6 && Text.ValidEmail(b.email)
      && FindByEmail(m, NormaliseEmail(b.email), n).Some?
      ==> r == Err(Fail(UserExistsMessage, 400))
    ensures r.Ok? <==>
      && b.nombre != "" && b.email != "" && |b.password| >= 6 && Text.ValidEmail(b.email)
      && FindByEmail(m, NormaliseEmail(b.email), n).None?
      && Text.Trim(b.nombre) != [] && (RolOrDefault(b.rol) == Estudiante || RolOrDefault(b.rol) == Admin)
    ensures r.Ok? ==> r.value == NewUser(n, b, salt)
    ensures r.Err? && r.error.OtherError? ==>
      r.error == OtherError(UserSchemaMessage, None) || r.error == OtherError(DuplicateKeyMessage, None)
  {
    if b.nombre == "" || b.email == "" || b.password == "" then Err(Fail(RegisterRequiredMessage, 400))
    else if |b.password| < 6 then Err(Fail(ShortPasswordMessage, 400))
    else if !Text.ValidEmail(b.email) then Err(Fail(BadEmailFormatMessage, 400))
    else if FindByEmail(m, NormaliseEmail(b.email), n).Some? then Err(Fail(UserExistsMessage, 400))
    else
      if Text.Trim(b.nombre) == [] || !(RolOrDefault(b.rol) == Estudiante || RolOrDefault(b.rol) == Admin) then
        Err(OtherError(UserSchemaMessage, None))
      else if FindByEmail(m, NormaliseEmail(b.email), n).Some? then Err(OtherError(DuplicateKeyMessage, None))
      else Ok(NewUser(n, b, salt))
  }

  /** The unique index never refuses a registration: the lookup before it has already
      found any account with the normalised e-mail. */
  lemma RegisterNeverDuplicateKey(m: map<nat, StoredUser>, n: nat, b: RegisterInput, salt: nat)
    ensures RegisterOutcome(m, n, b, salt) != Err(OtherError(DuplicateKeyMessage, None))
  {
  }

  /** An address that is taken in any case or spacing is the lookup's 400. */
  lemma RegisterTakenAddress(m: map<nat, StoredUser>, n: nat, b: RegisterInput, salt: nat, id: nat)
    requires b.nombre != "" && |b.password| >= 6 && Text.ValidEmail(b.email)
    requires id in m && id < n && m[id].email == NormaliseEmail(b.email)
    ensures RegisterOutcome(m, n, b, salt) == Err(Fail(UserExistsMessage, 400))
  {
    assert m[id].email == NormaliseEmail(b.email);
  }

  /** Adding a valid account under the next id, with an e-mail no account has, keeps the
      store valid. */
  lemma AddKeepsUsersValid(m: map<nat, StoredUser>, n: nat, u: StoredUser)
    requires UsersValid(m, n) && u.id == n && ValidUser(u) && FindByEmail(m, u.email, n).None?
    ensures UsersValid(m[n := u], n + 1)
  {
    var m' := m[n := u];
    forall i | i in m' ensures i < n + 1 && m'[i].id == i && ValidUser(m'[i]) {
      if i != n { assert m'[i] == m[i]; }
    }
    forall i, j | i in m' && j in m' && i != j ensures m'[i].email != m'[j].email {
      if i == n {
        assert j in m && m'[j] == m[j];
      } else if j == n {
        assert i in m && m'[i] == m[i];
      } else {
        assert m'[i] == m[i] && m'[j] == m[j];
      }
    }
  }

  /** The account a registration that passes every check stores is valid. */
  lemma NewUserValid(b: RegisterInput, n: nat, salt: nat)
    requires Text.Trim(b.nombre) != [] && Text.ValidEmail(b.email)
    requires RolOrDefault(b.rol) == Estudiante || RolOrDefault(b.rol) == Admin
    ensures ValidUser(NewUser(n, b, salt))
  {
    Text.TrimmedIffFixed(b.nombre);
    NormaliseValidEmail(b.email);
  }

  /** What a registration that passes every check has established about its body. */
  lemma RegisterAccepted(m: map<nat, StoredUser>, n: nat, b: RegisterInput, salt: nat)
    requires RegisterOutcome(m, n, b, salt).Ok?
    ensures RegisterOutcome(m, n, b, salt).value == NewUser(n, b, salt)
    ensures |b.password| >= 6 && Text.Trim(b.nombre) != [] && NormaliseEmail(b.email) != []
    ensures RolOrDefault(b.rol) == Estudiante || RolOrDefault(b.rol) == Admin
  {
    NormaliseValidEmail(b.email);
  }

  /** A successful registration keeps the store valid. */
  lemma RegisterKeepsUsersValid(m: map<nat, StoredUser>, n: nat, b: RegisterInput, salt: nat)
    requires UsersValid(m, n) && RegisterOutcome(m, n, b, salt).Ok?
    ensures UsersValid(m[n := NewUser(n, b, salt)], n + 1)
  {
    NewUserValid(b, n, salt);
    AddKeepsUsersValid(m, n, NewUser(n, b, salt));
  }

  /** What register and login answer about the account: never its password. */
  datatype PublicUser = PublicUser(id: nat, nombre: string, email: string, rol: string)

  function PublicOf(u: StoredUser): (p: PublicUser)
    ensures p.id == u.id && p.nombre == u.nombre && p.email == u.email && p.rol == u.rol
  {
    PublicUser(u.id, u.nombre, u.email, u.rol)
  }

  datatype AuthResponse = AuthResponse(token: string, usuario: PublicUser)

  // ----- login -----

  /** `loginUsuario`'s checks: falsy fields, the account by normalised e-mail, the password,
      the disabled role. Unknown e-mail and wrong password fail alike. The result is the id of
      the account that logs in. */
  function LoginOutcome(m: map<nat, StoredUser>, n: nat, email: string, password: string): (r: Result<nat, Failure>)
    ensures email == "" || password == "" ==> r == Err(Fail(LoginRequiredMessage, 400))
    ensures email != "" && password != "" && FindByEmail(m, NormaliseEmail(email), n).None? ==>
      r == Err(Fail(BadCredentialsMessage, 401))
    ensures email != "" && password != "" && FindByEmail(m, NormaliseEmail(email), n).Some?
      && !Crypto.Compare(password, m[FindByEmail(m, NormaliseEmail(email), n).value].password)
      ==> r == Err(Fail(BadCredentialsMessage, 401))
    ensures email != "" && password != "" && FindByEmail(m, NormaliseEmail(email), n).Some?
      && Crypto.Compare(password, m[FindByEmail(m, NormaliseEmail(email), n).value].password)
      ==> var i := FindByEmail(m, NormaliseEmail(email), n).value;
          r == if m[i].rol == Inactivo then Err(Fail(InactiveMessage, 403)) else Ok(i)
    ensures r.Ok? ==>
      && r.value in m && m[r.value].email == NormaliseEmail(email)
      && Crypto.Compare(password, m[r.value].password) && m[r.value].rol != Inactivo
    ensures r.Err? && r.error.AppError? && r.error.statusCode == 403 ==> r.error == Fail(InactiveMessage, 403)
  {
    if email == "" || password == "" then Err(Fail(LoginRequiredMessage, 400))
    else match FindByEmail(m, NormaliseEmail(email), n)
      case None => Err(Fail(BadCredentialsMessage, 401))
      case Some(i) =>
        if !Crypto.Compare(password, m[i].password) then Err(Fail(BadCredentialsMessage, 401))
        else if m[i].rol == Inactivo then Err(Fail(InactiveMessage, 403))
        else Ok(i)
  }

  /** Whether the e-mail is unknown or the password wrong, the client gets the same answer. */
  lemma LoginFailuresAlike(m1: map<nat, StoredUser>, n1: nat, m2: map<nat, StoredUser>, n2: nat,
                           email: string, password: string, nodeEnv: string)
    requires email != "" && password != ""
    requires FindByEmail(m1, NormaliseEmail(email), n1).None?
    requires FindByEmail(m2, NormaliseEmail(email), n2).Some?
    requires !Crypto.Compare(password, m2[FindByEmail(m2, NormaliseEmail(email), n2).value].password)
    ensures Handle(LoginOutcome(m1, n1, email, password).error, nodeEnv)
         == Handle(LoginOutcome(m2, n2, email, password).error, nodeEnv)
    ensures Handle(LoginOutcome(m1, n1, email, password).error, nodeEnv).status == 401
  {
  }

  /** The disabled-account branch is never taken on a valid store: the schema has no such
      role, and the check comes only after the password has been verified. */
  lemma LoginNeverForbidden(m: map<nat, StoredUser>, n: nat, email: string, password: string)
    requires UsersValid(m, n)
    ensures LoginOutcome(m, n, email, password) != Err(Fail(InactiveMessage, 403))
  {
    var f := FindByEmail(m, NormaliseEmail(email), n);
    if email != "" && password != "" && f.Some? {
      ValidUserNotInactive(m[f.value]);
    }
  }

  /** An account that has just registered can log in with the e-mail and password it
      registered with, in whatever case and spacing the e-mail was typed. */
  lemma RegisteredCanLogin(m: map<nat, StoredUser>, n: nat, b: RegisterInput, salt: nat)
    requires UsersValid(m, n) && RegisterOutcome(m, n, b, salt).Ok?
    ensures LoginOutcome(m[n := NewUser(n, b, salt)], n + 1, b.email, b.password) == Ok(n)
  {
    var u := NewUser(n, b, salt);
    assert b.email != "" && b.password != "";
    RegisterKeepsUsersValid(m, n, b, salt);
    Crypto.CompareHash(b.password, b.password, salt);
    LoginFindsAccount(m[n := u], n + 1, n, b.email, b.password);
  }

  /** In a valid store, an e-mail that normalises to an account's and that account's
      password log in to that account. */
  lemma LoginFindsAccount(m: map<nat, StoredUser>, n: nat, id: nat, email: string, password: string)
    requires UsersValid(m, n) && id in m && email != "" && password != ""
    requires NormaliseEmail(email) == m[id].email && Crypto.Compare(password, m[id].password)
    ensures LoginOutcome(m, n, email, password) == Ok(id)
  {
    FindsTheAccount(m, n, id);
    ValidUserNotInactive(m[id]);
  }

  /** After a password change, login accepts the new password and refuses any other. */
  lemma ChangedPasswordLogsIn(m: map<nat, StoredUser>, n: nat, id: nat, nueva: string, other: string, salt: nat)
    requires UsersValid(m, n) && id in m && nueva != "" && other != "" && other != nueva
    ensures var m' := m[id := m[id].(password := Crypto.Hash(nueva, salt))];
      && LoginOutcome(m', n, m[id].email, nueva) == Ok(id)
      && LoginOutcome(m', n, m[id].email, other) == Err(Fail(BadCredentialsMessage, 401))
  {
    var h := Crypto.Hash(nueva, salt);
    var m' := m[id := m[id].(password := h)];
    var e := m[id].email;
    RehashKeepsUsersValid(m, n, id, h);
    NormaliseEmailOfStored(m[id]);
    Crypto.CompareHash(nueva, nueva, salt);
    Crypto.CompareHash(nueva, other, salt);
    LoginFindsAccount(m', n, id, e, nueva);
    FindsTheAccount(m', n, id);
  }

  /** Login normalises the e-mail it is given; a stored e-mail is already normalised. */
  lemma NormaliseEmailOfStored(u: StoredUser)
    requires ValidUser(u)
    ensures NormaliseEmail(u.email) == u.email
  {
    Text.TrimOfTrimmed(u.email);
  }

  // ----- change password -----

  /** `cambiarPassword`'s checks: falsy fields, a short new password, an unknown user, a wrong
      current password (400, not 401). */
  function ChangePasswordOutcome(m: map<nat, StoredUser>, userId: nat, actual: string, nueva: string): (r: Result<(), Failure>)
    ensures actual == "" || nueva == "" ==> r == Err(Fail(ChangeRequiredMessage, 400))
    ensures actual != "" && nueva != "" && |nueva| < 6 ==> r == Err(Fail(ShortNewPasswordMessage, 400))
    ensures actual != "" && |nueva| >= 6 && userId !in m ==> r == Err(Fail(UserNotFoundMessage, 404))
    ensures actual != "" && |nueva| >= 6 && userId in m && !Crypto.Compare(actual, m[userId].password) ==>
      r == Err(Fail(WrongCurrentMessage, 400))
    ensures r.Ok? <==> actual != "" && |nueva| >= 6 && userId in m && Crypto.Compare(actual, m[userId].password)
  {
    if actual == "" || nueva == "" then Err(Fail(ChangeRequiredMessage, 400))
    else if |nueva| < 6 then Err(Fail(ShortNewPasswordMessage, 400))
    else if userId !in m then Err(Fail(UserNotFoundMessage, 404))
    else if !Crypto.Compare(actual, m[userId].password) then Err(Fail(WrongCurrentMessage, 400))
    else Ok(())
  }

  /** `new Usuario({...})` followed by `save()` for a registration that passed its checks:
      the schema validation passes and the hook hashes the plaintext, so the stored record is
      the account `NewUser` describes. */
  method SaveNewUser(id: nat, b: RegisterInput, salt: nat) returns (u: StoredUser)
    requires |b.password| >= 6 && Text.Trim(b.nombre) != [] && NormaliseEmail(b.email) != []
    requires RolOrDefault(b.rol) == Estudiante || RolOrDefault(b.rol) == Admin
    ensures u == NewUser(id, b, salt)
    ensures forall q :: Crypto.Compare(q, u.password) <==> q == b.password
  {
    var doc := new UsuarioDoc(id, b.nombre, b.email, b.password, RolOrDefault(b.rol));
    assert doc.ValidationError().None?;
    doc.PreSave(salt);
    u := doc.Snapshot();
  }

  class UserStore {
    var users: map<nat, StoredUser>
    var nextId: nat

    ghost predicate Valid()
      reads this
    {
      UsersValid(users, nextId)
    }

    constructor ()
      ensures Valid() && users == map[] && nextId == 0
    {
      users := map[];
      nextId := 0;
    }

    /** `registrarUsuario`: once the checks of `RegisterOutcome` pass, builds the document,
        saves it (the pre-save hook hashes the password) and answers with a token and the
        public account. */
    method Register(b: RegisterInput, salt: nat, cfg: JwtConfig, now: nat) returns (r: Result<AuthResponse, Failure>)
      requires Valid()
      modifies this
      ensures Valid()
      ensures var o := RegisterOutcome(old(users), old(nextId), b, salt);
        && (o.Err? ==> r == Err(o.error) && users == old(users) && nextId == old(nextId))
        && (o.Ok? ==> r == Ok(AuthResponse(GenerarToken(old(nextId), cfg, now), PublicOf(o.value)))
                      && users == old(users)[old(nextId) := o.value] && nextId == old(nextId) + 1)
    {
      var o := RegisterOutcome(users, nextId, b, salt);
      if o.Err? {
        return Err(o.error);
      }
      RegisterAccepted(users, nextId, b, salt);
      var u := SaveNewUser(nextId, b, salt);
      NewUserValid(b, nextId, salt);
      Insert(u);
      r := Ok(AuthResponse(GenerarToken(u.id, cfg, now), PublicOf(u)));
    }

    /** The store's `insertOne` with the next id: the unique index admits an account whose
        e-mail no account has. */
    method Insert(u: StoredUser)
      requires Valid() && u.id == nextId && ValidUser(u) && FindByEmail(users, u.email, nextId).None?
      modifies this
      ensures Valid()
      ensures users == old(users)[old(nextId) := u] && nextId == old(nextId) + 1
    {
      AddKeepsUsersValid(users, nextId, u);
      users := users[nextId := u];
      nextId := nextId + 1;
    }

    /** `loginUsuario`: answers with a token and the public account. The write of
        `ultimoLogin` that follows a success names a path the schema does not declare, so the
        strict schema drops it and no stored field of the model changes. */
    method Login(email: string, password: string, cfg: JwtConfig, now: nat) returns (r: Result<AuthResponse, Failure>)
      requires Valid()
      ensures var o := LoginOutcome(users, nextId, email, password);
        && (o.Err? ==> r == Err(o.error))
        && (o.Ok? ==> r == Ok(AuthResponse(GenerarToken(o.value, cfg, now), PublicOf(users[o.value]))))
    {
      var o := LoginOutcome(users, nextId, email, password);
      if o.Err? {
        return Err(o.error);
      }
      var u := users[o.value];
      var token := GenerarToken(o.value, cfg, now);
      r := Ok(AuthResponse(token, PublicOf(u)));
    }

    /** `cambiarPassword`: the document is loaded, given the new plaintext and saved, so the
        pre-save hook hashes it; nothing else changes. */
    method ChangePassword(userId: nat, actual: string, nueva: string, salt: nat) returns (r: Result<(), Failure>)
      requires Valid()
      modifies this
      ensures Valid()
      ensures nextId == old(nextId)
      ensures r == ChangePasswordOutcome(old(users), userId, actual, nueva)
      ensures r.Err? ==> users == old(users)
      ensures r.Ok? ==> users == old(users)[userId := old(users)[userId].(password := Crypto.Hash(nueva, salt))]
    {
      r := ChangePasswordOutcome(users, userId, actual, nueva);
      if r.Err? {
        return;
      }
      var doc := new UsuarioDoc.Load(users[userId]);
      doc.password := Plain(nueva);
      assert doc.ValidationError().None?;
      doc.PreSave(salt);
      var u := doc.Snapshot();
      assert u == users[userId].(password := Crypto.Hash(nueva, salt));
      RehashKeepsUsersValid(users, nextId, userId, Crypto.Hash(nueva, salt));
      users := users[userId := u];
    }
  }

  /** Replacing an account by a valid one under the same id with the same e-mail keeps the
      store valid. */
  lemma ReplaceKeepsUsersValid(m: map<nat, StoredUser>, n: nat, id: nat, u: StoredUser)
    requires UsersValid(m, n) && id in m
    requires u.id == id && ValidUser(u) && u.email == m[id].email
    ensures UsersValid(m[id := u], n)
  {
    var m' := m[id := u];
    assert m'.Keys == m.Keys;
    forall i | i in m' ensures m'[i].id == i && ValidUser(m'[i]) {
      if i == id {
        assert m'[i] == u;
      } else {
        assert m'[i] == m[i];
      }
    }
    forall i, j | i in m' && j in m' && i != j ensures m'[i].email != m'[j].email {
      EmailKept(m, id, u, i);
      EmailKept(m, id, u, j);
    }
  }

  lemma EmailKept(m: map<nat, StoredUser>, id: nat, u: StoredUser, i: nat)
    requires id in m && i in m && u.email == m[id].email
    ensures m[id := u][i].email == m[i].email
  {
  }

  lemma RehashKeepsUsersValid(m: map<nat, StoredUser>, n: nat, id: nat, h: Crypto.PasswordHash)
    requires UsersValid(m, n) && id in m
    ensures UsersValid(m[id := m[id].(password := h)], n)
  {
    ReplaceKeepsUsersValid(m, n, id, m[id].(password := h));
  }
}
