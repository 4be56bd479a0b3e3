/** src/models/Usuario.ts: a user account as the store keeps it, the schema's constraints, the
    document the controllers build and save, its pre-save hook that hashes a modified
    password, and `compararPassword`. */
module UserModel {
  import opened Wrappers
  import Text
  import Crypto
  import opened ErrorHandler

  const Estudiante := "estudiante"
  const Admin := "admin"
  /** The role `loginUsuario` treats as a disabled account; the schema's enum does not have it. */
  const Inactivo := "inactivo"

  /** What the store's schema validation raises, shortened: the library appends the failing
      paths and their reasons. It carries no status, so it answers 500. */
  const UserSchemaMessage := "Usuario validation failed"

  /** A stored account. `id` is `_id`. */
  datatype StoredUser = StoredUser(
    id: nat,
    nombre: string,
    email: string,
    password: Crypto.PasswordHash,
    rol: string)

  /** The e-mail as the schema's `lowercase` and `trim` setters leave it. */
  function NormaliseEmail(e: string): (r: string)
    ensures Text.IsTrimmed(r) && Text.ToLower(r) == r
  {
    var l := Text.ToLower(e);
    var r := Text.Trim(l);
    Text.TrimmedIffFixed(l);
    LowerOfSlice(l, Text.LeadingSpaces(l), Text.LeadingSpaces(l) + |r|);
    r
  }

  /** An address the pattern accepts is only lowered by the setters, and stays accepted. */
  lemma NormaliseValidEmail(e: string)
    requires Text.ValidEmail(e)
    ensures NormaliseEmail(e) == Text.ToLower(e) && Text.ValidEmail(NormaliseEmail(e))
    ensures NormaliseEmail(e) != []
  {
    Text.ValidEmailNormalised(e);
    Text.ValidEmailNormalised(Text.ToLower(e));
  }

  /** A part of a lower-case string is lower case. */
  lemma LowerOfSlice(l: string, i: nat, j: nat)
    requires i <= j <= |l|
    requires forall k :: 0 <= k < |l| ==> !Text.IsUpper(l[k])
    ensures Text.ToLower(l[i..j]) == l[i..j]
  {
    var s := l[i..j];
    assert forall k :: 0 <= k < |s| ==> Text.ToLower(s)[k] == s[k] by {
      forall k | 0 <= k < |s| ensures Text.ToLower(s)[k] == s[k] {
        assert s[k] == l[i + k];
      }
    }
  }

  /** The schema: nombre required and trimmed, email required, lower case and trimmed, rol
      from the enum. The password is stored hashed. */
  predicate ValidUser(u: StoredUser) {
    && u.nombre != [] && Text.IsTrimmed(u.nombre)
    && u.email != [] && Text.IsTrimmed(u.email) && Text.ToLower(u.email) == u.email
    && (u.rol == Estudiante || u.rol == Admin)
  }

  /** No valid account has the role login treats as disabled. */
  lemma ValidUserNotInactive(u: StoredUser)
    requires ValidUser(u)
    ensures u.rol != Inactivo
  {
  }

  /** The password of a document in memory: a plaintext the code assigned and has not saved
      yet (mongoose's `isModified('password')`), or the stored hash. */
  datatype Password = Plain(text: string) | Hashed(hash: Crypto.PasswordHash)

  /** What the pre-save hook leaves in the password field: a modified plaintext is replaced
      by its hash with the fresh salt; a stored hash is kept as it is. */
  function HookedPassword(p: Password, salt: nat): (r: Password)
    ensures r.Hashed?
    ensures p.Hashed? ==> r == p
    ensures p.Plain? ==> forall q :: Crypto.Compare(q, r.hash) <==> q == p.text
  {
    match p
    case Plain(text) => Hashed(Crypto.Hash(text, salt))
    case Hashed(_) => p
  }

  /** A mongoose document of the Usuario model. */
  class UsuarioDoc {
    var id: nat
    var nombre: string
    var email: string
    var password: Password
    var rol: string

    /** `new Usuario({nombre, email, password, rol})`: the setters trim the name and lower
        and trim the e-mail; the password is a fresh plaintext. */
    constructor (id: nat, nombre: string, email: string, password: string, rol: string)
      ensures this.id == id && this.nombre == Text.Trim(nombre) && this.email == NormaliseEmail(email)
      ensures this.password == Plain(password) && this.rol == rol
    {
      this.id := id;
      this.nombre := Text.Trim(nombre);
      this.email := NormaliseEmail(email);
      this.password := Plain(password);
      this.rol := rol;
    }

    /** A document loaded from the store: nothing is modified yet. */
    constructor Load(u: StoredUser)
      ensures password.Hashed? && Snapshot() == u
    {
      id := u.id;
      nombre := u.nombre;
      email := u.email;
      password := Hashed(u.password);
      rol := u.rol;
    }

    /** The validation `save` runs before the hooks: required fields, the enum, and the
        minimum length on a plaintext password. */
    function ValidationError(): (e: Option<Failure>)
      reads this
      ensures e.Some? ==> e.value == OtherError(UserSchemaMessage, None)
      ensures e.None? <==>
        && nombre != [] && email != [] && (rol == Estudiante || rol == Admin)
        && (password.Plain? ==> |password.text| >= 6)
    {
      if nombre == [] || email == [] || !(rol == Estudiante || rol == Admin)
         || (password.Plain? && |password.text| < 6)
      then Some(OtherError(UserSchemaMessage, None))
      else None
    }

    /** The pre-save hook: hashes the password only when it was modified. */
    method PreSave(salt: nat)
      modifies this
      ensures password == HookedPassword(old(password), salt)
      ensures id == old(id) && nombre == old(nombre) && email == old(email)
      ensures rol == old(rol)
    {
      if password.Plain? {
        password := Hashed(Crypto.Hash(password.text, salt));
      }
    }

    /** The record the store keeps once the document is saved. */
    function Snapshot(): StoredUser
      reads this
      requires password.Hashed?
    {
      StoredUser(id, nombre, email, password.hash, rol)
    }

    /** `compararPassword`: the candidate against the stored hash. When the hash was made
        from `p`, with whatever salt, exactly `p` is accepted. */
    function CompararPassword(candidate: string): (ok: bool)
      reads this
      requires password.Hashed?
      ensures forall p, salt :: password.hash == Crypto.Hash(p, salt) ==> (ok <==> candidate == p)
    {
      Crypto.Compare(candidate, password.hash)
    }
  }

  /** After the document with plaintext p is saved, `compararPassword` accepts p and nothing
      else, whatever the salt. */
  lemma SavedPasswordCompares(p: string, salt: nat, q: string)
    ensures Crypto.Compare(q, HookedPassword(Plain(p), salt).hash) <==> q == p
  {
  }
}
