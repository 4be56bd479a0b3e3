/** The write side and the lookups of src/controllers/lineasController.ts over the document
    store, which is a map from id to record. Every operation reads one snapshot of the store
    and either fails with the error the controller raises (or the store raises, for a schema
    violation) and leaves the store alone, or succeeds with one write. */
module Catalogue {
  import opened Wrappers
  import Text
  import opened TrackModel
  import opened TrackQuery
  import opened ErrorHandler

  const NotFoundMessage := "Línea de profundización no encontrada"
  const MissingFieldsMessage := "Todos los campos obligatorios deben ser proporcionados"
  const NegativeCreditsMessage := "Los créditos requeridos deben ser un número positivo"
  const BadEmailMessage := "El email del coordinador no es válido"
  const DuplicateNameMessage := "Ya existe una línea de profundización con ese nombre"
  const OtherNameMessage := "Ya existe otra línea de profundización con ese nombre"
  const ShortTermMessage := "Término de búsqueda debe tener al menos 2 caracteres"
  /** What the store's schema validation raises; it carries no status, so it answers 500. */
  const SchemaMessage := "LineaProfundizacion validation failed"

  // ----- the snapshot -----

  /** The records with ids 0 .. n-1, in id order, which is creation order. */
  function InOrder(m: map<nat, Track>, n: nat): (r: seq<Track>)
    requires forall i :: 0 <= i < n ==> i in m
    ensures |r| == n
    ensures forall i :: 0 <= i < n ==> r[i] == m[i]
  {
    if n == 0 then [] else InOrder(m, n - 1) + [m[n - 1]]
  }

  /** No two records have names equal ignoring case: what the pre-checks of create and
      update protect, on top of the store's exact unique index. */
  predicate NamesDistinct(m: map<nat, Track>) {
    forall i, j :: i in m && j in m && i != j ==> !Text.EqualsIgnoreCase(m[i].nombre, m[j].nombre)
  }

  /** Some record other than `except` has this name ignoring case: `findOne` with the
      anchored, case-insensitive name pattern (and `_id: {$ne: except}`). */
  predicate NameTakenIn(m: map<nat, Track>, nombre: string, except: Option<nat>) {
    exists i :: i in m && (except.None? || i != except.value) && Text.EqualsIgnoreCase(m[i].nombre, nombre)
  }

  // ----- create -----

  /** The body of `POST /lineas`. A missing string field is "" and a missing credit count 0,
      exactly the falsy values the controller rejects; `materias` is None when it is not an
      array. */
  datatype TrackInput = TrackInput(
    nombre: string,
    descripcion: string,
    coordinador: string,
    emailCoordinador: string,
    areaConocimiento: string,
    creditosRequeridos: int,
    materias: Option<seq<string>>)

  /** Some required field is falsy; credits of 0 count as missing. */
  predicate MissingRequired(b: TrackInput) {
    || b.nombre == "" || b.descripcion == "" || b.coordinador == ""
    || b.emailCoordinador == "" || b.areaConocimiento == "" || b.creditosRequeridos == 0
  }

  function TrimAll(ms: seq<string>): (r: seq<string>)
    ensures |r| == |ms| && forall i :: 0 <= i < |ms| ==> r[i] == Text.Trim(ms[i])
  {
    seq(|ms|, i requires 0 <= i < |ms| => Text.Trim(ms[i]))
  }

  /** The document create builds from the body. */
  function NewTrack(id: nat, b: TrackInput, now: int): Track {
    Track(
      id,
      Text.Trim(b.nombre),
      Text.Trim(b.descripcion),
      Text.Trim(b.coordinador),
      Text.Trim(Text.ToLower(b.emailCoordinador)),
      b.areaConocimiento,
      b.creditosRequeridos,
      if b.materias.Some? then TrimAll(b.materias.value) else [],
      Activa,
      now,
      0)
  }

  /** A new record is normalised: its text fields are trimmed (trimming again changes
      nothing), an accepted coordinator e-mail is stored in lower case, and it starts active,
      at version 0, created now. */
  lemma NewTrackNormalised(id: nat, b: TrackInput, now: int)
    requires Text.ValidEmail(b.emailCoordinador)
    ensures var t := NewTrack(id, b, now);
      && Text.Trim(t.nombre) == t.nombre && Text.Trim(t.descripcion) == t.descripcion
      && Text.Trim(t.coordinador) == t.coordinador
      && t.emailCoordinador == Text.ToLower(b.emailCoordinador) && Text.ValidEmail(t.emailCoordinador)
      && (forall m :: m in t.materias ==> Text.Trim(m) == m)
      && t.estado == Activa && t.version == 0 && t.fechaCreacion == now && t.id == id
  {
    var t := NewTrack(id, b, now);
    Text.TrimIdempotent(b.nombre);
    Text.TrimIdempotent(b.descripcion);
    Text.TrimIdempotent(b.coordinador);
    Text.ValidEmailNormalised(b.emailCoordinador);
    Text.ValidEmailNormalised(Text.ToLower(b.emailCoordinador));
    forall m | m in t.materias ensures Text.Trim(m) == m {
      var k :| 0 <= k < |t.materias| && t.materias[k] == m;
      Text.TrimIdempotent(b.materias.value[k]);
    }
  }

  /** The name pre-check of create as written: the pattern is built from the name as
      submitted, and the name is trimmed only afterwards, when the record is built. */
  predicate CreateNameTakenAsWritten(m: map<nat, Track>, b: TrackInput) {
    NameTakenIn(m, b.nombre, None)
  }

  /** The name pre-check as intended: the name that will be stored is compared. */
  predicate CreateNameTaken(m: map<nat, Track>, b: TrackInput) {
    NameTakenIn(m, Text.Trim(b.nombre), None)
  }

  /** A record named "Datos". */
  function DatosRecord(): Track {
    Track(0, "Datos", "Analitica", "Ana", "ana@u.co", "Datos", 3, [], Activa, 0, 0)
  }

  lemma TrimSpacedDatos()
    ensures Text.Trim(" datos") == "datos"
  {
    var s := " datos";
    assert Text.LeadingSpaces(s[1..]) == 0 by {
      assert s[1..][0] == 'd';
    }
    assert Text.LeadingSpaces(s) == 1;
    var t := s[1..];
    assert t == "datos";
    assert Text.TrailingSpaces(t) == 0 by {
      assert t[|t| - 1] == 's';
    }
  }

  lemma DatosIgnoringCase()
    ensures Text.EqualsIgnoreCase("datos", "Datos")
    ensures !Text.EqualsIgnoreCase(" datos", "Datos")
  {
    var a := Text.ToLower("datos");
    var b := Text.ToLower("Datos");
    assert a[0] == 'd' && b[0] == 'd';
    assert a == b;
    assert |Text.ToLower(" datos")| != |b|;
  }

  function DatosStore(): map<nat, Track> {
    map[0 := DatosRecord()]
  }

  lemma SpacedBodyPassesAsWritten(b: TrackInput)
    requires b.nombre == " datos"
    ensures !CreateNameTakenAsWritten(DatosStore(), b)
  {
    DatosIgnoringCase();
  }

  lemma SpacedBodyTaken(b: TrackInput)
    requires b.nombre == " datos"
    ensures CreateNameTaken(DatosStore(), b)
  {
    TrimSpacedDatos();
    DatosIgnoringCase();
    assert Text.EqualsIgnoreCase(DatosStore()[0].nombre, Text.Trim(b.nombre));
  }

  lemma SpacedBodyStoredTwice(b: TrackInput, now: int)
    requires b.nombre == " datos"
    ensures !NamesDistinct(DatosStore()[1 := NewTrack(1, b, now)])
  {
    TrimSpacedDatos();
    DatosIgnoringCase();
    NameStoredTwice(DatosStore(), 0, 1, NewTrack(1, b, now));
  }

  /** Storing a record whose name equals another record's ignoring case breaks the
      distinctness of names. */
  lemma NameStoredTwice(m: map<nat, Track>, i: nat, id: nat, t: Track)
    requires i in m && i != id && Text.EqualsIgnoreCase(t.nombre, m[i].nombre)
    ensures !NamesDistinct(m[id := t])
  {
    var m' := m[id := t];
    assert m'[id] == t && m'[i] == m[i];
  }

  /** The create pre-check as written lets a case-insensitive duplicate in: with "Datos"
      stored, a body naming " datos" does not match `^ datos$`, is trimmed to "datos",
      differs from "Datos" for the exact unique index and is stored beside it, whatever its
      other fields. The intended check refuses it. */
  lemma CreateNameCheckAsWrittenAdmitsDuplicate(b: TrackInput, now: int)
    requires b.nombre == " datos"
    ensures !CreateNameTakenAsWritten(DatosStore(), b)
    ensures !NamesDistinct(DatosStore()[1 := NewTrack(1, b, now)])
    ensures CreateNameTaken(DatosStore(), b)
  {
    SpacedBodyPassesAsWritten(b);
    SpacedBodyStoredTwice(b, now);
    SpacedBodyTaken(b);
  }

  /** The intended pre-check is what keeps the names distinct: when it passes, adding the new
      record under a fresh id keeps every pair of names distinct ignoring case. */
  lemma CreateNameCheckKeepsNamesDistinct(m: map<nat, Track>, id: nat, b: TrackInput, now: int)
    requires NamesDistinct(m) && id !in m
    requires !CreateNameTaken(m, b)
    ensures NamesDistinct(m[id := NewTrack(id, b, now)])
  {
  }

  // ----- update -----

  /** The body of `PUT /lineas/:id`: the fields it supplies. */
  datatype TrackPatch = TrackPatch(
    nombre: Option<string>,
    descripcion: Option<string>,
    coordinador: Option<string>,
    emailCoordinador: Option<string>,
    areaConocimiento: Option<string>,
    creditosRequeridos: Option<int>,
    materias: Option<seq<string>>,
    estado: Option<string>,
    fechaCreacion: Option<int>)

  /** `findByIdAndUpdate(id, {...patch, $inc: {__v: 1}})`: the supplied fields replace the
      stored ones (the schema's trim setter applies to the name), the creation date included
      when the body carries one, the version goes up by one, and nothing else changes. */
  function Patched(t: Track, p: TrackPatch): (u: Track)
    ensures u.id == t.id && u.version == t.version + 1
    ensures u.fechaCreacion == p.fechaCreacion.GetOr(t.fechaCreacion)
    ensures u.nombre == (if p.nombre.Some? then Text.Trim(p.nombre.value) else t.nombre)
    ensures u.descripcion == p.descripcion.GetOr(t.descripcion)
    ensures u.coordinador == p.coordinador.GetOr(t.coordinador)
    ensures u.emailCoordinador == p.emailCoordinador.GetOr(t.emailCoordinador)
    ensures u.areaConocimiento == p.areaConocimiento.GetOr(t.areaConocimiento)
    ensures u.creditosRequeridos == p.creditosRequeridos.GetOr(t.creditosRequeridos)
    ensures u.materias == p.materias.GetOr(t.materias)
    ensures u.estado == p.estado.GetOr(t.estado)
  {
    t.(nombre := if p.nombre.Some? then Text.Trim(p.nombre.value) else t.nombre,
       descripcion := p.descripcion.GetOr(t.descripcion),
       coordinador := p.coordinador.GetOr(t.coordinador),
       emailCoordinador := p.emailCoordinador.GetOr(t.emailCoordinador),
       areaConocimiento := p.areaConocimiento.GetOr(t.areaConocimiento),
       creditosRequeridos := p.creditosRequeridos.GetOr(t.creditosRequeridos),
       materias := p.materias.GetOr(t.materias),
       estado := p.estado.GetOr(t.estado),
       fechaCreacion := p.fechaCreacion.GetOr(t.fechaCreacion),
       version := t.version + 1)
  }

  /** An empty patch only bumps the version. */
  lemma EmptyPatchBumpsVersion(t: Track)
    ensures Patched(t, TrackPatch(None, None, None, None, None, None, None, None, None)) == t.(version := t.version + 1)
  {
  }

  /** A truthy e-mail in the patch that fails the pattern. */
  predicate PatchEmailRejected(p: TrackPatch) {
    p.emailCoordinador.Some? && p.emailCoordinador.value != "" && !Text.ValidEmail(p.emailCoordinador.value)
  }

  /** The update name check as written: it runs only for a truthy name that differs exactly
      from the stored one, and compares the name as submitted. */
  predicate UpdateNameConflictAsWritten(m: map<nat, Track>, id: nat, p: TrackPatch)
    requires id in m
  {
    p.nombre.Some? && p.nombre.value != "" && p.nombre.value != m[id].nombre
    && NameTakenIn(m, p.nombre.value, Some(id))
  }

  /** The update name check as intended: the same guard, comparing the name that will be
      stored. */
  predicate UpdateNameConflict(m: map<nat, Track>, id: nat, p: TrackPatch)
    requires id in m
  {
    p.nombre.Some? && p.nombre.value != "" && p.nombre.value != m[id].nombre
    && NameTakenIn(m, Text.Trim(p.nombre.value), Some(id))
  }

  function RedesRecord(): Track {
    Track(1, "Redes", "Redes de datos", "Eva", "eva@u.co", "Redes", 4, [], Activa, 0, 0)
  }

  lemma TrimDatosSpaced()
    ensures Text.Trim("datos ") == "datos"
    ensures !Text.EqualsIgnoreCase("datos ", "Datos")
  {
    var s := "datos ";
    assert Text.LeadingSpaces(s) == 0 by {
      assert s[0] == 'd';
    }
    assert Text.TrailingSpaces(s[..5]) == 0 by {
      assert s[..5][4] == 's';
    }
    assert Text.TrailingSpaces(s) == 1;
    assert s[..5] == "datos";
    assert |Text.ToLower(s)| != |Text.ToLower("Datos")|;
  }

  function DatosRedesStore(): map<nat, Track> {
    map[0 := DatosRecord(), 1 := RedesRecord()]
  }

  function RenameToDatos(): TrackPatch {
    TrackPatch(Some("datos "), None, None, None, None, None, None, None, None)
  }

  lemma RenamePassesAsWritten()
    ensures !UpdateNameConflictAsWritten(DatosRedesStore(), 1, RenameToDatos())
  {
    var m := DatosRedesStore();
    assert m.Keys == {0, 1};
    assert !Text.EqualsIgnoreCase(m[0].nombre, "datos ") by {
      assert |Text.ToLower(m[0].nombre)| == 5 && |Text.ToLower("datos ")| == 6;
    }
  }

  lemma RenameClashes()
    ensures UpdateNameConflict(DatosRedesStore(), 1, RenameToDatos())
    ensures !NamesDistinct(DatosRedesStore()[1 := Patched(DatosRedesStore()[1], RenameToDatos())])
  {
    TrimDatosSpaced();
    DatosIgnoringCase();
    var m := DatosRedesStore();
    assert Text.EqualsIgnoreCase(m[0].nombre, Text.Trim("datos "));
    NameStoredTwice(m, 0, 1, Patched(m[1], RenameToDatos()));
  }


  /** The update check as written lets a record be renamed onto another's name: renaming
      "Redes" to "datos " while "Datos" is stored passes the check and stores "datos". The
      intended check refuses it. */
  lemma UpdateNameCheckAsWrittenAdmitsDuplicate()
    ensures !UpdateNameConflictAsWritten(DatosRedesStore(), 1, RenameToDatos())
    ensures UpdateNameConflict(DatosRedesStore(), 1, RenameToDatos())
    ensures !NamesDistinct(DatosRedesStore()[1 := Patched(DatosRedesStore()[1], RenameToDatos())])
  {
    RenamePassesAsWritten();
    RenameClashes();
  }

  /** The intended check keeps the names distinct: when it passes, the patched record's
      name is distinct ignoring case from every other record's, and the others keep theirs. It
      may skip the lookup when the name is exactly the stored one, because a stored name clashes
      with no other. */
  lemma UpdateNameCheckKeepsNamesDistinct(m: map<nat, Track>, id: nat, p: TrackPatch)
    requires NamesDistinct(m) && id in m
    requires !UpdateNameConflict(m, id, p)
    requires forall i :: i in m ==> ValidTrack(m[i])
    ensures NamesDistinct(m[id := Patched(m[id], p)])
  {
    var n := m[id := Patched(m[id], p)];
    forall i, j | i in n && j in n && i != j
      ensures !Text.EqualsIgnoreCase(n[i].nombre, n[j].nombre)
    {
      PatchedPair(m, id, p, i, j);
    }
  }

  lemma PatchedPair(m: map<nat, Track>, id: nat, p: TrackPatch, i: nat, j: nat)
    requires NamesDistinct(m) && id in m && i in m && j in m && i != j
    requires !UpdateNameConflict(m, id, p)
    requires ValidTrack(m[id]) && ValidTrack(m[i]) && ValidTrack(m[j])
    ensures var n := m[id := Patched(m[id], p)]; !Text.EqualsIgnoreCase(n[i].nombre, n[j].nombre)
  {
    if i == id {
      PatchedNameFresh(m, id, p, j);
    } else if j == id {
      PatchedNameFresh(m, id, p, i);
    }
  }

  /** The patched name against one other record. */
  lemma PatchedNameFresh(m: map<nat, Track>, id: nat, p: TrackPatch, j: nat)
    requires NamesDistinct(m) && id in m && j in m && j != id
    requires !UpdateNameConflict(m, id, p)
    requires ValidTrack(m[id]) && ValidTrack(m[j])
    ensures !Text.EqualsIgnoreCase(m[j].nombre, Patched(m[id], p).nombre)
  {
    var u := Patched(m[id], p);
    if p.nombre.None? || p.nombre.value == m[id].nombre {
      Text.TrimOfTrimmed(m[id].nombre);
      assert u.nombre == m[id].nombre;
      assert !Text.EqualsIgnoreCase(m[id].nombre, m[j].nombre);
    } else if p.nombre.value == "" {
      assert u.nombre == Text.Trim("");
      assert |Text.ToLower(u.nombre)| == 0;
      assert |Text.ToLower(m[j].nombre)| > 0;
    } else {
      assert !NameTakenIn(m, Text.Trim(p.nombre.value), Some(id));
    }
  }

  /** The store invariant: ids are 0 .. n-1, each record sits under its own id, the schema
      holds of every record, every coordinator e-mail passed the pattern, and names are
      distinct ignoring case. */
  ghost predicate StoreValid(m: map<nat, Track>, n: nat) {
    && (forall i :: i in m ==> i < n)
    && (forall i :: 0 <= i < n ==> i in m)
    && (forall i :: i in m ==> m[i].id == i && ValidTrack(m[i]))
    && (forall i :: i in m ==> Text.ValidEmail(m[i].emailCoordinador))
    && NamesDistinct(m)
  }

  /** Adding a valid record under the next id keeps the invariant. */
  lemma StoreValidAdd(m: map<nat, Track>, n: nat, t: Track)
    requires StoreValid(m, n)
    requires t.id == n && ValidTrack(t) && Text.ValidEmail(t.emailCoordinador)
    requires NamesDistinct(m[n := t])
    ensures StoreValid(m[n := t], n + 1)
  {
    var m' := m[n := t];
    forall i | i in m' ensures i < n + 1 && m'[i].id == i && ValidTrack(m'[i]) && Text.ValidEmail(m'[i].emailCoordinador) {
      if i == n {
        assert m'[i] == t;
      } else {
        assert m'[i] == m[i];
      }
    }
  }

  /** Replacing a record by a valid one under the same id keeps the invariant. */
  lemma StoreValidReplace(m: map<nat, Track>, n: nat, id: nat, t: Track)
    requires StoreValid(m, n) && id in m
    requires t.id == id && ValidTrack(t) && Text.ValidEmail(t.emailCoordinador)
    requires NamesDistinct(m[id := t])
    ensures StoreValid(m[id := t], n)
  {
    var m' := m[id := t];
    assert m'.Keys == m.Keys;
    forall i | i in m' ensures m'[i].id == i && ValidTrack(m'[i]) && Text.ValidEmail(m'[i].emailCoordinador) {
      if i == id {
        assert m'[i] == t;
      } else {
        assert m'[i] == m[i];
      }
    }
  }

  /** A replacement that keeps the name keeps the names distinct. */
  lemma SameNameKeepsDistinct(m: map<nat, Track>, id: nat, t: Track)
    requires NamesDistinct(m) && id in m && t.nombre == m[id].nombre
    ensures NamesDistinct(m[id := t])
  {
    var n := m[id := t];
    forall i, j | i in n && j in n && i != j
      ensures !Text.EqualsIgnoreCase(n[i].nombre, n[j].nombre)
    {
      assert n[i].nombre == m[i].nombre && n[j].nombre == m[j].nombre;
    }
  }

  /** A patch the controller accepts leaves a coordinator e-mail that passed the pattern:
      either the stored one or a truthy new one that was checked. */
  lemma PatchedEmailValid(t: Track, p: TrackPatch)
    requires Text.ValidEmail(t.emailCoordinador) && !PatchEmailRejected(p)
    requires ValidTrack(Patched(t, p))
    ensures Text.ValidEmail(Patched(t, p).emailCoordinador)
  {
  }

  /** `crearLinea` with the name pre-check comparing the trimmed name. The checks run in
      order and the first that fails decides: falsy fields, negative credits, the e-mail
      pattern, the name, and then the schema when the record is saved. */
  function CreateOutcome(m: map<nat, Track>, n: nat, b: TrackInput, now: int): (r: Result<Track, Failure>)
    ensures MissingRequired(b) ==> r == Err(Fail(MissingFieldsMessage, 400))
    ensures !MissingRequired(b) && b.creditosRequeridos < 0 ==> r == Err(Fail(NegativeCreditsMessage, 400))
    ensures !MissingRequired(b) && b.creditosRequeridos > 0 && !Text.ValidEmail(b.emailCoordinador) ==>
      r == Err(Fail(BadEmailMessage, 400))
    ensures !MissingRequired(b) && b.creditosRequeridos > 0 && Text.ValidEmail(b.emailCoordinador)
      && CreateNameTaken(m, b)
      ==> r == Err(Fail(DuplicateNameMessage, 400))
    ensures r.Ok? <==>
      && !MissingRequired(b) && b.creditosRequeridos > 0 && Text.ValidEmail(b.emailCoordinador)
      && !CreateNameTaken(m, b) && ValidTrack(NewTrack(n, b, now))
    ensures r.Err? && !(r.error.AppError? && r.error.statusCode == 400) ==>
      r.error == OtherError(SchemaMessage, None)
    ensures r.Ok? ==> r.value == NewTrack(n, b, now)
  {
    if MissingRequired(b) then Err(Fail(MissingFieldsMessage, 400))
    else if b.creditosRequeridos < 0 then Err(Fail(NegativeCreditsMessage, 400))
    else if !Text.ValidEmail(b.emailCoordinador) then Err(Fail(BadEmailMessage, 400))
    else if CreateNameTaken(m, b) then Err(Fail(DuplicateNameMessage, 400))
    else if !ValidTrack(NewTrack(n, b, now)) then Err(OtherError(SchemaMessage, None))
    else Ok(NewTrack(n, b, now))
  }

  /** A successful create keeps the store invariant, names distinct ignoring case included. */
  lemma CreateKeepsStoreValid(m: map<nat, Track>, n: nat, b: TrackInput, now: int)
    requires StoreValid(m, n) && CreateOutcome(m, n, b, now).Ok?
    ensures StoreValid(m[n := CreateOutcome(m, n, b, now).value], n + 1)
  {
    var t := NewTrack(n, b, now);
    NewTrackNormalised(n, b, now);
    assert n !in m;
    CreateNameCheckKeepsNamesDistinct(m, n, b, now);
    StoreValidAdd(m, n, t);
  }

  /** A create that is refused answers 400 for every check of the controller, and 500 only
      when the record built from the body breaks the schema. */
  lemma CreateRefusals(m: map<nat, Track>, n: nat, b: TrackInput, now: int)
    requires CreateOutcome(m, n, b, now).Err?
    ensures var e := Normalise(CreateOutcome(m, n, b, now).error);
      e.statusCode == 400 || (e.statusCode == 500 && !ValidTrack(NewTrack(n, b, now)))
  {
  }

  /** `actualizarLinea` with the name check comparing the trimmed name. The checks run in
      order: a truthy e-mail failing the pattern, an unknown id, the name, and then the
      schema, which update validators apply to the patched record. */
  function UpdateOutcome(m: map<nat, Track>, id: nat, p: TrackPatch): (r: Result<Track, Failure>)
    ensures PatchEmailRejected(p) ==> r == Err(Fail(BadEmailMessage, 400))
    ensures !PatchEmailRejected(p) && id !in m ==> r == Err(Fail(NotFoundMessage, 404))
    ensures !PatchEmailRejected(p) && id in m && UpdateNameConflict(m, id, p) ==>
      r == Err(Fail(OtherNameMessage, 400))
    ensures r.Ok? <==>
      && !PatchEmailRejected(p) && id in m && !UpdateNameConflict(m, id, p)
      && ValidTrack(Patched(m[id], p))
    ensures r.Err? && r.error.OtherError? ==> r.error == OtherError(SchemaMessage, None)
    ensures r.Ok? ==> r.value == Patched(m[id], p)
  {
    if PatchEmailRejected(p) then Err(Fail(BadEmailMessage, 400))
    else if id !in m then Err(Fail(NotFoundMessage, 404))
    else if UpdateNameConflict(m, id, p) then Err(Fail(OtherNameMessage, 400))
    else if !ValidTrack(Patched(m[id], p)) then Err(OtherError(SchemaMessage, None))
    else Ok(Patched(m[id], p))
  }

  /** A successful update keeps the store invariant. */
  lemma UpdateKeepsStoreValid(m: map<nat, Track>, n: nat, id: nat, p: TrackPatch)
    requires StoreValid(m, n) && UpdateOutcome(m, id, p).Ok?
    ensures StoreValid(m[id := UpdateOutcome(m, id, p).value], n)
  {
    var u := Patched(m[id], p);
    UpdateNameCheckKeepsNamesDistinct(m, id, p);
    PatchedEmailValid(m[id], p);
    StoreValidReplace(m, n, id, u);
  }

  // ----- the store -----

  /** The collection of tracks. Ids are handed out in order and never reused: records are
      retired, never removed. */
  class TrackStore {
    var tracks: map<nat, Track>
    var nextId: nat

    /** The store invariant holds of the current contents. */
    ghost predicate Valid()
      reads this
    {
      StoreValid(tracks, nextId)
    }

    /** The records in natural order, as `find` without a sort returns them. */
    function Records(): (r: seq<Track>)
      reads this
      requires Valid()
      ensures |r| == nextId
      ensures forall t :: t in r ==> t.id in tracks && tracks[t.id] == t
    {
      var r := InOrder(tracks, nextId);
      assert forall t :: t in r ==> t.id in tracks && tracks[t.id] == t by {
        forall t | t in r ensures t.id in tracks && tracks[t.id] == t {
          var k :| 0 <= k < |r| && r[k] == t;
          assert tracks[k] == t;
        }
      }
      r
    }

    constructor ()
      ensures Valid() && tracks == map[] && nextId == 0
    {
      tracks := map[];
      nextId := 0;
    }

    /** `obtenerLineas`: the filter built field by field, then the listing. */
    method List(q: ListQuery) returns (r: ListPage)
      requires Valid()
      ensures r == ListFrom(Records(), q)
      ensures forall t :: t in r.data ==> t.id in tracks && tracks[t.id] == t
    {
      var filtro := BuildFilter(q.area, q.estado);
      var records := Records();
      var found := Where(records, t => Matches(filtro, t));
      WhereIsAdmitted(records, t => Matches(filtro, t), q);
      assert found == Admitted(records, q);
      r := ListFrom(records, q);
    }

    /** `obtenerLineaPorId`: the record under the id, active or retired, or 404. */
    method GetById(id: nat) returns (r: Result<Track, Failure>)
      requires Valid()
      ensures r.Ok? <==> id in tracks
      ensures r.Ok? ==> r.value == tracks[id] && r.value.id == id
      ensures r.Err? ==> r.error == Fail(NotFoundMessage, 404)
    {
      if id in tracks {
        r := Ok(tracks[id]);
      } else {
        r := Err(Fail(NotFoundMessage, 404));
      }
    }

    /** `crearLinea`: the outcome of the checks, and on success one new record under the
        next id. */
    method Create(b: TrackInput, now: int) returns (r: Result<Track, Failure>)
      requires Valid()
      modifies this
      ensures Valid()
      ensures r == CreateOutcome(old(tracks), old(nextId), b, now)
      ensures r.Ok? ==> tracks == old(tracks)[old(nextId) := r.value] && nextId == old(nextId) + 1
      ensures r.Err? ==> tracks == old(tracks) && nextId == old(nextId)
    {
      r := CreateOutcome(tracks, nextId, b, now);
      if r.Ok? {
        CreateKeepsStoreValid(tracks, nextId, b, now);
        tracks := tracks[nextId := r.value];
        nextId := nextId + 1;
      }
    }

    /** `actualizarLinea`: the outcome of the checks, and on success the patched record in
        place of the old one. */
    method Update(id: nat, p: TrackPatch) returns (r: Result<Track, Failure>)
      requires Valid()
      modifies this
      ensures Valid()
      ensures r == UpdateOutcome(old(tracks), id, p)
      ensures r.Ok? ==> tracks == old(tracks)[id := r.value]
      ensures r.Err? ==> tracks == old(tracks)
      ensures nextId == old(nextId)
    {
      r := UpdateOutcome(tracks, id, p);
      if r.Ok? {
        UpdateKeepsStoreValid(tracks, nextId, id, p);
        tracks := tracks[id := r.value];
      }
    }

    /** `eliminarLinea`: a soft delete. The record stays, retired; an unknown id is 404. */
    method Delete(id: nat) returns (r: Result<(), Failure>)
      requires Valid()
      modifies this
      ensures Valid()
      ensures r.Ok? <==> id in old(tracks)
      ensures r.Err? ==> r.error == Fail(NotFoundMessage, 404) && tracks == old(tracks)
      ensures r.Ok? ==> tracks == old(tracks)[id := Retired(old(tracks)[id])]
      ensures nextId == old(nextId)
    {
      if id !in tracks {
        return Err(Fail(NotFoundMessage, 404));
      }
      RetiredValid(tracks[id]);
      SameNameKeepsDistinct(tracks, id, Retired(tracks[id]));
      StoreValidReplace(tracks, nextId, id, Retired(tracks[id]));
      tracks := tracks[id := Retired(tracks[id])];
      r := Ok(());
    }

    /** `buscarLineas`: a term of at least two characters after trimming is matched, as
        given, against the active records, capped by `limite`. */
    method Search(q: Option<string>, limite: Option<int>) returns (r: Result<seq<Track>, Failure>)
      requires Valid()
      ensures r.Err? <==> q.None? || |Text.Trim(q.value)| < 2
      ensures r.Err? ==> r.error == Fail(ShortTermMessage, 400)
      ensures r.Ok? ==> forall t :: t in r.value ==>
        t.estado == Activa && SearchMatch(t, q.value) && t.id in tracks && tracks[t.id] == t
      ensures r.Ok? && SearchCap(limite).Some? ==> |r.value| <= SearchCap(limite).value
      ensures r.Ok? ==> r.value == TakeAtMost(SearchHits(Records(), q.value), SearchCap(limite))
    {
      if q.None? || q.value == "" || |Text.Trim(q.value)| < 2 {
        return Err(Fail(ShortTermMessage, 400));
      }
      var records := Records();
      var found := SearchHits(records, q.value);
      var page := TakeAtMost(found, SearchCap(limite));
      TakeAtMostIn(found, SearchCap(limite));
      forall t | t in page ensures t.estado == Activa && SearchMatch(t, q.value) && t.id in tracks && tracks[t.id] == t {
        assert t in found && t in records;
      }
      r := Ok(page);
    }

    /** `obtenerEstadisticas` without the average: the counts are read off one snapshot, so
        the active and retired counts add up to the total. */
    method Stats() returns (s: Estadisticas)
      requires Valid()
      ensures s.totalLineas == nextId
      ensures s.lineasActivas == |WithEstado(Records(), Activa)|
      ensures s.lineasInactivas == |WithEstado(Records(), Inactiva)|
      ensures s.lineasActivas + s.lineasInactivas == s.totalLineas
      ensures forall a :: a in s.lineasPorArea <==> exists i :: i in tracks && tracks[i].areaConocimiento == a
      ensures forall a :: a in s.lineasPorArea ==>
        a in Areas && s.lineasPorArea[a] >= 1 && s.lineasPorArea[a] == |InArea(Records(), a)|
    {
      var records := Records();
      var activas := WithEstado(records, Activa);
      var inactivas := WithEstado(records, Inactiva);
      EstadosPartition(records);
      var porArea := AreaCounts(records);
      forall a | a in porArea ensures exists i :: i in tracks && tracks[i].areaConocimiento == a {
        var t :| t in records && t.areaConocimiento == a;
        assert t.id in tracks && tracks[t.id] == t;
      }
      forall a | exists i :: i in tracks && tracks[i].areaConocimiento == a ensures a in porArea {
        var i :| i in tracks && tracks[i].areaConocimiento == a;
        assert records[i] == tracks[i];
      }
      s := Estadisticas(|records|, |activas|, |inactivas|, porArea);
    }
  }

  /** The statistics object: `creditosPromedio` is not part of this model. */
  datatype Estadisticas = Estadisticas(
    totalLineas: nat,
    lineasActivas: nat,
    lineasInactivas: nat,
    lineasPorArea: map<string, nat>)

  /** The `$group` by area, folded into an object: one entry per area that occurs, holding
      how many records have it. */
  function AreaCounts(records: seq<Track>): (r: map<string, nat>)
    ensures forall a :: a in r <==> exists t :: t in records && t.areaConocimiento == a
    ensures forall a :: a in r ==> r[a] == |InArea(records, a)| && r[a] >= 1
  {
    var present := set t | t in records :: t.areaConocimiento;
    var r := map a | a in present :: |InArea(records, a)|;
    assert forall a :: a in r ==> r[a] >= 1 by {
      forall a | a in r ensures r[a] >= 1 {
        var t :| t in records && t.areaConocimiento == a;
        assert t in InArea(records, a);
      }
    }
    r
  }
}
