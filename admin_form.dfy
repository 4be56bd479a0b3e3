/** src/pages/AdminLineas.tsx: the form administrators use to create and edit tracks, its
    ordered validation, the editing of its list of subjects, and the request it submits. */
module AdminForm {
  import opened Wrappers
  import Text
  import Codec
  import opened TrackModel
  import Catalogue

  const NombreMessage := "El nombre es requerido"
  const DescripcionMessage := "La descripción es requerida"
  const CoordinadorMessage := "El coordinador es requerido"
  const EmailMessage := "El email del coordinador debe ser válido"
  const AreaMessage := "El área de conocimiento es requerida"
  const CreditosMessage := "Los créditos requeridos deben ser mayores a 0"

  /** The `formData` state. */
  datatype FormData = FormData(
    nombre: string,
    descripcion: string,
    coordinador: string,
    emailCoordinador: string,
    areaConocimiento: string,
    creditosRequeridos: int,
    materias: seq<string>,
    estado: string)

  /** The track being edited, as far as the form looks at it: its `_id`, which may be
      missing. */
  datatype LineaRef = LineaRef(id: Option<nat>)

  /** The form, the track being edited and whether the form is in edit mode. */
  datatype AdminState = AdminState(formData: FormData, lineaActual: Option<LineaRef>, editando: bool)

  /** The empty form: one blank subject and the active state. */
  const EmptyForm := FormData("", "", "", "", "", 0, [""], Activa)

  /** `limpiarFormulario`: every text field empty, no credits, one blank subject, active, and
      out of editing mode. */
  function LimpiarFormulario(): (s: AdminState)
    ensures s.formData.nombre == "" && s.formData.descripcion == "" && s.formData.coordinador == ""
    ensures s.formData.emailCoordinador == "" && s.formData.areaConocimiento == ""
    ensures s.formData.creditosRequeridos == 0
    ensures s.formData.materias == [""] && s.formData.estado == Activa
    ensures !s.editando && s.lineaActual.None?
  {
    AdminState(EmptyForm, None, false)
  }

  /** `abrirModalEditar(linea)`: the form holds a copy of the track's fields. */
  function AbrirModalEditar(t: Track): (s: AdminState)
    ensures s.editando && s.lineaActual == Some(LineaRef(Some(t.id)))
    ensures s.formData.nombre == t.nombre && s.formData.descripcion == t.descripcion
    ensures s.formData.coordinador == t.coordinador && s.formData.emailCoordinador == t.emailCoordinador
    ensures s.formData.areaConocimiento == t.areaConocimiento && s.formData.creditosRequeridos == t.creditosRequeridos
    ensures s.formData.materias == t.materias && s.formData.estado == t.estado
  {
    AdminState(
      FormData(t.nombre, t.descripcion, t.coordinador, t.emailCoordinador, t.areaConocimiento,
               t.creditosRequeridos, t.materias, t.estado),
      Some(LineaRef(Some(t.id))),
      true)
  }

  // ----- validation -----

  /** `validarFormulario`: the first failing check's message, or None when the form passes.
      The checks in order: name, description and coordinator blank after trimming; e-mail
      blank or without '@'; no area; credits not above 0. */
  function ValidarFormulario(f: FormData): (r: Option<string>)
    ensures Text.Trim(f.nombre) == [] ==> r == Some(NombreMessage)
    ensures Text.Trim(f.nombre) != [] && Text.Trim(f.descripcion) == [] ==> r == Some(DescripcionMessage)
    ensures Text.Trim(f.nombre) != [] && Text.Trim(f.descripcion) != [] && Text.Trim(f.coordinador) == [] ==>
      r == Some(CoordinadorMessage)
    ensures (Text.Trim(f.nombre) != [] && Text.Trim(f.descripcion) != [] && Text.Trim(f.coordinador) != []
             && (Text.Trim(f.emailCoordinador) == [] || '@' !in f.emailCoordinador)) ==> r == Some(EmailMessage)
    ensures r.None? <==>
      && Text.Trim(f.nombre) != [] && Text.Trim(f.descripcion) != [] && Text.Trim(f.coordinador) != []
      && Text.Trim(f.emailCoordinador) != [] && '@' in f.emailCoordinador
      && f.areaConocimiento != "" && f.creditosRequeridos > 0
    ensures (Text.Trim(f.nombre) != [] && Text.Trim(f.descripcion) != [] && Text.Trim(f.coordinador) != []
             && Text.Trim(f.emailCoordinador) != [] && '@' in f.emailCoordinador
             && f.areaConocimiento == "") ==> r == Some(AreaMessage)
    ensures (Text.Trim(f.nombre) != [] && Text.Trim(f.descripcion) != [] && Text.Trim(f.coordinador) != []
             && Text.Trim(f.emailCoordinador) != [] && '@' in f.emailCoordinador
             && f.areaConocimiento != "" && f.creditosRequeridos <= 0) ==> r == Some(CreditosMessage)
    ensures r.Some? && r.value == AreaMessage ==> f.areaConocimiento == ""
    ensures r.Some? && r.value == CreditosMessage ==> f.creditosRequeridos <= 0 && f.areaConocimiento != ""
  {
    if Text.Trim(f.nombre) == [] then Some(NombreMessage)
    else if Text.Trim(f.descripcion) == [] then Some(DescripcionMessage)
    else if Text.Trim(f.coordinador) == [] then Some(CoordinadorMessage)
    else if Text.Trim(f.emailCoordinador) == [] || '@' !in f.emailCoordinador then Some(EmailMessage)
    else if f.areaConocimiento == "" then Some(AreaMessage)
    else if f.creditosRequeridos <= 0 then Some(CreditosMessage)
    else None
  }

  // ----- the list of subjects -----

  /** `agregarMateria`: one blank subject more at the end. */
  function AgregarMateria(ms: seq<string>): (r: seq<string>)
    ensures |r| == |ms| + 1 && r[..|ms|] == ms && r[|ms|] == ""
  {
    ms + [""]
  }

  /** `materias.filter((_, i) => i !== index)`: the entries at every position but `index`. */
  function WithoutIndex(ms: seq<string>, index: int): (r: seq<string>)
    ensures 0 <= index < |ms| ==> r == ms[..index] + ms[index + 1..]
    ensures !(0 <= index < |ms|) ==> r == ms
  {
    if ms == [] then []
    else
      var rest := WithoutIndex(ms[1..], index - 1);
      assert ms == [ms[0]] + ms[1..];
      if index == 0 then rest
      else
        assert 0 < index < |ms| ==> ms[..index] == [ms[0]] + ms[1..][..index - 1];
        [ms[0]] + rest
  }

  /** `eliminarMateria(index)`: only when more than one subject is listed. */
  function EliminarMateria(ms: seq<string>, index: int): (r: seq<string>)
    ensures |ms| > 1 && 0 <= index < |ms| ==> r == ms[..index] + ms[index + 1..]
    ensures |ms| <= 1 || !(0 <= index < |ms|) ==> r == ms
    ensures |ms| >= 1 ==> |r| >= 1
  {
    if |ms| > 1 then WithoutIndex(ms, index) else ms
  }

  /** `handleMateriaChange(index, value)`: the subjects are copied and the entry at the index
      of the field being edited is overwritten. */
  method HandleMateriaChange(materias: seq<string>, index: nat, value: string) returns (r: seq<string>)
    requires index < |materias|
    ensures |r| == |materias| && r[index] == value
    ensures forall j :: 0 <= j < |materias| && j != index ==> r[j] == materias[j]
  {
    var nuevasMaterias := new string[|materias|](j requires 0 <= j < |materias| => materias[j]);
    nuevasMaterias[index] := value;
    r := nuevasMaterias[..];
  }

  /** The form never loses its last subject field: it starts with one, adding and removing
      keep at least one, and editing an entry keeps the length. */
  lemma SubjectListNeverEmpty(ms: seq<string>, index: int)
    requires |ms| >= 1
    ensures |AgregarMateria(ms)| >= 1 && |EliminarMateria(ms, index)| >= 1
    ensures |LimpiarFormulario().formData.materias| == 1
  {
  }

  // ----- other fields -----

  /** The fields `handleInputChange` is wired to. */
  datatype Field = Nombre | Descripcion | Coordinador | EmailCoordinador | AreaConocimiento | CreditosRequeridos | Estado

  /** `parseInt(value) || 0`: NaN and 0 both give 0. */
  function ParseCreditos(value: string): (n: int)
    ensures Codec.ParseIntPrefix(value).None? ==> n == 0
    ensures Codec.ParseIntPrefix(value).Some? ==> n == Codec.ParseIntPrefix(value).value
  {
    Codec.ParseIntPrefix(value).GetOr(0)
  }

  /** Credits typed as a number, possibly followed by other text, read as that number. */
  lemma {:induction false} TypedCreditsRead(n: nat, suffix: string)
    requires suffix == [] || !Codec.IsDigit(suffix[0])
    ensures ParseCreditos(Codec.NatToString(n) + suffix) == n
  {
    Codec.ParseIntPrefixOfNumeral("", "", n, suffix);
    assert "" + "" + Codec.NatToString(n) + suffix == Codec.NatToString(n) + suffix;
  }

  /** `handleInputChange`: the credits are parsed, every other field takes the text verbatim;
      nothing else in the form changes. */
  function HandleInputChange(f: FormData, name: Field, value: string): (r: FormData)
    ensures r.materias == f.materias
    ensures r.creditosRequeridos == if name == CreditosRequeridos then ParseCreditos(value) else f.creditosRequeridos
    ensures r.nombre == if name == Nombre then value else f.nombre
    ensures r.descripcion == if name == Descripcion then value else f.descripcion
    ensures r.coordinador == if name == Coordinador then value else f.coordinador
    ensures r.emailCoordinador == if name == EmailCoordinador then value else f.emailCoordinador
    ensures r.areaConocimiento == if name == AreaConocimiento then value else f.areaConocimiento
    ensures r.estado == if name == Estado then value else f.estado
  {
    match name
    case Nombre => f.(nombre := value)
    case Descripcion => f.(descripcion := value)
    case Coordinador => f.(coordinador := value)
    case EmailCoordinador => f.(emailCoordinador := value)
    case AreaConocimiento => f.(areaConocimiento := value)
    case CreditosRequeridos => f.(creditosRequeridos := ParseCreditos(value))
    case Estado => f.(estado := value)
  }

  /** Text that reads as no number leaves the credits at 0, which validation then refuses. */
  lemma UnreadableCreditsRefused(f: FormData, value: string)
    requires Codec.ParseIntPrefix(value).None?
    ensures ValidarFormulario(HandleInputChange(f, CreditosRequeridos, value)).Some?
  {
  }

  // ----- submit -----

  /** `materias.filter(m => m.trim() !== '')`. */
  function MateriasFiltradas(ms: seq<string>): (r: seq<string>)
    ensures |r| <= |ms|
  {
    if ms == [] then []
    else if Text.Trim(ms[0]) != [] then [ms[0]] + MateriasFiltradas(ms[1..])
    else MateriasFiltradas(ms[1..])
  }

  /** The kept subjects are exactly those that are not blank after trimming. */
  lemma {:induction false} MateriasFiltradasKeeps(ms: seq<string>)
    ensures forall m :: m in MateriasFiltradas(ms) <==> m in ms && Text.Trim(m) != []
  {
    if ms != [] {
      MateriasFiltradasKeeps(ms[1..]);
      assert ms == [ms[0]] + ms[1..];
    }
  }

  /** The filter keeps the order of the subjects it keeps: the kept ones are the non-blank
      subjects, read from left to right. */
  lemma {:induction false} MateriasFiltradasInOrder(a: seq<string>, b: seq<string>)
    ensures MateriasFiltradas(a + b) == MateriasFiltradas(a) + MateriasFiltradas(b)
  {
    if a != [] {
      var ab := a + b;
      assert ab[0] == a[0] && ab[1..] == a[1..] + b;
      MateriasFiltradasInOrder(a[1..], b);
      var rest := MateriasFiltradas(a[1..] + b);
      if Text.Trim(a[0]) != [] {
        assert MateriasFiltradas(ab) == [a[0]] + rest;
        assert MateriasFiltradas(a) == [a[0]] + MateriasFiltradas(a[1..]);
        assert [a[0]] + rest == [a[0]] + MateriasFiltradas(a[1..]) + MateriasFiltradas(b);
      } else {
        assert MateriasFiltradas(ab) == rest;
        assert MateriasFiltradas(a) == MateriasFiltradas(a[1..]);
      }
    } else {
      assert a + b == b;
    }
  }

  /** The request `handleSubmit` sends when validation passes. */
  datatype Request =
    | CreateRequest(body: Catalogue.TrackInput)
    | UpdateRequest(id: nat, patch: Catalogue.TrackPatch)

  /** The form with its blank subjects dropped, as a create body. */
  function CreateBody(f: FormData): Catalogue.TrackInput {
    Catalogue.TrackInput(f.nombre, f.descripcion, f.coordinador, f.emailCoordinador,
                         f.areaConocimiento, f.creditosRequeridos, Some(MateriasFiltradas(f.materias)))
  }

  /** The form with its blank subjects dropped, as an update body: every field is sent. */
  function UpdatePatch(f: FormData): Catalogue.TrackPatch {
    Catalogue.TrackPatch(Some(f.nombre), Some(f.descripcion), Some(f.coordinador), Some(f.emailCoordinador),
                         Some(f.areaConocimiento), Some(f.creditosRequeridos),
                         Some(MateriasFiltradas(f.materias)), Some(f.estado), None)
  }

  /** `handleSubmit`: the validation message, or the request. An update is sent only in edit
      mode for a track with an id; in every other case the form creates. */
  function HandleSubmit(s: AdminState): (r: Result<Request, string>)
    ensures r.Err? <==> ValidarFormulario(s.formData).Some?
    ensures r.Err? ==> r.error == ValidarFormulario(s.formData).value
    ensures r.Ok? && r.value.UpdateRequest? <==>
      r.Ok? && s.editando && s.lineaActual.Some? && s.lineaActual.value.id.Some?
    ensures r.Ok? && r.value.UpdateRequest? ==>
      r.value.id == s.lineaActual.value.id.value && r.value.patch == UpdatePatch(s.formData)
    ensures r.Ok? && r.value.CreateRequest? ==> r.value.body == CreateBody(s.formData)
  {
    match ValidarFormulario(s.formData)
    case Some(message) => Err(message)
    case None =>
      if s.editando && s.lineaActual.Some? && s.lineaActual.value.id.Some? then
        Ok(UpdateRequest(s.lineaActual.value.id.value, UpdatePatch(s.formData)))
      else Ok(CreateRequest(CreateBody(s.formData)))
  }

  /** A form that passes validation never trips the server's missing-field or negative-credit
      checks when it creates; and the subjects the server stores are all non-blank. */
  lemma {:induction false} SubmittedCreatePassesFieldChecks(s: AdminState, id: nat, now: int)
    requires HandleSubmit(s).Ok? && HandleSubmit(s).value.CreateRequest?
    ensures var b := HandleSubmit(s).value.body;
      && !Catalogue.MissingRequired(b) && b.creditosRequeridos > 0
      && forall m :: m in Catalogue.NewTrack(id, b, now).materias ==> m != []
  {
    var f := s.formData;
    var b := CreateBody(f);
    assert b.nombre != "" by {
      assert |Text.Trim(f.nombre)| <= |f.nombre|;
    }
    assert b.descripcion != "" by {
      assert |Text.Trim(f.descripcion)| <= |f.descripcion|;
    }
    assert b.coordinador != "" by {
      assert |Text.Trim(f.coordinador)| <= |f.coordinador|;
    }
    var kept := MateriasFiltradas(f.materias);
    MateriasFiltradasKeeps(f.materias);
    var stored := Catalogue.NewTrack(id, b, now).materias;
    assert stored == Catalogue.TrimAll(kept);
    forall m | m in stored ensures m != [] {
      var k :| 0 <= k < |stored| && stored[k] == m;
      assert kept[k] in kept;
    }
  }

  /** The client's e-mail check is weaker than the server's: "a@b" passes the form but the
      server's pattern refuses it, so such a form reaches the server and comes back with 400. */
  lemma {:induction false} FormEmailWeakerThanServer()
    ensures '@' in "a@b" && Text.Trim("a@b") != []
    ensures !Text.ValidEmail("a@b")
  {
    var s := "a@b";
    assert s[1] == '@';
    assert !Text.AllSpace(s) by {
      assert !Text.IsSpace(s[0]);
    }
  }

  /** Editing a track and submitting it unchanged sends an update for that track, and the
      server's name check does not run on it, since the name is the stored one. */
  lemma {:induction false} UnchangedEditKeepsName(m: map<nat, Track>, t: Track)
    requires t.id in m && m[t.id] == t
    requires HandleSubmit(AbrirModalEditar(t)).Ok?
    ensures HandleSubmit(AbrirModalEditar(t)) == Ok(UpdateRequest(t.id, UpdatePatch(AbrirModalEditar(t).formData)))
    ensures !Catalogue.UpdateNameConflict(m, t.id, UpdatePatch(AbrirModalEditar(t).formData))
  {
  }
}
