/** src/models/LineaProfundizacion.ts: a specialisation track as the store keeps it, and the
    schema's constraints as a validity predicate. */
module TrackModel {
  import Text

  const Activa := "activa"
  const Inactiva := "inactiva"

  /** The closed set of knowledge areas of the schema's enum. */
  const Areas: set<string> := {"Software", "Hardware", "Redes", "IA", "Ciberseguridad", "Datos"}

  /** A stored document. `id` is `_id` (ids are handed out 0, 1, 2, ... in creation order),
      `version` is mongoose's `__v`, `fechaCreacion` a reading of the server clock. */
  datatype Track = Track(
    id: nat,
    nombre: string,
    descripcion: string,
    coordinador: string,
    emailCoordinador: string,
    areaConocimiento: string,
    creditosRequeridos: int,
    materias: seq<string>,
    estado: string,
    fechaCreacion: int,
    version: nat)

  /** The schema: nombre, descripcion, coordinador and emailCoordinador are required (a
      required string may not be empty) and nombre is kept trimmed; the area comes from the
      enum; creditosRequeridos is at least 0; estado is one of the two states. */
  predicate ValidTrack(t: Track) {
    && t.nombre != [] && Text.IsTrimmed(t.nombre)
    && t.descripcion != []
    && t.coordinador != []
    && t.emailCoordinador != []
    && t.areaConocimiento in Areas
    && t.creditosRequeridos >= 0
    && (t.estado == Activa || t.estado == Inactiva)
  }

  /** Soft deletion: only the state changes. */
  function Retired(t: Track): (r: Track)
    ensures r.estado == Inactiva
  {
    t.(estado := Inactiva)
  }

  /** A valid track stays valid when retired, and keeps everything but its state. */
  lemma RetiredValid(t: Track)
    requires ValidTrack(t)
    ensures ValidTrack(Retired(t))
    ensures Retired(t).(estado := t.estado) == t
  {
  }
}
