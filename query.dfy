/** The query side of src/controllers/lineasController.ts: how `obtenerLineas` turns its
    query parameters into a filter, a sort order, a page window and the pagination metadata,
    and what `buscarLineas` matches. The store's `find`/`sort`/`skip`/`limit`/`countDocuments`
    become the sequence functions below, applied to the records in natural (creation) order. */
module TrackQuery {
  import opened Wrappers
  import opened TrackModel
  import Text

  // ----- filter -----

  /** The `area` query parameter: absent, given once, or given several times (an array). */
  datatype AreaParam = NoArea | OneArea(area: string) | ManyAreas(areas: seq<string>)

  /** The raw query of `GET /lineas`, with the numbers already read as integers. */
  datatype ListQuery = ListQuery(
    area: AreaParam,
    estado: Option<string>,
    pagina: Option<int>,
    limite: Option<int>,
    ordenar: Option<string>)

  /** The filter document handed to the store: `areaConocimiento` is absent, a value or
      `{$in: [...]}`, and `estado` is absent or a value. */
  datatype AreaCond = AnyArea | AreaEquals(value: string) | AreaIn(values: seq<string>)
  datatype Filter = Filter(areaCond: AreaCond, estadoCond: Option<string>)

  /** What the store's `find(filter)` selects. */
  predicate Matches(f: Filter, t: Track) {
    && (match f.areaCond
        case AnyArea => true
        case AreaEquals(a) => t.areaConocimiento == a
        case AreaIn(vs) => t.areaConocimiento in vs)
    && (f.estadoCond.None? || t.estado == f.estadoCond.value)
  }

  /** What the controller promises about the area parameter: a single value selects that area,
      an array selects its members, and an absent or empty (falsy) value selects everything. */
  predicate AdmitsArea(p: AreaParam, t: Track) {
    match p
    case NoArea => true
    case OneArea(a) => a == "" || t.areaConocimiento == a
    case ManyAreas(vs) => t.areaConocimiento in vs
  }

  /** An absent or empty estado selects every state; any other value selects that state. */
  predicate AdmitsEstado(e: Option<string>, t: Track) {
    e.None? || e.value == "" || t.estado == e.value
  }

  /** Lines 15-23: the filter document built field by field. */
  method BuildFilter(area: AreaParam, estado: Option<string>) returns (filtro: Filter)
    ensures forall t :: Matches(filtro, t) <==> AdmitsArea(area, t) && AdmitsEstado(estado, t)
  {
    filtro := Filter(AnyArea, None);
    match area {
      case NoArea =>
      case OneArea(a) =>
        if a != "" {
          filtro := filtro.(areaCond := AreaEquals(a));
        }
      case ManyAreas(vs) =>
        filtro := filtro.(areaCond := AreaIn(vs));
    }
    if estado.Some? && estado.value != "" {
      filtro := filtro.(estadoCond := Some(estado.value));
    }
  }

  /** The records of s that satisfy p, in their order. */
  function Where(s: seq<Track>, p: Track -> bool): (r: seq<Track>)
    ensures |r| <= |s|
    ensures forall t :: t in r <==> t in s && p(t)
    ensures multiset(r) <= multiset(s)
  {
    if s == [] then []
    else
      assert s == [s[0]] + s[1..];
      if p(s[0]) then [s[0]] + Where(s[1..], p)
      else Where(s[1..], p)
  }

  /** Where keeps the order: its result is s with the records failing p taken out, so the
      records it keeps from distinct positions of s stay distinct. */
  lemma {:induction false} WhereOfDistinct(s: seq<Track>, p: Track -> bool)
    requires forall i, j :: 0 <= i < j < |s| ==> s[i] != s[j]
    ensures forall i, j :: 0 <= i < j < |Where(s, p)| ==> Where(s, p)[i] != Where(s, p)[j]
  {
    if s != [] {
      WhereOfDistinct(s[1..], p);
      var w := Where(s[1..], p);
      if p(s[0]) {
        assert forall k :: 0 <= k < |s| - 1 ==> s[1..][k] == s[k + 1];
        assert s[0] !in s[1..];
        assert Where(s, p) == [s[0]] + w;
      }
    }
  }

  /** The records in state e. */
  function WithEstado(s: seq<Track>, e: string): (r: seq<Track>)
    ensures |r| <= |s|
    ensures forall t :: t in r <==> t in s && t.estado == e
  {
    Where(s, (t: Track) => t.estado == e)
  }

  /** The records of area a. */
  function InArea(s: seq<Track>, a: string): (r: seq<Track>)
    ensures |r| <= |s|
    ensures forall t :: t in r <==> t in s && t.areaConocimiento == a
  {
    Where(s, (t: Track) => t.areaConocimiento == a)
  }

  /** Every record is active or retired, so the two states split the records between them. */
  lemma EstadosPartition(s: seq<Track>)
    requires forall t :: t in s ==> t.estado == Activa || t.estado == Inactiva
    ensures |WithEstado(s, Activa)| + |WithEstado(s, Inactiva)| == |s|
  {
    WherePartition(s, (t: Track) => t.estado == Activa, (t: Track) => t.estado == Inactiva);
  }

  /** When p and q never both hold and one of them always holds, the records satisfying them
      add up to all of s. */
  lemma {:induction false} WherePartition(s: seq<Track>, p: Track -> bool, q: Track -> bool)
    requires forall t :: t in s ==> (p(t) <==> !q(t))
    ensures |Where(s, p)| + |Where(s, q)| == |s|
  {
    if s != [] {
      WherePartition(s[1..], p, q);
    }
  }

  // ----- pagination -----

  /** `Math.max(1, pagina)` with pagina defaulting to 1. */
  function ClampPage(pagina: Option<int>): (r: int)
    ensures r >= 1
    ensures pagina.None? ==> r == 1
    ensures pagina.Some? ==> r == if pagina.value < 1 then 1 else pagina.value
  {
    var p := pagina.GetOr(1);
    if p < 1 then 1 else p
  }

  /** `Math.min(50, Math.max(1, limite))` with limite defaulting to 10. */
  function ClampLimit(limite: Option<int>): (r: int)
    ensures 1 <= r <= 50
    ensures limite.None? ==> r == 10
    ensures limite.Some? && 1 <= limite.value <= 50 ==> r == limite.value
    ensures limite.Some? && limite.value < 1 ==> r == 1
    ensures limite.Some? && limite.value > 50 ==> r == 50
  {
    var l := limite.GetOr(10);
    if l < 1 then 1 else if l > 50 then 50 else l
  }

  /** `Math.ceil(total / limite)`. */
  function CeilDiv(total: nat, limite: int): (r: nat)
    requires limite >= 1
    ensures r * limite >= total
    ensures r == 0 || (r - 1) * limite < total
    ensures r == 0 <==> total == 0
  {
    (total + limite - 1) / limite
  }

  /** The `paginacion` object of the response. */
  datatype Paginacion = Paginacion(
    total: nat,
    pagina: int,
    limite: int,
    totalPaginas: nat,
    tieneSiguiente: bool,
    tieneAnterior: bool)

  function PaginationFor(total: nat, pagina: int, limite: int): (m: Paginacion)
    requires pagina >= 1 && limite >= 1
    ensures m.total == total && m.pagina == pagina && m.limite == limite
    ensures m.totalPaginas == CeilDiv(total, limite)
    ensures m.tieneSiguiente <==> pagina < m.totalPaginas
    ensures m.tieneAnterior <==> pagina > 1
  {
    var totalPaginas := CeilDiv(total, limite);
    Paginacion(total, pagina, limite, totalPaginas, pagina < totalPaginas, pagina > 1)
  }

  /** The `skip` of line 28: the records on the pages before this one. Page 1 skips none, and
      the skip plus one page reaches the end of this page. */
  function Skip(pagina: int, limite: int): (n: nat)
    requires pagina >= 1 && limite >= 1
    ensures pagina == 1 ==> n == 0
    ensures n + limite == pagina * limite
  {
    MulMonotone(1, pagina, limite);
    (pagina - 1) * limite
  }

  lemma MulMonotone(a: int, b: int, c: int)
    requires a <= b && c >= 0
    ensures a * c <= b * c
  {
  }

  /** tieneSiguiente says exactly that matching records lie beyond the current page. */
  lemma {:induction false} HasNextIffMoreRecords(total: nat, pagina: int, limite: int)
    requires pagina >= 1 && limite >= 1
    ensures PaginationFor(total, pagina, limite).tieneSiguiente <==> pagina * limite < total
  {
    var r := CeilDiv(total, limite);
    if pagina < r {
      MulMonotone(pagina, r - 1, limite);
    } else {
      MulMonotone(r, pagina, limite);
    }
  }

  /** The page window of `.skip(skip).limit(limite)`. */
  function PageWindow(s: seq<Track>, skip: nat, limite: nat): (r: seq<Track>)
    ensures |r| <= limite
    ensures |r| == if skip >= |s| then 0 else if skip + limite <= |s| then limite else |s| - skip
    ensures forall i :: 0 <= i < |r| ==> r[i] == s[skip + i]
  {
    if skip >= |s| then [] else s[skip..if skip + limite <= |s| then skip + limite else |s|]
  }

  // ----- sort -----

  /** The sort table of lines 31-34; any other `ordenar` leaves the store's natural order. */
  datatype SortKey = ByNombre | ByFechaDesc | ByCreditos | Unsorted

  function SortKeyFor(ordenar: Option<string>): SortKey {
    var o := ordenar.GetOr("nombre");
    if o == "nombre" then ByNombre
    else if o == "fecha" then ByFechaDesc
    else if o == "creditos" then ByCreditos
    else Unsorted
  }

  /** a may come before b under the key: name ascending, creation date descending, credits
      ascending; under no key any order is allowed. */
  predicate Before(k: SortKey, a: Track, b: Track) {
    match k
    case ByNombre => Text.LexLeq(a.nombre, b.nombre)
    case ByFechaDesc => a.fechaCreacion >= b.fechaCreacion
    case ByCreditos => a.creditosRequeridos <= b.creditosRequeridos
    case Unsorted => true
  }

  lemma BeforeTotal(k: SortKey, a: Track, b: Track)
    ensures Before(k, a, b) || Before(k, b, a)
  {
    if k == ByNombre {
      Text.LexLeqTotal(a.nombre, b.nombre);
    }
  }

  lemma BeforeTransitive(k: SortKey, a: Track, b: Track, c: Track)
    requires Before(k, a, b) && Before(k, b, c)
    ensures Before(k, a, c)
  {
    if k == ByNombre {
      Text.LexLeqTransitive(a.nombre, b.nombre, c.nombre);
    }
  }

  predicate Sorted(k: SortKey, s: seq<Track>) {
    forall i :: 0 <= i < |s| - 1 ==> Before(k, s[i], s[i + 1])
  }

  function Insert(k: SortKey, x: Track, s: seq<Track>): (r: seq<Track>)
    ensures multiset(r) == multiset(s) + multiset{x}
    ensures |r| == |s| + 1
    ensures r[0] == x || (s != [] && r[0] == s[0])
  {
    if s == [] || Before(k, x, s[0]) then [x] + s
    else
      assert s == [s[0]] + s[1..];
      [s[0]] + Insert(k, x, s[1..])
  }

  /** The store's sort. The store leaves the order of ties open; the model keeps tied
      records in natural order. */
  function SortBy(k: SortKey, s: seq<Track>): (r: seq<Track>)
    ensures multiset(r) == multiset(s)
    ensures |r| == |s|
  {
    if s == [] then []
    else
      assert s == [s[0]] + s[1..];
      Insert(k, s[0], SortBy(k, s[1..]))
  }

  lemma {:induction false} InsertSorted(k: SortKey, x: Track, s: seq<Track>)
    requires Sorted(k, s)
    ensures Sorted(k, Insert(k, x, s))
  {
    if s != [] && !Before(k, x, s[0]) {
      BeforeTotal(k, x, s[0]);
      InsertSorted(k, x, s[1..]);
      var r := Insert(k, x, s);
      var t := Insert(k, x, s[1..]);
      assert r == [s[0]] + t;
      forall i | 0 <= i < |r| - 1 ensures Before(k, r[i], r[i + 1]) {
        if i > 0 {
          assert r[i] == t[i - 1] && r[i + 1] == t[i];
        }
      }
    }
  }

  /** The sort orders by its key and loses or adds no record. */
  lemma {:induction false} SortBySorted(k: SortKey, s: seq<Track>)
    ensures Sorted(k, SortBy(k, s))
    ensures multiset(SortBy(k, s)) == multiset(s)
  {
    if s != [] {
      SortBySorted(k, s[1..]);
      InsertSorted(k, s[0], SortBy(k, s[1..]));
    }
  }

  /** A sorted sequence is ordered between any two positions, not only neighbouring ones. */
  lemma {:induction false} SortedPairwise(k: SortKey, s: seq<Track>, i: int, j: int)
    requires Sorted(k, s)
    requires 0 <= i < j < |s|
    ensures Before(k, s[i], s[j])
    decreases j - i
  {
    if j > i + 1 {
      SortedPairwise(k, s, i + 1, j);
      BeforeTransitive(k, s[i], s[i + 1], s[j]);
    }
  }

  // ----- the listing -----

  /** A record satisfies both conditions of the query. */
  predicate Admits(q: ListQuery, t: Track) {
    AdmitsArea(q.area, t) && AdmitsEstado(q.estado, t)
  }

  /** The records `find(filtro)` and `countDocuments(filtro)` see, in natural order. */
  function Admitted(records: seq<Track>, q: ListQuery): (r: seq<Track>)
    ensures |r| <= |records|
    ensures forall t :: t in r <==> t in records && Admits(q, t)
  {
    if records == [] then []
    else
      assert records == [records[0]] + records[1..];
      if Admits(q, records[0]) then [records[0]] + Admitted(records[1..], q)
      else Admitted(records[1..], q)
  }

  /** Filtering with any condition that agrees with the query on the records of s selects
      the records the query admits. */
  lemma {:induction false} WhereIsAdmitted(s: seq<Track>, p: Track -> bool, q: ListQuery)
    requires forall t :: t in s ==> p(t) == Admits(q, t)
    ensures Where(s, p) == Admitted(s, q)
  {
    if s != [] {
      assert s == [s[0]] + s[1..];
      WhereIsAdmitted(s[1..], p, q);
    }
  }

  /** A window of a sorted sequence is sorted. */
  lemma WindowSorted(k: SortKey, s: seq<Track>, skip: nat, limite: nat)
    requires Sorted(k, s)
    ensures Sorted(k, PageWindow(s, skip, limite))
  {
    var w := PageWindow(s, skip, limite);
    forall i | 0 <= i < |w| - 1 ensures Before(k, w[i], w[i + 1]) {
      assert w[i] == s[skip + i] && w[i + 1] == s[skip + i + 1];
    }
  }

  /** `obtenerLineas` answered from a snapshot of the store: the matching records, sorted,
      windowed to the page; the pagination metadata counts every matching record. */
  datatype ListPage = ListPage(data: seq<Track>, paginacion: Paginacion, count: nat)

  function ListFrom(records: seq<Track>, q: ListQuery): (r: ListPage)
    ensures r.count == |r.data| <= r.paginacion.limite
    ensures r.paginacion == PaginationFor(|Admitted(records, q)|, ClampPage(q.pagina), ClampLimit(q.limite))
    ensures var skip := Skip(r.paginacion.pagina, r.paginacion.limite);
      |r.data| == if skip >= r.paginacion.total then 0
                  else if skip + r.paginacion.limite <= r.paginacion.total then r.paginacion.limite
                  else r.paginacion.total - skip
    ensures forall t :: t in r.data ==> t in records && Admits(q, t)
    ensures Sorted(SortKeyFor(q.ordenar), r.data)
    ensures r.data == PageWindow(SortBy(SortKeyFor(q.ordenar), Admitted(records, q)),
                                 Skip(ClampPage(q.pagina), ClampLimit(q.limite)), ClampLimit(q.limite))
  {
    var admitted := Admitted(records, q);
    var pagina := ClampPage(q.pagina);
    var limite := ClampLimit(q.limite);
    var k := SortKeyFor(q.ordenar);
    var sorted := SortBy(k, admitted);
    var skip := Skip(pagina, limite);
    var data := PageWindow(sorted, skip, limite);
    SortBySorted(k, admitted);
    WindowSorted(k, sorted, skip, limite);
    WindowOfSortedIn(k, admitted, skip, limite);
    ListPage(data, PaginationFor(|admitted|, pagina, limite), |data|)
  }

  /** Every record of a window of the sorted sequence comes from the unsorted one. */
  lemma WindowOfSortedIn(k: SortKey, s: seq<Track>, skip: nat, limite: nat)
    ensures forall t :: t in PageWindow(SortBy(k, s), skip, limite) ==> t in s
  {
    var sorted := SortBy(k, s);
    var w := PageWindow(sorted, skip, limite);
    forall t | t in w ensures t in s {
      var i :| 0 <= i < |w| && w[i] == t;
      assert sorted[skip + i] == t;
      assert t in multiset(sorted);
    }
  }

  /** The page is in the requested order between any two of its records. */
  lemma ListSorted(records: seq<Track>, q: ListQuery, i: int, j: int)
    requires 0 <= i < j < |ListFrom(records, q).data|
    ensures Before(SortKeyFor(q.ordenar), ListFrom(records, q).data[i], ListFrom(records, q).data[j])
  {
    SortedPairwise(SortKeyFor(q.ordenar), ListFrom(records, q).data, i, j);
  }

  /** The example of the design: 25 matching records, pages of 10. */
  lemma TwentyFiveRecords()
    ensures PaginationFor(25, 1, 10) == Paginacion(25, 1, 10, 3, true, false)
    ensures PaginationFor(25, 3, 10).tieneSiguiente == false
    ensures |PageWindow(seq(25, i => Track(0, "n", "d", "c", "e", "IA", 1, [], Activa, i, 0)), 0, 10)| == 10
    ensures |PageWindow(seq(25, i => Track(0, "n", "d", "c", "e", "IA", 1, [], Activa, i, 0)), 20, 10)| == 5
  {
  }

  // ----- search -----

  /** `buscarLineas`'s disjunction: the term occurs, ignoring case, in the name, description,
      coordinator, area or one of the subjects. */
  predicate SearchMatch(t: Track, q: string) {
    || Text.ContainsIgnoreCase(t.nombre, q)
    || Text.ContainsIgnoreCase(t.descripcion, q)
    || Text.ContainsIgnoreCase(t.coordinador, q)
    || Text.ContainsIgnoreCase(t.areaConocimiento, q)
    || exists m :: m in t.materias && Text.ContainsIgnoreCase(m, q)
  }

  /** The active records the term matches, in natural order. */
  function SearchHits(s: seq<Track>, q: string): (r: seq<Track>)
    ensures forall t :: t in r <==> t in s && t.estado == Activa && SearchMatch(t, q)
  {
    Where(s, (t: Track) => t.estado == Activa && SearchMatch(t, q))
  }

  /** The cap `.limit(parseInt(limite))` puts on the results, limite defaulting to 10: 0 means
      no cap, and a negative n caps at -n. */
  function SearchCap(limite: Option<int>): (r: Option<nat>)
    ensures limite.None? ==> r == Some(10)
    ensures limite.Some? && limite.value > 0 ==> r == Some(limite.value)
    ensures limite.Some? && limite.value == 0 ==> r.None?
    ensures limite.Some? && limite.value < 0 ==> r == Some(-limite.value)
  {
    var l := limite.GetOr(10);
    if l == 0 then None else if l < 0 then Some(-l) else Some(l)
  }

  function TakeAtMost(s: seq<Track>, cap: Option<nat>): (r: seq<Track>)
    ensures cap.Some? ==> |r| <= cap.value
    ensures cap.Some? && cap.value < |s| ==> |r| == cap.value
    ensures |r| <= |s| && r == s[..|r|]
    ensures cap.None? || cap.value >= |s| ==> r == s
  {
    if cap.Some? && cap.value < |s| then s[..cap.value] else s
  }
  /** What the cap keeps is among what it was given. */
  lemma TakeAtMostIn(s: seq<Track>, cap: Option<nat>)
    ensures forall t :: t in TakeAtMost(s, cap) ==> t in s
  {
    var r := TakeAtMost(s, cap);
    forall t | t in r ensures t in s {
      var k :| 0 <= k < |r| && r[k] == t;
      assert s[k] == t;
    }
  }

}
