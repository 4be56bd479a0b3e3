/** src/pages/Lineas.tsx: the catalogue page's filter state, the query it sends, the search
    guard, and the page-number control `renderPaginacion` builds. The server's answers are
    parameters. */
module LineasPage {
  import opened Wrappers
  import Text
  import opened TrackModel
  import opened TrackQuery
  import opened ErrorHandler

  const ShortSearchMessage := "El término de búsqueda debe tener al menos 2 caracteres"
  const SearchErrorMessage := "Error en la búsqueda"
  /** The page size the page asks for, and reports after a search. */
  const PageLimit := 9

  // ----- filters -----

  /** The `filtros` state; every field is always set. */
  datatype Filtros = Filtros(area: string, estado: string, pagina: int, limite: int, ordenar: string)

  /** The state the page starts in and `limpiarFiltros` restores: every area, active tracks,
      first page, nine per page, by name. */
  const DefaultFiltros := Filtros("", Activa, 1, PageLimit, "nombre")

  /** One call of `handleFiltroChange(key, value)`. */
  datatype FilterChange =
    | SetArea(area: string)
    | SetEstado(estado: string)
    | SetPagina(pagina: int)
    | SetLimite(limite: int)
    | SetOrdenar(ordenar: string)

  /** The changed key takes the new value; any key but `pagina` also sends the page back to 1;
      the other filters keep their values. */
  function HandleFiltroChange(f: Filtros, c: FilterChange): (r: Filtros)
    ensures r.area == (if c.SetArea? then c.area else f.area)
    ensures r.estado == (if c.SetEstado? then c.estado else f.estado)
    ensures r.limite == (if c.SetLimite? then c.limite else f.limite)
    ensures r.ordenar == (if c.SetOrdenar? then c.ordenar else f.ordenar)
    ensures r.pagina == (if c.SetPagina? then c.pagina else 1)
  {
    match c
    case SetArea(a) => f.(area := a, pagina := 1)
    case SetEstado(e) => f.(estado := e, pagina := 1)
    case SetPagina(p) => f.(pagina := p)
    case SetLimite(l) => f.(limite := l, pagina := 1)
    case SetOrdenar(o) => f.(ordenar := o, pagina := 1)
  }

  /** The query string `GET /lineas` receives: every filter is sent, the empty area as an
      empty (falsy) value. */
  function QueryOf(f: Filtros): ListQuery {
    ListQuery(OneArea(f.area), Some(f.estado), Some(f.pagina), Some(f.limite), Some(f.ordenar))
  }

  /** After a change of any filter but the page, the server answers the first page: no
      previous page, and the records it sends are the first of the matching ones in the
      requested order. */
  lemma {:induction false} FilterChangeShowsFirstPage(records: seq<Track>, f: Filtros, c: FilterChange)
    requires !c.SetPagina?
    ensures var q := QueryOf(HandleFiltroChange(f, c));
      var page := ListFrom(records, q);
      page.paginacion.pagina == 1 && !page.paginacion.tieneAnterior
      && |page.data| == (if page.paginacion.total <= page.paginacion.limite then page.paginacion.total
                         else page.paginacion.limite)
      && page.data == SortBy(SortKeyFor(q.ordenar), Admitted(records, q))[..|page.data|]
  {
    var r := HandleFiltroChange(f, c);
    assert r.pagina == 1;
    FirstPageListing(records, QueryOf(r));
  }

  /** A query for page 1 is answered with the first records of the listing: as many of the
      matching records, in the requested order, as one page holds. */
  lemma FirstPageListing(records: seq<Track>, q: ListQuery)
    requires q.pagina == Some(1)
    ensures var page := ListFrom(records, q);
      page.paginacion.pagina == 1 && !page.paginacion.tieneAnterior
      && |page.data| == (if page.paginacion.total <= page.paginacion.limite then page.paginacion.total
                         else page.paginacion.limite)
      && page.data == SortBy(SortKeyFor(q.ordenar), Admitted(records, q))[..|page.data|]
  {
    assert ClampPage(q.pagina) == 1;
  }

  /** The "Filtros activos" badge: some filter differs from what `limpiarFiltros` restores
      (the page and the page size do not count). */
  predicate FiltrosActivos(f: Filtros) {
    f.area != "" || f.estado != Activa || f.ordenar != "nombre"
  }

  /** `limpiarFiltros` on the whole page state: the filters, the search term and the error
      are reset. */
  function LimpiarFiltros(s: PageState): (r: PageState)
    ensures r.filtros == DefaultFiltros && r.terminoBusqueda == "" && r.error == ""
    ensures r.lineas == s.lineas && r.paginacion == s.paginacion && r.loading == s.loading
    ensures !FiltrosActivos(r.filtros)
  {
    s.(filtros := DefaultFiltros, terminoBusqueda := "", error := "")
  }

  /** The badge reflects exactly the filters that narrow or reorder the listing: after a
      reset it is off; turning pages never changes it; and with it off the query selects the
      active tracks of every area, by name. */
  lemma {:induction false} FiltrosActivosMeaning(f: Filtros, p: int, t: Track)
    ensures FiltrosActivos(HandleFiltroChange(f, SetPagina(p))) == FiltrosActivos(f)
    ensures !FiltrosActivos(f) ==>
      (Admits(QueryOf(f), t) <==> t.estado == Activa) && SortKeyFor(QueryOf(f).ordenar) == ByNombre
    ensures FiltrosActivos(f) <==> f.(pagina := 1, limite := PageLimit) != DefaultFiltros
  {
  }

  // ----- page state and search -----

  /** The state of the page that the handlers change. */
  datatype PageState = PageState(
    lineas: seq<Track>,
    loading: bool,
    error: string,
    filtros: Filtros,
    paginacion: Paginacion,
    terminoBusqueda: string)

  /** How the search request ended: the server answered with success and its results and
      count, answered without success, or the request failed with a message. */
  datatype SearchReply = Found(data: seq<Track>, count: nat) | Unsuccessful | Failed(message: string)

  /** What the page receives for the server's `buscarLineas` outcome: the results and their
      count, or the message of the error response. */
  function ReplyFor(outcome: Result<seq<Track>, Failure>): (r: SearchReply)
    ensures outcome.Ok? ==> r == Found(outcome.value, |outcome.value|)
    ensures outcome.Err? ==> r == Failed(Normalise(outcome.error).message)
  {
    match outcome
    case Ok(d) => Found(d, |d|)
    case Err(e) => Failed(Handle(e, "production").message)
  }

  /** The pagination the page shows after a search: one page holding all the results. */
  function SearchPagination(count: nat): (p: Paginacion)
    ensures p.total == count && p.pagina == 1 && p.totalPaginas == 1
    ensures !p.tieneSiguiente && !p.tieneAnterior
  {
    Paginacion(count, 1, PageLimit, 1, false, false)
  }

  /** `handleBuscar`: a term shorter than two characters after trimming only sets the error
      and sends nothing; otherwise the reply replaces the list and collapses the pagination to
      one page, or sets the error (the reply's message, or a fixed one when it has none). */
  function HandleBuscar(s: PageState, reply: SearchReply): (r: PageState)
    ensures |Text.Trim(s.terminoBusqueda)| < 2 ==> r == s.(error := ShortSearchMessage)
    ensures |Text.Trim(s.terminoBusqueda)| >= 2 ==>
      && !r.loading && r.filtros == s.filtros && r.terminoBusqueda == s.terminoBusqueda
      && (reply.Found? ==> r.lineas == reply.data && r.paginacion == SearchPagination(reply.count) && r.error == s.error)
      && (reply.Unsuccessful? ==> r == s.(loading := false))
      && (reply.Failed? ==>
            r.lineas == s.lineas && r.paginacion == s.paginacion
            && r.error == (if reply.message != "" then reply.message else SearchErrorMessage))
  {
    if |Text.Trim(s.terminoBusqueda)| < 2 then s.(error := ShortSearchMessage)
    else
      match reply
      case Found(data, count) => s.(lineas := data, paginacion := SearchPagination(count), loading := false)
      case Unsuccessful => s.(loading := false)
      case Failed(message) =>
        s.(error := if message != "" then message else SearchErrorMessage, loading := false)
  }

  /** After a successful search the page shows the results as a single page counting
      exactly them, so no page control is drawn. */
  lemma {:induction false} SearchShowsOnePage(s: PageState, outcome: Result<seq<Track>, Failure>)
    requires |Text.Trim(s.terminoBusqueda)| >= 2 && outcome.Ok?
    ensures var r := HandleBuscar(s, ReplyFor(outcome));
      r.lineas == outcome.value && r.paginacion.total == |r.lineas| && r.paginacion.totalPaginas <= 1
  {
  }

  // ----- the page control -----

  /** One entry of the control: the previous and next buttons with their target page and
      whether they are disabled, a page number marked active or not, or an ellipsis. */
  datatype PageItem =
    | Prev(target: int, disabled: bool)
    | Number(page: int, active: bool)
    | Ellipsis(page: int)
    | Next(target: int, disabled: bool)

  /** A page number is drawn for the first and last page and the pages next to the current. */
  predicate ShowsNumber(p: int, actual: int, total: int) {
    p == 1 || p == total || (actual - 1 <= p && p <= actual + 1)
  }

  /** An ellipsis stands for the page two before or two after the current one when that page
      has no number of its own. */
  predicate ShowsEllipsis(p: int, actual: int, total: int) {
    !ShowsNumber(p, actual, total) && (p == actual - 2 || p == actual + 2)
  }

  /** What one turn of the loop adds for page p. */
  function ItemsFor(p: int, actual: int, total: int): (r: seq<PageItem>)
    ensures |r| <= 1
    ensures forall i :: 0 <= i < |r| ==> (r[i].Number? || r[i].Ellipsis?) && PageOf(r[i]) == p
  {
    if ShowsNumber(p, actual, total) then [Number(p, p == actual)]
    else if ShowsEllipsis(p, actual, total) then [Ellipsis(p)]
    else []
  }

  /** What the loop has added after pages 1 .. k. */
  function NumberItems(actual: int, total: int, k: nat): seq<PageItem> {
    if k == 0 then [] else NumberItems(actual, total, k - 1) + ItemsFor(k, actual, total)
  }

  /** `renderPaginacion`: nothing for one page or none; otherwise the previous button, the
      items of the loop over the pages, and the next button. */
  method RenderPaginacion(pag: Paginacion) returns (r: Option<seq<PageItem>>)
    ensures r.None? <==> pag.totalPaginas <= 1
    ensures r.Some? ==> (r.value ==
      [Prev(pag.pagina - 1, !pag.tieneAnterior)]
      + NumberItems(pag.pagina, pag.totalPaginas, pag.totalPaginas)
      + [Next(pag.pagina + 1, !pag.tieneSiguiente)])
  {
    if pag.totalPaginas <= 1 {
      return None;
    }
    var paginaActual := pag.pagina;
    var totalPaginas := pag.totalPaginas;
    var items := [Prev(paginaActual - 1, !pag.tieneAnterior)];
    var pagina := 1;
    while pagina <= totalPaginas
      invariant 1 <= pagina <= totalPaginas + 1
      invariant items == [Prev(paginaActual - 1, !pag.tieneAnterior)] + NumberItems(paginaActual, totalPaginas, pagina - 1)
    {
      if pagina == 1 || pagina == totalPaginas || (pagina >= paginaActual - 1 && pagina <= paginaActual + 1) {
        items := items + [Number(pagina, pagina == paginaActual)];
      } else if pagina == paginaActual - 2 || pagina == paginaActual + 2 {
        items := items + [Ellipsis(pagina)];
      }
      pagina := pagina + 1;
    }
    items := items + [Next(paginaActual + 1, !pag.tieneSiguiente)];
    r := Some(items);
  }

  /** The page an entry of the loop stands for. */
  function PageOf(item: PageItem): int {
    match item
    case Prev(t, _) => t
    case Number(p, _) => p
    case Ellipsis(p) => p
    case Next(t, _) => t
  }

  /** The loop's entries for pages 1 .. k: numbers and ellipses only, for pages between 1 and k
      in strictly increasing order; a number exactly for the pages ShowsNumber picks, active
      exactly on the current page, and an ellipsis exactly for the pages ShowsEllipsis picks. */
  lemma NumberItemsSpec(actual: int, total: int, k: nat)
    ensures var items := NumberItems(actual, total, k);
      PagesWithin(items, k) && StrictlyIncreasing(items) && MarksUpTo(items, actual, total, k)
  {
    NumberItemsPages(actual, total, k);
    NumberItemsIncreasing(actual, total, k);
    NumberItemsMarks(actual, total, k);
  }

  /** Numbers and ellipses only, for pages between 1 and k. */
  predicate PagesWithin(items: seq<PageItem>, k: int) {
    forall i :: 0 <= i < |items| ==> (items[i].Number? || items[i].Ellipsis?) && 1 <= PageOf(items[i]) <= k
  }

  predicate StrictlyIncreasing(items: seq<PageItem>) {
    forall i, j :: 0 <= i < j < |items| ==> PageOf(items[i]) < PageOf(items[j])
  }

  /** A number exactly for the pages up to k that ShowsNumber picks, active exactly on the
      current page, and an ellipsis exactly for those ShowsEllipsis picks. */
  ghost predicate MarksUpTo(items: seq<PageItem>, actual: int, total: int, k: int) {
    && (forall p, a :: Number(p, a) in items <==> 1 <= p <= k && ShowsNumber(p, actual, total) && a == (p == actual))
    && (forall p :: Ellipsis(p) in items <==> 1 <= p <= k && ShowsEllipsis(p, actual, total))
  }

  lemma {:induction false} NumberItemsPages(actual: int, total: int, k: nat)
    ensures PagesWithin(NumberItems(actual, total, k), k)
  {
    if k > 0 {
      NumberItemsPages(actual, total, k - 1);
      var prev := NumberItems(actual, total, k - 1);
      var last := ItemsFor(k, actual, total);
      var items := NumberItems(actual, total, k);
      assert items == prev + last;
      forall i | 0 <= i < |items| ensures (items[i].Number? || items[i].Ellipsis?) && 1 <= PageOf(items[i]) <= k {
        if i < |prev| {
          assert items[i] == prev[i];
        } else {
          assert items[i] == last[i - |prev|];
        }
      }
    }
  }

  lemma {:induction false} NumberItemsIncreasing(actual: int, total: int, k: nat)
    ensures StrictlyIncreasing(NumberItems(actual, total, k))
  {
    if k > 0 {
      NumberItemsIncreasing(actual, total, k - 1);
      NumberItemsPages(actual, total, k - 1);
      var prev := NumberItems(actual, total, k - 1);
      var last := ItemsFor(k, actual, total);
      var items := NumberItems(actual, total, k);
      assert items == prev + last;
      forall i, j | 0 <= i < j < |items| ensures PageOf(items[i]) < PageOf(items[j]) {
        if j >= |prev| {
          assert items[j] == last[j - |prev|];
          assert i < |prev|;
          assert items[i] == prev[i];
        } else {
          assert items[i] == prev[i] && items[j] == prev[j];
        }
      }
    }
  }

  lemma {:induction false} NumberItemsMarks(actual: int, total: int, k: nat)
    ensures MarksUpTo(NumberItems(actual, total, k), actual, total, k)
  {
    if k > 0 {
      NumberItemsMarks(actual, total, k - 1);
      var prev := NumberItems(actual, total, k - 1);
      var last := ItemsFor(k, actual, total);
      var items := NumberItems(actual, total, k);
      assert items == prev + last;
      forall p, a ensures Number(p, a) in items <==> 1 <= p <= k && ShowsNumber(p, actual, total) && a == (p == actual) {
        assert Number(p, a) in items <==> Number(p, a) in prev || Number(p, a) in last;
      }
      forall p ensures Ellipsis(p) in items <==> 1 <= p <= k && ShowsEllipsis(p, actual, total) {
        assert Ellipsis(p) in items <==> Ellipsis(p) in prev || Ellipsis(p) in last;
      }
    }
  }

  /** The whole control for a listing answer with more than one page: the buttons target the
      neighbouring pages and are disabled exactly on the first and last page; the numbers are
      page 1, the last page and the neighbours of the current page, increasing, with the
      current one active; ellipses stand two pages away from the current one. */
  lemma {:induction false} PageControlForListing(total: nat, pagina: int, limite: int, items: seq<PageItem>)
    requires pagina >= 1 && limite >= 1
    requires var pag := PaginationFor(total, pagina, limite);
      pag.totalPaginas > 1
      && items == [Prev(pag.pagina - 1, !pag.tieneAnterior)]
         + NumberItems(pag.pagina, pag.totalPaginas, pag.totalPaginas)
         + [Next(pag.pagina + 1, !pag.tieneSiguiente)]
    ensures |items| >= 2
    ensures items[0] == Prev(pagina - 1, pagina == 1)
    ensures items[|items| - 1] == Next(pagina + 1, pagina >= CeilDiv(total, limite))
    ensures MarksUpTo(items, pagina, CeilDiv(total, limite), CeilDiv(total, limite))
    ensures StrictlyIncreasing(items[1..|items| - 1])
  {
    var n := CeilDiv(total, limite);
    var pag := PaginationFor(total, pagina, limite);
    assert pag.pagina == pagina && pag.totalPaginas == n;
    var mid := NumberItems(pagina, n, n);
    NumberItemsSpec(pagina, n, n);
    var first := items[0];
    var last := items[|items| - 1];
    assert items == [first] + mid + [last];
    assert items[1..|items| - 1] == mid;
    FramedMarks(first, mid, last);
  }

  /** The buttons around the loop's entries add no number and no ellipsis. */
  lemma FramedMarks(first: PageItem, mid: seq<PageItem>, last: PageItem)
    requires first.Prev? && last.Next?
    ensures forall p, a :: Number(p, a) in [first] + mid + [last] <==> Number(p, a) in mid
    ensures forall p :: Ellipsis(p) in [first] + mid + [last] <==> Ellipsis(p) in mid
  {
    forall p, a ensures Number(p, a) in [first] + mid + [last] <==> Number(p, a) in mid {
      assert Number(p, a) in [first] + mid + [last] <==> Number(p, a) in [first] || Number(p, a) in mid || Number(p, a) in [last];
    }
    forall p ensures Ellipsis(p) in [first] + mid + [last] <==> Ellipsis(p) in mid {
      assert Ellipsis(p) in [first] + mid + [last] <==> Ellipsis(p) in [first] || Ellipsis(p) in mid || Ellipsis(p) in [last];
    }
  }
}
