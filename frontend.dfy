/**
 * The client logic of the Angular root component
 * (`frontend/src/app/app.component.ts`): the state of the assignment modal
 * and the operations that change it (open, filter, clear the filters,
 * select, confirm, close), the per-state buttons and labels, the merit
 * order of the loaded candidates, and the sanitising of the position
 * filters before they are sent. The HTTP calls are not made: their answers
 * are parameters.
 */
module Frontend {
  import opened Wrappers
  import opened Text
  import opened Valores
  import Relational
  import Store

  /** A row of `plazas_con_disponibilidad` as the component reads it. */
  datatype Plaza = Plaza(id: int, red: string, grupoOcupacional: string, ipress: string)

  /** A row of the candidate view as the component reads it; a missing merit order is `None`. */
  datatype Postulante = Postulante(id: int, ordenMerito: Option<int>, apellidosNombres: string, grupoOcupacional: string,
                                   estado: Store.Estado)

  // ---------------------------------------------------------------- buttons and labels

  /** The Adjudicar button is enabled. */
  predicate AdjudicarHabilitado(e: Store.Estado)
  {
    e == Store.Pendiente
  }

  /** The Desistir button is disabled. */
  predicate DesistirDeshabilitado(e: Store.Estado)
  {
    e == Store.Desistido || e == Store.Renuncio
  }

  /** The Renunciar button is enabled. */
  predicate RenunciarHabilitado(e: Store.Estado)
  {
    e == Store.Adjudicado
  }

  /**
   * Adjudicar is offered only to a pending candidate, Renunciar only to an
   * assigned one, and Desistir to everyone who has neither withdrawn nor
   * resigned, absent candidates included.
   */
  lemma BotonesSi(e: Store.Estado)
    ensures AdjudicarHabilitado(e) <==> e.Pendiente?
    ensures !DesistirDeshabilitado(e) <==> e in {Store.Pendiente, Store.Adjudicado, Store.Ausente}
    ensures RenunciarHabilitado(e) <==> e.Adjudicado?
    ensures AdjudicarHabilitado(e) ==> !RenunciarHabilitado(e) && !DesistirDeshabilitado(e)
  {
  }

  /** `getBadgeClass`. */
  function GetBadgeClass(e: Store.Estado): string
  {
    match e
    case Pendiente => "warning"
    case Adjudicado => "success"
    case Desistido => "error"
    case Renuncio => "info"
    case Ausente => "info"
  }

  /** `getEstadoTexto`: 'ausente' has no case of its own and falls to the default. */
  function GetEstadoTexto(e: Store.Estado): string
  {
    match e
    case Pendiente => "Pendiente"
    case Adjudicado => "Adjudicado"
    case Desistido => "Desistido"
    case Renuncio => "Renunció"
    case Ausente => "Desconocido"
  }

  /**
   * The label tells every state apart, an absent candidate reading
   * 'Desconocido'; the badge tells the four listed states apart, and an
   * absent candidate gets the 'info' badge of a resignation.
   */
  lemma EtiquetasSi(a: Store.Estado, b: Store.Estado)
    ensures GetEstadoTexto(a) == GetEstadoTexto(b) ==> a == b
    ensures GetEstadoTexto(Store.Ausente) == "Desconocido"
    ensures a != Store.Ausente && b != Store.Ausente && GetBadgeClass(a) == GetBadgeClass(b) ==> a == b
    ensures GetBadgeClass(Store.Ausente) == GetBadgeClass(Store.Renuncio) == "info"
  {
    var ts := ["Pendiente", "Adjudicado", "Desistido", "Renunció", "Desconocido"];
    assert ts[0][0] != ts[1][0] && ts[0][0] != ts[2][0] && ts[0][0] != ts[3][0] && ts[0][0] != ts[4][0];
    assert ts[1][1] != ts[2][1] && ts[1][0] != ts[3][0] && ts[1][1] != ts[4][1];
    assert ts[2][0] != ts[3][0] && ts[2][3] != ts[4][3] && ts[3][0] != ts[4][0];
    var bs := ["warning", "success", "error", "info"];
    assert bs[0][0] != bs[1][0] && bs[0][0] != bs[2][0] && bs[0][0] != bs[3][0];
    assert bs[1][0] != bs[2][0] && bs[1][0] != bs[3][0] && bs[2][0] != bs[3][0];
  }

  // ---------------------------------------------------------------- merit order

  /** `a.orden_merito || 0`. */
  function Merito(p: Postulante): int
  {
    if p.ordenMerito.Some? then p.ordenMerito.value else 0
  }

  function ClaveMerito(p: Postulante): seq<Relational.Key>
  {
    [Relational.IntKey(Merito(p))]
  }

  /** `.slice().sort((a, b) => (a.orden_merito || 0) - (b.orden_merito || 0))`, a stable sort. */
  function OrdenarPorMerito(xs: seq<Postulante>): seq<Postulante>
  {
    Relational.SortBy(xs, ClaveMerito)
  }

  /**
   * The loaded list holds the same candidates, in ascending merit order,
   * with a missing merit order placed as 0.
   */
  lemma OrdenarPorMeritoSpec(xs: seq<Postulante>)
    ensures multiset(OrdenarPorMerito(xs)) == multiset(xs)
    ensures var r := OrdenarPorMerito(xs);
      forall i, j :: 0 <= i < j < |r| ==> Merito(r[i]) <= Merito(r[j])
  {
    var r := OrdenarPorMerito(xs);
    forall i, j | 0 <= i < j < |r| ensures Merito(r[i]) <= Merito(r[j]) {
      assert Relational.TupleLe(ClaveMerito(r[i]), ClaveMerito(r[j]));
    }
  }

  // ---------------------------------------------------------------- filtrarPlazas

  /** `Number(value)` for the values a filter can hold; `null` reads 0, and text is read as `NumberText` reads it. */
  function NumberDe(v: Valor): Option<int>
  {
    match v
    case Numero(n) => Some(n)
    case Booleano(b) => Some(if b then 1 else 0)
    case Nulo => Some(0)
    case Cadena(s) => NumberText(s)
  }

  /** One filter as `filtrarPlazas` forwards it: only when it is set, not `null`, and a number. */
  function Saneado(f: Option<Valor>): Option<int>
  {
    if f.None? || f.value == Nulo then None else NumberDe(f.value)
  }

  /** The filters sent to the server. */
  datatype Filtros = Filtros(redId: Option<int>, grupoOcupacionalId: Option<int>)

  function SanearFiltros(redId: Option<Valor>, grupoOcupacionalId: Option<Valor>): Filtros
  {
    Filtros(Saneado(redId), Saneado(grupoOcupacionalId))
  }

  /**
   * A filter is forwarded exactly when it is set, is not `null` and reads
   * as a number, and then as that number; an empty text reads as 0.
   */
  lemma SanearFiltrosSi(redId: Option<Valor>, grupoOcupacionalId: Option<Valor>, n: int)
    ensures var f := SanearFiltros(redId, grupoOcupacionalId);
      && (f.redId.Some? <==> redId.Some? && redId.value != Nulo && NumberDe(redId.value).Some?)
      && (f.grupoOcupacionalId.Some? <==>
            grupoOcupacionalId.Some? && grupoOcupacionalId.value != Nulo && NumberDe(grupoOcupacionalId.value).Some?)
      && (f.redId.Some? ==> f.redId == NumberDe(redId.value))
    ensures SanearFiltros(Some(Numero(n)), None) == Filtros(Some(n), None)
    ensures SanearFiltros(Some(Nulo), Some(Cadena(""))) == Filtros(None, Some(0))
    ensures SanearFiltros(Some(Cadena(NatToString(if n < 0 then -n else n))), None).redId == Some(if n < 0 then -n else n)
    ensures SanearFiltros(Some(Cadena("abc")), None).redId.None?
  {
    var m: nat := if n < 0 then -n else n;
    TextoDeNatural(m);
    TextoNoNumerico();
  }

  /** The decimal text of a natural number reads back as that number. */
  lemma TextoDeNatural(m: nat)
    ensures NumberDe(Cadena(NatToString(m))) == Some(m)
  {
    IntToStringLee(m);
    assert IntToString(m) == NatToString(m);
  }

  /** A text that is not a numeral reads as no number. */
  lemma TextoNoNumerico()
    ensures NumberDe(Cadena("abc")).None?
  {
    var abc := "abc";
    assert Trimmed(abc);
    TrimOfTrimmed(abc);
    assert !IsDigit(abc[0]);
  }

  // ---------------------------------------------------------------- the assignment modal

  /** `p` passes the three modal filters: each empty filter passes everything, the others are case-insensitive substrings. */
  predicate Cumple(p: Plaza, red: string, grupo: string, ipress: string)
  {
    && (red == "" || ContainsIgnoringCase(p.red, red))
    && (grupo == "" || ContainsIgnoringCase(p.grupoOcupacional, grupo))
    && (ipress == "" || ContainsIgnoringCase(p.ipress, ipress))
  }

  function Cumplen(red: string, grupo: string, ipress: string): Plaza -> bool
  {
    (p: Plaza) => Cumple(p, red, grupo, ipress)
  }

  function ConId(id: int): Plaza -> bool
  {
    (p: Plaza) => p.id == id
  }

  /**
   * The filtered list keeps, in their order, exactly the positions that
   * pass every non-empty filter, and with no filter it is the whole list.
   */
  lemma FiltroModalSpec(xs: seq<Plaza>, red: string, grupo: string, ipress: string)
    ensures var r := Relational.Filter(xs, Cumplen(red, grupo, ipress));
      && Relational.Subsequence(r, xs)
      && (forall p :: p in r <==> p in xs && Cumple(p, red, grupo, ipress))
    ensures Relational.Filter(xs, Cumplen("", "", "")) == xs
  {
    SinFiltros(xs);
  }

  lemma {:induction false} SinFiltros(xs: seq<Plaza>)
    ensures Relational.Filter(xs, Cumplen("", "", "")) == xs
  {
    if xs != [] {
      SinFiltros(xs[1..]);
      assert xs == [xs[0]] + xs[1..];
    }
  }

  /** A selected position is shown: it has the id of a row of the filtered list. */
  predicate SeleccionVisible(sel: Option<Plaza>, filtradas: seq<Plaza>)
  {
    sel.None? || exists i :: 0 <= i < |filtradas| && filtradas[i].id == sel.value.id
  }

  /**
   * The selection after filtering: kept when `find` meets a row of the same
   * id in the filtered list, dropped otherwise.
   */
  function Reseleccion(sel: Option<Plaza>, filtradas: seq<Plaza>): (r: Option<Plaza>)
    ensures SeleccionVisible(r, filtradas)
    ensures r == (if SeleccionVisible(sel, filtradas) then sel else None)
  {
    if sel.Some? && Relational.First(filtradas, ConId(sel.value.id)).Some? then
      var i :| 0 <= i < |filtradas| && filtradas[i] == Relational.First(filtradas, ConId(sel.value.id)).value;
      assert filtradas[i].id == sel.value.id;
      sel
    else
      None
  }

  /** The request `confirmarAdjudicacion` sends. */
  datatype RequestAdjudicar = RequestAdjudicar(postulanteId: int, plazaId: int, observaciones: string)

  /** What an operation tells the user; `Error` is the red snack bar. */
  datatype Aviso = Ninguno | Error(mensaje: string)

  const MsgSeleccionePlaza := "Debe seleccionar una plaza"

  function MsgNoAdjudicable(e: Store.Estado): string
  {
    "No se puede adjudicar: el postulante ya está en estado \"" + Store.EstadoText(e) + "\""
  }

  function MsgSinPlazas(grupo: string): string
  {
    "No hay plazas disponibles para el grupo ocupacional \"" + grupo + "\""
  }

  function MsgErrorBusqueda(detalle: string): string
  {
    "Error al buscar plazas disponibles: " + detalle
  }

  /** `Adjudicación manual - OM: ${orden_merito} a ${red} - ${ipress}`. */
  function Observaciones(p: Postulante, plaza: Plaza): string
  {
    "Adjudicación manual - OM: " + (if p.ordenMerito.Some? then IntToString(p.ordenMerito.value) else "undefined")
      + " a " + plaza.red + " - " + plaza.ipress
  }

  /** The modal's fields of the component. */
  class Componente {
    var mostrarModalAdjudicacion: bool
    var postulanteSeleccionado: Option<Postulante>
    var plazasDisponibles: seq<Plaza>
    var plazasFiltradasModal: seq<Plaza>
    var plazaSeleccionada: Option<Plaza>
    var filtroModalRed: string
    var filtroModalGrupo: string
    var filtroModalIpress: string

    /** The modal as it starts out and as closing it leaves it. */
    predicate Cerrado()
      reads this
    {
      && !mostrarModalAdjudicacion && postulanteSeleccionado.None?
      && plazasDisponibles == [] && plazasFiltradasModal == [] && plazaSeleccionada.None?
      && filtroModalRed == "" && filtroModalGrupo == "" && filtroModalIpress == ""
    }

    constructor()
      ensures Cerrado()
    {
      mostrarModalAdjudicacion := false;
      postulanteSeleccionado := None;
      plazasDisponibles := [];
      plazasFiltradasModal := [];
      plazaSeleccionada := None;
      filtroModalRed := "";
      filtroModalGrupo := "";
      filtroModalIpress := "";
    }

    /**
     * `adjudicar(postulante)`, with the answer of the request for free
     * positions as `respuesta`: `Success` with the rows of a successful
     * answer (empty when `success` is false or no data came), `Failure` with
     * the text `error.error?.message || error.message` of a failed request.
     * Any state but 'pendiente' is refused with nothing changed; a pending
     * candidate is remembered, and the modal opens, unfiltered and without a
     * selection, only when there are positions.
     */
    method Adjudicar(postulante: Postulante, respuesta: Result<seq<Plaza>, string>) returns (aviso: Aviso)
      modifies this
      ensures aviso.Error? <==> !AdjudicarHabilitado(postulante.estado) || respuesta.Failure? || respuesta.value == []
      ensures !AdjudicarHabilitado(postulante.estado) ==>
        aviso == Error(MsgNoAdjudicable(postulante.estado)) && unchanged(this)
      ensures AdjudicarHabilitado(postulante.estado) ==> postulanteSeleccionado == Some(postulante)
      ensures AdjudicarHabilitado(postulante.estado) && respuesta.Success? && respuesta.value != [] ==>
        && mostrarModalAdjudicacion && plazasDisponibles == respuesta.value && plazasFiltradasModal == respuesta.value
        && plazaSeleccionada.None? && filtroModalRed == "" && filtroModalGrupo == "" && filtroModalIpress == ""
      ensures AdjudicarHabilitado(postulante.estado) && respuesta.Success? && respuesta.value == [] ==>
        aviso == Error(MsgSinPlazas(postulante.grupoOcupacional))
      ensures AdjudicarHabilitado(postulante.estado) && respuesta.Failure? ==>
        aviso == Error(MsgErrorBusqueda(respuesta.error))
      ensures AdjudicarHabilitado(postulante.estado) && (respuesta.Failure? || respuesta.value == []) ==>
        && mostrarModalAdjudicacion == old(mostrarModalAdjudicacion) && plazasDisponibles == old(plazasDisponibles)
        && plazasFiltradasModal == old(plazasFiltradasModal) && plazaSeleccionada == old(plazaSeleccionada)
        && filtroModalRed == old(filtroModalRed) && filtroModalGrupo == old(filtroModalGrupo)
        && filtroModalIpress == old(filtroModalIpress)
    {
      if postulante.estado != Store.Pendiente {
        return Error(MsgNoAdjudicable(postulante.estado));
      }
      postulanteSeleccionado := Some(postulante);
      match respuesta {
        case Failure(detalle) =>
          aviso := Error(MsgErrorBusqueda(detalle));
        case Success(filas) =>
          if filas != [] {
            plazasDisponibles := filas;
            plazasFiltradasModal := filas;
            plazaSeleccionada := None;
            filtroModalRed := "";
            filtroModalGrupo := "";
            filtroModalIpress := "";
            mostrarModalAdjudicacion := true;
            aviso := Ninguno;
          } else {
            aviso := Error(MsgSinPlazas(postulante.grupoOcupacional));
          }
      }
    }

    /** `seleccionarPlaza(plaza)`. */
    method SeleccionarPlaza(plaza: Plaza)
      modifies this
      ensures plazaSeleccionada == Some(plaza)
      ensures mostrarModalAdjudicacion == old(mostrarModalAdjudicacion) && postulanteSeleccionado == old(postulanteSeleccionado)
      ensures plazasDisponibles == old(plazasDisponibles) && plazasFiltradasModal == old(plazasFiltradasModal)
      ensures filtroModalRed == old(filtroModalRed) && filtroModalGrupo == old(filtroModalGrupo)
      ensures filtroModalIpress == old(filtroModalIpress)
    {
      plazaSeleccionada := Some(plaza);
    }

    /**
     * `filtrarPlazasModal()`: the filtered list is recomputed from the free
     * positions, and a selection whose id is no longer listed is dropped,
     * so a remaining selection is always visible.
     */
    method FiltrarPlazasModal()
      modifies this
      ensures plazasFiltradasModal == Relational.Filter(plazasDisponibles, Cumplen(filtroModalRed, filtroModalGrupo, filtroModalIpress))
      ensures plazaSeleccionada == Reseleccion(old(plazaSeleccionada), plazasFiltradasModal)
      ensures mostrarModalAdjudicacion == old(mostrarModalAdjudicacion) && postulanteSeleccionado == old(postulanteSeleccionado)
      ensures plazasDisponibles == old(plazasDisponibles)
      ensures filtroModalRed == old(filtroModalRed) && filtroModalGrupo == old(filtroModalGrupo)
      ensures filtroModalIpress == old(filtroModalIpress)
    {
      var filtradas := Relational.Filter(plazasDisponibles, Cumplen(filtroModalRed, filtroModalGrupo, filtroModalIpress));
      plazaSeleccionada := Reseleccion(plazaSeleccionada, filtradas);
      plazasFiltradasModal := filtradas;
    }

    /** `limpiarFiltrosModal()`: the filters are cleared and the filtered list is every free position again. */
    method LimpiarFiltrosModal()
      modifies this
      ensures filtroModalRed == "" && filtroModalGrupo == "" && filtroModalIpress == ""
      ensures plazasFiltradasModal == plazasDisponibles == old(plazasDisponibles)
      ensures SeleccionVisible(plazaSeleccionada, plazasFiltradasModal)
      ensures old(plazaSeleccionada).Some? && old(plazaSeleccionada).value in old(plazasDisponibles) ==>
        plazaSeleccionada == old(plazaSeleccionada)
      ensures mostrarModalAdjudicacion == old(mostrarModalAdjudicacion) && postulanteSeleccionado == old(postulanteSeleccionado)
    {
      filtroModalRed := "";
      filtroModalGrupo := "";
      filtroModalIpress := "";
      SinFiltros(plazasDisponibles);
      FiltrarPlazasModal();
    }

    /**
     * `confirmarAdjudicacion()`: without a candidate and a position it
     * refuses and sends nothing; otherwise it sends the pair, with the
     * merit order and the position in the remark.
     */
    method ConfirmarAdjudicacion() returns (request: Option<RequestAdjudicar>, aviso: Aviso)
      ensures request.None? <==> postulanteSeleccionado.None? || plazaSeleccionada.None?
      ensures request.None? ==> aviso == Error(MsgSeleccionePlaza)
      ensures request.Some? ==>
        (&& aviso == Ninguno
         && request.value.postulanteId == postulanteSeleccionado.value.id
         && request.value.plazaId == plazaSeleccionada.value.id
         && request.value.observaciones == Observaciones(postulanteSeleccionado.value, plazaSeleccionada.value))
    {
      if postulanteSeleccionado.None? || plazaSeleccionada.None? {
        return None, Error(MsgSeleccionePlaza);
      }
      request := Some(RequestAdjudicar(postulanteSeleccionado.value.id, plazaSeleccionada.value.id,
                                       Observaciones(postulanteSeleccionado.value, plazaSeleccionada.value)));
      aviso := Ninguno;
    }

    /** `cerrarModalAdjudicacion()`: the modal goes back to its initial state. */
    method CerrarModalAdjudicacion()
      modifies this
      ensures Cerrado()
    {
      mostrarModalAdjudicacion := false;
      postulanteSeleccionado := None;
      plazasDisponibles := [];
      plazasFiltradasModal := [];
      plazaSeleccionada := None;
      filtroModalRed := "";
      filtroModalGrupo := "";
      filtroModalIpress := "";
    }
  }
}
