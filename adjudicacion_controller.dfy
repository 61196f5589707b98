/**
 * The assignment endpoints: the guards in front of the model's transitions,
 * the state overwrite of `updateEstado`, the history report with its manual
 * pagination, and the dashboard rates.
 *
 * Each endpoint is a function from the tables (and the request fields it
 * reads) to the response and the tables it leaves behind.
 */
module AdjudicacionController {
  import opened Wrappers
  import opened Text
  import opened Relational
  import opened Store
  import opened BaseController
  import Pagination
  import Numeric
  import Adjudicaciones
  import AdjudicacionConsultas

  const MsgIdsRequeridos := "Postulante ID y Plaza ID son requeridos"
  const MsgAdjudicada := "Adjudicación realizada exitosamente"
  const MsgErrorAdjudicar := "Error al realizar adjudicación"
  const MsgGrupoRequerido := "Grupo ocupacional ID es requerido"
  const MsgMasivaSufijo := " adjudicaciones masivas procesadas exitosamente"
  const MsgErrorMasiva := "Error al procesar adjudicaciones masivas"
  const MsgEstadoRequerido := "Estado es requerido"
  const MsgEstadoInvalido := "Estado inválido"
  const MsgNoEncontrada := "Adjudicación no encontrada"
  const MsgEstadoActualizado := "Estado de adjudicación actualizado exitosamente"
  const MsgHistorial := "Historial de adjudicaciones obtenido exitosamente"

  /** JavaScript truthiness of a numeric id in the body: present and not 0. */
  predicate Presente(x: Option<nat>)
  {
    x.Some? && x.value != 0
  }

  /** What an endpoint leaves behind: the response, the tables and the next id. */
  datatype Fin<T> = Fin(respuesta: Respuesta<T>, tables: Tables, serial: nat)

  // ---------------------------------------------------------------- adjudicarAutomatico

  /** `POST /adjudicar`: both ids are required; then the model's `adjudicarAutomatico`. */
  function AdjudicarEndpoint(t: Tables, serial: nat, postulanteId: Option<nat>, plazaId: Option<nat>,
                             observaciones: Option<string>, now: Time): (r: Fin<Adjudicacion>)
    ensures r.respuesta.status == 201 <==> Presente(postulanteId) && Presente(plazaId)
                                           && Adjudicaciones.EsValida(t, postulanteId.value, plazaId.value)
    ensures r.respuesta.status != 201 ==> r.respuesta.status == 400 && r.tables == t && r.serial == serial
    ensures !(Presente(postulanteId) && Presente(plazaId)) ==> r.respuesta.message == MsgIdsRequeridos
                                                               && r.respuesta.error.None?
    ensures Presente(postulanteId) && Presente(plazaId) && r.respuesta.status == 201 ==>
              var p := Adjudicaciones.AfterAdjudicar(t, serial, postulanteId.value, plazaId.value, observaciones, now);
              r.tables == p.value.tables && r.respuesta.data == Some(p.value.fila)
    ensures Presente(postulanteId) && Presente(plazaId) && r.respuesta.status == 400 ==>
              r.respuesta.error == Some(Texto(Adjudicaciones.DetallesValidacion(t, postulanteId.value, plazaId.value)))
  {
    if !Presente(postulanteId) || !Presente(plazaId) then Fin(SendError(MsgIdsRequeridos, None, None), t, serial)
    else
      match Adjudicaciones.AfterAdjudicar(t, serial, postulanteId.value, plazaId.value, observaciones, now)
      case Failure(e) =>
        Adjudicaciones.DetallesValidacionOrden(t, postulanteId.value, plazaId.value);
        Fin(SendError(MsgErrorAdjudicar, Some(ErrorObj(e)), Some(400)), t, serial)
      case Success(p) => Fin(SendSuccess(Some(p.fila), Some(MsgAdjudicada), Some(201)), p.tables, p.serial)
  }

  // ---------------------------------------------------------------- procesarAdjudicacionesMasivas

  /** The data of the bulk response: the rows written and how many there are. */
  datatype ResultadoMasivo = ResultadoMasivo(adjudicaciones: seq<Adjudicacion>, total: nat)

  /**
   * `POST /masiva`: the group id is required and `cantidad` defaults to 10;
   * on success the response reports the rows written and their number.
   */
  function MasivaEndpoint(t: Tables, serial: nat, grupoId: Option<nat>, cantidad: Option<int>, now: Time,
                          rechaza: (Id, Id) -> bool): (r: Fin<ResultadoMasivo>)
    ensures r.respuesta.status == 201 <==>
              Presente(grupoId) && Adjudicaciones.PlazasMasiva(t, grupoId.value) != []
    ensures r.respuesta.status != 201 ==> r.respuesta.status == 400 && r.tables == t && r.serial == serial
    ensures !Presente(grupoId) ==> r.respuesta.message == MsgGrupoRequerido
    ensures r.respuesta.status == 201 ==>
              && r.respuesta.data.Some?
              && var d := r.respuesta.data.value;
              && d.total == |d.adjudicaciones|
              && r.respuesta.message == NatToString(d.total) + MsgMasivaSufijo
              && var l := Adjudicaciones.AfterMasiva(t, serial, grupoId.value, cantidad.GetOr(10), now, rechaza).value;
              && d.adjudicaciones == l.filas && r.tables == l.tables && r.serial == l.serial
  {
    if !Presente(grupoId) then Fin(SendError(MsgGrupoRequerido, None, None), t, serial)
    else
      match Adjudicaciones.AfterMasiva(t, serial, grupoId.value, cantidad.GetOr(10), now, rechaza)
      case Failure(e) => Fin(SendError(MsgErrorMasiva, Some(ErrorObj(e)), Some(400)), t, serial)
      case Success(l) =>
        var n := |l.filas|;
        Fin(SendSuccess(Some(ResultadoMasivo(l.filas, n)), Some(NatToString(n) + MsgMasivaSufijo), Some(201)),
            l.tables, l.serial)
  }

  /**
   * The reported total is the number of pairs the loop made, so it is at
   * most `cantidad` (10 by default), the pending candidates of the group and
   * its free positions.
   */
  lemma MasivaTotal(t: Tables, serial: nat, grupoId: Option<nat>, cantidad: Option<int>, now: Time,
                    rechaza: (Id, Id) -> bool)
    requires Presente(grupoId)
    ensures var r := MasivaEndpoint(t, serial, grupoId, cantidad, now, rechaza);
      r.respuesta.status == 201 ==>
        && r.respuesta.data.value.total <= |Adjudicaciones.PlazasMasiva(t, grupoId.value)|
        && r.respuesta.data.value.total
           <= CountWhere(t.postulantes, (p: Postulante) => Adjudicaciones.PendienteDe(t, p, grupoId.value))
        && (cantidad.GetOr(10) >= 0 ==> r.respuesta.data.value.total <= cantidad.GetOr(10))
  {
    var g, c := grupoId.value, cantidad.GetOr(10);
    var r := MasivaEndpoint(t, serial, grupoId, cantidad, now, rechaza);
    if r.respuesta.status == 201 {
      var pares := Adjudicaciones.Emparejar(Adjudicaciones.CandidatosMasiva(t, g, c), Adjudicaciones.PlazasMasiva(t, g),
                                            rechaza);
      Adjudicaciones.MasivaCotas(t, g, c, rechaza);
      Adjudicaciones.AplicarMasivaLongitud(t, serial, pares, now);
    }
  }

  // ---------------------------------------------------------------- updateEstado

  /** The states `updateEstado` accepts; 'ausente' is not among them. */
  const EstadosValidos := ["pendiente", "adjudicado", "desistido", "renuncio"]

  /** The `updateData` object: the new state, the dates it stamps and the remark when one is given. */
  datatype Cambios = Cambios(estado: Estado, fechaDesistimiento: Option<Time>, fechaAdjudicacion: Option<Time>,
                             observaciones: Option<string>)

  /** The checks on `estado` and the `updateData` they let through. */
  function UpdateData(estado: Option<string>, observaciones: Option<string>, now: Time): (r: Result<Cambios, string>)
    ensures estado.None? || estado.value == "" ==> r == Failure(MsgEstadoRequerido)
    ensures estado.Some? && estado.value != "" && estado.value !in EstadosValidos ==> r == Failure(MsgEstadoInvalido)
    ensures r.Success? <==> estado.Some? && estado.value in EstadosValidos
    ensures r.Success? ==> EstadoText(r.value.estado) == estado.value && r.value.estado != Ausente
    ensures r.Success? ==> (r.value.fechaDesistimiento.Some? <==> r.value.estado in {Desistido, Renuncio})
    ensures r.Success? ==> (r.value.fechaAdjudicacion.Some? <==> r.value.estado == Adjudicado)
    ensures r.Success? ==> (r.value.observaciones.Some? <==> observaciones.Some? && observaciones.value != "")
    ensures r.Success? && r.value.observaciones.Some? ==> r.value.observaciones == observaciones
  {
    if estado.None? || estado.value == "" then Failure(MsgEstadoRequerido)
    else if estado.value !in EstadosValidos then Failure(MsgEstadoInvalido)
    else
      var e := ParseEstado(estado.value).value;
      var desistimiento := if e == Desistido || e == Renuncio then Some(now) else None;
      var adjudicacion := if e == Adjudicado then Some(now) else None;
      var obs := if observaciones.Some? && observaciones.value != "" then observaciones else None;
      Success(Cambios(e, desistimiento, adjudicacion, obs))
  }

  /** The SET clause of `model.update(id, updateData)`: only the columns present are overwritten. */
  function Aplicar(c: Cambios): Adjudicacion -> Adjudicacion
  {
    (a: Adjudicacion) => a.(estado := c.estado,
                            fechaDesistimiento := if c.fechaDesistimiento.Some? then c.fechaDesistimiento
                                                  else a.fechaDesistimiento,
                            fechaAdjudicacion := if c.fechaAdjudicacion.Some? then c.fechaAdjudicacion
                                                 else a.fechaAdjudicacion,
                            observaciones := if c.observaciones.Some? then c.observaciones else a.observaciones)
  }

  function ConId(id: Id): Adjudicacion -> bool
  {
    (a: Adjudicacion) => a.id == id
  }

  /** `PUT /:id/estado`: check `estado`, then overwrite the row with that id; 404 when there is none. */
  function UpdateEstado(t: Tables, serial: nat, id: Id, estado: Option<string>, observaciones: Option<string>,
                        now: Time): (r: Fin<Adjudicacion>)
  {
    match UpdateData(estado, observaciones, now)
    case Failure(m) => Fin(SendError(m, None, None), t, serial)
    case Success(c) =>
      match First(t.adjudicaciones, ConId(id))
      case None => Fin(SendError(MsgNoEncontrada, None, Some(404)), t, serial)
      case Some(a) =>
        Fin(SendSuccess(Some(Aplicar(c)(a)), Some(MsgEstadoActualizado), None),
            t.(adjudicaciones := UpdateWhere(t.adjudicaciones, ConId(id), Aplicar(c))), serial)
  }

  /**
   * The outcome of `updateEstado`: 400 for a missing or unknown state, 404
   * without a change when no row has the id, and otherwise 200 with exactly
   * that row rewritten, whatever its previous state and whatever the
   * position's free seats: the new state, today as the withdrawal date for
   * 'desistido' and 'renuncio' or as the assignment date for 'adjudicado',
   * the remark when a non-empty one is given, and every other column kept.
   */
  lemma UpdateEstadoEfecto(t: Tables, serial: nat, id: Id, estado: Option<string>, observaciones: Option<string>, now: Time)
    requires Unique(t.adjudicaciones, (a: Adjudicacion) => a.id)
    ensures var r := UpdateEstado(t, serial, id, estado, observaciones, now);
      && (r.respuesta.status == 400 <==> !(estado.Some? && estado.value in EstadosValidos))
      && (r.respuesta.status == 404 <==> estado.Some? && estado.value in EstadosValidos
                                         && First(t.adjudicaciones, ConId(id)).None?)
      && r.serial == serial
      && (r.respuesta.status != 200 ==> r.tables == t)
      && (r.respuesta.status == 200 ==>
            exists k :: 0 <= k < |t.adjudicaciones| && t.adjudicaciones[k].id == id
                        && r.tables == t.(adjudicaciones := t.adjudicaciones[k := r.respuesta.data.value])
                        && r.respuesta.data.value == t.adjudicaciones[k].(
                             estado := ParseEstado(estado.value).value,
                             fechaDesistimiento := if estado.value in ["desistido", "renuncio"] then Some(now)
                                                   else t.adjudicaciones[k].fechaDesistimiento,
                             fechaAdjudicacion := if estado.value == "adjudicado" then Some(now)
                                                  else t.adjudicaciones[k].fechaAdjudicacion,
                             observaciones := if observaciones.Some? && observaciones.value != "" then observaciones
                                              else t.adjudicaciones[k].observaciones))
  {
    var r := UpdateEstado(t, serial, id, estado, observaciones, now);
    if r.respuesta.status == 200 {
      var c := UpdateData(estado, observaciones, now).value;
      var k := FirstIndex(t.adjudicaciones, id);
      UniqueOnlyMatch(t.adjudicaciones, (a: Adjudicacion) => a.id, k);
      UpdateWhereSingle(t.adjudicaciones, ConId(id), Aplicar(c), k);
      AplicarFila(estado, observaciones, now, t.adjudicaciones[k]);
    }
  }

  /** The row `updateEstado` writes over `a`, column by column. */
  lemma AplicarFila(estado: Option<string>, observaciones: Option<string>, now: Time, a: Adjudicacion)
    requires UpdateData(estado, observaciones, now).Success?
    ensures Aplicar(UpdateData(estado, observaciones, now).value)(a)
            == a.(estado := ParseEstado(estado.value).value,
                  fechaDesistimiento := if estado.value in ["desistido", "renuncio"] then Some(now)
                                        else a.fechaDesistimiento,
                  fechaAdjudicacion := if estado.value == "adjudicado" then Some(now) else a.fechaAdjudicacion,
                  observaciones := if observaciones.Some? && observaciones.value != "" then observaciones
                                   else a.observaciones)
  {
  }

  /** The position of the row `First` finds. */
  lemma FirstIndex(adjs: seq<Adjudicacion>, id: Id) returns (k: nat)
    requires First(adjs, ConId(id)).Some?
    ensures k < |adjs| && adjs[k] == First(adjs, ConId(id)).value && adjs[k].id == id
  {
    k := 0;
    while adjs[k].id != id
      invariant k < |adjs|
      invariant forall j :: 0 <= j < k ==> adjs[j].id != id
      invariant First(adjs[k..], ConId(id)) == First(adjs, ConId(id))
      decreases |adjs| - k
    {
      assert adjs[k..][1..] == adjs[k + 1..];
      k := k + 1;
    }
  }

  /**
   * `updateEstado` performs no lifecycle or capacity check: a renounced row
   * of a position whose only seat is taken can be set back to 'adjudicado',
   * which the model's own validation rejects, and the position then counts
   * more assigned rows than seats.
   */
  lemma UpdateEstadoSinControl()
    ensures var plaza := Plaza(1, 1, 1, "-", None, 1);
      var previa := Adjudicacion(1, 1, Some(1), Adjudicado, Some(0), None, None);
      var renuncia := Adjudicacion(2, 2, Some(1), Renuncio, Some(0), Some(1), None);
      var t := Tables([], [], [Grupo(1, "G")], [plaza], [], [previa, renuncia]);
      var r := UpdateEstado(t, 3, 2, Some("adjudicado"), None, 5);
      && r.respuesta.status == 200
      && Libres(t, 1) == 0
      && Libres(r.tables, 1) == -1
  {
    var plaza := Plaza(1, 1, 1, "-", None, 1);
    var previa := Adjudicacion(1, 1, Some(1), Adjudicado, Some(0), None, None);
    var renuncia := Adjudicacion(2, 2, Some(1), Renuncio, Some(0), Some(1), None);
    var t := Tables([], [], [Grupo(1, "G")], [plaza], [], [previa, renuncia]);
    var r := UpdateEstado(t, 3, 2, Some("adjudicado"), None, 5);
    assert First(t.adjudicaciones, ConId(2)) == Some(renuncia) by {
      assert t.adjudicaciones[1..] == [renuncia];
    }
    var nueva := Aplicar(UpdateData(Some("adjudicado"), None, 5).value)(renuncia);
    assert nueva.estado == Adjudicado && nueva.plazaId == Some(1);
    assert r.tables.adjudicaciones == [previa, nueva];
    assert r.tables.adjudicaciones[1..] == [nueva];
    assert t.adjudicaciones[1..] == [renuncia];
    assert FindPlaza(r.tables, 1) == Some(plaza);
  }

  // ---------------------------------------------------------------- getHistorial

  /**
   * The query of `GET /historial` as validated: the names the controller
   * reads (`fechaInicio`, `fechaFin`, `estado`, `grupoOcupacionalId`, `page`,
   * `limit`) and those the validation schema knows but the controller does
   * not read (`redId`, `fechaDesde`, `fechaHasta`).
   */
  datatype ConsultaHistorial = ConsultaHistorial(fechaInicio: Option<Time>, fechaFin: Option<Time>,
                                                 estado: Option<Estado>, grupoOcupacionalId: Option<Id>,
                                                 redId: Option<Id>, fechaDesde: Option<Time>,
                                                 fechaHasta: Option<Time>, page: Option<string>,
                                                 limit: Option<string>)

  /** `parseInt(page)` with the default 1, and `parseInt(limit)` with the default 50. */
  function PageNum(q: ConsultaHistorial): int
  {
    if q.page.None? then 1 else ParseInt(q.page.value).GetOr(1)
  }

  function LimitNum(q: ConsultaHistorial): int
  {
    if q.limit.None? then 50 else ParseInt(q.limit.value).GetOr(50)
  }

  /** The validation schema: `page` an integer of at least 1 and `limit` one from 1 to 100. */
  predicate ConsultaValida(q: ConsultaHistorial)
  {
    && (q.page.Some? ==> ParseInt(q.page.value).Some? && ParseInt(q.page.value).value >= 1)
    && (q.limit.Some? ==> ParseInt(q.limit.value).Some? && 1 <= ParseInt(q.limit.value).value <= 100)
  }

  /** The filter object the controller builds: `fechaInicio` becomes `fechaDesde`, `fechaFin` becomes `fechaHasta`, and no red id is set. */
  function FiltrosHistorial(q: ConsultaHistorial): (f: AdjudicacionConsultas.FiltrosCompletas)
    ensures f.estado == q.estado && f.grupoId == q.grupoOcupacionalId && f.redId.None?
    ensures f.fechaDesde == q.fechaInicio && f.fechaHasta == q.fechaFin
  {
    AdjudicacionConsultas.FiltrosCompletas(q.estado, None, q.grupoOcupacionalId, q.fechaInicio, q.fechaFin)
  }

  /** `GET /historial`: the full report, sliced to the page. */
  function GetHistorial(t: Tables, q: ConsultaHistorial): (r: Pagination.Paginado<AdjudicacionConsultas.Completa>)
    requires ConsultaValida(q)
    ensures r.page == PageNum(q) >= 1 && 1 <= r.limit == LimitNum(q) <= 100
    ensures r.total == |AdjudicacionConsultas.AdjudicacionesCompletas(t, FiltrosHistorial(q))|
    ensures r.pages == Pagination.CeilDiv(r.total, r.limit)
    ensures |r.data| <= r.limit
  {
    Pagination.Paginar(AdjudicacionConsultas.AdjudicacionesCompletas(t, FiltrosHistorial(q)), PageNum(q), LimitNum(q))
  }

  /** The page holds the report rows from `(page - 1) * limit` on, at most `limit` of them. */
  lemma HistorialPagina(t: Tables, q: ConsultaHistorial)
    requires ConsultaValida(q)
    ensures var todas := AdjudicacionConsultas.AdjudicacionesCompletas(t, FiltrosHistorial(q));
      var r := GetHistorial(t, q);
      Pagination.EsPagina(r, todas)
  {
    var todas := AdjudicacionConsultas.AdjudicacionesCompletas(t, FiltrosHistorial(q));
    var r := GetHistorial(t, q);
    assert r.page >= 1 && r.limit >= 1;
    assert r == Pagination.Paginar(todas, r.page, r.limit);
    Pagination.PaginadoTramo(r, todas);
  }

  /** A history page is empty exactly when it lies past the last page. */
  lemma HistorialVacia(t: Tables, q: ConsultaHistorial)
    requires ConsultaValida(q)
    ensures var r := GetHistorial(t, q);
      r.data == [] <==> r.page > r.pages
  {
    var todas := AdjudicacionConsultas.AdjudicacionesCompletas(t, FiltrosHistorial(q));
    Pagination.PaginaTramo(todas, PageNum(q), LimitNum(q));
  }

  /** Every row of a history page meets the state, group and date filters of the query. */
  lemma HistorialFiltra(t: Tables, q: ConsultaHistorial, c: AdjudicacionConsultas.Completa)
    requires ConsultaValida(q)
    requires c in GetHistorial(t, q).data
    ensures q.estado.Some? ==> c.adj.estado == q.estado.value
    ensures q.grupoOcupacionalId.Some? ==> c.grupo.id == q.grupoOcupacionalId.value
    ensures q.fechaInicio.Some? ==> c.adj.fechaAdjudicacion.Some? && c.adj.fechaAdjudicacion.value >= q.fechaInicio.value
    ensures q.fechaFin.Some? ==> c.adj.fechaAdjudicacion.Some? && c.adj.fechaAdjudicacion.value <= q.fechaFin.value
  {
    var todas := AdjudicacionConsultas.AdjudicacionesCompletas(t, FiltrosHistorial(q));
    assert GetHistorial(t, q) == Pagination.Paginar(todas, PageNum(q), LimitNum(q));
    Pagination.PaginaMiembros(todas, PageNum(q), LimitNum(q), c);
    assert AdjudicacionConsultas.Cumple(FiltrosHistorial(q), c);
  }

  /** `redId`, `fechaDesde` and `fechaHasta` pass validation but have no effect on the history. */
  lemma HistorialIgnora(t: Tables, q: ConsultaHistorial, redId: Option<Id>, desde: Option<Time>, hasta: Option<Time>)
    requires ConsultaValida(q)
    ensures GetHistorial(t, q.(redId := redId, fechaDesde := desde, fechaHasta := hasta)) == GetHistorial(t, q)
  {
  }

  // ---------------------------------------------------------------- getDashboard

  /** A row of the per-red statistics the dashboard receives. */
  datatype EstadisticaRed = EstadisticaRed(red: string, totalAdjudicaciones: nat, adjudicados: nat)

  /** That row with `porcentaje_adjudicado` added. */
  datatype RedConPorcentaje = RedConPorcentaje(fila: EstadisticaRed, porcentajeAdjudicado: nat)

  datatype MetricasClave = MetricasClave(eficienciaAdjudicacion: Option<nat>, tasaDesistimiento: nat, tasaRenuncias: nat)

  datatype Dashboard = Dashboard(general: AdjudicacionConsultas.Estadisticas, porRed: seq<RedConPorcentaje>,
                                 metricasClave: MetricasClave)

  function ConPorcentaje(f: EstadisticaRed): RedConPorcentaje
  {
    RedConPorcentaje(f, Numeric.Porcentaje(f.adjudicados, f.totalAdjudicaciones))
  }

  function PorRed(filas: seq<EstadisticaRed>): (r: seq<RedConPorcentaje>)
    ensures |r| == |filas|
    ensures forall i :: 0 <= i < |filas| ==> r[i].fila == filas[i]
                                              && r[i].porcentajeAdjudicado
                                                 == Numeric.Porcentaje(filas[i].adjudicados, filas[i].totalAdjudicaciones)
  {
    if filas == [] then [] else [ConPorcentaje(filas[0])] + PorRed(filas[1..])
  }

  /** `getDashboard` over the general statistics of `t` and the per-red rows `porRed`. */
  function GetDashboard(t: Tables, porRed: seq<EstadisticaRed>): (d: Dashboard)
    ensures d.general == AdjudicacionConsultas.GetEstadisticas(t)
    ensures d.metricasClave.eficienciaAdjudicacion == d.general.porcentajeAdjudicado
    ensures |d.porRed| == |porRed|
  {
    var g := AdjudicacionConsultas.GetEstadisticas(t);
    Dashboard(g, PorRed(porRed),
              MetricasClave(g.porcentajeAdjudicado,
                            Numeric.Porcentaje(g.desistidos, g.totalAdjudicaciones),
                            Numeric.Porcentaje(g.renuncias, g.totalAdjudicaciones)))
  }

  /**
   * The dashboard rates: both are 0 without assignment rows and percentages
   * of at most 100 otherwise; a red with no rows gets 0, and one whose rows
   * are all assigned gets 100.
   */
  lemma DashboardTasas(t: Tables, porRed: seq<EstadisticaRed>)
    requires forall i :: 0 <= i < |porRed| ==> porRed[i].adjudicados <= porRed[i].totalAdjudicaciones
    ensures var d := GetDashboard(t, porRed);
      && (t.adjudicaciones == [] ==> d.metricasClave.tasaDesistimiento == 0 && d.metricasClave.tasaRenuncias == 0)
      && d.metricasClave.tasaDesistimiento <= 100 && d.metricasClave.tasaRenuncias <= 100
      && forall i :: 0 <= i < |porRed| ==>
           && d.porRed[i].porcentajeAdjudicado <= 100
           && (porRed[i].totalAdjudicaciones == 0 ==> d.porRed[i].porcentajeAdjudicado == 0)
           && (0 < porRed[i].totalAdjudicaciones == porRed[i].adjudicados ==> d.porRed[i].porcentajeAdjudicado == 100)
  {
    var g := AdjudicacionConsultas.GetEstadisticas(t);
    AdjudicacionConsultas.ContarParticion(t.adjudicaciones);
    Numeric.PorcentajeRango(g.desistidos, g.totalAdjudicaciones);
    Numeric.PorcentajeRango(g.renuncias, g.totalAdjudicaciones);
    forall i | 0 <= i < |porRed|
      ensures Numeric.Porcentaje(porRed[i].adjudicados, porRed[i].totalAdjudicaciones) <= 100
      ensures porRed[i].totalAdjudicaciones == 0 ==> Numeric.Porcentaje(porRed[i].adjudicados, porRed[i].totalAdjudicaciones) == 0
      ensures 0 < porRed[i].totalAdjudicaciones == porRed[i].adjudicados ==>
                Numeric.Porcentaje(porRed[i].adjudicados, porRed[i].totalAdjudicaciones) == 100
    {
      Numeric.PorcentajeRango(porRed[i].adjudicados, porRed[i].totalAdjudicaciones);
    }
  }
}
