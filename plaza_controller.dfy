/**
 * The position endpoints that add logic of their own to the generic
 * controller: which query `getAll` runs and with which filters, the guard
 * and path choice of `validatePlaza`, and the occupancy percentages of the
 * dashboard.
 */
module PlazaController {
  import opened Wrappers
  import opened Text
  import opened Relational
  import opened Store
  import opened Valores
  import opened BaseController
  import Pagination
  import Numeric
  import Plazas

  const MsgFiltradas := "Plazas filtradas obtenidas exitosamente"
  const MsgConDisponibilidad := "Plazas con disponibilidad obtenidas exitosamente"
  const MsgRequeridos := "IPRESS, grupo ocupacional y total son requeridos"
  const MsgValidos := "Datos válidos"
  const MsgDashboard := "Dashboard de plazas obtenido exitosamente"

  // ---------------------------------------------------------------- getAll

  /** The names `getAll` takes out of the query before `...otherFilters`. */
  const Nombrados: set<string> := {"page", "limit", "redId", "grupoOcupacionalId", "ipressId", "soloDisponibles"}

  /** The names of `otherFilters`. */
  function OtrosFiltros(q: Query): (r: set<string>)
    ensures forall k :: k in r <==> k in q && k !in Nombrados
  {
    set k | k in q && k !in Nombrados
  }

  /** `redId || grupoOcupacionalId || ipressId || soloDisponibles === 'true'`. */
  predicate Buscada(q: Query)
  {
    || Valores.Truthy(Campo(Param(q, "redId")))
    || Valores.Truthy(Campo(Param(q, "grupoOcupacionalId")))
    || Valores.Truthy(Campo(Param(q, "ipressId")))
    || Lee(q, "soloDisponibles") == Some("true")
  }

  /** `soloDisponibles === 'false' || Object.keys(otherFilters).length === 0`. */
  predicate ConVista(q: Query)
  {
    Lee(q, "soloDisponibles") == Some("false") || |OtrosFiltros(q)| == 0
  }

  /** An id filter as it is forwarded: `parseInt(x)` when `x` is given and parses. */
  function IdFiltro(q: Query, k: string): Option<Valor>
  {
    match EnteroDe(Param(q, k))
    case Some(n) => Some(Numero(n))
    case None => None
  }

  /** The sanitized `filters` object; a specialty in the query is not forwarded. */
  function Filtros(q: Query): Plazas.FiltrosPlaza
  {
    Plazas.FiltrosPlaza(if Lee(q, "soloDisponibles") == Some("true") then Some(Booleano(true)) else None,
                        IdFiltro(q, "redId"), IdFiltro(q, "ipressId"), IdFiltro(q, "grupoOcupacionalId"), None)
  }

  /** The query parameters the generic `getAll` of the base controller receives as filters. */
  function FiltrosGenericos(q: Query): (r: Query)
    ensures forall k :: k in r <==> k in q && k != "page" && k != "limit"
  {
    map k | k in q && k != "page" && k != "limit" :: q[k]
  }

  /** Which query answers the request. */
  datatype Ruta = Busqueda(filtros: Plazas.FiltrosPlaza) | ConDisponibilidad | Generica(recibidos: Query)

  function RutaDe(q: Query): Ruta
  {
    if Buscada(q) then Busqueda(Filtros(q))
    else if ConVista(q) then ConDisponibilidad
    else Generica(FiltrosGenericos(q))
  }

  /**
   * `searchPlazas` answers exactly when a red, group or IPRESS id is given
   * (not empty) or `soloDisponibles` is 'true'. Otherwise the view
   * answers exactly when `soloDisponibles` is 'false' or no parameter but
   * those six is given, and the generic `getAll` answers the rest.
   */
  lemma RutaSi(q: Query)
    ensures RutaDe(q).Busqueda? <==>
              || (exists k :: k in q && k in {"redId", "grupoOcupacionalId", "ipressId"} && q[k] != "")
              || Lee(q, "soloDisponibles") == Some("true")
    ensures RutaDe(q).ConDisponibilidad? <==>
              && !RutaDe(q).Busqueda?
              && (Lee(q, "soloDisponibles") == Some("false") || forall k :: k in q ==> k in Nombrados)
    ensures RutaDe(q).Generica? <==>
              && !RutaDe(q).Busqueda?
              && Lee(q, "soloDisponibles") != Some("false") && exists k :: k in q && k !in Nombrados
  {
    var otros := OtrosFiltros(q);
    if |otros| > 0 {
      var k :| k in otros;
    }
    if k :| k in q && k !in Nombrados {
      assert k in otros;
    }
  }

  /**
   * Only ids that parse are forwarded, as integers; `soloDisponibles` only
   * as `true` and only when it is the text 'true'; no specialty.
   */
  lemma FiltrosSaneados(q: Query)
    ensures var f := Filtros(q);
      && (f.soloDisponibles.Some? <==> Lee(q, "soloDisponibles") == Some("true"))
      && (f.soloDisponibles.Some? ==> f.soloDisponibles.value == Booleano(true))
      && f.especialidad.None?
      && forall k :: k in {"redId", "ipressId", "grupoOcupacionalId"} ==>
           (IdFiltro(q, k).Some? <==> k in q && q[k] != "" && ParseInt(q[k]).Some?)
           && (IdFiltro(q, k).Some? ==> IdFiltro(q, k).value == Numero(ParseInt(q[k]).value))
  {
  }

  /** The response of `getAll`, or `None` when it hands the request to the generic `getAll`. */
  function GetAll(t: Tables, q: Query): (r: Option<Respuesta<Pagination.Listado<VistaRow>>>)
    ensures r.None? <==> RutaDe(q).Generica?
    ensures r.Some? ==> r.value.status == 200 && r.value.success && r.value.data.Some?
  {
    match RutaDe(q)
    case Busqueda(f) =>
      Some(SendSuccess(Some(Pagination.Listar(Plazas.SearchPlazas(t, f), Lee(q, "page"), Lee(q, "limit"))),
                       Some(MsgFiltradas), None))
    case ConDisponibilidad =>
      Some(SendSuccess(Some(Pagination.Listar(Plazas.GetPlazasWithAvailability(t), Lee(q, "page"), Lee(q, "limit"))),
                       Some(MsgConDisponibilidad), None))
    case Generica(_) => None
  }

  /** A specialty in the query makes no difference to the filtered listing. */
  lemma GetAllSinEspecialidad(t: Tables, q: Query, e: string)
    requires Buscada(q)
    ensures GetAll(t, q["especialidad" := e]) == GetAll(t, q)
  {
    var q2 := q["especialidad" := e];
    assert Param(q2, "redId") == Param(q, "redId");
    assert Param(q2, "grupoOcupacionalId") == Param(q, "grupoOcupacionalId");
    assert Param(q2, "ipressId") == Param(q, "ipressId");
    assert Lee(q2, "soloDisponibles") == Lee(q, "soloDisponibles");
    assert Lee(q2, "page") == Lee(q, "page") && Lee(q2, "limit") == Lee(q, "limit");
    assert RutaDe(q2) == RutaDe(q);
  }

  /**
   * Every row listed by the search is a view row; with
   * `soloDisponibles=true` it is a position with a free seat, and with a
   * red id that parses to a non-zero integer, a row of the red with that id.
   */
  lemma GetAllFiltra(t: Tables, q: Query, v: VistaRow)
    requires KeysUnique(t) && Buscada(q)
    requires v in Pagination.Filas(GetAll(t, q).value.data.value)
    ensures v in Vista(t)
    ensures Lee(q, "soloDisponibles") == Some("true") ==> FindPlaza(t, v.id).Some? && Libres(t, v.id) > 0
    ensures IdFiltro(q, "redId").Some? && IdFiltro(q, "redId").value.n != 0 ==>
              Plazas.NombreRed(t, IdFiltro(q, "redId").value.n) == Some(v.red)
  {
    var f := Filtros(q);
    var result := Plazas.SearchPlazas(t, f);
    GetAllBusqueda(t, q);
    Pagination.ListarMiembros(result, Lee(q, "page"), Lee(q, "limit"), v);
    BusquedaFiltra(t, q, v);
  }

  /** On the search path, the listing is that of `searchPlazas` with the sanitized filters. */
  lemma GetAllBusqueda(t: Tables, q: Query)
    requires Buscada(q)
    ensures GetAll(t, q).Some?
    ensures GetAll(t, q).value.data.value
            == Pagination.Listar(Plazas.SearchPlazas(t, Filtros(q)), Lee(q, "page"), Lee(q, "limit"))
  {
    assert RutaDe(q) == Busqueda(Filtros(q));
  }

  lemma BusquedaFiltra(t: Tables, q: Query, v: VistaRow)
    requires KeysUnique(t) && v in Plazas.SearchPlazas(t, Filtros(q))
    ensures v in Vista(t)
    ensures Lee(q, "soloDisponibles") == Some("true") ==> FindPlaza(t, v.id).Some? && Libres(t, v.id) > 0
    ensures IdFiltro(q, "redId").Some? && IdFiltro(q, "redId").value.n != 0 ==>
              Plazas.NombreRed(t, IdFiltro(q, "redId").value.n) == Some(v.red)
  {
    var f := Filtros(q);
    assert Plazas.CumplePlaza(t, f, v);
    if Lee(q, "soloDisponibles") == Some("true") {
      VistaLibres(t, v);
    }
    var red := IdFiltro(q, "redId");
    if red.Some? && red.value.n != 0 {
      assert Campo(f.redId) == Numero(red.value.n);
      assert EnteroDe(f.redId) == Some(red.value.n);
    }
  }

  // ---------------------------------------------------------------- validatePlaza

  /**
   * The fields of the body `validatePlaza` reads. The ids are JSON numbers,
   * `None` when absent or `null`; `total` is `None` only when absent
   * (`undefined`), and `Some(Nulo)` when `null`.
   */
  datatype CuerpoPlaza = CuerpoPlaza(id: Option<nat>, ipressId: Option<int>, grupoId: Option<int>,
                                     total: Option<Valor>, especialidad: Option<string>)

  /** A truthy number. */
  predicate Presente(x: Option<int>)
  {
    x.Some? && x.value != 0
  }

  /** The check `validatePlaza` runs: the update check when the body has a truthy id, else the creation check. */
  function Chequeo(t: Tables, b: CuerpoPlaza): Option<string>
  {
    var d := Plazas.DatosPlaza(b.ipressId, b.grupoId, b.especialidad);
    if b.id.Some? && b.id.value != 0 then Plazas.ValidateForUpdate(t, b.id.value, d)
    else Plazas.ValidateForCreation(t, d)
  }

  function ValidatePlaza(t: Tables, b: CuerpoPlaza): Respuesta<Validacion>
  {
    if !Presente(b.ipressId) || !Presente(b.grupoId) || b.total.None? then SendError(MsgRequeridos, None, None)
    else Validado(Chequeo(t, b), MsgValidos)
  }

  /**
   * `validatePlaza` answers 400 exactly when the IPRESS or the group is
   * missing (or 0) or `total` is absent: a `total` of 0 or `null` passes.
   * Otherwise it answers 200 with `valido` true exactly when the check of
   * the chosen path passes, and its message when it does not.
   */
  lemma ValidatePlazaGuarda(t: Tables, b: CuerpoPlaza)
    ensures var r := ValidatePlaza(t, b);
      && (r.status == 400 <==> b.ipressId.None? || b.ipressId == Some(0) || b.grupoId.None? || b.grupoId == Some(0)
                               || b.total.None?)
      && (r.status == 400 ==> r.message == MsgRequeridos && r.data.None?)
      && (r.status != 400 ==>
            && r.status == 200 && r.data.Some?
            && (r.data.value.valido <==> Chequeo(t, b).None?)
            && r.data.value.mensaje == Chequeo(t, b))
      && (b.id.Some? && b.id.value > 0 ==>
            Chequeo(t, b) == Plazas.ValidateForUpdate(t, b.id.value, Plazas.DatosPlaza(b.ipressId, b.grupoId, b.especialidad)))
      && (b.id.None? || b.id == Some(0) ==>
            Chequeo(t, b) == Plazas.ValidateForCreation(t, Plazas.DatosPlaza(b.ipressId, b.grupoId, b.especialidad)))
  {
  }

  /** Data valid for creation stays valid when the body also names a position to update. */
  lemma ValidatePlazaSinIdBasta(t: Tables, b: CuerpoPlaza, id: nat)
    requires b.id.None? && ValidatePlaza(t, b).success && ValidatePlaza(t, b).data.value.valido
    ensures ValidatePlaza(t, b.(id := Some(id))).success && ValidatePlaza(t, b.(id := Some(id))).data.value.valido
  {
    if id != 0 {
      Plazas.CreacionImplicaUpdate(t, id, Plazas.DatosPlaza(b.ipressId, b.grupoId, b.especialidad));
    }
  }

  // ---------------------------------------------------------------- getDashboard

  /** `posiciones > 0 ? Math.round((asignados / posiciones) * 100) : 0`, where a NULL sum is not positive and reads as 0. */
  function Ocupacion(asignados: Option<int>, posiciones: Option<int>): (r: int)
    ensures posiciones.None? || posiciones.value <= 0 ==> r == 0
  {
    if posiciones.Some? && posiciones.value > 0 then Numeric.Porcentaje(asignados.GetOr(0), posiciones.value) else 0
  }

  /** A statistics row with `porcentaje_ocupacion` added. */
  datatype ConOcupacion<T> = ConOcupacion(fila: T, porcentajeOcupacion: int)

  function OcupacionGrupo(g: Plazas.Agregado): ConOcupacion<Plazas.Agregado>
  {
    ConOcupacion(g, Ocupacion(Some(g.totales.asignados), Some(g.totales.posiciones)))
  }

  function PorGrupo(gs: seq<Plazas.Agregado>): (r: seq<ConOcupacion<Plazas.Agregado>>)
    ensures |r| == |gs| && forall i :: 0 <= i < |gs| ==> r[i] == OcupacionGrupo(gs[i])
  {
    if gs == [] then [] else [OcupacionGrupo(gs[0])] + PorGrupo(gs[1..])
  }

  datatype Dashboard = Dashboard(general: ConOcupacion<Plazas.Generales>, porRed: seq<ConOcupacion<Plazas.Agregado>>,
                                 porGrupo: seq<ConOcupacion<Plazas.Agregado>>)

  function GetDashboard(t: Tables): (r: Respuesta<Dashboard>)
    ensures r.status == 200 && r.success && r.message == MsgDashboard && r.data.Some?
    ensures r.data.value.general.fila == Plazas.GetGeneralStats(t)
  {
    var g := Plazas.GetGeneralStats(t);
    SendSuccess(Some(Dashboard(ConOcupacion(g, Ocupacion(g.totalAsignados, g.totalPosiciones)),
                               PorGrupo(Plazas.GetPlazasByRed(t)), PorGrupo(Plazas.GetPlazasByGrupoOcupacional(t)))),
                Some(MsgDashboard), None)
  }

  /** Seats taken add up to no more than the seats, when no position is over-assigned. */
  lemma {:induction false} AsignadosAcotados(vs: seq<VistaRow>)
    requires forall v :: v in vs ==> v.asignados <= v.total
    ensures 0 <= Plazas.TotalesDe(vs).asignados <= Plazas.TotalesDe(vs).posiciones
  {
    if vs != [] {
      assert forall v :: v in vs[1..] ==> v in vs;
      AsignadosAcotados(vs[1..]);
    }
  }

  /** The occupancy of some rows none of which is over-assigned is a percentage. */
  lemma OcupacionAcotada(vs: seq<VistaRow>)
    requires forall v :: v in vs ==> v.asignados <= v.total
    ensures var tot := Plazas.TotalesDe(vs);
      0 <= Ocupacion(Some(tot.asignados), Some(tot.posiciones)) <= 100
  {
    var tot := Plazas.TotalesDe(vs);
    AsignadosAcotados(vs);
    Numeric.PorcentajeRango(tot.asignados, tot.posiciones);
  }

  /** So is the occupancy of every group of a `GROUP BY` over such rows. */
  lemma GruposAcotados(vs: seq<VistaRow>, campo: VistaRow -> string)
    requires forall v :: v in vs ==> v.asignados <= v.total
    ensures var r := PorGrupo(Plazas.Agrupar(vs, campo));
      forall i :: 0 <= i < |r| ==> 0 <= r[i].porcentajeOcupacion <= 100
  {
    var gs := Plazas.Agrupar(vs, campo);
    forall i | 0 <= i < |gs|
      ensures 0 <= OcupacionGrupo(gs[i]).porcentajeOcupacion <= 100
    {
      var filas := Filter(vs, Plazas.DelGrupo(campo, gs[i].nombre));
      OcupacionAcotada(filas);
    }
  }

  /** A group without seats has occupancy 0. */
  lemma GruposSinPosiciones(gs: seq<Plazas.Agregado>)
    ensures var r := PorGrupo(gs);
      forall i :: 0 <= i < |r| && r[i].fila.totales.posiciones <= 0 ==> r[i].porcentajeOcupacion == 0
  {
  }

  /** The general occupancy is that of the view's totals, 0 for an empty view. */
  lemma OcupacionGeneral(t: Tables)
    ensures var g := Plazas.GetGeneralStats(t);
      var tot := Plazas.TotalesDe(Vista(t));
      Ocupacion(g.totalAsignados, g.totalPosiciones)
      == if Vista(t) == [] then 0 else Ocupacion(Some(tot.asignados), Some(tot.posiciones))
  {
  }

  /** The parts of the dashboard. */
  lemma DashboardPartes(t: Tables)
    ensures var d := GetDashboard(t).data.value;
      var g := Plazas.GetGeneralStats(t);
      && d.general.porcentajeOcupacion == Ocupacion(g.totalAsignados, g.totalPosiciones)
      && d.porRed == PorGrupo(Plazas.Agrupar(Vista(t), Plazas.CampoRed))
      && d.porGrupo == PorGrupo(Plazas.Agrupar(Vista(t), Plazas.CampoGrupo))
  {
  }

  /**
   * The occupancy of the whole view is 0 when the view is empty, and, when
   * no position has more seats taken than it has, the occupancy of the
   * view and of each red and group is a percentage from 0 to 100.
   */
  lemma DashboardOcupacion(t: Tables)
    ensures Vista(t) == [] ==> GetDashboard(t).data.value.general.porcentajeOcupacion == 0
    ensures (forall v :: v in Vista(t) ==> v.asignados <= v.total) ==>
              var d := GetDashboard(t).data.value;
              && 0 <= d.general.porcentajeOcupacion <= 100
              && (forall i :: 0 <= i < |d.porRed| ==> 0 <= d.porRed[i].porcentajeOcupacion <= 100)
              && (forall i :: 0 <= i < |d.porGrupo| ==> 0 <= d.porGrupo[i].porcentajeOcupacion <= 100)
  {
    var vs := Vista(t);
    DashboardPartes(t);
    OcupacionGeneral(t);
    if forall v :: v in vs ==> v.asignados <= v.total {
      OcupacionAcotada(vs);
      GruposAcotados(vs, Plazas.CampoRed);
      GruposAcotados(vs, Plazas.CampoGrupo);
    }
  }
}
