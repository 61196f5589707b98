/**
 * The candidate endpoints that add logic of their own to the generic
 * controller: the filtered or complete listing with in-memory pagination,
 * the merit-range listing and its guard, and the dashboard totals.
 *
 * The rows the `postulantes_con_estado` view yields and the per-group
 * statistics rows are parameters, as the queries that produce them are not
 * part of this model.
 */
module PostulanteController {
  import opened Wrappers
  import opened Text
  import opened Store
  import Relational
  import opened Valores
  import opened BaseController
  import Pagination
  import Numeric
  import Postulantes

  const MsgFiltrados := "Postulantes filtrados obtenidos exitosamente"
  const MsgConEstado := "Postulantes con estado obtenidos exitosamente"
  const MsgRangoRequerido := "Orden de inicio y fin son requeridos"
  const MsgRango := "Postulantes por rango obtenidos exitosamente"
  const MsgErrorRango := "Error al obtener postulantes por rango"
  const MsgDashboard := "Dashboard de postulantes obtenido exitosamente"
  /** What Postgres answers when `parseInt` gave NaN for an integer parameter. */
  const ErrorNaN := "invalid input syntax for type integer: \"NaN\""

  /** The names `getAll` takes out of the query before `...otherFilters`. */
  const Nombrados: set<string> := {"page", "limit", "grupoOcupacionalId", "estado"}

  /** `otherFilters`: every other query parameter, unchanged. */
  function OtrosFiltros(q: Query): (r: map<string, Valor>)
    ensures forall k :: k in r <==> k in q && k !in Nombrados
    ensures forall k :: k in r ==> r[k] == Cadena(q[k])
  {
    map k | k in q && k !in Nombrados :: Cadena(q[k])
  }

  /** `grupoOcupacionalId || estado || Object.keys(otherFilters).length > 0`. */
  predicate Filtrada(q: Query)
  {
    Valores.Truthy(Campo(Param(q, "grupoOcupacionalId"))) || Valores.Truthy(Campo(Param(q, "estado"))) || |OtrosFiltros(q)| > 0
  }

  /**
   * The filtered path is taken exactly when some parameter other than
   * `page` and `limit` is given, where `grupoOcupacionalId` and `estado`
   * count only when they are not empty.
   */
  lemma FiltradaSi(q: Query)
    ensures Filtrada(q) <==>
              exists k :: k in q && k != "page" && k != "limit"
                          && (k == "grupoOcupacionalId" || k == "estado" ==> q[k] != "")
  {
    var otros := OtrosFiltros(q);
    if |otros| > 0 {
      assert otros.Keys != {};
      var k :| k in otros.Keys;
      assert k in q && k !in Nombrados;
    }
    if k :| k in q && k != "page" && k != "limit" && (k == "grupoOcupacionalId" || k == "estado" ==> q[k] != "") {
      if k !in Nombrados {
        assert k in otros.Keys;
        assert |otros.Keys| > 0;
      }
    }
  }

  /**
   * The `filters` object: the group id as the integer `parseInt` reads when
   * it is given and parses, `estado` when it is a non-empty string, and the
   * other parameters as they came.
   */
  function Filtros(q: Query): map<string, Valor>
  {
    var g := EnteroDe(Param(q, "grupoOcupacionalId"));
    var e := TextoDe(Param(q, "estado"));
    var otros := OtrosFiltros(q);
    var conGrupo := if g.Some? then otros["grupoOcupacionalId" := Numero(g.value)] else otros;
    if e.Some? then conGrupo["estado" := Cadena(e.value)] else conGrupo
  }

  /** The sanitation: which parameters reach `searchPostulantes` and as what. */
  lemma FiltrosSaneados(q: Query)
    ensures var f := Filtros(q);
      && "page" !in f && "limit" !in f
      && ("grupoOcupacionalId" in f <==> "grupoOcupacionalId" in q && q["grupoOcupacionalId"] != ""
                                         && ParseInt(q["grupoOcupacionalId"]).Some?)
      && ("grupoOcupacionalId" in f ==> f["grupoOcupacionalId"] == Numero(ParseInt(q["grupoOcupacionalId"]).value))
      && ("estado" in f <==> "estado" in q && q["estado"] != "")
      && ("estado" in f ==> f["estado"] == Cadena(q["estado"]))
      && (forall k :: k in q && k !in Nombrados ==> k in f && f[k] == Cadena(q[k]))
      && (forall k :: k in f ==> k in q)
  {
  }

  /** A value of the filters object, when it has the key. */
  function Get(f: map<string, Valor>, k: string): Option<Valor>
  {
    if k in f then Some(f[k]) else None
  }

  /** The filters `searchPostulantes` reads from the object it is given. */
  function FiltrosBusqueda(f: map<string, Valor>): Postulantes.FiltrosPostulante
  {
    Postulantes.FiltrosPostulante(Get(f, "grupoOcupacionalId"), Get(f, "estado"), Get(f, "nombre"),
                                  Get(f, "dni"), Get(f, "ordenMeritoDesde"), Get(f, "ordenMeritoHasta"))
  }

  /** The filters read straight from the query string, without the controller's sanitation. */
  function FiltrosCrudos(q: Query): Postulantes.FiltrosPostulante
  {
    Postulantes.FiltrosPostulante(Param(q, "grupoOcupacionalId"), Param(q, "estado"), Param(q, "nombre"),
                                  Param(q, "dni"), Param(q, "ordenMeritoDesde"), Param(q, "ordenMeritoHasta"))
  }

  /** The rows of the filtered path, before pagination. */
  function Busqueda(t: Tables, q: Query): seq<Postulantes.FilaPostulante>
  {
    Postulantes.SearchPostulantes(t, FiltrosBusqueda(Filtros(q)))
  }

  /** `getAll`: the search when some filter is given, the view's rows otherwise; paged when asked to. */
  function GetAll(t: Tables, vista: seq<Postulantes.FilaPostulante>, q: Query): (r: Respuesta<Pagination.Listado<Postulantes.FilaPostulante>>)
    ensures r.status == 200 && r.success && r.data.Some?
    ensures r.message == MsgFiltrados || r.message == MsgConEstado
  {
    if Filtrada(q) then
      SendSuccess(Some(Pagination.Listar(Busqueda(t, q), Lee(q, "page"), Lee(q, "limit"))), Some(MsgFiltrados), None)
    else
      SendSuccess(Some(Pagination.Listar(vista, Lee(q, "page"), Lee(q, "limit"))), Some(MsgConEstado), None)
  }

  /**
   * The listing comes from the search exactly when a filter is given, and
   * from the view otherwise; without both `page` and `limit` it is that
   * whole result.
   */
  lemma GetAllRuta(t: Tables, vista: seq<Postulantes.FilaPostulante>, q: Query)
    ensures var r := GetAll(t, vista, q);
      var fuente := if r.message == MsgFiltrados then Busqueda(t, q) else vista;
      && (r.message == MsgFiltrados <==>
            exists k :: k in q && k != "page" && k != "limit"
                        && (k == "grupoOcupacionalId" || k == "estado" ==> q[k] != ""))
      && r.data == Some(Pagination.Listar(fuente, Lee(q, "page"), Lee(q, "limit")))
      && (!Pagination.Dado(Lee(q, "page")) || !Pagination.Dado(Lee(q, "limit")) ==>
            r.data == Some(Pagination.Todo(fuente)))
  {
    FiltradaSi(q);
  }

  /**
   * The sanitation changes nothing the search would have done with the raw
   * parameters, except that a group id reading as 0 is turned into a number
   * the search then ignores as falsy.
   */
  lemma SaneadoEquivale(t: Tables, q: Query)
    requires "grupoOcupacionalId" in q ==> ParseInt(q["grupoOcupacionalId"]) != Some(0)
    ensures Busqueda(t, q) == Postulantes.SearchPostulantes(t, FiltrosCrudos(q))
  {
    var f := FiltrosBusqueda(Filtros(q));
    var c := FiltrosCrudos(q);
    assert EnteroDe(f.grupoOcupacionalId) == EnteroDe(c.grupoOcupacionalId);
    assert TextoDe(f.estado) == TextoDe(c.estado);
    assert f.nombre == c.nombre && f.dni == c.dni;
    assert f.ordenMeritoDesde == c.ordenMeritoDesde && f.ordenMeritoHasta == c.ordenMeritoHasta;
    Postulantes.BusquedaMisma(t, f, c);
  }

  /** `grupoOcupacionalId=0` takes the filtered path, yet filters no group. */
  lemma GrupoCero(t: Tables)
    ensures var q := map["grupoOcupacionalId" := "0"];
      && Filtrada(q)
      && Busqueda(t, q) == Postulantes.SearchPostulantes(t, Postulantes.FiltrosPostulante(None, None, None, None, None, None))
  {
    var q := map["grupoOcupacionalId" := "0"];
    assert ParseInt("0") == Some(0) by {
      ParseIntRoundTrip(0);
      assert IntToString(0) == "0";
    }
    var f := FiltrosBusqueda(Filtros(q));
    var vacios := Postulantes.FiltrosPostulante(None, None, None, None, None, None);
    Postulantes.BusquedaMisma(t, f, vacios);
  }

  /**
   * Every row listed on the filtered path is a joined candidate row that
   * meets the group and estado filters the query gives.
   */
  lemma GetAllFiltra(t: Tables, vista: seq<Postulantes.FilaPostulante>, q: Query, x: Postulantes.FilaPostulante)
    requires Filtrada(q)
    requires var l := GetAll(t, vista, q).data.value;
      if l.Todo? then x in l.filas else x in l.pagina.data
    ensures x.postulante in t.postulantes && Postulantes.Unir(t, x.postulante) == Some(x)
    ensures "grupoOcupacionalId" in q && q["grupoOcupacionalId"] != "" && ParseInt(q["grupoOcupacionalId"]).Some?
            && ParseInt(q["grupoOcupacionalId"]).value != 0
            ==> x.postulante.grupoId == ParseInt(q["grupoOcupacionalId"]).value
    ensures "estado" in q && q["estado"] != ""
            ==> Postulantes.EstadoCoincide(RowFor(t.adjudicaciones, x.postulante.id), q["estado"])
  {
    var l := Pagination.Listar(Busqueda(t, q), Lee(q, "page"), Lee(q, "limit"));
    if l.Pagina? {
      Pagination.PaginaMiembros(Busqueda(t, q), l.pagina.page, l.pagina.limit, x);
    }
    assert x in Busqueda(t, q);
    BusquedaCumple(t, q, x);
  }

  /** A row of the filtered search meets the group and estado filters the query gives. */
  lemma BusquedaCumple(t: Tables, q: Query, x: Postulantes.FilaPostulante)
    requires x in Busqueda(t, q)
    ensures x.postulante in t.postulantes && Postulantes.Unir(t, x.postulante) == Some(x)
    ensures "grupoOcupacionalId" in q && q["grupoOcupacionalId"] != "" && ParseInt(q["grupoOcupacionalId"]).Some?
            && ParseInt(q["grupoOcupacionalId"]).value != 0
            ==> x.postulante.grupoId == ParseInt(q["grupoOcupacionalId"]).value
    ensures "estado" in q && q["estado"] != ""
            ==> Postulantes.EstadoCoincide(RowFor(t.adjudicaciones, x.postulante.id), q["estado"])
  {
    FiltrosSaneados(q);
    var f := FiltrosBusqueda(Filtros(q));
    assert Postulantes.CumpleBusqueda(t, f, x.postulante);
    if "grupoOcupacionalId" in q && q["grupoOcupacionalId"] != "" && ParseInt(q["grupoOcupacionalId"]).Some?
       && ParseInt(q["grupoOcupacionalId"]).value != 0 {
      var g := ParseInt(q["grupoOcupacionalId"]).value;
      assert Campo(f.grupoOcupacionalId) == Numero(g);
      assert EnteroDe(f.grupoOcupacionalId) == Some(g);
    }
    if "estado" in q && q["estado"] != "" {
      assert Campo(f.estado) == Cadena(q["estado"]);
      assert TextoDe(f.estado) == Some(q["estado"]);
    }
  }

  // ---------------------------------------------------------------- getPostulantesByRango

  /** `getPostulantesByRango`: both bounds are required, then the three parameters are read with `parseInt`. */
  function GetPostulantesByRango(t: Tables, grupoOcupacionalId: string, q: Query): Respuesta<seq<Postulantes.FilaPostulante>>
  {
    if !Pagination.Dado(Lee(q, "ordenInicio")) || !Pagination.Dado(Lee(q, "ordenFin")) then
      SendError(MsgRangoRequerido, None, None)
    else
      match (ParseInt(grupoOcupacionalId), ParseInt(q["ordenInicio"]), ParseInt(q["ordenFin"]))
      case (Some(g), Some(i), Some(f)) =>
        SendSuccess(Some(Postulantes.GetPostulantesByRango(t, g, i, f)), Some(MsgRango), None)
      case _ => Fallo(500, MsgErrorRango, ErrorNaN)
  }

  /**
   * A missing or empty bound gives 400 'Orden de inicio y fin son
   * requeridos'; given bounds that parse give the candidates of the group
   * ranked between them; a parameter that does not parse fails with 500.
   */
  lemma RangoGuarda(t: Tables, grupoOcupacionalId: string, q: Query)
    ensures var r := GetPostulantesByRango(t, grupoOcupacionalId, q);
      && (r.status == 400 <==> !Pagination.Dado(Lee(q, "ordenInicio")) || !Pagination.Dado(Lee(q, "ordenFin")))
      && (r.status == 400 ==> r.message == MsgRangoRequerido && !r.success && r.error.None?)
      && (r.success <==> r.status == 200)
      && (r.success ==>
            var g, i, f := ParseInt(grupoOcupacionalId).value, ParseInt(q["ordenInicio"]).value, ParseInt(q["ordenFin"]).value;
            forall x :: x in r.data.value <==> x.postulante in t.postulantes && x.postulante.grupoId == g
                                               && i <= x.postulante.ordenMerito <= f
                                               && Postulantes.Unir(t, x.postulante) == Some(x))
      && (r.status == 500 <==>
            && Pagination.Dado(Lee(q, "ordenInicio")) && Pagination.Dado(Lee(q, "ordenFin"))
            && (ParseInt(grupoOcupacionalId).None? || ParseInt(q["ordenInicio"]).None? || ParseInt(q["ordenFin"]).None?))
  {
  }

  // ---------------------------------------------------------------- getDashboard

  /** A row of `getEstadisticasByGrupo`: Postgres hands the counts over as text. */
  datatype EstadisticaGrupo = EstadisticaGrupo(grupoOcupacional: string, totalPostulantes: string, pendientes: string,
                                               adjudicados: string, desistidos: string, renuncias: string)

  datatype Totales = Totales(totalPostulantes: int, pendientes: int, adjudicados: int, desistidos: int, renuncias: int)

  /** `parseInt(x) || 0`. */
  function Cuenta(s: string): int
  {
    Pagination.IntOr(s, 0)
  }

  function Sumar(a: Totales, b: Totales): Totales
  {
    Totales(a.totalPostulantes + b.totalPostulantes, a.pendientes + b.pendientes, a.adjudicados + b.adjudicados,
            a.desistidos + b.desistidos, a.renuncias + b.renuncias)
  }

  /** The counts of one row as the accumulator adds them. */
  function Cuentas(g: EstadisticaGrupo): Totales
  {
    Totales(Cuenta(g.totalPostulantes), Cuenta(g.pendientes), Cuenta(g.adjudicados), Cuenta(g.desistidos),
            Cuenta(g.renuncias))
  }

  const Cero := Totales(0, 0, 0, 0, 0)

  /** The `reduce` over the rows, first row first. */
  function Acumular(filas: seq<EstadisticaGrupo>): Totales
  {
    if filas == [] then Cero else Sumar(Acumular(filas[..|filas| - 1]), Cuentas(filas[|filas| - 1]))
  }

  /** The totals of two runs of rows add up, so the order of the rows does not matter. */
  lemma {:induction false} AcumularConcat(a: seq<EstadisticaGrupo>, b: seq<EstadisticaGrupo>)
    ensures Acumular(a + b) == Sumar(Acumular(a), Acumular(b))
    decreases |b|
  {
    if b == [] {
      assert a + b == a;
    } else {
      var c, u := b[..|b| - 1], b[|b| - 1];
      assert (a + b)[..|a + b| - 1] == a + c;
      assert (a + b)[|a + b| - 1] == u;
      assert Acumular(a + b) == Sumar(Acumular(a + c), Cuentas(u));
      assert Acumular(b) == Sumar(Acumular(c), Cuentas(u));
      AcumularConcat(a, c);
      SumarAsocia(Acumular(a), Acumular(c), Cuentas(u));
    }
  }

  lemma SumarAsocia(x: Totales, y: Totales, z: Totales)
    ensures Sumar(Sumar(x, y), z) == Sumar(x, Sumar(y, z))
  {
  }

  lemma AcumularConmuta(a: seq<EstadisticaGrupo>, b: seq<EstadisticaGrupo>)
    ensures Acumular(a + b) == Acumular(b + a)
  {
    AcumularConcat(a, b);
    AcumularConcat(b, a);
  }

  /** A row whose counts are all NaN or 0 adds nothing to the totals. */
  lemma AcumularNoNumerica(filas: seq<EstadisticaGrupo>, g: EstadisticaGrupo)
    requires forall s :: s in [g.totalPostulantes, g.pendientes, g.adjudicados, g.desistidos, g.renuncias] ==>
                           ParseInt(s).None? || ParseInt(s) == Some(0)
    ensures Acumular(filas + [g]) == Acumular(filas)
  {
    assert (filas + [g])[..|filas + [g]| - 1] == filas;
    assert g.totalPostulantes in [g.totalPostulantes, g.pendientes, g.adjudicados, g.desistidos, g.renuncias];
    assert g.pendientes in [g.totalPostulantes, g.pendientes, g.adjudicados, g.desistidos, g.renuncias];
    assert g.adjudicados in [g.totalPostulantes, g.pendientes, g.adjudicados, g.desistidos, g.renuncias];
    assert g.desistidos in [g.totalPostulantes, g.pendientes, g.adjudicados, g.desistidos, g.renuncias];
    assert g.renuncias in [g.totalPostulantes, g.pendientes, g.adjudicados, g.desistidos, g.renuncias];
  }

  /** The row counts summed from the first row on, as a sum is written. */
  function Suma(filas: seq<EstadisticaGrupo>): Totales
  {
    if filas == [] then Cero else Sumar(Cuentas(filas[0]), Suma(filas[1..]))
  }

  /** The accumulator ends holding, field by field, the sum of the rows' counts. */
  lemma {:induction false} AcumularSuma(filas: seq<EstadisticaGrupo>)
    ensures Acumular(filas) == Suma(filas)
    decreases |filas|
  {
    if filas != [] {
      var previas, u := filas[..|filas| - 1], filas[|filas| - 1];
      AcumularSuma(previas);
      Relational.Snoc(filas);
      SumaConcat(previas, [u]);
      assert Suma([u]) == Cuentas(u) by {
        assert [u][1..] == [];
      }
    }
  }

  /** The sums of two runs of rows add up. */
  lemma {:induction false} SumaConcat(a: seq<EstadisticaGrupo>, b: seq<EstadisticaGrupo>)
    ensures Suma(a + b) == Sumar(Suma(a), Suma(b))
    decreases |a|
  {
    if a == [] {
      assert a + b == b;
    } else {
      assert (a + b)[0] == a[0];
      assert (a + b)[1..] == a[1..] + b;
      SumaConcat(a[1..], b);
      SumarAsocia(Cuentas(a[0]), Suma(a[1..]), Suma(b));
    }
  }

  datatype TotalesDashboard = TotalesDashboard(sumas: Totales, porcentajeAdjudicados: int, porcentajePendientes: int)

  /** A statistics row with `porcentaje_adjudicados` added. */
  datatype GrupoConPorcentaje = GrupoConPorcentaje(fila: EstadisticaGrupo, porcentajeAdjudicados: int)

  datatype Dashboard = Dashboard(totales: TotalesDashboard, porGrupo: seq<GrupoConPorcentaje>)

  function ConPorcentaje(g: EstadisticaGrupo): GrupoConPorcentaje
  {
    GrupoConPorcentaje(g, Numeric.Porcentaje(Cuenta(g.adjudicados), Cuenta(g.totalPostulantes)))
  }

  function PorGrupo(filas: seq<EstadisticaGrupo>): (r: seq<GrupoConPorcentaje>)
    ensures |r| == |filas|
    ensures forall i :: 0 <= i < |filas| ==> r[i] == ConPorcentaje(filas[i])
  {
    if filas == [] then [] else [ConPorcentaje(filas[0])] + PorGrupo(filas[1..])
  }

  /** `getDashboard` over the per-group statistics rows. */
  function GetDashboard(filas: seq<EstadisticaGrupo>): (r: Respuesta<Dashboard>)
    ensures r.status == 200 && r.success && r.message == MsgDashboard
    ensures r.data.Some? && r.data.value.totales.sumas == Acumular(filas) && |r.data.value.porGrupo| == |filas|
  {
    var s := Acumular(filas);
    var totales := TotalesDashboard(s, Numeric.Porcentaje(s.adjudicados, s.totalPostulantes),
                                    Numeric.Porcentaje(s.pendientes, s.totalPostulantes));
    SendSuccess(Some(Dashboard(totales, PorGrupo(filas))), Some(MsgDashboard), None)
  }

  /**
   * Both overall percentages are 0 when there are no candidates, and lie in
   * 0..100 when the counts are those of real rows (non-negative, the part no
   * larger than the whole); likewise each group's.
   */
  lemma DashboardPorcentajes(filas: seq<EstadisticaGrupo>)
    ensures var d := GetDashboard(filas).data.value;
      && (d.totales.sumas.totalPostulantes <= 0 ==> d.totales.porcentajeAdjudicados == 0 && d.totales.porcentajePendientes == 0)
      && (0 <= d.totales.sumas.adjudicados <= d.totales.sumas.totalPostulantes ==> d.totales.porcentajeAdjudicados <= 100)
      && (0 <= d.totales.sumas.pendientes <= d.totales.sumas.totalPostulantes ==> d.totales.porcentajePendientes <= 100)
      && (0 <= d.totales.sumas.adjudicados ==> d.totales.porcentajeAdjudicados >= 0)
      && forall i :: 0 <= i < |filas| ==>
           && (Cuenta(filas[i].totalPostulantes) <= 0 ==> d.porGrupo[i].porcentajeAdjudicados == 0)
           && (0 <= Cuenta(filas[i].adjudicados) <= Cuenta(filas[i].totalPostulantes) ==>
                 0 <= d.porGrupo[i].porcentajeAdjudicados <= 100)
  {
    var s := Acumular(filas);
    if 0 <= s.adjudicados <= s.totalPostulantes {
      Numeric.PorcentajeRango(s.adjudicados, s.totalPostulantes);
    }
    if 0 <= s.pendientes <= s.totalPostulantes {
      Numeric.PorcentajeRango(s.pendientes, s.totalPostulantes);
    }
    forall i | 0 <= i < |filas| && 0 <= Cuenta(filas[i].adjudicados) <= Cuenta(filas[i].totalPostulantes)
      ensures 0 <= Numeric.Porcentaje(Cuenta(filas[i].adjudicados), Cuenta(filas[i].totalPostulantes)) <= 100
    {
      Numeric.PorcentajeRango(Cuenta(filas[i].adjudicados), Cuenta(filas[i].totalPostulantes));
    }
  }
}
