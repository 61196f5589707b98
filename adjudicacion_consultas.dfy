/**
 * The read-only reports of the assignment model: `getEstadisticas` (counts
 * per state and the share assigned) and `getAdjudicacionesCompletas` (the
 * assignment rows joined with candidate, group, position, IPRESS and red,
 * filtered and ordered by date descending, then merit).
 */
module AdjudicacionConsultas {
  import opened Wrappers
  import opened Relational
  import opened Store
  import Numeric

  // ---------------------------------------------------------------- getEstadisticas

  function EnEstado(e: Estado): Adjudicacion -> bool
  {
    (a: Adjudicacion) => a.estado == e
  }

  /** `COUNT(CASE WHEN estado = e THEN 1 END)`. */
  function Contar(adjs: seq<Adjudicacion>, e: Estado): nat
  {
    CountWhere(adjs, EnEstado(e))
  }

  /**
   * One row of `getEstadisticas`. `porcentajeAdjudicado` is in hundredths
   * of a percent (`ROUND(..., 2)`), and NULL when there are no rows.
   */
  datatype Estadisticas = Estadisticas(totalAdjudicaciones: nat, pendientes: nat, adjudicados: nat,
                                       desistidos: nat, renuncias: nat, porcentajeAdjudicado: Option<nat>)

  function GetEstadisticas(t: Tables): (s: Estadisticas)
    ensures s.totalAdjudicaciones == |t.adjudicaciones|
    ensures s.porcentajeAdjudicado.None? <==> t.adjudicaciones == []
  {
    var adjs := t.adjudicaciones;
    var total := |adjs|;
    var adjudicados := Contar(adjs, Adjudicado);
    Estadisticas(total, Contar(adjs, Pendiente), adjudicados, Contar(adjs, Desistido), Contar(adjs, Renuncio),
                 if total == 0 then None else Some(Numeric.RoundDiv(10000 * adjudicados, total)))
  }

  /** Every row is in exactly one state, so the five counts add up to the total. */
  lemma {:induction false} ContarParticion(adjs: seq<Adjudicacion>)
    ensures Contar(adjs, Pendiente) + Contar(adjs, Adjudicado) + Contar(adjs, Desistido)
            + Contar(adjs, Renuncio) + Contar(adjs, Ausente) == |adjs|
  {
    if adjs != [] {
      ContarParticion(adjs[1..]);
    }
  }

  /**
   * The four reported counts leave out only 'ausente' rows: they add up to
   * the total exactly when no row is 'ausente'. The assigned share is at
   * most 100.00, and 100.00 when every row is assigned.
   */
  lemma EstadisticasSuma(t: Tables)
    ensures var s := GetEstadisticas(t);
      && s.pendientes + s.adjudicados + s.desistidos + s.renuncias + Contar(t.adjudicaciones, Ausente)
         == s.totalAdjudicaciones
      && (s.pendientes + s.adjudicados + s.desistidos + s.renuncias == s.totalAdjudicaciones
          <==> forall i :: 0 <= i < |t.adjudicaciones| ==> t.adjudicaciones[i].estado != Ausente)
      && (s.porcentajeAdjudicado.Some? ==> s.porcentajeAdjudicado.value <= 10000)
      && (s.porcentajeAdjudicado.Some? && s.adjudicados == s.totalAdjudicaciones ==> s.porcentajeAdjudicado.value == 10000)
  {
    var adjs := t.adjudicaciones;
    ContarParticion(adjs);
    CountPositiveIff(adjs, EnEstado(Ausente));
    var s := GetEstadisticas(t);
    if adjs != [] {
      Numeric.MulMonotone(s.adjudicados, |adjs|, 100);
      Numeric.PorcentajeRango(s.adjudicados, |adjs|);
      Numeric.RoundDivBounded(10000 * s.adjudicados, |adjs|, 10000);
      if s.adjudicados == |adjs| {
        assert 2 * (10000 * s.adjudicados) + |adjs| == 10000 * (2 * |adjs|) + |adjs|;
      }
    }
  }

  // ---------------------------------------------------------------- getAdjudicacionesCompletas

  /**
   * A row of the report: the assignment with its candidate and group (inner
   * joins) and its position, IPRESS and red (left joins, NULL when missing).
   */
  datatype Completa = Completa(adj: Adjudicacion, postulante: Postulante, grupo: Grupo,
                               plaza: Option<Plaza>, ipress: Option<Ipress>, red: Option<Red>)

  /** The joins for one assignment row; `None` when an inner join drops it. */
  function Enlazar(t: Tables, a: Adjudicacion): (r: Option<Completa>)
    ensures r.Some? <==> FindPostulante(t, a.postulanteId).Some?
                         && FindGrupo(t, FindPostulante(t, a.postulanteId).value.grupoId).Some?
    ensures r.Some? ==> r.value.adj == a && r.value.postulante.id == a.postulanteId
                        && r.value.grupo.id == r.value.postulante.grupoId
    ensures r.Some? ==> (r.value.plaza.Some? <==> a.plazaId.Some? && FindPlaza(t, a.plazaId.value).Some?)
    ensures r.Some? && r.value.red.Some? ==> r.value.ipress.Some? && r.value.plaza.Some?
                                             && r.value.red.value.id == r.value.ipress.value.redId
                                             && r.value.ipress.value.id == r.value.plaza.value.ipressId
  {
    match FindPostulante(t, a.postulanteId)
    case None => None
    case Some(pos) =>
      match FindGrupo(t, pos.grupoId)
      case None => None
      case Some(g) =>
        var plaza := if a.plazaId.Some? then FindPlaza(t, a.plazaId.value) else None;
        var ipress := if plaza.Some? then FindIpress(t, plaza.value.ipressId) else None;
        var red := if ipress.Some? then FindRed(t, ipress.value.redId) else None;
        Some(Completa(a, pos, g, plaza, ipress, red))
  }

  /** The joined rows, in the table order of the assignments. */
  function Enlazadas(t: Tables, adjs: seq<Adjudicacion>): (r: seq<Completa>)
    ensures forall c :: c in r <==> exists i :: 0 <= i < |adjs| && Enlazar(t, adjs[i]) == Some(c)
  {
    FilterMap(adjs, (a: Adjudicacion) => Enlazar(t, a))
  }

  /** The filters the report understands; each one applies only when given. */
  datatype FiltrosCompletas = FiltrosCompletas(estado: Option<Estado>, redId: Option<Id>, grupoId: Option<Id>,
                                               fechaDesde: Option<Time>, fechaHasta: Option<Time>)

  /**
   * The WHERE clause. A comparison with a NULL column is not true, so the red
   * filter drops rows without a red and the date filters drop rows without a
   * `fecha_adjudicacion`.
   */
  predicate Cumple(f: FiltrosCompletas, c: Completa)
  {
    && (f.estado.Some? ==> c.adj.estado == f.estado.value)
    && (f.redId.Some? ==> c.red.Some? && c.red.value.id == f.redId.value)
    && (f.grupoId.Some? ==> c.grupo.id == f.grupoId.value)
    && (f.fechaDesde.Some? ==> c.adj.fechaAdjudicacion.Some? && c.adj.fechaAdjudicacion.value >= f.fechaDesde.value)
    && (f.fechaHasta.Some? ==> c.adj.fechaAdjudicacion.Some? && c.adj.fechaAdjudicacion.value <= f.fechaHasta.value)
  }

  /** `ORDER BY adj.fecha_adjudicacion DESC, pos.orden_merito`; in descending order NULL comes first. */
  function CompletaKey(c: Completa): seq<Key>
  {
    [FechaDesc(c.adj.fechaAdjudicacion), IntKey(c.postulante.ordenMerito)]
  }

  function FechaDesc(d: Option<Time>): Key
  {
    DescKey(if d.Some? then Some(d.value as int) else None)
  }

  /** What a pair of report keys in order says about dates and ranks. */
  lemma FechaMeritoLe(a: Option<Time>, b: Option<Time>, m: int, n: int)
    requires TupleLe([FechaDesc(a), IntKey(m)], [FechaDesc(b), IntKey(n)])
    ensures b.None? ==> a.None?
    ensures a.Some? && b.Some? ==> a.value >= b.value
    ensures a == b ==> m <= n
  {
    var x, y := [FechaDesc(a), IntKey(m)], [FechaDesc(b), IntKey(n)];
    assert x[1..] == [IntKey(m)] && y[1..] == [IntKey(n)];
  }

  function FiltroCompletas(f: FiltrosCompletas): Completa -> bool
  {
    (c: Completa) => Cumple(f, c)
  }

  function AdjudicacionesCompletas(t: Tables, f: FiltrosCompletas): (r: seq<Completa>)
    ensures SortedBy(r, CompletaKey)
    ensures forall c :: c in r <==> Cumple(f, c) && exists i :: 0 <= i < |t.adjudicaciones|
                                                                && Enlazar(t, t.adjudicaciones[i]) == Some(c)
  {
    var filas := Filter(Enlazadas(t, t.adjudicaciones), FiltroCompletas(f));
    var r := SortBy(filas, CompletaKey);
    SortByMembers(filas, CompletaKey);
    r
  }

  /**
   * The order of the report: rows without an assignment date first, then
   * the later dates before the earlier ones, and within one date the better
   * merit rank first.
   */
  lemma CompletasOrden(t: Tables, f: FiltrosCompletas, i: nat, j: nat)
    requires i < j < |AdjudicacionesCompletas(t, f)|
    ensures var r := AdjudicacionesCompletas(t, f);
      var a, b := r[i].adj.fechaAdjudicacion, r[j].adj.fechaAdjudicacion;
      && (b.None? ==> a.None?)
      && (a.Some? && b.Some? ==> a.value >= b.value)
      && (a == b ==> r[i].postulante.ordenMerito <= r[j].postulante.ordenMerito)
  {
    var r := AdjudicacionesCompletas(t, f);
    FechaMeritoLe(r[i].adj.fechaAdjudicacion, r[j].adj.fechaAdjudicacion, r[i].postulante.ordenMerito,
                  r[j].postulante.ordenMerito);
  }

  /** With no filter given, every assignment whose candidate and group exist is reported. */
  lemma CompletasSinFiltros(t: Tables, a: Adjudicacion)
    requires a in t.adjudicaciones
    requires FindPostulante(t, a.postulanteId).Some? && FindGrupo(t, FindPostulante(t, a.postulanteId).value.grupoId).Some?
    ensures Enlazar(t, a).value in AdjudicacionesCompletas(t, FiltrosCompletas(None, None, None, None, None))
  {
    var i :| 0 <= i < |t.adjudicaciones| && t.adjudicaciones[i] == a;
  }
}
