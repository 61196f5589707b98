/**
 * The candidate model `Postulante`: its service-time formula, the
 * validators run before a candidate is created or updated, the guarded
 * delete, and the queries that filter and order candidates together with
 * the state of their assignment row.
 */
module Postulantes {
  import opened Wrappers
  import opened Text
  import opened Relational
  import opened Store
  import opened Valores
  import BaseModel
  import Adjudicaciones

  // ---------------------------------------------------------------- calcularTiempoServicioTotal

  /** Service time in days: a year counts 365 days and a month 30. */
  function CalcularTiempoServicioTotal(anios: int, meses: int, dias: int): int
  {
    anios * 365 + meses * 30 + dias
  }

  /**
   * The total is monotone in each of its three arguments, and one more
   * year, month or day adds exactly 365, 30 or 1 days.
   */
  lemma TiempoServicioMonotono(a: int, m: int, d: int, a2: int, m2: int, d2: int)
    requires a <= a2 && m <= m2 && d <= d2
    ensures CalcularTiempoServicioTotal(a, m, d) <= CalcularTiempoServicioTotal(a2, m2, d2)
    ensures CalcularTiempoServicioTotal(a + 1, m, d) == CalcularTiempoServicioTotal(a, m, d) + 365
    ensures CalcularTiempoServicioTotal(a, m + 1, d) == CalcularTiempoServicioTotal(a, m, d) + 30
    ensures CalcularTiempoServicioTotal(a, m, d + 1) == CalcularTiempoServicioTotal(a, m, d) + 1
  {
  }

  // ---------------------------------------------------------------- lookups

  /** Some group has this id. */
  predicate HayGrupo(t: Tables, g: int)
  {
    exists i :: 0 <= i < |t.grupos| && t.grupos[i].id == g
  }

  /** `findByOrdenMerito`: the first candidate of the group with that rank whose group joins. */
  function FindByOrdenMerito(t: Tables, om: int, g: int): (r: Option<Postulante>)
    ensures r.Some? ==> r.value in t.postulantes && r.value.ordenMerito == om && r.value.grupoId == g
  {
    First(t.postulantes, (p: Postulante) => p.ordenMerito == om && p.grupoId == g && FindGrupo(t, p.grupoId).Some?)
  }

  /** `findByDni`: the first candidate with that DNI whose group joins. */
  function FindByDni(t: Tables, dni: string): (r: Option<Postulante>)
    ensures r.Some? ==> r.value in t.postulantes && r.value.dni == Some(dni)
  {
    First(t.postulantes, (p: Postulante) => p.dni == Some(dni) && FindGrupo(t, p.grupoId).Some?)
  }

  // ---------------------------------------------------------------- validateForCreation / validateForUpdate

  const MsgGrupoNoExiste := "El grupo ocupacional especificado no existe"

  function MsgOrdenExiste(om: int): string
  {
    "Ya existe un postulante con orden de mérito " + IntToString(om) + " en este grupo ocupacional"
  }

  function MsgDniExiste(dni: string): string
  {
    "Ya existe un postulante con DNI " + dni
  }

  function MsgOrdenOtro(om: int): string
  {
    "Ya existe otro postulante con orden de mérito " + IntToString(om) + " en este grupo ocupacional"
  }

  function MsgDniOtro(dni: string): string
  {
    "Ya existe otro postulante con DNI " + dni
  }

  /** The fields of the request body the validators read; `None` is `undefined` or `null`. */
  datatype DatosPostulante = DatosPostulante(ordenMerito: Option<int>, dni: Option<string>, grupoId: Option<int>)

  /** The group of the data exists. A missing id binds NULL, which matches no group. */
  predicate GrupoValido(t: Tables, d: DatosPostulante)
  {
    d.grupoId.Some? && HayGrupo(t, d.grupoId.value)
  }

  /** Some candidate of the group has the data's rank (a NULL rank matches none). */
  predicate OrdenOcupado(t: Tables, d: DatosPostulante)
  {
    d.ordenMerito.Some? && d.grupoId.Some?
    && exists i :: 0 <= i < |t.postulantes| && t.postulantes[i].ordenMerito == d.ordenMerito.value
                   && t.postulantes[i].grupoId == d.grupoId.value
  }

  /** A DNI is given (a non-empty string) and some candidate whose group exists has it. */
  predicate DniOcupado(t: Tables, d: DatosPostulante)
  {
    d.dni.Some? && d.dni.value != ""
    && exists i :: 0 <= i < |t.postulantes| && t.postulantes[i].dni == d.dni
                   && HayGrupo(t, t.postulantes[i].grupoId)
  }

  /**
   * `validateForCreation(data)`: the message of the first failing check,
   * or `None` when the data may be inserted. The checks run in order: the
   * group exists, the rank is free in the group, the DNI (if given) is free.
   */
  function ValidateForCreation(t: Tables, d: DatosPostulante): (r: Option<string>)
    ensures r == if !GrupoValido(t, d) then Some(MsgGrupoNoExiste)
                 else if OrdenOcupado(t, d) then Some(MsgOrdenExiste(d.ordenMerito.value))
                 else if DniOcupado(t, d) then Some(MsgDniExiste(d.dni.value))
                 else None
  {
    if d.grupoId.None? || d.grupoId.value < 0 || FindGrupo(t, d.grupoId.value as nat).None? then
      assert !GrupoValido(t, d) by { NoGrupo(t, d); }
      Some(MsgGrupoNoExiste)
    else
      var orden := if d.ordenMerito.Some? then FindByOrdenMerito(t, d.ordenMerito.value, d.grupoId.value) else None;
      assert orden.Some? <==> OrdenOcupado(t, d) by { OrdenHallado(t, d); }
      if orden.Some? then Some(MsgOrdenExiste(d.ordenMerito.value))
      else if d.dni.Some? && d.dni.value != "" then
        var otro := FindByDni(t, d.dni.value);
        assert otro.Some? <==> DniOcupado(t, d) by { DniHallado(t, d); }
        if otro.Some? then Some(MsgDniExiste(d.dni.value)) else None
      else None
  }

  /** `WHERE id = $1` finds no group exactly when no group has that id. */
  lemma NoGrupo(t: Tables, d: DatosPostulante)
    requires d.grupoId.None? || d.grupoId.value < 0 || FindGrupo(t, d.grupoId.value as nat).None?
    ensures !GrupoValido(t, d)
  {
  }

  lemma GrupoHallado(t: Tables, g: int)
    ensures HayGrupo(t, g) <==> g >= 0 && FindGrupo(t, g as nat).Some?
  {
    if HayGrupo(t, g) {
      var i :| 0 <= i < |t.grupos| && t.grupos[i].id == g;
      assert (g as nat) == t.grupos[i].id;
    }
  }

  lemma OrdenHallado(t: Tables, d: DatosPostulante)
    requires GrupoValido(t, d)
    ensures (if d.ordenMerito.Some? then FindByOrdenMerito(t, d.ordenMerito.value, d.grupoId.value) else None).Some?
            <==> OrdenOcupado(t, d)
  {
    if d.ordenMerito.Some? {
      var om, g := d.ordenMerito.value, d.grupoId.value;
      GrupoHallado(t, g);
      if OrdenOcupado(t, d) {
        var i :| 0 <= i < |t.postulantes| && t.postulantes[i].ordenMerito == om && t.postulantes[i].grupoId == g;
        assert FindGrupo(t, t.postulantes[i].grupoId).Some?;
      }
    }
  }

  lemma DniHallado(t: Tables, d: DatosPostulante)
    requires d.dni.Some? && d.dni.value != ""
    ensures FindByDni(t, d.dni.value).Some? <==> DniOcupado(t, d)
  {
    var dni := d.dni.value;
    if DniOcupado(t, d) {
      var i :| 0 <= i < |t.postulantes| && t.postulantes[i].dni == d.dni && HayGrupo(t, t.postulantes[i].grupoId);
      GrupoHallado(t, t.postulantes[i].grupoId);
    }
    if FindByDni(t, dni).Some? {
      var p := FindByDni(t, dni).value;
      var i :| 0 <= i < |t.postulantes| && t.postulantes[i] == p;
      GrupoHallado(t, p.grupoId);
    }
  }

  /**
   * `existing.id !== parseInt(id)`: the row found is another record. An id
   * that does not parse is NaN, which differs from every id.
   */
  predicate EsOtro(p: Postulante, id: string)
  {
    ParseInt(id) != Some(p.id)
  }

  /**
   * `validateForUpdate(id, data)`: the same checks in the same order, where
   * a clash counts only when the row the lookup returns first is another
   * candidate.
   */
  function ValidateForUpdate(t: Tables, id: string, d: DatosPostulante): (r: Option<string>)
    ensures r == Some(MsgGrupoNoExiste) <==> !GrupoValido(t, d)
    ensures r.Some? && GrupoValido(t, d) ==>
              (d.ordenMerito.Some? && r == Some(MsgOrdenOtro(d.ordenMerito.value)))
              || (d.dni.Some? && r == Some(MsgDniOtro(d.dni.value)))
  {
    if d.grupoId.None? || d.grupoId.value < 0 || FindGrupo(t, d.grupoId.value as nat).None? then
      assert !GrupoValido(t, d) by { NoGrupo(t, d); }
      Some(MsgGrupoNoExiste)
    else
      assert GrupoValido(t, d) by { GrupoHallado(t, d.grupoId.value); }
      var orden := if d.ordenMerito.Some? then FindByOrdenMerito(t, d.ordenMerito.value, d.grupoId.value) else None;
      if orden.Some? && EsOtro(orden.value, id) then
        OtroMensajeDistinto(d);
        Some(MsgOrdenOtro(d.ordenMerito.value))
      else if d.dni.Some? && d.dni.value != "" then
        var otro := FindByDni(t, d.dni.value);
        if otro.Some? && EsOtro(otro.value, id) then
          OtroMensajeDistinto(d);
          Some(MsgDniOtro(d.dni.value))
        else None
      else None
  }

  /** The clash messages differ from the group message: they start with "Ya existe". */
  lemma OtroMensajeDistinto(d: DatosPostulante)
    ensures d.ordenMerito.Some? ==> MsgOrdenOtro(d.ordenMerito.value) != MsgGrupoNoExiste
    ensures d.dni.Some? ==> MsgDniOtro(d.dni.value) != MsgGrupoNoExiste
  {
    if d.ordenMerito.Some? {
      var a := "Ya existe otro postulante con orden de mérito ";
      assert MsgOrdenOtro(d.ordenMerito.value) == a + IntToString(d.ordenMerito.value) + " en este grupo ocupacional";
      assert MsgOrdenOtro(d.ordenMerito.value)[0] == a[0];
    }
    if d.dni.Some? {
      assert MsgDniOtro(d.dni.value)[0] == 'Y';
    }
  }

  /** The checks of `validateForCreation` come in their fixed order, with distinct messages. */
  lemma CreacionOrden(t: Tables, d: DatosPostulante)
    ensures ValidateForCreation(t, d) == Some(MsgGrupoNoExiste) <==> !GrupoValido(t, d)
    ensures ValidateForCreation(t, d).None? <==> GrupoValido(t, d) && !OrdenOcupado(t, d) && !DniOcupado(t, d)
    ensures GrupoValido(t, d) && OrdenOcupado(t, d) ==> ValidateForCreation(t, d) == Some(MsgOrdenExiste(d.ordenMerito.value))
  {
    if d.ordenMerito.Some? {
      var a := "Ya existe un postulante con orden de mérito ";
      assert MsgOrdenExiste(d.ordenMerito.value) == a + IntToString(d.ordenMerito.value) + " en este grupo ocupacional";
      assert MsgOrdenExiste(d.ordenMerito.value)[0] == a[0];
    }
    if d.dni.Some? {
      assert MsgDniExiste(d.dni.value)[0] == 'Y';
    }
  }

  /**
   * The update check ignores the record itself: a rank or DNI held only by
   * the candidate being updated is no clash, while one held by another
   * candidate that the lookup returns first is.
   */
  lemma UpdateIgnoraPropio(t: Tables, id: Id, d: DatosPostulante)
    requires GrupoValido(t, d)
    requires forall i :: 0 <= i < |t.postulantes| && t.postulantes[i].id != id ==>
               (d.ordenMerito.Some? ==> t.postulantes[i].ordenMerito != d.ordenMerito.value
                                        || t.postulantes[i].grupoId != d.grupoId.value)
               && (d.dni.Some? ==> t.postulantes[i].dni != d.dni)
    ensures ValidateForUpdate(t, IntToString(id), d).None?
  {
    ParseIntRoundTrip(id);
    OtroMensajeDistinto(d);
  }

  /**
   * A record that does not hold the rank itself is rejected by the update
   * check exactly as by the creation check: the clash with the first
   * holder of the rank is reported.
   */
  lemma UpdateDetectaOtro(t: Tables, id: Id, d: DatosPostulante)
    requires GrupoValido(t, d) && OrdenOcupado(t, d)
    requires forall i :: 0 <= i < |t.postulantes| && t.postulantes[i].id == id ==>
               t.postulantes[i].ordenMerito != d.ordenMerito.value || t.postulantes[i].grupoId != d.grupoId.value
    ensures ValidateForUpdate(t, IntToString(id), d) == Some(MsgOrdenOtro(d.ordenMerito.value))
  {
    ParseIntRoundTrip(id);
    OrdenHallado(t, d);
    GrupoHallado(t, d.grupoId.value);
    var p := FindByOrdenMerito(t, d.ordenMerito.value, d.grupoId.value).value;
    var i :| 0 <= i < |t.postulantes| && t.postulantes[i] == p;
  }

  // ---------------------------------------------------------------- deletePostulante

  const MsgTieneAdjudicaciones := "No se puede eliminar el postulante porque tiene adjudicaciones asociadas"

  /** Some assignment row, in any state, references the candidate. */
  predicate TieneAdjudicaciones(t: Tables, id: Id)
  {
    exists i :: 0 <= i < |t.adjudicaciones| && t.adjudicaciones[i].postulanteId == id
  }

  /**
   * `deletePostulante(id)`: the tables afterwards and the deleted row
   * (`null` when there was none), or the error that keeps them as they were.
   */
  function AfterDeletePostulante(t: Tables, id: Id): (r: (Tables, Result<Option<Postulante>, string>))
    ensures r.1.Failure? <==> TieneAdjudicaciones(t, id)
    ensures r.1.Failure? ==> r.0 == t && r.1.error == MsgTieneAdjudicaciones
    ensures r.1.Success? ==>
              && r.1.value == FindPostulante(t, id)
              && r.0 == t.(postulantes := r.0.postulantes)
              && (forall p :: p in r.0.postulantes <==> p in t.postulantes && p.id != id)
  {
    var cuenta := CountWhere(t.adjudicaciones, (a: Adjudicacion) => a.postulanteId == id);
    CountPositiveIff(t.adjudicaciones, (a: Adjudicacion) => a.postulanteId == id);
    if cuenta > 0 then (t, Failure(MsgTieneAdjudicaciones))
    else
      var w := BaseModel.Delete(t.postulantes, (p: Postulante) => p.id, id);
      (t.(postulantes := w.filas), Success(w.fila))
  }

  /** Deleting a candidate that exists and has no assignment row removes exactly that one row. */
  lemma DeletePostulanteUno(t: Tables, id: Id)
    requires KeysUnique(t) && FindPostulante(t, id).Some? && !TieneAdjudicaciones(t, id)
    ensures |AfterDeletePostulante(t, id).0.postulantes| == |t.postulantes| - 1
    ensures FindPostulante(AfterDeletePostulante(t, id).0, id).None?
  {
    BaseModel.DeleteEfecto(t.postulantes, (p: Postulante) => p.id, id, (p: Postulante) => p);
  }

  /** Removing candidate rows keeps the keys unique and below the sequence. */
  lemma DeletePostulanteValido(t: Tables, serial: nat, id: Id)
    requires KeysUnique(t) && KeysBelow(t, serial)
    ensures var u := t.(postulantes := BaseModel.Delete(t.postulantes, (p: Postulante) => p.id, id).filas);
      KeysUnique(u) && KeysBelow(u, serial)
  {
    var w := BaseModel.Delete(t.postulantes, (p: Postulante) => p.id, id);
    assert w.filas == Filter(t.postulantes, BaseModel.SinClave((p: Postulante) => p.id, id));
    UniqueFilter(t.postulantes, (p: Postulante) => p.id, BaseModel.SinClave((p: Postulante) => p.id, id));
    BelowFilter(t.postulantes, (p: Postulante) => p.id, serial, BaseModel.SinClave((p: Postulante) => p.id, id));
  }

  /** `deletePostulante` on the database: the count check, then the DELETE. */
  method DeletePostulante(db: Database, id: Id) returns (r: Result<Option<Postulante>, string>)
    requires db.Valid()
    modifies db
    ensures db.Valid() && db.serial == old(db.serial)
    ensures (db.tables, r) == AfterDeletePostulante(old(db.tables), id)
  {
    var cuenta := CountWhere(db.tables.adjudicaciones, (a: Adjudicacion) => a.postulanteId == id);
    if cuenta > 0 {
      return Failure(MsgTieneAdjudicaciones);
    }
    var w := BaseModel.Delete(db.tables.postulantes, (p: Postulante) => p.id, id);
    DeletePostulanteValido(db.tables, db.serial, id);
    db.tables := db.tables.(postulantes := w.filas);
    r := Success(w.fila);
  }

  // ---------------------------------------------------------------- queries joined with the assignment row

  /**
   * A candidate row as the queries return it: the candidate, its group
   * (inner join) and its assignment row (left join, the first one).
   */
  datatype FilaPostulante = FilaPostulante(postulante: Postulante, grupo: Grupo, adj: Option<Adjudicacion>)

  /** The joined row of a candidate, or `None` when its group does not exist. */
  function Unir(t: Tables, p: Postulante): (r: Option<FilaPostulante>)
    ensures r.Some? <==> FindGrupo(t, p.grupoId).Some?
    ensures r.Some? ==> r.value.postulante == p && r.value.grupo.id == p.grupoId
                        && r.value.adj == RowFor(t.adjudicaciones, p.id)
  {
    match FindGrupo(t, p.grupoId)
    case None => None
    case Some(g) => Some(FilaPostulante(p, g, RowFor(t.adjudicaciones, p.id)))
  }

  /** `COALESCE(adj.estado, 'pendiente')`. */
  function EstadoMostrado(f: FilaPostulante): Estado
  {
    if f.adj.Some? then f.adj.value.estado else Pendiente
  }

  /** `ORDER BY pos.orden_merito`. */
  function FilaKey(f: FilaPostulante): seq<Key>
  {
    [IntKey(f.postulante.ordenMerito)]
  }

  /** `Filter` by `cumple`, joined, in merit order. */
  function Consultar(t: Tables, cumple: Postulante -> bool): (r: seq<FilaPostulante>)
    ensures SortedBy(r, FilaKey)
    ensures forall f :: f in r <==> f.postulante in t.postulantes && cumple(f.postulante)
                                    && Unir(t, f.postulante) == Some(f)
  {
    var filas := FilterMap(Filter(t.postulantes, cumple), (p: Postulante) => Unir(t, p));
    SortByMembers(filas, FilaKey);
    SortBy(filas, FilaKey)
  }

  /** Conditions that agree on every candidate give the same rows. */
  lemma ConsultarMismo(t: Tables, c: Postulante -> bool, d: Postulante -> bool)
    requires forall p :: p in t.postulantes ==> c(p) == d(p)
    ensures Consultar(t, c) == Consultar(t, d)
  {
    FilterSame(t.postulantes, c, d);
  }

  /** Two rows in merit order have ranks in order. */
  lemma MeritoLe(a: FilaPostulante, b: FilaPostulante)
    requires TupleLe(FilaKey(a), FilaKey(b))
    ensures a.postulante.ordenMerito <= b.postulante.ordenMerito
  {
  }

  /** The filters `searchPostulantes` reads, each a JavaScript value or absent. */
  datatype FiltrosPostulante = FiltrosPostulante(grupoOcupacionalId: Option<Valor>, estado: Option<Valor>,
                                                 nombre: Option<Valor>, dni: Option<Valor>,
                                                 ordenMeritoDesde: Option<Valor>, ordenMeritoHasta: Option<Valor>)

  /**
   * The estado condition: 'pendiente' is `adj.estado IS NULL OR adj.estado
   * = 'pendiente'`, so it also matches a candidate without a row; any other
   * text must equal the row's state.
   */
  predicate EstadoCoincide(adj: Option<Adjudicacion>, s: string)
  {
    if s == "pendiente" then adj.None? || adj.value.estado == Pendiente
    else adj.Some? && EstadoText(adj.value.estado) == s
  }

  /**
   * The WHERE clause of `searchPostulantes`: every filter that is given
   * (truthy, and an integer where one is parsed, a string where a string
   * is expected) must hold. The name condition is ILIKE on
   * `apellidos_nombres`, which a NULL name never satisfies.
   */
  predicate CumpleBusqueda(t: Tables, f: FiltrosPostulante, p: Postulante)
  {
    && (EnteroDe(f.grupoOcupacionalId).Some? ==> p.grupoId == EnteroDe(f.grupoOcupacionalId).value)
    && (TextoDe(f.estado).Some? ==> EstadoCoincide(RowFor(t.adjudicaciones, p.id), TextoDe(f.estado).value))
    && (TextoDe(f.nombre).Some? ==> p.apellidosNombres.Some?
                                    && ILikeContains(p.apellidosNombres.value, TextoDe(f.nombre).value))
    && (TextoDe(f.dni).Some? ==> p.dni == TextoDe(f.dni))
    && (EnteroDe(f.ordenMeritoDesde).Some? ==> p.ordenMerito >= EnteroDe(f.ordenMeritoDesde).value)
    && (EnteroDe(f.ordenMeritoHasta).Some? ==> p.ordenMerito <= EnteroDe(f.ordenMeritoHasta).value)
  }

  /** `searchPostulantes(filters)`. */
  function SearchPostulantes(t: Tables, f: FiltrosPostulante): (r: seq<FilaPostulante>)
    ensures SortedBy(r, FilaKey)
    ensures forall x :: x in r <==> x.postulante in t.postulantes && CumpleBusqueda(t, f, x.postulante)
                                    && Unir(t, x.postulante) == Some(x)
  {
    Consultar(t, (p: Postulante) => CumpleBusqueda(t, f, p))
  }

  /** Filters that accept the same candidates find the same rows. */
  lemma BusquedaMisma(t: Tables, f: FiltrosPostulante, g: FiltrosPostulante)
    requires forall p :: p in t.postulantes ==> (CumpleBusqueda(t, f, p) <==> CumpleBusqueda(t, g, p))
    ensures SearchPostulantes(t, f) == SearchPostulantes(t, g)
  {
    ConsultarMismo(t, (p: Postulante) => CumpleBusqueda(t, f, p), (p: Postulante) => CumpleBusqueda(t, g, p));
  }

  /**
   * With only `estado = 'pendiente'`, every candidate whose group exists
   * and who has no assignment row is found, and is shown as 'pendiente'.
   */
  lemma BusquedaPendienteSinFila(t: Tables, p: Postulante)
    requires p in t.postulantes && FindGrupo(t, p.grupoId).Some? && RowFor(t.adjudicaciones, p.id).None?
    ensures var f := FiltrosPostulante(None, Some(Cadena("pendiente")), None, None, None, None);
      Unir(t, p).Some? && Unir(t, p).value in SearchPostulantes(t, f)
      && EstadoMostrado(Unir(t, p).value) == Pendiente
  {
    var f := FiltrosPostulante(None, Some(Cadena("pendiente")), None, None, None, None);
    assert TextoDe(f.estado) == Some("pendiente");
    assert CumpleBusqueda(t, f, p);
  }

  /** The search results come in ascending merit order. */
  lemma BusquedaOrden(t: Tables, f: FiltrosPostulante, i: nat, j: nat)
    requires i < j < |SearchPostulantes(t, f)|
    ensures SearchPostulantes(t, f)[i].postulante.ordenMerito <= SearchPostulantes(t, f)[j].postulante.ordenMerito
  {
    var r := SearchPostulantes(t, f);
    MeritoLe(r[i], r[j]);
  }

  /** A weaker set of filters finds every row a stronger one finds. */
  lemma BusquedaMonotona(t: Tables, f: FiltrosPostulante, g: FiltrosPostulante, x: FilaPostulante)
    requires forall p :: CumpleBusqueda(t, f, p) ==> CumpleBusqueda(t, g, p)
    requires x in SearchPostulantes(t, f)
    ensures x in SearchPostulantes(t, g)
  {
  }

  /**
   * The filters combine conjunctively: dropping the estado, the name, the
   * group, or the DNI and rank filters never loses a row.
   */
  lemma BusquedaConjuntiva(t: Tables, f: FiltrosPostulante, x: FilaPostulante)
    requires x in SearchPostulantes(t, f)
    ensures x in SearchPostulantes(t, f.(estado := None))
    ensures x in SearchPostulantes(t, f.(nombre := None))
    ensures x in SearchPostulantes(t, f.(grupoOcupacionalId := None))
    ensures x in SearchPostulantes(t, f.(dni := None, ordenMeritoDesde := None, ordenMeritoHasta := None))
  {
    assert EnteroDe(None).None? && TextoDe(None).None?;
    BusquedaMonotona(t, f, f.(estado := None), x);
    BusquedaMonotona(t, f, f.(nombre := None), x);
    BusquedaMonotona(t, f, f.(grupoOcupacionalId := None), x);
    BusquedaMonotona(t, f, f.(dni := None, ordenMeritoDesde := None, ordenMeritoHasta := None), x);
  }

  /** An empty result means every candidate that satisfies the condition lacks its group. */
  lemma ConsultarVacio(t: Tables, cumple: Postulante -> bool)
    ensures Consultar(t, cumple) == [] ==>
              forall p :: p in t.postulantes && cumple(p) ==> FindGrupo(t, p.grupoId).None?
  {
    forall p | p in t.postulantes && cumple(p) && FindGrupo(t, p.grupoId).Some?
      ensures Unir(t, p).value in Consultar(t, cumple)
    {
    }
  }

  // ---------------------------------------------------------------- getSiguientePostulante

  /**
   * `getSiguientePostulante(g)`: among the group's candidates with no row
   * or a 'pendiente' row, one with the smallest merit rank; `null` when
   * there is none or the group does not exist (inner join).
   */
  function GetSiguientePostulante(t: Tables, g: Id): (r: Option<Postulante>)
    ensures r.None? <==> FindGrupo(t, g).None?
                         || forall p :: p in t.postulantes ==> !Adjudicaciones.PendienteDe(t, p, g)
    ensures r.Some? ==> r.value in t.postulantes && Adjudicaciones.PendienteDe(t, r.value, g)
    ensures r.Some? ==> forall p :: p in t.postulantes && Adjudicaciones.PendienteDe(t, p, g)
                                  ==> r.value.ordenMerito <= p.ordenMerito
  {
    var filas := Consultar(t, (p: Postulante) => Adjudicaciones.PendienteDe(t, p, g));
    ConsultarVacio(t, (p: Postulante) => Adjudicaciones.PendienteDe(t, p, g));
    if filas == [] then None
    else
      SiguienteMenor(t, g);
      Some(filas[0].postulante)
  }

  /** The first row of the query has the smallest rank among the group's pending candidates. */
  lemma SiguienteMenor(t: Tables, g: Id)
    ensures var filas := Consultar(t, (p: Postulante) => Adjudicaciones.PendienteDe(t, p, g));
      filas != [] ==> forall p :: p in t.postulantes && Adjudicaciones.PendienteDe(t, p, g)
                                  ==> filas[0].postulante.ordenMerito <= p.ordenMerito
  {
    var filas := Consultar(t, (p: Postulante) => Adjudicaciones.PendienteDe(t, p, g));
    if filas != [] {
      var primero := filas[0];
      assert primero in filas;
      assert FindGrupo(t, g).Some? by {
        assert Unir(t, primero.postulante) == Some(primero);
      }
      forall p | p in t.postulantes && Adjudicaciones.PendienteDe(t, p, g)
        ensures filas[0].postulante.ordenMerito <= p.ordenMerito
      {
        var x := Unir(t, p).value;
        assert x in filas;
        var k :| 0 <= k < |filas| && filas[k] == x;
        if k > 0 {
          MeritoLe(filas[0], filas[k]);
        }
      }
    }
  }

  // ---------------------------------------------------------------- getPostulantesByRango

  /**
   * `getPostulantesByRango(g, inicio, fin)`: exactly the group's candidates
   * with `inicio <= orden_merito <= fin` (BETWEEN), in merit order.
   */
  function GetPostulantesByRango(t: Tables, g: int, inicio: int, fin: int): (r: seq<FilaPostulante>)
    ensures SortedBy(r, FilaKey)
    ensures forall x :: x in r <==> x.postulante in t.postulantes && x.postulante.grupoId == g
                                    && inicio <= x.postulante.ordenMerito <= fin
                                    && Unir(t, x.postulante) == Some(x)
  {
    Consultar(t, (p: Postulante) => p.grupoId == g && inicio <= p.ordenMerito <= fin)
  }

  /** A range whose start is past its end is empty. */
  lemma RangoVacio(t: Tables, g: int, inicio: int, fin: int)
    requires inicio > fin
    ensures GetPostulantesByRango(t, g, inicio, fin) == []
  {
  }
}
