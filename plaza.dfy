/**
 * The position model `Plaza`: queries over the availability view
 * `plazas_con_disponibilidad` (its rows as `Store.Vista` describes them),
 * the validators run before a position is created or updated, the guarded
 * delete, and the statistics grouped by red and by occupational group.
 */
module Plazas {
  import opened Wrappers
  import opened Text
  import opened Relational
  import opened Store
  import opened Valores
  import BaseModel

  // ---------------------------------------------------------------- the view, in its ORDER BY

  /** `ORDER BY red, ipress, grupo_ocupacional, especialidad` (NULL specialty last). */
  function VistaKey(v: VistaRow): seq<Key>
  {
    [Str(v.red), Str(v.ipress), Str(v.grupoOcupacional), TextKey(v.especialidad)]
  }

  /** `getPlazasWithAvailability`: every row of the view, in the view's order. */
  function GetPlazasWithAvailability(t: Tables): (r: seq<VistaRow>)
    ensures SortedBy(r, VistaKey)
    ensures multiset(r) == multiset(Vista(t))
  {
    SortBy(Vista(t), VistaKey)
  }

  // ---------------------------------------------------------------- checkAvailability

  /** The row `checkAvailability` returns; `disponible` is `CASE WHEN libres > 0`. */
  datatype Disponibilidad = Disponibilidad(id: Id, total: int, asignados: nat, libres: int, disponible: bool)

  /** `checkAvailability(id)`: the view row of the position, or `null` when the view has none. */
  function CheckAvailability(t: Tables, id: Id): (r: Option<Disponibilidad>)
    ensures r.None? <==> forall v :: v in Vista(t) ==> v.id != id
    ensures r.Some? ==> r.value.id == id && (r.value.disponible <==> r.value.libres > 0)
    ensures r.Some? ==> exists v :: v in Vista(t) && v.id == id && v.libres == r.value.libres
                                  && v.total == r.value.total && v.asignados == r.value.asignados
  {
    match First(Vista(t), (v: VistaRow) => v.id == id)
    case None => None
    case Some(v) => Some(Disponibilidad(v.id, v.total, v.asignados, v.libres, v.libres > 0))
  }

  /**
   * On a database with unique keys, the answer describes the position's
   * free capacity: an unknown id gives `null`, and otherwise `disponible`
   * holds exactly when the position has a free seat.
   */
  lemma CheckAvailabilityLibres(t: Tables, id: Id)
    requires KeysUnique(t)
    ensures FindPlaza(t, id).None? ==> CheckAvailability(t, id).None?
    ensures CheckAvailability(t, id).Some? ==>
              FindPlaza(t, id).Some? && CheckAvailability(t, id).value.libres == Libres(t, id)
              && (CheckAvailability(t, id).value.disponible <==> Libres(t, id) > 0)
  {
    if CheckAvailability(t, id).Some? {
      var v := First(Vista(t), (v: VistaRow) => v.id == id).value;
      VistaLibres(t, v);
    }
  }

  // ---------------------------------------------------------------- searchPlazas / getAvailablePlazas

  /** The filters `searchPlazas` reads, each a JavaScript value or absent. */
  datatype FiltrosPlaza = FiltrosPlaza(soloDisponibles: Option<Valor>, redId: Option<Valor>, ipressId: Option<Valor>,
                                       grupoOcupacionalId: Option<Valor>, especialidad: Option<Valor>)

  /** `soloDisponibles === true || soloDisponibles === 'true'`. */
  predicate SoloDisponibles(f: FiltrosPlaza)
  {
    Campo(f.soloDisponibles) == Booleano(true) || Campo(f.soloDisponibles) == Cadena("true")
  }

  /** `(SELECT nombre FROM redes WHERE id = $k)`: NULL when no red has the id. */
  function NombreRed(t: Tables, n: int): Option<string>
  {
    if n < 0 then None else match FindRed(t, n as nat) case None => None case Some(r) => Some(r.nombre)
  }

  function NombreIpress(t: Tables, n: int): Option<string>
  {
    if n < 0 then None else match FindIpress(t, n as nat) case None => None case Some(i) => Some(i.nombre)
  }

  function NombreGrupo(t: Tables, n: int): Option<string>
  {
    if n < 0 then None else match FindGrupo(t, n as nat) case None => None case Some(g) => Some(g.nombre)
  }

  /**
   * The WHERE clause of `searchPlazas`: each given filter must hold. An id
   * filter compares the view's name column with the name of the row that
   * has the id, so an unknown id matches nothing; specialty is ILIKE
   * `%e%`, which a NULL specialty never satisfies.
   */
  predicate CumplePlaza(t: Tables, f: FiltrosPlaza, v: VistaRow)
  {
    && (SoloDisponibles(f) ==> v.libres > 0)
    && (EnteroDe(f.redId).Some? ==> NombreRed(t, EnteroDe(f.redId).value) == Some(v.red))
    && (EnteroDe(f.ipressId).Some? ==> NombreIpress(t, EnteroDe(f.ipressId).value) == Some(v.ipress))
    && (EnteroDe(f.grupoOcupacionalId).Some? ==>
          NombreGrupo(t, EnteroDe(f.grupoOcupacionalId).value) == Some(v.grupoOcupacional))
    && (TextoDe(f.especialidad).Some? ==>
          v.especialidad.Some? && ILikeContains(v.especialidad.value, TextoDe(f.especialidad).value))
  }

  /** `searchPlazas(filters)`: the view rows that satisfy every given filter, in the view's order. */
  function SearchPlazas(t: Tables, f: FiltrosPlaza): (r: seq<VistaRow>)
    ensures SortedBy(r, VistaKey)
    ensures forall v :: v in r <==> v in Vista(t) && CumplePlaza(t, f, v)
    ensures forall v :: multiset(r)[v] <= multiset(Vista(t))[v]
  {
    var filas := Filter(Vista(t), (v: VistaRow) => CumplePlaza(t, f, v));
    SortByMembers(filas, VistaKey);
    SortBy(filas, VistaKey)
  }

  /** The group filter of `getAvailablePlazas`: `null` (or no argument) applies none. */
  predicate EnGrupo(t: Tables, g: Option<Id>, v: VistaRow)
  {
    g.Some? ==> NombreGrupo(t, g.value) == Some(v.grupoOcupacional)
  }

  /** `getAvailablePlazas(grupoOcupacionalId)`: rows with a free seat, optionally of one group. */
  function GetAvailablePlazas(t: Tables, g: Option<Id>): (r: seq<VistaRow>)
    ensures SortedBy(r, VistaKey)
    ensures forall v :: v in r <==> v in Vista(t) && v.libres > 0 && EnGrupo(t, g, v)
  {
    var filas := Filter(Vista(t), (v: VistaRow) => v.libres > 0 && EnGrupo(t, g, v));
    SortByMembers(filas, VistaKey);
    SortBy(filas, VistaKey)
  }

  /**
   * With `soloDisponibles`, every row found is a position with a free seat
   * (on a database with unique keys), and no position appears twice.
   */
  lemma SoloDisponiblesLibres(t: Tables, f: FiltrosPlaza)
    requires KeysUnique(t) && SoloDisponibles(f)
    ensures forall v :: v in SearchPlazas(t, f) ==> FindPlaza(t, v.id).Some? && Libres(t, v.id) > 0
    ensures Unique(SearchPlazas(t, f), (v: VistaRow) => v.id)
  {
    forall v | v in SearchPlazas(t, f) ensures FindPlaza(t, v.id).Some? && Libres(t, v.id) > 0 {
      VistaLibres(t, v);
    }
    VistaUnica(t);
    UniqueSelection(Vista(t), SearchPlazas(t, f), (v: VistaRow) => v.id);
  }

  /** Every row `getAvailablePlazas` returns is a position with a free seat. */
  lemma AvailableLibres(t: Tables, g: Option<Id>)
    requires KeysUnique(t)
    ensures forall v :: v in GetAvailablePlazas(t, g) ==> FindPlaza(t, v.id).Some? && Libres(t, v.id) > 0
  {
    forall v | v in GetAvailablePlazas(t, g) ensures FindPlaza(t, v.id).Some? && Libres(t, v.id) > 0 {
      VistaLibres(t, v);
    }
  }

  /**
   * `getAvailablePlazas(g)` finds the same rows as `searchPlazas` with
   * `soloDisponibles` and the group filter, except for group id 0: a
   * truthiness test drops the number 0 from the search's filters, while
   * `getAvailablePlazas` receives the id unchanged.
   */
  lemma AvailableComoBusqueda(t: Tables, g: Id, v: VistaRow)
    ensures g != 0 ==>
              (v in GetAvailablePlazas(t, Some(g)) <==>
               v in SearchPlazas(t, FiltrosPlaza(Some(Booleano(true)), None, None, Some(Numero(g)), None)))
    ensures v in GetAvailablePlazas(t, None) <==>
            v in SearchPlazas(t, FiltrosPlaza(Some(Booleano(true)), None, None, None, None))
  {
    var todas := FiltrosPlaza(Some(Booleano(true)), None, None, None, None);
    assert EnteroDe(None).None? && TextoDe(None).None? && SoloDisponibles(todas);
    assert CumplePlaza(t, todas, v) <==> v.libres > 0;
    if g != 0 {
      var f := todas.(grupoOcupacionalId := Some(Numero(g)));
      EnteroDeNumero(g);
      assert CumplePlaza(t, f, v) <==> v.libres > 0 && EnGrupo(t, Some(g), v);
    }
  }

  // ---------------------------------------------------------------- validateForCreation / validateForUpdate

  const MsgIpressNoExiste := "El IPRESS especificado no existe"
  const MsgGrupoNoExiste := "El grupo ocupacional especificado no existe"
  const MsgCombinacion := "Ya existe una plaza con esta combinación de IPRESS, grupo ocupacional y especialidad"
  const MsgCombinacionOtra := "Ya existe otra plaza con esta combinación de IPRESS, grupo ocupacional y especialidad"

  /** The fields of the request body the validators read; `None` is `undefined` or `null`. */
  datatype DatosPlaza = DatosPlaza(ipressId: Option<int>, grupoId: Option<int>, especialidad: Option<string>)

  /** `if (especialidad)`: a specialty is given when it is a non-empty string. */
  predicate EspecialidadDada(d: DatosPlaza)
  {
    d.especialidad.Some? && d.especialidad.value != ""
  }

  /**
   * `ipress_id = $1 AND grupo_ocupacional_id = $2` and either
   * `especialidad = $3` (a specialty given) or `especialidad IS NULL`.
   */
  predicate MismaCombinacion(p: Plaza, d: DatosPlaza)
  {
    && d.ipressId.Some? && d.ipressId.value == p.ipressId
    && d.grupoId.Some? && d.grupoId.value == p.grupoId
    && (if EspecialidadDada(d) then p.especialidad == d.especialidad else p.especialidad.None?)
  }

  predicate IpressExiste(t: Tables, d: DatosPlaza)
  {
    d.ipressId.Some? && exists i :: 0 <= i < |t.ipress| && t.ipress[i].id == d.ipressId.value
  }

  predicate GrupoExiste(t: Tables, d: DatosPlaza)
  {
    d.grupoId.Some? && exists i :: 0 <= i < |t.grupos| && t.grupos[i].id == d.grupoId.value
  }

  /** Some position other than `excluida` has the combination (`None` excludes none). */
  predicate Choca(t: Tables, d: DatosPlaza, excluida: Option<Id>)
  {
    exists i :: 0 <= i < |t.plazas| && MismaCombinacion(t.plazas[i], d) && Some(t.plazas[i].id) != excluida
  }

  /** `SELECT id FROM <tabla> WHERE id = $1` has rows. */
  function HayFila<T>(filas: seq<T>, key: T -> int, n: Option<int>): (b: bool)
    ensures b <==> n.Some? && exists i :: 0 <= i < |filas| && key(filas[i]) == n.value
  {
    n.Some? && (CountPositiveIff(filas, (x: T) => key(x) == n.value); CountWhere(filas, (x: T) => key(x) == n.value) > 0)
  }

  /** The count of positions with the combination, other than `excluida`. */
  function Coincidencias(t: Tables, d: DatosPlaza, excluida: Option<Id>): (n: nat)
    ensures n > 0 <==> Choca(t, d, excluida)
  {
    CountPositiveIff(t.plazas, (p: Plaza) => MismaCombinacion(p, d) && Some(p.id) != excluida);
    CountWhere(t.plazas, (p: Plaza) => MismaCombinacion(p, d) && Some(p.id) != excluida)
  }

  /**
   * `validateForCreation(data)`: the message of the first failing check, or
   * `None`. The IPRESS must exist, then the group, then no position may
   * have the same combination of IPRESS, group and specialty.
   */
  function ValidateForCreation(t: Tables, d: DatosPlaza): (r: Option<string>)
    ensures r == if !IpressExiste(t, d) then Some(MsgIpressNoExiste)
                 else if !GrupoExiste(t, d) then Some(MsgGrupoNoExiste)
                 else if Choca(t, d, None) then Some(MsgCombinacion)
                 else None
  {
    if !HayFila(t.ipress, (i: Ipress) => i.id, d.ipressId) then Some(MsgIpressNoExiste)
    else if !HayFila(t.grupos, (g: Grupo) => g.id, d.grupoId) then Some(MsgGrupoNoExiste)
    else if Coincidencias(t, d, None) > 0 then Some(MsgCombinacion)
    else None
  }

  /** `validateForUpdate(id, data)`: the same checks, with `AND id != $3` on the last. */
  function ValidateForUpdate(t: Tables, id: Id, d: DatosPlaza): (r: Option<string>)
    ensures r == if !IpressExiste(t, d) then Some(MsgIpressNoExiste)
                 else if !GrupoExiste(t, d) then Some(MsgGrupoNoExiste)
                 else if Choca(t, d, Some(id)) then Some(MsgCombinacionOtra)
                 else None
  {
    if !HayFila(t.ipress, (i: Ipress) => i.id, d.ipressId) then Some(MsgIpressNoExiste)
    else if !HayFila(t.grupos, (g: Grupo) => g.id, d.grupoId) then Some(MsgGrupoNoExiste)
    else if Coincidencias(t, d, Some(id)) > 0 then Some(MsgCombinacionOtra)
    else None
  }

  /**
   * The update check ignores the position itself: when the only position
   * with the combination is the one being updated, the update passes and
   * a creation with the same data is rejected.
   */
  lemma UpdateIgnoraPropia(t: Tables, k: nat, d: DatosPlaza)
    requires k < |t.plazas| && IpressExiste(t, d) && GrupoExiste(t, d)
    requires MismaCombinacion(t.plazas[k], d)
    requires forall i :: 0 <= i < |t.plazas| && MismaCombinacion(t.plazas[i], d) ==> t.plazas[i].id == t.plazas[k].id
    ensures ValidateForUpdate(t, t.plazas[k].id, d).None?
    ensures ValidateForCreation(t, d) == Some(MsgCombinacion)
  {
  }

  /** Data that passes the creation check passes the update check of any position. */
  lemma CreacionImplicaUpdate(t: Tables, id: Id, d: DatosPlaza)
    requires ValidateForCreation(t, d).None?
    ensures ValidateForUpdate(t, id, d).None?
  {
    if Choca(t, d, Some(id)) {
      var i :| 0 <= i < |t.plazas| && MismaCombinacion(t.plazas[i], d) && Some(t.plazas[i].id) != Some(id);
      assert Choca(t, d, None);
    }
  }

  /**
   * Without a specialty (absent or empty) only a position whose specialty
   * is NULL clashes: one with any specialty, even the empty one, does not.
   */
  lemma SinEspecialidadSoloNull(p: Plaza, d: DatosPlaza)
    requires !EspecialidadDada(d) && p.especialidad.Some?
    ensures !MismaCombinacion(p, d)
  {
  }

  // ---------------------------------------------------------------- deletePlaza

  const MsgTieneAdjudicaciones := "No se puede eliminar la plaza porque tiene adjudicaciones asociadas"

  /** Some assignment row, in any state, references the position (a NULL `plaza_id` references none). */
  predicate TieneAdjudicaciones(t: Tables, id: Id)
  {
    exists i :: 0 <= i < |t.adjudicaciones| && t.adjudicaciones[i].plazaId == Some(id)
  }

  /** `deletePlaza(id)`: the tables afterwards and the deleted row, or the error that keeps them. */
  function AfterDeletePlaza(t: Tables, id: Id): (r: (Tables, Result<Option<Plaza>, string>))
    ensures r.1.Failure? <==> TieneAdjudicaciones(t, id)
    ensures r.1.Failure? ==> r.0 == t && r.1.error == MsgTieneAdjudicaciones
    ensures r.1.Success? ==>
              && r.1.value == FindPlaza(t, id)
              && r.0 == t.(plazas := r.0.plazas)
              && (forall p :: p in r.0.plazas <==> p in t.plazas && p.id != id)
  {
    CountPositiveIff(t.adjudicaciones, (a: Adjudicacion) => a.plazaId == Some(id));
    if CountWhere(t.adjudicaciones, (a: Adjudicacion) => a.plazaId == Some(id)) > 0 then
      (t, Failure(MsgTieneAdjudicaciones))
    else
      var w := BaseModel.Delete(t.plazas, (p: Plaza) => p.id, id);
      (t.(plazas := w.filas), Success(w.fila))
  }

  /** After a successful delete no position has the id, and the view has no row for it. */
  lemma DeletePlazaQuita(t: Tables, id: Id)
    requires AfterDeletePlaza(t, id).1.Success?
    ensures FindPlaza(AfterDeletePlaza(t, id).0, id).None?
    ensures CheckAvailability(AfterDeletePlaza(t, id).0, id).None?
  {
    var u := AfterDeletePlaza(t, id).0;
    assert forall p :: p in u.plazas ==> p.id != id;
    forall v | v in Vista(u) ensures v.id != id {
      var p :| p in u.plazas && VistaRowOf(u, p) == Some(v);
    }
  }

  /** Removing position rows keeps the keys unique and below the sequence. */
  lemma DeletePlazaValido(t: Tables, serial: nat, id: Id)
    requires KeysUnique(t) && KeysBelow(t, serial)
    ensures var u := t.(plazas := BaseModel.Delete(t.plazas, (p: Plaza) => p.id, id).filas);
      KeysUnique(u) && KeysBelow(u, serial)
  {
    var w := BaseModel.Delete(t.plazas, (p: Plaza) => p.id, id);
    assert w.filas == Filter(t.plazas, BaseModel.SinClave((p: Plaza) => p.id, id));
    UniqueFilter(t.plazas, (p: Plaza) => p.id, BaseModel.SinClave((p: Plaza) => p.id, id));
    BelowFilter(t.plazas, (p: Plaza) => p.id, serial, BaseModel.SinClave((p: Plaza) => p.id, id));
  }

  /** `deletePlaza` on the database: the count check, then the DELETE. */
  method DeletePlaza(db: Database, id: Id) returns (r: Result<Option<Plaza>, string>)
    requires db.Valid()
    modifies db
    ensures db.Valid() && db.serial == old(db.serial)
    ensures (db.tables, r) == AfterDeletePlaza(old(db.tables), id)
  {
    var cuenta := CountWhere(db.tables.adjudicaciones, (a: Adjudicacion) => a.plazaId == Some(id));
    if cuenta > 0 {
      return Failure(MsgTieneAdjudicaciones);
    }
    var w := BaseModel.Delete(db.tables.plazas, (p: Plaza) => p.id, id);
    DeletePlazaValido(db.tables, db.serial, id);
    db.tables := db.tables.(plazas := w.filas);
    r := Success(w.fila);
  }

  // ---------------------------------------------------------------- statistics

  /** `SUM(w)` over some view rows, as an integer (`Suma` below makes the empty sum NULL). */
  function SumaW(vs: seq<VistaRow>, w: VistaRow -> int): int
  {
    if vs == [] then 0 else w(vs[0]) + SumaW(vs[1..], w)
  }

  function PesoUno(v: VistaRow): int { 1 }
  function PesoTotal(v: VistaRow): int { v.total }
  function PesoAsignados(v: VistaRow): int { v.asignados }
  function PesoLibres(v: VistaRow): int { v.libres }

  /** `COUNT(*)`, `SUM(total)`, `SUM(asignados)` and `SUM(libres)` over some view rows. */
  datatype Totales = Totales(plazas: nat, posiciones: int, asignados: int, libres: int)

  /** The totals of some rows. */
  function TotalesDe(vs: seq<VistaRow>): (r: Totales)
    ensures r.plazas == |vs|
  {
    Totales(|vs|, SumaW(vs, PesoTotal), SumaW(vs, PesoAsignados), SumaW(vs, PesoLibres))
  }

  /** Counting is summing ones. */
  lemma {:induction false} SumaUno(vs: seq<VistaRow>)
    ensures SumaW(vs, PesoUno) == |vs|
  {
    if vs != [] {
      SumaUno(vs[1..]);
    }
  }

  /** The totals of a position are consistent: seats taken plus seats free make its total. */
  lemma {:induction false} TotalesConsistentes(vs: seq<VistaRow>)
    requires forall i :: 0 <= i < |vs| ==> vs[i].libres == vs[i].total - vs[i].asignados
    ensures TotalesDe(vs).libres == TotalesDe(vs).posiciones - TotalesDe(vs).asignados
  {
    if vs != [] {
      assert forall i :: 0 <= i < |vs[1..]| ==> vs[1..][i] == vs[i + 1];
      TotalesConsistentes(vs[1..]);
    }
  }

  /** `SUM` over no rows is NULL. */
  function Suma(vs: seq<VistaRow>, x: int): Option<int>
  {
    if vs == [] then None else Some(x)
  }

  /** The values of one text column of some view rows. */
  function Columna(vs: seq<VistaRow>, campo: VistaRow -> string): (r: seq<string>)
    ensures |r| == |vs| && forall i :: 0 <= i < |vs| ==> r[i] == campo(vs[i])
  {
    seq(|vs|, i requires 0 <= i < |vs| => campo(vs[i]))
  }

  function CampoRed(v: VistaRow): string { v.red }
  function CampoIpress(v: VistaRow): string { v.ipress }
  function CampoGrupo(v: VistaRow): string { v.grupoOcupacional }

  /** The row `getGeneralStats` returns. */
  datatype Generales = Generales(totalPlazas: nat, totalPosiciones: Option<int>, totalAsignados: Option<int>,
                                 totalLibres: Option<int>, totalRedes: nat, totalIpress: nat, totalGrupos: nat)

  /** `getGeneralStats()`: the counts and sums over the whole view, `COUNT(DISTINCT ...)` per name. */
  function GetGeneralStats(t: Tables): (r: Generales)
    ensures r.totalPlazas == |Vista(t)|
    ensures r.totalPosiciones.None? <==> Vista(t) == []
    ensures r.totalPosiciones.Some? ==> r.totalPosiciones.value == TotalesDe(Vista(t)).posiciones
    ensures r.totalRedes <= r.totalPlazas && r.totalIpress <= r.totalPlazas && r.totalGrupos <= r.totalPlazas
    ensures r.totalRedes == 0 <==> Vista(t) == []
  {
    var vs := Vista(t);
    var tot := TotalesDe(vs);
    var redes := Dedup(Columna(vs, CampoRed));
    assert vs != [] ==> Columna(vs, CampoRed)[0] in redes;
    Generales(|vs|, Suma(vs, tot.posiciones), Suma(vs, tot.asignados), Suma(vs, tot.libres),
              |redes|, |Dedup(Columna(vs, CampoIpress))|, |Dedup(Columna(vs, CampoGrupo))|)
  }

  /** The rows of one group of a `GROUP BY`. */
  function DelGrupo<K(==)>(campo: VistaRow -> K, k: K): VistaRow -> bool
  {
    (v: VistaRow) => campo(v) == k
  }

  function TextoKey(s: string): seq<Key>
  {
    [Str(s)]
  }

  /** One row of `GROUP BY <campo>`: the group's value and its totals. */
  datatype Agregado = Agregado(nombre: string, totales: Totales)

  function Nombres(gs: seq<Agregado>): (r: seq<string>)
    ensures |r| == |gs| && forall i :: 0 <= i < |gs| ==> r[i] == gs[i].nombre
  {
    seq(|gs|, i requires 0 <= i < |gs| => gs[i].nombre)
  }

  /** `GROUP BY campo ORDER BY campo`: one row per distinct value, ascending. */
  function Agrupar(vs: seq<VistaRow>, campo: VistaRow -> string): (r: seq<Agregado>)
    ensures SortedBy(Nombres(r), TextoKey) && Distinct(Nombres(r))
    ensures forall k :: k in Nombres(r) <==> k in Columna(vs, campo)
    ensures forall i :: 0 <= i < |r| ==> r[i].totales == TotalesDe(Filter(vs, DelGrupo(campo, r[i].nombre)))
                                         && r[i].totales.plazas > 0
  {
    var todas := Columna(vs, campo);
    var claves := SortBy(Dedup(todas), TextoKey);
    SortByMembers(Dedup(todas), TextoKey);
    SortByDistinct(Dedup(todas), TextoKey);
    var r := seq(|claves|, i requires 0 <= i < |claves| => Agregado(claves[i], TotalesDe(Filter(vs, DelGrupo(campo, claves[i])))));
    assert Nombres(r) == claves;
    forall i | 0 <= i < |r| ensures r[i].totales.plazas > 0 {
      assert claves[i] in todas;
      var j :| 0 <= j < |todas| && todas[j] == claves[i];
      assert vs[j] in Filter(vs, DelGrupo(campo, claves[i]));
    }
    r
  }

  /** `getPlazasByRed()`. */
  function GetPlazasByRed(t: Tables): seq<Agregado>
  {
    Agrupar(Vista(t), CampoRed)
  }

  /** `getPlazasByGrupoOcupacional()`. */
  function GetPlazasByGrupoOcupacional(t: Tables): seq<Agregado>
  {
    Agrupar(Vista(t), CampoGrupo)
  }

  /** The groups' totals added up. */
  function SumaGrupos(gs: seq<Agregado>): Totales
  {
    if gs == [] then Totales(0, 0, 0, 0)
    else
      var resto := SumaGrupos(gs[1..]);
      var t := gs[0].totales;
      Totales(t.plazas + resto.plazas, t.posiciones + resto.posiciones, t.asignados + resto.asignados,
              t.libres + resto.libres)
  }

  /** The sums of `w` over the groups of the values `ks`. */
  function SumaClaves<K(==)>(vs: seq<VistaRow>, campo: VistaRow -> K, ks: seq<K>, w: VistaRow -> int): int
  {
    if ks == [] then 0 else SumaW(Filter(vs, DelGrupo(campo, ks[0])), w) + SumaClaves(vs, campo, ks[1..], w)
  }

  /** What one row adds to the groups of the values `ks`. */
  function Aporte<K(==)>(v: VistaRow, campo: VistaRow -> K, ks: seq<K>, w: VistaRow -> int): int
  {
    if ks == [] then 0 else (if campo(v) == ks[0] then w(v) else 0) + Aporte(v, campo, ks[1..], w)
  }

  lemma {:induction false} SumaClavesVacia<K>(campo: VistaRow -> K, ks: seq<K>, w: VistaRow -> int)
    ensures SumaClaves([], campo, ks, w) == 0
  {
    if ks != [] {
      SumaClavesVacia(campo, ks[1..], w);
      var vacio: seq<VistaRow> := [];
      assert Filter(vacio, DelGrupo(campo, ks[0])) == [];
    }
  }

  /** Splitting off the first row of the view splits every group's sum alike. */
  lemma {:induction false} SumaClavesCabeza<K>(vs: seq<VistaRow>, campo: VistaRow -> K, ks: seq<K>, w: VistaRow -> int)
    requires vs != []
    ensures SumaClaves(vs, campo, ks, w) == Aporte(vs[0], campo, ks, w) + SumaClaves(vs[1..], campo, ks, w)
  {
    if ks != [] {
      SumaClavesCabeza(vs, campo, ks[1..], w);
      var p := DelGrupo(campo, ks[0]);
      assert vs == [vs[0]] + vs[1..];
      if p(vs[0]) {
        assert Filter(vs, p) == [vs[0]] + Filter(vs[1..], p);
        assert Filter(vs, p)[1..] == Filter(vs[1..], p);
      } else {
        assert Filter(vs, p) == Filter(vs[1..], p);
      }
    }
  }

  /** A row adds to exactly one group when the values are distinct and include its own. */
  lemma {:induction false} AporteUno<K>(v: VistaRow, campo: VistaRow -> K, ks: seq<K>, w: VistaRow -> int)
    requires Distinct(ks) && campo(v) in ks
    ensures Aporte(v, campo, ks, w) == w(v)
  {
    assert ks == [ks[0]] + ks[1..];
    assert Distinct(ks[1..]) by {
      forall i, j | 0 <= i < j < |ks[1..]| ensures ks[1..][i] != ks[1..][j] {
        assert ks[1..][i] == ks[i + 1] && ks[1..][j] == ks[j + 1];
      }
    }
    if campo(v) == ks[0] {
      assert forall i :: 0 <= i < |ks[1..]| ==> ks[1..][i] == ks[i + 1];
      AporteCero(v, campo, ks[1..], w);
    } else {
      AporteUno(v, campo, ks[1..], w);
    }
  }

  /** A row adds nothing to the groups of values other than its own. */
  lemma {:induction false} AporteCero<K>(v: VistaRow, campo: VistaRow -> K, ks: seq<K>, w: VistaRow -> int)
    requires forall i :: 0 <= i < |ks| ==> ks[i] != campo(v)
    ensures Aporte(v, campo, ks, w) == 0
  {
    if ks != [] {
      assert forall i :: 0 <= i < |ks[1..]| ==> ks[1..][i] == ks[i + 1];
      AporteCero(v, campo, ks[1..], w);
    }
  }

  /** Groups over distinct values that cover every row add up to the sum over all the rows. */
  lemma {:induction false} Particion<K>(vs: seq<VistaRow>, campo: VistaRow -> K, ks: seq<K>, w: VistaRow -> int)
    requires Distinct(ks)
    requires forall i :: 0 <= i < |vs| ==> campo(vs[i]) in ks
    ensures SumaClaves(vs, campo, ks, w) == SumaW(vs, w)
  {
    if vs == [] {
      SumaClavesVacia(campo, ks, w);
    } else {
      assert forall i :: 0 <= i < |vs[1..]| ==> vs[1..][i] == vs[i + 1];
      Particion(vs[1..], campo, ks, w);
      SumaClavesCabeza(vs, campo, ks, w);
      AporteUno(vs[0], campo, ks, w);
    }
  }

  /** The groups' sums, field by field, are the sums over their values. */
  lemma {:induction false} SumaGruposClaves(vs: seq<VistaRow>, campo: VistaRow -> string, gs: seq<Agregado>)
    requires forall i :: 0 <= i < |gs| ==> gs[i].totales == TotalesDe(Filter(vs, DelGrupo(campo, gs[i].nombre)))
    ensures SumaGrupos(gs).plazas == SumaClaves(vs, campo, Nombres(gs), PesoUno)
    ensures SumaGrupos(gs).posiciones == SumaClaves(vs, campo, Nombres(gs), PesoTotal)
    ensures SumaGrupos(gs).asignados == SumaClaves(vs, campo, Nombres(gs), PesoAsignados)
    ensures SumaGrupos(gs).libres == SumaClaves(vs, campo, Nombres(gs), PesoLibres)
  {
    if gs != [] {
      SumaGruposClaves(vs, campo, gs[1..]);
      assert Nombres(gs)[1..] == Nombres(gs[1..]);
      SumaUno(Filter(vs, DelGrupo(campo, gs[0].nombre)));
    }
  }

  /**
   * The groups of a `GROUP BY` partition the rows: their counts, and each
   * of their sums, add up to those of the whole view.
   */
  lemma AgruparParticiona(vs: seq<VistaRow>, campo: VistaRow -> string)
    ensures SumaGrupos(Agrupar(vs, campo)) == TotalesDe(vs)
  {
    var gs := Agrupar(vs, campo);
    SumaGruposClaves(vs, campo, gs);
    forall i | 0 <= i < |vs| ensures campo(vs[i]) in Nombres(gs) {
      assert Columna(vs, campo)[i] == campo(vs[i]);
    }
    Particion(vs, campo, Nombres(gs), PesoUno);
    Particion(vs, campo, Nombres(gs), PesoTotal);
    Particion(vs, campo, Nombres(gs), PesoAsignados);
    Particion(vs, campo, Nombres(gs), PesoLibres);
    SumaUno(vs);
  }

  /**
   * The per-red groups of `getPlazasByRed` add up to the general figures:
   * their `total_plazas` sum to `getGeneralStats().total_plazas`, and
   * their `total_posiciones` to its `total_posiciones` (0 for an empty
   * view, whose sum is NULL). The per-group rows do the same.
   */
  lemma PorRedSumaGenerales(t: Tables)
    ensures SumaGrupos(GetPlazasByRed(t)).plazas == GetGeneralStats(t).totalPlazas
    ensures SumaGrupos(GetPlazasByRed(t)).posiciones == GetGeneralStats(t).totalPosiciones.GetOr(0)
    ensures SumaGrupos(GetPlazasByGrupoOcupacional(t)).plazas == GetGeneralStats(t).totalPlazas
  {
    AgruparParticiona(Vista(t), CampoRed);
    AgruparParticiona(Vista(t), CampoGrupo);
  }
}
