/**
 * The PostgreSQL database of the assignment system as in-memory tables.
 *
 * Each table is a sequence of rows in physical order. `Database` is the one
 * mutable object: the models' transactions replace its `tables` value
 * wholesale on COMMIT and leave it as it was on ROLLBACK.
 *
 * The view `plazas_con_disponibilidad` is not part of this model's sources;
 * it is modelled by `Vista` under a stated assumption: a position's
 * `asignados` is the number of assignment rows with that `plaza_id` in state
 * 'adjudicado', and `libres = total - asignados`.
 */
module Store {
  import opened Wrappers
  import opened Relational

  type Id = nat

  /** A moment, as the value CURRENT_TIMESTAMP or `new Date()` gives it. */
  type Time = nat

  /** The assignment states of `EstadoAdjudicacion`; "no row yet" is `None` wherever a row may be missing. */
  datatype Estado = Pendiente | Adjudicado | Desistido | Renuncio | Ausente

  /** The text stored in the `estado` column. */
  function EstadoText(e: Estado): string
  {
    match e
    case Pendiente => "pendiente"
    case Adjudicado => "adjudicado"
    case Desistido => "desistido"
    case Renuncio => "renuncio"
    case Ausente => "ausente"
  }

  /** The state a stored `estado` text denotes, if any. */
  function ParseEstado(s: string): (r: Option<Estado>)
    ensures r.Some? ==> EstadoText(r.value) == s
  {
    if s == "pendiente" then Some(Pendiente)
    else if s == "adjudicado" then Some(Adjudicado)
    else if s == "desistido" then Some(Desistido)
    else if s == "renuncio" then Some(Renuncio)
    else if s == "ausente" then Some(Ausente)
    else None
  }

  /** Every state has its own text, and reading it back gives the state. */
  lemma EstadoTextRoundTrip(e: Estado)
    ensures ParseEstado(EstadoText(e)) == Some(e)
  {
  }

  // ---------------------------------------------------------------- rows

  // The `created_at` and `updated_at` columns are not modelled in any table.

  datatype Red = Red(id: Id, nombre: string)

  datatype Ipress = Ipress(id: Id, nombre: string, redId: Id)

  datatype Grupo = Grupo(id: Id, nombre: string)

  /** A position: a number `total` of seats of one group at one IPRESS. */
  datatype Plaza = Plaza(id: Id, ipressId: Id, grupoId: Id, subunidad: string,
                         especialidad: Option<string>, total: int)

  /** A candidate. `apellidosNombres` is the column the name search reads; import leaves it NULL. */
  datatype Postulante = Postulante(id: Id, ordenMerito: int, apellidos: Option<string>, nombres: Option<string>,
                                   apellidosNombres: Option<string>, dni: Option<string>, grupoId: Id,
                                   especialidad: Option<string>)

  /** A candidate's assignment row. */
  datatype Adjudicacion = Adjudicacion(id: Id, postulanteId: Id, plazaId: Option<Id>, estado: Estado,
                                       fechaAdjudicacion: Option<Time>, fechaDesistimiento: Option<Time>,
                                       observaciones: Option<string>)

  datatype Tables = Tables(redes: seq<Red>, ipress: seq<Ipress>, grupos: seq<Grupo>, plazas: seq<Plaza>,
                           postulantes: seq<Postulante>, adjudicaciones: seq<Adjudicacion>)

  /** An empty database. */
  function EmptyTables(): Tables
  {
    Tables([], [], [], [], [], [])
  }

  /** Primary keys are unique in every table. */
  predicate KeysUnique(t: Tables)
  {
    Unique(t.redes, (r: Red) => r.id) && Unique(t.ipress, (i: Ipress) => i.id)
    && Unique(t.grupos, (g: Grupo) => g.id) && Unique(t.plazas, (p: Plaza) => p.id)
    && Unique(t.postulantes, (p: Postulante) => p.id) && Unique(t.adjudicaciones, (a: Adjudicacion) => a.id)
  }

  /** Every primary key is below `serial`, the next value the id sequence hands out. */
  predicate KeysBelow(t: Tables, serial: nat)
  {
    (forall i :: 0 <= i < |t.redes| ==> t.redes[i].id < serial)
    && (forall i :: 0 <= i < |t.ipress| ==> t.ipress[i].id < serial)
    && (forall i :: 0 <= i < |t.grupos| ==> t.grupos[i].id < serial)
    && (forall i :: 0 <= i < |t.plazas| ==> t.plazas[i].id < serial)
    && (forall i :: 0 <= i < |t.postulantes| ==> t.postulantes[i].id < serial)
    && (forall i :: 0 <= i < |t.adjudicaciones| ==> t.adjudicaciones[i].id < serial)
  }

  /** Appending a position that takes the next id keeps both key invariants once the sequence advances. */
  lemma NuevaPlazaIntegra(t: Tables, serial: nat, p: Plaza)
    requires KeysUnique(t) && KeysBelow(t, serial) && p.id == serial
    ensures KeysUnique(t.(plazas := t.plazas + [p])) && KeysBelow(t.(plazas := t.plazas + [p]), serial + 1)
  {
    UniqueAppend(t.plazas, (x: Plaza) => x.id, p);
  }

  /** The database: the tables and the id sequence. */
  class Database {
    var tables: Tables
    var serial: nat

    ghost predicate Valid()
      reads this
    {
      KeysUnique(tables) && KeysBelow(tables, serial)
    }

    constructor ()
      ensures Valid()
      ensures tables == EmptyTables() && serial == 1
    {
      tables := EmptyTables();
      serial := 1;
    }

    /** `INSERT INTO plazas … RETURNING id` of a position that takes the sequence's next value. */
    method InsertarPlaza(p: Plaza)
      requires Valid() && p.id == serial
      modifies this
      ensures Valid()
      ensures tables == old(tables).(plazas := old(tables).plazas + [p]) && serial == old(serial) + 1
    {
      NuevaPlazaIntegra(tables, serial, p);
      tables := tables.(plazas := tables.plazas + [p]);
      serial := serial + 1;
    }

    /**
     * `ROLLBACK`: the tables go back to those saved at `BEGIN`, whose keys
     * were below `desde`; the id sequence keeps its advance.
     */
    method Rollback(respaldo: Tables, ghost desde: nat)
      requires KeysUnique(respaldo) && KeysBelow(respaldo, desde) && desde <= serial
      modifies this
      ensures Valid()
      ensures tables == respaldo && serial == old(serial)
    {
      tables := respaldo;
    }
  }

  // ---------------------------------------------------------------- lookups by key

  function FindRed(t: Tables, id: Id): Option<Red>
  {
    First(t.redes, (r: Red) => r.id == id)
  }

  function FindIpress(t: Tables, id: Id): Option<Ipress>
  {
    First(t.ipress, (i: Ipress) => i.id == id)
  }

  function FindGrupo(t: Tables, id: Id): Option<Grupo>
  {
    First(t.grupos, (g: Grupo) => g.id == id)
  }

  function FindPlaza(t: Tables, id: Id): Option<Plaza>
  {
    First(t.plazas, (p: Plaza) => p.id == id)
  }

  function FindPostulante(t: Tables, id: Id): Option<Postulante>
  {
    First(t.postulantes, (p: Postulante) => p.id == id)
  }

  /** `SELECT * FROM adjudicaciones WHERE postulante_id = $1`, first row. */
  function RowFor(adjs: seq<Adjudicacion>, postulanteId: Id): Option<Adjudicacion>
  {
    First(adjs, (a: Adjudicacion) => a.postulanteId == postulanteId)
  }

  /** `adj.estado` in `postulantes LEFT JOIN adjudicaciones`: `None` when the candidate has no row. */
  function EstadoOf(t: Tables, postulanteId: Id): Option<Estado>
  {
    match RowFor(t.adjudicaciones, postulanteId)
    case None => None
    case Some(a) => Some(a.estado)
  }

  // ---------------------------------------------------------------- free capacity

  /** Rows that occupy a seat of position `plazaId`. */
  predicate Ocupa(a: Adjudicacion, plazaId: Id)
  {
    a.plazaId == Some(plazaId) && a.estado == Adjudicado
  }

  /** Seats of the position taken: rows with that `plaza_id` in state 'adjudicado'. */
  function Asignados(adjs: seq<Adjudicacion>, plazaId: Id): nat
  {
    CountWhere(adjs, (a: Adjudicacion) => Ocupa(a, plazaId))
  }

  /** Seats of the position; an unknown position has none. */
  function Total(t: Tables, plazaId: Id): int
  {
    match FindPlaza(t, plazaId)
    case None => 0
    case Some(p) => p.total
  }

  /** Free seats, the value `obtener_plazas_disponibles` is assumed to return: `total - asignados`. */
  function Libres(t: Tables, plazaId: Id): int
  {
    Total(t, plazaId) - Asignados(t.adjudicaciones, plazaId)
  }

  /** A position with free seats exists. */
  lemma LibresPositiveHasPlaza(t: Tables, plazaId: Id)
    requires Libres(t, plazaId) > 0
    ensures FindPlaza(t, plazaId).Some?
  {
  }

  /** A row of `plazas_con_disponibilidad`. */
  datatype VistaRow = VistaRow(id: Id, red: string, ipress: string, grupoOcupacional: string, subunidad: string,
                               especialidad: Option<string>, total: int, asignados: nat, libres: int)

  /** The view row of one position, if its IPRESS, red and group exist (inner joins). */
  function VistaRowOf(t: Tables, p: Plaza): (r: Option<VistaRow>)
    ensures r.Some? ==> r.value.id == p.id && r.value.total == p.total
    ensures r.Some? ==> r.value.asignados == Asignados(t.adjudicaciones, p.id) && r.value.libres == p.total - r.value.asignados
    ensures r.Some? <==> FindIpress(t, p.ipressId).Some? && FindGrupo(t, p.grupoId).Some?
                         && FindRed(t, FindIpress(t, p.ipressId).value.redId).Some?
  {
    match (FindIpress(t, p.ipressId), FindGrupo(t, p.grupoId))
    case (Some(i), Some(g)) =>
      (match FindRed(t, i.redId)
       case Some(r) =>
         var n := Asignados(t.adjudicaciones, p.id);
         Some(VistaRow(p.id, r.nombre, i.nombre, g.nombre, p.subunidad, p.especialidad, p.total, n, p.total - n))
       case None => None)
    case _ => None
  }

  /** `plazas_con_disponibilidad`, one row per joinable position, in table order. */
  function Vista(t: Tables): seq<VistaRow>
  {
    VistaOf(t, t.plazas)
  }

  function VistaOf(t: Tables, ps: seq<Plaza>): (r: seq<VistaRow>)
    ensures |r| <= |ps|
    ensures forall v :: v in r <==> exists p :: p in ps && VistaRowOf(t, p) == Some(v)
  {
    if ps == [] then []
    else
      var rest := VistaOf(t, ps[1..]);
      assert forall p :: p in ps <==> p == ps[0] || p in ps[1..];
      match VistaRowOf(t, ps[0])
      case Some(v) => [v] + rest
      case None => rest
  }

  /** In a table with unique keys, looking a position up by the id of row `k` finds row `k`. */
  lemma FindPlazaAt(t: Tables, k: nat)
    requires KeysUnique(t) && k < |t.plazas|
    ensures FindPlaza(t, t.plazas[k].id) == Some(t.plazas[k])
  {
    var id := t.plazas[k].id;
    assert forall i :: 0 <= i < k ==> t.plazas[i].id != id by {
      assert Unique(t.plazas, (q: Plaza) => q.id);
    }
    FirstAt(t.plazas, (q: Plaza) => q.id == id, k);
  }

  /** A view row describes its position: its libres are the free seats of that position. */
  lemma VistaLibres(t: Tables, v: VistaRow)
    requires KeysUnique(t)
    requires v in Vista(t)
    ensures FindPlaza(t, v.id).Some? && v.libres == Libres(t, v.id)
    ensures v.libres == v.total - v.asignados
  {
    var p :| p in t.plazas && VistaRowOf(t, p) == Some(v);
    var k :| 0 <= k < |t.plazas| && t.plazas[k] == p;
    VistaRowLibres(t, k);
  }

  /** The view row of position `k`, when there is one, counts that position's free seats. */
  lemma VistaRowLibres(t: Tables, k: nat)
    requires KeysUnique(t) && k < |t.plazas| && VistaRowOf(t, t.plazas[k]).Some?
    ensures var v := VistaRowOf(t, t.plazas[k]).value;
      FindPlaza(t, v.id).Some? && v.libres == Libres(t, v.id)
  {
    FindPlazaAt(t, k);
  }

  /** The view has one row per position: its ids are unique. */
  lemma VistaUnica(t: Tables)
    requires KeysUnique(t)
    ensures Unique(Vista(t), (v: VistaRow) => v.id)
  {
    VistaOfUnica(t, t.plazas);
  }

  lemma {:induction false} VistaOfUnica(t: Tables, ps: seq<Plaza>)
    requires Unique(ps, (p: Plaza) => p.id)
    ensures Unique(VistaOf(t, ps), (v: VistaRow) => v.id)
  {
    if ps != [] {
      UniqueTail(ps, (p: Plaza) => p.id);
      VistaOfUnica(t, ps[1..]);
      if VistaRowOf(t, ps[0]).Some? {
        VistaOfCons(t, ps);
        VistaOfOtherIds(t, ps);
        UniquePrepend(VistaRowOf(t, ps[0]).value, VistaOf(t, ps[1..]), (v: VistaRow) => v.id);
      }
    }
  }

  lemma VistaOfCons(t: Tables, ps: seq<Plaza>)
    requires ps != [] && VistaRowOf(t, ps[0]).Some?
    ensures VistaOf(t, ps) == [VistaRowOf(t, ps[0]).value] + VistaOf(t, ps[1..])
  {
  }

  /** The rows the rest of the positions give have ids other than the first position's. */
  lemma VistaOfOtherIds(t: Tables, ps: seq<Plaza>)
    requires ps != [] && Unique(ps, (p: Plaza) => p.id)
    ensures forall j :: 0 <= j < |VistaOf(t, ps[1..])| ==> VistaOf(t, ps[1..])[j].id != ps[0].id
  {
    var rest := VistaOf(t, ps[1..]);
    forall j | 0 <= j < |rest| ensures rest[j].id != ps[0].id {
      VistaOfIdFrom(t, ps[1..], rest[j]);
      var k :| 0 <= k < |ps[1..]| && ps[1..][k].id == rest[j].id;
      assert ps[k + 1].id == rest[j].id;
    }
  }

  lemma VistaOfIdFrom(t: Tables, ps: seq<Plaza>, v: VistaRow)
    requires v in VistaOf(t, ps)
    ensures exists k :: 0 <= k < |ps| && ps[k].id == v.id
  {
    var p :| p in ps && VistaRowOf(t, p) == Some(v);
    var k :| 0 <= k < |ps| && ps[k] == p;
  }
}
