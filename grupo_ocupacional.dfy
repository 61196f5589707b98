/**
 * The occupational-group model `GrupoOcupacional`: lookup and search by
 * name, the name validators, the guarded delete, the next free merit rank,
 * the specialties offered by a group's positions and the candidates of a
 * group with their assignment.
 */
module GruposOcupacionales {
  import opened Wrappers
  import opened Text
  import opened Relational
  import opened Store
  import BaseModel

  // ---------------------------------------------------------------- findByNombre / searchByNombre

  /** `findByNombre(nombre)`: `WHERE nombre = $1`, the first row or `null`. */
  function FindByNombre(t: Tables, nombre: string): (r: Option<Grupo>)
    ensures r.None? <==> forall i :: 0 <= i < |t.grupos| ==> t.grupos[i].nombre != nombre
    ensures r.Some? ==> r.value.nombre == nombre && r.value in t.grupos
  {
    First(t.grupos, (g: Grupo) => g.nombre == nombre)
  }

  function NombreKey(g: Grupo): seq<Key>
  {
    [Str(g.nombre)]
  }

  /** `searchByNombre(term)`: `nombre ILIKE '%term%' ORDER BY nombre`. */
  function SearchByNombre(t: Tables, term: string): (r: seq<Grupo>)
    ensures SortedBy(r, NombreKey)
    ensures forall g :: g in r <==> g in t.grupos && ILikeContains(g.nombre, term)
  {
    var filas := Filter(t.grupos, (g: Grupo) => ILikeContains(g.nombre, term));
    SortByMembers(filas, NombreKey);
    SortBy(filas, NombreKey)
  }

  /** The empty term matches every group. */
  lemma SearchTodo(t: Tables)
    ensures forall g :: g in SearchByNombre(t, "") <==> g in t.grupos
  {
    forall g: Grupo {
      ILikeVacio(g.nombre);
    }
  }

  // ---------------------------------------------------------------- validateForCreation / validateForUpdate

  function MsgNombreExiste(nombre: string): string
  {
    "Ya existe un grupo ocupacional con el nombre: " + nombre
  }

  function MsgNombreOtro(nombre: string): string
  {
    "Ya existe otro grupo ocupacional con el nombre: " + nombre
  }

  /** `validateForCreation(nombre)`: rejected exactly when some group has that name. */
  function ValidateForCreation(t: Tables, nombre: string): (r: Option<string>)
    ensures r.Some? <==> exists i :: 0 <= i < |t.grupos| && t.grupos[i].nombre == nombre
    ensures r.Some? ==> r.value == MsgNombreExiste(nombre)
  {
    if FindByNombre(t, nombre).Some? then Some(MsgNombreExiste(nombre)) else None
  }

  /**
   * `validateForUpdate(id, nombre)`: the first group with the name clashes
   * unless its id is `parseInt(id)`; an id that does not parse (NaN)
   * differs from every id.
   */
  function ValidateForUpdate(t: Tables, id: string, nombre: string): (r: Option<string>)
    ensures r.Some? ==> r.value == MsgNombreOtro(nombre)
    ensures r.Some? ==> exists i :: 0 <= i < |t.grupos| && t.grupos[i].nombre == nombre
                                    && ParseInt(id) != Some(t.grupos[i].id)
    ensures (forall i :: 0 <= i < |t.grupos| && t.grupos[i].nombre == nombre ==> ParseInt(id) == Some(t.grupos[i].id))
            ==> r.None?
    ensures (exists i :: 0 <= i < |t.grupos| && t.grupos[i].nombre == nombre)
            && (forall i :: 0 <= i < |t.grupos| && t.grupos[i].nombre == nombre ==> ParseInt(id) != Some(t.grupos[i].id))
            ==> r.Some?
  {
    var existing := FindByNombre(t, nombre);
    if existing.Some? && ParseInt(id) != Some(existing.value.id) then Some(MsgNombreOtro(nombre)) else None
  }

  /**
   * Renaming a group to its own name passes, and a creation with that name
   * does not: the update check skips the group itself when group ids are
   * unique.
   */
  lemma UpdateIgnoraPropio(t: Tables, k: nat)
    requires k < |t.grupos| && Unique(t.grupos, (g: Grupo) => g.id)
    requires forall i :: 0 <= i < |t.grupos| && t.grupos[i].nombre == t.grupos[k].nombre ==> i == k
    ensures ValidateForUpdate(t, IntToString(t.grupos[k].id), t.grupos[k].nombre).None?
    ensures ValidateForCreation(t, t.grupos[k].nombre).Some?
  {
    ParseIntRoundTrip(t.grupos[k].id);
  }

  // ---------------------------------------------------------------- deleteGrupoOcupacional

  const MsgTienePlazas := "No se puede eliminar el grupo ocupacional porque tiene plazas asociadas"
  const MsgTienePostulantes := "No se puede eliminar el grupo ocupacional porque tiene postulantes asociados"

  predicate TienePlazas(t: Tables, id: Id)
  {
    exists i :: 0 <= i < |t.plazas| && t.plazas[i].grupoId == id
  }

  predicate TienePostulantes(t: Tables, id: Id)
  {
    exists i :: 0 <= i < |t.postulantes| && t.postulantes[i].grupoId == id
  }

  /** `DELETE FROM grupos_ocupacionales WHERE id = $1 RETURNING *` returns the group and keeps every other one. */
  lemma BorraGrupo(t: Tables, id: Id)
    ensures var w := BaseModel.Delete(t.grupos, (g: Grupo) => g.id, id);
      && w.fila == FindGrupo(t, id)
      && forall g :: g in w.filas <==> g in t.grupos && g.id != id
  {
    var w := BaseModel.Delete(t.grupos, (g: Grupo) => g.id, id);
    FirstSame(t.grupos, BaseModel.ConClave((g: Grupo) => g.id, id), (g: Grupo) => g.id == id);
  }

  /** The two `COUNT(*)`s are positive exactly when some row references the group. */
  lemma CuentaTiene(t: Tables, id: Id)
    ensures CountWhere(t.plazas, (p: Plaza) => p.grupoId == id) > 0 <==> TienePlazas(t, id)
    ensures CountWhere(t.postulantes, (p: Postulante) => p.grupoId == id) > 0 <==> TienePostulantes(t, id)
  {
    CountPositiveIff(t.plazas, (p: Plaza) => p.grupoId == id);
    CountPositiveIff(t.postulantes, (p: Postulante) => p.grupoId == id);
  }

  /**
   * `deleteGrupoOcupacional(id)`: positions are counted first, candidates
   * only when there are no positions, and the row is deleted only when
   * there are neither.
   */
  function AfterDeleteGrupo(t: Tables, id: Id): (r: (Tables, Result<Option<Grupo>, string>))
    ensures TienePlazas(t, id) ==> r == (t, Failure(MsgTienePlazas))
    ensures !TienePlazas(t, id) && TienePostulantes(t, id) ==> r == (t, Failure(MsgTienePostulantes))
    ensures r.1.Success? <==> !TienePlazas(t, id) && !TienePostulantes(t, id)
    ensures r.1.Success? ==>
              && r.1.value == FindGrupo(t, id)
              && r.0 == t.(grupos := r.0.grupos)
              && (forall g :: g in r.0.grupos <==> g in t.grupos && g.id != id)
  {
    CuentaTiene(t, id);
    if CountWhere(t.plazas, (p: Plaza) => p.grupoId == id) > 0 then (t, Failure(MsgTienePlazas))
    else if CountWhere(t.postulantes, (p: Postulante) => p.grupoId == id) > 0 then (t, Failure(MsgTienePostulantes))
    else
      var w := BaseModel.Delete(t.grupos, (g: Grupo) => g.id, id);
      BorraGrupo(t, id);
      (t.(grupos := w.filas), Success(w.fila))
  }

  /** A successful delete leaves no group with the id and no row that referenced it. */
  lemma DeleteGrupoQuita(t: Tables, id: Id)
    requires AfterDeleteGrupo(t, id).1.Success?
    ensures FindGrupo(AfterDeleteGrupo(t, id).0, id).None?
    ensures !TienePlazas(AfterDeleteGrupo(t, id).0, id) && !TienePostulantes(AfterDeleteGrupo(t, id).0, id)
  {
    var u := AfterDeleteGrupo(t, id).0;
    assert forall g :: g in u.grupos ==> g.id != id;
  }

  /** Removing group rows keeps the keys unique and below the sequence. */
  lemma DeleteGrupoValido(t: Tables, serial: nat, id: Id)
    requires KeysUnique(t) && KeysBelow(t, serial)
    ensures var u := t.(grupos := BaseModel.Delete(t.grupos, (g: Grupo) => g.id, id).filas);
      KeysUnique(u) && KeysBelow(u, serial)
  {
    var w := BaseModel.Delete(t.grupos, (g: Grupo) => g.id, id);
    assert w.filas == Filter(t.grupos, BaseModel.SinClave((g: Grupo) => g.id, id));
    UniqueFilter(t.grupos, (g: Grupo) => g.id, BaseModel.SinClave((g: Grupo) => g.id, id));
    BelowFilter(t.grupos, (g: Grupo) => g.id, serial, BaseModel.SinClave((g: Grupo) => g.id, id));
  }

  /** `deleteGrupoOcupacional` on the database: the two counts, then the DELETE. */
  method DeleteGrupo(db: Database, id: Id) returns (r: Result<Option<Grupo>, string>)
    requires db.Valid()
    modifies db
    ensures db.Valid() && db.serial == old(db.serial)
    ensures (db.tables, r) == AfterDeleteGrupo(old(db.tables), id)
  {
    var plazas := CountWhere(db.tables.plazas, (p: Plaza) => p.grupoId == id);
    if plazas > 0 {
      return Failure(MsgTienePlazas);
    }
    var postulantes := CountWhere(db.tables.postulantes, (p: Postulante) => p.grupoId == id);
    if postulantes > 0 {
      return Failure(MsgTienePostulantes);
    }
    var w := BaseModel.Delete(db.tables.grupos, (g: Grupo) => g.id, id);
    DeleteGrupoValido(db.tables, db.serial, id);
    db.tables := db.tables.(grupos := w.filas);
    r := Success(w.fila);
  }

  // ---------------------------------------------------------------- getNextOrdenMerito

  /** `MAX(orden_merito)` over some candidates: NULL (`None`) over none. */
  function MaxOrden(ps: seq<Postulante>): (r: Option<int>)
    ensures r.None? <==> ps == []
    ensures r.Some? ==> (forall i :: 0 <= i < |ps| ==> ps[i].ordenMerito <= r.value)
                        && exists i :: 0 <= i < |ps| && ps[i].ordenMerito == r.value
  {
    if ps == [] then None
    else
      var rest := MaxOrden(ps[1..]);
      assert forall i :: 1 <= i < |ps| ==> ps[i] == ps[1..][i - 1];
      assert forall i :: 0 <= i < |ps[1..]| ==> ps[1..][i] == ps[i + 1];
      if rest.Some? && rest.value > ps[0].ordenMerito then rest else Some(ps[0].ordenMerito)
  }

  function DelGrupo(g: Id): Postulante -> bool
  {
    (p: Postulante) => p.grupoId == g
  }

  /**
   * `getNextOrdenMerito(id)`: `COALESCE(MAX(orden_merito), 0) + 1` over the
   * group's candidates. It is above every rank in the group, it is 1 for a
   * group without candidates, and otherwise one more than a rank in use.
   */
  function GetNextOrdenMerito(t: Tables, g: Id): (r: int)
    ensures forall i :: 0 <= i < |t.postulantes| && t.postulantes[i].grupoId == g ==> t.postulantes[i].ordenMerito < r
    ensures (forall i :: 0 <= i < |t.postulantes| ==> t.postulantes[i].grupoId != g) ==> r == 1
    ensures (exists i :: 0 <= i < |t.postulantes| && t.postulantes[i].grupoId == g) ==>
              exists i :: 0 <= i < |t.postulantes| && t.postulantes[i].grupoId == g && t.postulantes[i].ordenMerito == r - 1
  {
    var ps := Filter(t.postulantes, DelGrupo(g));
    var m := MaxOrden(ps);
    forall i | 0 <= i < |t.postulantes| && t.postulantes[i].grupoId == g
      ensures m.Some? && t.postulantes[i].ordenMerito <= m.value
    {
      assert t.postulantes[i] in ps;
    }
    if m.Some? then
      var j :| 0 <= j < |ps| && ps[j].ordenMerito == m.value;
      assert ps[j] in ps;
      m.value + 1
    else 1
  }

  // ---------------------------------------------------------------- getEspecialidades

  /** The specialty a position contributes: `especialidad IS NOT NULL AND especialidad != ''`. */
  function EspecialidadDe(g: Id): Plaza -> Option<string>
  {
    (p: Plaza) => if p.grupoId == g && p.especialidad.Some? && p.especialidad.value != "" then p.especialidad else None
  }

  /** The specialties the group's positions contribute are the non-empty ones they carry. */
  lemma EspecialidadesDe(t: Tables, g: Id)
    ensures forall s :: s in FilterMap(t.plazas, EspecialidadDe(g)) <==>
              s != "" && exists i :: 0 <= i < |t.plazas| && t.plazas[i].grupoId == g && t.plazas[i].especialidad == Some(s)
  {
    forall s ensures s in FilterMap(t.plazas, EspecialidadDe(g)) <==>
                       s != "" && exists i :: 0 <= i < |t.plazas| && t.plazas[i].grupoId == g && t.plazas[i].especialidad == Some(s)
    {
      if s != "" && exists i :: 0 <= i < |t.plazas| && t.plazas[i].grupoId == g && t.plazas[i].especialidad == Some(s) {
        var i :| 0 <= i < |t.plazas| && t.plazas[i].grupoId == g && t.plazas[i].especialidad == Some(s);
        assert EspecialidadDe(g)(t.plazas[i]) == Some(s);
      }
    }
  }

  function TextoKey(s: string): seq<Key>
  {
    [Str(s)]
  }

  /**
   * `getEspecialidades(id)`: `SELECT DISTINCT especialidad ... ORDER BY
   * especialidad`, the specialties of the group's positions, each once,
   * non-empty and sorted.
   */
  function GetEspecialidades(t: Tables, g: Id): (r: seq<string>)
    ensures SortedBy(r, TextoKey)
    ensures Distinct(r)
    ensures forall s :: s in r <==> s != "" && exists i :: 0 <= i < |t.plazas| && t.plazas[i].grupoId == g
                                                               && t.plazas[i].especialidad == Some(s)
  {
    var todas := FilterMap(t.plazas, EspecialidadDe(g));
    EspecialidadesDe(t, g);
    var unicas := Dedup(todas);
    SortByMembers(unicas, TextoKey);
    SortByDistinct(unicas, TextoKey);
    SortBy(unicas, TextoKey)
  }

  // ---------------------------------------------------------------- getPostulantes

  /**
   * A row of `getPostulantes`: the candidate, its assignment row and, when
   * that row has a position, the position's IPRESS and red names (all
   * left joins, the first row of each).
   */
  datatype FilaGrupo = FilaGrupo(postulante: Postulante, adj: Option<Adjudicacion>, plaza: Option<Plaza>,
                                 ipress: Option<string>, red: Option<string>)

  /** The left-joined row of a candidate. */
  function Unir(t: Tables, p: Postulante): (f: FilaGrupo)
    ensures f.postulante == p && f.adj == RowFor(t.adjudicaciones, p.id)
    ensures f.plaza.Some? ==> f.adj.Some? && f.adj.value.plazaId == Some(f.plaza.value.id)
    ensures f.red.Some? ==> f.ipress.Some?
  {
    var adj := RowFor(t.adjudicaciones, p.id);
    var plaza := if adj.Some? && adj.value.plazaId.Some? then FindPlaza(t, adj.value.plazaId.value) else None;
    var ipress := if plaza.Some? then FindIpress(t, plaza.value.ipressId) else None;
    var red := if ipress.Some? then FindRed(t, ipress.value.redId) else None;
    FilaGrupo(p, adj, plaza, if ipress.Some? then Some(ipress.value.nombre) else None,
              if red.Some? then Some(red.value.nombre) else None)
  }

  /** `if (estado)`: a non-empty state text adds `AND adj.estado = $2`, which a missing row never meets. */
  predicate CumpleEstado(f: FilaGrupo, estado: Option<string>)
  {
    estado.None? || estado.value == "" || (f.adj.Some? && EstadoText(f.adj.value.estado) == estado.value)
  }

  function MeritoKey(f: FilaGrupo): seq<Key>
  {
    [Num(f.postulante.ordenMerito)]
  }

  /** `getPostulantes(id, estado)`: the group's candidates in merit order, optionally in one state. */
  function GetPostulantes(t: Tables, g: Id, estado: Option<string>): (r: seq<FilaGrupo>)
    ensures SortedBy(r, MeritoKey)
    ensures forall f :: f in r <==> exists i :: 0 <= i < |t.postulantes| && t.postulantes[i].grupoId == g
                                                 && f == Unir(t, t.postulantes[i]) && CumpleEstado(f, estado)
  {
    var filas := FilterMap(t.postulantes, (p: Postulante) =>
                    if p.grupoId == g && CumpleEstado(Unir(t, p), estado) then Some(Unir(t, p)) else None);
    SortByMembers(filas, MeritoKey);
    SortBy(filas, MeritoKey)
  }

  /**
   * Filtering by 'pendiente' keeps only candidates that have an assignment
   * row in that state: a candidate with no row yet, though pending, is not
   * listed.
   */
  lemma PendienteExigeFila(t: Tables, g: Id)
    ensures forall f :: f in GetPostulantes(t, g, Some("pendiente")) ==> f.adj.Some? && f.adj.value.estado == Pendiente
  {
    forall f | f in GetPostulantes(t, g, Some("pendiente")) ensures f.adj.Some? && f.adj.value.estado == Pendiente {
      assert EstadoText(f.adj.value.estado) == "pendiente";
      EstadoTextRoundTrip(f.adj.value.estado);
    }
  }
}
