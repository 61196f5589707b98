/**
 * The health-network model `Red`: lookup and search by name, the name
 * validators, the guarded delete, and `getRedesWithIpress`, which folds the
 * rows of `redes LEFT JOIN ipress` into one entry per network holding its
 * IPRESS.
 */
module Redes {
  import opened Wrappers
  import opened Text
  import opened Relational
  import opened Store
  import BaseModel

  // ---------------------------------------------------------------- findByNombre / searchByNombre

  /** `findByNombre(nombre)`: `WHERE nombre = $1`, the first row or `null`. */
  function FindByNombre(t: Tables, nombre: string): (r: Option<Red>)
    ensures r.None? <==> forall i :: 0 <= i < |t.redes| ==> t.redes[i].nombre != nombre
    ensures r.Some? ==> r.value.nombre == nombre && r.value in t.redes
  {
    First(t.redes, (r: Red) => r.nombre == nombre)
  }

  function NombreKey(r: Red): seq<Key>
  {
    [Str(r.nombre)]
  }

  /** `searchByNombre(term)`: `nombre ILIKE '%term%' ORDER BY nombre`. */
  function SearchByNombre(t: Tables, term: string): (r: seq<Red>)
    ensures SortedBy(r, NombreKey)
    ensures forall x :: x in r <==> x in t.redes && ILikeContains(x.nombre, term)
  {
    var filas := Filter(t.redes, (r: Red) => ILikeContains(r.nombre, term));
    SortByMembers(filas, NombreKey);
    SortBy(filas, NombreKey)
  }

  // ---------------------------------------------------------------- validateForCreation / validateForUpdate

  function MsgNombreExiste(nombre: string): string
  {
    "Ya existe una red con el nombre: " + nombre
  }

  function MsgNombreOtro(nombre: string): string
  {
    "Ya existe otra red con el nombre: " + nombre
  }

  /** `validateForCreation(nombre)`: rejected exactly when some red has that name. */
  function ValidateForCreation(t: Tables, nombre: string): (r: Option<string>)
    ensures r.Some? <==> exists i :: 0 <= i < |t.redes| && t.redes[i].nombre == nombre
    ensures r.Some? ==> r.value == MsgNombreExiste(nombre)
  {
    if FindByNombre(t, nombre).Some? then Some(MsgNombreExiste(nombre)) else None
  }

  /**
   * `validateForUpdate(id, nombre)`: the first red with the name clashes
   * unless its id is `parseInt(id)`; an id that does not parse (NaN)
   * differs from every id.
   */
  function ValidateForUpdate(t: Tables, id: string, nombre: string): (r: Option<string>)
    ensures r.Some? ==> r.value == MsgNombreOtro(nombre)
    ensures r.Some? ==> exists i :: 0 <= i < |t.redes| && t.redes[i].nombre == nombre
                                    && ParseInt(id) != Some(t.redes[i].id)
    ensures (forall i :: 0 <= i < |t.redes| && t.redes[i].nombre == nombre ==> ParseInt(id) == Some(t.redes[i].id))
            ==> r.None?
    ensures (exists i :: 0 <= i < |t.redes| && t.redes[i].nombre == nombre)
            && (forall i :: 0 <= i < |t.redes| && t.redes[i].nombre == nombre ==> ParseInt(id) != Some(t.redes[i].id))
            ==> r.Some?
  {
    var existing := FindByNombre(t, nombre);
    if existing.Some? && ParseInt(id) != Some(existing.value.id) then Some(MsgNombreOtro(nombre)) else None
  }

  /** A red keeping its own name passes the update check, though a creation with that name fails. */
  lemma UpdateIgnoraPropio(t: Tables, k: nat)
    requires k < |t.redes|
    requires forall i :: 0 <= i < |t.redes| && t.redes[i].nombre == t.redes[k].nombre ==> i == k
    ensures ValidateForUpdate(t, IntToString(t.redes[k].id), t.redes[k].nombre).None?
    ensures ValidateForCreation(t, t.redes[k].nombre).Some?
  {
    ParseIntRoundTrip(t.redes[k].id);
  }

  // ---------------------------------------------------------------- deleteRed

  const MsgTieneIpress := "No se puede eliminar la red porque tiene IPRESS asociados"

  predicate TieneIpress(t: Tables, id: Id)
  {
    exists i :: 0 <= i < |t.ipress| && t.ipress[i].redId == id
  }

  /** `deleteRed(id)`: rejected while an IPRESS references the red, otherwise the row is deleted. */
  function AfterDeleteRed(t: Tables, id: Id): (r: (Tables, Result<Option<Red>, string>))
    ensures r.1.Failure? <==> TieneIpress(t, id)
    ensures r.1.Failure? ==> r.0 == t && r.1.error == MsgTieneIpress
    ensures r.1.Success? ==>
              && r.1.value == FindRed(t, id)
              && r.0 == t.(redes := r.0.redes)
              && (forall x :: x in r.0.redes <==> x in t.redes && x.id != id)
  {
    CountPositiveIff(t.ipress, (i: Ipress) => i.redId == id);
    if CountWhere(t.ipress, (i: Ipress) => i.redId == id) > 0 then (t, Failure(MsgTieneIpress))
    else
      var w := BaseModel.Delete(t.redes, (r: Red) => r.id, id);
      (t.(redes := w.filas), Success(w.fila))
  }

  /** A successful delete leaves no red with the id, and nothing referenced it. */
  lemma DeleteRedQuita(t: Tables, id: Id)
    requires AfterDeleteRed(t, id).1.Success?
    ensures FindRed(AfterDeleteRed(t, id).0, id).None?
    ensures forall i :: 0 <= i < |t.ipress| ==> FindRed(AfterDeleteRed(t, id).0, t.ipress[i].redId) == FindRed(t, t.ipress[i].redId)
  {
    var u := AfterDeleteRed(t, id).0;
    assert forall x :: x in u.redes ==> x.id != id;
    forall i | 0 <= i < |t.ipress| ensures FindRed(u, t.ipress[i].redId) == FindRed(t, t.ipress[i].redId) {
      var k := t.ipress[i].redId;
      assert k != id;
      DeleteOtraClave(t.redes, id, k);
    }
  }

  /** Deleting one key leaves the lookup of every other key as it was. */
  lemma {:induction false} DeleteOtraClave(rs: seq<Red>, id: Id, k: Id)
    requires k != id
    ensures First(Filter(rs, BaseModel.SinClave((r: Red) => r.id, id)), (r: Red) => r.id == k)
            == First(rs, (r: Red) => r.id == k)
  {
    if rs != [] {
      DeleteOtraClave(rs[1..], id, k);
      var p := BaseModel.SinClave((r: Red) => r.id, id);
      if p(rs[0]) {
        assert Filter(rs, p) == [rs[0]] + Filter(rs[1..], p);
      } else {
        assert Filter(rs, p) == Filter(rs[1..], p);
      }
    }
  }

  /** Removing red rows keeps the keys unique and below the sequence. */
  lemma DeleteRedValido(t: Tables, serial: nat, id: Id)
    requires KeysUnique(t) && KeysBelow(t, serial)
    ensures var u := t.(redes := BaseModel.Delete(t.redes, (r: Red) => r.id, id).filas);
      KeysUnique(u) && KeysBelow(u, serial)
  {
    var w := BaseModel.Delete(t.redes, (r: Red) => r.id, id);
    assert w.filas == Filter(t.redes, BaseModel.SinClave((r: Red) => r.id, id));
    UniqueFilter(t.redes, (r: Red) => r.id, BaseModel.SinClave((r: Red) => r.id, id));
    BelowFilter(t.redes, (r: Red) => r.id, serial, BaseModel.SinClave((r: Red) => r.id, id));
  }

  /** `deleteRed` on the database: the count check, then the DELETE. */
  method DeleteRed(db: Database, id: Id) returns (r: Result<Option<Red>, string>)
    requires db.Valid()
    modifies db
    ensures db.Valid() && db.serial == old(db.serial)
    ensures (db.tables, r) == AfterDeleteRed(old(db.tables), id)
  {
    var cuenta := CountWhere(db.tables.ipress, (i: Ipress) => i.redId == id);
    if cuenta > 0 {
      return Failure(MsgTieneIpress);
    }
    var w := BaseModel.Delete(db.tables.redes, (x: Red) => x.id, id);
    DeleteRedValido(db.tables, db.serial, id);
    db.tables := db.tables.(redes := w.filas);
    r := Success(w.fila);
  }

  // ---------------------------------------------------------------- getRedesWithIpress: the joined rows

  /** `{ id, nombre }` of an IPRESS in a red's list. */
  datatype IpressRef = IpressRef(id: Id, nombre: string)

  /** A row of `redes LEFT JOIN ipress`: `red_id`, `red_nombre` and, unless NULL, `ipress_id`, `ipress_nombre`. */
  datatype FilaRed = FilaRed(redId: Id, redNombre: string, ipress: Option<IpressRef>)

  /** An entry of the result: the red and its IPRESS. */
  datatype RedConIpress = RedConIpress(id: Id, nombre: string, ipress: seq<IpressRef>)

  function UnirIpress(r: Red): Ipress -> Option<FilaRed>
  {
    (i: Ipress) => if i.redId == r.id then Some(FilaRed(r.id, r.nombre, Some(IpressRef(i.id, i.nombre)))) else None
  }

  /** The rows a red contributes to the left join: one per IPRESS, or one with NULLs when it has none. */
  function FilasDeRed(t: Tables, r: Red): (f: seq<FilaRed>)
    ensures f != []
    ensures forall x :: x in f ==> x.redId == r.id && x.redNombre == r.nombre
  {
    var con := FilterMap(t.ipress, UnirIpress(r));
    if con == [] then [FilaRed(r.id, r.nombre, None)] else con
  }

  /** The left join of some reds with `ipress`, before ordering. */
  function Join(t: Tables, rs: seq<Red>): seq<FilaRed>
  {
    if rs == [] then [] else FilasDeRed(t, rs[0]) + Join(t, rs[1..])
  }

  /** Every red has a row in the join. */
  lemma {:induction false} FilaDeRed(t: Tables, rs: seq<Red>, k: nat)
    requires k < |rs|
    ensures exists x :: x in Join(t, rs) && x.redId == rs[k].id
  {
    if k == 0 {
      assert FilasDeRed(t, rs[0])[0] in Join(t, rs);
    } else {
      FilaDeRed(t, rs[1..], k - 1);
      var x :| x in Join(t, rs[1..]) && x.redId == rs[1..][k - 1].id;
      assert x in Join(t, rs);
    }
  }

  /** Every row of the join comes from one of the reds. */
  lemma {:induction false} RedDeFila(t: Tables, rs: seq<Red>, x: FilaRed)
    requires x in Join(t, rs)
    ensures exists k :: 0 <= k < |rs| && rs[k].id == x.redId && rs[k].nombre == x.redNombre
  {
    if x in FilasDeRed(t, rs[0]) {
      assert rs[0].id == x.redId;
    } else {
      RedDeFila(t, rs[1..], x);
      var k :| 0 <= k < |rs[1..]| && rs[1..][k].id == x.redId && rs[1..][k].nombre == x.redNombre;
      assert rs[k + 1] == rs[1..][k];
    }
  }

  /** `ORDER BY r.nombre, i.nombre` (a NULL IPRESS name sorts last). */
  function FilaKey(f: FilaRed): seq<Key>
  {
    [Str(f.redNombre), TextKey(if f.ipress.Some? then Some(f.ipress.value.nombre) else None)]
  }

  /** The query's rows, in its order. */
  function FilasRedesIpress(t: Tables): (f: seq<FilaRed>)
    ensures SortedBy(f, FilaKey)
    ensures forall x :: x in f <==> x in Join(t, t.redes)
  {
    SortByMembers(Join(t, t.redes), FilaKey);
    SortBy(Join(t, t.redes), FilaKey)
  }

  // ---------------------------------------------------------------- getRedesWithIpress: the fold

  function Ids(rs: seq<RedConIpress>): (r: seq<Id>)
    ensures |r| == |rs| && forall k :: 0 <= k < |rs| ==> r[k] == rs[k].id
  {
    seq(|rs|, k requires 0 <= k < |rs| => rs[k].id)
  }

  function RedIds(rows: seq<FilaRed>): (r: seq<Id>)
    ensures |r| == |rows| && forall k :: 0 <= k < |rows| ==> r[k] == rows[k].redId
  {
    seq(|rows|, k requires 0 <= k < |rows| => rows[k].redId)
  }

  /** `redesMap.get(id)`: the position of the entry with the id, if any. */
  function IndexOf(ids: seq<Id>, id: Id): (r: Option<nat>)
    ensures r.None? <==> id !in ids
    ensures r.Some? ==> r.value < |ids| && ids[r.value] == id
  {
    if ids == [] then None
    else if ids[0] == id then Some(0)
    else
      var k := IndexOf(ids[1..], id);
      if k.None? then None else Some(k.value + 1)
  }

  /** `if (row.ipress_id)`: the IPRESS a row adds, absent when the id is NULL or 0. */
  function Aporte(row: FilaRed): (r: Option<IpressRef>)
    ensures r.Some? ==> row.ipress == r && r.value.id != 0
  {
    if row.ipress.Some? && row.ipress.value.id != 0 then row.ipress else None
  }

  /** `.ipress.push(...)` on the entry at position `k`, when the row adds an IPRESS. */
  function Empujar(rs: seq<RedConIpress>, k: nat, c: Option<IpressRef>): (r: seq<RedConIpress>)
    requires k < |rs|
    ensures |r| == |rs| && Ids(r) == Ids(rs)
  {
    var r := if c.Some? then rs[k := rs[k].(ipress := rs[k].ipress + [c.value])] else rs;
    assert Ids(r) == Ids(rs);
    r
  }

  /** One step of the `forEach`: add the red's entry if it is new, then push the row's IPRESS. */
  function Paso(rs: seq<RedConIpress>, row: FilaRed): seq<RedConIpress>
  {
    match IndexOf(Ids(rs), row.redId)
    case Some(k) => Empujar(rs, k, Aporte(row))
    case None => Empujar(rs + [RedConIpress(row.redId, row.redNombre, [])], |rs|, Aporte(row))
  }

  /** The fold over the rows; `Array.from(redesMap.values())` lists entries in insertion order. */
  function Agrupar(rows: seq<FilaRed>): seq<RedConIpress>
  {
    if rows == [] then [] else Paso(Agrupar(rows[..|rows| - 1]), rows[|rows| - 1])
  }

  /** The entries a step leaves: the same reds, plus the row's red at the end if it was not there. */
  lemma PasoIds(rs: seq<RedConIpress>, row: FilaRed)
    ensures Ids(Paso(rs, row)) == if row.redId in Ids(rs) then Ids(rs) else Ids(rs) + [row.redId]
  {
    if row.redId !in Ids(rs) {
      assert Ids(rs + [RedConIpress(row.redId, row.redNombre, [])]) == Ids(rs) + [row.redId];
    }
  }

  /**
   * One entry per distinct `red_id`, in the order in which the rows first
   * mention it.
   */
  lemma {:induction false} AgruparIds(rows: seq<FilaRed>)
    ensures Ids(Agrupar(rows)) == Dedup(RedIds(rows))
  {
    if rows != [] {
      var n := |rows|;
      AgruparIds(rows[..n - 1]);
      assert RedIds(rows)[..n - 1] == RedIds(rows[..n - 1]);
      PasoIds(Agrupar(rows[..n - 1]), rows[n - 1]);
    }
  }

  /** No red gets two entries. */
  lemma AgruparDistinto(rows: seq<FilaRed>)
    ensures Distinct(Ids(Agrupar(rows)))
    ensures forall id :: id in Ids(Agrupar(rows)) <==> id in RedIds(rows)
  {
    AgruparIds(rows);
  }

  /** The IPRESS a row adds to the red `id`'s list. */
  function AporteA(id: Id): FilaRed -> Option<IpressRef>
  {
    (row: FilaRed) => if row.redId == id then Aporte(row) else None
  }

  function DeRed(id: Id): FilaRed -> bool
  {
    (row: FilaRed) => row.redId == id
  }

  /** In a list without repetitions a value has one position. */
  lemma IndexOfDistinct(ids: seq<Id>, k: nat)
    requires Distinct(ids) && k < |ids|
    ensures IndexOf(ids, ids[k]) == Some(k)
  {
  }

  /** A step on a red that already has an entry pushes onto that entry. */
  lemma PasoPresente(rs: seq<RedConIpress>, row: FilaRed, k: nat)
    requires Distinct(Ids(rs)) && k < |rs| && rs[k].id == row.redId
    ensures Paso(rs, row) == Empujar(rs, k, Aporte(row))
  {
    IndexOfDistinct(Ids(rs), k);
  }

  /** A step on a red without an entry appends one and pushes onto it. */
  lemma PasoAusente(rs: seq<RedConIpress>, row: FilaRed)
    requires row.redId !in Ids(rs)
    ensures Paso(rs, row) == Empujar(rs + [RedConIpress(row.redId, row.redNombre, [])], |rs|, Aporte(row))
  {
  }

  /** The entry of a red a step does not concern is unchanged; the entry of the row's red gains its IPRESS. */
  lemma PasoEntrada(rs: seq<RedConIpress>, row: FilaRed, k: nat)
    requires Distinct(Ids(rs)) && k < |rs|
    ensures k < |Paso(rs, row)| && Paso(rs, row)[k].id == rs[k].id && Paso(rs, row)[k].nombre == rs[k].nombre
    ensures Paso(rs, row)[k].ipress == rs[k].ipress + (if AporteA(rs[k].id)(row).Some? then [AporteA(rs[k].id)(row).value] else [])
  {
    if rs[k].id == row.redId {
      PasoPresente(rs, row, k);
    } else {
      match IndexOf(Ids(rs), row.redId)
      case Some(j) =>
        assert Paso(rs, row) == Empujar(rs, j, Aporte(row));
        assert j != k;
      case None =>
        var rs1 := rs + [RedConIpress(row.redId, row.redNombre, [])];
        assert Paso(rs, row) == Empujar(rs1, |rs|, Aporte(row));
        assert rs1[k] == rs[k];
    }
  }

  /** The entry a step adds, when the row's red had none. */
  lemma PasoNueva(rs: seq<RedConIpress>, row: FilaRed)
    requires row.redId !in Ids(rs)
    ensures |Paso(rs, row)| == |rs| + 1
    ensures Paso(rs, row)[|rs|] == RedConIpress(row.redId, row.redNombre, if Aporte(row).Some? then [Aporte(row).value] else [])
  {
    PasoAusente(rs, row);
  }

  /** Rows before a red's first row contribute nothing to it. */
  lemma SinFilas(pre: seq<FilaRed>, id: Id)
    requires id !in RedIds(pre)
    ensures FilterMap(pre, AporteA(id)) == []
    ensures First(pre, DeRed(id)).None?
  {
    assert forall i :: 0 <= i < |pre| ==> pre[i].redId != id by {
      forall i | 0 <= i < |pre| ensures pre[i].redId != id {
        assert RedIds(pre)[i] == pre[i].redId;
      }
    }
    FilterMapNinguno(pre, AporteA(id));
  }

  /** `Agrupar` on a non-empty sequence is a step after the fold of its prefix. */
  lemma AgruparUltima(rows: seq<FilaRed>)
    requires rows != []
    ensures Agrupar(rows) == Paso(Agrupar(rows[..|rows| - 1]), rows[|rows| - 1])
  {
  }

  /** The fold over `rows[..i + 1]` is a step after the fold over `rows[..i]`. */
  lemma AgruparPrefijo(rows: seq<FilaRed>, i: nat)
    requires i < |rows|
    ensures Agrupar(rows[..i + 1]) == Paso(Agrupar(rows[..i]), rows[i])
  {
    AgruparUltima(rows[..i + 1]);
    assert rows[..i + 1][..i] == rows[..i];
  }

  /**
   * Each entry holds exactly the IPRESS of the rows with its `red_id`, in
   * row order, skipping rows whose `ipress_id` is NULL; its name is the
   * `red_nombre` of the first row with that id.
   */
  lemma {:induction false} AgruparEntrada(rows: seq<FilaRed>, k: nat)
    requires k < |Agrupar(rows)|
    ensures Agrupar(rows)[k].ipress == FilterMap(rows, AporteA(Agrupar(rows)[k].id))
    ensures First(rows, DeRed(Agrupar(rows)[k].id)).Some?
    ensures First(rows, DeRed(Agrupar(rows)[k].id)).value.redNombre == Agrupar(rows)[k].nombre
  {
    var n := |rows|;
    var pre := rows[..n - 1];
    var row := rows[n - 1];
    var rs := Agrupar(pre);
    AgruparUltima(rows);
    Snoc(rows);
    AgruparDistinto(pre);
    var e := Agrupar(rows)[k];
    FilterMapAppend(pre, row, AporteA(e.id));
    FirstAppend(pre, row, DeRed(e.id));
    if k < |rs| {
      AgruparEntrada(pre, k);
      PasoEntrada(rs, row, k);
    } else {
      PasoIds(rs, row);
      PasoNueva(rs, row);
      SinFilas(pre, row.redId);
    }
  }

  /** A step keeps the entries free of repeated reds. */
  lemma PasoDistinto(rs: seq<RedConIpress>, row: FilaRed)
    requires Distinct(Ids(rs))
    ensures Distinct(Ids(Paso(rs, row)))
  {
    PasoIds(rs, row);
  }

  /** `indice` maps each red with an entry to that entry's position, as `redesMap` does. */
  ghost predicate Indexa(indice: map<Id, nat>, rs: seq<RedConIpress>)
  {
    && (forall id :: id in indice <==> id in Ids(rs))
    && (forall id :: id in indice ==> indice[id] < |rs| && Ids(rs)[indice[id]] == id)
  }

  /** `redesMap.set(...)` for a new red keeps the index exact. */
  lemma IndexaAlta(indice: map<Id, nat>, rs: seq<RedConIpress>, e: RedConIpress)
    requires Indexa(indice, rs) && e.id !in indice
    ensures Indexa(indice[e.id := |rs|], rs + [e])
  {
    assert Ids(rs + [e]) == Ids(rs) + [e.id];
  }

  /** Pushing onto an entry's list keeps the index exact. */
  lemma IndexaEmpujar(indice: map<Id, nat>, rs: seq<RedConIpress>, k: nat, c: Option<IpressRef>)
    requires Indexa(indice, rs) && k < |rs|
    ensures Indexa(indice, Empujar(rs, k, c))
  {
  }

  /**
   * One turn of `getRedesWithIpress`' `forEach`: the row's entry is looked
   * up in the `Map` (added when missing) and its IPRESS pushed.
   */
  method PasoFila(entradas: seq<RedConIpress>, indice: map<Id, nat>, row: FilaRed)
    returns (entradas2: seq<RedConIpress>, indice2: map<Id, nat>)
    requires Distinct(Ids(entradas)) && Indexa(indice, entradas)
    ensures entradas2 == Paso(entradas, row)
    ensures Distinct(Ids(entradas2)) && Indexa(indice2, entradas2)
  {
    PasoDistinto(entradas, row);
    entradas2, indice2 := entradas, indice;
    if row.redId !in indice2 {
      PasoAusente(entradas, row);
      IndexaAlta(indice2, entradas2, RedConIpress(row.redId, row.redNombre, []));
      indice2 := indice2[row.redId := |entradas2|];
      entradas2 := entradas2 + [RedConIpress(row.redId, row.redNombre, [])];
    } else {
      PasoPresente(entradas, row, indice2[row.redId]);
    }
    var k := indice2[row.redId];
    ghost var medio := entradas2;
    IndexaEmpujar(indice2, medio, k, Aporte(row));
    if row.ipress.Some? && row.ipress.value.id != 0 {
      entradas2 := entradas2[k := entradas2[k].(ipress := entradas2[k].ipress + [row.ipress.value])];
    }
    assert entradas2 == Empujar(medio, k, Aporte(row));
  }

  /**
   * `getRedesWithIpress()`: the `forEach` over the query's rows, with the
   * `Map` from `red_id` to the entry's position.
   */
  method GetRedesWithIpress(t: Tables) returns (redes: seq<RedConIpress>)
    ensures redes == Agrupar(FilasRedesIpress(t))
  {
    var rows := FilasRedesIpress(t);
    var entradas: seq<RedConIpress> := [];
    var indice: map<Id, nat> := map[];
    var i: nat := 0;
    while i < |rows|
      invariant i <= |rows|
      invariant entradas == Agrupar(rows[..i])
      invariant Distinct(Ids(entradas))
      invariant Indexa(indice, entradas)
    {
      AgruparPrefijo(rows, i);
      entradas, indice := PasoFila(entradas, indice, rows[i]);
      i := i + 1;
    }
    assert rows[..|rows|] == rows;
    redes := entradas;
  }

  /** The result has one entry for every red in the table, and no other. */
  lemma RedesCompletas(t: Tables)
    ensures forall id :: id in Ids(Agrupar(FilasRedesIpress(t))) <==> exists k :: 0 <= k < |t.redes| && t.redes[k].id == id
  {
    var rows := FilasRedesIpress(t);
    AgruparDistinto(rows);
    forall id | id in RedIds(rows) ensures exists k :: 0 <= k < |t.redes| && t.redes[k].id == id {
      var j :| 0 <= j < |rows| && RedIds(rows)[j] == id;
      assert rows[j] in Join(t, t.redes);
      RedDeFila(t, t.redes, rows[j]);
    }
    forall k | 0 <= k < |t.redes| ensures t.redes[k].id in RedIds(rows) {
      FilaDeRed(t, t.redes, k);
      var x :| x in Join(t, t.redes) && x.redId == t.redes[k].id;
      var j :| 0 <= j < |rows| && rows[j] == x;
      assert RedIds(rows)[j] == x.redId;
    }
  }
}
