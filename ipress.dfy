/**
 * The health-facility model `Ipress`: lookup by name within a red, the
 * search joined with the red's name, the validators run before an IPRESS
 * is created or updated, and the guarded delete.
 */
module Ipresses {
  import opened Wrappers
  import opened Text
  import opened Relational
  import opened Store
  import BaseModel

  // ---------------------------------------------------------------- findByNombre

  /** `if (redId)`: a red id narrows a query unless it is absent or 0. */
  predicate RedDada(redId: Option<int>)
  {
    redId.Some? && redId.value != 0
  }

  /** `AND red_id = $2` when a red is given; every IPRESS otherwise. */
  predicate EnAmbito(i: Ipress, redId: Option<int>)
  {
    RedDada(redId) ==> i.redId == redId.value
  }

  function Coincide(nombre: string, redId: Option<int>): Ipress -> bool
  {
    (i: Ipress) => i.nombre == nombre && EnAmbito(i, redId)
  }

  /** `findByNombre(nombre, redId)`: exact name, in the red when one is given; the first row or `null`. */
  function FindByNombre(t: Tables, nombre: string, redId: Option<int>): (r: Option<Ipress>)
    ensures r.None? <==> forall k :: 0 <= k < |t.ipress| ==> !(t.ipress[k].nombre == nombre && EnAmbito(t.ipress[k], redId))
    ensures r.Some? ==> r.value in t.ipress && r.value.nombre == nombre && EnAmbito(r.value, redId)
  {
    First(t.ipress, Coincide(nombre, redId))
  }

  // ---------------------------------------------------------------- searchByNombre

  /** A row of the search: the IPRESS and `r.nombre as red_nombre`. */
  datatype FilaIpress = FilaIpress(ipress: Ipress, redNombre: string)

  /** `i.nombre ILIKE '%term%'`, the red filter, and a red to join with. */
  predicate Cumple(t: Tables, term: string, redId: Option<int>, i: Ipress)
  {
    ILikeContains(i.nombre, term) && EnAmbito(i, redId) && FindRed(t, i.redId).Some?
  }

  /** The row of an IPRESS that meets the search, joined with its red (an inner join). */
  function Buscada(t: Tables, term: string, redId: Option<int>): Ipress -> Option<FilaIpress>
  {
    (i: Ipress) => if Cumple(t, term, redId, i) then Some(FilaIpress(i, FindRed(t, i.redId).value.nombre)) else None
  }

  /** `ORDER BY r.nombre, i.nombre`. */
  function FilaKey(f: FilaIpress): seq<Key>
  {
    [Str(f.redNombre), Str(f.ipress.nombre)]
  }

  /**
   * `searchByNombre(term, redId)`: `ILIKE '%term%'` on the IPRESS name, in
   * the red when one is given, ordered by red name and then IPRESS name. An IPRESS whose red is missing is not listed.
   */
  function SearchByNombre(t: Tables, term: string, redId: Option<int>): (r: seq<FilaIpress>)
    ensures SortedBy(r, FilaKey)
    ensures forall f :: f in r <==> f.ipress in t.ipress && Cumple(t, term, redId, f.ipress)
                                     && f.redNombre == FindRed(t, f.ipress.redId).value.nombre
  {
    var filas := FilterMap(t.ipress, Buscada(t, term, redId));
    SortByMembers(filas, FilaKey);
    forall f ensures f in filas <==> f.ipress in t.ipress && Cumple(t, term, redId, f.ipress)
                                     && f.redNombre == FindRed(t, f.ipress.redId).value.nombre
    {
      if f.ipress in t.ipress && Cumple(t, term, redId, f.ipress) && f.redNombre == FindRed(t, f.ipress.redId).value.nombre {
        var k :| 0 <= k < |t.ipress| && t.ipress[k] == f.ipress;
        assert Buscada(t, term, redId)(t.ipress[k]) == Some(f);
      }
    }
    SortBy(filas, FilaKey)
  }

  /** With a red given, the search lists only IPRESS of that red. */
  lemma SearchEnRed(t: Tables, term: string, redId: Id)
    requires redId != 0
    ensures forall f :: f in SearchByNombre(t, term, Some(redId)) ==> f.ipress.redId == redId
  {
  }

  // ---------------------------------------------------------------- validateForCreation / validateForUpdate

  const MsgRedNoExiste := "La red especificada no existe"

  function MsgNombreExiste(nombre: string): string
  {
    "Ya existe un IPRESS con el nombre \"" + nombre + "\" en esta red"
  }

  function MsgNombreOtro(nombre: string): string
  {
    "Ya existe otro IPRESS con el nombre \"" + nombre + "\" en esta red"
  }

  /** `SELECT id FROM redes WHERE id = $1` has a row (NULL matches none). */
  predicate RedExiste(t: Tables, redId: Option<int>)
  {
    redId.Some? && exists k :: 0 <= k < |t.redes| && t.redes[k].id == redId.value
  }

  /** Some IPRESS in scope has the name. */
  predicate NombreUsado(t: Tables, nombre: string, redId: Option<int>)
  {
    exists k :: 0 <= k < |t.ipress| && t.ipress[k].nombre == nombre && EnAmbito(t.ipress[k], redId)
  }

  function HayRed(t: Tables, redId: Option<int>): (b: bool)
    ensures b <==> RedExiste(t, redId)
  {
    redId.Some? && (CountPositiveIff(t.redes, (r: Red) => r.id == redId.value);
                    CountWhere(t.redes, (r: Red) => r.id == redId.value) > 0)
  }

  /**
   * `validateForCreation(nombre, redId)`: the red must exist, then no IPRESS
   * of that red may have the name.
   */
  function ValidateForCreation(t: Tables, nombre: string, redId: Option<int>): (r: Option<string>)
    ensures !RedExiste(t, redId) ==> r == Some(MsgRedNoExiste)
    ensures RedExiste(t, redId) ==> (r.Some? <==> NombreUsado(t, nombre, redId))
    ensures RedExiste(t, redId) && r.Some? ==> r.value == MsgNombreExiste(nombre)
  {
    if !HayRed(t, redId) then Some(MsgRedNoExiste)
    else if FindByNombre(t, nombre, redId).Some? then Some(MsgNombreExiste(nombre))
    else None
  }

  /**
   * `validateForUpdate(id, nombre, redId)`: the red must exist, then the
   * first IPRESS of that red with the name clashes unless its id is
   * `parseInt(id)`.
   */
  function ValidateForUpdate(t: Tables, id: string, nombre: string, redId: Option<int>): (r: Option<string>)
    ensures !RedExiste(t, redId) ==> r == Some(MsgRedNoExiste)
    ensures RedExiste(t, redId) && r.Some? ==>
              r.value == MsgNombreOtro(nombre)
              && exists k :: 0 <= k < |t.ipress| && t.ipress[k].nombre == nombre && EnAmbito(t.ipress[k], redId)
                             && ParseInt(id) != Some(t.ipress[k].id)
    ensures RedExiste(t, redId)
            && (forall k :: 0 <= k < |t.ipress| && t.ipress[k].nombre == nombre && EnAmbito(t.ipress[k], redId)
                            ==> ParseInt(id) == Some(t.ipress[k].id))
            ==> r.None?
    ensures RedExiste(t, redId) && NombreUsado(t, nombre, redId)
            && (forall k :: 0 <= k < |t.ipress| && t.ipress[k].nombre == nombre && EnAmbito(t.ipress[k], redId)
                            ==> ParseInt(id) != Some(t.ipress[k].id))
            ==> r.Some?
  {
    if !HayRed(t, redId) then Some(MsgRedNoExiste)
    else
      var existing := FindByNombre(t, nombre, redId);
      if existing.Some? && ParseInt(id) != Some(existing.value.id) then Some(MsgNombreOtro(nombre)) else None
  }

  /** An IPRESS keeping its name and red passes the update check, though a creation with them fails. */
  lemma UpdateIgnoraPropio(t: Tables, k: nat)
    requires k < |t.ipress| && t.ipress[k].redId != 0 && RedExiste(t, Some(t.ipress[k].redId))
    requires forall j :: 0 <= j < |t.ipress| && t.ipress[j].nombre == t.ipress[k].nombre && t.ipress[j].redId == t.ipress[k].redId
                         ==> j == k
    ensures ValidateForUpdate(t, IntToString(t.ipress[k].id), t.ipress[k].nombre, Some(t.ipress[k].redId)).None?
    ensures ValidateForCreation(t, t.ipress[k].nombre, Some(t.ipress[k].redId)) == Some(MsgNombreExiste(t.ipress[k].nombre))
  {
    ParseIntRoundTrip(t.ipress[k].id);
  }

  /** The same name in another red is no clash. */
  lemma OtraRedNoChoca(t: Tables, nombre: string, redId: Id)
    requires redId != 0 && RedExiste(t, Some(redId))
    requires forall k :: 0 <= k < |t.ipress| && t.ipress[k].nombre == nombre ==> t.ipress[k].redId != redId
    ensures ValidateForCreation(t, nombre, Some(redId)).None?
  {
  }

  /**
   * A red with id 0 is falsy, so its check runs `findByNombre` over every
   * red: the same name anywhere clashes.
   */
  lemma RedCeroGlobal(t: Tables, nombre: string, k: nat)
    requires RedExiste(t, Some(0)) && k < |t.ipress| && t.ipress[k].nombre == nombre
    ensures ValidateForCreation(t, nombre, Some(0)) == Some(MsgNombreExiste(nombre))
  {
  }

  // ---------------------------------------------------------------- deleteIpress

  const MsgTienePlazas := "No se puede eliminar el IPRESS porque tiene plazas asociadas"

  predicate TienePlazas(t: Tables, id: Id)
  {
    exists k :: 0 <= k < |t.plazas| && t.plazas[k].ipressId == id
  }

  /** `deleteIpress(id)`: rejected while a position references the IPRESS, otherwise the row is deleted. */
  function AfterDeleteIpress(t: Tables, id: Id): (r: (Tables, Result<Option<Ipress>, string>))
    ensures r.1.Failure? <==> TienePlazas(t, id)
    ensures r.1.Failure? ==> r.0 == t && r.1.error == MsgTienePlazas
    ensures r.1.Success? ==>
              && r.1.value == FindIpress(t, id)
              && r.0 == t.(ipress := r.0.ipress)
              && (forall x :: x in r.0.ipress <==> x in t.ipress && x.id != id)
  {
    CountPositiveIff(t.plazas, (p: Plaza) => p.ipressId == id);
    if CountWhere(t.plazas, (p: Plaza) => p.ipressId == id) > 0 then (t, Failure(MsgTienePlazas))
    else
      var w := BaseModel.Delete(t.ipress, (i: Ipress) => i.id, id);
      (t.(ipress := w.filas), Success(w.fila))
  }

  /** After a successful delete no IPRESS has the id. */
  lemma DeleteIpressQuita(t: Tables, id: Id)
    requires AfterDeleteIpress(t, id).1.Success?
    ensures FindIpress(AfterDeleteIpress(t, id).0, id).None?
  {
    var u := AfterDeleteIpress(t, id).0;
    assert forall x :: x in u.ipress ==> x.id != id;
  }

  /** Removing IPRESS rows keeps the keys unique and below the sequence. */
  lemma DeleteIpressValido(t: Tables, serial: nat, id: Id)
    requires KeysUnique(t) && KeysBelow(t, serial)
    ensures var u := t.(ipress := BaseModel.Delete(t.ipress, (i: Ipress) => i.id, id).filas);
      KeysUnique(u) && KeysBelow(u, serial)
  {
    var w := BaseModel.Delete(t.ipress, (i: Ipress) => i.id, id);
    assert w.filas == Filter(t.ipress, BaseModel.SinClave((i: Ipress) => i.id, id));
    UniqueFilter(t.ipress, (i: Ipress) => i.id, BaseModel.SinClave((i: Ipress) => i.id, id));
    BelowFilter(t.ipress, (i: Ipress) => i.id, serial, BaseModel.SinClave((i: Ipress) => i.id, id));
  }

  /** `deleteIpress` on the database: the count check, then the DELETE. */
  method DeleteIpress(db: Database, id: Id) returns (r: Result<Option<Ipress>, string>)
    requires db.Valid()
    modifies db
    ensures db.Valid() && db.serial == old(db.serial)
    ensures (db.tables, r) == AfterDeleteIpress(old(db.tables), id)
  {
    var cuenta := CountWhere(db.tables.plazas, (p: Plaza) => p.ipressId == id);
    if cuenta > 0 {
      return Failure(MsgTienePlazas);
    }
    var w := BaseModel.Delete(db.tables.ipress, (i: Ipress) => i.id, id);
    DeleteIpressValido(db.tables, db.serial, id);
    db.tables := db.tables.(ipress := w.filas);
    r := Success(w.fila);
  }
}
