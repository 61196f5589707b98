/**
 * The writing half of the spreadsheet upload: the find-or-insert of groups,
 * networks and IPRESS by upper-cased name, the map of group names to ids,
 * the candidate and position inserts, and `subirExcel`, which runs the
 * checks of `Planilla` before it writes anything and restores the tables
 * when a write fails.
 */
module Carga {
  import opened Wrappers
  import opened Text
  import opened Relational
  import opened Store
  import opened Planilla

  // ---------------------------------------------------------------- names

  /** `nombre.toUpperCase().trim()`: the form names are stored and compared in. */
  function Clave(nombre: string): string
  {
    Trim(Upper(nombre))
  }

  /** A key is already upper-case, so `UPPER(nombre) = $1` finds the row it was stored under. */
  lemma ClaveMayuscula(nombre: string)
    ensures Upper(Clave(nombre)) == Clave(nombre)
  {
    UpperTrimCommute(Upper(nombre));
    UpperIsUpper(nombre);
  }

  /** Normalising a key again changes nothing (`guardarGrupoOcupacional` receives keys). */
  lemma ClaveIdempotente(nombre: string)
    ensures Clave(Clave(nombre)) == Clave(nombre)
  {
    ClaveMayuscula(nombre);
    TrimIdempotent(Upper(nombre));
  }

  /** A key is upper-case with no whitespace at either end. */
  predicate Normal(s: string)
  {
    Upper(s) == s && Trimmed(s)
  }

  lemma ClaveNormal(nombre: string)
    ensures Normal(Clave(nombre))
  {
    ClaveMayuscula(nombre);
    TrimSpec(Upper(nombre));
  }

  /** The keys are unique and below the id sequence: what every write below preserves. */
  predicate Integra(t: Tables, serial: nat)
  {
    KeysUnique(t) && KeysBelow(t, serial)
  }

  // ---------------------------------------------------------------- find or insert

  /** The rows of one table after a find-or-insert, the next id and the id handed back. */
  datatype Guardada<T> = Guardada(filas: seq<T>, serial: nat, id: Id)

  /**
   * `SELECT id … WHERE coincide` and, when no row comes back,
   * `INSERT … RETURNING id`: the first matching row's id, else the id
   * `serial` of the row `nueva(serial)` appended.
   */
  function BuscarOInsertar<T(==)>(filas: seq<T>, serial: nat, id: T -> Id, coincide: T -> bool, nueva: Id -> T)
    : Guardada<T>
  {
    match First(filas, coincide)
    case Some(f) => Guardada(filas, serial, id(f))
    case None => Guardada(filas + [nueva(serial)], serial + 1, serial)
  }

  /**
   * The id handed back names a matching row; a row is inserted exactly when
   * none matched, and then it is the new row with the id `serial`.
   */
  lemma BuscarOInsertarHalla<T>(filas: seq<T>, serial: nat, id: T -> Id, coincide: T -> bool, nueva: Id -> T)
    requires id(nueva(serial)) == serial && coincide(nueva(serial))
    ensures var r := BuscarOInsertar(filas, serial, id, coincide, nueva);
            && (exists i :: 0 <= i < |r.filas| && id(r.filas[i]) == r.id && coincide(r.filas[i]))
            && filas <= r.filas
            && (r.filas == filas <==> exists i :: 0 <= i < |filas| && coincide(filas[i]))
            && (r.filas == filas ==> r.serial == serial)
            && (r.filas != filas ==> r.filas == filas + [nueva(serial)] && r.id == serial && r.serial == serial + 1)
  {
    var r := BuscarOInsertar(filas, serial, id, coincide, nueva);
    if First(filas, coincide).None? {
      assert r.filas[|filas|] == nueva(serial);
      assert |r.filas| != |filas|;
    }
  }

  /** A second find-or-insert of the same row finds the first one's and changes nothing. */
  lemma BuscarOInsertarIdempotente<T>(filas: seq<T>, serial: nat, id: T -> Id, coincide: T -> bool,
                                      nueva: Id -> T)
    requires forall n: Id :: id(nueva(n)) == n && coincide(nueva(n))
    ensures var r := BuscarOInsertar(filas, serial, id, coincide, nueva);
            BuscarOInsertar(r.filas, r.serial, id, coincide, nueva) == r
  {
    if First(filas, coincide).None? {
      FirstAppend(filas, nueva(serial), coincide);
    }
  }

  /** The tables after a find-or-insert, the next id and the id handed back. */
  datatype Guardado = Guardado(tables: Tables, serial: nat, id: Id)

  function IdGrupo(g: Grupo): Id { g.id }

  function GrupoLlamado(clave: string): Grupo -> bool
  {
    (g: Grupo) => Upper(g.nombre) == clave
  }

  function NuevoGrupo(clave: string): Id -> Grupo
  {
    (n: Id) => Grupo(n, clave)
  }

  /** `guardarGrupoOcupacional(client, nombre)`. */
  function GrupoGuardado(t: Tables, serial: nat, nombre: string): Guardado
  {
    GrupoGuardadoConClave(t, serial, Clave(nombre))
  }

  /** The find-or-insert under a key already upper-cased and trimmed. */
  function GrupoGuardadoConClave(t: Tables, serial: nat, clave: string): Guardado
  {
    var g := BuscarOInsertar(t.grupos, serial, IdGrupo, GrupoLlamado(clave), NuevoGrupo(clave));
    Guardado(t.(grupos := g.filas), g.serial, g.id)
  }

  /**
   * Only `grupos` changes, rows are only added, the id names a row stored
   * under the key, and a row is inserted exactly when none was there.
   */
  lemma GrupoGuardadoHalla(t: Tables, serial: nat, nombre: string)
    ensures var r := GrupoGuardado(t, serial, nombre);
            && r.tables == t.(grupos := r.tables.grupos) && t.grupos <= r.tables.grupos
            && (exists i :: 0 <= i < |r.tables.grupos| && r.tables.grupos[i].id == r.id
                            && Upper(r.tables.grupos[i].nombre) == Clave(nombre))
            && (r.tables.grupos == t.grupos <==>
                  exists i :: 0 <= i < |t.grupos| && Upper(t.grupos[i].nombre) == Clave(nombre))
            && (r.tables.grupos == t.grupos ==> r.serial == serial)
            && (r.tables.grupos != t.grupos ==>
                  r.id == serial && r.serial == serial + 1 && r.tables.grupos == t.grupos + [NuevoGrupo(Clave(nombre))(serial)])
  {
    ClaveMayuscula(nombre);
    BuscarOInsertarHalla(t.grupos, serial, IdGrupo, GrupoLlamado(Clave(nombre)), NuevoGrupo(Clave(nombre)));
  }

  /** Saving the same group name twice gives the same id and inserts at most once. */
  lemma GrupoGuardadoIdempotente(t: Tables, serial: nat, nombre: string)
    ensures var r := GrupoGuardado(t, serial, nombre);
            GrupoGuardado(r.tables, r.serial, nombre) == r
  {
    ClaveMayuscula(nombre);
    BuscarOInsertarIdempotente(t.grupos, serial, IdGrupo, GrupoLlamado(Clave(nombre)), NuevoGrupo(Clave(nombre)));
  }

  /** The insert takes the next id, so the keys stay unique and below the sequence. */
  lemma GrupoGuardadoIntegro(t: Tables, serial: nat, clave: string)
    requires Integra(t, serial)
    ensures var r := GrupoGuardadoConClave(t, serial, clave); Integra(r.tables, r.serial) && r.serial >= serial
  {
    if First(t.grupos, GrupoLlamado(clave)).None? {
      UniqueAppend(t.grupos, (g: Grupo) => g.id, NuevoGrupo(clave)(serial));
    }
  }

  function IdRed(x: Red): Id { x.id }

  function RedLlamada(clave: string): Red -> bool
  {
    (x: Red) => Upper(x.nombre) == clave
  }

  function NuevaRed(clave: string): Id -> Red
  {
    (n: Id) => Red(n, clave)
  }

  /** `guardarRed(client, nombre)`. */
  function RedGuardada(t: Tables, serial: nat, nombre: string): Guardado
  {
    RedGuardadaConClave(t, serial, Clave(nombre))
  }

  /** The find-or-insert under a key already upper-cased and trimmed. */
  function RedGuardadaConClave(t: Tables, serial: nat, clave: string): Guardado
  {
    var g := BuscarOInsertar(t.redes, serial, IdRed, RedLlamada(clave), NuevaRed(clave));
    Guardado(t.(redes := g.filas), g.serial, g.id)
  }

  /**
   * Only `redes` changes, rows are only added, the id names a row stored
   * under the key, and a row is inserted exactly when none was there.
   */
  lemma RedGuardadaHalla(t: Tables, serial: nat, nombre: string)
    ensures var r := RedGuardada(t, serial, nombre);
            && r.tables == t.(redes := r.tables.redes) && t.redes <= r.tables.redes
            && (exists i :: 0 <= i < |r.tables.redes| && r.tables.redes[i].id == r.id
                            && Upper(r.tables.redes[i].nombre) == Clave(nombre))
            && (r.tables.redes == t.redes <==>
                  exists i :: 0 <= i < |t.redes| && Upper(t.redes[i].nombre) == Clave(nombre))
            && (r.tables.redes == t.redes ==> r.serial == serial)
            && (r.tables.redes != t.redes ==>
                  r.id == serial && r.serial == serial + 1 && r.tables.redes == t.redes + [NuevaRed(Clave(nombre))(serial)])
  {
    ClaveMayuscula(nombre);
    BuscarOInsertarHalla(t.redes, serial, IdRed, RedLlamada(Clave(nombre)), NuevaRed(Clave(nombre)));
  }

  /** Saving the same network name twice gives the same id and inserts at most once. */
  lemma RedGuardadaIdempotente(t: Tables, serial: nat, nombre: string)
    ensures var r := RedGuardada(t, serial, nombre);
            RedGuardada(r.tables, r.serial, nombre) == r
  {
    ClaveMayuscula(nombre);
    BuscarOInsertarIdempotente(t.redes, serial, IdRed, RedLlamada(Clave(nombre)), NuevaRed(Clave(nombre)));
  }

  /** The insert takes the next id, so the keys stay unique and below the sequence. */
  lemma RedGuardadaIntegra(t: Tables, serial: nat, clave: string)
    requires Integra(t, serial)
    ensures var r := RedGuardadaConClave(t, serial, clave); Integra(r.tables, r.serial) && r.serial >= serial
  {
    if First(t.redes, RedLlamada(clave)).None? {
      UniqueAppend(t.redes, (x: Red) => x.id, NuevaRed(clave)(serial));
    }
  }

  function IdIpress(x: Ipress): Id { x.id }

  function IpressLlamada(clave: string, redId: Id): Ipress -> bool
  {
    (x: Ipress) => Upper(x.nombre) == clave && x.redId == redId
  }

  function NuevaIpress(clave: string, redId: Id): Id -> Ipress
  {
    (n: Id) => Ipress(n, clave, redId)
  }

  /** `guardarIpress(client, nombre, redId)`: the name is looked up within the one network. */
  function IpressGuardada(t: Tables, serial: nat, nombre: string, redId: Id): Guardado
  {
    IpressGuardadaConClave(t, serial, Clave(nombre), redId)
  }

  /** The find-or-insert under a key already upper-cased and trimmed. */
  function IpressGuardadaConClave(t: Tables, serial: nat, clave: string, redId: Id): Guardado
  {
    var g := BuscarOInsertar(t.ipress, serial, IdIpress, IpressLlamada(clave, redId), NuevaIpress(clave, redId));
    Guardado(t.(ipress := g.filas), g.serial, g.id)
  }

  /**
   * Only `ipress` changes, rows are only added, the id names a row stored
   * under the key, and a row is inserted exactly when none was there.
   */
  lemma IpressGuardadaHalla(t: Tables, serial: nat, nombre: string, redId: Id)
    ensures var r := IpressGuardada(t, serial, nombre, redId);
            && r.tables == t.(ipress := r.tables.ipress) && t.ipress <= r.tables.ipress
            && (exists i :: 0 <= i < |r.tables.ipress| && r.tables.ipress[i].id == r.id
                            && Upper(r.tables.ipress[i].nombre) == Clave(nombre) && r.tables.ipress[i].redId == redId)
            && (r.tables.ipress == t.ipress <==>
                  exists i :: 0 <= i < |t.ipress| && Upper(t.ipress[i].nombre) == Clave(nombre) && t.ipress[i].redId == redId)
            && (r.tables.ipress == t.ipress ==> r.serial == serial)
            && (r.tables.ipress != t.ipress ==>
                  r.id == serial && r.serial == serial + 1 && r.tables.ipress == t.ipress + [NuevaIpress(Clave(nombre), redId)(serial)])
  {
    ClaveMayuscula(nombre);
    BuscarOInsertarHalla(t.ipress, serial, IdIpress, IpressLlamada(Clave(nombre), redId), NuevaIpress(Clave(nombre), redId));
  }

  /** Saving the same IPRESS in the same network twice gives the same id and inserts at most once. */
  lemma IpressGuardadaIdempotente(t: Tables, serial: nat, nombre: string, redId: Id)
    ensures var r := IpressGuardada(t, serial, nombre, redId);
            IpressGuardada(r.tables, r.serial, nombre, redId) == r
  {
    ClaveMayuscula(nombre);
    BuscarOInsertarIdempotente(t.ipress, serial, IdIpress, IpressLlamada(Clave(nombre), redId), NuevaIpress(Clave(nombre), redId));
  }

  /** The insert takes the next id, so the keys stay unique and below the sequence. */
  lemma IpressGuardadaIntegra(t: Tables, serial: nat, clave: string, redId: Id)
    requires Integra(t, serial)
    ensures var r := IpressGuardadaConClave(t, serial, clave, redId); Integra(r.tables, r.serial) && r.serial >= serial
  {
    if First(t.ipress, IpressLlamada(clave, redId)).None? {
      UniqueAppend(t.ipress, (x: Ipress) => x.id, NuevaIpress(clave, redId)(serial));
    }
  }

  /** `guardarGrupoOcupacional` on the database. */
  method GuardarGrupoOcupacional(db: Database, nombre: string) returns (id: Id)
    requires db.Valid()
    modifies db
    ensures db.Valid() && db.serial >= old(db.serial)
    ensures Guardado(db.tables, db.serial, id) == GrupoGuardado(old(db.tables), old(db.serial), nombre)
  {
    var nombreMayuscula := Clave(nombre);
    GrupoGuardadoIntegro(db.tables, db.serial, nombreMayuscula);
    var busqueda := First(db.tables.grupos, GrupoLlamado(nombreMayuscula));
    if busqueda.Some? {
      return busqueda.value.id;
    }
    id := db.serial;
    db.tables := db.tables.(grupos := db.tables.grupos + [Grupo(id, nombreMayuscula)]);
    db.serial := db.serial + 1;
  }

  /** `guardarRed` on the database. */
  method GuardarRed(db: Database, nombre: string) returns (id: Id)
    requires db.Valid()
    modifies db
    ensures db.Valid() && db.serial >= old(db.serial)
    ensures Guardado(db.tables, db.serial, id) == RedGuardada(old(db.tables), old(db.serial), nombre)
  {
    var nombreMayuscula := Clave(nombre);
    RedGuardadaIntegra(db.tables, db.serial, nombreMayuscula);
    var busqueda := First(db.tables.redes, RedLlamada(nombreMayuscula));
    if busqueda.Some? {
      return busqueda.value.id;
    }
    id := db.serial;
    db.tables := db.tables.(redes := db.tables.redes + [Red(id, nombreMayuscula)]);
    db.serial := db.serial + 1;
  }

  /** `guardarIpress` on the database. */
  method GuardarIpress(db: Database, nombre: string, redId: Id) returns (id: Id)
    requires db.Valid()
    modifies db
    ensures db.Valid() && db.serial >= old(db.serial)
    ensures Guardado(db.tables, db.serial, id) == IpressGuardada(old(db.tables), old(db.serial), nombre, redId)
  {
    var nombreMayuscula := Clave(nombre);
    IpressGuardadaIntegra(db.tables, db.serial, nombreMayuscula, redId);
    var busqueda := First(db.tables.ipress, IpressLlamada(nombreMayuscula, redId));
    if busqueda.Some? {
      return busqueda.value.id;
    }
    id := db.serial;
    db.tables := db.tables.(ipress := db.tables.ipress + [Ipress(id, nombreMayuscula, redId)]);
    db.serial := db.serial + 1;
  }

  // ---------------------------------------------------------------- cells read while writing

  /** What reaches the `catch`: a cell read with a method it does not have, or a value a column refuses. */
  datatype Fallo =
    | TipoInvalido(columna: string)              // `undefined.toString()`, `(5).toUpperCase()`: a TypeError
    | EnteroInvalido(columna: string, valor: string)  // an integer column given something else
    | SinGrupo(clave: string)                    // a candidate whose group has no id in the map

  /** `p[columna].toString()`. */
  function TextoDe(p: Fila, columna: string): Result<string, Fallo>
  {
    if columna in p then Success(ComoTexto(p[columna])) else Failure(TipoInvalido(columna))
  }

  /** `p[columna].toUpperCase()`: only text has it. */
  function TextoEstricto(p: Fila, columna: string): Result<string, Fallo>
  {
    if columna in p && p[columna].Texto? then Success(p[columna].s) else Failure(TipoInvalido(columna))
  }

  const ColEspecialidad := "Especialidad"

  /** `p['Especialidad'] ? p['Especialidad'].toString().toUpperCase().trim() : null`. */
  function EspecialidadDe(p: Fila): Option<string>
  {
    if Truthy(Col(p, ColEspecialidad)) then Some(Clave(ComoTexto(p[ColEspecialidad]))) else None
  }

  /** `Number(p[columna])` sent to an integer column. */
  function EnteroDe(n: Option<Num>, columna: string): (r: Result<int, Fallo>)
    ensures r.Success? <==> n.Some? && EsEntero(n.value.valor)
    ensures r.Success? ==> r.value as real == n.value.valor
  {
    if n.Some? && EsEntero(n.value.valor) then Success(n.value.valor.Floor)
    else Failure(EnteroInvalido(columna, if n.Some? then n.value.texto else "NaN"))
  }

  // ---------------------------------------------------------------- guardarGruposOcupacionales

  /** `if (p['Grupo Ocupacional']) p['Grupo Ocupacional'].toUpperCase().trim()`. */
  function ClaveGrupo(p: Fila): Result<Option<string>, Fallo>
  {
    if !Truthy(Col(p, ColGrupo)) then Success(None)
    else if p[ColGrupo].Texto? then Success(Some(Clave(p[ColGrupo].s)))
    else Failure(TipoInvalido(ColGrupo))
  }

  /** `gruposUnicos` after the rows `filas`: a `Set` keeps the order keys are first added in. */
  function Unicos(filas: seq<Fila>): (r: Result<seq<string>, Fallo>)
    decreases |filas|
  {
    if filas == [] then Success([])
    else
      var previas := Unicos(filas[..|filas| - 1]);
      var ultima := ClaveGrupo(filas[|filas| - 1]);
      if previas.Failure? then previas
      else if ultima.Failure? then Failure(ultima.error)
      else if ultima.value.None? || ultima.value.value in previas.value then previas
      else Success(previas.value + [ultima.value.value])
  }

  /**
   * The set fails exactly when a truthy group cell is not text; otherwise it
   * holds each key once, and exactly the keys of the rows' group cells.
   */
  lemma {:induction false} UnicosClaves(filas: seq<Fila>)
    ensures Unicos(filas).Failure? <==> exists i :: 0 <= i < |filas| && ClaveGrupo(filas[i]).Failure?
    ensures Unicos(filas).Failure? ==> Unicos(filas).error == TipoInvalido(ColGrupo)
    ensures Unicos(filas).Success? ==> Distinct(Unicos(filas).value)
    ensures Unicos(filas).Success? ==>
              forall c :: c in Unicos(filas).value <==> exists i :: 0 <= i < |filas| && ClaveGrupo(filas[i]) == Success(Some(c))
    decreases |filas|
  {
    if filas != [] {
      var previas := filas[..|filas| - 1];
      UnicosClaves(previas);
      assert forall i :: 0 <= i < |previas| ==> previas[i] == filas[i];
      Snoc(filas);
    }
  }

  /** The tables, the next id and `gruposMap` after saving some keys. */
  datatype Mapeo = Mapeo(tables: Tables, serial: nat, grupos: map<string, Id>)

  /** `for (const grupo of gruposUnicos) gruposMap[grupo] = await guardarGrupoOcupacional(client, grupo)`. */
  function GruposGuardados(t: Tables, serial: nat, claves: seq<string>): Mapeo
    decreases |claves|
  {
    if claves == [] then Mapeo(t, serial, map[])
    else
      var m := GruposGuardados(t, serial, claves[..|claves| - 1]);
      var c := claves[|claves| - 1];
      var g := GrupoGuardado(m.tables, m.serial, c);
      Mapeo(g.tables, g.serial, m.grupos[c := g.id])
  }

  /** Saving the keys maps exactly those keys. */
  lemma {:induction false} GruposGuardadosClaves(t: Tables, serial: nat, claves: seq<string>)
    ensures GruposGuardados(t, serial, claves).grupos.Keys == set c | c in claves
    decreases |claves|
  {
    if claves != [] {
      var previas := claves[..|claves| - 1];
      GruposGuardadosClaves(t, serial, previas);
      assert (set x | x in claves) == (set x | x in previas) + {claves[|claves| - 1]} by {
        Snoc(claves);
      }
    }
  }

  /** Saving groups keeps every existing group and touches no other table. */
  lemma {:induction false} GruposGuardadosConserva(t: Tables, serial: nat, claves: seq<string>)
    ensures var m := GruposGuardados(t, serial, claves);
            m.tables == t.(grupos := m.tables.grupos) && t.grupos <= m.tables.grupos
    decreases |claves|
  {
    if claves != [] {
      GruposGuardadosConserva(t, serial, claves[..|claves| - 1]);
      var m := GruposGuardados(t, serial, claves[..|claves| - 1]);
      GrupoGuardadoHalla(m.tables, m.serial, claves[|claves| - 1]);
    }
  }

  /** Each key is mapped to the id of a group stored under it. */
  lemma {:induction false} GruposGuardadosNombran(t: Tables, serial: nat, claves: seq<string>)
    ensures var m := GruposGuardados(t, serial, claves);
            forall c :: c in m.grupos ==>
              exists i :: 0 <= i < |m.tables.grupos| && m.tables.grupos[i].id == m.grupos[c]
                          && Upper(m.tables.grupos[i].nombre) == Clave(c)
    decreases |claves|
  {
    if claves != [] {
      var c := claves[|claves| - 1];
      GruposGuardadosNombran(t, serial, claves[..|claves| - 1]);
      var m := GruposGuardados(t, serial, claves[..|claves| - 1]);
      var g := GrupoGuardado(m.tables, m.serial, c);
      GrupoGuardadoHalla(m.tables, m.serial, c);
      forall k | k in m.grupos && k != c
        ensures exists i :: 0 <= i < |g.tables.grupos| && g.tables.grupos[i].id == m.grupos[k]
                            && Upper(g.tables.grupos[i].nombre) == Clave(k)
      {
        var i :| 0 <= i < |m.tables.grupos| && m.tables.grupos[i].id == m.grupos[k]
                 && Upper(m.tables.grupos[i].nombre) == Clave(k);
        assert g.tables.grupos[i] == m.tables.grupos[i];
      }
    }
  }

  lemma {:induction false} GruposGuardadosIntegros(t: Tables, serial: nat, claves: seq<string>)
    requires Integra(t, serial)
    ensures var m := GruposGuardados(t, serial, claves); Integra(m.tables, m.serial) && m.serial >= serial
    decreases |claves|
  {
    if claves != [] {
      GruposGuardadosIntegros(t, serial, claves[..|claves| - 1]);
      var m := GruposGuardados(t, serial, claves[..|claves| - 1]);
      GrupoGuardadoIntegro(m.tables, m.serial, Clave(claves[|claves| - 1]));
    }
  }

  /** `guardarGruposOcupacionales(client, postulantesData, plazasData)`. */
  method GuardarGruposOcupacionales(db: Database, postulantes: seq<Fila>, plazas: seq<Fila>)
    returns (r: Result<map<string, Id>, Fallo>)
    requires db.Valid()
    modifies db
    ensures db.Valid() && db.serial >= old(db.serial)
    ensures Unicos(postulantes + plazas).Failure? ==>
              r == Failure(Unicos(postulantes + plazas).error)
              && db.tables == old(db.tables) && db.serial == old(db.serial)
    ensures Unicos(postulantes + plazas).Success? ==>
              var m := GruposGuardados(old(db.tables), old(db.serial), Unicos(postulantes + plazas).value);
              r == Success(m.grupos) && db.tables == m.tables && db.serial == m.serial
  {
    var filas := postulantes + plazas;
    var gruposUnicos: seq<string> := [];
    var i := 0;
    while i < |filas|
      invariant 0 <= i <= |filas|
      invariant Unicos(filas[..i]) == Success(gruposUnicos)
    {
      assert filas[..i + 1][..i] == filas[..i];
      var grupo := ClaveGrupo(filas[i]);
      if grupo.Failure? {
        UnicosClaves(filas);
        assert filas[..i + 1][i] == filas[i];
        UnicosClaves(filas[..i + 1]);
        return Failure(TipoInvalido(ColGrupo));
      }
      if grupo.value.Some? && grupo.value.value !in gruposUnicos {
        gruposUnicos := gruposUnicos + [grupo.value.value];
      }
      i := i + 1;
    }
    assert filas[..i] == filas;
    var gruposMap: map<string, Id> := map[];
    var k := 0;
    while k < |gruposUnicos|
      invariant 0 <= k <= |gruposUnicos|
      invariant db.Valid() && db.serial >= old(db.serial)
      invariant GruposGuardados(old(db.tables), old(db.serial), gruposUnicos[..k]) == Mapeo(db.tables, db.serial, gruposMap)
    {
      assert gruposUnicos[..k + 1][..k] == gruposUnicos[..k];
      var grupo := gruposUnicos[k];
      var grupoId := GuardarGrupoOcupacional(db, grupo);
      gruposMap := gruposMap[grupo := grupoId];
      k := k + 1;
    }
    assert gruposUnicos[..k] == gruposUnicos;
    return Success(gruposMap);
  }

  // ---------------------------------------------------------------- guardarPostulantes

  /** The values `guardarPostulantes` reads from a row, converted. */
  datatype DatosPostulante = DatosPostulante(om: int, apellidos: string, nombres: string, grupoId: Id,
                                             especialidad: Option<string>)

  /** `especialidad || null`: an empty key is stored as NULL. */
  function NuloSiVacia(e: Option<string>): Option<string>
  {
    if e == Some("") then None else e
  }

  /**
   * A candidate row's values in the order `guardarPostulantes` meets them:
   * the names with `toString`, the group with `toUpperCase`, then the merit
   * rank the integer column accepts and the group's id from the map.
   */
  function DatosPostulanteDe(p: Fila, grupos: map<string, Id>): Result<DatosPostulante, Fallo>
  {
    var apellidos := TextoDe(p, ColApellidos);
    var nombres := TextoDe(p, ColNombres);
    var grupo := TextoEstricto(p, ColGrupo);
    if apellidos.Failure? then Failure(apellidos.error)
    else if nombres.Failure? then Failure(nombres.error)
    else if grupo.Failure? then Failure(grupo.error)
    else
      var om := EnteroDe(Number(Col(p, ColOM)), ColOM);
      var clave := Clave(grupo.value);
      if om.Failure? then Failure(om.error)
      else if clave !in grupos then Failure(SinGrupo(clave))
      else Success(DatosPostulante(om.value, Clave(apellidos.value), Clave(nombres.value), grupos[clave],
                                   NuloSiVacia(EspecialidadDe(p))))
  }

  /**
   * What a read candidate row holds: names and specialty as keys (an empty
   * specialty as none), the merit rank the cell's number, and a group id
   * taken from the map.
   */
  lemma DatosPostulanteNormales(p: Fila, grupos: map<string, Id>)
    requires DatosPostulanteDe(p, grupos).Success?
    ensures var d := DatosPostulanteDe(p, grupos).value;
            && Normal(d.apellidos) && Normal(d.nombres)
            && d.especialidad != Some("") && (d.especialidad.Some? ==> Normal(d.especialidad.value))
            && Number(Col(p, ColOM)).Some? && d.om as real == Number(Col(p, ColOM)).value.valor
            && d.grupoId in grupos.Values
  {
    ClaveNormal(ComoTexto(p[ColApellidos]));
    ClaveNormal(ComoTexto(p[ColNombres]));
    if Truthy(Col(p, ColEspecialidad)) {
      ClaveNormal(ComoTexto(p[ColEspecialidad]));
    }
  }

  /** The candidate inserted for `d` with id `id`; the name-search column and the DNI stay NULL. */
  function Inscrito(d: DatosPostulante, id: Id): Postulante
  {
    Postulante(id, d.om, Some(d.apellidos), Some(d.nombres), None, None, d.grupoId, d.especialidad)
  }

  /** `INSERT INTO adjudicaciones (postulante_id, estado) VALUES ($1, 'pendiente')`. */
  function AdjudicacionPendiente(id: Id, postulanteId: Id): Adjudicacion
  {
    Adjudicacion(id, postulanteId, None, Pendiente, None, None, None)
  }

  /** The tables, the next id and `ids` part-way through the rows. */
  datatype Avance = Avance(tables: Tables, serial: nat, ids: seq<Id>)

  /** One candidate inserted with id `serial`, then its pending assignment with the next id. */
  function ConPostulante(a: Avance, d: DatosPostulante): Avance
  {
    var t := a.tables;
    Avance(t.(postulantes := t.postulantes + [Inscrito(d, a.serial)],
              adjudicaciones := t.adjudicaciones + [AdjudicacionPendiente(a.serial + 1, a.serial)]),
           a.serial + 2, a.ids + [a.serial])
  }

  /** `DatosPostulanteDe` with the map fixed: how `guardarPostulantes` reads each row. */
  function Lector(grupos: map<string, Id>): Fila -> Result<DatosPostulante, Fallo>
  {
    (p: Fila) => DatosPostulanteDe(p, grupos)
  }

  /**
   * `guardarPostulantes(client, filas, gruposOcupacionalesMap)` with each row
   * read by `leer` (`Lector(gruposOcupacionalesMap)`), stopping at the first
   * row that throws.
   */
  function PostulantesGuardados(t: Tables, serial: nat, filas: seq<Fila>, leer: Fila -> Result<DatosPostulante, Fallo>)
    : Result<Avance, Fallo>
    decreases |filas|
  {
    if filas == [] then Success(Avance(t, serial, []))
    else
      var previo := PostulantesGuardados(t, serial, filas[..|filas| - 1], leer);
      var d := leer(filas[|filas| - 1]);
      if previo.Failure? then previo
      else if d.Failure? then Failure(d.error)
      else Success(ConPostulante(previo.value, d.value))
  }

  /** The rows are saved exactly when every row's values can be read and stored. */
  lemma {:induction false} PostulantesGuardadosExito(t: Tables, serial: nat, filas: seq<Fila>,
                                                     leer: Fila -> Result<DatosPostulante, Fallo>)
    ensures PostulantesGuardados(t, serial, filas, leer).Success? <==>
              forall i :: 0 <= i < |filas| ==> leer(filas[i]).Success?
    decreases |filas|
  {
    if filas != [] {
      var previas := filas[..|filas| - 1];
      PostulantesGuardadosExito(t, serial, previas, leer);
      assert forall i :: 0 <= i < |previas| ==> previas[i] == filas[i];
    }
  }

  /**
   * `a` is what saving `filas` leaves: one candidate inserted per row and,
   * after each, one pending assignment for it, the candidates' ids in row
   * order, and no other table touched.
   */
  ghost predicate Guardados(t: Tables, serial: nat, filas: seq<Fila>, leer: Fila -> Result<DatosPostulante, Fallo>,
                            a: Avance)
  {
    && |a.ids| == |filas| && a.serial == serial + 2 * |filas|
    && a.tables == t.(postulantes := a.tables.postulantes, adjudicaciones := a.tables.adjudicaciones)
    && |a.tables.postulantes| == |t.postulantes| + |filas| && t.postulantes <= a.tables.postulantes
    && |a.tables.adjudicaciones| == |t.adjudicaciones| + |filas| && t.adjudicaciones <= a.tables.adjudicaciones
    && forall k :: 0 <= k < |filas| ==>
         && a.ids[k] == serial + 2 * k
         && leer(filas[k]).Success?
         && a.tables.postulantes[|t.postulantes| + k] == Inscrito(leer(filas[k]).value, a.ids[k])
         && a.tables.adjudicaciones[|t.adjudicaciones| + k] == AdjudicacionPendiente(a.ids[k] + 1, a.ids[k])
  }

  /** Saving the rows makes `Guardados` hold of what it leaves. */
  lemma {:induction false} PostulantesGuardadosFilas(t: Tables, serial: nat, filas: seq<Fila>,
                                                     leer: Fila -> Result<DatosPostulante, Fallo>)
    requires PostulantesGuardados(t, serial, filas, leer).Success?
    ensures Guardados(t, serial, filas, leer, PostulantesGuardados(t, serial, filas, leer).value)
    decreases |filas|
  {
    if filas != [] {
      var previas := filas[..|filas| - 1];
      var ultima := filas[|filas| - 1];
      PostulantesGuardadosFilas(t, serial, previas, leer);
      var a := PostulantesGuardados(t, serial, previas, leer).value;
      GuardadosPaso(t, serial, previas, ultima, leer, a);
      Relational.Snoc(filas);
    }
  }

  /** Saving one more row appends its candidate and its pending assignment. */
  lemma GuardadosPaso(t: Tables, serial: nat, previas: seq<Fila>, fila: Fila,
                      leer: Fila -> Result<DatosPostulante, Fallo>, a: Avance)
    requires Guardados(t, serial, previas, leer, a) && leer(fila).Success?
    ensures Guardados(t, serial, previas + [fila], leer, ConPostulante(a, leer(fila).value))
  {
    var filas := previas + [fila];
    var b := ConPostulante(a, leer(fila).value);
    forall k | 0 <= k < |filas|
      ensures && b.ids[k] == serial + 2 * k
              && leer(filas[k]).Success?
              && b.tables.postulantes[|t.postulantes| + k] == Inscrito(leer(filas[k]).value, b.ids[k])
              && b.tables.adjudicaciones[|t.adjudicaciones| + k] == AdjudicacionPendiente(b.ids[k] + 1, b.ids[k])
    {
      if k < |previas| {
        assert filas[k] == previas[k];
        assert b.tables.postulantes[|t.postulantes| + k] == a.tables.postulantes[|t.postulantes| + k];
        assert b.tables.adjudicaciones[|t.adjudicaciones| + k] == a.tables.adjudicaciones[|t.adjudicaciones| + k];
      }
    }
  }

  lemma {:induction false} PostulantesGuardadosIntegros(t: Tables, serial: nat, filas: seq<Fila>,
                                                        leer: Fila -> Result<DatosPostulante, Fallo>)
    requires Integra(t, serial) && PostulantesGuardados(t, serial, filas, leer).Success?
    ensures var a := PostulantesGuardados(t, serial, filas, leer).value; Integra(a.tables, a.serial)
    decreases |filas|
  {
    if filas != [] {
      PostulantesGuardadosIntegros(t, serial, filas[..|filas| - 1], leer);
      var a := PostulantesGuardados(t, serial, filas[..|filas| - 1], leer).value;
      ConPostulanteIntegro(a, leer(filas[|filas| - 1]).value);
    }
  }

  lemma ConPostulanteIntegro(a: Avance, d: DatosPostulante)
    requires Integra(a.tables, a.serial)
    ensures var b := ConPostulante(a, d); Integra(b.tables, b.serial)
  {
    UniqueAppend(a.tables.postulantes, (p: Postulante) => p.id, Inscrito(d, a.serial));
    UniqueAppend(a.tables.adjudicaciones, (x: Adjudicacion) => x.id, AdjudicacionPendiente(a.serial + 1, a.serial));
  }

  /** Once a prefix of the rows throws, the whole call throws the same error. */
  lemma {:induction false} PostulantesFallan(t: Tables, serial: nat, filas: seq<Fila>,
                                             leer: Fila -> Result<DatosPostulante, Fallo>, n: nat)
    requires n <= |filas| && PostulantesGuardados(t, serial, filas[..n], leer).Failure?
    ensures PostulantesGuardados(t, serial, filas, leer) == PostulantesGuardados(t, serial, filas[..n], leer)
    decreases |filas| - n
  {
    if n < |filas| {
      assert filas[..n + 1][..n] == filas[..n];
      PostulantesFallan(t, serial, filas, leer, n + 1);
    } else {
      assert filas[..n] == filas;
    }
  }

  /** The fold over `filas[..i + 1]`, from the fold over `filas[..i]` and row `i`. */
  lemma PostulantesPaso(t: Tables, serial: nat, filas: seq<Fila>, leer: Fila -> Result<DatosPostulante, Fallo>, i: nat)
    requires i < |filas| && PostulantesGuardados(t, serial, filas[..i], leer).Success?
    ensures PostulantesGuardados(t, serial, filas[..i + 1], leer) ==
              if leer(filas[i]).Failure? then Failure(leer(filas[i]).error)
              else Success(ConPostulante(PostulantesGuardados(t, serial, filas[..i], leer).value, leer(filas[i]).value))
  {
    assert filas[..i + 1][..i] == filas[..i];
    assert filas[..i + 1][i] == filas[i];
  }

  /** `guardarPostulantes` on the database: each row read with `DatosPostulanteDe` and the group map. */
  method GuardarPostulantes(db: Database, filas: seq<Fila>, grupos: map<string, Id>) returns (r: Result<seq<Id>, Fallo>)
    requires db.Valid()
    modifies db
    ensures db.Valid() && db.serial >= old(db.serial)
    ensures var s := PostulantesGuardados(old(db.tables), old(db.serial), filas, Lector(grupos));
            && (s.Failure? ==> r == Failure(s.error))
            && (s.Success? ==> r == Success(s.value.ids) && db.tables == s.value.tables && db.serial == s.value.serial)
  {
    r := InscribirPostulantes(db, filas, Lector(grupos));
  }

  /** `INSERT INTO postulantes … RETURNING id`, then the candidate's pending assignment. */
  method InscribirPostulante(db: Database, d: DatosPostulante, ghost ids: seq<Id>) returns (postulanteId: Id)
    requires db.Valid()
    modifies db
    ensures db.Valid()
    ensures ConPostulante(Avance(old(db.tables), old(db.serial), ids), d) == Avance(db.tables, db.serial, ids + [postulanteId])
  {
    ConPostulanteIntegro(Avance(db.tables, db.serial, ids), d);
    var t := db.tables;
    postulanteId := db.serial;
    t := t.(postulantes := t.postulantes + [Inscrito(d, postulanteId)]);
    t := t.(adjudicaciones := t.adjudicaciones + [AdjudicacionPendiente(postulanteId + 1, postulanteId)]);
    db.tables, db.serial := t, db.serial + 2;
  }

  /** The loop of `guardarPostulantes`, with each row read by `leer`. */
  method InscribirPostulantes(db: Database, filas: seq<Fila>, leer: Fila -> Result<DatosPostulante, Fallo>)
    returns (r: Result<seq<Id>, Fallo>)
    requires db.Valid()
    modifies db
    ensures db.Valid() && db.serial >= old(db.serial)
    ensures var s := PostulantesGuardados(old(db.tables), old(db.serial), filas, leer);
            && (s.Failure? ==> r == Failure(s.error))
            && (s.Success? ==> r == Success(s.value.ids) && db.tables == s.value.tables && db.serial == s.value.serial)
  {
    var ids: seq<Id> := [];
    var i: nat := 0;
    while i < |filas|
      invariant i <= |filas|
      invariant db.Valid() && db.serial >= old(db.serial)
      invariant PostulantesGuardados(old(db.tables), old(db.serial), filas[..i], leer) == Success(Avance(db.tables, db.serial, ids))
    {
      PostulantesPaso(old(db.tables), old(db.serial), filas, leer, i);
      var d := leer(filas[i]);
      if d.Failure? {
        PostulantesFallan(old(db.tables), old(db.serial), filas, leer, i + 1);
        return Failure(d.error);
      }
      var postulanteId := InscribirPostulante(db, d.value, ids);
      ids := ids + [postulanteId];
      i := i + 1;
    }
    assert filas[..i] == filas;
    return Success(ids);
  }

  // ---------------------------------------------------------------- guardarPlazas

  /** The values `guardarPlazas` reads from a row. */
  datatype DatosPlaza = DatosPlaza(red: string, ipress: string, grupo: string, especialidad: Option<string>,
                                   cantidad: Option<Num>)

  /** A position row's values: network and IPRESS with `toString().trim()`, the group with `toUpperCase`. */
  function DatosPlazaDe(p: Fila): Result<DatosPlaza, Fallo>
  {
    var red := TextoDe(p, ColRed);
    var ipress := TextoDe(p, ColIpress);
    var grupo := TextoEstricto(p, ColGrupo);
    if red.Failure? then Failure(red.error)
    else if ipress.Failure? then Failure(ipress.error)
    else if grupo.Failure? then Failure(grupo.error)
    else Success(DatosPlaza(Trim(red.value), Trim(ipress.value), Clave(grupo.value), EspecialidadDe(p),
                            Number(Col(p, ColCantidad))))
  }

  /** A read position row: network and IPRESS trimmed, group and specialty as keys. */
  lemma DatosPlazaNormales(p: Fila)
    requires DatosPlazaDe(p).Success?
    ensures var d := DatosPlazaDe(p).value;
            && Trimmed(d.red) && Trimmed(d.ipress) && Normal(d.grupo)
            && (d.especialidad.Some? ==> Normal(d.especialidad.value))
            && d.cantidad == Number(Col(p, ColCantidad))
  {
    TrimSpec(ComoTexto(p[ColRed]));
    TrimSpec(ComoTexto(p[ColIpress]));
    ClaveNormal(p[ColGrupo].s);
    if Truthy(Col(p, ColEspecialidad)) {
      ClaveNormal(ComoTexto(p[ColEspecialidad]));
    }
  }

  /** `(especialidad IS NULL OR especialidad = '')` when the row has none, else `especialidad = $4`. */
  predicate MismaEspecialidad(guardada: Option<string>, buscada: Option<string>)
  {
    if buscada.None? then guardada.None? || guardada == Some("") else guardada == buscada
  }

  /** The `SELECT id FROM plazas WHERE …` that looks for the row's position. */
  function PlazaCoincide(ipressId: Id, grupoId: Id, especialidad: Option<string>): Plaza -> bool
  {
    (p: Plaza) => p.ipressId == ipressId && p.grupoId == grupoId && p.subunidad == "-"
                  && MismaEspecialidad(p.especialidad, especialidad)
  }

  /** Where a position row goes: the state after its group, network and IPRESS are saved, and their ids. */
  datatype Destino = Destino(tables: Tables, serial: nat, grupos: map<string, Id>, grupoId: Id, ipressId: Id)

  /**
   * `gruposOcupacionalesMap[grupo]`, saving the group and adding it to the
   * map when the entry is missing or 0; then `guardarRed` and `guardarIpress`.
   */
  function DestinoDe(t: Tables, serial: nat, grupos: map<string, Id>, d: DatosPlaza): Destino
  {
    var conGrupo :=
      if d.grupo in grupos && grupos[d.grupo] != 0 then Mapeo(t, serial, grupos)
      else
        var g := GrupoGuardado(t, serial, d.grupo);
        Mapeo(g.tables, g.serial, grupos[d.grupo := g.id]);
    var red := RedGuardada(conGrupo.tables, conGrupo.serial, d.red);
    var ipress := IpressGuardada(red.tables, red.serial, d.ipress, red.id);
    Destino(ipress.tables, ipress.serial, conGrupo.grupos, conGrupo.grupos[d.grupo], ipress.id)
  }

  /** The tables, the next id, `gruposOcupacionalesMap` and `ids` part-way through the positions. */
  datatype AvancePlazas = AvancePlazas(tables: Tables, serial: nat, grupos: map<string, Id>, ids: seq<Id>)

  /** One position row: reuse the matching position, else insert one with `total` = the row's count. */
  function ConPlaza(a: AvancePlazas, d: DatosPlaza): Result<AvancePlazas, Fallo>
  {
    var o := DestinoDe(a.tables, a.serial, a.grupos, d);
    var total := EnteroDe(d.cantidad, ColCantidad);
    match First(o.tables.plazas, PlazaCoincide(o.ipressId, o.grupoId, d.especialidad))
    case Some(p) => Success(AvancePlazas(o.tables, o.serial, o.grupos, a.ids + [p.id]))
    case None =>
      if total.Failure? then Failure(total.error)
      else
        var nueva := Plaza(o.serial, o.ipressId, o.grupoId, "-", d.especialidad, total.value);
        Success(AvancePlazas(o.tables.(plazas := o.tables.plazas + [nueva]), o.serial + 1, o.grupos, a.ids + [o.serial]))
  }

  /**
   * A position row ends on a position of its IPRESS, group, sub-unit `-`
   * and specialty. An existing one is reused as it is; only when there is
   * none is one inserted, with the row's count as its total.
   */
  lemma ConPlazaReusa(a: AvancePlazas, d: DatosPlaza)
    requires ConPlaza(a, d).Success?
    ensures var o := DestinoDe(a.tables, a.serial, a.grupos, d);
            var b := ConPlaza(a, d).value;
            var coincide := PlazaCoincide(o.ipressId, o.grupoId, d.especialidad);
            && |b.ids| == |a.ids| + 1 && b.ids[..|a.ids|] == a.ids
            && b.tables == o.tables.(plazas := b.tables.plazas) && b.grupos == o.grupos
            && (exists i :: 0 <= i < |b.tables.plazas| && b.tables.plazas[i].id == b.ids[|a.ids|] && coincide(b.tables.plazas[i]))
            && ((exists i :: 0 <= i < |o.tables.plazas| && coincide(o.tables.plazas[i])) ==>
                  b.tables.plazas == o.tables.plazas && b.serial == o.serial)
            && ((forall i :: 0 <= i < |o.tables.plazas| ==> !coincide(o.tables.plazas[i])) ==>
                  && d.cantidad.Some? && EsEntero(d.cantidad.value.valor)
                  && b.tables.plazas == o.tables.plazas + [Plaza(o.serial, o.ipressId, o.grupoId, "-", d.especialidad,
                                                                 d.cantidad.value.valor.Floor)]
                  && b.ids[|a.ids|] == o.serial && b.serial == o.serial + 1)
  {
    var o := DestinoDe(a.tables, a.serial, a.grupos, d);
    var b := ConPlaza(a, d).value;
    assert b.ids[..|a.ids|] == a.ids;
    if First(o.tables.plazas, PlazaCoincide(o.ipressId, o.grupoId, d.especialidad)).None? {
      assert b.tables.plazas[|o.tables.plazas|].id == b.ids[|a.ids|];
    }
  }

  /** A row whose group the map already has adds no key to it. */
  lemma ConPlazaClaves(a: AvancePlazas, d: DatosPlaza)
    requires ConPlaza(a, d).Success? && d.grupo in a.grupos
    ensures ConPlaza(a, d).value.grupos.Keys == a.grupos.Keys
  {
    ConPlazaReusa(a, d);
  }

  /** `guardarPlazas(client, plazas, gruposOcupacionalesMap)`, stopping at the first row that throws. */
  function PlazasGuardadas(t: Tables, serial: nat, grupos: map<string, Id>, filas: seq<Fila>)
    : Result<AvancePlazas, Fallo>
    decreases |filas|
  {
    if filas == [] then Success(AvancePlazas(t, serial, grupos, []))
    else
      var previo := PlazasGuardadas(t, serial, grupos, filas[..|filas| - 1]);
      var d := DatosPlazaDe(filas[|filas| - 1]);
      if previo.Failure? then previo
      else if d.Failure? then Failure(d.error)
      else ConPlaza(previo.value, d.value)
  }

  /** One position id per row. */
  lemma {:induction false} PlazasGuardadasIds(t: Tables, serial: nat, grupos: map<string, Id>, filas: seq<Fila>)
    requires PlazasGuardadas(t, serial, grupos, filas).Success?
    ensures |PlazasGuardadas(t, serial, grupos, filas).value.ids| == |filas|
    decreases |filas|
  {
    if filas != [] {
      PlazasGuardadasIds(t, serial, grupos, filas[..|filas| - 1]);
      var a := PlazasGuardadas(t, serial, grupos, filas[..|filas| - 1]).value;
      ConPlazaReusa(a, DatosPlazaDe(filas[|filas| - 1]).value);
    }
  }

  /**
   * Saving positions never changes or removes an existing row: positions,
   * networks, IPRESS and groups are only added to, and the candidate tables
   * are not touched.
   */
  lemma {:induction false} PlazasGuardadasConservan(t: Tables, serial: nat, grupos: map<string, Id>, filas: seq<Fila>)
    requires PlazasGuardadas(t, serial, grupos, filas).Success?
    ensures var b := PlazasGuardadas(t, serial, grupos, filas).value;
            && t.plazas <= b.tables.plazas && t.redes <= b.tables.redes && t.ipress <= b.tables.ipress
            && t.grupos <= b.tables.grupos
            && b.tables.postulantes == t.postulantes && b.tables.adjudicaciones == t.adjudicaciones
    decreases |filas|
  {
    if filas != [] {
      PlazasGuardadasConservan(t, serial, grupos, filas[..|filas| - 1]);
      var a := PlazasGuardadas(t, serial, grupos, filas[..|filas| - 1]).value;
      var d := DatosPlazaDe(filas[|filas| - 1]).value;
      DestinoConserva(a.tables, a.serial, a.grupos, d);
      ConPlazaReusa(a, d);
    }
  }

  lemma DestinoConserva(t: Tables, serial: nat, grupos: map<string, Id>, d: DatosPlaza)
    ensures var o := DestinoDe(t, serial, grupos, d);
            && t.plazas == o.tables.plazas && t.redes <= o.tables.redes && t.ipress <= o.tables.ipress
            && t.grupos <= o.tables.grupos
            && o.tables.postulantes == t.postulantes && o.tables.adjudicaciones == t.adjudicaciones
  {
    var conGrupo :=
      if d.grupo in grupos && grupos[d.grupo] != 0 then Mapeo(t, serial, grupos)
      else
        var g := GrupoGuardado(t, serial, d.grupo);
        Mapeo(g.tables, g.serial, grupos[d.grupo := g.id]);
    GrupoGuardadoHalla(t, serial, d.grupo);
    var red := RedGuardada(conGrupo.tables, conGrupo.serial, d.red);
    RedGuardadaHalla(conGrupo.tables, conGrupo.serial, d.red);
    IpressGuardadaHalla(red.tables, red.serial, d.ipress, red.id);
  }

  lemma DestinoIntegro(t: Tables, serial: nat, grupos: map<string, Id>, d: DatosPlaza)
    requires Integra(t, serial)
    ensures var o := DestinoDe(t, serial, grupos, d); Integra(o.tables, o.serial) && o.serial >= serial
  {
    var conGrupo :=
      if d.grupo in grupos && grupos[d.grupo] != 0 then Mapeo(t, serial, grupos)
      else
        var g := GrupoGuardado(t, serial, d.grupo);
        Mapeo(g.tables, g.serial, grupos[d.grupo := g.id]);
    GrupoGuardadoIntegro(t, serial, Clave(d.grupo));
    var red := RedGuardada(conGrupo.tables, conGrupo.serial, d.red);
    RedGuardadaIntegra(conGrupo.tables, conGrupo.serial, Clave(d.red));
    IpressGuardadaIntegra(red.tables, red.serial, Clave(d.ipress), red.id);
  }

  /** Appending a position that takes the next id keeps the tables sound once the sequence advances. */
  lemma PlazaNuevaIntegra(t: Tables, serial: nat, p: Plaza)
    requires Integra(t, serial) && p.id == serial
    ensures Integra(t.(plazas := t.plazas + [p]), serial + 1)
  {
    NuevaPlazaIntegra(t, serial, p);
  }

  lemma ConPlazaIntegra(a: AvancePlazas, d: DatosPlaza)
    requires Integra(a.tables, a.serial) && ConPlaza(a, d).Success?
    ensures var b := ConPlaza(a, d).value; Integra(b.tables, b.serial) && b.serial >= a.serial
  {
    var o := DestinoDe(a.tables, a.serial, a.grupos, d);
    DestinoIntegro(a.tables, a.serial, a.grupos, d);
    var coincide := PlazaCoincide(o.ipressId, o.grupoId, d.especialidad);
    if First(o.tables.plazas, coincide).None? {
      var total := EnteroDe(d.cantidad, ColCantidad);
      PlazaNuevaIntegra(o.tables, o.serial, Plaza(o.serial, o.ipressId, o.grupoId, "-", d.especialidad, total.value));
    }
  }

  /** Once a prefix of the rows throws, the whole call throws the same error. */
  lemma {:induction false} PlazasFallan(t: Tables, serial: nat, grupos: map<string, Id>, filas: seq<Fila>, n: nat)
    requires n <= |filas| && PlazasGuardadas(t, serial, grupos, filas[..n]).Failure?
    ensures PlazasGuardadas(t, serial, grupos, filas) == PlazasGuardadas(t, serial, grupos, filas[..n])
    decreases |filas| - n
  {
    if n < |filas| {
      assert filas[..n + 1][..n] == filas[..n];
      PlazasFallan(t, serial, grupos, filas, n + 1);
    } else {
      assert filas[..n] == filas;
    }
  }

  /** The fold over `filas[..i + 1]`, from the fold over `filas[..i]` and row `i`. */
  lemma PlazasPaso(t: Tables, serial: nat, grupos: map<string, Id>, filas: seq<Fila>, i: nat)
    requires i < |filas| && PlazasGuardadas(t, serial, grupos, filas[..i]).Success?
    ensures PlazasGuardadas(t, serial, grupos, filas[..i + 1]) ==
              if DatosPlazaDe(filas[i]).Failure? then Failure(DatosPlazaDe(filas[i]).error)
              else ConPlaza(PlazasGuardadas(t, serial, grupos, filas[..i]).value, DatosPlazaDe(filas[i]).value)
  {
    assert filas[..i + 1][..i] == filas[..i];
    assert filas[..i + 1][i] == filas[i];
  }

  /** The first half of `guardarPlazas`' loop body: the row's group id (saved when the map has none), network and IPRESS. */
  method GuardarDestino(db: Database, grupos: map<string, Id>, d: DatosPlaza)
    returns (gruposMap: map<string, Id>, grupoId: Id, ipressId: Id)
    requires db.Valid()
    modifies db
    ensures db.Valid() && db.serial >= old(db.serial)
    ensures DestinoDe(old(db.tables), old(db.serial), grupos, d) == Destino(db.tables, db.serial, gruposMap, grupoId, ipressId)
  {
    gruposMap := grupos;
    if d.grupo in gruposMap && gruposMap[d.grupo] != 0 {
      grupoId := gruposMap[d.grupo];
    } else {
      grupoId := GuardarGrupoOcupacional(db, d.grupo);
      gruposMap := gruposMap[d.grupo := grupoId];
    }
    var redId := GuardarRed(db, d.red);
    ipressId := GuardarIpress(db, d.ipress, redId);
  }

  /**
   * The body of `guardarPlazas`' loop for one row's values `d`: where the
   * position goes, then the matching position or a new one. The id and the
   * map are returned.
   */
  method GuardarPlaza(db: Database, grupos: map<string, Id>, d: DatosPlaza, ghost ids: seq<Id>)
    returns (r: Result<(Id, map<string, Id>), Fallo>)
    requires db.Valid()
    modifies db
    ensures db.Valid() && db.serial >= old(db.serial)
    ensures var s := ConPlaza(AvancePlazas(old(db.tables), old(db.serial), grupos, ids), d);
            && (s.Failure? ==> r == Failure(s.error))
            && (s.Success? ==> r.Success? && s.value == AvancePlazas(db.tables, db.serial, r.value.1, ids + [r.value.0]))
  {
    var gruposMap, grupoId, ipressId := GuardarDestino(db, grupos, d);
    var existente := First(db.tables.plazas, PlazaCoincide(ipressId, grupoId, d.especialidad));
    if existente.Some? {
      return Success((existente.value.id, gruposMap));
    }
    var total := EnteroDe(d.cantidad, ColCantidad);
    if total.Failure? {
      return Failure(total.error);
    }
    var plazaId := db.serial;
    var nueva := Plaza(plazaId, ipressId, grupoId, "-", d.especialidad, total.value);
    db.InsertarPlaza(nueva);
    return Success((plazaId, gruposMap));
  }

  /** `guardarPlazas` on the database; the map it extends is returned beside the ids. */
  method GuardarPlazas(db: Database, filas: seq<Fila>, grupos: map<string, Id>)
    returns (r: Result<(seq<Id>, map<string, Id>), Fallo>)
    requires db.Valid()
    modifies db
    ensures db.Valid() && db.serial >= old(db.serial)
    ensures var s := PlazasGuardadas(old(db.tables), old(db.serial), grupos, filas);
            && (s.Failure? ==> r == Failure(s.error))
            && (s.Success? ==> r == Success((s.value.ids, s.value.grupos)) && db.tables == s.value.tables
                               && db.serial == s.value.serial)
  {
    var ids: seq<Id> := [];
    var gruposMap := grupos;
    var i := 0;
    while i < |filas|
      invariant 0 <= i <= |filas|
      invariant db.Valid() && db.serial >= old(db.serial)
      invariant PlazasGuardadas(old(db.tables), old(db.serial), grupos, filas[..i])
                == Success(AvancePlazas(db.tables, db.serial, gruposMap, ids))
    {
      PlazasPaso(old(db.tables), old(db.serial), grupos, filas, i);
      var d := DatosPlazaDe(filas[i]);
      if d.Failure? {
        PlazasFallan(old(db.tables), old(db.serial), grupos, filas, i + 1);
        return Failure(d.error);
      }
      var guardada := GuardarPlaza(db, gruposMap, d.value, ids);
      if guardada.Failure? {
        PlazasFallan(old(db.tables), old(db.serial), grupos, filas, i + 1);
        return Failure(guardada.error);
      }
      ids := ids + [guardada.value.0];
      gruposMap := guardada.value.1;
      i := i + 1;
    }
    assert filas[..i] == filas;
    return Success((ids, gruposMap));
  }

  // ---------------------------------------------------------------- subirExcel

  /** The workbook's sheets in order, each as `sheet_to_json` reads it. */
  type Libro = seq<seq<Fila>>

  const MsgSinArchivo := "No se ha enviado ningún archivo"
  const MsgDosHojas := "El archivo debe contener al menos 2 hojas: Postulantes y Plazas"
  const MsgPostulantesVacia := "La hoja de Postulantes está vacía"
  const MsgPlazasVacia := "La hoja de Plazas está vacía"
  const MsgCargado := "Datos cargados exitosamente"
  const MsgErrorExcel := "Error al procesar el archivo Excel"

  /** What `subirExcel` answers. */
  datatype Respuesta =
    | Invalida(mensaje: string)           // 400, `success: false`
    | ErrorInterno(error: Fallo)          // 500 with `MsgErrorExcel` and the error
    | Cargada(postulantes: nat, plazas: nat, gruposOcupacionales: nat)  // `success: true` with `MsgCargado`

  /** The HTTP status of each answer. */
  function Codigo(r: Respuesta): int
  {
    match r
    case Invalida(_) => 400
    case ErrorInterno(_) => 500
    case Cargada(_, _, _) => 200
  }

  /** The checks made before `BEGIN`, in order: the message of the first one that fails. */
  function Previa(archivo: Option<Libro>): Option<string>
  {
    if archivo.None? then Some(MsgSinArchivo)
    else if |archivo.value| < 2 then Some(MsgDosHojas)
    else if |archivo.value[0]| == 0 then Some(MsgPostulantesVacia)
    else if |archivo.value[1]| == 0 then Some(MsgPlazasVacia)
    else if ValidacionPostulantes(archivo.value[0]).Some? then MensajeDe(ValidacionPostulantes(archivo.value[0]))
    else MensajeDe(ValidacionPlazas(archivo.value[1]))
  }

  /** The state `COMMIT` makes durable and the ids and map the answer counts. */
  datatype Cargado = Cargado(tables: Tables, serial: nat, postulantes: seq<Id>, plazas: seq<Id>, grupos: map<string, Id>)

  /** The three writes between `BEGIN` and `COMMIT`. */
  function Escritura(t: Tables, serial: nat, postulantes: seq<Fila>, plazas: seq<Fila>): Result<Cargado, Fallo>
  {
    var unicos := Unicos(postulantes + plazas);
    if unicos.Failure? then Failure(unicos.error)
    else
      var m := GruposGuardados(t, serial, unicos.value);
      var a := PostulantesGuardados(m.tables, m.serial, postulantes, Lector(m.grupos));
      if a.Failure? then Failure(a.error)
      else
        var b := PlazasGuardadas(a.value.tables, a.value.serial, m.grupos, plazas);
        if b.Failure? then Failure(b.error)
        else Success(Cargado(b.value.tables, b.value.serial, a.value.ids, b.value.ids, b.value.grupos))
  }

  /** `subirExcel`'s answer for the request's workbook (`None` when no file was sent). */
  function Subida(t: Tables, serial: nat, archivo: Option<Libro>): Respuesta
  {
    var previa := Previa(archivo);
    if previa.Some? then Invalida(previa.value)
    else Transaccion(t, serial, archivo.value[0], archivo.value[1])
  }

  /** The answer of the part between `BEGIN` and `COMMIT`. */
  function Transaccion(t: Tables, serial: nat, postulantes: seq<Fila>, plazas: seq<Fila>): Respuesta
  {
    match Escritura(t, serial, postulantes, plazas)
    case Failure(e) => ErrorInterno(e)
    case Success(c) => Cargada(|c.postulantes|, |c.plazas|, |c.grupos.Keys|)
  }

  /**
   * `subirExcel`. A write happens only inside the transaction; a failure
   * there rolls the tables back, though the id sequence keeps its advance.
   */
  method SubirExcel(db: Database, archivo: Option<Libro>) returns (respuesta: Respuesta)
    requires db.Valid()
    modifies db
    ensures db.Valid()
    ensures respuesta == Subida(old(db.tables), old(db.serial), archivo)
    ensures respuesta.Cargada? ==>
              var c := Escritura(old(db.tables), old(db.serial), archivo.value[0], archivo.value[1]).value;
              db.tables == c.tables && db.serial == c.serial
    ensures !respuesta.Cargada? ==> db.tables == old(db.tables) && db.serial >= old(db.serial)
  {
    if archivo.None? {
      return Invalida(MsgSinArchivo);
    }
    var libro := archivo.value;
    if |libro| < 2 {
      return Invalida(MsgDosHojas);
    }
    var postulantesData := libro[0];
    var plazasData := libro[1];
    if |postulantesData| == 0 {
      return Invalida(MsgPostulantesVacia);
    }
    if |plazasData| == 0 {
      return Invalida(MsgPlazasVacia);
    }
    var validacionPostulantes := ValidarPostulantes(postulantesData);
    if validacionPostulantes.Some? {
      return Invalida(validacionPostulantes.value);
    }
    var validacionPlazas := ValidarPlazas(plazasData);
    if validacionPlazas.Some? {
      return Invalida(validacionPlazas.value);
    }
    respuesta := Transaccionar(db, postulantesData, plazasData);
  }

  /**
   * The writes between `BEGIN` and `COMMIT`: all three succeed and are kept,
   * or the first failure rolls the tables back.
   */
  method Transaccionar(db: Database, postulantesData: seq<Fila>, plazasData: seq<Fila>) returns (respuesta: Respuesta)
    requires db.Valid()
    modifies db
    ensures db.Valid()
    ensures respuesta == Transaccion(old(db.tables), old(db.serial), postulantesData, plazasData)
    ensures respuesta.Cargada? ==>
              var c := Escritura(old(db.tables), old(db.serial), postulantesData, plazasData).value;
              db.tables == c.tables && db.serial == c.serial
    ensures !respuesta.Cargada? ==> db.tables == old(db.tables) && db.serial >= old(db.serial)
  {
    // BEGIN
    var respaldo := db.tables;
    ghost var desde := db.serial;
    var grupos := GuardarGruposOcupacionales(db, postulantesData, plazasData);
    if grupos.Failure? {
      db.Rollback(respaldo, desde);
      return ErrorInterno(grupos.error);
    }
    var postulanteIds := GuardarPostulantes(db, postulantesData, grupos.value);
    if postulanteIds.Failure? {
      db.Rollback(respaldo, desde);
      return ErrorInterno(postulanteIds.error);
    }
    var plazas := GuardarPlazas(db, plazasData, grupos.value);
    if plazas.Failure? {
      db.Rollback(respaldo, desde);
      return ErrorInterno(plazas.error);
    }
    // COMMIT
    return Cargada(|postulanteIds.value|, |plazas.value.0|, |plazas.value.1.Keys|);
  }

  /**
   * Nothing is written unless a file came with at least two sheets, both
   * non-empty, every candidate row complete with pairwise different merit
   * ranks and every position row complete.
   */
  lemma CargaSoloValida(t: Tables, serial: nat, archivo: Option<Libro>)
    requires Subida(t, serial, archivo).Cargada?
    ensures archivo.Some? && |archivo.value| >= 2
    ensures var ps := archivo.value[0]; var qs := archivo.value[1];
            && |ps| > 0 && |qs| > 0
            && (forall i :: 0 <= i < |ps| ==> PostulanteCompleto(ps[i]))
            && (forall i, j :: 0 <= i < j < |ps| ==> OmValor(ps[i]) != OmValor(ps[j]))
            && (forall i :: 0 <= i < |qs| ==> PlazaCompleta(qs[i]))
  {
    AceptaPostulantes(archivo.value[0]);
    AceptaPlazas(archivo.value[1]);
  }

  /** The answer's counts are one per candidate row and one per position row. */
  lemma CargaCuenta(t: Tables, serial: nat, archivo: Option<Libro>)
    requires Subida(t, serial, archivo).Cargada?
    ensures Subida(t, serial, archivo).postulantes == |archivo.value[0]|
    ensures Subida(t, serial, archivo).plazas == |archivo.value[1]|
  {
    var ps := archivo.value[0];
    var qs := archivo.value[1];
    var m := GruposGuardados(t, serial, Unicos(ps + qs).value);
    PostulantesGuardadosFilas(m.tables, m.serial, ps, Lector(m.grupos));
    var a := PostulantesGuardados(m.tables, m.serial, ps, Lector(m.grupos)).value;
    PlazasGuardadasIds(a.tables, a.serial, m.grupos, qs);
  }

  /** A position row's group adds no key to the map when it is already one. */
  lemma {:induction false} PlazasGuardadasMismasClaves(t: Tables, serial: nat, grupos: map<string, Id>, filas: seq<Fila>)
    requires PlazasGuardadas(t, serial, grupos, filas).Success?
    requires forall i :: 0 <= i < |filas| && DatosPlazaDe(filas[i]).Success? ==> DatosPlazaDe(filas[i]).value.grupo in grupos
    ensures PlazasGuardadas(t, serial, grupos, filas).value.grupos.Keys == grupos.Keys
    decreases |filas|
  {
    if filas != [] {
      var previas := filas[..|filas| - 1];
      assert forall i :: 0 <= i < |previas| ==> previas[i] == filas[i];
      PlazasGuardadasMismasClaves(t, serial, grupos, previas);
      var a := PlazasGuardadas(t, serial, grupos, previas).value;
      var d := DatosPlazaDe(filas[|filas| - 1]).value;
      ConPlazaClaves(a, d);
    }
  }

  /** A complete position row that can be read has its group as its key. */
  lemma ClaveDePlaza(q: Fila)
    requires PlazaCompleta(q) && DatosPlazaDe(q).Success?
    ensures ClaveGrupo(q) == Success(Some(DatosPlazaDe(q).value.grupo))
  {
  }

  /** The group of a readable row of an accepted position sheet is among the keys `Unicos` collects. */
  lemma GrupoDePlazaEnUnicos(ps: seq<Fila>, qs: seq<Fila>, i: nat)
    requires i < |qs| && ValidacionPlazas(qs).None? && DatosPlazaDe(qs[i]).Success? && Unicos(ps + qs).Success?
    ensures DatosPlazaDe(qs[i]).value.grupo in Unicos(ps + qs).value
  {
    AceptaPlazas(qs);
    ClaveDePlaza(qs[i]);
    UnicosClaves(ps + qs);
    assert (ps + qs)[|ps| + i] == qs[i];
  }

  /** The writes of an accepted position sheet keep one group id per different name. */
  lemma EscrituraGrupos(t: Tables, serial: nat, ps: seq<Fila>, qs: seq<Fila>)
    requires ValidacionPlazas(qs).None? && Escritura(t, serial, ps, qs).Success?
    ensures Unicos(ps + qs).Success?
    ensures |Escritura(t, serial, ps, qs).value.grupos.Keys| == |Unicos(ps + qs).value|
  {
    var unicos := Unicos(ps + qs).value;
    var m := GruposGuardados(t, serial, unicos);
    GruposGuardadosClaves(t, serial, unicos);
    var a := PostulantesGuardados(m.tables, m.serial, ps, Lector(m.grupos)).value;
    forall i | 0 <= i < |qs| && DatosPlazaDe(qs[i]).Success?
      ensures DatosPlazaDe(qs[i]).value.grupo in m.grupos
    {
      GrupoDePlazaEnUnicos(ps, qs, i);
    }
    PlazasGuardadasMismasClaves(a.tables, a.serial, m.grupos, qs);
    UnicosClaves(ps + qs);
    DistinctCard(unicos);
  }

  /** `gruposOcupacionales` is the number of different group names on the two sheets. */
  lemma CargaGrupos(t: Tables, serial: nat, archivo: Option<Libro>)
    requires Subida(t, serial, archivo).Cargada?
    ensures var unicos := Unicos(archivo.value[0] + archivo.value[1]);
            && unicos.Success?
            && Subida(t, serial, archivo).gruposOcupacionales == |unicos.value|
            && forall c :: c in unicos.value <==>
                 exists i :: 0 <= i < |archivo.value[0] + archivo.value[1]| &&
                   ClaveGrupo((archivo.value[0] + archivo.value[1])[i]) == Success(Some(c))
  {
    var ps := archivo.value[0];
    var qs := archivo.value[1];
    assert ValidacionPlazas(qs).None?;
    EscrituraGrupos(t, serial, ps, qs);
    UnicosClaves(ps + qs);
  }
}
