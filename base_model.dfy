/**
 * `BaseModel`, the CRUD layer every model extends: the SQL text its
 * builders produce, with the parameter array they bind, and the relational
 * meaning of each statement on a table held as a sequence of rows.
 *
 * An object of conditions or data is a sequence of (column, value) pairs in
 * key order; `Object.keys` and `Object.values` list them in that same
 * order. SQL text is modelled up to its line breaks and indentation: pieces
 * are separated by one space.
 */
module BaseModel {
  import opened Wrappers
  import opened Text
  import opened Relational
  import opened Valores
  import Pagination

  // ---------------------------------------------------------------- placeholders

  /** `$k`. */
  function Placeholder(k: nat): string
  {
    "$" + NatToString(k)
  }

  /** The number a placeholder names, as PostgreSQL reads `$k`. */
  function NumeroDe(ph: string): Option<int>
  {
    if ph != [] && ph[0] == '$' then ParseInt(ph[1..]) else None
  }

  /** Reading a placeholder back gives the number it was written with. */
  lemma NumeroDePlaceholder(k: nat)
    ensures NumeroDe(Placeholder(k)) == Some(k)
  {
    ParseIntRoundTrip(k);
    assert IntToString(k) == NatToString(k);
    assert Placeholder(k)[1..] == NatToString(k);
  }

  /** `col = $k`. */
  function Igual(col: string, k: nat): string
  {
    col + " = " + Placeholder(k)
  }

  /** `cols.map((c, index) => `${c} = $${index + base}`)`. */
  function Igualdades(cols: seq<string>, base: nat): (r: seq<string>)
    ensures |r| == |cols|
  {
    seq(|cols|, i requires 0 <= i < |cols| => Igual(cols[i], base + i))
  }

  /** `values.map((_, index) => `$${index + 1}`)`. */
  function Placeholders(n: nat): (r: seq<string>)
    ensures |r| == n
  {
    seq(n, i requires 0 <= i < n => Placeholder(i + 1))
  }

  function Columnas(data: seq<(string, Valor)>): (r: seq<string>)
    ensures |r| == |data| && forall i :: 0 <= i < |data| ==> r[i] == data[i].0
  {
    seq(|data|, i requires 0 <= i < |data| => data[i].0)
  }

  function ValoresDe(data: seq<(string, Valor)>): (r: seq<Valor>)
    ensures |r| == |data| && forall i :: 0 <= i < |data| ==> r[i] == data[i].1
  {
    seq(|data|, i requires 0 <= i < |data| => data[i].1)
  }

  /**
   * Piece `i` of a list of `col = $k` pieces names column `cols[i]`, and
   * its placeholder, read back, is `base + i`.
   */
  predicate Alineadas(piezas: seq<string>, cols: seq<string>, base: nat)
  {
    |piezas| == |cols|
    && forall i :: 0 <= i < |piezas| ==>
         && StartsWith(piezas[i], cols[i] + " = ")
         && NumeroDe(piezas[i][|cols[i]| + 3..]) == Some(base + i)
  }

  lemma IgualdadesAlineadas(cols: seq<string>, base: nat)
    ensures Alineadas(Igualdades(cols, base), cols, base)
  {
    var piezas := Igualdades(cols, base);
    forall i | 0 <= i < |piezas|
      ensures StartsWith(piezas[i], cols[i] + " = ") && NumeroDe(piezas[i][|cols[i]| + 3..]) == Some(base + i)
    {
      assert piezas[i] == (cols[i] + " = ") + Placeholder(base + i);
      assert piezas[i][|cols[i]| + 3..] == Placeholder(base + i);
      NumeroDePlaceholder(base + i);
    }
  }

  // ---------------------------------------------------------------- statements

  /** A statement and the parameter array sent with it. */
  datatype Consulta = Consulta(sql: string, params: seq<Valor>)

  /** ` WHERE k1 = $1 AND k2 = $2 ...`, or nothing without conditions. */
  function Where(conds: seq<(string, Valor)>): string
  {
    if conds == [] then "" else " WHERE " + Join(Igualdades(Columnas(conds), 1), " AND ")
  }

  /** `findAll(conditions, orderBy)`. */
  function FindAllSql(tabla: string, conds: seq<(string, Valor)>, orderBy: string): (q: Consulta)
    ensures q.params == ValoresDe(conds)
  {
    Consulta("SELECT * FROM " + tabla + Where(conds) + " ORDER BY " + orderBy, ValoresDe(conds))
  }

  /** `count(conditions)`. */
  function CountSql(tabla: string, conds: seq<(string, Valor)>): (q: Consulta)
    ensures q.params == ValoresDe(conds)
  {
    Consulta("SELECT COUNT(*) as total FROM " + tabla + Where(conds), ValoresDe(conds))
  }

  /**
   * In `findAll` and `count`, the WHERE clause joins one `key = $k` piece
   * per condition with " AND ", and the parameter placeholder `k` names is
   * the value of that same condition: `params[k - 1]`.
   */
  lemma WhereAlineado(tabla: string, conds: seq<(string, Valor)>, orderBy: string)
    ensures var piezas := Igualdades(Columnas(conds), 1);
      && (conds != [] ==> Where(conds) == " WHERE " + Join(piezas, " AND "))
      && |FindAllSql(tabla, conds, orderBy).params| == |conds|
      && forall i :: 0 <= i < |conds| ==>
           && StartsWith(piezas[i], conds[i].0 + " = ")
           && NumeroDe(piezas[i][|conds[i].0| + 3..]) == Some(i + 1)
           && FindAllSql(tabla, conds, orderBy).params[i] == conds[i].1
           && CountSql(tabla, conds).params[i] == conds[i].1
  {
    IgualdadesAlineadas(Columnas(conds), 1);
  }

  /** `create(data)`: one placeholder per value, in column order. */
  function CreateSql(tabla: string, data: seq<(string, Valor)>): (q: Consulta)
    ensures q.params == ValoresDe(data)
  {
    Consulta("INSERT INTO " + tabla + " (" + Join(Columnas(data), ", ") + ") VALUES ("
             + Join(Placeholders(|data|), ", ") + ") RETURNING *", ValoresDe(data))
  }

  /** The `i`-th column of `create` is bound to placeholder `$(i+1)`, whose parameter is that column's value. */
  lemma CreateAlineado(tabla: string, data: seq<(string, Valor)>)
    ensures |Placeholders(|data|)| == |CreateSql(tabla, data).params| == |data|
    ensures forall i :: 0 <= i < |data| ==>
              && NumeroDe(Placeholders(|data|)[i]) == Some(i + 1)
              && CreateSql(tabla, data).params[i] == data[i].1
  {
    forall i | 0 <= i < |data| ensures NumeroDe(Placeholders(|data|)[i]) == Some(i + 1) {
      NumeroDePlaceholder(i + 1);
    }
  }

  /** The assignment `update` always appends to its SET list. */
  const UpdatedAt := "updated_at = CURRENT_TIMESTAMP"

  /** `update(id, data)`: id is `$1`, the columns follow from `$2`. */
  function UpdateSql(tabla: string, id: Valor, data: seq<(string, Valor)>): (q: Consulta)
    ensures |q.params| == |data| + 1
  {
    Consulta("UPDATE " + tabla + " SET " + Join(Igualdades(Columnas(data), 2), ", ") + ", " + UpdatedAt
             + " WHERE id = $1" + " RETURNING *", [id] + ValoresDe(data))
  }

  /**
   * `update` binds the id to `$1` and column `i` to `$(i+2)`, and its SET
   * list always also assigns `updated_at`.
   */
  lemma UpdateAlineado(tabla: string, id: Valor, data: seq<(string, Valor)>)
    ensures UpdateSql(tabla, id, data).params[0] == id
    ensures forall i :: 0 <= i < |data| ==>
              && StartsWith(Igualdades(Columnas(data), 2)[i], data[i].0 + " = ")
              && NumeroDe(Igualdades(Columnas(data), 2)[i][|data[i].0| + 3..]) == Some(i + 2)
              && UpdateSql(tabla, id, data).params[i + 1] == data[i].1
    ensures Contains(UpdateSql(tabla, id, data).sql, UpdatedAt)
    ensures Contains(UpdateSql(tabla, id, data).sql, " WHERE id = $1")
  {
    IgualdadesAlineadas(Columnas(data), 2);
    UpdateTexto(tabla, id, data);
  }

  lemma UpdateTexto(tabla: string, id: Valor, data: seq<(string, Valor)>)
    ensures Contains(UpdateSql(tabla, id, data).sql, UpdatedAt)
    ensures Contains(UpdateSql(tabla, id, data).sql, " WHERE id = $1")
  {
    var a := "UPDATE " + tabla + " SET " + Join(Igualdades(Columnas(data), 2), ", ") + ", ";
    var w, z := " WHERE id = $1", " RETURNING *";
    assert UpdateSql(tabla, id, data).sql == a + UpdatedAt + (w + z);
    ContainsMiddle(a, UpdatedAt, w + z);
    assert UpdateSql(tabla, id, data).sql == (a + UpdatedAt) + w + z;
    ContainsMiddle(a + UpdatedAt, w, z);
  }

  /** A string occurs in any string built around it. */
  lemma ContainsMiddle(a: string, b: string, c: string)
    ensures Contains(a + b + c, b)
  {
    assert (a + b + c)[|a|..][..|b|] == b;
    assert StartsWith((a + b + c)[|a|..], b);
  }

  /** `findWithPagination`: the conditions' placeholders, then LIMIT and OFFSET. */
  function PaginationSql(tabla: string, conds: seq<(string, Valor)>, orderBy: string, page: int, limit: int)
    : (q: Consulta)
    ensures |q.params| == |conds| + 2
  {
    var n := |conds|;
    Consulta("SELECT * FROM " + tabla + Where(conds) + " ORDER BY " + orderBy
             + " LIMIT " + Placeholder(n + 1) + " OFFSET " + Placeholder(n + 2),
             ValoresDe(conds) + [Numero(limit), Numero((page - 1) * limit)])
  }

  /**
   * The LIMIT and OFFSET placeholders come after the `n` condition
   * parameters: `$(n+1)` is bound to `limit` and `$(n+2)` to
   * `(page - 1) * limit`, while the conditions keep `$1..$n`.
   */
  lemma PaginationAlineado(tabla: string, conds: seq<(string, Valor)>, orderBy: string, page: int, limit: int)
    ensures var q := PaginationSql(tabla, conds, orderBy, page, limit);
      var n := |conds|;
      && NumeroDe(Placeholder(n + 1)) == Some(n + 1) && q.params[n] == Numero(limit)
      && NumeroDe(Placeholder(n + 2)) == Some(n + 2) && q.params[n + 1] == Numero((page - 1) * limit)
      && forall i :: 0 <= i < n ==> q.params[i] == conds[i].1
  {
    NumeroDePlaceholder(|conds| + 1);
    NumeroDePlaceholder(|conds| + 2);
  }

  // ---------------------------------------------------------------- meaning on a table

  /**
   * A row satisfies `key1 = v1 AND key2 = v2 ...`; `campo` reads a column,
   * giving `Nulo` for NULL, and a comparison with NULL is never true.
   */
  predicate Coincide<T>(fila: T, conds: seq<(string, Valor)>, campo: (T, string) -> Valor)
  {
    forall i :: 0 <= i < |conds| ==> conds[i].1 != Nulo && campo(fila, conds[i].0) == conds[i].1
  }

  function Condicion<T>(conds: seq<(string, Valor)>, campo: (T, string) -> Valor): T -> bool
  {
    (fila: T) => Coincide(fila, conds, campo)
  }

  /** The rows `findAll` returns, in `orderBy` order. */
  function FindAll<T(==,!new)>(filas: seq<T>, conds: seq<(string, Valor)>, campo: (T, string) -> Valor,
                             orden: T -> seq<Key>): (r: seq<T>)
    ensures SortedBy(r, orden)
    ensures forall x :: x in r <==> x in filas && Coincide(x, conds, campo)
    ensures multiset(r) == multiset(Filter(filas, Condicion(conds, campo)))
  {
    var elegidas := Filter(filas, Condicion(conds, campo));
    SortByMembers(elegidas, orden);
    SortBy(elegidas, orden)
  }

  /** `count(conditions)`. */
  function Count<T>(filas: seq<T>, conds: seq<(string, Valor)>, campo: (T, string) -> Valor): (n: nat)
    ensures n <= |filas|
  {
    CountWhere(filas, Condicion(conds, campo))
  }

  /** `exists(conditions)`: `count > 0`. */
  function Exists<T>(filas: seq<T>, conds: seq<(string, Valor)>, campo: (T, string) -> Valor): bool
  {
    Count(filas, conds, campo) > 0
  }

  /** `exists` holds exactly when some row satisfies every condition. */
  lemma ExistsIff<T>(filas: seq<T>, conds: seq<(string, Valor)>, campo: (T, string) -> Valor)
    ensures Exists(filas, conds, campo) <==> exists i :: 0 <= i < |filas| && Coincide(filas[i], conds, campo)
  {
    CountPositiveIff(filas, Condicion(conds, campo));
  }

  /** `findById(id)`: the row with that key, or `null`. */
  function FindById<T(==)>(filas: seq<T>, key: T -> int, id: int): (r: Option<T>)
    ensures r.None? <==> forall i :: 0 <= i < |filas| ==> key(filas[i]) != id
    ensures r.Some? ==> key(r.value) == id && r.value in filas
  {
    First(filas, ConClave(key, id))
  }

  function ConClave<T>(key: T -> int, id: int): T -> bool
  {
    (x: T) => key(x) == id
  }

  function SinClave<T>(key: T -> int, id: int): T -> bool
  {
    (x: T) => key(x) != id
  }

  /** A table after a statement, and the row `RETURNING *` gives back (`rows[0] || null`). */
  datatype Escritura<T> = Escritura(filas: seq<T>, fila: Option<T>)

  /** `delete(id)`: `DELETE ... WHERE id = $1 RETURNING *`. */
  function Delete<T(==,!new)>(filas: seq<T>, key: T -> int, id: int): (r: Escritura<T>)
    ensures r.fila == FindById(filas, key, id)
    ensures forall x :: x in r.filas <==> x in filas && key(x) != id
    ensures Subsequence(r.filas, filas)
  {
    Escritura(Filter(filas, SinClave(key, id)), FindById(filas, key, id))
  }

  /** `update(id, data)` with the row rewrite `f`: `UPDATE ... WHERE id = $1 RETURNING *`. */
  function Update<T(==)>(filas: seq<T>, key: T -> int, id: int, f: T -> T): (r: Escritura<T>)
    ensures |r.filas| == |filas|
    ensures forall i :: 0 <= i < |filas| ==> r.filas[i] == if key(filas[i]) == id then f(filas[i]) else filas[i]
    ensures r.fila.None? <==> FindById(filas, key, id).None?
    ensures r.fila.Some? ==> r.fila.value == f(FindById(filas, key, id).value)
  {
    var antes := FindById(filas, key, id);
    Escritura(UpdateWhere(filas, ConClave(key, id), f), if antes.Some? then Some(f(antes.value)) else None)
  }

  /** A DELETE whose WHERE matches nothing keeps the table as it was. */
  lemma DeleteAusente<T(!new)>(filas: seq<T>, key: T -> int, id: int)
    requires FindById(filas, key, id).None?
    ensures Delete(filas, key, id).filas == filas
  {
    assert forall i :: 0 <= i < |filas| ==> SinClave(key, id)(filas[i]);
    FilterTodos(filas, SinClave(key, id));
  }

  /**
   * `findById`, `update` and `delete` return `null` when no row has that
   * id, and then `update` and `delete` leave the table unchanged; after a
   * delete no row with that id is left, and with a unique key exactly one
   * row fewer remains.
   */
  lemma DeleteEfecto<T(!new)>(filas: seq<T>, key: T -> int, id: int, f: T -> T)
    ensures FindById(filas, key, id).None? ==>
              && Delete(filas, key, id) == Escritura(filas, None)
              && Update(filas, key, id, f) == Escritura(filas, None)
    ensures FindById(Delete(filas, key, id).filas, key, id).None?
    ensures Unique(filas, key) && FindById(filas, key, id).Some? ==> |Delete(filas, key, id).filas| == |filas| - 1
  {
    if FindById(filas, key, id).None? {
      DeleteAusente(filas, key, id);
      UpdateWhereNone(filas, ConClave(key, id), f);
    }
    if Unique(filas, key) && FindById(filas, key, id).Some? {
      DeleteUnico(filas, key, id);
    }
  }

  /** With a unique key, a DELETE by a present id removes one row. */
  lemma DeleteUnico<T(!new)>(filas: seq<T>, key: T -> int, id: int)
    requires Unique(filas, key) && FindById(filas, key, id).Some?
    ensures |Delete(filas, key, id).filas| == |filas| - 1
  {
    DeleteCuenta(filas, key, id);
    CountUniqueAtMostOne(filas, key, ConClave(key, id));
    CountPositiveIff(filas, ConClave(key, id));
  }

  /** The rows a DELETE keeps and the rows with that id make up the table. */
  lemma {:induction false} DeleteCuenta<T(!new)>(filas: seq<T>, key: T -> int, id: int)
    ensures |Delete(filas, key, id).filas| + CountWhere(filas, ConClave(key, id)) == |filas|
  {
    if filas != [] {
      DeleteCuenta(filas[1..], key, id);
    }
  }

  /** The page `findWithPagination` reads, or the error PostgreSQL raises for a negative LIMIT or OFFSET. */
  datatype Pagina<T> = Pagina(data: seq<T>, page: int, limit: int, total: nat, pages: Option<int>)

  /** `OFFSET k`. */
  function Drop<T>(t: seq<T>, k: nat): seq<T>
  {
    if k <= |t| then t[k..] else []
  }

  /**
   * `findWithPagination(page, limit, conditions, orderBy)`. `pages` is
   * `Math.ceil(total / limit)`, not a finite number when `limit` is 0.
   */
  function FindWithPagination<T(==,!new)>(filas: seq<T>, conds: seq<(string, Valor)>, campo: (T, string) -> Valor,
                                        orden: T -> seq<Key>, page: int, limit: int): (r: Result<Pagina<T>, string>)
    ensures r.Failure? <==> limit < 0 || (page - 1) * limit < 0
    ensures r.Success? ==> r.value.total == Count(filas, conds, campo) && |r.value.data| <= limit
    ensures r.Success? ==> (r.value.pages.Some? <==> limit != 0)
  {
    var offset := (page - 1) * limit;
    if limit < 0 then Failure("LIMIT must not be negative")
    else if offset < 0 then Failure("OFFSET must not be negative")
    else
      var total := Count(filas, conds, campo);
      Success(Pagina(Take(Drop(FindAll(filas, conds, campo, orden), offset), limit), page, limit, total,
                     if limit == 0 then None else Some(Pagination.CeilDiv(total, limit))))
  }

  /**
   * For `page >= 1` and `limit >= 1`, the page the database returns is the
   * page the controllers cut from the whole result with
   * `slice((page - 1) * limit, (page - 1) * limit + limit)`, with the same
   * total and `pages = ceil(total / limit)`.
   */
  lemma PaginacionComoSlice<T(!new)>(filas: seq<T>, conds: seq<(string, Valor)>, campo: (T, string) -> Valor,
                                        orden: T -> seq<Key>, page: int, limit: int)
    requires page >= 1 && limit >= 1
    ensures var r := FindWithPagination(filas, conds, campo, orden, page, limit);
      var todas := FindAll(filas, conds, campo, orden);
      var p := Pagination.Paginar(todas, page, limit);
      && r.Success? && r.value.data == p.data && r.value.total == p.total
      && r.value.pages == Some(p.pages)
  {
    var todas := FindAll(filas, conds, campo, orden);
    VentanaComoSlice(todas, page, limit);
    CountIsFilterLength(filas, Condicion(conds, campo));
    assert |todas| == |Filter(filas, Condicion(conds, campo))| by {
      assert |multiset(todas)| == |multiset(Filter(filas, Condicion(conds, campo)))|;
    }
  }

  /** `LIMIT limit OFFSET (page - 1) * limit` cuts the same rows as the controllers' slice. */
  lemma VentanaComoSlice<T>(todas: seq<T>, page: int, limit: int)
    requires page >= 1 && limit >= 1
    ensures (page - 1) * limit >= 0
    ensures Take(Drop(todas, (page - 1) * limit), limit) == Pagination.Paginar(todas, page, limit).data
  {
    Pagination.MulMonotone(0, page - 1, limit);
    Pagination.MulSucc(page - 1, limit);
    Pagination.PaginaContenido(todas, page, limit);
  }
}
