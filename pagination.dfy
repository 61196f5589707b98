/**
 * The in-memory pagination the controllers apply to a query result:
 * `result.slice((page - 1) * limit, (page - 1) * limit + limit)` with
 * `pages = Math.ceil(result.length / limit)`, and the `parseInt(x) || d`
 * defaults that feed it.
 */
module Pagination {
  import opened Wrappers
  import opened Text

  /** Where `Array.prototype.slice` puts an index: negatives count from the end, then the index is clamped. */
  function SliceIndex(i: int, n: nat): (k: nat)
    ensures k <= n
  {
    if i < 0 then (if n + i < 0 then 0 else n + i)
    else if i > n then n
    else i
  }

  /** `xs.slice(start, end)`. */
  function Slice<T>(xs: seq<T>, start: int, end: int): (r: seq<T>)
    ensures |r| <= |xs|
    ensures 0 <= start <= end <= |xs| ==> r == xs[start..end]
    ensures 0 <= end <= start ==> r == []
    ensures start >= |xs| ==> r == []
  {
    var s, e := SliceIndex(start, |xs|), SliceIndex(end, |xs|);
    if s < e then xs[s..e] else []
  }

  /** A slice is a contiguous run of the sequence. */
  lemma SliceContiguous<T>(xs: seq<T>, start: int, end: int) returns (k: nat)
    ensures k + |Slice(xs, start, end)| <= |xs| && Slice(xs, start, end) == xs[k..k + |Slice(xs, start, end)|]
  {
    var s := SliceIndex(start, |xs|);
    k := if s < SliceIndex(end, |xs|) then s else 0;
  }

  /** `Math.ceil(n / l)` for a count `n` and a non-zero integer `l`. */
  function CeilDiv(n: nat, l: int): (c: int)
    requires l != 0
    ensures l > 0 ==> c >= 0
    ensures l < 0 ==> c <= 0
  {
    if l > 0 then (n + l - 1) / l else -(n / -l)
  }

  /** For a positive size, `ceil(n / l)` pages of `l` hold `n` rows and one page fewer does not. */
  lemma CeilDivBounds(n: nat, l: int)
    requires l > 0
    ensures var c := CeilDiv(n, l);
      c * l >= n && (c == 0 || (c - 1) * l < n) && (c == 0 <==> n == 0)
  {
  }

  /** `parseInt(x) || d`: the default replaces NaN and 0. */
  function IntOr(s: string, d: int): (v: int)
    ensures v == d || ParseInt(s) == Some(v)
    ensures v == 0 ==> d == 0
  {
    match ParseInt(s)
    case Some(n) => if n == 0 then d else n
    case None => d
  }

  /** The `pagination` object of the responses. */
  datatype Paginado<T> = Paginado(data: seq<T>, page: int, limit: int, total: nat, pages: int)

  /** One page of `result`. */
  function Paginar<T>(result: seq<T>, page: int, limit: int): (r: Paginado<T>)
    requires limit != 0
    ensures r.total == |result| && r.page == page && r.limit == limit
    ensures r.pages == CeilDiv(|result|, limit)
    ensures limit > 0 ==> |r.data| <= limit
  {
    var inicio := (page - 1) * limit;
    Paginado(Slice(result, inicio, inicio + limit), page, limit, |result|, CeilDiv(|result|, limit))
  }

  /** Every row on a page is a row of the result. */
  lemma PaginaMiembros<T>(result: seq<T>, page: int, limit: int, x: T)
    requires limit != 0
    requires x in Paginar(result, page, limit).data
    ensures x in result
  {
    var inicio := (page - 1) * limit;
    var k := SliceContiguous(result, inicio, inicio + limit);
    var data := Paginar(result, page, limit).data;
    var i :| 0 <= i < |data| && data[i] == x;
    assert result[k + i] == x;
  }

  /** `data` is the run of `result` from position `a` up to, not including, `b`. */
  ghost predicate Tramo<T>(data: seq<T>, result: seq<T>, a: int, b: int)
  {
    0 <= a <= b <= |result| && data == result[a..b]
  }

  function Min(a: int, b: int): int
  {
    if a < b then a else b
  }

  /** Page `page` of size `limit` holds exactly the rows from position `(page - 1) * limit` on, at most `limit` of them. */
  lemma PaginaContenido<T>(result: seq<T>, page: int, limit: int)
    requires page >= 1 && limit >= 1
    ensures var inicio := Min((page - 1) * limit, |result|);
      Paginar(result, page, limit).data == result[inicio..Min(page * limit, |result|)]
  {
    var inicio := (page - 1) * limit;
    MulMonotone(0, page - 1, limit);
    MulSucc(page - 1, limit);
    SliceWindow(result, inicio, page * limit);
  }

  /** A page is empty exactly when it lies past the last one: page `p >= 1` has rows iff `p <= pages`. */
  lemma PaginaVacia<T>(result: seq<T>, page: int, limit: int)
    requires page >= 1 && limit >= 1
    ensures var r := Paginar(result, page, limit);
      r.data == [] <==> page > r.pages
  {
    var r := Paginar(result, page, limit);
    PaginaContenido(result, page, limit);
    var c := r.pages;
    CeilDivBounds(|result|, limit);
    if page <= c {
      assert (page - 1) * limit <= (c - 1) * limit by {
        MulMonotone(page - 1, c - 1, limit);
      }
    } else {
      assert c * limit <= (page - 1) * limit by {
        MulMonotone(c, page - 1, limit);
      }
    }
  }

  /** Both facts about one page together, stated as a run of the result. */
  lemma PaginaTramo<T>(result: seq<T>, page: int, limit: int)
    requires page >= 1 && limit >= 1
    ensures var r := Paginar(result, page, limit);
      && Tramo(r.data, result, Min((page - 1) * limit, |result|), Min(page * limit, |result|))
      && (r.data == [] <==> page > r.pages)
  {
    MulSucc(page - 1, limit);
    MulMonotone(0, page - 1, limit);
    PaginaContenido(result, page, limit);
    PaginaVacia(result, page, limit);
  }
  /** `r` holds the rows of `result` from `(r.page - 1) * r.limit` on, at most `r.limit` of them. */
  ghost predicate EsPagina<T>(r: Paginado<T>, result: seq<T>)
  {
    Tramo(r.data, result, Min((r.page - 1) * r.limit, |result|), Min(r.page * r.limit, |result|))
  }

  /** `PaginaTramo` stated on the page itself. */
  lemma PaginadoTramo<T>(r: Paginado<T>, result: seq<T>)
    requires r.page >= 1 && r.limit >= 1 && r == Paginar(result, r.page, r.limit)
    ensures EsPagina(r, result)
  {
    PaginaTramo(result, r.page, r.limit);
  }



  lemma SliceWindow<T>(xs: seq<T>, a: int, b: int)
    requires 0 <= a <= b
    ensures Slice(xs, a, b) == xs[Min(a, |xs|)..Min(b, |xs|)]
  {
  }

  lemma MulSucc(a: int, l: int)
    ensures (a + 1) * l == a * l + l
  {
  }

  lemma MulMonotone(a: int, b: int, l: int)
    requires a <= b && l >= 0
    ensures a * l <= b * l
  {
  }

  /** Pages `1..k` of size `limit`, one after the other. */
  function Paginas<T>(result: seq<T>, k: nat, limit: int): seq<T>
    requires limit >= 1
  {
    if k == 0 then [] else Paginas(result, k - 1, limit) + Paginar(result, k, limit).data
  }

  /** The first `k` pages are the first `k * limit` rows. */
  lemma {:induction false} PaginasPrefijo<T>(result: seq<T>, k: nat, limit: int)
    requires limit >= 1
    ensures Paginas(result, k, limit) == result[..Min(k * limit, |result|)]
  {
    if k > 0 {
      PaginasPrefijo(result, k - 1, limit);
      PaginaContenido(result, k, limit);
      MulMonotone(k - 1, k, limit);
      MulMonotone(0, k - 1, limit);
      var a := Min((k - 1) * limit, |result|);
      var b := Min(k * limit, |result|);
      PrefijoPartido(result, a, b);
    }
  }

  lemma PrefijoPartido<T>(s: seq<T>, a: nat, b: nat)
    requires a <= b <= |s|
    ensures s[..a] + s[a..b] == s[..b]
  {
  }

  /**
   * The pages `1..pages` are disjoint runs that concatenate to the whole
   * result: every row is on exactly one page, in order.
   */
  lemma PaginasCubren<T>(result: seq<T>, limit: int)
    requires limit >= 1
    ensures var pages := Paginar(result, 1, limit).pages;
      pages >= 0 && Paginas(result, pages, limit) == result
  {
    var pages := Paginar(result, 1, limit).pages;
    PaginasPrefijo(result, pages, limit);
    CeilDivBounds(|result|, limit);
  }

  // ---------------------------------------------------------------- page && limit

  /** The `data` of a listing: one page, or the whole result. */
  datatype Listado<T> = Pagina(pagina: Paginado<T>) | Todo(filas: seq<T>)

  /** A query value that is present and not the empty string. */
  predicate Dado(v: Option<string>)
  {
    v.Some? && v.value != ""
  }

  /**
   * `page && limit`: page `parseInt(page) || 1` of size `parseInt(limit) || 10`
   * when both are given, otherwise the whole result.
   */
  function Listar<T>(result: seq<T>, page: Option<string>, limit: Option<string>): (r: Listado<T>)
    ensures r.Todo? <==> !Dado(page) || !Dado(limit)
    ensures r.Todo? ==> r.filas == result
    ensures r.Pagina? ==> r.pagina.total == |result| && r.pagina.limit != 0 && r.pagina.pages == CeilDiv(|result|, r.pagina.limit)
  {
    if Dado(page) && Dado(limit) then Pagina(Paginar(result, IntOr(page.value, 1), IntOr(limit.value, 10)))
    else Todo(result)
  }

  /**
   * A page number or size that does not parse, or parses to 0, falls back
   * to page 1 and size 10; one that parses to another integer is used as it
   * is.
   */
  lemma ListarDefectos<T>(result: seq<T>, page: string, limit: string)
    requires page != "" && limit != ""
    ensures var r := Listar(result, Some(page), Some(limit));
      && r.Pagina?
      && (ParseInt(page).None? || ParseInt(page) == Some(0) ==> r.pagina.page == 1)
      && (ParseInt(limit).None? || ParseInt(limit) == Some(0) ==> r.pagina.limit == 10)
      && (ParseInt(page).Some? && ParseInt(page).value != 0 ==> r.pagina.page == ParseInt(page).value)
      && (ParseInt(limit).Some? && ParseInt(limit).value != 0 ==> r.pagina.limit == ParseInt(limit).value)
  {
  }

  /** A page with a positive number and size is the run of rows it names. */
  lemma ListarPagina<T>(result: seq<T>, page: Option<string>, limit: Option<string>)
    requires Listar(result, page, limit).Pagina?
    requires Listar(result, page, limit).pagina.page >= 1 && Listar(result, page, limit).pagina.limit >= 1
    ensures EsPagina(Listar(result, page, limit).pagina, result)
  {
    var r := Listar(result, page, limit).pagina;
    PaginadoTramo(r, result);
  }

  /** The rows a listing shows. */
  function Filas<T>(l: Listado<T>): seq<T>
  {
    if l.Todo? then l.filas else l.pagina.data
  }

  /** Every row a listing shows is a row of the result. */
  lemma ListarMiembros<T>(result: seq<T>, page: Option<string>, limit: Option<string>, x: T)
    requires x in Filas(Listar(result, page, limit))
    ensures x in result
  {
    var l := Listar(result, page, limit);
    if l.Pagina? {
      PaginaMiembros(result, l.pagina.page, l.pagina.limit, x);
    }
  }
}
