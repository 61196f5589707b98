/**
 * The JavaScript values that reach the models as filters and that the
 * models bind as SQL parameters: strings from the query string, numbers the
 * controllers have already parsed, booleans, and `null`/`undefined`.
 */
module Valores {
  import opened Wrappers
  import opened Text

  datatype Valor = Cadena(s: string) | Numero(n: int) | Booleano(b: bool) | Nulo

  /** JavaScript truthiness: the empty string, 0, `false` and `null` are falsy. */
  predicate Truthy(v: Valor)
  {
    match v
    case Cadena(s) => s != ""
    case Numero(n) => n != 0
    case Booleano(b) => b
    case Nulo => false
  }

  /** `parseInt(v)`: a number is itself, a string is read by `parseInt`, anything else is NaN (`None`). */
  function ParseValor(v: Valor): (r: Option<int>)
    ensures v.Numero? ==> r == Some(v.n)
    ensures v.Booleano? || v.Nulo? ==> r.None?
  {
    match v
    case Cadena(s) => ParseInt(s)
    case Numero(n) => Some(n)
    case _ => None
  }

  /** The value of an optional field: an absent key reads as `undefined`. */
  function Campo(v: Option<Valor>): Valor
  {
    match v
    case None => Nulo
    case Some(x) => x
  }

  /** `x && !isNaN(parseInt(x))`: the integer a filter gives, when it is given and parses. */
  function EnteroDe(v: Option<Valor>): (r: Option<int>)
    ensures r.Some? <==> Truthy(Campo(v)) && ParseValor(Campo(v)).Some?
    ensures r.Some? ==> ParseValor(Campo(v)) == r
  {
    var x := Campo(v);
    if Truthy(x) then ParseValor(x) else None
  }

  /** `x && typeof x === 'string'`: the text a filter gives, when it is a non-empty string. */
  function TextoDe(v: Option<Valor>): (r: Option<string>)
    ensures r.Some? <==> Campo(v).Cadena? && Campo(v).s != ""
    ensures r.Some? ==> Campo(v) == Cadena(r.value)
  {
    match Campo(v)
    case Cadena(s) => if s != "" then Some(s) else None
    case _ => None
  }

  /** A query string: parameter names and their text. */
  type Query = map<string, string>

  /** `req.query[k]` as a string, when given. */
  function Lee(q: Query, k: string): Option<string>
  {
    if k in q then Some(q[k]) else None
  }

  /** `req.query[k]` as a JavaScript value. */
  function Param(q: Query, k: string): Option<Valor>
  {
    if k in q then Some(Cadena(q[k])) else None
  }

  /** A number forwarded by a controller is read back as itself unless it is 0, which a truthiness test drops. */
  lemma EnteroDeNumero(n: int)
    ensures EnteroDe(Some(Numero(n))) == if n == 0 then None else Some(n)
  {
  }

  /** A query-string integer is read back unchanged when it is written as `String(n)` and is not 0. */
  lemma EnteroDeCadena(n: int)
    requires n != 0
    ensures EnteroDe(Some(Cadena(IntToString(n)))) == Some(n)
  {
    ParseIntRoundTrip(n);
    assert IntToString(n) != "" by {
      NatToStringDigits(if n < 0 then -n else n);
    }
  }
}
