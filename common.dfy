/**
 * The request middleware of `backend/src/middleware/common.js` that decides
 * something: the CORS origin callback of `corsOptions`, the content-type
 * gate, the trimming of query and body strings, and the `retryAfter` of the
 * 429 handler that `createRateLimit` installs.
 */
module Common {
  import opened Wrappers
  import opened Text
  import opened Valores
  import Pagination

  // ---------------------------------------------------------------- corsOptions.origin

  const OrigenesPorDefecto := ["http://localhost:3000", "http://localhost:5173"]

  /** `process.env.CORS_ORIGIN ? process.env.CORS_ORIGIN.split(',') : [...]`: the pieces are not trimmed. */
  function Permitidos(env: Option<string>): seq<string>
  {
    if env.Some? && env.value != "" then Split(env.value, ',') else OrigenesPorDefecto
  }

  /** Whether the callback answers `true` for the request's `Origin`. */
  function CorsOrigen(origin: Option<string>, env: Option<string>): bool
  {
    origin.None? || origin.value == "" || origin.value in Permitidos(env)
  }

  /**
   * A request without an origin is allowed; any other origin exactly when
   * it is one of the comma-separated entries of the variable (or, unset,
   * of the two defaults). An origin holding a comma is never listed.
   */
  lemma CorsOrigenSi(origin: Option<string>, env: Option<string>)
    ensures CorsOrigen(origin, env) <==>
      || origin.None? || origin.value == ""
      || (env.Some? && env.value != "" && origin.value in Split(env.value, ','))
      || ((env.None? || env.value == "") && origin.value in OrigenesPorDefecto)
    ensures origin.Some? && ',' in origin.value && env.Some? && env.value != "" ==> !CorsOrigen(origin, env)
  {
  }

  /**
   * The entries are compared untrimmed: in 'a, b' the second entry is ' b',
   * so the origin 'b' is refused unless it is also the first entry.
   */
  lemma CorsSinRecorte(a: string, b: string)
    requires ',' !in a && ',' !in b && a != b && b != ""
    ensures !CorsOrigen(Some(b), Some(a + ", " + b))
  {
    assert a + ", " + b == a + [','] + (" " + b);
    SplitConcat(a, ',', " " + b);
    SplitSinSeparador(" " + b, ',');
    assert Permitidos(Some(a + ", " + b)) == [a, " " + b];
  }

  // ---------------------------------------------------------------- validateContentType

  const MsgContentType := "Content-Type debe ser application/json"
  const Json := "application/json"

  /** What a middleware does: go on, or answer with a status and a message. */
  datatype Filtro = Sigue | Responde(status: int, message: string)

  /** `['POST', 'PUT', 'PATCH'].includes(req.method)`. */
  predicate ConCuerpo(metodo: string)
  {
    metodo in ["POST", "PUT", "PATCH"]
  }

  function ValidateContentType(metodo: string, contentType: Option<string>): Filtro
  {
    if ConCuerpo(metodo) && (contentType.None? || contentType.value == "" || !Includes(contentType.value, Json))
    then Responde(400, MsgContentType)
    else Sigue
  }

  /**
   * Only POST, PUT and PATCH are checked, and they are refused with 400
   * exactly when the header is missing or does not contain
   * 'application/json' (a charset or other parameters may follow it).
   */
  lemma ValidateContentTypeSi(metodo: string, contentType: Option<string>)
    ensures ValidateContentType(metodo, contentType).Responde? <==>
      ConCuerpo(metodo) && (contentType.None? || !Contains(contentType.value, Json))
    ensures ValidateContentType(metodo, contentType).Responde? ==>
      ValidateContentType(metodo, contentType) == Responde(400, MsgContentType)
    ensures !ConCuerpo(metodo) ==> ValidateContentType(metodo, contentType) == Sigue
  {
    if contentType.Some? && contentType.value == "" {
      assert !StartsWith(""[0..], Json);
    }
  }

  /** A header of 'application/json' with parameters after it passes. */
  lemma ContentTypeConParametros(metodo: string, resto: string)
    ensures ValidateContentType(metodo, Some(Json + resto)) == Sigue
  {
    assert (Json + resto)[0..][..|Json|] == Json;
    assert StartsWith((Json + resto)[0..], Json);
  }

  // ---------------------------------------------------------------- sanitizeInput

  /** What the loop does to one value: a string is trimmed, anything else is left as it is. */
  function TrimValor(v: Valor): Valor
  {
    if v.Cadena? then Cadena(Trim(v.s)) else v
  }

  /** An object after the loop has visited every key. */
  function Saneado(m: map<string, Valor>): map<string, Valor>
  {
    map k | k in m :: TrimValor(m[k])
  }

  /**
   * Sanitising keeps the key set, leaves every non-string value alone,
   * trims every string, and a second pass changes nothing.
   */
  lemma SaneadoPropiedades(m: map<string, Valor>)
    ensures Saneado(m).Keys == m.Keys
    ensures forall k :: k in m && !m[k].Cadena? ==> Saneado(m)[k] == m[k]
    ensures forall k :: k in m && m[k].Cadena? ==> Saneado(m)[k] == Cadena(Trim(m[k].s)) && Trimmed(Saneado(m)[k].s)
    ensures Saneado(Saneado(m)) == Saneado(m)
  {
    forall k | k in m && m[k].Cadena? ensures Trimmed(Trim(m[k].s)) {
      TrimSpec(m[k].s);
    }
    forall k | k in m ensures Saneado(Saneado(m))[k] == Saneado(m)[k] {
      if m[k].Cadena? {
        TrimIdempotent(m[k].s);
      }
    }
  }

  /** The `for (const key in obj)` loop, on a copy: each key is visited once, in some order. */
  method SanitizarObjeto(m: map<string, Valor>) returns (r: map<string, Valor>)
    ensures r == Saneado(m)
  {
    r := m;
    var pendientes := m.Keys;
    while pendientes != {}
      invariant pendientes <= m.Keys && r.Keys == m.Keys
      invariant forall k :: k in m && k !in pendientes ==> r[k] == TrimValor(m[k])
      invariant forall k :: k in pendientes ==> r[k] == m[k]
      decreases pendientes
    {
      var key :| key in pendientes;
      if r[key].Cadena? {
        r := r[key := Cadena(Trim(r[key].s))];
      }
      pendientes := pendientes - {key};
    }
  }

  /** The parts of a request `sanitizeInput` touches; a body that is absent or not an object is `None`. */
  class Peticion {
    var query: map<string, Valor>
    var body: Option<map<string, Valor>>

    constructor(query: map<string, Valor>, body: Option<map<string, Valor>>)
      ensures this.query == query && this.body == body
    {
      this.query := query;
      this.body := body;
    }

    /** `sanitizeInput`: the query's strings, then the body's, are trimmed in place. */
    method SanitizeInput()
      modifies this
      ensures query == Saneado(old(query))
      ensures body == if old(body).Some? then Some(Saneado(old(body).value)) else None
    {
      query := SanitizarObjeto(query);
      if body.Some? {
        var b := SanitizarObjeto(body.value);
        body := Some(b);
      }
    }
  }

  // ---------------------------------------------------------------- createRateLimit

  /** `Math.ceil(windowMs / 1000)` for a whole number of milliseconds. */
  function RetryAfter(windowMs: int): (r: int)
    ensures (r - 1) * 1000 < windowMs <= r * 1000
  {
    if windowMs % 1000 == 0 then windowMs / 1000 else windowMs / 1000 + 1
  }

  /** The general limiter's window: `parseInt(RATE_LIMIT_WINDOW_MS) || 15 minutes`. */
  function VentanaGeneral(env: Option<string>): int
  {
    if env.None? then 15 * 60 * 1000 else Pagination.IntOr(env.value, 15 * 60 * 1000)
  }

  /** The three limiters tell a client to wait 900, 900 and 60 seconds, the general one unless configured. */
  lemma RetryAfterLimitadores(env: Option<string>)
    ensures env.None? ==> RetryAfter(VentanaGeneral(env)) == 900
    ensures RetryAfter(15 * 60 * 1000) == 900 && RetryAfter(60 * 1000) == 60
    ensures RetryAfter(VentanaGeneral(env)) * 1000 >= VentanaGeneral(env)
  {
  }
}
