/**
 * The authentication middleware of `backend/src/middleware/auth.js`: the
 * extraction of the token from the `Authorization` header, `authenticate`
 * and `optionalAuthenticate` around a token verifier given as a parameter,
 * `authorize`, `validateApiKey`, and the per-user fixed-window rate limiter
 * `userRateLimit`, whose request map is the state of a class.
 */
module Auth {
  import opened Wrappers
  import opened Text
  import opened Valores
  import opened ErrorHandler

  const MsgTokenRequerido := "Token de acceso requerido"
  const MsgTokenInvalido := "Token inválido"
  const MsgTokenExpirado := "Token expirado"
  const MsgAutenticacionRequerida := "Acceso denegado. Autenticación requerida."
  const MsgPermisos := "Acceso denegado. Permisos insuficientes."
  const MsgDemasiadas := "Demasiadas solicitudes. Intente más tarde."
  const MsgApiKeyRequerida := "API Key requerida"
  const MsgApiKeyInvalida := "API Key inválida"
  const Bearer := "Bearer "

  /** What a middleware hands to `next`: nothing (go on) or an `APIError`. */
  datatype Paso = Sigue | Corta(error: ApiError)

  /** The decoded token payload, as far as the middleware reads it. */
  datatype Usuario = Usuario(id: Valor, email: Valor, role: Option<string>)

  // ---------------------------------------------------------------- authenticate

  /** The token of an `Authorization` header: the text after an exact 'Bearer ' prefix, else the whole header. */
  function ExtraerToken(header: Option<string>): Result<string, ApiError>
  {
    if header.None? || header.value == "" then Failure(ApiError(MsgTokenRequerido, 401, true))
    else
      var token := if StartsWith(header.value, Bearer) then header.value[|Bearer|..] else header.value;
      if token == "" then Failure(ApiError(MsgTokenRequerido, 401, true)) else Success(token)
  }

  /**
   * A token is found exactly when the header is present and is neither
   * empty nor the bare prefix; the prefix is stripped only when present,
   * and a failure is always 401 'Token de acceso requerido'.
   */
  lemma ExtraerTokenSi(header: Option<string>)
    ensures var r := ExtraerToken(header);
      && (r.Success? <==> header.Some? && header.value != "" && header.value != Bearer)
      && (r.Failure? ==> r.error == ApiError(MsgTokenRequerido, 401, true))
      && (r.Success? && StartsWith(header.value, Bearer) ==> header.value == Bearer + r.value)
      && (r.Success? && !StartsWith(header.value, Bearer) ==> header.value == r.value)
  {
    if header.Some? && StartsWith(header.value, Bearer) {
      assert header.value == Bearer + header.value[|Bearer|..];
    }
  }

  /** A header built as 'Bearer ' followed by a token gives that token back. */
  lemma ExtraerTokenBearer(token: string)
    requires token != ""
    ensures ExtraerToken(Some(Bearer + token)) == Success(token)
  {
    assert (Bearer + token)[..|Bearer|] == Bearer;
    assert (Bearer + token)[|Bearer|..] == token;
  }

  /** What `jwt.verify` does with a token: it decodes a payload or throws an error with a name. */
  datatype Verificacion = Decodificado(user: Usuario) | Lanza(name: string)

  /** The outcome of `authenticate`: a user, an `APIError`, or the verifier's own error passed on. */
  datatype Autenticacion = Autenticado(user: Usuario) | Rechazado(error: ApiError) | Propagado(name: string)

  function Authenticate(header: Option<string>, verify: string -> Verificacion): Autenticacion
  {
    match ExtraerToken(header)
    case Failure(e) => Rechazado(e)
    case Success(token) =>
      match verify(token)
      case Decodificado(u) => Autenticado(u)
      case Lanza(name) =>
        if name == "JsonWebTokenError" then Rechazado(ApiError(MsgTokenInvalido, 401, true))
        else if name == "TokenExpiredError" then Rechazado(ApiError(MsgTokenExpirado, 401, true))
        else Propagado(name)
  }

  /** Every rejection `authenticate` makes itself is a 401; a user is attached only when the verifier decoded one. */
  lemma AuthenticateEstados(header: Option<string>, verify: string -> Verificacion)
    ensures var r := Authenticate(header, verify);
      && (r.Rechazado? ==> r.error.statusCode == 401)
      && (r.Autenticado? <==> ExtraerToken(header).Success? && verify(ExtraerToken(header).value).Decodificado?)
      && (r.Autenticado? ==> r.user == verify(ExtraerToken(header).value).user)
      && (r.Propagado? ==> r.name !in {"JsonWebTokenError", "TokenExpiredError"})
  {
  }

  /** `optionalAuthenticate`: the user when there is one, `null` for a missing header, an empty token or any verifier error. */
  function OptionalAuthenticate(header: Option<string>, verify: string -> Verificacion): Option<Usuario>
  {
    if header.None? || header.value == "" then None
    else
      var token := if StartsWith(header.value, Bearer) then header.value[|Bearer|..] else header.value;
      if token == "" then None
      else match verify(token)
        case Decodificado(u) => Some(u)
        case Lanza(_) => None
  }

  /** The optional variant attaches a user exactly when `authenticate` would have, and the same user. */
  lemma OptionalComoAuthenticate(header: Option<string>, verify: string -> Verificacion)
    ensures forall u :: OptionalAuthenticate(header, verify) == Some(u) <==> Authenticate(header, verify) == Autenticado(u)
    ensures OptionalAuthenticate(header, verify).None? <==> !Authenticate(header, verify).Autenticado?
  {
  }

  // ---------------------------------------------------------------- authorize

  /** `authorize(...roles)` applied to `req.user`. */
  function Authorize(roles: seq<string>, user: Option<Usuario>): Paso
  {
    if user.None? then Corta(ApiError(MsgAutenticacionRequerida, 401, true))
    else if user.value.role.None? || user.value.role.value !in roles then Corta(ApiError(MsgPermisos, 403, true))
    else Sigue
  }

  /** 401 without a user, 403 when the user's role is not listed, and through otherwise. */
  lemma AuthorizeSi(roles: seq<string>, user: Option<Usuario>)
    ensures Authorize(roles, user) == Sigue <==> user.Some? && user.value.role.Some? && user.value.role.value in roles
    ensures user.None? ==> Authorize(roles, user).Corta? && Authorize(roles, user).error.statusCode == 401
    ensures user.Some? && Authorize(roles, user).Corta? ==> Authorize(roles, user).error.statusCode == 403
  {
  }

  /** With no role listed nobody is let through. */
  lemma AuthorizeSinRoles(user: Option<Usuario>)
    ensures Authorize([], user).Corta?
  {
  }

  // ---------------------------------------------------------------- validateApiKey

  /** What `validateApiKey` attaches to the request. */
  datatype ApiKey = ApiKey(key: string, kind: string)

  const TipoApiKey := "api_key"

  /** `process.env.VALID_API_KEYS?.split(',') || []`. */
  function ClavesValidas(env: Option<string>): seq<string>
  {
    if env.None? then [] else Split(env.value, ',')
  }

  /** `validateApiKey` with the header and `VALID_API_KEYS` as parameters. */
  function ValidateApiKey(apiKey: Option<string>, env: Option<string>): Result<ApiKey, ApiError>
  {
    if apiKey.None? || apiKey.value == "" then Failure(ApiError(MsgApiKeyRequerida, 401, true))
    else if apiKey.value !in ClavesValidas(env) then Failure(ApiError(MsgApiKeyInvalida, 401, true))
    else Success(ApiKey(apiKey.value, TipoApiKey))
  }

  /**
   * A key is accepted exactly when it is given, non-empty, and one of the
   * comma-separated entries of the variable, and then attached as
   * `{ key, type: 'api_key' }`; every rejection is a 401. A key holding a
   * comma can never match, and with the variable unset nothing is accepted.
   */
  lemma ValidateApiKeySi(apiKey: Option<string>, env: Option<string>)
    ensures var r := ValidateApiKey(apiKey, env);
      && (r.Success? <==> apiKey.Some? && apiKey.value != "" && env.Some? && apiKey.value in Split(env.value, ','))
      && (r.Success? ==> r.value == ApiKey(apiKey.value, TipoApiKey))
      && (r.Failure? ==> r.error.statusCode == 401)
      && (apiKey.Some? && ',' in apiKey.value ==> r.Failure?)
  {
  }

  // ---------------------------------------------------------------- userRateLimit

  const WindowSize := 15 * 60 * 1000
  const MaxRequests := 1000

  /** `req.user.id || req.user.email`: the key of the user's entry. */
  function Clave(u: Usuario): Valor
  {
    if Valores.Truthy(u.id) then u.id else u.email
  }

  datatype Entrada = Entrada(count: int, resetTime: int)

  type Tabla = map<Valor, Entrada>

  /** Every entry has counted at least one and at most `MaxRequests` requests. */
  predicate EntradasValidas(m: Tabla)
  {
    forall k :: k in m ==> 1 <= m[k].count <= MaxRequests
  }

  /** The map after one request, and what the request is told. */
  datatype Limite = Limite(tabla: Tabla, paso: Paso)

  /** One request at time `now` through `userRateLimit`, on the map as a value. */
  function Limitar(m: Tabla, user: Option<Usuario>, now: int): Limite
  {
    if user.None? then Limite(m, Sigue)
    else
      var k := Clave(user.value);
      if k !in m || now > m[k].resetTime then Limite(m[k := Entrada(1, now + WindowSize)], Sigue)
      else if m[k].count >= MaxRequests then Limite(m, Corta(ApiError(MsgDemasiadas, 429, true)))
      else Limite(m[k := m[k].(count := m[k].count + 1)], Sigue)
  }

  /** The limiter keeps every entry between 1 and `MaxRequests`. */
  lemma LimitarPreserva(m: Tabla, user: Option<Usuario>, now: int)
    requires EntradasValidas(m)
    ensures EntradasValidas(Limitar(m, user, now).tabla)
  {
  }

  /**
   * A request without a user passes and changes nothing; a user's first
   * request creates `{count: 1, resetTime: now + WINDOW}`; a rejection is a
   * 429 that changes nothing; and no other user's entry ever changes.
   */
  lemma LimitarCasos(m: Tabla, user: Option<Usuario>, now: int)
    ensures var l := Limitar(m, user, now);
      && (user.None? ==> l == Limite(m, Sigue))
      && (user.Some? && Clave(user.value) !in m ==>
            l == Limite(m[Clave(user.value) := Entrada(1, now + WindowSize)], Sigue))
      && (l.paso.Corta? ==> l.tabla == m && l.paso.error.statusCode == 429 && l.paso.error.message == MsgDemasiadas)
      && (user.Some? ==> forall k :: k != Clave(user.value) ==>
                           (k in l.tabla <==> k in m) && (k in m ==> l.tabla[k] == m[k]))
  {
  }

  /**
   * For a user with an entry, the window starts over (count 1, a new
   * `resetTime`) exactly when `now` is strictly past the old `resetTime`;
   * otherwise the request is rejected exactly when `MaxRequests` have
   * already passed, and else counted.
   */
  lemma LimitarVentana(m: Tabla, u: Usuario, now: int)
    requires EntradasValidas(m) && Clave(u) in m
    ensures var k, l := Clave(u), Limitar(m, Some(u), now);
      && (l.tabla[k] == Entrada(1, now + WindowSize) && l.paso == Sigue <==> now > m[k].resetTime)
      && (now <= m[k].resetTime ==>
            && (l.paso.Corta? <==> m[k].count >= MaxRequests)
            && (l.paso == Sigue ==> l.tabla[k] == Entrada(m[k].count + 1, m[k].resetTime)))
  {
  }

  /** The outcome of a run of requests of one user: the final map and how many passed. */
  datatype Corrida = Corrida(tabla: Tabla, pasadas: nat)

  /** Requests of user `u` at the given times, one after another. */
  function Correr(m: Tabla, u: Usuario, tiempos: seq<int>): Corrida
    decreases |tiempos|
  {
    if tiempos == [] then Corrida(m, 0)
    else
      var l := Limitar(m, Some(u), tiempos[0]);
      var c := Correr(l.tabla, u, tiempos[1..]);
      Corrida(c.tabla, c.pasadas + if l.paso.Sigue? then 1 else 0)
  }

  function Min(a: int, b: int): int
  {
    if a <= b then a else b
  }

  /**
   * Inside the current window the user's requests pass until the entry
   * holds `MaxRequests` and are rejected from then on: exactly
   * `min(n, MaxRequests - count)` of `n` requests pass, and the count grows
   * by that much.
   */
  lemma {:induction false} VentanaAcotada(m: Tabla, u: Usuario, tiempos: seq<int>)
    requires Clave(u) in m && 1 <= m[Clave(u)].count <= MaxRequests
    requires forall i :: 0 <= i < |tiempos| ==> tiempos[i] <= m[Clave(u)].resetTime
    ensures var c, k := Correr(m, u, tiempos), Clave(u);
      && c.pasadas == Min(|tiempos|, MaxRequests - m[k].count)
      && k in c.tabla && c.tabla[k] == Entrada(m[k].count + c.pasadas, m[k].resetTime)
    decreases |tiempos|
  {
    if tiempos != [] {
      var k := Clave(u);
      var l := Limitar(m, Some(u), tiempos[0]);
      assert k in l.tabla && l.tabla[k].resetTime == m[k].resetTime;
      if m[k].count < MaxRequests {
        assert l.tabla[k] == Entrada(m[k].count + 1, m[k].resetTime);
      } else {
        assert l.tabla == m;
      }
      VentanaAcotada(l.tabla, u, tiempos[1..]);
    }
  }

  /**
   * A user's first request opens a window of `WindowSize` milliseconds in
   * which at most `MaxRequests` requests pass: of `n` requests at most
   * `WindowSize` after the first, exactly `min(n, MaxRequests)` pass.
   */
  lemma VentanaNueva(m: Tabla, u: Usuario, inicio: int, tiempos: seq<int>)
    requires Clave(u) !in m
    requires forall i :: 0 <= i < |tiempos| ==> tiempos[i] <= inicio + WindowSize
    ensures Correr(m, u, [inicio] + tiempos).pasadas == Min(1 + |tiempos|, MaxRequests)
  {
    var l := Limitar(m, Some(u), inicio);
    assert ([inicio] + tiempos)[1..] == tiempos;
    VentanaAcotada(l.tabla, u, tiempos);
  }

  /** The per-user limiter; `userRequests` is the map the middleware closes over. */
  class UserRateLimit {
    var userRequests: Tabla

    ghost predicate Valid()
      reads this
    {
      EntradasValidas(userRequests)
    }

    constructor()
      ensures userRequests == map[] && Valid()
    {
      userRequests := map[];
    }

    /** Handles one request at time `now` (`Date.now()`), updating the user's entry in place. */
    method Handle(user: Option<Usuario>, now: int) returns (paso: Paso)
      requires Valid()
      modifies this
      ensures Valid()
      ensures Limite(userRequests, paso) == Limitar(old(userRequests), user, now)
    {
      LimitarPreserva(userRequests, user, now);
      if user.None? {
        return Sigue;
      }
      var userId := Clave(user.value);
      if userId !in userRequests {
        userRequests := userRequests[userId := Entrada(1, now + WindowSize)];
        return Sigue;
      }
      var userLimit := userRequests[userId];
      if now > userLimit.resetTime {
        userRequests := userRequests[userId := Entrada(1, now + WindowSize)];
        return Sigue;
      }
      if userLimit.count >= MaxRequests {
        return Corta(ApiError(MsgDemasiadas, 429, true));
      }
      userRequests := userRequests[userId := userLimit.(count := userLimit.count + 1)];
      paso := Sigue;
    }
  }
}
