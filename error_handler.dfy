/**
 * The central error middleware of `backend/src/middleware/errorHandler.js`:
 * the `APIError` class, the `notFound` handler, and `errorHandler`, which
 * replaces the incoming error by an `APIError` chosen from its Postgres
 * code, its Joi flag, its JWT name or its Multer code, and answers with the
 * chosen status.
 */
module ErrorHandler {
  import opened Wrappers
  import opened Text

  const MsgDuplicado := "Recurso duplicado. Ya existe un registro con estos datos."
  const MsgReferencia := "Referencia inválida. El registro referenciado no existe."
  const MsgRestriccion := "Datos inválidos. Los valores no cumplen las restricciones."
  const MsgInterno := "Error interno del servidor."
  const MsgTokenInvalido := "Token inválido."
  const MsgTokenExpirado := "Token expirado."
  const MsgMulter := "Error en la subida de archivo."
  const MsgPorDefecto := "Error interno del servidor"
  const MsgRutaNoEncontrada := "Ruta no encontrada: "
  const Desarrollo := "development"

  /** An `APIError`: its message, `statusCode` and `isOperational` (its `name` is always 'APIError'). */
  datatype ApiError = ApiError(message: string, statusCode: int, isOperational: bool)

  /** `new APIError(message, statusCode, isOperational)`, where an omitted argument is `None`. */
  function NewApiError(message: string, statusCode: Option<int>, isOperational: Option<bool>): ApiError
  {
    ApiError(message, statusCode.GetOr(500), isOperational.GetOr(true))
  }

  /** Omitted arguments make a 500 operational error. */
  lemma ApiErrorDefectos(message: string)
    ensures NewApiError(message, None, None) == ApiError(message, 500, true)
    ensures forall s: int :: NewApiError(message, Some(s), None).statusCode == s
  {
  }

  /**
   * The error `errorHandler` receives, as far as it looks at it: the message,
   * an own `statusCode` (which the spread `{ ...err }` copies), `code`,
   * `name`, the Joi flag and the messages of its details, and the stack.
   */
  datatype Error = Error(message: string, statusCode: Option<int>, code: Option<string>, name: string,
                         isJoi: bool, details: seq<string>, stack: string)

  /** An `APIError` as an error value: its `statusCode` and its `name` are own properties. */
  function DeApiError(e: ApiError, stack: string): Error
  {
    Error(e.message, Some(e.statusCode), None, "APIError", false, [], stack)
  }

  /**
   * The chain of overriding `if`s: each match replaces the error chosen so
   * far, so the last match wins; `None` when nothing matches.
   */
  function Sobrescribir(err: Error): Option<ApiError>
  {
    var e0: Option<ApiError> := None;
    var e1 := if err.code == Some("23505") then Some(ApiError(MsgDuplicado, 409, true)) else e0;
    var e2 := if err.code == Some("23503") then Some(ApiError(MsgReferencia, 400, true)) else e1;
    var e3 := if err.code == Some("23514") then Some(ApiError(MsgRestriccion, 400, true)) else e2;
    var e4 := if err.code == Some("42601") || err.code == Some("42P01") then Some(ApiError(MsgInterno, 500, true)) else e3;
    var e5 := if err.isJoi then Some(ApiError(Join(err.details, ", "), 400, true)) else e4;
    var e6 := if err.name == "JsonWebTokenError" then Some(ApiError(MsgTokenInvalido, 401, true)) else e5;
    var e7 := if err.name == "TokenExpiredError" then Some(ApiError(MsgTokenExpirado, 401, true)) else e6;
    if err.code == Some("MULTER_ERROR") then Some(ApiError(MsgMulter, 400, true)) else e7
  }

  // The rules of the chain, numbered in source order, as an independent reading of it.

  const NumReglas := 8

  /** Whether rule `i` matches the error. */
  predicate Aplica(i: nat, err: Error)
  {
    if i == 0 then err.code == Some("23505")
    else if i == 1 then err.code == Some("23503")
    else if i == 2 then err.code == Some("23514")
    else if i == 3 then err.code == Some("42601") || err.code == Some("42P01")
    else if i == 4 then err.isJoi
    else if i == 5 then err.name == "JsonWebTokenError"
    else if i == 6 then err.name == "TokenExpiredError"
    else if i == 7 then err.code == Some("MULTER_ERROR")
    else false
  }

  /** The `APIError` rule `i` builds. */
  function Efecto(i: nat, err: Error): ApiError
  {
    if i == 0 then ApiError(MsgDuplicado, 409, true)
    else if i == 1 then ApiError(MsgReferencia, 400, true)
    else if i == 2 then ApiError(MsgRestriccion, 400, true)
    else if i == 3 then ApiError(MsgInterno, 500, true)
    else if i == 4 then ApiError(Join(err.details, ", "), 400, true)
    else if i == 5 then ApiError(MsgTokenInvalido, 401, true)
    else if i == 6 then ApiError(MsgTokenExpirado, 401, true)
    else ApiError(MsgMulter, 400, true)
  }

  /** The error is replaced exactly when some rule matches, and then by the last rule that matches. */
  lemma UltimaReglaGana(err: Error)
    ensures Sobrescribir(err).None? <==> forall i :: 0 <= i < NumReglas ==> !Aplica(i, err)
    ensures forall i :: 0 <= i < NumReglas && Aplica(i, err) && (forall j :: i < j < NumReglas ==> !Aplica(j, err)) ==>
              Sobrescribir(err) == Some(Efecto(i, err))
  {
    assert Aplica(0, err) <==> err.code == Some("23505");
    assert Aplica(1, err) <==> err.code == Some("23503");
    assert Aplica(2, err) <==> err.code == Some("23514");
    assert Aplica(3, err) <==> err.code == Some("42601") || err.code == Some("42P01");
    assert Aplica(4, err) <==> err.isJoi;
    assert Aplica(5, err) <==> err.name == "JsonWebTokenError";
    assert Aplica(6, err) <==> err.name == "TokenExpiredError";
    assert Aplica(7, err) <==> err.code == Some("MULTER_ERROR");
  }

  /** The body `errorHandler` sends; `stack` and `error` are spread in only in development. */
  datatype Cuerpo = Cuerpo(success: bool, message: string, stack: Option<string>, error: Option<Error>)

  datatype Respuesta = Respuesta(status: int, body: Cuerpo)

  /** `errorHandler(err)` with `NODE_ENV` as a parameter. */
  function Handle(err: Error, nodeEnv: Option<string>): Respuesta
  {
    var e := Sobrescribir(err);
    var status := if e.Some? then e.value.statusCode
                  else if err.statusCode.Some? && err.statusCode.value != 0 then err.statusCode.value
                  else 500;
    var message := if e.Some? then e.value.message else err.message;
    var dev := nodeEnv == Some(Desarrollo);
    Respuesta(status, Cuerpo(false, if message != "" then message else MsgPorDefecto,
                             if dev then Some(err.stack) else None, if dev then Some(err) else None))
  }

  /**
   * A Postgres error code alone picks the status: a unique violation is a
   * conflict, a foreign-key or check violation a bad request, and an SQL
   * syntax or missing-table error a server error.
   */
  lemma CodigosPostgres(err: Error, env: Option<string>)
    requires !err.isJoi && err.name != "JsonWebTokenError" && err.name != "TokenExpiredError"
    ensures err.code == Some("23505") ==> Handle(err, env).status == 409 && Handle(err, env).body.message == MsgDuplicado
    ensures err.code == Some("23503") ==> Handle(err, env).status == 400 && Handle(err, env).body.message == MsgReferencia
    ensures err.code == Some("23514") ==> Handle(err, env).status == 400 && Handle(err, env).body.message == MsgRestriccion
    ensures err.code in {Some("42601"), Some("42P01")} ==> Handle(err, env).status == 500
  {
  }

  /** Later checks override earlier ones: Joi over Postgres, a JWT name over Joi, a Multer code over a JWT name. */
  lemma Precedencia(err: Error, env: Option<string>)
    ensures (err.isJoi && err.name != "JsonWebTokenError" && err.name != "TokenExpiredError"
             && err.code != Some("MULTER_ERROR")) ==> Handle(err, env).status == 400
    ensures err.name in {"JsonWebTokenError", "TokenExpiredError"} && err.code != Some("MULTER_ERROR") ==>
              Handle(err, env).status == 401
    ensures err.code == Some("MULTER_ERROR") ==> Handle(err, env).status == 400 && Handle(err, env).body.message == MsgMulter
  {
  }

  /**
   * An error no rule matches keeps its own status when it has a non-zero
   * one, else gets 500, and keeps its message unless that is empty.
   */
  lemma SinRegla(err: Error, env: Option<string>)
    requires forall i :: 0 <= i < NumReglas ==> !Aplica(i, err)
    ensures var r := Handle(err, env);
      && r.status == (if err.statusCode.Some? && err.statusCode.value != 0 then err.statusCode.value else 500)
      && r.body.message == (if err.message != "" then err.message else MsgPorDefecto)
      && !r.body.success
  {
    UltimaReglaGana(err);
  }

  /** The stack and the error itself appear in the body exactly in development. */
  lemma SoloEnDesarrollo(err: Error, env: Option<string>)
    ensures var b := Handle(err, env).body;
      && (b.stack.Some? <==> env == Some(Desarrollo)) && (b.error.Some? <==> env == Some(Desarrollo))
      && (b.stack.Some? ==> b.stack.value == err.stack && b.error.value == err)
  {
  }

  /** An `APIError` thrown by the application reaches the client with its own non-zero status and message. */
  lemma ApiErrorPasa(e: ApiError, stack: string, env: Option<string>)
    requires e.statusCode != 0
    ensures var r := Handle(DeApiError(e, stack), env);
      r.status == e.statusCode && r.body.message == (if e.message != "" then e.message else MsgPorDefecto)
  {
  }

  /** `notFound`: a 404 `APIError` naming the requested URL. */
  function NotFound(originalUrl: string): ApiError
  {
    NewApiError(MsgRutaNoEncontrada + originalUrl, Some(404), None)
  }

  /** An unknown route is answered with 404, and the message contains the URL that was asked for. */
  lemma NotFoundRespuesta(originalUrl: string, stack: string, env: Option<string>)
    ensures var r := Handle(DeApiError(NotFound(originalUrl), stack), env);
      r.status == 404 && Contains(r.body.message, originalUrl) && NotFound(originalUrl).isOperational
  {
    var m := MsgRutaNoEncontrada + originalUrl;
    assert m[|MsgRutaNoEncontrada|..] == originalUrl;
    assert StartsWith(m[|MsgRutaNoEncontrada|..], originalUrl);
  }
}
