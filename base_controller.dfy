/**
 * The generic CRUD controller every entity controller extends: which model
 * operation each endpoint calls and which HTTP status and JSON body it
 * answers with.
 *
 * The model is abstract here. Each endpoint takes the outcomes of the model
 * calls it may make as parameters (a found row or none, a thrown error
 * message or a result) and returns the response together with the sequence
 * of model calls it made, so "answers 404 without writing" is a statement
 * about that sequence.
 */
module BaseController {
  import opened Wrappers
  import opened Text

  /** A value passed as `error`: an `Error` object with its message, or a bare string. */
  datatype Falla = ErrorObj(message: string) | Texto(text: string)

  /** JavaScript truthiness of an `error` argument: every object, and the non-empty strings. */
  predicate Truthy(f: Falla)
  {
    f.ErrorObj? || f.text != ""
  }

  /**
   * The status and JSON body of a response. `data` is `None` when the body
   * has no data or its data is `null`; `error` is `None` when the body has
   * no `error` field.
   */
  datatype Respuesta<T> = Respuesta(status: nat, success: bool, message: string, data: Option<T>, error: Option<Falla>)

  /** The entity-specific delete operations a model may have, and the generic one. */
  datatype Borrado = DeleteRed | DeleteIpress | DeleteGrupoOcupacional | DeletePlaza | DeletePostulante | DeleteGenerico

  /** A call the controller makes on its model. */
  datatype Llamada = FindById | ValidateForCreation | Create | ValidateForUpdate | Update | Delete(metodo: Borrado)
                   | SearchByNombre(q: string) | FindAll

  /** A response and the model calls made to produce it, in order. */
  datatype Salida<T> = Salida(respuesta: Respuesta<T>, llamadas: seq<Llamada>)

  predicate Escribe(c: Llamada)
  {
    c.Create? || c.Update? || c.Delete?
  }

  const MsgNoEncontrado := "Registro no encontrado"
  const MsgObtenido := "Registro obtenido exitosamente"
  const MsgCreado := "Registro creado exitosamente"
  const MsgErrorCrear := "Error al crear el registro"
  const MsgActualizado := "Registro actualizado exitosamente"
  const MsgErrorActualizar := "Error al actualizar el registro"
  const MsgEliminado := "Registro eliminado exitosamente"
  const MsgErrorEliminar := "Error al eliminar el registro"
  const MsgBusquedaRequerida := "Parámetro de búsqueda requerido"
  const MsgBusqueda := "Búsqueda realizada exitosamente"
  const MsgExito := "Operación exitosa"

  // ---------------------------------------------------------------- sendSuccess / sendError

  /** `sendSuccess(res, data, message = 'Operación exitosa', statusCode = 200)`. */
  function SendSuccess<T>(data: Option<T>, message: Option<string>, status: Option<nat>): (r: Respuesta<T>)
    ensures r.success && r.data == data && r.error.None?
    ensures r.status == (if status.Some? then status.value else 200)
    ensures message.None? ==> r.message == MsgExito
  {
    Respuesta(status.GetOr(200), true, message.GetOr(MsgExito), data, None)
  }

  /** `response.error = error.message || error`, for an `error` that is truthy. */
  function DetalleDe(f: Falla): Falla
  {
    if f.ErrorObj? && f.message != "" then Texto(f.message) else f
  }

  /** `sendError(res, message, error = null, statusCode = 400)`. */
  function SendError<T>(message: string, error: Option<Falla>, status: Option<nat>): (r: Respuesta<T>)
    ensures !r.success && r.message == message && r.data.None?
    ensures r.status == (if status.Some? then status.value else 400)
    ensures r.error.Some? <==> error.Some? && Truthy(error.value)
  {
    Respuesta(status.GetOr(400), false, message, None,
              if error.Some? && Truthy(error.value) then Some(DetalleDe(error.value)) else None)
  }

  const MsgValidacion := "Validación completada"

  /** The `data` of a validation endpoint: `{ valido: true }` or `{ valido: false, mensaje }`. */
  datatype Validacion = Validacion(valido: bool, mensaje: Option<string>)

  /**
   * The answer of a validation endpoint once its required fields are
   * present: `{ valido: true }` with `exito` when the model's check passes,
   * `{ valido: false, mensaje }` with 'Validación completada' when it
   * throws.
   */
  function Validado(chequeo: Option<string>, exito: string): (r: Respuesta<Validacion>)
    ensures r.status == 200 && r.success && r.data.Some?
    ensures r.data.value.valido <==> chequeo.None?
    ensures r.data.value.mensaje == chequeo
    ensures r.message == if chequeo.None? then exito else MsgValidacion
  {
    match chequeo
    case None => SendSuccess(Some(Validacion(true, None)), Some(exito), None)
    case Some(m) => SendSuccess(Some(Validacion(false, Some(m))), Some(MsgValidacion), None)
  }

  /**
   * The `error` field of `sendError`: the message of an `Error` whose message
   * is not empty, otherwise the value passed itself; never an empty string.
   */
  lemma SendErrorDetalle<T>(message: string, error: Falla, status: Option<nat>)
    ensures var r := SendError<T>(message, Some(error), status);
      && (error.ErrorObj? && error.message != "" ==> r.error == Some(Texto(error.message)))
      && (error.Texto? && error.text != "" ==> r.error == Some(error))
      && (error == ErrorObj("") ==> r.error == Some(error))
      && (r.error.Some? ==> Truthy(r.error.value))
  {
  }

  // ---------------------------------------------------------------- status selection

  /** The status of a failed create or update: 409 for a uniqueness clash ('Ya existe'), else 400. */
  function StatusGuardar(msg: string): (s: nat)
    ensures s == 409 <==> Contains(msg, "Ya existe")
    ensures s == 400 <==> !Contains(msg, "Ya existe")
  {
    if Includes(msg, "Ya existe") then 409 else 400
  }

  /** The status of a failed delete: 409 when dependent rows exist ('asociados'/'asociadas'), else 400. */
  function StatusBorrar(msg: string): (s: nat)
    ensures s == 409 <==> Contains(msg, "asociados") || Contains(msg, "asociadas")
    ensures s == 400 <==> !Contains(msg, "asociados") && !Contains(msg, "asociadas")
  {
    if Includes(msg, "asociados") || Includes(msg, "asociadas") then 409 else 400
  }

  /** A catch block's body: `{ success: false, message, error: error.message }`. */
  function Fallo<T>(status: nat, message: string, error: string): Respuesta<T>
  {
    Respuesta(status, false, message, None, Some(Texto(error)))
  }

  // ---------------------------------------------------------------- endpoints

  /** `getById`: the row, or 404 when `findById` finds nothing. */
  function GetById<T>(hallado: Option<T>): (s: Salida<T>)
    ensures s.llamadas == [FindById]
    ensures s.respuesta.status == 404 <==> hallado.None?
    ensures s.respuesta.success <==> hallado.Some?
    ensures hallado.Some? ==> s.respuesta.status == 200 && s.respuesta.data == hallado
  {
    if hallado.None? then Salida(Respuesta(404, false, MsgNoEncontrado, None, None), [FindById])
    else Salida(Respuesta(200, true, MsgObtenido, hallado, None), [FindById])
  }

  /**
   * `create`. `validar` is `None` when the model has no `validateForCreation`,
   * and otherwise the message it throws, if any; `crear` is the outcome of
   * `model.create`.
   */
  function CreateEndpoint<T>(validar: Option<Option<string>>, crear: Result<T, string>): (s: Salida<T>)
    ensures Create in s.llamadas <==> !(validar.Some? && validar.value.Some?)
    ensures s.respuesta.success <==> s.respuesta.status == 201
  {
    var previas := if validar.Some? then [ValidateForCreation] else [];
    if validar.Some? && validar.value.Some? then
      var msg := validar.value.value;
      Salida(Fallo(StatusGuardar(msg), MsgErrorCrear, msg), previas)
    else
      match crear
      case Failure(msg) => Salida(Fallo(StatusGuardar(msg), MsgErrorCrear, msg), previas + [Create])
      case Success(fila) => Salida(Respuesta(201, true, MsgCreado, Some(fila), None), previas + [Create])
  }

  /** The message a failed `create` or `update` reports, if it failed. */
  function ErrorGuardar<T>(validar: Option<Option<string>>, guardar: Result<T, string>): Option<string>
  {
    if validar.Some? && validar.value.Some? then validar.value
    else if guardar.Failure? then Some(guardar.error)
    else None
  }

  /** `create` answers 201 on success, and otherwise 409 exactly for a 'Ya existe' message, else 400. */
  lemma CreateStatus<T>(validar: Option<Option<string>>, crear: Result<T, string>)
    ensures var s := CreateEndpoint(validar, crear);
      match ErrorGuardar(validar, crear)
      case None => s.respuesta.status == 201 && s.respuesta.data == Some(crear.value)
      case Some(msg) =>
        && (s.respuesta.status == 409 <==> Contains(msg, "Ya existe"))
        && (s.respuesta.status == 400 <==> !Contains(msg, "Ya existe"))
        && s.respuesta.error == Some(Texto(msg))
  {
  }

  /**
   * `update`. `existente` is what `findById` returns; `validar` is as for
   * `create`; `actualizar` is the outcome of `model.update`, whose row may be
   * `null`.
   */
  function UpdateEndpoint<T>(existente: Option<T>, validar: Option<Option<string>>, actualizar: Result<Option<T>, string>)
    : (s: Salida<T>)
    ensures s.llamadas != [] && s.llamadas[0] == FindById
    ensures Update in s.llamadas <==> existente.Some? && !(validar.Some? && validar.value.Some?)
  {
    if existente.None? then Salida(Respuesta(404, false, MsgNoEncontrado, None, None), [FindById])
    else
      var previas := [FindById] + (if validar.Some? then [ValidateForUpdate] else []);
      if validar.Some? && validar.value.Some? then
        var msg := validar.value.value;
        Salida(Fallo(StatusGuardar(msg), MsgErrorActualizar, msg), previas)
      else
        match actualizar
        case Failure(msg) => Salida(Fallo(StatusGuardar(msg), MsgErrorActualizar, msg), previas + [Update])
        case Success(fila) => Salida(Respuesta(200, true, MsgActualizado, fila, None), previas + [Update])
  }

  /**
   * `update` answers 404 without writing iff the row is missing; otherwise
   * 200 on success, and on failure 409 exactly for a 'Ya existe' message.
   */
  lemma UpdateStatus<T>(existente: Option<T>, validar: Option<Option<string>>, actualizar: Result<Option<T>, string>)
    ensures var s := UpdateEndpoint(existente, validar, actualizar);
      && (s.respuesta.status == 404 <==> existente.None?)
      && (existente.None? ==> s.llamadas == [FindById] && forall c :: c in s.llamadas ==> !Escribe(c))
      && (existente.Some? ==> match ErrorGuardar(validar, actualizar)
                              case None => s.respuesta.status == 200 && s.respuesta.data == actualizar.value
                              case Some(msg) => (s.respuesta.status == 409 <==> Contains(msg, "Ya existe"))
                                                && (s.respuesta.status == 400 <==> !Contains(msg, "Ya existe")))
  {
  }

  /** The rank of each delete operation in the controller's dispatch chain. */
  function RangoBorrado(b: Borrado): nat
  {
    match b
    case DeleteRed => 0
    case DeleteIpress => 1
    case DeleteGrupoOcupacional => 2
    case DeletePlaza => 3
    case DeletePostulante => 4
    case DeleteGenerico => 5
  }

  /**
   * The delete the controller calls, given the entity-specific delete
   * operations the model has: the first present in the order deleteRed,
   * deleteIpress, deleteGrupoOcupacional, deletePlaza, deletePostulante,
   * otherwise the generic delete.
   */
  function DespacharBorrado(metodos: set<Borrado>): (b: Borrado)
    ensures b == DeleteGenerico || b in metodos
    ensures forall m :: m in metodos && m != DeleteGenerico ==> RangoBorrado(b) <= RangoBorrado(m)
    ensures b == DeleteGenerico <==> metodos <= {DeleteGenerico}
  {
    if DeleteRed in metodos then DeleteRed
    else if DeleteIpress in metodos then DeleteIpress
    else if DeleteGrupoOcupacional in metodos then DeleteGrupoOcupacional
    else if DeletePlaza in metodos then DeletePlaza
    else if DeletePostulante in metodos then DeletePostulante
    else DeleteGenerico
  }

  /** A model with one entity-specific delete gets that one called. */
  lemma DespacharPropio(b: Borrado)
    ensures DespacharBorrado({b}) == b
  {
  }

  /**
   * `delete`. `existente` is what `findById` returns, `metodos` the
   * entity-specific deletes the model has, and `borrar` the outcome of the
   * delete called.
   */
  function DeleteEndpoint<T>(existente: Option<T>, metodos: set<Borrado>, borrar: Result<Option<T>, string>)
    : (s: Salida<T>)
    ensures existente.None? ==> s.llamadas == [FindById]
    ensures existente.Some? ==> s.llamadas == [FindById, Delete(DespacharBorrado(metodos))]
  {
    if existente.None? then Salida(Respuesta(404, false, MsgNoEncontrado, None, None), [FindById])
    else
      var llamadas := [FindById, Delete(DespacharBorrado(metodos))];
      match borrar
      case Failure(msg) => Salida(Fallo(StatusBorrar(msg), MsgErrorEliminar, msg), llamadas)
      case Success(fila) => Salida(Respuesta(200, true, MsgEliminado, fila, None), llamadas)
  }

  /**
   * `delete` answers 404 without writing iff the row is missing; a failed
   * delete answers 409 exactly when its message names dependent rows.
   */
  lemma DeleteStatus<T>(existente: Option<T>, metodos: set<Borrado>, borrar: Result<Option<T>, string>)
    ensures var s := DeleteEndpoint(existente, metodos, borrar);
      && (s.respuesta.status == 404 <==> existente.None?)
      && (existente.None? ==> forall c :: c in s.llamadas ==> !Escribe(c))
      && (existente.Some? && borrar.Success? ==> s.respuesta.status == 200 && s.respuesta.data == borrar.value)
      && (existente.Some? && borrar.Failure? ==>
            (s.respuesta.status == 409 <==> Contains(borrar.error, "asociados") || Contains(borrar.error, "asociadas")))
  {
  }

  /**
   * `search`: 400 without any model call when `q` is missing or empty;
   * otherwise `searchByNombre(q)` when the model has it, else `findAll()`.
   */
  function SearchEndpoint<T>(q: Option<string>, tieneBuscar: bool, resultado: T): (s: Salida<T>)
    ensures s.respuesta.status == 400 <==> q.None? || q.value == ""
    ensures s.respuesta.status == 400 ==> s.llamadas == [] && !s.respuesta.success
    ensures s.respuesta.status != 400 ==>
              && s.respuesta.success && s.respuesta.data == Some(resultado)
              && s.llamadas == [if tieneBuscar then SearchByNombre(q.value) else FindAll]
  {
    if q.None? || q.value == "" then Salida(Respuesta(400, false, MsgBusquedaRequerida, None, None), [])
    else
      var llamada := if tieneBuscar then SearchByNombre(q.value) else FindAll;
      Salida(Respuesta(200, true, MsgBusqueda, Some(resultado), None), [llamada])
  }
}
