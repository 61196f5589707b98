/**
 * The assignment ("adjudicación") lifecycle of `backend/src/models/Adjudicacion.js`.
 *
 * Every transition is a function from the tables before to the tables after
 * (`After...`), and a method on the `Database` that performs the same reads,
 * checks and UPDATE-or-INSERT in the order the source does and is proved to
 * agree with the function. A method that throws inside its transaction
 * (`ROLLBACK` + `throw`) returns `Failure` and leaves the tables as they were.
 *
 * The stored function `validar_adjudicacion` is not part of this model's
 * sources: an assignment is taken to be valid (`EsValida`) exactly when none
 * of the checks `getDetallesValidacion` explains fails.
 */
module Adjudicaciones {
  import opened Wrappers
  import opened Relational
  import opened Store
  import Text

  const MsgPostulanteNoEncontrado := "Postulante no encontrado"
  const MsgYaAdjudicado := "El postulante ya tiene una adjudicación activa"
  const MsgYaRenuncio := "El postulante ya renunció a una adjudicación anterior"
  const MsgSinDisponibles := "No hay plazas disponibles en esta posición"
  const MsgGrupoDistinto := "El grupo ocupacional del postulante no coincide con el de la plaza"
  const MsgDesconocido := "Error desconocido en la validación"
  const MsgValida := "Adjudicación válida"
  const MsgDesistirAdjudicado := "No se puede marcar como desistido a un postulante ya adjudicado"
  const MsgSinActiva := "No se encontró una adjudicación activa para este postulante"
  const MsgAusenteNoPendiente := "Solo se puede marcar como ausente a postulantes en estado pendiente"
  const MsgSinRegistro := "No hay adjudicación registrada para este postulante"
  const MsgReasignarDesde := "No se puede reasignar desde el estado: "
  const MsgSinPlazasGrupo := "No hay plazas disponibles para este grupo ocupacional"
  const MsgSinActivaRevertir := "No se encontró una adjudicación activa para revertir"
  const ObsMasiva := "Adjudicación automática masiva"

  // ---------------------------------------------------------------- validation

  /** `getDetallesValidacion`: the message of the first failing check, or the fallback. */
  function DetallesValidacion(t: Tables, postulanteId: Id, plazaId: Id): string
  {
    if FindPostulante(t, postulanteId).None? then MsgPostulanteNoEncontrado
    else if EstadoOf(t, postulanteId) == Some(Adjudicado) then MsgYaAdjudicado
    else if EstadoOf(t, postulanteId) == Some(Renuncio) then MsgYaRenuncio
    else if Libres(t, plazaId) <= 0 then MsgSinDisponibles
    else if FindPlaza(t, plazaId).Some?
         && FindPlaza(t, plazaId).value.grupoId != FindPostulante(t, postulanteId).value.grupoId
    then MsgGrupoDistinto
    else MsgDesconocido
  }

  /**
   * The assumed meaning of `validar_adjudicacion`: the candidate exists, is not
   * assigned and has not renounced, and the position exists, has a free seat
   * and belongs to the candidate's group.
   */
  predicate EsValida(t: Tables, postulanteId: Id, plazaId: Id)
  {
    && FindPostulante(t, postulanteId).Some?
    && EstadoOf(t, postulanteId) != Some(Adjudicado)
    && EstadoOf(t, postulanteId) != Some(Renuncio)
    && FindPlaza(t, plazaId).Some?
    && Libres(t, plazaId) > 0
    && FindPlaza(t, plazaId).value.grupoId == FindPostulante(t, postulanteId).value.grupoId
  }

  /**
   * The message names the first check that fails, in the source's order; the
   * fallback appears exactly when every check passes.
   */
  lemma DetallesValidacionOrden(t: Tables, postulanteId: Id, plazaId: Id)
    ensures var m := DetallesValidacion(t, postulanteId, plazaId);
      && (m == MsgPostulanteNoEncontrado <==> FindPostulante(t, postulanteId).None?)
      && (m == MsgYaAdjudicado <==> FindPostulante(t, postulanteId).Some? && EstadoOf(t, postulanteId) == Some(Adjudicado))
      && (m == MsgYaRenuncio <==> FindPostulante(t, postulanteId).Some? && EstadoOf(t, postulanteId) == Some(Renuncio))
      && (m == MsgSinDisponibles <==>
            FindPostulante(t, postulanteId).Some? && EstadoOf(t, postulanteId) !in {Some(Adjudicado), Some(Renuncio)}
            && Libres(t, plazaId) <= 0)
      && (m == MsgGrupoDistinto <==>
            FindPostulante(t, postulanteId).Some? && EstadoOf(t, postulanteId) !in {Some(Adjudicado), Some(Renuncio)}
            && Libres(t, plazaId) > 0
            && FindPlaza(t, plazaId).value.grupoId != FindPostulante(t, postulanteId).value.grupoId)
      && (m == MsgDesconocido <==> EsValida(t, postulanteId, plazaId))
  {
    if Libres(t, plazaId) > 0 {
      LibresPositiveHasPlaza(t, plazaId);
    }
  }

  datatype Validacion = Validacion(valido: bool, mensaje: string)

  /** `validarAdjudicacion`: valid, or invalid with the reason; the fallback message never reaches a caller. */
  function ValidarAdjudicacion(t: Tables, postulanteId: Id, plazaId: Id): (v: Validacion)
    ensures v.valido <==> EsValida(t, postulanteId, plazaId)
    ensures v.valido ==> v.mensaje == MsgValida
    ensures !v.valido ==> v.mensaje == DetallesValidacion(t, postulanteId, plazaId) && v.mensaje != MsgDesconocido
  {
    DetallesValidacionOrden(t, postulanteId, plazaId);
    if EsValida(t, postulanteId, plazaId) then Validacion(true, MsgValida)
    else Validacion(false, DetallesValidacion(t, postulanteId, plazaId))
  }

  // ---------------------------------------------------------------- SET clauses

  function SetAdjudicado(plaza: Id, obs: Option<string>, now: Time): Adjudicacion -> Adjudicacion
  {
    (a: Adjudicacion) => a.(plazaId := Some(plaza), estado := Adjudicado, fechaAdjudicacion := Some(now),
                            observaciones := obs)
  }

  function SetDesistido(obs: Option<string>, now: Time): Adjudicacion -> Adjudicacion
  {
    (a: Adjudicacion) => a.(estado := Desistido, fechaDesistimiento := Some(now), observaciones := obs)
  }

  function SetRenuncio(obs: Option<string>, now: Time): Adjudicacion -> Adjudicacion
  {
    (a: Adjudicacion) => a.(estado := Renuncio, fechaDesistimiento := Some(now), observaciones := obs)
  }

  function SetAusente(obs: Option<string>, now: Time): Adjudicacion -> Adjudicacion
  {
    (a: Adjudicacion) => a.(estado := Ausente, fechaDesistimiento := Some(now), observaciones := obs)
  }

  function SetPendienteReasignado(obs: Option<string>): Adjudicacion -> Adjudicacion
  {
    (a: Adjudicacion) => a.(estado := Pendiente, plazaId := None, fechaAdjudicacion := None,
                            fechaDesistimiento := None, observaciones := obs)
  }

  function SetPendienteRevertido(obs: Option<string>): Adjudicacion -> Adjudicacion
  {
    (a: Adjudicacion) => a.(estado := Pendiente, plazaId := None, fechaAdjudicacion := None, observaciones := obs)
  }

  // ---------------------------------------------------------------- transitions as functions

  /** The tables after a statement, the row `RETURNING *` gives back, and the next id. */
  datatype Paso = Paso(tables: Tables, fila: Adjudicacion, serial: nat)

  /**
   * The step the candidate transitions end with: UPDATE the candidate's rows
   * with `f` when a row exists, else INSERT `nueva`, which takes id `serial`.
   */
  function Upsert(t: Tables, serial: nat, postulanteId: Id, f: Adjudicacion -> Adjudicacion,
                  nueva: Adjudicacion): Paso
  {
    match RowFor(t.adjudicaciones, postulanteId)
    case Some(a) =>
      Paso(t.(adjudicaciones := UpdateWhere(t.adjudicaciones, (x: Adjudicacion) => x.postulanteId == postulanteId, f)),
           f(a), serial)
    case None =>
      Paso(t.(adjudicaciones := t.adjudicaciones + [nueva]), nueva, serial + 1)
  }

  /** `adjudicarAutomatico`. */
  function AfterAdjudicar(t: Tables, serial: nat, postulanteId: Id, plaza: Id, obs: Option<string>, now: Time)
    : (r: Result<Paso, string>)
    ensures r.Failure? <==> !EsValida(t, postulanteId, plaza)
    ensures r.Failure? ==> r.error == DetallesValidacion(t, postulanteId, plaza)
  {
    var v := ValidarAdjudicacion(t, postulanteId, plaza);
    if !v.valido then Failure(v.mensaje)
    else
      Success(Upsert(t, serial, postulanteId, SetAdjudicado(plaza, obs, now),
                     Adjudicacion(serial, postulanteId, Some(plaza), Adjudicado, Some(now), None, obs)))
  }

  /** `marcarDesistido`. */
  function AfterDesistido(t: Tables, serial: nat, postulanteId: Id, obs: Option<string>, now: Time)
    : (r: Result<Paso, string>)
    ensures r.Failure? <==> FindPostulante(t, postulanteId).None? || EstadoOf(t, postulanteId) == Some(Adjudicado)
    ensures r.Failure? ==> r.error == if FindPostulante(t, postulanteId).None? then MsgPostulanteNoEncontrado
                                      else MsgDesistirAdjudicado
  {
    if FindPostulante(t, postulanteId).None? then Failure(MsgPostulanteNoEncontrado)
    else if EstadoOf(t, postulanteId) == Some(Adjudicado) then Failure(MsgDesistirAdjudicado)
    else
      Success(Upsert(t, serial, postulanteId, SetDesistido(obs, now),
                     Adjudicacion(serial, postulanteId, None, Desistido, None, Some(now), obs)))
  }

  /** The active assignment of a candidate: its row in state 'adjudicado'. */
  predicate Activa(a: Adjudicacion, postulanteId: Id)
  {
    a.postulanteId == postulanteId && a.estado == Adjudicado
  }

  /** `marcarRenuncia`: works on the candidate's row in state 'adjudicado' only. */
  function AfterRenuncia(t: Tables, serial: nat, postulanteId: Id, obs: Option<string>, now: Time)
    : (r: Result<Paso, string>)
    ensures r.Failure? <==> forall i :: 0 <= i < |t.adjudicaciones| ==> !Activa(t.adjudicaciones[i], postulanteId)
    ensures r.Failure? ==> r.error == MsgSinActiva
  {
    match First(t.adjudicaciones, (a: Adjudicacion) => Activa(a, postulanteId))
    case None => Failure(MsgSinActiva)
    case Some(a) =>
      Success(Paso(t.(adjudicaciones := UpdateWhere(t.adjudicaciones, (x: Adjudicacion) => Activa(x, postulanteId),
                                                    SetRenuncio(obs, now))),
                   SetRenuncio(obs, now)(a), serial))
  }

  /** `marcarAusente`: only a candidate with no row or a 'pendiente' row. */
  function AfterAusente(t: Tables, serial: nat, postulanteId: Id, obs: Option<string>, now: Time)
    : (r: Result<Paso, string>)
    ensures r.Success? <==> FindPostulante(t, postulanteId).Some? && EstadoOf(t, postulanteId) in {None, Some(Pendiente)}
    ensures r.Failure? ==> r.error == if FindPostulante(t, postulanteId).None? then MsgPostulanteNoEncontrado
                                      else MsgAusenteNoPendiente
  {
    if FindPostulante(t, postulanteId).None? then Failure(MsgPostulanteNoEncontrado)
    else if EstadoOf(t, postulanteId).Some? && EstadoOf(t, postulanteId) != Some(Pendiente) then
      Failure(MsgAusenteNoPendiente)
    else
      Success(Upsert(t, serial, postulanteId, SetAusente(obs, now),
                     Adjudicacion(serial, postulanteId, None, Ausente, None, Some(now), obs)))
  }

  /** States `reasignar` accepts. */
  predicate Reasignable(e: Estado)
  {
    e == Desistido || e == Ausente || e == Renuncio
  }

  /** `reasignar`: back to 'pendiente' from desistido, ausente or renuncio, clearing the position and dates. */
  function AfterReasignar(t: Tables, serial: nat, postulanteId: Id, obs: Option<string>)
    : (r: Result<Paso, string>)
    ensures r.Success? <==> FindPostulante(t, postulanteId).Some? && EstadoOf(t, postulanteId).Some?
                            && Reasignable(EstadoOf(t, postulanteId).value)
    ensures FindPostulante(t, postulanteId).None? ==> r == Failure(MsgPostulanteNoEncontrado)
    ensures FindPostulante(t, postulanteId).Some? && EstadoOf(t, postulanteId).None? ==> r == Failure(MsgSinRegistro)
    ensures FindPostulante(t, postulanteId).Some? && EstadoOf(t, postulanteId).Some? && r.Failure? ==>
              r.error == MsgReasignarDesde + EstadoText(EstadoOf(t, postulanteId).value)
  {
    if FindPostulante(t, postulanteId).None? then Failure(MsgPostulanteNoEncontrado)
    else match RowFor(t.adjudicaciones, postulanteId)
      case None => Failure(MsgSinRegistro)
      case Some(a) =>
        if !Reasignable(a.estado) then Failure(MsgReasignarDesde + EstadoText(a.estado))
        else
          Success(Paso(t.(adjudicaciones := UpdateWhere(t.adjudicaciones,
                                                        (x: Adjudicacion) => x.postulanteId == postulanteId,
                                                        SetPendienteReasignado(obs))),
                       SetPendienteReasignado(obs)(a), serial))
  }

  /** The row `revertirAdjudicacion` may change: that id, in state 'adjudicado'. */
  predicate Revertible(a: Adjudicacion, id: Id)
  {
    a.id == id && a.estado == Adjudicado
  }

  /** `revertirAdjudicacion`: one UPDATE on the assignment id; `fecha_desistimiento` is not touched. */
  function AfterRevertir(t: Tables, serial: nat, id: Id, obs: Option<string>): (r: Result<Paso, string>)
    ensures r.Failure? <==> forall i :: 0 <= i < |t.adjudicaciones| ==> !Revertible(t.adjudicaciones[i], id)
    ensures r.Failure? ==> r.error == MsgSinActivaRevertir
  {
    match First(t.adjudicaciones, (a: Adjudicacion) => Revertible(a, id))
    case None => Failure(MsgSinActivaRevertir)
    case Some(a) =>
      Success(Paso(t.(adjudicaciones := UpdateWhere(t.adjudicaciones, (x: Adjudicacion) => Revertible(x, id),
                                                    SetPendienteRevertido(obs))),
                   SetPendienteRevertido(obs)(a), serial))
  }

  // ---------------------------------------------------------------- the invariant

  /** At most one assignment row per candidate: every transition UPDATEs an existing row instead of adding one. */
  predicate UnaFilaPorPostulante(adjs: seq<Adjudicacion>)
  {
    Unique(adjs, (a: Adjudicacion) => a.postulanteId)
  }

  /** The number of rows of one candidate. */
  function FilasDe(adjs: seq<Adjudicacion>, postulanteId: Id): nat
  {
    CountWhere(adjs, (a: Adjudicacion) => a.postulanteId == postulanteId)
  }

  /** With one row per candidate, a candidate has exactly one row iff the lookup finds one. */
  lemma {:induction false} FilasDeUna(adjs: seq<Adjudicacion>, postulanteId: Id)
    requires UnaFilaPorPostulante(adjs)
    ensures FilasDe(adjs, postulanteId) <= 1
    ensures FilasDe(adjs, postulanteId) == 1 <==> RowFor(adjs, postulanteId).Some?
  {
    var p := (a: Adjudicacion) => a.postulanteId == postulanteId;
    CountPositiveIff(adjs, p);
    if adjs != [] {
      assert UnaFilaPorPostulante(adjs[1..]) by {
        forall i, j | 0 <= i < j < |adjs[1..]| ensures adjs[1..][i].postulanteId != adjs[1..][j].postulanteId {
          assert adjs[1..][i] == adjs[i + 1] && adjs[1..][j] == adjs[j + 1];
        }
      }
      FilasDeUna(adjs[1..], postulanteId);
      if adjs[0].postulanteId == postulanteId {
        forall i | 0 <= i < |adjs[1..]| ensures !p(adjs[1..][i]) {
          assert adjs[1..][i] == adjs[i + 1];
        }
        CountPositiveIff(adjs[1..], p);
      }
    }
  }

  /** A row's share of the taken seats of position `plazaId`. */
  function Aporte(a: Option<Adjudicacion>, plazaId: Id): nat
  {
    if a.Some? && Ocupa(a.value, plazaId) then 1 else 0
  }

  /**
   * The invariant the transitions keep: one row per candidate, and no
   * position has more seats taken than it has.
   */
  ghost predicate Coherente(t: Tables)
  {
    && UnaFilaPorPostulante(t.adjudicaciones)
    && forall plazaId: Id :: Asignados(t.adjudicaciones, plazaId) <= Total(t, plazaId)
  }

  /** The index of a candidate's row, and the fact that no other row is the candidate's. */
  lemma IndiceDe(adjs: seq<Adjudicacion>, postulanteId: Id) returns (k: nat)
    requires UnaFilaPorPostulante(adjs) && RowFor(adjs, postulanteId).Some?
    ensures k < |adjs| && adjs[k] == RowFor(adjs, postulanteId).value
    ensures forall i :: 0 <= i < |adjs| && i != k ==> adjs[i].postulanteId != postulanteId
  {
    var a := RowFor(adjs, postulanteId).value;
    k :| 0 <= k < |adjs| && adjs[k] == a;
    UniqueOnlyMatch(adjs, (x: Adjudicacion) => x.postulanteId, k);
  }

  /** Replacing a candidate's row by another row of the same candidate. */
  lemma ReemplazoEfecto(adjs: seq<Adjudicacion>, k: nat, y: Adjudicacion)
    requires UnaFilaPorPostulante(adjs) && k < |adjs| && y.postulanteId == adjs[k].postulanteId
    ensures RowFor(adjs, y.postulanteId) == Some(adjs[k])
    ensures RowFor(adjs[k := y], y.postulanteId) == Some(y)
    ensures forall q: Id :: q != y.postulanteId ==> RowFor(adjs[k := y], q) == RowFor(adjs, q)
    ensures UnaFilaPorPostulante(adjs[k := y])
    ensures forall plazaId: Id :: Asignados(adjs[k := y], plazaId) + Aporte(Some(adjs[k]), plazaId)
                                  == Asignados(adjs, plazaId) + Aporte(Some(y), plazaId)
  {
    var u := adjs[k := y];
    var pid := y.postulanteId;
    UniqueOnlyMatch(adjs, (x: Adjudicacion) => x.postulanteId, k);
    FirstAt(adjs, (x: Adjudicacion) => x.postulanteId == pid, k);
    FirstAt(u, (x: Adjudicacion) => x.postulanteId == pid, k);
    forall q: Id | q != pid ensures RowFor(u, q) == RowFor(adjs, q) {
      FirstPointwise(u, adjs, (x: Adjudicacion) => x.postulanteId == q);
    }
    UniqueReplace(adjs, (x: Adjudicacion) => x.postulanteId, k, y);
    forall plazaId: Id ensures Asignados(u, plazaId) + Aporte(Some(adjs[k]), plazaId)
                               == Asignados(adjs, plazaId) + Aporte(Some(y), plazaId) {
      CountReplace(adjs, (x: Adjudicacion) => Ocupa(x, plazaId), k, y);
    }
  }

  /** Appending the first row of a candidate. */
  lemma InsercionEfecto(adjs: seq<Adjudicacion>, y: Adjudicacion)
    requires UnaFilaPorPostulante(adjs) && RowFor(adjs, y.postulanteId).None?
    ensures RowFor(adjs + [y], y.postulanteId) == Some(y)
    ensures forall q: Id :: q != y.postulanteId ==> RowFor(adjs + [y], q) == RowFor(adjs, q)
    ensures UnaFilaPorPostulante(adjs + [y])
    ensures forall plazaId: Id :: Asignados(adjs + [y], plazaId) == Asignados(adjs, plazaId) + Aporte(Some(y), plazaId)
  {
    FirstAppend(adjs, y, (x: Adjudicacion) => x.postulanteId == y.postulanteId);
    forall q: Id | q != y.postulanteId ensures RowFor(adjs + [y], q) == RowFor(adjs, q) {
      FirstAppend(adjs, y, (x: Adjudicacion) => x.postulanteId == q);
    }
    UniqueAppend(adjs, (x: Adjudicacion) => x.postulanteId, y);
    forall plazaId: Id ensures Asignados(adjs + [y], plazaId) == Asignados(adjs, plazaId) + Aporte(Some(y), plazaId) {
      CountAppend(adjs, (x: Adjudicacion) => Ocupa(x, plazaId), y);
    }
  }

  /**
   * A row rewrite in which neither the old row nor the new one holds a seat
   * leaves every position's count as it was, and so keeps the invariant.
   */
  lemma SinAsiento(t: Tables, u: seq<Adjudicacion>, antes: Option<Adjudicacion>, fila: Adjudicacion)
    requires Coherente(t) && UnaFilaPorPostulante(u)
    requires forall p: Id :: Asignados(u, p) + Aporte(antes, p) == Asignados(t.adjudicaciones, p) + Aporte(Some(fila), p)
    requires antes.None? || antes.value.estado != Adjudicado
    requires fila.estado != Adjudicado
    ensures forall p: Id :: Asignados(u, p) == Asignados(t.adjudicaciones, p)
    ensures Coherente(t.(adjudicaciones := u))
  {
    LiberaAsiento(t, u, antes, fila);
  }

  /** A row rewrite whose new row holds no seat frees the old row's seat, if it had one, and keeps the invariant. */
  lemma LiberaAsiento(t: Tables, u: seq<Adjudicacion>, antes: Option<Adjudicacion>, fila: Adjudicacion)
    requires Coherente(t) && UnaFilaPorPostulante(u)
    requires forall p: Id :: Asignados(u, p) + Aporte(antes, p) == Asignados(t.adjudicaciones, p) + Aporte(Some(fila), p)
    requires fila.estado != Adjudicado
    ensures forall p: Id :: Asignados(u, p) + Aporte(antes, p) == Asignados(t.adjudicaciones, p)
    ensures Coherente(t.(adjudicaciones := u))
  {
    forall p: Id ensures Asignados(u, p) <= Total(t.(adjudicaciones := u), p) {
      assert Total(t.(adjudicaciones := u), p) == Total(t, p);
    }
  }

  /**
   * A row rewrite that gives a row without a seat a seat of `plaza`, which
   * had one free, takes exactly that seat and keeps the invariant.
   */
  lemma TomaAsiento(t: Tables, u: seq<Adjudicacion>, antes: Option<Adjudicacion>, fila: Adjudicacion, plaza: Id)
    requires Coherente(t) && UnaFilaPorPostulante(u)
    requires forall p: Id :: Asignados(u, p) + Aporte(antes, p) == Asignados(t.adjudicaciones, p) + Aporte(Some(fila), p)
    requires antes.None? || antes.value.estado != Adjudicado
    requires fila.estado == Adjudicado && fila.plazaId == Some(plaza) && Libres(t, plaza) > 0
    ensures Asignados(u, plaza) == Asignados(t.adjudicaciones, plaza) + 1
    ensures forall p: Id :: p != plaza ==> Asignados(u, p) == Asignados(t.adjudicaciones, p)
    ensures Coherente(t.(adjudicaciones := u))
  {
    assert Aporte(Some(fila), plaza) == 1;
    forall p: Id ensures Asignados(u, p) <= Total(t.(adjudicaciones := u), p) {
      assert Total(t.(adjudicaciones := u), p) == Total(t, p);
    }
  }

  /**
   * UPDATE-or-INSERT leaves the candidate exactly one row, the returned one;
   * other candidates' rows and the other tables are as they were, and the
   * taken seats change by the new row's share minus the old row's.
   */
  lemma UpsertEfecto(t: Tables, serial: nat, postulanteId: Id, f: Adjudicacion -> Adjudicacion, nueva: Adjudicacion)
    requires UnaFilaPorPostulante(t.adjudicaciones)
    requires forall a: Adjudicacion :: f(a).postulanteId == a.postulanteId
    requires nueva.postulanteId == postulanteId
    ensures var s := Upsert(t, serial, postulanteId, f, nueva);
      var antes := RowFor(t.adjudicaciones, postulanteId);
      && s.tables == t.(adjudicaciones := s.tables.adjudicaciones)
      && s.fila == (if antes.Some? then f(antes.value) else nueva)
      && (antes.None? ==> |s.tables.adjudicaciones| == |t.adjudicaciones| + 1)
      && RowFor(s.tables.adjudicaciones, postulanteId) == Some(s.fila)
      && FilasDe(s.tables.adjudicaciones, postulanteId) == 1
      && (forall q: Id :: q != postulanteId ==> RowFor(s.tables.adjudicaciones, q) == RowFor(t.adjudicaciones, q))
      && UnaFilaPorPostulante(s.tables.adjudicaciones)
      && (forall plazaId: Id :: Asignados(s.tables.adjudicaciones, plazaId) + Aporte(antes, plazaId)
                               == Asignados(t.adjudicaciones, plazaId) + Aporte(Some(s.fila), plazaId))
  {
    var s := Upsert(t, serial, postulanteId, f, nueva);
    match RowFor(t.adjudicaciones, postulanteId)
    case Some(a) =>
      var k := IndiceDe(t.adjudicaciones, postulanteId);
      UpdateWhereSingle(t.adjudicaciones, (x: Adjudicacion) => x.postulanteId == postulanteId, f, k);
      ReemplazoEfecto(t.adjudicaciones, k, f(a));
      FilasDeUna(s.tables.adjudicaciones, postulanteId);
    case None =>
      InsercionEfecto(t.adjudicaciones, nueva);
      FilasDeUna(s.tables.adjudicaciones, postulanteId);
  }

  // ---------------------------------------------------------------- what each transition does

  /**
   * A successful `adjudicarAutomatico` leaves the candidate exactly one row,
   * the returned one: 'adjudicado' at `plaza` with the date set, updated in
   * place when a row existed (keeping its `fecha_desistimiento`) and inserted
   * with the next id and no withdrawal date otherwise. It takes
   * one more seat of `plaza` and no other, leaves every other candidate's row
   * and every other table as it was, and keeps the invariant.
   */
  lemma AdjudicarEfecto(t: Tables, serial: nat, postulanteId: Id, plaza: Id, obs: Option<string>, now: Time)
    requires Coherente(t)
    requires AfterAdjudicar(t, serial, postulanteId, plaza, obs, now).Success?
    ensures var s := AfterAdjudicar(t, serial, postulanteId, plaza, obs, now).value;
      var antes := RowFor(t.adjudicaciones, postulanteId);
      && s.tables == t.(adjudicaciones := s.tables.adjudicaciones)
      && RowFor(s.tables.adjudicaciones, postulanteId) == Some(s.fila)
      && FilasDe(s.tables.adjudicaciones, postulanteId) == 1
      && s.fila.postulanteId == postulanteId && s.fila.plazaId == Some(plaza) && s.fila.estado == Adjudicado
      && s.fila.fechaAdjudicacion == Some(now) && s.fila.observaciones == obs
      && (antes.Some? ==> s.fila.id == antes.value.id && s.serial == serial
                          && s.fila.fechaDesistimiento == antes.value.fechaDesistimiento
                          && |s.tables.adjudicaciones| == |t.adjudicaciones|)
      && (antes.None? ==> s.fila.id == serial && s.serial == serial + 1 && s.fila.fechaDesistimiento.None?
                          && |s.tables.adjudicaciones| == |t.adjudicaciones| + 1)
      && (forall q: Id :: q != postulanteId ==> RowFor(s.tables.adjudicaciones, q) == RowFor(t.adjudicaciones, q))
      && Asignados(s.tables.adjudicaciones, plaza) == Asignados(t.adjudicaciones, plaza) + 1
      && (forall p: Id :: p != plaza ==> Asignados(s.tables.adjudicaciones, p) == Asignados(t.adjudicaciones, p))
      && Coherente(s.tables)
  {
    UpsertEfecto(t, serial, postulanteId, SetAdjudicado(plaza, obs, now),
                 Adjudicacion(serial, postulanteId, Some(plaza), Adjudicado, Some(now), None, obs));
    var s := AfterAdjudicar(t, serial, postulanteId, plaza, obs, now).value;
    TomaAsiento(t, s.tables.adjudicaciones, RowFor(t.adjudicaciones, postulanteId), s.fila, plaza);
  }

  /**
   * A successful `marcarDesistido` leaves the candidate one row, 'desistido'
   * with `fecha_desistimiento` set; the position and the assignment date of an
   * existing row are kept, a new row has none. No seat changes hands.
   */
  lemma DesistidoEfecto(t: Tables, serial: nat, postulanteId: Id, obs: Option<string>, now: Time)
    requires Coherente(t)
    requires AfterDesistido(t, serial, postulanteId, obs, now).Success?
    ensures var s := AfterDesistido(t, serial, postulanteId, obs, now).value;
      var antes := RowFor(t.adjudicaciones, postulanteId);
      && s.tables == t.(adjudicaciones := s.tables.adjudicaciones)
      && RowFor(s.tables.adjudicaciones, postulanteId) == Some(s.fila)
      && FilasDe(s.tables.adjudicaciones, postulanteId) == 1
      && s.fila.postulanteId == postulanteId && s.fila.estado == Desistido
      && s.fila.fechaDesistimiento == Some(now) && s.fila.observaciones == obs
      && (antes.Some? ==> s.fila.id == antes.value.id && s.fila.plazaId == antes.value.plazaId
                          && s.fila.fechaAdjudicacion == antes.value.fechaAdjudicacion && s.serial == serial)
      && (antes.None? ==> s.fila.id == serial && s.fila.plazaId == None && s.serial == serial + 1)
      && (forall q: Id :: q != postulanteId ==> RowFor(s.tables.adjudicaciones, q) == RowFor(t.adjudicaciones, q))
      && (forall p: Id :: Asignados(s.tables.adjudicaciones, p) == Asignados(t.adjudicaciones, p))
      && Coherente(s.tables)
  {
    UpsertEfecto(t, serial, postulanteId, SetDesistido(obs, now),
                 Adjudicacion(serial, postulanteId, None, Desistido, None, Some(now), obs));
    var s := AfterDesistido(t, serial, postulanteId, obs, now).value;
    SinAsiento(t, s.tables.adjudicaciones, RowFor(t.adjudicaciones, postulanteId), s.fila);
  }

  /**
   * A successful `marcarRenuncia` changes the candidate's 'adjudicado' row to
   * 'renuncio' with `fecha_desistimiento` set, keeping its position; that seat
   * is freed, and the candidate can no longer be assigned.
   */
  lemma RenunciaEfecto(t: Tables, serial: nat, postulanteId: Id, obs: Option<string>, now: Time)
    requires Coherente(t)
    requires AfterRenuncia(t, serial, postulanteId, obs, now).Success?
    ensures var s := AfterRenuncia(t, serial, postulanteId, obs, now).value;
      var antes := RowFor(t.adjudicaciones, postulanteId);
      && antes.Some? && antes.value.estado == Adjudicado
      && s.tables == t.(adjudicaciones := s.tables.adjudicaciones) && s.serial == serial
      && RowFor(s.tables.adjudicaciones, postulanteId) == Some(s.fila)
      && FilasDe(s.tables.adjudicaciones, postulanteId) == 1
      && s.fila == antes.value.(estado := Renuncio, fechaDesistimiento := Some(now), observaciones := obs)
      && (forall q: Id :: q != postulanteId ==> RowFor(s.tables.adjudicaciones, q) == RowFor(t.adjudicaciones, q))
      && (forall p: Id :: Asignados(s.tables.adjudicaciones, p) + Aporte(antes, p) == Asignados(t.adjudicaciones, p))
      && (forall plaza: Id :: !EsValida(s.tables, postulanteId, plaza))
      && Coherente(s.tables)
  {
    var k := FilaActiva(t.adjudicaciones, postulanteId, SetRenuncio(obs, now));
    ReemplazoEfecto(t.adjudicaciones, k, SetRenuncio(obs, now)(t.adjudicaciones[k]));
    var s := AfterRenuncia(t, serial, postulanteId, obs, now).value;
    FilasDeUna(s.tables.adjudicaciones, postulanteId);
    LiberaAsiento(t, s.tables.adjudicaciones, RowFor(t.adjudicaciones, postulanteId), s.fila);
  }

  /** The candidate's active row is its only row, and the UPDATE on active rows rewrites just that one. */
  lemma FilaActiva(adjs: seq<Adjudicacion>, postulanteId: Id, f: Adjudicacion -> Adjudicacion) returns (k: nat)
    requires UnaFilaPorPostulante(adjs)
    requires First(adjs, (x: Adjudicacion) => Activa(x, postulanteId)).Some?
    ensures k < |adjs| && adjs[k].postulanteId == postulanteId && adjs[k].estado == Adjudicado
    ensures First(adjs, (x: Adjudicacion) => Activa(x, postulanteId)) == Some(adjs[k])
    ensures RowFor(adjs, postulanteId) == Some(adjs[k])
    ensures UpdateWhere(adjs, (x: Adjudicacion) => Activa(x, postulanteId), f) == adjs[k := f(adjs[k])]
  {
    var a := First(adjs, (x: Adjudicacion) => Activa(x, postulanteId)).value;
    k :| 0 <= k < |adjs| && adjs[k] == a;
    UniqueOnlyMatch(adjs, (x: Adjudicacion) => x.postulanteId, k);
    FirstAt(adjs, (x: Adjudicacion) => x.postulanteId == postulanteId, k);
    UpdateWhereSingle(adjs, (x: Adjudicacion) => Activa(x, postulanteId), f, k);
  }

  /**
   * A successful `marcarAusente` leaves the candidate one row, 'ausente' with
   * `fecha_desistimiento` set. No seat changes hands.
   */
  lemma AusenteEfecto(t: Tables, serial: nat, postulanteId: Id, obs: Option<string>, now: Time)
    requires Coherente(t)
    requires AfterAusente(t, serial, postulanteId, obs, now).Success?
    ensures var s := AfterAusente(t, serial, postulanteId, obs, now).value;
      var antes := RowFor(t.adjudicaciones, postulanteId);
      && s.tables == t.(adjudicaciones := s.tables.adjudicaciones)
      && RowFor(s.tables.adjudicaciones, postulanteId) == Some(s.fila)
      && FilasDe(s.tables.adjudicaciones, postulanteId) == 1
      && s.fila.postulanteId == postulanteId && s.fila.estado == Ausente
      && s.fila.fechaDesistimiento == Some(now) && s.fila.observaciones == obs
      && (antes.Some? ==> s.fila.id == antes.value.id && s.fila.plazaId == antes.value.plazaId && s.serial == serial)
      && (antes.None? ==> s.fila.id == serial && s.fila.plazaId == None && s.serial == serial + 1)
      && (forall q: Id :: q != postulanteId ==> RowFor(s.tables.adjudicaciones, q) == RowFor(t.adjudicaciones, q))
      && (forall p: Id :: Asignados(s.tables.adjudicaciones, p) == Asignados(t.adjudicaciones, p))
      && Coherente(s.tables)
  {
    UpsertEfecto(t, serial, postulanteId, SetAusente(obs, now),
                 Adjudicacion(serial, postulanteId, None, Ausente, None, Some(now), obs));
    var s := AfterAusente(t, serial, postulanteId, obs, now).value;
    SinAsiento(t, s.tables.adjudicaciones, RowFor(t.adjudicaciones, postulanteId), s.fila);
  }

  /**
   * A successful `reasignar` turns the candidate's row back to 'pendiente'
   * with position and both dates cleared; no seat changes hands, and the
   * candidate can be assigned, marked absent or marked withdrawn again.
   */
  lemma ReasignarEfecto(t: Tables, serial: nat, postulanteId: Id, obs: Option<string>)
    requires Coherente(t)
    requires AfterReasignar(t, serial, postulanteId, obs).Success?
    ensures var s := AfterReasignar(t, serial, postulanteId, obs).value;
      var antes := RowFor(t.adjudicaciones, postulanteId);
      && antes.Some? && Reasignable(antes.value.estado)
      && s.tables == t.(adjudicaciones := s.tables.adjudicaciones) && s.serial == serial
      && RowFor(s.tables.adjudicaciones, postulanteId) == Some(s.fila)
      && FilasDe(s.tables.adjudicaciones, postulanteId) == 1
      && s.fila.id == antes.value.id && s.fila.postulanteId == postulanteId && s.fila.estado == Pendiente
      && s.fila.plazaId == None && s.fila.fechaAdjudicacion == None && s.fila.fechaDesistimiento == None
      && s.fila.observaciones == obs
      && EstadoOf(s.tables, postulanteId) == Some(Pendiente)
      && (forall q: Id :: q != postulanteId ==> RowFor(s.tables.adjudicaciones, q) == RowFor(t.adjudicaciones, q))
      && (forall p: Id :: Asignados(s.tables.adjudicaciones, p) == Asignados(t.adjudicaciones, p))
      && Coherente(s.tables)
  {
    var k := IndiceDe(t.adjudicaciones, postulanteId);
    var f := SetPendienteReasignado(obs);
    UpdateWhereSingle(t.adjudicaciones, (x: Adjudicacion) => x.postulanteId == postulanteId, f, k);
    ReemplazoEfecto(t.adjudicaciones, k, f(t.adjudicaciones[k]));
    var s := AfterReasignar(t, serial, postulanteId, obs).value;
    FilasDeUna(s.tables.adjudicaciones, postulanteId);
    SinAsiento(t, s.tables.adjudicaciones, RowFor(t.adjudicaciones, postulanteId), s.fila);
  }

  /**
   * A successful `revertirAdjudicacion` changes only the row with that id,
   * which was 'adjudicado', to 'pendiente' with position and assignment date
   * cleared and `fecha_desistimiento` kept; its seat is freed, and repeating
   * the call fails.
   */
  lemma RevertirEfecto(t: Tables, serial: nat, id: Id, obs: Option<string>, obs2: Option<string>)
    requires Coherente(t) && KeysUnique(t)
    requires AfterRevertir(t, serial, id, obs).Success?
    ensures var s := AfterRevertir(t, serial, id, obs).value;
      var pid := s.fila.postulanteId;
      var antes := RowFor(t.adjudicaciones, pid);
      && antes.Some? && antes.value.id == id && antes.value.estado == Adjudicado
      && s.tables == t.(adjudicaciones := s.tables.adjudicaciones) && s.serial == serial
      && |s.tables.adjudicaciones| == |t.adjudicaciones|
      && s.fila == antes.value.(estado := Pendiente, plazaId := None, fechaAdjudicacion := None, observaciones := obs)
      && RowFor(s.tables.adjudicaciones, pid) == Some(s.fila)
      && (forall q: Id :: q != pid ==> RowFor(s.tables.adjudicaciones, q) == RowFor(t.adjudicaciones, q))
      && (forall p: Id :: Asignados(s.tables.adjudicaciones, p) + Aporte(antes, p) == Asignados(t.adjudicaciones, p))
      && AfterRevertir(s.tables, s.serial, id, obs2).Failure?
      && KeysUnique(s.tables) && Coherente(s.tables)
  {
    var k := RevertirFila(t, serial, id, obs);
    var s := AfterRevertir(t, serial, id, obs).value;
    RevertidoTablas(t, k, s.fila, id);
  }

  /** Writing the reverted row over the revertible row `k` keeps the invariant and leaves nothing to revert. */
  lemma RevertidoTablas(t: Tables, k: nat, fila: Adjudicacion, id: Id)
    requires Coherente(t) && KeysUnique(t)
    requires k < |t.adjudicaciones| && t.adjudicaciones[k].id == id && t.adjudicaciones[k].estado == Adjudicado
    requires forall i :: 0 <= i < |t.adjudicaciones| && i != k ==> t.adjudicaciones[i].id != id
    requires fila == t.adjudicaciones[k].(estado := Pendiente, plazaId := None, fechaAdjudicacion := None,
                                           observaciones := fila.observaciones)
    ensures var u := t.(adjudicaciones := t.adjudicaciones[k := fila]);
      && RowFor(t.adjudicaciones, fila.postulanteId) == Some(t.adjudicaciones[k])
      && RowFor(u.adjudicaciones, fila.postulanteId) == Some(fila)
      && (forall q: Id :: q != fila.postulanteId ==> RowFor(u.adjudicaciones, q) == RowFor(t.adjudicaciones, q))
      && (forall p: Id :: Asignados(u.adjudicaciones, p) + Aporte(Some(t.adjudicaciones[k]), p)
                           == Asignados(t.adjudicaciones, p))
      && (forall i :: 0 <= i < |u.adjudicaciones| ==> !Revertible(u.adjudicaciones[i], id))
      && KeysUnique(u) && Coherente(u)
  {
    var u := t.(adjudicaciones := t.adjudicaciones[k := fila]);
    ReemplazoEfecto(t.adjudicaciones, k, fila);
    UniqueReplace(t.adjudicaciones, (x: Adjudicacion) => x.id, k, fila);
    assert KeysUnique(u);
    LiberaAsiento(t, u.adjudicaciones, Some(t.adjudicaciones[k]), fila);
    forall i | 0 <= i < |u.adjudicaciones| ensures !Revertible(u.adjudicaciones[i], id) {
      if i != k {
        assert u.adjudicaciones[i] == t.adjudicaciones[i];
      }
    }
  }

  /** The row a successful `revertirAdjudicacion` rewrites, and the tables it leaves. */
  lemma RevertirFila(t: Tables, serial: nat, id: Id, obs: Option<string>) returns (k: nat)
    requires KeysUnique(t) && AfterRevertir(t, serial, id, obs).Success?
    ensures k < |t.adjudicaciones| && t.adjudicaciones[k].id == id && t.adjudicaciones[k].estado == Adjudicado
    ensures forall i :: 0 <= i < |t.adjudicaciones| && i != k ==> t.adjudicaciones[i].id != id
    ensures var s := AfterRevertir(t, serial, id, obs).value;
      && s.fila == t.adjudicaciones[k].(estado := Pendiente, plazaId := None, fechaAdjudicacion := None, observaciones := obs)
      && s.tables == t.(adjudicaciones := t.adjudicaciones[k := s.fila]) && s.serial == serial
  {
    var f := SetPendienteRevertido(obs);
    k := FilaRevertible(t.adjudicaciones, id, f);
  }

  /** Ids are unique, so the UPDATE on the revertible row with that id rewrites just that one. */
  lemma FilaRevertible(adjs: seq<Adjudicacion>, id: Id, f: Adjudicacion -> Adjudicacion) returns (k: nat)
    requires Unique(adjs, (x: Adjudicacion) => x.id)
    requires First(adjs, (x: Adjudicacion) => Revertible(x, id)).Some?
    ensures k < |adjs| && adjs[k].id == id && adjs[k].estado == Adjudicado
    ensures First(adjs, (x: Adjudicacion) => Revertible(x, id)) == Some(adjs[k])
    ensures forall i :: 0 <= i < |adjs| && i != k ==> adjs[i].id != id
    ensures UpdateWhere(adjs, (x: Adjudicacion) => Revertible(x, id), f) == adjs[k := f(adjs[k])]
  {
    var a := First(adjs, (x: Adjudicacion) => Revertible(x, id)).value;
    k :| 0 <= k < |adjs| && adjs[k] == a;
    UniqueOnlyMatch(adjs, (x: Adjudicacion) => x.id, k);
    UpdateWhereSingle(adjs, (x: Adjudicacion) => Revertible(x, id), f, k);
  }

  // ---------------------------------------------------------------- bulk assignment, as functions

  /** A candidate and the position the bulk loop gives them. */
  datatype Asignacion = Asignacion(postulante: Postulante, plazaId: Id)

  /** `ORDER BY pos.orden_merito`. */
  function MeritoKey(p: Postulante): seq<Key>
  {
    [IntKey(p.ordenMerito)]
  }

  /** `ORDER BY red, ipress`. */
  function RedIpressKey(v: VistaRow): seq<Key>
  {
    [Str(v.red), Str(v.ipress)]
  }

  /** A candidate of the group with no row or a 'pendiente' row. */
  predicate PendienteDe(t: Tables, p: Postulante, grupoId: Id)
  {
    p.grupoId == grupoId && (EstadoOf(t, p.id) == None || EstadoOf(t, p.id) == Some(Pendiente))
  }

  /** The group's eligible candidates, in table order. */
  function Pendientes(t: Tables, grupoId: Id): seq<Postulante>
  {
    Filter(t.postulantes, (p: Postulante) => PendienteDe(t, p, grupoId))
  }

  /**
   * The bulk loop's first query: the group's eligible candidates in merit
   * order, the first `cantidad` of them.
   */
  function CandidatosMasiva(t: Tables, grupoId: Id, cantidad: int): (r: seq<Postulante>)
    ensures SortedBy(r, MeritoKey)
    ensures forall i :: 0 <= i < |r| ==> r[i] in t.postulantes && PendienteDe(t, r[i], grupoId)
    ensures |r| == if cantidad <= 0 then 0
                   else if cantidad < |Pendientes(t, grupoId)| then cantidad
                   else |Pendientes(t, grupoId)|
  {
    var ordenados := SortBy(Pendientes(t, grupoId), MeritoKey);
    SortByMembers(Pendientes(t, grupoId), MeritoKey);
    TakeSorted(ordenados, MeritoKey, cantidad);
    Take(ordenados, cantidad)
  }

  /** The ids of view rows. */
  function IdsDe(vs: seq<VistaRow>): (r: seq<Id>)
    ensures |r| == |vs| && forall i :: 0 <= i < |vs| ==> r[i] == vs[i].id
  {
    seq(|vs|, i requires 0 <= i < |vs| => vs[i].id)
  }

  /** The view rows of the group's positions with a free seat, ordered by red and IPRESS. */
  function PlazasLibresDe(t: Tables, g: Grupo): seq<VistaRow>
  {
    SortBy(Filter(Vista(t), (v: VistaRow) => v.grupoOcupacional == g.nombre && v.libres > 0), RedIpressKey)
  }

  /**
   * The bulk loop's second query: positions of the group, by the group's
   * name, with `libres > 0`, ordered by red and IPRESS. An unknown group
   * makes the subquery NULL, which matches nothing.
   */
  function PlazasMasiva(t: Tables, grupoId: Id): seq<Id>
  {
    match FindGrupo(t, grupoId)
    case None => []
    case Some(g) => IdsDe(PlazasLibresDe(t, g))
  }

  /**
   * The pairs the loop commits. A candidate whose write fails (`rechaza`) is
   * skipped and the position is offered to the next one; the loop stops when
   * positions or candidates run out.
   */
  function Emparejar(cs: seq<Postulante>, ps: seq<Id>, rechaza: (Id, Id) -> bool): (r: seq<Asignacion>)
    ensures |r| <= |cs| && |r| <= |ps|
    ensures forall i :: 0 <= i < |r| ==> r[i].plazaId == ps[i]
    ensures forall i :: 0 <= i < |r| ==> r[i].postulante in cs
    decreases |cs|
  {
    if cs == [] || ps == [] then []
    else if rechaza(cs[0].id, ps[0]) then Emparejar(cs[1..], ps, rechaza)
    else
      var rest := Emparejar(cs[1..], ps[1..], rechaza);
      assert forall i :: 1 <= i < |rest| + 1 ==> ([Asignacion(cs[0], ps[0])] + rest)[i] == rest[i - 1];
      [Asignacion(cs[0], ps[0])] + rest
  }

  /** What the bulk loop has written so far: the tables, the rows it collected, the next id. */
  datatype Lote = Lote(tables: Tables, filas: seq<Adjudicacion>, serial: nat)

  /** One committed pair: the UPDATE or INSERT of `adjudicarAutomatico`, with the fixed remark. */
  function PasoMasivo(l: Lote, par: Asignacion, now: Time): Lote
  {
    var s := Upsert(l.tables, l.serial, par.postulante.id, SetAdjudicado(par.plazaId, Some(ObsMasiva), now),
                    Adjudicacion(l.serial, par.postulante.id, Some(par.plazaId), Adjudicado, Some(now), None,
                                 Some(ObsMasiva)));
    Lote(s.tables, l.filas + [s.fila], s.serial)
  }

  /** The pairs written in order. */
  function AplicarMasiva(t: Tables, serial: nat, pares: seq<Asignacion>, now: Time): Lote
    decreases |pares|
  {
    if pares == [] then Lote(t, [], serial)
    else PasoMasivo(AplicarMasiva(t, serial, pares[..|pares| - 1], now), pares[|pares| - 1], now)
  }

  /** Each written pair contributes one returned row. */
  lemma {:induction false} AplicarMasivaLongitud(t: Tables, serial: nat, pares: seq<Asignacion>, now: Time)
    ensures |AplicarMasiva(t, serial, pares, now).filas| == |pares|
    decreases |pares|
  {
    if pares != [] {
      AplicarMasivaLongitud(t, serial, pares[..|pares| - 1], now);
    }
  }

  /** `procesarAdjudicacionesMasivas`. */
  function AfterMasiva(t: Tables, serial: nat, grupoId: Id, cantidad: int, now: Time, rechaza: (Id, Id) -> bool)
    : (r: Result<Lote, string>)
    ensures r.Failure? <==> PlazasMasiva(t, grupoId) == []
    ensures r.Failure? ==> r.error == MsgSinPlazasGrupo
  {
    var cs := CandidatosMasiva(t, grupoId, cantidad);
    var ps := PlazasMasiva(t, grupoId);
    if ps == [] then Failure(MsgSinPlazasGrupo)
    else Success(AplicarMasiva(t, serial, Emparejar(cs, ps, rechaza), now))
  }

  // ---------------------------------------------------------------- bulk assignment, properties

  /** Without failed writes, the loop pairs as many candidates as there are candidates or positions. */
  lemma {:induction false} EmparejarSinRechazos(cs: seq<Postulante>, ps: seq<Id>, rechaza: (Id, Id) -> bool)
    requires forall i, j :: 0 <= i < |cs| && 0 <= j < |ps| ==> !rechaza(cs[i].id, ps[j])
    ensures |Emparejar(cs, ps, rechaza)| == if |cs| < |ps| then |cs| else |ps|
    decreases |cs|
  {
    if cs != [] && ps != [] {
      assert !rechaza(cs[0].id, ps[0]);
      forall i, j | 0 <= i < |cs[1..]| && 0 <= j < |ps[1..]| ensures !rechaza(cs[1..][i].id, ps[1..][j]) {
        assert cs[1..][i] == cs[i + 1] && ps[1..][j] == ps[j + 1];
      }
      EmparejarSinRechazos(cs[1..], ps[1..], rechaza);
    }
  }

  /** Candidates are served in the order they come: merit order in, merit order out. */
  lemma {:induction false} EmparejarOrden(cs: seq<Postulante>, ps: seq<Id>, rechaza: (Id, Id) -> bool)
    requires SortedBy(cs, MeritoKey)
    ensures SortedBy(Emparejar(cs, ps, rechaza), (a: Asignacion) => MeritoKey(a.postulante))
    decreases |cs|
  {
    if cs != [] && ps != [] {
      SortedTail(cs, MeritoKey);
      if rechaza(cs[0].id, ps[0]) {
        EmparejarOrden(cs[1..], ps, rechaza);
      } else {
        EmparejarOrden(cs[1..], ps[1..], rechaza);
        var rest := Emparejar(cs[1..], ps[1..], rechaza);
        forall j | 0 <= j < |rest| ensures TupleLe(MeritoKey(cs[0]), MeritoKey(rest[j].postulante)) {
          var k :| 0 <= k < |cs[1..]| && cs[1..][k] == rest[j].postulante;
        }
        SortedPrepend(Asignacion(cs[0], ps[0]), rest, (a: Asignacion) => MeritoKey(a.postulante));
      }
    }
  }

  /** Distinct candidates in, distinct candidates out. */
  lemma {:induction false} EmparejarDistintos(cs: seq<Postulante>, ps: seq<Id>, rechaza: (Id, Id) -> bool)
    requires Unique(cs, (p: Postulante) => p.id)
    ensures Unique(Emparejar(cs, ps, rechaza), (a: Asignacion) => a.postulante.id)
    decreases |cs|
  {
    if cs != [] && ps != [] {
      UniqueTail(cs, (p: Postulante) => p.id);
      if rechaza(cs[0].id, ps[0]) {
        EmparejarDistintos(cs[1..], ps, rechaza);
      } else {
        EmparejarDistintos(cs[1..], ps[1..], rechaza);
        var rest := Emparejar(cs[1..], ps[1..], rechaza);
        forall j | 0 <= j < |rest| ensures rest[j].postulante.id != cs[0].id {
          var k :| 0 <= k < |cs[1..]| && cs[1..][k] == rest[j].postulante;
          assert cs[k + 1] == rest[j].postulante;
        }
        UniquePrepend(Asignacion(cs[0], ps[0]), rest, (a: Asignacion) => a.postulante.id);
      }
    }
  }

  /** The bulk loop never makes more assignments than `cantidad`, eligible candidates or free positions. */
  lemma MasivaCotas(t: Tables, grupoId: Id, cantidad: int, rechaza: (Id, Id) -> bool)
    ensures var pares := Emparejar(CandidatosMasiva(t, grupoId, cantidad), PlazasMasiva(t, grupoId), rechaza);
      && |pares| <= |PlazasMasiva(t, grupoId)|
      && |pares| <= CountWhere(t.postulantes, (p: Postulante) => PendienteDe(t, p, grupoId))
      && (cantidad >= 0 ==> |pares| <= cantidad)
  {
    CountIsFilterLength(t.postulantes, (p: Postulante) => PendienteDe(t, p, grupoId));
  }

  /** The positions the loop offers are distinct, exist, have a free seat, and belong to the group by name. */
  lemma PlazasMasivaHechos(t: Tables, grupoId: Id)
    requires KeysUnique(t)
    ensures var ps := PlazasMasiva(t, grupoId);
      && Distinct(ps)
      && forall i :: 0 <= i < |ps| ==> FindPlaza(t, ps[i]).Some? && Libres(t, ps[i]) > 0
  {
    match FindGrupo(t, grupoId)
    case None =>
    case Some(g) =>
      var cond := (v: VistaRow) => v.grupoOcupacional == g.nombre && v.libres > 0;
      var filtradas := Filter(Vista(t), cond);
      var vs := PlazasLibresDe(t, g);
      VistaUnica(t);
      UniqueSelection(Vista(t), vs, (v: VistaRow) => v.id);
      SortByMembers(filtradas, RedIpressKey);
      var ps := IdsDe(vs);
      forall i, j | 0 <= i < j < |ps| ensures ps[i] != ps[j] {
        assert ps[i] == vs[i].id && ps[j] == vs[j].id;
      }
      forall i | 0 <= i < |ps| ensures FindPlaza(t, ps[i]).Some? && Libres(t, ps[i]) > 0 {
        assert vs[i] in vs;
        VistaLibres(t, vs[i]);
      }
  }

  /** The candidates the loop considers are distinct rows of the table, each with no row or a 'pendiente' row. */
  lemma CandidatosMasivaHechos(t: Tables, grupoId: Id, cantidad: int)
    requires KeysUnique(t)
    ensures Unique(CandidatosMasiva(t, grupoId, cantidad), (p: Postulante) => p.id)
  {
    var ordenados := SortBy(Pendientes(t, grupoId), MeritoKey);
    UniqueSelection(t.postulantes, ordenados, (p: Postulante) => p.id);
    var cs := CandidatosMasiva(t, grupoId, cantidad);
    assert cs == ordenados[..|cs|];
    forall i, j | 0 <= i < j < |cs| ensures cs[i].id != cs[j].id {
      assert cs[i] == ordenados[i] && cs[j] == ordenados[j];
    }
  }

  /** How many pairs name position `plazaId`. */
  function Usos(pares: seq<Asignacion>, plazaId: Id): nat
  {
    CountWhere(pares, (a: Asignacion) => a.plazaId == plazaId)
  }

  /** The row the bulk loop writes for a pair. */
  predicate FilaMasiva(f: Adjudicacion, par: Asignacion, now: Time)
  {
    && f.postulanteId == par.postulante.id && f.plazaId == Some(par.plazaId) && f.estado == Adjudicado
    && f.fechaAdjudicacion == Some(now) && f.observaciones == Some(ObsMasiva)
  }

  /**
   * What one committed pair does to the batch `l`, giving `m`: only the seat
   * table changes, one row is appended for the candidate, and that row is
   * now theirs while every other candidate's row stays as it was.
   */
  ghost predicate PasoHecho(l: Lote, m: Lote, par: Asignacion, now: Time)
  {
    && m.tables == l.tables.(adjudicaciones := m.tables.adjudicaciones)
    && UnaFilaPorPostulante(m.tables.adjudicaciones)
    && |m.filas| == |l.filas| + 1 && m.filas[..|l.filas|] == l.filas
    && FilaMasiva(m.filas[|l.filas|], par, now)
    && RowFor(m.tables.adjudicaciones, par.postulante.id) == Some(m.filas[|l.filas|])
    && (forall q: Id :: q != par.postulante.id ==> RowFor(m.tables.adjudicaciones, q) == RowFor(l.tables.adjudicaciones, q))
  }

  /** One committed pair for a candidate who holds no seat writes their row as `PasoHecho` says. */
  lemma PasoMasivoEfecto(l: Lote, par: Asignacion, now: Time)
    requires UnaFilaPorPostulante(l.tables.adjudicaciones)
    requires EstadoOf(l.tables, par.postulante.id) != Some(Adjudicado)
    ensures PasoHecho(l, PasoMasivo(l, par, now), par, now)
  {
    var c := par.postulante.id;
    UpsertEfecto(l.tables, l.serial, c, SetAdjudicado(par.plazaId, Some(ObsMasiva), now),
                 Adjudicacion(l.serial, c, Some(par.plazaId), Adjudicado, Some(now), None, Some(ObsMasiva)));
    var m := PasoMasivo(l, par, now);
    assert m.filas[..|l.filas|] == l.filas;
  }

  /** One committed pair for a candidate who holds no seat takes one seat of the pair's position. */
  lemma PasoMasivoAsientos(l: Lote, par: Asignacion, now: Time)
    requires UnaFilaPorPostulante(l.tables.adjudicaciones)
    requires EstadoOf(l.tables, par.postulante.id) != Some(Adjudicado)
    ensures var m := PasoMasivo(l, par, now);
      forall p: Id :: Asignados(m.tables.adjudicaciones, p)
                      == Asignados(l.tables.adjudicaciones, p) + (if par.plazaId == p then 1 else 0)
  {
    var c := par.postulante.id;
    UpsertEfecto(l.tables, l.serial, c, SetAdjudicado(par.plazaId, Some(ObsMasiva), now),
                 Adjudicacion(l.serial, c, Some(par.plazaId), Adjudicado, Some(now), None, Some(ObsMasiva)));
  }

  /** The conditions under which the bulk writes are well behaved: distinct candidates, none holding a seat. */
  predicate ParesLibres(t: Tables, pares: seq<Asignacion>)
  {
    && Unique(pares, (a: Asignacion) => a.postulante.id)
    && forall i :: 0 <= i < |pares| ==> EstadoOf(t, pares[i].postulante.id) != Some(Adjudicado)
  }

  /** Dropping the last pair keeps the conditions, and the last candidate is none of the earlier ones. */
  lemma ParesLibresPrefijo(t: Tables, pares: seq<Asignacion>)
    requires ParesLibres(t, pares) && pares != []
    ensures ParesLibres(t, pares[..|pares| - 1])
    ensures forall i :: 0 <= i < |pares| - 1 ==> pares[i].postulante.id != pares[|pares| - 1].postulante.id
  {
    var previos := pares[..|pares| - 1];
    forall i, j | 0 <= i < j < |previos| ensures previos[i].postulante.id != previos[j].postulante.id {
      assert previos[i] == pares[i] && previos[j] == pares[j];
    }
    forall i | 0 <= i < |previos| ensures pares[i].postulante.id != pares[|pares| - 1].postulante.id {
      assert previos[i] == pares[i];
    }
  }

  /**
   * What writing the pairs `pares` from `t` leaves in the batch `l`: only the
   * seat table changes, each candidate ends with exactly the row returned for
   * them, and other candidates' rows are untouched.
   */
  ghost predicate FilasMasivas(t: Tables, pares: seq<Asignacion>, l: Lote, now: Time)
  {
    && l.tables == t.(adjudicaciones := l.tables.adjudicaciones)
    && UnaFilaPorPostulante(l.tables.adjudicaciones)
    && |l.filas| == |pares|
    && (forall i :: 0 <= i < |pares| ==>
          FilaMasiva(l.filas[i], pares[i], now)
          && RowFor(l.tables.adjudicaciones, pares[i].postulante.id) == Some(l.filas[i]))
    && (forall q: Id :: (forall i :: 0 <= i < |pares| ==> pares[i].postulante.id != q) ==>
          RowFor(l.tables.adjudicaciones, q) == RowFor(t.adjudicaciones, q))
  }

  /** Writing distinct candidates none of whom holds a seat behaves as `FilasMasivas` says. */
  lemma {:induction false} AplicarMasivaFilas(t: Tables, serial: nat, pares: seq<Asignacion>, now: Time)
    requires UnaFilaPorPostulante(t.adjudicaciones) && ParesLibres(t, pares)
    ensures FilasMasivas(t, pares, AplicarMasiva(t, serial, pares, now), now)
    decreases |pares|
  {
    if pares != [] {
      var n := |pares| - 1;
      var previos := pares[..n];
      var par := pares[n];
      ParesLibresPrefijo(t, pares);
      AplicarMasivaFilas(t, serial, previos, now);
      var antes := AplicarMasiva(t, serial, previos, now);
      FilasMasivasFuera(t, previos, antes, now, par.postulante.id);
      PasoMasivoEfecto(antes, par, now);
      var l := AplicarMasiva(t, serial, pares, now);
      assert l == PasoMasivo(antes, par, now);
      AplicarMasivaFilasPaso(t, antes, l, pares, now);
    }
  }

  /** A candidate named by no pair keeps the row they had before the writes. */
  lemma FilasMasivasFuera(t: Tables, pares: seq<Asignacion>, l: Lote, now: Time, q: Id)
    requires FilasMasivas(t, pares, l, now)
    requires forall i :: 0 <= i < |pares| ==> pares[i].postulante.id != q
    ensures RowFor(l.tables.adjudicaciones, q) == RowFor(t.adjudicaciones, q)
    ensures EstadoOf(l.tables, q) == EstadoOf(t, q)
  {
  }

  /** The inductive step of `AplicarMasivaFilas`, from the facts about the prefix and the last write. */
  lemma AplicarMasivaFilasPaso(t: Tables, antes: Lote, l: Lote, pares: seq<Asignacion>, now: Time)
    requires pares != []
    requires FilasMasivas(t, pares[..|pares| - 1], antes, now)
    requires PasoHecho(antes, l, pares[|pares| - 1], now)
    requires forall i :: 0 <= i < |pares| - 1 ==> pares[i].postulante.id != pares[|pares| - 1].postulante.id
    ensures FilasMasivas(t, pares, l, now)
  {
    var n := |pares| - 1;
    var previos := pares[..n];
    assert forall i :: 0 <= i < n ==> previos[i] == pares[i];
    forall i | 0 <= i < |pares|
      ensures FilaMasiva(l.filas[i], pares[i], now)
      ensures RowFor(l.tables.adjudicaciones, pares[i].postulante.id) == Some(l.filas[i])
    {
      if i < n {
        assert l.filas[i] == l.filas[..n][i] == antes.filas[i];
      }
    }
    forall q: Id | forall i :: 0 <= i < |pares| ==> pares[i].postulante.id != q
      ensures RowFor(l.tables.adjudicaciones, q) == RowFor(t.adjudicaciones, q)
    {
      assert pares[n].postulante.id != q;
    }
  }

  /** Writing distinct candidates none of whom holds a seat: each position gains one seat per pair naming it. */
  lemma {:induction false} AplicarMasivaAsientos(t: Tables, serial: nat, pares: seq<Asignacion>, now: Time)
    requires UnaFilaPorPostulante(t.adjudicaciones) && ParesLibres(t, pares)
    ensures var l := AplicarMasiva(t, serial, pares, now);
      forall p: Id :: Asignados(l.tables.adjudicaciones, p) == Asignados(t.adjudicaciones, p) + Usos(pares, p)
    decreases |pares|
  {
    if pares != [] {
      var n := |pares| - 1;
      var previos := pares[..n];
      var par := pares[n];
      assert pares == previos + [par];
      ParesLibresPrefijo(t, pares);
      assert forall i :: 0 <= i < |previos| ==> previos[i] == pares[i];
      AplicarMasivaAsientos(t, serial, previos, now);
      AplicarMasivaFilas(t, serial, previos, now);
      var antes := AplicarMasiva(t, serial, previos, now);
      FilasMasivasFuera(t, previos, antes, now, par.postulante.id);
      PasoMasivoAsientos(antes, par, now);
      forall p: Id ensures Usos(pares, p) == Usos(previos, p) + (if par.plazaId == p then 1 else 0) {
        CountAppend(previos, (a: Asignacion) => a.plazaId == p, par);
      }
    }
  }

  /**
   * A successful bulk run gives each paired candidate exactly one row,
   * 'adjudicado' at their position, returns those rows in pairing order,
   * takes one seat of each position it uses and no other, and keeps the
   * invariant: no position ends over its seats.
   */
  lemma MasivaEfecto(t: Tables, serial: nat, grupoId: Id, cantidad: int, now: Time, rechaza: (Id, Id) -> bool)
    requires Coherente(t) && KeysUnique(t)
    requires AfterMasiva(t, serial, grupoId, cantidad, now, rechaza).Success?
    ensures EfectoMasivo(t, Emparejar(CandidatosMasiva(t, grupoId, cantidad), PlazasMasiva(t, grupoId), rechaza),
                         AfterMasiva(t, serial, grupoId, cantidad, now, rechaza).value)
  {
    var cs := CandidatosMasiva(t, grupoId, cantidad);
    var ps := PlazasMasiva(t, grupoId);
    var pares := Emparejar(cs, ps, rechaza);
    ParesMasivaLibres(t, grupoId, cantidad, rechaza);
    PlazasMasivaHechos(t, grupoId);
    assert AfterMasiva(t, serial, grupoId, cantidad, now, rechaza).value == AplicarMasiva(t, serial, pares, now);
    MasivaSobrePares(t, serial, pares, ps, now);
  }

  /**
   * What a committed bulk run `l` did with its pairs: only the assignments
   * table changed; one row comes back per pair, in pairing order, each the
   * candidate's only row, 'adjudicado' at the pair's position; each position
   * gained exactly the seats its pairs took; and no position is over its seats.
   */
  ghost predicate EfectoMasivo(t: Tables, pares: seq<Asignacion>, l: Lote)
  {
    && l.tables == t.(adjudicaciones := l.tables.adjudicaciones)
    && |l.filas| == |pares|
    && (forall i :: 0 <= i < |pares| ==>
          && l.filas[i].postulanteId == pares[i].postulante.id && l.filas[i].plazaId == Some(pares[i].plazaId)
          && l.filas[i].estado == Adjudicado
          && RowFor(l.tables.adjudicaciones, pares[i].postulante.id) == Some(l.filas[i]))
    && (forall p: Id :: Asignados(l.tables.adjudicaciones, p) == Asignados(t.adjudicaciones, p) + Usos(pares, p))
    && Coherente(l.tables)
  }

  /** The bulk run's pairs are of distinct candidates, none of them already 'adjudicado'. */
  lemma ParesMasivaLibres(t: Tables, grupoId: Id, cantidad: int, rechaza: (Id, Id) -> bool)
    requires KeysUnique(t)
    ensures ParesLibres(t, Emparejar(CandidatosMasiva(t, grupoId, cantidad), PlazasMasiva(t, grupoId), rechaza))
  {
    var cs := CandidatosMasiva(t, grupoId, cantidad);
    var ps := PlazasMasiva(t, grupoId);
    var pares := Emparejar(cs, ps, rechaza);
    CandidatosMasivaHechos(t, grupoId, cantidad);
    EmparejarDistintos(cs, ps, rechaza);
    EmparejarPendientes(t, grupoId, cs, ps, rechaza);
  }

  /** Pairs drawn from eligible candidates name only candidates who hold no seat. */
  lemma EmparejarPendientes(t: Tables, grupoId: Id, cs: seq<Postulante>, ps: seq<Id>, rechaza: (Id, Id) -> bool)
    requires forall i :: 0 <= i < |cs| ==> PendienteDe(t, cs[i], grupoId)
    ensures var pares := Emparejar(cs, ps, rechaza);
      forall i :: 0 <= i < |pares| ==> EstadoOf(t, pares[i].postulante.id) != Some(Adjudicado)
  {
    var pares := Emparejar(cs, ps, rechaza);
    forall i | 0 <= i < |pares| ensures EstadoOf(t, pares[i].postulante.id) != Some(Adjudicado) {
      var c := pares[i].postulante;
      assert c in cs;
      var k :| 0 <= k < |cs| && cs[k] == c;
      assert PendienteDe(t, cs[k], grupoId);
    }
  }

  /** The bulk writes of pairs that satisfy what the two queries guarantee. */
  lemma MasivaSobrePares(t: Tables, serial: nat, pares: seq<Asignacion>, ps: seq<Id>, now: Time)
    requires Coherente(t) && ParesLibres(t, pares)
    requires |pares| <= |ps| && Distinct(ps)
    requires forall i :: 0 <= i < |pares| ==> pares[i].plazaId == ps[i]
    requires forall i :: 0 <= i < |ps| ==> Libres(t, ps[i]) > 0
    ensures EfectoMasivo(t, pares, AplicarMasiva(t, serial, pares, now))
  {
    AplicarMasivaFilas(t, serial, pares, now);
    AplicarMasivaAsientos(t, serial, pares, now);
    MasivaCapacidad(t, pares, ps);
    var l := AplicarMasiva(t, serial, pares, now);
    forall p: Id ensures Asignados(l.tables.adjudicaciones, p) <= Total(l.tables, p) {
      assert Total(l.tables, p) == Total(t, p);
    }
  }

  /** Pairs that use distinct positions with a free seat each, one position per pair, overfill none. */
  lemma MasivaCapacidad(t: Tables, pares: seq<Asignacion>, ps: seq<Id>)
    requires Coherente(t)
    requires |pares| <= |ps| && Distinct(ps)
    requires forall i :: 0 <= i < |pares| ==> pares[i].plazaId == ps[i]
    requires forall i :: 0 <= i < |ps| ==> Libres(t, ps[i]) > 0
    ensures forall p: Id :: Asignados(t.adjudicaciones, p) + Usos(pares, p) <= Total(t, p)
  {
    assert Unique(pares, (a: Asignacion) => a.plazaId) by {
      forall i, j | 0 <= i < j < |pares| ensures pares[i].plazaId != pares[j].plazaId {
        assert pares[i].plazaId == ps[i] && pares[j].plazaId == ps[j];
      }
    }
    forall p: Id ensures Asignados(t.adjudicaciones, p) + Usos(pares, p) <= Total(t, p) {
      var usa := (a: Asignacion) => a.plazaId == p;
      CountUniqueAtMostOne(pares, (a: Asignacion) => a.plazaId, usa);
      CountPositiveIff(pares, usa);
      assert Usos(pares, p) <= 1;
      if Usos(pares, p) > 0 {
        var i :| 0 <= i < |pares| && usa(pares[i]);
        assert ps[i] == p;
        assert Libres(t, p) > 0;
      }
    }
  }

  // ---------------------------------------------------------------- the model's methods

  /** What a call leaves behind: the tables, the next id and what the caller gets back. */
  function Efecto(r: Result<Paso, string>, t: Tables, serial: nat): (Tables, nat, Result<Adjudicacion, string>)
  {
    match r
    case Failure(e) => (t, serial, Failure(e))
    case Success(p) => (p.tables, p.serial, Success(p.fila))
  }

  /** `UPDATE adjudicaciones SET f WHERE postulante_id = $1 RETURNING *`, or the INSERT of `nueva`. */
  method GuardarFila(db: Database, postulanteId: Id, f: Adjudicacion -> Adjudicacion, nueva: Adjudicacion)
    returns (fila: Adjudicacion)
    requires db.Valid()
    requires nueva.id == db.serial
    requires forall a: Adjudicacion :: f(a).id == a.id
    modifies db
    ensures db.Valid()
    ensures var s := Upsert(old(db.tables), old(db.serial), postulanteId, f, nueva);
      db.tables == s.tables && db.serial == s.serial && fila == s.fila
  {
    var adjs := db.tables.adjudicaciones;
    var existente := RowFor(adjs, postulanteId);
    if existente.Some? {
      var nuevas := UpdateWhere(adjs, (x: Adjudicacion) => x.postulanteId == postulanteId, f);
      UniqueSameKeys(adjs, nuevas, (x: Adjudicacion) => x.id);
      db.tables := db.tables.(adjudicaciones := nuevas);
      fila := f(existente.value);
    } else {
      UniqueAppend(adjs, (x: Adjudicacion) => x.id, nueva);
      db.tables := db.tables.(adjudicaciones := adjs + [nueva]);
      db.serial := db.serial + 1;
      fila := nueva;
    }
  }

  /** `UPDATE adjudicaciones SET f WHERE p RETURNING *`: the first rewritten row, if any. */
  method ActualizarDonde(db: Database, p: Adjudicacion -> bool, f: Adjudicacion -> Adjudicacion)
    returns (fila: Option<Adjudicacion>)
    requires db.Valid()
    requires forall a: Adjudicacion :: f(a).id == a.id
    modifies db
    ensures db.Valid() && db.serial == old(db.serial)
    ensures db.tables == old(db.tables).(adjudicaciones := UpdateWhere(old(db.tables.adjudicaciones), p, f))
    ensures fila == match First(old(db.tables.adjudicaciones), p)
                    case None => None
                    case Some(a) => Some(f(a))
  {
    var adjs := db.tables.adjudicaciones;
    var nuevas := UpdateWhere(adjs, p, f);
    UniqueSameKeys(adjs, nuevas, (x: Adjudicacion) => x.id);
    db.tables := db.tables.(adjudicaciones := nuevas);
    var primera := First(adjs, p);
    fila := if primera.Some? then Some(f(primera.value)) else None;
  }

  /** `adjudicarAutomatico`: validate, then UPDATE or INSERT the candidate's row. */
  method AdjudicarAutomatico(db: Database, postulanteId: Id, plazaId: Id, observaciones: Option<string>, now: Time)
    returns (r: Result<Adjudicacion, string>)
    requires db.Valid()
    modifies db
    ensures db.Valid()
    ensures (db.tables, db.serial, r)
            == Efecto(AfterAdjudicar(old(db.tables), old(db.serial), postulanteId, plazaId, observaciones, now),
                      old(db.tables), old(db.serial))
  {
    var validacion := ValidarAdjudicacion(db.tables, postulanteId, plazaId);
    if !validacion.valido {
      return Failure(validacion.mensaje);
    }
    var fila := GuardarFila(db, postulanteId, SetAdjudicado(plazaId, observaciones, now),
                            Adjudicacion(db.serial, postulanteId, Some(plazaId), Adjudicado, Some(now), None,
                                         observaciones));
    r := Success(fila);
  }

  /** `marcarDesistido`. */
  method MarcarDesistido(db: Database, postulanteId: Id, observaciones: Option<string>, now: Time)
    returns (r: Result<Adjudicacion, string>)
    requires db.Valid()
    modifies db
    ensures db.Valid()
    ensures (db.tables, db.serial, r)
            == Efecto(AfterDesistido(old(db.tables), old(db.serial), postulanteId, observaciones, now),
                      old(db.tables), old(db.serial))
  {
    if FindPostulante(db.tables, postulanteId).None? {
      return Failure(MsgPostulanteNoEncontrado);
    }
    if EstadoOf(db.tables, postulanteId) == Some(Adjudicado) {
      return Failure(MsgDesistirAdjudicado);
    }
    var fila := GuardarFila(db, postulanteId, SetDesistido(observaciones, now),
                            Adjudicacion(db.serial, postulanteId, None, Desistido, None, Some(now), observaciones));
    r := Success(fila);
  }

  /** `marcarRenuncia`. */
  method MarcarRenuncia(db: Database, postulanteId: Id, observaciones: Option<string>, now: Time)
    returns (r: Result<Adjudicacion, string>)
    requires db.Valid()
    modifies db
    ensures db.Valid()
    ensures (db.tables, db.serial, r)
            == Efecto(AfterRenuncia(old(db.tables), old(db.serial), postulanteId, observaciones, now),
                      old(db.tables), old(db.serial))
  {
    var activa := First(db.tables.adjudicaciones, (x: Adjudicacion) => Activa(x, postulanteId));
    if activa.None? {
      return Failure(MsgSinActiva);
    }
    var fila := ActualizarDonde(db, (x: Adjudicacion) => Activa(x, postulanteId), SetRenuncio(observaciones, now));
    r := Success(fila.value);
  }

  /** `marcarAusente`. */
  method MarcarAusente(db: Database, postulanteId: Id, observaciones: Option<string>, now: Time)
    returns (r: Result<Adjudicacion, string>)
    requires db.Valid()
    modifies db
    ensures db.Valid()
    ensures (db.tables, db.serial, r)
            == Efecto(AfterAusente(old(db.tables), old(db.serial), postulanteId, observaciones, now),
                      old(db.tables), old(db.serial))
  {
    if FindPostulante(db.tables, postulanteId).None? {
      return Failure(MsgPostulanteNoEncontrado);
    }
    var estado := EstadoOf(db.tables, postulanteId);
    if estado.Some? && estado != Some(Pendiente) {
      return Failure(MsgAusenteNoPendiente);
    }
    var fila := GuardarFila(db, postulanteId, SetAusente(observaciones, now),
                            Adjudicacion(db.serial, postulanteId, None, Ausente, None, Some(now), observaciones));
    r := Success(fila);
  }

  /** `reasignar`. */
  method Reasignar(db: Database, postulanteId: Id, observaciones: Option<string>)
    returns (r: Result<Adjudicacion, string>)
    requires db.Valid()
    modifies db
    ensures db.Valid()
    ensures (db.tables, db.serial, r)
            == Efecto(AfterReasignar(old(db.tables), old(db.serial), postulanteId, observaciones),
                      old(db.tables), old(db.serial))
  {
    if FindPostulante(db.tables, postulanteId).None? {
      return Failure(MsgPostulanteNoEncontrado);
    }
    var actual := RowFor(db.tables.adjudicaciones, postulanteId);
    if actual.None? {
      return Failure(MsgSinRegistro);
    }
    if !Reasignable(actual.value.estado) {
      return Failure(MsgReasignarDesde + EstadoText(actual.value.estado));
    }
    var fila := ActualizarDonde(db, (x: Adjudicacion) => x.postulanteId == postulanteId,
                                SetPendienteReasignado(observaciones));
    r := Success(fila.value);
  }

  /** `revertirAdjudicacion`: the UPDATE runs first; no rewritten row means failure. */
  method RevertirAdjudicacion(db: Database, adjudicacionId: Id, observaciones: Option<string>)
    returns (r: Result<Adjudicacion, string>)
    requires db.Valid()
    modifies db
    ensures db.Valid()
    ensures (db.tables, db.serial, r)
            == Efecto(AfterRevertir(old(db.tables), old(db.serial), adjudicacionId, observaciones),
                      old(db.tables), old(db.serial))
  {
    ghost var antes := db.tables.adjudicaciones;
    var fila := ActualizarDonde(db, (x: Adjudicacion) => Revertible(x, adjudicacionId),
                                SetPendienteRevertido(observaciones));
    if fila.None? {
      UpdateWhereNone(antes, (x: Adjudicacion) => Revertible(x, adjudicacionId), SetPendienteRevertido(observaciones));
      return Failure(MsgSinActivaRevertir);
    }
    r := Success(fila.value);
  }

  /** One step of the pairing, as the loop takes it. */
  lemma EmparejarPaso(cs: seq<Postulante>, ps: seq<Id>, rechaza: (Id, Id) -> bool)
    requires cs != [] && ps != []
    ensures Emparejar(cs, ps, rechaza)
            == if rechaza(cs[0].id, ps[0]) then Emparejar(cs[1..], ps, rechaza)
               else [Asignacion(cs[0], ps[0])] + Emparejar(cs[1..], ps[1..], rechaza)
  {
  }

  /** The cursor state of the bulk loop: what is left to pair yields exactly the pairs not yet written. */
  ghost predicate Cursor(cs: seq<Postulante>, ps: seq<Id>, i: nat, j: nat, todos: seq<Asignacion>,
                         rechaza: (Id, Id) -> bool)
  {
    i <= |cs| && j <= |ps| && j <= |todos| && Emparejar(cs[i..], ps[j..], rechaza) == todos[j..]
  }

  /** A refused write moves the candidate cursor only; an accepted one moves both and is the next pair. */
  lemma CursorAvanza(cs: seq<Postulante>, ps: seq<Id>, i: nat, j: nat, todos: seq<Asignacion>,
                     rechaza: (Id, Id) -> bool)
    requires Cursor(cs, ps, i, j, todos, rechaza) && i < |cs| && j < |ps|
    ensures rechaza(cs[i].id, ps[j]) ==> Cursor(cs, ps, i + 1, j, todos, rechaza)
    ensures !rechaza(cs[i].id, ps[j]) ==>
              && j < |todos| && todos[j] == Asignacion(cs[i], ps[j])
              && todos[..j + 1] == todos[..j] + [todos[j]]
              && Cursor(cs, ps, i + 1, j + 1, todos, rechaza)
  {
    EmparejarAvanza(cs, ps, i, j, todos, rechaza);
    if !rechaza(cs[i].id, ps[j]) {
      Relational.PrefixSnoc(todos, j);
    }
  }

  /** Once either list is used up every pair has been written. */
  lemma CursorFin(cs: seq<Postulante>, ps: seq<Id>, i: nat, j: nat, todos: seq<Asignacion>,
                  rechaza: (Id, Id) -> bool)
    requires Cursor(cs, ps, i, j, todos, rechaza) && (i == |cs| || j == |ps|)
    ensures todos[..j] == todos
  {
    assert Emparejar(cs[i..], ps[j..], rechaza) == [];
  }

  lemma EmparejarAvanza(cs: seq<Postulante>, ps: seq<Id>, i: nat, j: nat, todos: seq<Asignacion>,
                        rechaza: (Id, Id) -> bool)
    requires i < |cs| && j < |ps| && j <= |todos|
    requires Emparejar(cs[i..], ps[j..], rechaza) == todos[j..]
    ensures rechaza(cs[i].id, ps[j]) ==> Emparejar(cs[i + 1..], ps[j..], rechaza) == todos[j..]
    ensures !rechaza(cs[i].id, ps[j]) ==>
              && j < |todos| && todos[j] == Asignacion(cs[i], ps[j])
              && Emparejar(cs[i + 1..], ps[j + 1..], rechaza) == todos[j + 1..]
  {
    EmparejarPaso(cs[i..], ps[j..], rechaza);
    assert cs[i..][1..] == cs[i + 1..];
    assert ps[j..][1..] == ps[j + 1..];
    if !rechaza(cs[i].id, ps[j]) {
      assert todos[j..][1..] == todos[j + 1..];
    }
  }

  /** Writing one more pair extends the fold by one step. */
  lemma AplicarMasivaSnoc(t: Tables, serial: nat, hechos: seq<Asignacion>, par: Asignacion, now: Time)
    ensures var l := AplicarMasiva(t, serial, hechos, now);
      var s := Upsert(l.tables, l.serial, par.postulante.id, SetAdjudicado(par.plazaId, Some(ObsMasiva), now),
                      Adjudicacion(l.serial, par.postulante.id, Some(par.plazaId), Adjudicado, Some(now), None,
                                   Some(ObsMasiva)));
      AplicarMasiva(t, serial, hechos + [par], now) == Lote(s.tables, l.filas + [s.fila], s.serial)
  {
    assert (hechos + [par])[..|hechos|] == hechos;
  }

  /**
   * `procesarAdjudicacionesMasivas`: the two queries, then one pass over the
   * candidates with a cursor on the positions. `rechaza` says which writes
   * fail; a failed write is skipped, as the source's inner `catch` does.
   */
  method ProcesarAdjudicacionesMasivas(db: Database, grupoId: Id, cantidad: int, now: Time,
                                       rechaza: (Id, Id) -> bool)
    returns (r: Result<seq<Adjudicacion>, string>)
    requires db.Valid()
    modifies db
    ensures db.Valid()
    ensures match AfterMasiva(old(db.tables), old(db.serial), grupoId, cantidad, now, rechaza)
            case Failure(e) => r == Failure(e) && db.tables == old(db.tables) && db.serial == old(db.serial)
            case Success(l) => r == Success(l.filas) && db.tables == l.tables && db.serial == l.serial
  {
    var postulantes := CandidatosMasiva(db.tables, grupoId, cantidad);
    var plazas := PlazasMasiva(db.tables, grupoId);
    if |plazas| == 0 {
      return Failure(MsgSinPlazasGrupo);
    }
    var resultados := EscribirPares(db, postulantes, plazas, now, rechaza);
    r := Success(resultados);
  }

  /** The database holds what the batch `hechos` leaves when applied from `t0`, `s0`. */
  ghost predicate Escrito(t0: Tables, s0: nat, hechos: seq<Asignacion>, now: Time,
                          tables: Tables, filas: seq<Adjudicacion>, serial: nat)
  {
    AplicarMasiva(t0, s0, hechos, now) == Lote(tables, filas, serial)
  }

  /** One committed write of the bulk loop: the batch so far grows by the pair's row. */
  method GuardarPar(db: Database, postulante: Postulante, plazaId: Id, now: Time,
                    ghost t0: Tables, ghost s0: nat, ghost hechos: seq<Asignacion>, ghost resultados: seq<Adjudicacion>)
    returns (fila: Adjudicacion)
    requires db.Valid()
    requires Escrito(t0, s0, hechos, now, db.tables, resultados, db.serial)
    modifies db
    ensures db.Valid()
    ensures Escrito(t0, s0, hechos + [Asignacion(postulante, plazaId)], now, db.tables, resultados + [fila], db.serial)
  {
    fila := GuardarFila(db, postulante.id, SetAdjudicado(plazaId, Some(ObsMasiva), now),
                        Adjudicacion(db.serial, postulante.id, Some(plazaId), Adjudicado, Some(now), None,
                                     Some(ObsMasiva)));
    AplicarMasivaSnoc(t0, s0, hechos, Asignacion(postulante, plazaId), now);
  }

  /** One turn of the bulk loop: the candidate at `i` is written to the position at `j` unless the write is refused. */
  method PasoPares(db: Database, postulantes: seq<Postulante>, plazas: seq<Id>, now: Time, rechaza: (Id, Id) -> bool,
                   i: nat, j: nat, resultados: seq<Adjudicacion>, ghost t0: Tables, ghost s0: nat,
                   ghost todos: seq<Asignacion>)
    returns (j2: nat, resultados2: seq<Adjudicacion>)
    requires Cursor(postulantes, plazas, i, j, todos, rechaza) && i < |postulantes| && j < |plazas|
    requires db.Valid() && Escrito(t0, s0, todos[..j], now, db.tables, resultados, db.serial)
    modifies db
    ensures Cursor(postulantes, plazas, i + 1, j2, todos, rechaza)
    ensures db.Valid() && Escrito(t0, s0, todos[..j2], now, db.tables, resultados2, db.serial)
  {
    var postulante := postulantes[i];
    var plazaId := plazas[j];
    CursorAvanza(postulantes, plazas, i, j, todos, rechaza);
    j2, resultados2 := j, resultados;
    if !rechaza(postulante.id, plazaId) {
      var fila := GuardarPar(db, postulante, plazaId, now, t0, s0, todos[..j], resultados);
      resultados2 := resultados + [fila];
      j2 := j + 1;
    }
  }

  /** The loop of `procesarAdjudicacionesMasivas`: a cursor over the positions, advanced on each committed write. */
  method EscribirPares(db: Database, postulantes: seq<Postulante>, plazas: seq<Id>, now: Time,
                       rechaza: (Id, Id) -> bool)
    returns (resultados: seq<Adjudicacion>)
    requires db.Valid()
    modifies db
    ensures db.Valid()
    ensures AplicarMasiva(old(db.tables), old(db.serial), Emparejar(postulantes, plazas, rechaza), now)
            == Lote(db.tables, resultados, db.serial)
  {
    ghost var t0, s0 := db.tables, db.serial;
    ghost var todos := Emparejar(postulantes, plazas, rechaza);
    resultados := [];
    var plazaIndex: nat := 0;
    var i: nat := 0;
    while i < |postulantes| && plazaIndex < |plazas|
      invariant Cursor(postulantes, plazas, i, plazaIndex, todos, rechaza)
      invariant db.Valid()
      invariant Escrito(t0, s0, todos[..plazaIndex], now, db.tables, resultados, db.serial)
      decreases |postulantes| - i
    {
      plazaIndex, resultados := PasoPares(db, postulantes, plazas, now, rechaza, i, plazaIndex, resultados, t0, s0, todos);
      i := i + 1;
    }
    CursorFin(postulantes, plazas, i, plazaIndex, todos, rechaza);
  }
}
