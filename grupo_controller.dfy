/**
 * The occupational-group endpoints that add logic of their own to the
 * generic controller: the name validation and its path choice, and the
 * statistical summary over the per-group rows of `getGruposWithStats`
 * (which come in as a parameter, as that query is not part of this model).
 */
module GrupoOcupacionalController {
  import opened Wrappers
  import opened Text
  import opened Store
  import Relational
  import opened BaseController
  import Pagination
  import Numeric
  import GruposOcupacionales

  const MsgNombreRequerido := "Nombre es requerido"
  const MsgNombreValido := "Nombre válido"
  const MsgResumen := "Resumen estadístico obtenido exitosamente"

  // ---------------------------------------------------------------- validateGrupo

  /** The fields of the body `validateGrupo` reads; an id is read as its decimal text. */
  datatype CuerpoGrupo = CuerpoGrupo(nombre: Option<string>, id: Option<string>)

  /** The check `validateGrupo` runs: the update check when the body has an id, else the creation check. */
  function Chequeo(t: Tables, nombre: string, id: Option<string>): Option<string>
  {
    if id.Some? && id.value != "" then GruposOcupacionales.ValidateForUpdate(t, id.value, nombre)
    else GruposOcupacionales.ValidateForCreation(t, nombre)
  }

  function ValidateGrupo(t: Tables, b: CuerpoGrupo): Respuesta<Validacion>
  {
    if b.nombre.None? || b.nombre.value == "" then SendError(MsgNombreRequerido, None, None)
    else Validado(Chequeo(t, b.nombre.value, b.id), MsgNombreValido)
  }

  /**
   * `validateGrupo` answers 400 'Nombre es requerido' exactly when the name
   * is missing or empty. Otherwise it runs the update check exactly when
   * an id is given, and answers `valido` exactly when that check passes.
   */
  lemma ValidateGrupoGuarda(t: Tables, b: CuerpoGrupo)
    ensures var r := ValidateGrupo(t, b);
      && (r.status == 400 <==> b.nombre.None? || b.nombre.value == "")
      && (r.status == 400 ==> r.message == MsgNombreRequerido && r.data.None? && !r.success)
      && (r.status != 400 ==>
            && r.status == 200 && r.data.Some?
            && (b.id.Some? && b.id.value != "" ==>
                  (r.data.value.valido <==> GruposOcupacionales.ValidateForUpdate(t, b.id.value, b.nombre.value).None?))
            && (b.id.None? || b.id.value == "" ==>
                  (r.data.value.valido <==>
                     forall i :: 0 <= i < |t.grupos| ==> t.grupos[i].nombre != b.nombre.value)))
  {
  }

  /**
   * A group keeping its own name is valid on the update path, while the
   * same name without an id is not: it is taken.
   */
  lemma ValidateGrupoPropio(t: Tables, k: nat)
    requires k < |t.grupos| && Relational.Unique(t.grupos, (g: Grupo) => g.id)
    requires forall i :: 0 <= i < |t.grupos| && t.grupos[i].nombre == t.grupos[k].nombre ==> i == k
    requires t.grupos[k].nombre != ""
    ensures ValidateGrupo(t, CuerpoGrupo(Some(t.grupos[k].nombre), Some(IntToString(t.grupos[k].id)))).data.value.valido
    ensures !ValidateGrupo(t, CuerpoGrupo(Some(t.grupos[k].nombre), None)).data.value.valido
  {
    GruposOcupacionales.UpdateIgnoraPropio(t, k);
    assert IntToString(t.grupos[k].id) != "" by {
      NatToStringDigits(t.grupos[k].id);
    }
  }

  // ---------------------------------------------------------------- getResumenEstadistico

  /**
   * A row of `getGruposWithStats` as Postgres hands it over: counts as
   * text, and `total_posiciones`, a `SUM`, NULL for a group without
   * positions.
   */
  datatype EstadisticaGrupo = EstadisticaGrupo(nombre: string, totalPlazas: string, totalPosiciones: Option<string>,
                                               totalPostulantes: string, adjudicacionesRealizadas: string)

  /** `parseInt(x) || 0`, where `null` is NaN. */
  function Cuenta(x: Option<string>): int
  {
    if x.None? then 0 else Pagination.IntOr(x.value, 0)
  }

  datatype Resumen = Resumen(totalGrupos: nat, totalPlazas: int, totalPosiciones: int, totalPostulantes: int,
                             totalAdjudicaciones: int)

  const Vacio := Resumen(0, 0, 0, 0, 0)

  /** The accumulator after one more row. */
  function Agregar(a: Resumen, g: EstadisticaGrupo): Resumen
  {
    Resumen(a.totalGrupos + 1, a.totalPlazas + Cuenta(Some(g.totalPlazas)), a.totalPosiciones + Cuenta(g.totalPosiciones),
            a.totalPostulantes + Cuenta(Some(g.totalPostulantes)),
            a.totalAdjudicaciones + Cuenta(Some(g.adjudicacionesRealizadas)))
  }

  /** The `reduce` over the rows, first row first. */
  function Acumular(filas: seq<EstadisticaGrupo>): Resumen
  {
    if filas == [] then Vacio else Agregar(Acumular(filas[..|filas| - 1]), filas[|filas| - 1])
  }

  /** The row's contribution, as a summary of one group. */
  function Uno(g: EstadisticaGrupo): Resumen
  {
    Agregar(Vacio, g)
  }

  function Sumar(a: Resumen, b: Resumen): Resumen
  {
    Resumen(a.totalGrupos + b.totalGrupos, a.totalPlazas + b.totalPlazas, a.totalPosiciones + b.totalPosiciones,
            a.totalPostulantes + b.totalPostulantes, a.totalAdjudicaciones + b.totalAdjudicaciones)
  }

  /** The summaries of the rows added up from the first on, as a sum is written. */
  function Suma(filas: seq<EstadisticaGrupo>): Resumen
  {
    if filas == [] then Vacio else Sumar(Uno(filas[0]), Suma(filas[1..]))
  }

  lemma {:induction false} SumaConcat(a: seq<EstadisticaGrupo>, b: seq<EstadisticaGrupo>)
    ensures Suma(a + b) == Sumar(Suma(a), Suma(b))
    decreases |a|
  {
    if a == [] {
      assert a + b == b;
    } else {
      assert (a + b)[0] == a[0];
      assert (a + b)[1..] == a[1..] + b;
      SumaConcat(a[1..], b);
      SumarAsocia(Uno(a[0]), Suma(a[1..]), Suma(b));
    }
  }

  lemma SumarAsocia(x: Resumen, y: Resumen, z: Resumen)
    ensures Sumar(Sumar(x, y), z) == Sumar(x, Sumar(y, z))
  {
  }

  /** The accumulator ends holding the sum of the rows' counts, and `totalGrupos` the number of rows. */
  lemma {:induction false} AcumularSuma(filas: seq<EstadisticaGrupo>)
    ensures Acumular(filas) == Suma(filas)
    ensures Acumular(filas).totalGrupos == |filas|
    decreases |filas|
  {
    if filas != [] {
      var previas, u := filas[..|filas| - 1], filas[|filas| - 1];
      AcumularSuma(previas);
      Relational.Snoc(filas);
      SumaConcat(previas, [u]);
      assert Suma([u]) == Uno(u) by {
        assert [u][1..] == [];
        SumarVacio(Uno(u));
      }
      assert Acumular(filas) == Agregar(Suma(previas), u);
      AgregarUno(Suma(previas), u);
    }
  }

  lemma SumarVacio(a: Resumen)
    ensures Sumar(a, Vacio) == a
  {
  }

  /** Adding a row is adding its one-group summary. */
  lemma AgregarUno(a: Resumen, g: EstadisticaGrupo)
    ensures Agregar(a, g) == Sumar(a, Uno(g))
  {
  }

  /** A row with `porcentaje_adjudicado` added. */
  datatype GrupoConPorcentaje = GrupoConPorcentaje(fila: EstadisticaGrupo, porcentajeAdjudicado: int)

  datatype Resultado = Resultado(resumen: Resumen, porcentajeAdjudicacion: int, grupos: seq<GrupoConPorcentaje>)

  function ConPorcentaje(g: EstadisticaGrupo): GrupoConPorcentaje
  {
    GrupoConPorcentaje(g, Numeric.Porcentaje(Cuenta(Some(g.adjudicacionesRealizadas)), Cuenta(g.totalPosiciones)))
  }

  function Grupos(filas: seq<EstadisticaGrupo>): (r: seq<GrupoConPorcentaje>)
    ensures |r| == |filas| && forall i :: 0 <= i < |filas| ==> r[i] == ConPorcentaje(filas[i])
  {
    if filas == [] then [] else [ConPorcentaje(filas[0])] + Grupos(filas[1..])
  }

  function GetResumenEstadistico(filas: seq<EstadisticaGrupo>): (r: Respuesta<Resultado>)
    ensures r.status == 200 && r.success && r.message == MsgResumen && r.data.Some?
    ensures r.data.value.resumen == Acumular(filas) && |r.data.value.grupos| == |filas|
  {
    var s := Acumular(filas);
    SendSuccess(Some(Resultado(s, Numeric.Porcentaje(s.totalAdjudicaciones, s.totalPosiciones), Grupos(filas))),
                Some(MsgResumen), None)
  }

  /**
   * The summary counts the groups and adds up each field, with NaN (and
   * NULL) read as 0; the overall rate is 0 without positions, and so is a
   * group's when its `total_posiciones` is NULL or not positive.
   */
  lemma ResumenTotales(filas: seq<EstadisticaGrupo>)
    ensures var d := GetResumenEstadistico(filas).data.value;
      && d.resumen.totalGrupos == |filas|
      && d.resumen == Suma(filas)
      && (d.resumen.totalPosiciones <= 0 ==> d.porcentajeAdjudicacion == 0)
      && (0 <= d.resumen.totalAdjudicaciones <= d.resumen.totalPosiciones ==> d.porcentajeAdjudicacion <= 100)
      && forall i :: 0 <= i < |filas| ==>
           (filas[i].totalPosiciones.None? || Cuenta(filas[i].totalPosiciones) <= 0 ==> d.grupos[i].porcentajeAdjudicado == 0)
  {
    AcumularSuma(filas);
    var s := Acumular(filas);
    if 0 <= s.totalAdjudicaciones <= s.totalPosiciones {
      Numeric.PorcentajeRango(s.totalAdjudicaciones, s.totalPosiciones);
    }
  }

  /** A row whose figures are all NaN, NULL or 0 counts as a group and adds nothing else. */
  lemma ResumenFilaVacia(filas: seq<EstadisticaGrupo>, g: EstadisticaGrupo)
    requires Cuenta(Some(g.totalPlazas)) == 0 && Cuenta(g.totalPosiciones) == 0
    requires Cuenta(Some(g.totalPostulantes)) == 0 && Cuenta(Some(g.adjudicacionesRealizadas)) == 0
    ensures Acumular(filas + [g]) == Acumular(filas).(totalGrupos := Acumular(filas).totalGrupos + 1)
  {
    assert (filas + [g])[..|filas + [g]| - 1] == filas;
  }
}
