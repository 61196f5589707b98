/**
 * The spreadsheet the upload reads, after `sheet_to_json`: each sheet is a
 * sequence of rows, each row maps a column header to its cell. This module
 * gives the JavaScript reading of a cell (`Number`, truthiness,
 * `toString`) and the two validators, `validarPostulantes` and
 * `validarPlazas`, that run over the rows before anything is written.
 */
module Planilla {
  import opened Wrappers
  import opened Text
  import Relational

  /** A cell: text, a number together with the text `String(x)` renders, or a boolean. */
  datatype Celda = Texto(s: string) | Numero(x: real, texto: string) | Logico(b: bool)

  /** A sheet row: the cells by column header; a header that is not there reads `undefined`. */
  type Fila = map<string, Celda>

  /** `p[k]`: `None` is `undefined`. */
  function Col(p: Fila, k: string): Option<Celda>
  {
    if k in p then Some(p[k]) else None
  }

  /** JavaScript truthiness of a cell. */
  predicate Truthy(c: Option<Celda>)
  {
    match c
    case None => false
    case Some(Texto(s)) => s != ""
    case Some(Numero(x, _)) => x != 0.0
    case Some(Logico(b)) => b
  }

  /** `v.toString()`. */
  function ComoTexto(c: Celda): string
  {
    match c
    case Texto(s) => s
    case Numero(_, t) => t
    case Logico(b) => if b then "true" else "false"
  }

  /** Only whitespace: what `s.trim() === ''` tests (`EnBlancoTrim`). */
  predicate SoloEspacios(s: string)
  {
    forall k :: 0 <= k < |s| ==> IsSpace(s[k])
  }

  /** `!v || v.toString().trim() === ''`. */
  predicate EnBlanco(c: Option<Celda>)
  {
    !Truthy(c) || SoloEspacios(ComoTexto(c.value))
  }

  /** `EnBlanco` is the source's test with `trim`. */
  lemma EnBlancoTrim(c: Option<Celda>)
    ensures EnBlanco(c) <==> !Truthy(c) || Trim(ComoTexto(c.value)) == ""
  {
    if c.Some? {
      TrimEmptyIff(ComoTexto(c.value));
    }
  }

  /** `!v && v !== 0`: absent, where the number 0 counts as present. */
  predicate Falta(c: Option<Celda>)
  {
    !Truthy(c) && !(c.Some? && c.value.Numero? && c.value.x == 0.0)
  }

  /** A JavaScript number and the text a template literal renders for it. */
  datatype Num = Num(valor: real, texto: string)

  /** `Number(s)` for text, with the text a template literal renders for the value read. */
  function NumberTexto(s: string): Option<Num>
  {
    match NumberText(s)
    case None => None
    case Some(n) => Some(Num(n as real, IntToString(n)))
  }

  /** `Number(v)`: `undefined` is NaN, booleans are 1 and 0. */
  function Number(c: Option<Celda>): Option<Num>
  {
    match c
    case None => None
    case Some(Texto(s)) => NumberTexto(s)
    case Some(Numero(x, t)) => Some(Num(x, t))
    case Some(Logico(b)) => if b then Some(Num(1.0, "1")) else Some(Num(0.0, "0"))
  }

  /** `Number.isInteger`. */
  predicate EsEntero(x: real)
  {
    x.Floor as real == x
  }

  /** `Fila ${i + 2} (hoja): `: the spreadsheet row of index `i`, below the header row. */
  function Prefijo(i: nat, hoja: string): string
  {
    "Fila " + IntToString(i + 2) + " (" + hoja + "): "
  }

  lemma PrefijoInicio(i: nat, hoja: string, resto: string)
    ensures StartsWith(Prefijo(i, hoja) + resto, Prefijo(i, hoja))
  {
    assert (Prefijo(i, hoja) + resto)[..|Prefijo(i, hoja)|] == Prefijo(i, hoja);
  }

  // ---------------------------------------------------------------- rejections

  /** The two sheets, as the messages name them. */
  datatype Hoja = HojaPostulantes | HojaPlazas

  function NombreHoja(h: Hoja): string
  {
    match h
    case HojaPostulantes => "Postulantes"
    case HojaPlazas => "Plazas"
  }

  /** Why a row is refused; `OmDuplicado` carries the rank as the message renders it. */
  datatype Motivo =
    | FaltaOM | FaltaApellidos | FaltaNombres | FaltaGrupo | OmInvalido | OmDuplicado(om: string)
    | FaltaRed | FaltaIpress | FaltaCantidad | CantidadInvalida

  function Descripcion(m: Motivo): string
  {
    match m
    case FaltaOM => "Falta el Orden de Mérito (OM)"
    case FaltaApellidos => "Falta Apellidos"
    case FaltaNombres => "Falta Nombres"
    case FaltaGrupo => "Falta Grupo Ocupacional"
    case OmInvalido => "El OM debe ser un número mayor a 0"
    case OmDuplicado(om) => "El OM " + om + " está duplicado en el archivo"
    case FaltaRed => "Falta Red"
    case FaltaIpress => "Falta Ipress"
    case FaltaCantidad => "Falta Cant. Plazas"
    case CantidadInvalida => "Cant. Plazas debe ser un número entero mayor a 0"
  }

  /** A refused row: its index in the sheet, the sheet and the reason. */
  datatype Rechazo = Rechazo(indice: nat, hoja: Hoja, motivo: Motivo)

  /** The `mensaje` of `{ valido: false, mensaje }`. */
  function Mensaje(r: Rechazo): (m: string)
    ensures StartsWith(m, Prefijo(r.indice, NombreHoja(r.hoja)))
  {
    PrefijoInicio(r.indice, NombreHoja(r.hoja), Descripcion(r.motivo));
    Prefijo(r.indice, NombreHoja(r.hoja)) + Descripcion(r.motivo)
  }

  function MensajeDe(r: Option<Rechazo>): Option<string>
  {
    if r.Some? then Some(Mensaje(r.value)) else None
  }

  // ---------------------------------------------------------------- validarPostulantes

  const ColOM := "OM"
  const ColApellidos := "Apellidos"
  const ColNombres := "Nombres"
  const ColGrupo := "Grupo Ocupacional"

  /** The merit rank of a row as `Number(p['OM'])` reads it (0 for NaN, which the checks reject first). */
  function OmValor(p: Fila): real
  {
    var n := Number(Col(p, ColOM));
    if n.Some? then n.value.valor else 0.0
  }

  /** A candidate row with every required column and a merit rank that is a number above 0. */
  predicate PostulanteCompleto(p: Fila)
  {
    && !Falta(Col(p, ColOM)) && !EnBlanco(Col(p, ColApellidos)) && !EnBlanco(Col(p, ColNombres))
    && !EnBlanco(Col(p, ColGrupo))
    && Number(Col(p, ColOM)).Some? && Number(Col(p, ColOM)).value.valor > 0.0
  }

  /** The first check a candidate row fails, given the ranks of the rows before it. */
  function MotivoPostulante(p: Fila, vistos: set<real>): (r: Option<Motivo>)
    ensures r.None? <==> PostulanteCompleto(p) && OmValor(p) !in vistos
  {
    var om := Number(Col(p, ColOM));
    if Falta(Col(p, ColOM)) then Some(FaltaOM)
    else if EnBlanco(Col(p, ColApellidos)) then Some(FaltaApellidos)
    else if EnBlanco(Col(p, ColNombres)) then Some(FaltaNombres)
    else if EnBlanco(Col(p, ColGrupo)) then Some(FaltaGrupo)
    else if om.None? || om.value.valor <= 0.0 then Some(OmInvalido)
    else if om.value.valor in vistos then Some(OmDuplicado(om.value.texto))
    else None
  }

  /** `omsVistos` after the rows before index `n`. */
  function Vistos(ps: seq<Fila>, n: nat): (v: set<real>)
    requires n <= |ps|
    decreases n
  {
    if n == 0 then {}
    else
      var antes := Vistos(ps, n - 1);
      var om := Number(Col(ps[n - 1], ColOM));
      if om.Some? then antes + {om.value.valor} else antes
  }

  /** The ranks seen before index `n` are exactly the ranks of the rows before it that have one. */
  lemma {:induction false} VistosMiembros(ps: seq<Fila>, n: nat)
    requires n <= |ps|
    ensures forall x :: x in Vistos(ps, n) <==> exists k :: 0 <= k < n && Number(Col(ps[k], ColOM)).Some? && OmValor(ps[k]) == x
    decreases n
  {
    if n > 0 {
      VistosMiembros(ps, n - 1);
      VistosPaso(ps, n - 1);
    }
  }

  /** The ranks seen grow by the rank of each row that has one. */
  lemma VistosPaso(ps: seq<Fila>, i: nat)
    requires i < |ps|
    ensures Vistos(ps, i + 1) == if Number(Col(ps[i], ColOM)).Some? then Vistos(ps, i) + {Number(Col(ps[i], ColOM)).value.valor}
                                 else Vistos(ps, i)
  {
  }

  /** Whether the candidate row of index `k` passes, the rows before it having passed. */
  predicate PostulanteValido(ps: seq<Fila>, k: nat)
    requires k < |ps|
  {
    MotivoPostulante(ps[k], Vistos(ps, k)).None?
  }

  /** The first refusal from row `i` on. */
  function PostulantesDesde(ps: seq<Fila>, i: nat): Option<Rechazo>
    requires i <= |ps|
    decreases |ps| - i
  {
    if i == |ps| then None
    else if !PostulanteValido(ps, i) then Some(Rechazo(i, HojaPostulantes, MotivoPostulante(ps[i], Vistos(ps, i)).value))
    else PostulantesDesde(ps, i + 1)
  }

  /** The verdict of `validarPostulantes`: `None` for `{ valido: true }`. */
  function ValidacionPostulantes(ps: seq<Fila>): Option<Rechazo>
  {
    PostulantesDesde(ps, 0)
  }

  /** `validarPostulantes(postulantes)`: the loop with early return and the `omsVistos` set. */
  method ValidarPostulantes(ps: seq<Fila>) returns (r: Option<string>)
    ensures r == MensajeDe(ValidacionPostulantes(ps))
  {
    var omsVistos: set<real> := {};
    var i: nat := 0;
    while i < |ps|
      invariant i <= |ps|
      invariant omsVistos == Vistos(ps, i)
      invariant ValidacionPostulantes(ps) == PostulantesDesde(ps, i)
    {
      var p := ps[i];
      var motivo := RevisarPostulante(p, omsVistos);
      if motivo.Some? {
        PostulantesDesdeAqui(ps, i);
        return Some(Mensaje(Rechazo(i, HojaPostulantes, motivo.value)));
      }
      VistosPaso(ps, i);
      PostulantesDesdeSigue(ps, i);
      omsVistos := omsVistos + {Number(Col(p, ColOM)).value.valor};
      i := i + 1;
    }
    return None;
  }

  /** The checks of one row in the loop of `validarPostulantes`, in the order it makes them. */
  method RevisarPostulante(p: Fila, omsVistos: set<real>) returns (motivo: Option<Motivo>)
    ensures motivo == MotivoPostulante(p, omsVistos)
  {
    motivo := None;
    var om := Number(Col(p, ColOM));
    if Falta(Col(p, ColOM)) {
      motivo := Some(FaltaOM);
    } else if EnBlanco(Col(p, ColApellidos)) {
      motivo := Some(FaltaApellidos);
    } else if EnBlanco(Col(p, ColNombres)) {
      motivo := Some(FaltaNombres);
    } else if EnBlanco(Col(p, ColGrupo)) {
      motivo := Some(FaltaGrupo);
    } else if om.None? || om.value.valor <= 0.0 {
      motivo := Some(OmInvalido);
    } else if om.value.valor in omsVistos {
      motivo := Some(OmDuplicado(om.value.texto));
    }
  }

  /** From row `i` on nothing is refused exactly when every later row passes its own check. */
  lemma PostulantesDesdeNone(ps: seq<Fila>, i: nat)
    requires i <= |ps|
    ensures PostulantesDesde(ps, i).None? <==> forall k :: i <= k < |ps| ==> PostulanteValido(ps, k)
  {
    var found := (k: nat) => if k <= |ps| then PostulantesDesde(ps, k) else None;
    var ok := (k: nat) => k < |ps| && PostulanteValido(ps, k);
    forall k | i <= k < |ps| ensures found(k).None? <==> ok(k) && found(k + 1).None? {
      PostulantesDesdePaso(ps, k);
    }
    Relational.ScanNone(|ps|, i, found, ok);
    assert found(i) == PostulantesDesde(ps, i);
    forall k: nat | i <= k < |ps| ensures ok(k) == PostulanteValido(ps, k) {
    }
  }

  lemma PostulantesDesdeSigue(ps: seq<Fila>, i: nat)
    requires i < |ps| && PostulanteValido(ps, i)
    ensures PostulantesDesde(ps, i) == PostulantesDesde(ps, i + 1)
  {
  }

  lemma PostulantesDesdeAqui(ps: seq<Fila>, i: nat)
    requires i < |ps| && !PostulanteValido(ps, i)
    ensures PostulantesDesde(ps, i) == Some(Rechazo(i, HojaPostulantes, MotivoPostulante(ps[i], Vistos(ps, i)).value))
  {
  }

  lemma PostulantesDesdePaso(ps: seq<Fila>, i: nat)
    requires i < |ps|
    ensures PostulantesDesde(ps, i).None? <==> PostulanteValido(ps, i) && PostulantesDesde(ps, i + 1).None?
  {
  }

  /**
   * The file's candidates are accepted exactly when every row is complete
   * with a merit rank above 0 and no two rows have the same rank.
   */
  lemma AceptaPostulantes(ps: seq<Fila>)
    ensures ValidacionPostulantes(ps).None? <==>
              (forall i :: 0 <= i < |ps| ==> PostulanteCompleto(ps[i]))
              && (forall i, j :: 0 <= i < j < |ps| ==> OmValor(ps[i]) != OmValor(ps[j]))
  {
    PostulantesDesdeNone(ps, 0);
    if ValidacionPostulantes(ps).None? {
      forall i | 0 <= i < |ps| ensures PostulanteCompleto(ps[i]) {
        assert PostulanteValido(ps, i);
      }
      forall i, j | 0 <= i < j < |ps| ensures OmValor(ps[i]) != OmValor(ps[j]) {
        assert PostulanteValido(ps, i) && PostulanteValido(ps, j);
        assert Number(Col(ps[i], ColOM)).Some?;
        VistosMiembros(ps, j);
        assert OmValor(ps[i]) in Vistos(ps, j);
      }
    } else {
      var k :| 0 <= k < |ps| && !PostulanteValido(ps, k);
      if PostulanteCompleto(ps[k]) {
        VistosMiembros(ps, k);
        var j :| 0 <= j < k && Number(Col(ps[j], ColOM)).Some? && OmValor(ps[j]) == OmValor(ps[k]);
        assert OmValor(ps[j]) == OmValor(ps[k]);
      }
    }
  }

  /**
   * A refusal names the first failing row: every row before it passes, the
   * reason is that row's first failed check (and `Mensaje` starts with the
   * row's spreadsheet number).
   */
  lemma {:induction false} PrimerPostulanteMalo(ps: seq<Fila>, i: nat)
    requires i <= |ps| && PostulantesDesde(ps, i).Some?
    ensures var r := PostulantesDesde(ps, i).value;
            && i <= r.indice < |ps| && r.hoja == HojaPostulantes
            && (forall j :: i <= j < r.indice ==> PostulanteValido(ps, j))
            && MotivoPostulante(ps[r.indice], Vistos(ps, r.indice)) == Some(r.motivo)
    decreases |ps| - i
  {
    assert i < |ps|;
    if PostulanteValido(ps, i) {
      PostulantesDesdeSigue(ps, i);
      PrimerPostulanteMalo(ps, i + 1);
      var r := PostulantesDesde(ps, i + 1).value;
      assert PostulantesDesde(ps, i).value == r;
      assert i < r.indice;
    } else {
      PostulantesDesdeAqui(ps, i);
      assert PostulantesDesde(ps, i).value.indice == i;
    }
  }

  // ---------------------------------------------------------------- validarPlazas

  const ColRed := "Red"
  const ColIpress := "Ipress"
  const ColCantidad := "Cant. Plazas"

  /** A position row with every required column and a count that is an integer above 0. */
  predicate PlazaCompleta(p: Fila)
  {
    && !EnBlanco(Col(p, ColRed)) && !EnBlanco(Col(p, ColIpress)) && !EnBlanco(Col(p, ColGrupo))
    && !Falta(Col(p, ColCantidad))
    && Number(Col(p, ColCantidad)).Some? && Number(Col(p, ColCantidad)).value.valor > 0.0
    && EsEntero(Number(Col(p, ColCantidad)).value.valor)
  }

  /** The first check a position row fails. */
  function MotivoPlaza(p: Fila): (r: Option<Motivo>)
    ensures r.None? <==> PlazaCompleta(p)
  {
    var c := Number(Col(p, ColCantidad));
    if EnBlanco(Col(p, ColRed)) then Some(FaltaRed)
    else if EnBlanco(Col(p, ColIpress)) then Some(FaltaIpress)
    else if EnBlanco(Col(p, ColGrupo)) then Some(FaltaGrupo)
    else if Falta(Col(p, ColCantidad)) then Some(FaltaCantidad)
    else if c.None? || c.value.valor <= 0.0 || !EsEntero(c.value.valor) then Some(CantidadInvalida)
    else None
  }

  function PlazasDesde(ps: seq<Fila>, i: nat): Option<Rechazo>
    requires i <= |ps|
    decreases |ps| - i
  {
    if i == |ps| then None
    else if MotivoPlaza(ps[i]).Some? then Some(Rechazo(i, HojaPlazas, MotivoPlaza(ps[i]).value))
    else PlazasDesde(ps, i + 1)
  }

  /** The verdict of `validarPlazas`. */
  function ValidacionPlazas(ps: seq<Fila>): Option<Rechazo>
  {
    PlazasDesde(ps, 0)
  }

  /** `validarPlazas(plazas)`: the loop with early return. */
  method ValidarPlazas(ps: seq<Fila>) returns (r: Option<string>)
    ensures r == MensajeDe(ValidacionPlazas(ps))
  {
    var i := 0;
    while i < |ps|
      invariant i <= |ps|
      invariant ValidacionPlazas(ps) == PlazasDesde(ps, i)
    {
      var p := ps[i];
      var motivo: Option<Motivo> := None;
      var cantidad := Number(Col(p, ColCantidad));
      if EnBlanco(Col(p, ColRed)) {
        motivo := Some(FaltaRed);
      } else if EnBlanco(Col(p, ColIpress)) {
        motivo := Some(FaltaIpress);
      } else if EnBlanco(Col(p, ColGrupo)) {
        motivo := Some(FaltaGrupo);
      } else if Falta(Col(p, ColCantidad)) {
        motivo := Some(FaltaCantidad);
      } else if cantidad.None? || cantidad.value.valor <= 0.0 || !EsEntero(cantidad.value.valor) {
        motivo := Some(CantidadInvalida);
      }
      assert motivo == MotivoPlaza(p);
      if motivo.Some? {
        return Some(Mensaje(Rechazo(i, HojaPlazas, motivo.value)));
      }
      i := i + 1;
    }
    return None;
  }

  lemma PlazasDesdeNone(ps: seq<Fila>, i: nat)
    requires i <= |ps|
    ensures PlazasDesde(ps, i).None? <==> forall k :: i <= k < |ps| ==> PlazaCompleta(ps[k])
  {
    PlazasDesdeTodas(ps, i);
  }

  lemma {:induction false} PlazasDesdeTodas(ps: seq<Fila>, i: nat)
    requires i <= |ps|
    ensures PlazasDesde(ps, i).None? <==> Relational.AllFrom(ps, i, PlazaCompleta)
    decreases |ps| - i
  {
    if i < |ps| {
      PlazasDesdeTodas(ps, i + 1);
      PlazasDesdePaso(ps, i);
      Relational.AllFromStep(ps, i, PlazaCompleta);
    }
  }

  lemma PlazasDesdeSigue(ps: seq<Fila>, i: nat)
    requires i < |ps| && MotivoPlaza(ps[i]).None?
    ensures PlazasDesde(ps, i) == PlazasDesde(ps, i + 1)
  {
  }

  lemma PlazasDesdeAqui(ps: seq<Fila>, i: nat)
    requires i < |ps| && MotivoPlaza(ps[i]).Some?
    ensures PlazasDesde(ps, i) == Some(Rechazo(i, HojaPlazas, MotivoPlaza(ps[i]).value))
  {
  }

  lemma PlazasDesdePaso(ps: seq<Fila>, i: nat)
    requires i < |ps|
    ensures PlazasDesde(ps, i).None? <==> PlazaCompleta(ps[i]) && PlazasDesde(ps, i + 1).None?
  {
  }

  /** The file's positions are accepted exactly when every row is complete. */
  lemma AceptaPlazas(ps: seq<Fila>)
    ensures ValidacionPlazas(ps).None? <==> forall i :: 0 <= i < |ps| ==> PlazaCompleta(ps[i])
  {
    PlazasDesdeNone(ps, 0);
  }

  /** A refusal names the first incomplete row and the first check it fails. */
  lemma {:induction false} PrimeraPlazaMala(ps: seq<Fila>, i: nat)
    requires i <= |ps| && PlazasDesde(ps, i).Some?
    ensures var r := PlazasDesde(ps, i).value;
            && i <= r.indice < |ps| && r.hoja == HojaPlazas
            && (forall j :: i <= j < r.indice ==> MotivoPlaza(ps[j]).None?)
            && MotivoPlaza(ps[r.indice]) == Some(r.motivo)
    decreases |ps| - i
  {
    assert i < |ps|;
    if MotivoPlaza(ps[i]).None? {
      PlazasDesdeSigue(ps, i);
      PrimeraPlazaMala(ps, i + 1);
    } else {
      PlazasDesdeAqui(ps, i);
    }
  }


}
