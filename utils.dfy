/**
 * The general helpers of `backend/src/utils/index.js`: the response
 * envelopes, the digit checks, `normalizeText` and `generateSlug` (with the
 * regular-expression replacements they use written out as functions on
 * strings), `simpleHash` with its 32-bit wrap-around, the property helpers,
 * `groupBy` and the integer part of `calculateStats`.
 */
module Utils {
  import opened Wrappers
  import opened Text
  import opened Valores
  import Relational
  import Pagination

  // ---------------------------------------------------------------- formatResponse

  /** The `errors` argument: absent (`null`), an array (always truthy, even empty) or a message. */
  datatype Errores = SinErrores | Lista(items: seq<string>) | Mensaje(texto: string)

  predicate ErroresTruthy(e: Errores)
  {
    match e
    case SinErrores => false
    case Lista(_) => true
    case Mensaje(t) => t != ""
  }

  /** The envelope; an absent field is `None`. The timestamp is a parameter, as the clock is not modelled. */
  datatype Formato<T> = Formato(success: bool, message: string, timestamp: string, data: Option<T>, errors: Option<Errores>)

  /** `formatResponse(success, data, message, errors)`, with `data` `None` for `null` or omitted. */
  function FormatResponse<T>(success: bool, data: Option<T>, message: string, errors: Errores, timestamp: string): Formato<T>
  {
    Formato(success, message, timestamp, data, if ErroresTruthy(errors) then Some(errors) else None)
  }

  /**
   * `data` is included exactly when it is not `null`, and `errors` exactly
   * when truthy: an empty array is included, an empty message is not.
   */
  lemma FormatResponseCampos<T>(success: bool, data: Option<T>, message: string, errors: Errores, timestamp: string)
    ensures var r := FormatResponse(success, data, message, errors, timestamp);
      && r.success == success && r.message == message
      && (r.data.Some? <==> data.Some?) && (data.Some? ==> r.data == data)
      && (r.errors.Some? <==> ErroresTruthy(errors)) && (r.errors.Some? ==> r.errors.value == errors)
    ensures FormatResponse(success, data, message, Lista([]), timestamp).errors == Some(Lista([]))
    ensures FormatResponse(success, data, message, Mensaje(""), timestamp).errors.None?
  {
  }

  /** The `pagination` argument of `formatPaginatedResponse`. */
  datatype Entrada = Entrada(page: int, limit: int, total: int, pages: int)

  datatype Paginacion = Paginacion(page: int, limit: int, total: int, pages: int, hasNext: bool, hasPrev: bool)

  datatype Items<T> = Items(items: seq<T>, pagination: Paginacion)

  const MsgDatos := "Datos obtenidos exitosamente"

  function FormatPaginatedResponse<T>(data: seq<T>, p: Entrada, message: string, timestamp: string): Formato<Items<T>>
  {
    FormatResponse(true, Some(Items(data, Paginacion(p.page, p.limit, p.total, p.pages, p.page < p.pages, p.page > 1))),
                   message, SinErrores, timestamp)
  }

  /**
   * For a page cut by the pagination rule, `hasNext` holds exactly when the
   * following page has rows, and `hasPrev` exactly when this is not the
   * first page; the counts are passed through.
   */
  lemma FlagsPaginacion<T>(result: seq<T>, page: int, limit: int, message: string, timestamp: string)
    requires page >= 1 && limit >= 1
    ensures var p := Pagination.Paginar(result, page, limit);
      var f := FormatPaginatedResponse(p.data, Entrada(p.page, p.limit, p.total, p.pages), message, timestamp);
      && f.success && f.data.Some? && f.errors.None? && f.data.value.items == p.data
      && f.data.value.pagination.total == |result|
      && (f.data.value.pagination.hasNext <==> Pagination.Paginar(result, page + 1, limit).data != [])
      && (f.data.value.pagination.hasPrev <==> page > 1)
  {
    Pagination.PaginaVacia(result, page + 1, limit);
  }

  // ---------------------------------------------------------------- isNumeric, isValidDNI

  /** `/^\d+$/.test(s)`: one or more ASCII digits and nothing else. */
  predicate IsNumeric(s: string)
  {
    |s| >= 1 && AllDigits(s)
  }

  /** `/^\d{8}$/.test(s)`: exactly eight ASCII digits. */
  predicate IsValidDNI(s: string)
  {
    |s| == 8 && AllDigits(s)
  }

  /**
   * A valid DNI is numeric, and a numeric string is read back by
   * `parseInt` as the number its digits denote; a DNI's value stays below
   * 10^8 and its leading zeros are kept in the text.
   */
  lemma NumericoLegible(s: string)
    ensures IsValidDNI(s) ==> IsNumeric(s)
    ensures IsNumeric(s) ==> ParseInt(s) == Some(RadixValue(s, 10))
    ensures IsValidDNI(s) ==> RadixValue(s, 10) < 100000000
  {
    if IsNumeric(s) {
      DigitPrefixAll(s);
      assert TrimStart(s) == s by {
        assert !IsSpace(s[0]);
      }
    }
    if IsValidDNI(s) {
      DigitosAcotados(s);
    }
  }

  /** A string of `n` decimal digits denotes less than 10^n. */
  lemma {:induction false} DigitosAcotados(s: string)
    requires AllDigits(s)
    ensures RadixValue(s, 10) < Potencia10(|s|)
    decreases |s|
  {
    if s != [] {
      DigitosAcotados(s[..|s| - 1]);
      assert DigitValue(s[|s| - 1]) < 10;
    }
  }

  function Potencia10(n: nat): (r: nat)
    ensures r >= 1
  {
    if n == 0 then 1 else 10 * Potencia10(n - 1)
  }

  // ---------------------------------------------------------------- runs of characters

  /** The string without its longest prefix of `p` characters (`replace(/^[P]+/, '')`). */
  function Saltar(s: string, p: char -> bool): (r: string)
    ensures |r| <= |s| && r == s[|s| - |r|..]
    ensures r != [] ==> !p(r[0])
    ensures forall i :: 0 <= i < |s| - |r| ==> p(s[i])
    decreases |s|
  {
    if s != [] && p(s[0]) then
      var r := Saltar(s[1..], p);
      assert s[1..][|s| - 1 - |r|..] == s[|s| - |r|..];
      assert forall i :: 1 <= i < |s| - |r| ==> s[i] == s[1..][i - 1];
      r
    else s
  }

  /** The string without its longest suffix of `p` characters (`replace(/[P]+$/, '')`). */
  function SaltarFin(s: string, p: char -> bool): (r: string)
    ensures |r| <= |s| && r == s[..|r|]
    ensures r != [] ==> !p(r[|r| - 1])
    ensures forall i :: |r| <= i < |s| ==> p(s[i])
    decreases |s|
  {
    if s != [] && p(s[|s| - 1]) then SaltarFin(s[..|s| - 1], p) else s
  }

  /** `s.replace(/[P]+/g, c)`: every maximal run of `p` characters becomes one `c`. */
  function Reemplazar(s: string, p: char -> bool, c: char): (r: string)
    ensures r == [] <==> s == []
    ensures s != [] && p(s[0]) ==> r[0] == c
    ensures s != [] && !p(s[0]) ==> r[0] == s[0]
    decreases |s|
  {
    if s == [] then []
    else if p(s[0]) then [c] + Reemplazar(Saltar(s[1..], p), p, c)
    else [s[0]] + Reemplazar(s[1..], p, c)
  }

  /** The last character of a replacement is `c` when the string ends in a run, and its own last character otherwise. */
  lemma {:induction false} ReemplazarUltimo(s: string, p: char -> bool, c: char)
    requires s != []
    ensures var r := Reemplazar(s, p, c);
      r != [] && (p(s[|s| - 1]) ==> r[|r| - 1] == c) && (!p(s[|s| - 1]) ==> r[|r| - 1] == s[|s| - 1])
    decreases |s|
  {
    if p(s[0]) {
      var t := Saltar(s[1..], p);
      if t != [] {
        ReemplazarUltimo(t, p, c);
        assert t[|t| - 1] == s[|s| - 1];
      } else {
        assert p(s[|s| - 1]) by {
          if |s| > 1 {
            assert s[|s| - 1] == s[1..][|s| - 2];
          }
        }
      }
    } else if |s| > 1 {
      ReemplazarUltimo(s[1..], p, c);
    }
  }

  /** Every character of `r` is `c` or a non-`p` character of `s`. */
  predicate DeCaracteres(r: string, s: string, p: char -> bool, c: char)
  {
    forall i :: 0 <= i < |r| ==> r[i] == c || (!p(r[i]) && r[i] in s)
  }

  /** No two neighbouring characters of `r` are `p` characters. */
  predicate Aislados(r: string, p: char -> bool)
  {
    forall i :: 0 <= i < |r| - 1 ==> !(p(r[i]) && p(r[i + 1]))
  }

  /** A character drawn from a suffix of `s` is drawn from `s`. */
  lemma DeSufijo(r: string, s: string, k: nat, p: char -> bool, c: char)
    requires k <= |s| && DeCaracteres(r, s[k..], p, c)
    ensures DeCaracteres(r, s, p, c)
  {
    forall i | 0 <= i < |r| && r[i] != c ensures r[i] in s {
      var j :| 0 <= j < |s[k..]| && s[k..][j] == r[i];
      assert s[k + j] == r[i];
    }
  }

  /** Where the replacement resumes after the first character or run. */
  function Corte(s: string, p: char -> bool): (k: nat)
    requires s != []
    ensures 1 <= k <= |s|
  {
    if p(s[0]) then |s| - |Saltar(s[1..], p)| else 1
  }

  /** The replacement is its first character followed by the replacement of the rest after the first run. */
  lemma ReemplazarCabeza(s: string, p: char -> bool, c: char)
    requires s != []
    ensures Reemplazar(s, p, c) == [if p(s[0]) then c else s[0]] + Reemplazar(s[Corte(s, p)..], p, c)
  {
    if p(s[0]) {
      var r := Saltar(s[1..], p);
      assert s[1..][|s| - 1 - |r|..] == s[|s| - |r|..];
    }
  }

  lemma DeCaracteresCons(x: char, rt: string, s: string, p: char -> bool, c: char)
    requires x == c || (!p(x) && x in s)
    requires DeCaracteres(rt, s, p, c)
    ensures DeCaracteres([x] + rt, s, p, c)
  {
    var r := [x] + rt;
    forall i | 0 < i < |r| ensures r[i] == c || (!p(r[i]) && r[i] in s) {
      assert r[i] == rt[i - 1];
    }
  }

  /** After the replacement, every character is `c` or a non-`p` character of the input. */
  lemma {:induction false} ReemplazarCaracteres(s: string, p: char -> bool, c: char)
    ensures DeCaracteres(Reemplazar(s, p, c), s, p, c)
    decreases |s|
  {
    if s != [] {
      var k := Corte(s, p);
      var rt := Reemplazar(s[k..], p, c);
      ReemplazarCabeza(s, p, c);
      ReemplazarCaracteres(s[k..], p, c);
      DeSufijo(rt, s, k, p, c);
      DeCaracteresCons(if p(s[0]) then c else s[0], rt, s, p, c);
    }
  }

  /** As `c` is itself a `p` character, no two `p` characters are neighbours after the replacement. */
  lemma {:induction false} ReemplazarAislados(s: string, p: char -> bool, c: char)
    requires p(c)
    ensures Aislados(Reemplazar(s, p, c), p)
    decreases |s|
  {
    if s != [] {
      var r := Reemplazar(s, p, c);
      var t := if p(s[0]) then Saltar(s[1..], p) else s[1..];
      var rt := Reemplazar(t, p, c);
      ReemplazarAislados(t, p, c);
      assert r == [r[0]] + rt;
      assert p(s[0]) && rt != [] ==> !p(rt[0]);
      forall i | 0 <= i < |r| - 1 ensures !(p(r[i]) && p(r[i + 1])) {
        if i > 0 {
          assert r[i] == rt[i - 1] && r[i + 1] == rt[i];
          assert !(p(rt[i - 1]) && p(rt[i]));
        }
      }
    }
  }

  /** A string whose `p` characters are all `c` and isolated is left as it is. */
  lemma {:induction false} ReemplazarFijo(s: string, p: char -> bool, c: char)
    requires forall i :: 0 <= i < |s| && p(s[i]) ==> s[i] == c
    requires Aislados(s, p)
    ensures Reemplazar(s, p, c) == s
    decreases |s|
  {
    if s != [] {
      FijoCola(s, p, c);
      ReemplazarFijo(s[1..], p, c);
      assert s == [s[0]] + s[1..];
    }
  }

  /** The tail of such a string is such a string, and after a `p` character there is no run to skip. */
  lemma FijoCola(s: string, p: char -> bool, c: char)
    requires s != []
    requires forall i :: 0 <= i < |s| && p(s[i]) ==> s[i] == c
    requires Aislados(s, p)
    ensures forall i :: 0 <= i < |s[1..]| && p(s[1..][i]) ==> s[1..][i] == c
    ensures Aislados(s[1..], p)
    ensures p(s[0]) ==> Saltar(s[1..], p) == s[1..]
  {
    var t := s[1..];
    forall i | 0 <= i < |t| && p(t[i]) ensures t[i] == c {
      assert t[i] == s[i + 1];
    }
    forall i | 0 <= i < |t| - 1 ensures !(p(t[i]) && p(t[i + 1])) {
      assert t[i] == s[i + 1] && t[i + 1] == s[i + 2];
    }
    if p(s[0]) && t != [] {
      assert t[0] == s[1];
    }
  }

  // ---------------------------------------------------------------- normalizeText

  /** `text.trim().replace(/\s+/g, ' ').toUpperCase()`, and '' for a falsy text. */
  function NormalizeText(text: Option<string>): string
  {
    if text.None? || text.value == "" then "" else Upper(Reemplazar(Trim(text.value), IsSpace, ' '))
  }

  /** Trimmed, and every whitespace character a single space with no whitespace beside it. */
  predicate EspaciosSimples(s: string)
  {
    && Trimmed(s)
    && (forall i :: 0 <= i < |s| && IsSpace(s[i]) ==> s[i] == ' ')
    && Aislados(s, IsSpace)
  }

  /** Single-spaced and upper case. */
  predicate Normalizado(s: string)
  {
    EspaciosSimples(s) && IsUpper(s)
  }

  /** Collapsing the whitespace runs of a trimmed string leaves it single-spaced. */
  lemma ColapsarEspacios(a: string)
    requires Trimmed(a)
    ensures EspaciosSimples(Reemplazar(a, IsSpace, ' '))
  {
    var b := Reemplazar(a, IsSpace, ' ');
    ReemplazarCaracteres(a, IsSpace, ' ');
    ReemplazarAislados(a, IsSpace, ' ');
    if a != [] {
      ReemplazarUltimo(a, IsSpace, ' ');
    }
    assert DeCaracteres(b, a, IsSpace, ' ');
  }

  /** `toUpperCase` leaves whitespace alone and makes nothing whitespace. */
  lemma EspacioMayuscula(c: char)
    ensures IsSpace(c) ==> UpperChar(c) == c
    ensures IsSpace(UpperChar(c)) ==> IsSpace(c)
  {
  }

  /** `toUpperCase` keeps a string single-spaced and makes it upper case. */
  lemma MayusculasSimples(b: string)
    requires EspaciosSimples(b)
    ensures Normalizado(Upper(b))
  {
    var y := Upper(b);
    forall i | 0 <= i < |b| ensures (IsSpace(y[i]) ==> IsSpace(b[i])) && (IsSpace(b[i]) ==> y[i] == b[i]) {
      EspacioMayuscula(b[i]);
    }
    assert Trimmed(y);
    forall i | 0 <= i < |y| && IsSpace(y[i]) ensures y[i] == ' ' {
      assert IsSpace(b[i]);
    }
    forall i | 0 <= i < |y| - 1 ensures !(IsSpace(y[i]) && IsSpace(y[i + 1])) {
      assert !(IsSpace(b[i]) && IsSpace(b[i + 1]));
    }
    UpperIsUpper(b);
  }

  /** The normalised text has no whitespace at its ends, no run of two whitespace characters, and no lower case. */
  lemma NormalizeTextSpec(text: Option<string>)
    ensures Normalizado(NormalizeText(text))
    ensures text.None? || text.value == "" ==> NormalizeText(text) == ""
  {
    if text.Some? && text.value != "" {
      TrimSpec(text.value);
      ColapsarEspacios(Trim(text.value));
      MayusculasSimples(Reemplazar(Trim(text.value), IsSpace, ' '));
    }
  }

  /** Normalising twice is normalising once. */
  lemma NormalizeTextIdempotente(text: Option<string>)
    ensures NormalizeText(Some(NormalizeText(text))) == NormalizeText(text)
  {
    var y := NormalizeText(text);
    NormalizeTextSpec(text);
    if y != "" {
      TrimOfTrimmed(y);
      ReemplazarFijo(y, IsSpace, ' ');
      assert Upper(y) == y;
    }
  }

  // ---------------------------------------------------------------- generateSlug

  /** `\w`: an ASCII letter, digit or underscore. */
  predicate Palabra(c: char)
  {
    'a' <= c <= 'z' || 'A' <= c <= 'Z' || '0' <= c <= '9' || c == '_'
  }

  /** The characters `[\w\s-]` that the first replacement keeps. */
  predicate Conservado(c: char)
  {
    Palabra(c) || IsSpace(c) || c == '-'
  }

  /** `[\s_-]`: the characters whose runs become one hyphen. */
  predicate Separador(c: char)
  {
    IsSpace(c) || c == '_' || c == '-'
  }

  predicate EsGuion(c: char)
  {
    c == '-'
  }

  /** `s.replace(/[^\w\s-]/g, '')`. */
  function Conservar(s: string): (r: string)
    ensures forall i :: 0 <= i < |r| ==> Conservado(r[i]) && r[i] in s
    ensures (forall i :: 0 <= i < |s| ==> Conservado(s[i])) ==> r == s
  {
    if s == [] then []
    else
      var rest := Conservar(s[1..]);
      assert forall i :: 0 <= i < |rest| ==> rest[i] in s by {
        forall i | 0 <= i < |rest| ensures rest[i] in s {
          assert rest[i] in s[1..];
        }
      }
      if Conservado(s[0]) then [s[0]] + rest else rest
  }

  /** `text.toLowerCase().trim().replace(/[^\w\s-]/g, '').replace(/[\s_-]+/g, '-').replace(/^-+|-+$/g, '')`. */
  function GenerateSlug(text: string): string
  {
    var f := Conservar(Trim(Lower(text)));
    SaltarFin(Saltar(Reemplazar(f, Separador, '-'), EsGuion), EsGuion)
  }

  predicate SlugChar(c: char)
  {
    'a' <= c <= 'z' || '0' <= c <= '9' || c == '-'
  }

  /** Only slug characters. */
  predicate SlugChars(s: string)
  {
    forall i :: 0 <= i < |s| ==> SlugChar(s[i])
  }

  /** Lower-case ASCII letters, digits and single inner hyphens only. */
  predicate EsSlug(s: string)
  {
    && SlugChars(s)
    && (s != [] ==> s[0] != '-' && s[|s| - 1] != '-')
    && Aislados(s, EsGuion)
  }

  /** Only characters the first replacement keeps, and no ASCII capital. */
  predicate Filtrable(s: string)
  {
    forall i :: 0 <= i < |s| ==> Conservado(s[i]) && !('A' <= s[i] <= 'Z')
  }

  /** `toLowerCase` never produces an ASCII capital. */
  lemma LowerSinMayusculas(c: char)
    ensures !('A' <= LowerChar(c) <= 'Z')
  {
  }

  /** Every character left after lowering, trimming and the first replacement is kept, and none is a capital. */
  lemma FiltradoMinusculas(text: string)
    ensures Filtrable(Conservar(Trim(Lower(text))))
  {
    var l := Lower(text);
    var t := Trim(l);
    TrimSpec(l);
    var i0, j0 :| 0 <= i0 <= j0 <= |l| && t == l[i0..j0];
    forall x | x in t ensures !('A' <= x <= 'Z') {
      var i :| 0 <= i < |t| && t[i] == x;
      assert t[i] == l[i0 + i];
      LowerSinMayusculas(text[i0 + i]);
    }
    var f := Conservar(t);
    forall i | 0 <= i < |f| ensures Conservado(f[i]) && !('A' <= f[i] <= 'Z') {
      assert f[i] in t;
    }
  }

  /** A kept character that is not a capital and not a separator is a slug character. */
  lemma ConservadoSlug(c: char)
    requires Conservado(c) && !('A' <= c <= 'Z') && !Separador(c)
    ensures SlugChar(c)
  {
  }

  /** Replacing the separator runs of such a string by '-' leaves only slug characters and no '--'. */
  lemma GuionesSimples(f: string)
    requires Filtrable(f)
    ensures SlugChars(Reemplazar(f, Separador, '-'))
    ensures Aislados(Reemplazar(f, Separador, '-'), EsGuion)
  {
    var g := Reemplazar(f, Separador, '-');
    ReemplazarCaracteres(f, Separador, '-');
    ReemplazarAislados(f, Separador, '-');
    forall i | 0 <= i < |g| ensures SlugChar(g[i]) {
      assert g[i] == '-' || (!Separador(g[i]) && g[i] in f);
      if g[i] != '-' {
        var k :| 0 <= k < |f| && f[k] == g[i];
        ConservadoSlug(f[k]);
      }
    }
    forall i | 0 <= i < |g| - 1 ensures !(g[i] == '-' && g[i + 1] == '-') {
      assert !(Separador(g[i]) && Separador(g[i + 1]));
    }
  }

  /** Dropping the leading and trailing hyphens of such a string makes it a slug. */
  lemma SinGuionesExtremos(g: string)
    requires SlugChars(g) && Aislados(g, EsGuion)
    ensures EsSlug(SaltarFin(Saltar(g, EsGuion), EsGuion))
  {
    var h := Saltar(g, EsGuion);
    var r := SaltarFin(h, EsGuion);
    TrozoSlug(g, |g| - |h|, |g|);
    assert h == g[|g| - |h|..|g|];
    TrozoSlug(h, 0, |r|);
    assert r == h[0..|r|];
    assert r != [] ==> r[0] == h[0];
  }

  /** A piece of a string of slug characters with isolated hyphens is one too. */
  lemma TrozoSlug(g: string, i: nat, j: nat)
    requires i <= j <= |g| && SlugChars(g) && Aislados(g, EsGuion)
    ensures SlugChars(g[i..j]) && Aislados(g[i..j], EsGuion)
  {
    var r := g[i..j];
    forall n | 0 <= n < |r| ensures SlugChar(r[n]) {
      assert r[n] == g[i + n];
    }
    forall n | 0 <= n < |r| - 1 ensures !(EsGuion(r[n]) && EsGuion(r[n + 1])) {
      assert r[n] == g[i + n] && r[n + 1] == g[i + n + 1];
    }
  }

  /** A slug holds only `[a-z0-9-]`, neither starts nor ends with '-', and has no '--'. */
  lemma GenerateSlugSpec(text: string)
    ensures EsSlug(GenerateSlug(text))
  {
    FiltradoMinusculas(text);
    var f := Conservar(Trim(Lower(text)));
    GuionesSimples(f);
    SinGuionesExtremos(Reemplazar(f, Separador, '-'));
  }

  /** What every step of the slug rule does to one slug character: nothing. */
  lemma SlugCharFijo(c: char)
    requires SlugChar(c)
    ensures LowerChar(c) == c && !IsSpace(c) && Conservado(c) && (Separador(c) ==> c == '-')
  {
  }

  /** `toLowerCase`, `trim` and the first replacement leave a slug alone. */
  lemma PasosDeSlug(s: string)
    requires EsSlug(s)
    ensures Lower(s) == s && Trim(s) == s && Conservar(s) == s
  {
    forall i | 0 <= i < |s| ensures LowerChar(s[i]) == s[i] && Conservado(s[i]) {
      SlugCharFijo(s[i]);
    }
    if s != [] {
      SlugCharFijo(s[0]);
      SlugCharFijo(s[|s| - 1]);
    }
    assert Trimmed(s);
    TrimOfTrimmed(s);
  }

  /** A slug is its own slug. */
  lemma GenerateSlugFijo(s: string)
    requires EsSlug(s)
    ensures GenerateSlug(s) == s
  {
    PasosDeSlug(s);
    forall i | 0 <= i < |s| && Separador(s[i]) ensures s[i] == '-' {
      SlugCharFijo(s[i]);
    }
    forall i | 0 <= i < |s| - 1 ensures !(Separador(s[i]) && Separador(s[i + 1])) {
      SlugCharFijo(s[i]);
      SlugCharFijo(s[i + 1]);
      assert !(EsGuion(s[i]) && EsGuion(s[i + 1]));
    }
    ReemplazarFijo(s, Separador, '-');
    assert Saltar(s, EsGuion) == s;
    assert SaltarFin(s, EsGuion) == s;
  }

  /** Generating a slug twice gives the same slug. */
  lemma GenerateSlugIdempotente(text: string)
    ensures GenerateSlug(GenerateSlug(text)) == GenerateSlug(text)
  {
    GenerateSlugSpec(text);
    GenerateSlugFijo(GenerateSlug(text));
  }

  // ---------------------------------------------------------------- simpleHash

  const Dos32 := 0x1_0000_0000
  const Dos31 := 0x8000_0000

  /** ECMAScript ToInt32: the integer congruent to `x` modulo 2^32 in [-2^31, 2^31). */
  function ToInt32(x: int): (r: int)
    ensures -Dos31 <= r < Dos31
    ensures (x - r) % Dos32 == 0
  {
    (x + Dos31) % Dos32 - Dos31
  }

  /** ToInt32 only sees its argument modulo 2^32. */
  lemma ToInt32Congruente(a: int, b: int)
    requires (a - b) % Dos32 == 0
    ensures ToInt32(a) == ToInt32(b)
  {
    var q := (a - b) / Dos32;
    assert a + Dos31 == (b + Dos31) + q * Dos32;
  }

  /** A 32-bit integer is its own ToInt32. */
  lemma ToInt32Fijo(x: int)
    requires -Dos31 <= x < Dos31
    ensures ToInt32(x) == x
  {
  }

  /** The UTF-16 code units of a string, which is what `length` and `charCodeAt` count. */
  function Utf16(s: string): (r: seq<int>)
    ensures forall i :: 0 <= i < |r| ==> 0 <= r[i] < 0x1_0000
    ensures |r| >= |s|
  {
    if s == [] then []
    else
      var k := s[0] as int;
      var u := if k < 0x1_0000 then [k] else [0xD800 + (k - 0x1_0000) / 0x400, 0xDC00 + (k - 0x1_0000) % 0x400];
      u + Utf16(s[1..])
  }

  /** A string of the Basic Multilingual Plane has one code unit per character, its code point. */
  lemma {:induction false} Utf16Bmp(s: string)
    requires forall i :: 0 <= i < |s| ==> s[i] as int < 0x1_0000
    ensures |Utf16(s)| == |s|
    ensures forall i :: 0 <= i < |s| ==> Utf16(s)[i] == s[i] as int
  {
    if s != [] {
      Utf16Bmp(s[1..]);
      assert forall i :: 1 <= i < |s| ==> s[i] == s[1..][i - 1];
    }
  }

  /** The hash of a sequence of code units: `h := ToInt32(31 * h + unit)` from 0, left to right. */
  function Hash(units: seq<int>): int
  {
    if units == [] then 0 else ToInt32(31 * Hash(units[..|units| - 1]) + units[|units| - 1])
  }

  /** `Number.prototype.toString(36)` on an integer. */
  function Base36(h: int): string
  {
    if h < 0 then "-" + NatToRadix(-h, 36) else NatToRadix(h, 36)
  }

  /** One step of the loop as written: `((hash << 5) - hash) + char`, then `hash & hash`. */
  function PasoJs(hash: int, ch: int): int
  {
    ToInt32(ToInt32(hash * 32) - hash + ch)
  }

  /** The shift-and-subtract step is the multiplication by 31, modulo 2^32. */
  lemma PasoEsPor31(hash: int, ch: int)
    ensures PasoJs(hash, ch) == ToInt32(31 * hash + ch)
  {
    var a := ToInt32(hash * 32);
    assert ((a - hash + ch) - (31 * hash + ch)) % Dos32 == (a - hash * 32) % Dos32 == 0;
    ToInt32Congruente(a - hash + ch, 31 * hash + ch);
  }

  /** `simpleHash(str)`. */
  method SimpleHash(str: string) returns (r: string)
    ensures r == Base36(Hash(Utf16(str)))
  {
    var units := Utf16(str);
    var hash := 0;
    var i := 0;
    while i < |units|
      invariant 0 <= i <= |units|
      invariant hash == Hash(units[..i])
    {
      var ch := units[i];
      PasoEsPor31(hash, ch);
      assert units[..i + 1][..i] == units[..i];
      hash := PasoJs(hash, ch);
      i := i + 1;
    }
    assert units[..i] == units;
    r := Base36(hash);
  }

  /** The hash is a 32-bit integer, the empty string hashes to "0", and one character hashes to its code unit. */
  lemma HashPropiedades(units: seq<int>, c: char)
    ensures -Dos31 <= Hash(units) < Dos31
    ensures Base36(Hash(Utf16(""))) == "0"
    ensures (c as int) < 0x1_0000 ==> Hash(Utf16([c])) == c as int
  {
    if (c as int) < 0x1_0000 {
      Utf16Bmp([c]);
      assert Utf16([c])[..0] == [];
    }
  }

  /** The base-36 text starts with '-' exactly for a negative number. */
  lemma Base36Signo(h: int)
    ensures Base36(h) != [] && (Base36(h)[0] == '-' <==> h < 0)
  {
    if h >= 0 {
      assert DigitValue(NatToRadix(h, 36)[0]) < 36;
    }
  }

  /** Different hashes are written differently in base 36. */
  lemma Base36Inyectivo(a: int, b: int)
    requires Base36(a) == Base36(b)
    ensures a == b
  {
    Base36Signo(a);
    Base36Signo(b);
    if a < 0 {
      Base36Negativo(a);
      Base36Negativo(b);
      RadixInyectivo(-a, -b, 36);
    } else {
      RadixInyectivo(a, b, 36);
    }
  }

  /** After the '-' of a negative number come the digits of its magnitude. */
  lemma Base36Negativo(h: int)
    requires h < 0
    ensures Base36(h)[1..] == NatToRadix(-h, 36)
  {
  }

  lemma RadixInyectivo(m: nat, n: nat, base: nat)
    requires 2 <= base <= 36 && NatToRadix(m, base) == NatToRadix(n, base)
    ensures m == n
  {
    RadixRoundTrip(m, base);
    RadixRoundTrip(n, base);
  }

  // ---------------------------------------------------------------- hasRequiredProperties, filterProperties

  /** A plain object: its own properties; `Nulo` stands for `null` and `undefined` alike. */
  type Objeto = map<string, Valor>

  /** `requiredProps.every(prop => obj.hasOwnProperty(prop) && obj[prop] != null)`. */
  function HasRequiredProperties(obj: Objeto, required: seq<string>): (b: bool)
    ensures b <==> forall p :: p in required ==> p in obj && obj[p] != Nulo
  {
    if required == [] then true
    else required[0] in obj && obj[required[0]] != Nulo && HasRequiredProperties(obj, required[1..])
  }

  /** The object `filterProperties` builds: the allowed keys the object owns, with their values. */
  function Filtrado(obj: Objeto, allowed: seq<string>): Objeto
  {
    map k | k in obj && k in allowed :: obj[k]
  }

  /** `filterProperties(obj, allowedProps)`: the `forEach` that copies each owned allowed key. */
  method FilterProperties(obj: Objeto, allowed: seq<string>) returns (filtered: Objeto)
    ensures filtered == Filtrado(obj, allowed)
  {
    filtered := map[];
    var i := 0;
    while i < |allowed|
      invariant 0 <= i <= |allowed|
      invariant filtered == Filtrado(obj, allowed[..i])
    {
      var prop := allowed[i];
      assert forall k :: k in allowed[..i + 1] <==> k in allowed[..i] || k == prop;
      if prop in obj {
        filtered := filtered[prop := obj[prop]];
      }
      i := i + 1;
    }
    assert allowed[..i] == allowed;
  }

  /**
   * Filtering keeps exactly the allowed keys the object owns, with their
   * values; filtering again changes nothing, and the required properties
   * survive a filter that allows them.
   */
  lemma FiltradoPropiedades(obj: Objeto, allowed: seq<string>, required: seq<string>)
    ensures Filtrado(obj, allowed).Keys == obj.Keys * set k | k in allowed
    ensures forall k :: k in Filtrado(obj, allowed) ==> Filtrado(obj, allowed)[k] == obj[k]
    ensures Filtrado(Filtrado(obj, allowed), allowed) == Filtrado(obj, allowed)
    ensures (forall p :: p in required ==> p in allowed) && HasRequiredProperties(obj, required) ==>
              HasRequiredProperties(Filtrado(obj, allowed), required)
  {
  }

  // ---------------------------------------------------------------- groupBy

  /** A value used as a property name: `String(value)`. */
  function NombreDe(v: Valor): string
  {
    match v
    case Cadena(s) => s
    case Numero(n) => IntToString(n)
    case Booleano(b) => if b then "true" else "false"
    case Nulo => "null"
  }

  /** The group name of an item: `item[key]` as a property name, 'undefined' when the item lacks it. */
  function ClaveDe(item: Objeto, key: string): string
  {
    if key in item then NombreDe(item[key]) else "undefined"
  }

  function MismaClave(key: string, g: string): Objeto -> bool
  {
    item => ClaveDe(item, key) == g
  }

  /** The groups after `reduce` has pushed every item onto the array of its group. */
  function Agrupar(xs: seq<Objeto>, key: string): map<string, seq<Objeto>>
  {
    if xs == [] then map[]
    else
      var groups := Agrupar(xs[..|xs| - 1], key);
      var item := xs[|xs| - 1];
      var g := ClaveDe(item, key);
      groups[g := (if g in groups then groups[g] else []) + [item]]
  }

  /** `groupBy(array, key)`. */
  method GroupBy(xs: seq<Objeto>, key: string) returns (groups: map<string, seq<Objeto>>)
    ensures groups == Agrupar(xs, key)
  {
    groups := map[];
    var i := 0;
    while i < |xs|
      invariant 0 <= i <= |xs|
      invariant groups == Agrupar(xs[..i], key)
    {
      var item := xs[i];
      var g := ClaveDe(item, key);
      assert xs[..i + 1][..i] == xs[..i];
      if g !in groups {
        groups := groups[g := []];
      }
      groups := groups[g := groups[g] + [item]];
      i := i + 1;
    }
    assert xs[..i] == xs;
  }

  /** The group names are exactly the names of the items. */
  lemma {:induction false} AgruparNombres(xs: seq<Objeto>, key: string)
    ensures Agrupar(xs, key).Keys == set x | x in xs :: ClaveDe(x, key)
  {
    if xs != [] {
      var prev := xs[..|xs| - 1];
      var item := xs[|xs| - 1];
      AgruparNombres(prev, key);
      assert xs == prev + [item];
      assert (set x | x in xs :: ClaveDe(x, key)) == (set x | x in prev :: ClaveDe(x, key)) + {ClaveDe(item, key)};
    }
  }

  /** The group named `g`, when there is one, holds the items of that name in their original order; when there is none, no item has that name. */
  lemma {:induction false} AgruparGrupo(xs: seq<Objeto>, key: string, g: string)
    ensures Relational.Filter(xs, MismaClave(key, g)) == if g in Agrupar(xs, key) then Agrupar(xs, key)[g] else []
  {
    if xs != [] {
      var prev := xs[..|xs| - 1];
      var item := xs[|xs| - 1];
      AgruparGrupo(prev, key, g);
      assert xs == prev + [item];
      Relational.FilterAppend(prev, item, MismaClave(key, g));
    }
  }

  /**
   * The group names are exactly the names of the items, and each group
   * holds the items of its name in their original order.
   */
  lemma AgruparSpec(xs: seq<Objeto>, key: string)
    ensures Agrupar(xs, key).Keys == set x | x in xs :: ClaveDe(x, key)
    ensures forall g :: g in Agrupar(xs, key) ==> Agrupar(xs, key)[g] == Relational.Filter(xs, MismaClave(key, g))
  {
    AgruparNombres(xs, key);
    forall g | g in Agrupar(xs, key) ensures Agrupar(xs, key)[g] == Relational.Filter(xs, MismaClave(key, g)) {
      AgruparGrupo(xs, key, g);
    }
  }

  /** The group names in the order of their first item. */
  function Nombres(xs: seq<Objeto>, key: string): seq<string>
  {
    if xs == [] then []
    else
      var ns := Nombres(xs[..|xs| - 1], key);
      var g := ClaveDe(xs[|xs| - 1], key);
      if g in ns then ns else ns + [g]
  }

  /** The sizes of the groups named in `ns`, added up. */
  function Total(ns: seq<string>, groups: map<string, seq<Objeto>>): nat
  {
    if ns == [] then 0 else (if ns[0] in groups then |groups[ns[0]]| else 0) + Total(ns[1..], groups)
  }

  predicate Distintos(ns: seq<string>)
  {
    forall i, j :: 0 <= i < j < |ns| ==> ns[i] != ns[j]
  }

  /** Replacing a group named once in `ns` changes the total by the difference in size. */
  lemma {:induction false} TotalActualizar(ns: seq<string>, groups: map<string, seq<Objeto>>, g: string, v: seq<Objeto>)
    requires Distintos(ns) && g in groups
    ensures g in ns ==> Total(ns, groups[g := v]) + |groups[g]| == Total(ns, groups) + |v|
    ensures g !in ns ==> Total(ns, groups[g := v]) == Total(ns, groups)
  {
    if ns != [] {
      assert Distintos(ns[1..]) by {
        forall i, j | 0 <= i < j < |ns| - 1 ensures ns[1..][i] != ns[1..][j] {
          assert ns[i + 1] != ns[j + 1];
        }
      }
      TotalActualizar(ns[1..], groups, g, v);
      if ns[0] == g {
        assert g !in ns[1..] by {
          forall i | 0 <= i < |ns| - 1 ensures ns[1..][i] != g {
            assert ns[i + 1] != ns[0];
          }
        }
      } else {
        assert g in ns ==> g in ns[1..];
      }
    }
  }

  /** Adding a new name at the end adds its group's size. */
  lemma {:induction false} TotalAlFinal(ns: seq<string>, groups: map<string, seq<Objeto>>, g: string)
    ensures Total(ns + [g], groups) == Total(ns, groups) + (if g in groups then |groups[g]| else 0)
  {
    if ns != [] {
      assert (ns + [g])[1..] == ns[1..] + [g];
      TotalAlFinal(ns[1..], groups, g);
    }
  }

  /**
   * Every item lands in exactly one group: the names in first-item order
   * are distinct, they are the group names, and the group sizes add up to
   * the number of items.
   */
  lemma {:induction false} AgruparCuenta(xs: seq<Objeto>, key: string)
    ensures Distintos(Nombres(xs, key))
    ensures forall g :: g in Nombres(xs, key) <==> g in Agrupar(xs, key)
    ensures Total(Nombres(xs, key), Agrupar(xs, key)) == |xs|
  {
    if xs != [] {
      var prev := xs[..|xs| - 1];
      var g := ClaveDe(xs[|xs| - 1], key);
      AgruparCuenta(prev, key);
      var ns := Nombres(prev, key);
      var groups := Agrupar(prev, key);
      if g in ns {
        TotalActualizar(ns, groups, g, groups[g] + [xs[|xs| - 1]]);
      } else {
        assert g !in groups;
        assert Nombres(xs, key) == ns + [g];
        assert [] + [xs[|xs| - 1]] == [xs[|xs| - 1]];
        assert Agrupar(xs, key) == groups[g := [] + [xs[|xs| - 1]]];
        TotalAlFinal(ns, Agrupar(xs, key), g);
        TotalNoNombrado(ns, groups, g, [xs[|xs| - 1]]);
      }
    }
  }

  /** A group the names do not mention does not count towards the total. */
  lemma {:induction false} TotalNoNombrado(ns: seq<string>, groups: map<string, seq<Objeto>>, g: string, v: seq<Objeto>)
    requires g !in ns
    ensures Total(ns, groups[g := v]) == Total(ns, groups)
  {
    if ns != [] {
      TotalNoNombrado(ns[1..], groups, g, v);
    }
  }

  // ---------------------------------------------------------------- calculateStats

  /** The integer fields of the result; `avg` is left out. */
  datatype Stats = Stats(sum: int, min: int, max: int, count: nat)

  /** `numbers.reduce((acc, num) => acc + num, 0)`. */
  function Suma(xs: seq<int>): int
  {
    if xs == [] then 0 else Suma(xs[..|xs| - 1]) + xs[|xs| - 1]
  }

  /** `Math.min(...numbers)`. */
  function Minimo(xs: seq<int>): (m: int)
    requires xs != []
    ensures m in xs && forall x :: x in xs ==> m <= x
  {
    if |xs| == 1 then xs[0]
    else
      var m := Minimo(xs[1..]);
      assert forall x :: x in xs ==> x == xs[0] || x in xs[1..];
      if xs[0] <= m then xs[0] else m
  }

  /** `Math.max(...numbers)`. */
  function Maximo(xs: seq<int>): (m: int)
    requires xs != []
    ensures m in xs && forall x :: x in xs ==> x <= m
  {
    if |xs| == 1 then xs[0]
    else
      var m := Maximo(xs[1..]);
      assert forall x :: x in xs ==> x == xs[0] || x in xs[1..];
      if xs[0] >= m then xs[0] else m
  }

  /** `calculateStats(numbers)`, where a missing array is `None`. */
  function CalculateStats(numbers: Option<seq<int>>): Stats
  {
    if numbers.None? || numbers.value == [] then Stats(0, 0, 0, 0)
    else Stats(Suma(numbers.value), Minimo(numbers.value), Maximo(numbers.value), |numbers.value|)
  }

  /** The sum lies between `count` times the minimum and `count` times the maximum. */
  lemma {:induction false} SumaAcotada(xs: seq<int>, lo: int, hi: int)
    requires forall x :: x in xs ==> lo <= x <= hi
    ensures |xs| * lo <= Suma(xs) <= |xs| * hi
  {
    if xs != [] {
      var prev := xs[..|xs| - 1];
      assert forall x :: x in prev ==> x in xs;
      SumaAcotada(prev, lo, hi);
      assert xs[|xs| - 1] in xs;
      assert |xs| * lo == |prev| * lo + lo && |xs| * hi == |prev| * hi + hi;
    }
  }

  /** The sum of two pieces is the sum of the whole. */
  lemma {:induction false} SumaConcat(a: seq<int>, b: seq<int>)
    ensures Suma(a + b) == Suma(a) + Suma(b)
    decreases |b|
  {
    if b != [] {
      assert (a + b)[..|a + b| - 1] == a + b[..|b| - 1];
      assert (a + b)[|a + b| - 1] == b[|b| - 1];
      assert a + b != [];
      assert Suma(a + b) == Suma(a + b[..|b| - 1]) + b[|b| - 1];
      SumaConcat(a, b[..|b| - 1]);
    } else {
      assert a + b == a;
    }
  }

  /**
   * No array gives all zeros; otherwise the count is the length, the sum
   * is the total, the minimum and maximum are elements with the minimum at
   * most the maximum, and the sum lies between count·min and count·max.
   */
  lemma CalculateStatsSpec(numbers: Option<seq<int>>)
    ensures numbers.None? || numbers.value == [] ==> CalculateStats(numbers) == Stats(0, 0, 0, 0)
    ensures numbers.Some? && numbers.value != [] ==>
      var r := CalculateStats(numbers);
      && r.count == |numbers.value| && r.sum == Suma(numbers.value)
      && r.min in numbers.value && r.max in numbers.value && r.min <= r.max
      && r.count * r.min <= r.sum <= r.count * r.max
  {
    if numbers.Some? && numbers.value != [] {
      var xs := numbers.value;
      SumaAcotada(xs, Minimo(xs), Maximo(xs));
    }
  }
}
