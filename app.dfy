/**
 * The two request rules of `backend/app.js` that decide something: the CORS
 * origin callback the application installs (which lets every localhost
 * origin through and trims its allowlist, unlike the one in the common
 * middleware), and the no-cache headers on `/api` paths.
 */
module App {
  import opened Wrappers
  import opened Text
  import Common

  const OrigenesPorDefecto := ["http://localhost:3000", "http://localhost:4200", "http://localhost:5173"]

  /** `CORS_ORIGINS` split on ',' with every piece trimmed, or the three defaults when unset or empty. */
  function Permitidos(env: Option<string>): (r: seq<string>)
    ensures env.Some? && env.value != "" ==>
      |r| == |Split(env.value, ',')| && forall i :: 0 <= i < |r| ==> r[i] == Trim(Split(env.value, ',')[i])
  {
    if env.Some? && env.value != "" then Recortados(Split(env.value, ',')) else OrigenesPorDefecto
  }

  /** `.map(origin => origin.trim())`. */
  function Recortados(xs: seq<string>): (r: seq<string>)
    ensures |r| == |xs| && forall i :: 0 <= i < |xs| ==> r[i] == Trim(xs[i])
  {
    if xs == [] then [] else [Trim(xs[0])] + Recortados(xs[1..])
  }

  /** Whether the callback answers `true` for the request's `Origin`. */
  function CorsOrigen(origin: Option<string>, env: Option<string>): bool
  {
    || origin.None? || origin.value == ""
    || Includes(origin.value, "localhost") || Includes(origin.value, "127.0.0.1")
    || origin.value in Permitidos(env)
  }

  /**
   * A missing origin and any origin mentioning 'localhost' or '127.0.0.1'
   * pass whatever the configuration; any other origin passes exactly when
   * it equals a trimmed entry of the allowlist.
   */
  lemma CorsOrigenSi(origin: Option<string>, env: Option<string>)
    ensures origin.None? || origin.value == "" ==> CorsOrigen(origin, env)
    ensures origin.Some? && (Contains(origin.value, "localhost") || Contains(origin.value, "127.0.0.1")) ==>
              CorsOrigen(origin, env)
    ensures origin.Some? && origin.value != "" && !Contains(origin.value, "localhost") && !Contains(origin.value, "127.0.0.1") ==>
              (CorsOrigen(origin, env) <==>
                 if env.Some? && env.value != "" then exists p :: p in Split(env.value, ',') && Trim(p) == origin.value
                 else origin.value in OrigenesPorDefecto)
  {
    if origin.Some? && env.Some? && env.value != "" {
      var ps := Split(env.value, ',');
      if origin.value in Permitidos(env) {
        var i :| 0 <= i < |ps| && Permitidos(env)[i] == origin.value;
        assert ps[i] in ps;
      }
    }
  }

  /** Every default origin is a localhost origin, so without `CORS_ORIGINS` only missing and local origins pass. */
  lemma DefectosLocales(origin: Option<string>)
    ensures CorsOrigen(origin, None) <==>
      origin.None? || origin.value == "" || Contains(origin.value, "localhost") || Contains(origin.value, "127.0.0.1")
  {
    forall o | o in OrigenesPorDefecto ensures Contains(o, "localhost") {
      assert StartsWith(o[7..], "localhost");
    }
  }

  /**
   * The application trims its allowlist where the common middleware does
   * not: with `'a, b'` configured, the origin `b` passes here and is refused
   * there.
   */
  lemma RecorteDistingue(a: string, b: string)
    requires ',' !in a && ',' !in b && a != b && b != "" && Trimmed(b)
    ensures CorsOrigen(Some(b), Some(a + ", " + b))
    ensures !Common.CorsOrigen(Some(b), Some(a + ", " + b))
  {
    Common.CorsSinRecorte(a, b);
    assert a + ", " + b == a + [','] + (" " + b);
    SplitConcat(a, ',', " " + b);
    SplitSinSeparador(" " + b, ',');
    assert Split(a + ", " + b, ',') == [a, " " + b];
    assert IsSpace(' ');
    assert TrimStart(" " + b) == TrimStart(b) by {
      assert (" " + b)[1..] == b;
    }
    TrimOfTrimmed(b);
    assert Trim(" " + b) == b;
    assert Permitidos(Some(a + ", " + b))[1] == b;
  }

  // ---------------------------------------------------------------- no-cache on /api

  const CabecerasSinCache := [
    ("Cache-Control", "no-store, no-cache, must-revalidate, proxy-revalidate, max-age=0"),
    ("Pragma", "no-cache"),
    ("Expires", "0"),
    ("Surrogate-Control", "no-store")
  ]

  /** The headers the middleware sets for a request path (`req.path`, when there is one). */
  function SinCache(path: Option<string>): seq<(string, string)>
  {
    if path.Some? && StartsWith(path.value, "/api") then CabecerasSinCache else []
  }

  /**
   * Exactly the paths that begin with '/api' get the four no-cache headers,
   * and every other path gets none; the test is a plain prefix, so
   * '/apidocs' counts as an API path too.
   */
  lemma SinCacheSi(path: Option<string>)
    ensures |SinCache(path)| == 4 <==> path.Some? && StartsWith(path.value, "/api")
    ensures SinCache(path) == [] <==> !(path.Some? && StartsWith(path.value, "/api"))
    ensures SinCache(Some("/apidocs")) == CabecerasSinCache
    ensures SinCache(Some("/health")) == []
  {
    assert "/apidocs"[..4] == "/api";
    assert "/health"[1] != "/api"[1];
  }
}
