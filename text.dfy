/**
 * The JavaScript string operations the backend and the client rely on:
 * `trim`, `toUpperCase`/`toLowerCase`, `includes`, `startsWith`, `split`,
 * and rendering and parsing of integers in a radix; and PostgreSQL's
 * `LIKE`/`ILIKE` patterns, which the searches bind.
 *
 * Strings are sequences of Unicode scalar values. Case mapping covers only
 * ASCII and the Latin-1 letters used in Spanish names (á, é, í, ó, ú, ñ, ü,
 * ...), one character to one: `'ß'` and letters beyond Latin-1 keep their case.
 */
module Text {
  import opened Wrappers

  // ---------------------------------------------------------------- whitespace

  /** A character of the ECMAScript WhiteSpace or LineTerminator sets, which is what `\s` and `trim` use. */
  predicate IsSpace(c: char)
  {
    var k := c as int;
    k == 0x09 || k == 0x0A || k == 0x0B || k == 0x0C || k == 0x0D || k == 0x20
    || k == 0xA0 || k == 0x1680 || (0x2000 <= k <= 0x200A) || k == 0x2028
    || k == 0x2029 || k == 0x202F || k == 0x205F || k == 0x3000 || k == 0xFEFF
  }

  /** `String.prototype.trimStart`: the longest suffix that does not start with whitespace. */
  function TrimStart(s: string): string
  {
    if s != [] && IsSpace(s[0]) then TrimStart(s[1..]) else s
  }

  /** `trimStart` drops a whitespace prefix and leaves none at the front. */
  lemma {:induction false} TrimStartSpec(s: string)
    ensures var r := TrimStart(s);
            && |r| <= |s| && r == s[|s| - |r|..]
            && (r != [] ==> !IsSpace(r[0]))
            && forall i :: 0 <= i < |s| - |r| ==> IsSpace(s[i])
    decreases |s|
  {
    if s != [] && IsSpace(s[0]) {
      TrimStartSpec(s[1..]);
      assert forall i :: 1 <= i < |s| ==> s[i] == s[1..][i - 1];
    }
  }

  /** `String.prototype.trimEnd`: the longest prefix that does not end with whitespace. */
  function TrimEnd(s: string): string
  {
    if s != [] && IsSpace(s[|s| - 1]) then TrimEnd(s[..|s| - 1]) else s
  }

  /** `trimEnd` drops a whitespace suffix and leaves none at the back. */
  lemma {:induction false} TrimEndSpec(s: string)
    ensures var r := TrimEnd(s);
            && |r| <= |s| && r == s[..|r|]
            && (r != [] ==> !IsSpace(r[|r| - 1]))
            && forall i :: |r| <= i < |s| ==> IsSpace(s[i])
    decreases |s|
  {
    if s != [] && IsSpace(s[|s| - 1]) {
      TrimEndSpec(s[..|s| - 1]);
    }
  }

  /** `String.prototype.trim`. */
  function Trim(s: string): string
  {
    TrimEnd(TrimStart(s))
  }

  /** Whitespace-free at both ends. */
  predicate Trimmed(s: string)
  {
    s != [] ==> !IsSpace(s[0]) && !IsSpace(s[|s| - 1])
  }

  /** `trim` removes whitespace only, from the two ends only, and leaves none there. */
  lemma TrimSpec(s: string)
    ensures Trimmed(Trim(s))
    ensures exists i, j ::
      (0 <= i <= j <= |s| && Trim(s) == s[i..j]
       && (forall k :: 0 <= k < i ==> IsSpace(s[k]))
       && (forall k :: j <= k < |s| ==> IsSpace(s[k])))
  {
    var a := TrimStart(s);
    TrimStartSpec(s);
    TrimEndSpec(a);
    var i := |s| - |a|;
    var j := i + |TrimEnd(a)|;
    var r := TrimEnd(a);
    assert a == s[i..] && r == a[..j - i];
    assert Trim(s) == s[i..j];
    TrimRecortado(s);
    forall k | j <= k < |s| ensures IsSpace(s[k]) {
      assert s[k] == a[k - i];
    }
    assert (forall k :: 0 <= k < i ==> IsSpace(s[k])) && (forall k :: j <= k < |s| ==> IsSpace(s[k]));
  }

  /** `trim` leaves no whitespace at either end. */
  lemma TrimRecortado(s: string)
    ensures Trimmed(Trim(s))
  {
    var a := TrimStart(s);
    TrimStartSpec(s);
    TrimEndSpec(a);
    var r := TrimEnd(a);
    if r != [] {
      assert r[0] == a[0];
    }
  }

  /** A string that is already trimmed is left alone by `trim`. */
  lemma TrimOfTrimmed(s: string)
    requires Trimmed(s)
    ensures Trim(s) == s
  {
  }

  /** `trim` is idempotent. */
  lemma TrimIdempotent(s: string)
    ensures Trim(Trim(s)) == Trim(s)
  {
    TrimSpec(s);
    TrimOfTrimmed(Trim(s));
  }

  /** `s.trim() === ''` holds exactly for strings made only of whitespace. */
  lemma TrimEmptyIff(s: string)
    ensures Trim(s) == [] <==> forall k :: 0 <= k < |s| ==> IsSpace(s[k])
  {
    TrimStartSpec(s);
    TrimEndSpec(TrimStart(s));
  }

  // ---------------------------------------------------------------- letter case

  /** `toUpperCase` on one character: ASCII and Latin-1 lower-case letters. */
  function UpperChar(c: char): char
  {
    var k := c as int;
    if 0x61 <= k <= 0x7A then (k - 32) as char
    else if 0xE0 <= k <= 0xFE && k != 0xF7 then (k - 32) as char
    else if k == 0xFF then 0x178 as char
    else if k == 0xB5 then 0x39C as char
    else c
  }

  /** `toLowerCase` on one character: ASCII and Latin-1 upper-case letters, and Ÿ. */
  function LowerChar(c: char): char
  {
    var k := c as int;
    if 0x41 <= k <= 0x5A then (k + 32) as char
    else if 0xC0 <= k <= 0xDE && k != 0xD7 then (k + 32) as char
    else if k == 0x178 then 0xFF as char
    else c
  }

  /** `String.prototype.toUpperCase`, for the letters `UpperChar` folds. */
  function Upper(s: string): (r: string)
    ensures |r| == |s|
    ensures forall i :: 0 <= i < |s| ==> r[i] == UpperChar(s[i])
  {
    if s == [] then [] else [UpperChar(s[0])] + Upper(s[1..])
  }

  /** `String.prototype.toLowerCase`, for the letters `LowerChar` folds. */
  function Lower(s: string): (r: string)
    ensures |r| == |s|
    ensures forall i :: 0 <= i < |s| ==> r[i] == LowerChar(s[i])
  {
    if s == [] then [] else [LowerChar(s[0])] + Lower(s[1..])
  }

  /** No character that `toUpperCase` would change. */
  predicate IsUpper(s: string)
  {
    forall i :: 0 <= i < |s| ==> UpperChar(s[i]) == s[i]
  }

  lemma UpperCharIdempotent(c: char)
    ensures UpperChar(UpperChar(c)) == UpperChar(c)
  {
  }

  lemma UpperCharSpace(c: char)
    ensures IsSpace(UpperChar(c)) <==> IsSpace(c)
  {
  }

  /** The result of `toUpperCase` is upper case, so a second call changes nothing. */
  lemma UpperIsUpper(s: string)
    ensures IsUpper(Upper(s))
    ensures Upper(Upper(s)) == Upper(s)
  {
    forall i | 0 <= i < |s| ensures UpperChar(Upper(s)[i]) == Upper(s)[i] {
      UpperCharIdempotent(s[i]);
    }
  }

  /** Upper-casing never creates or removes whitespace, so it commutes with `trim`. */
  lemma UpperTrimCommute(s: string)
    ensures Trim(Upper(s)) == Upper(Trim(s))
  {
    forall c: char ensures IsSpace(UpperChar(c)) <==> IsSpace(c) {
      UpperCharSpace(c);
    }
    TrimStartUpper(s);
    TrimEndUpper(TrimStart(s));
  }

  lemma {:induction false} TrimStartUpper(s: string)
    ensures TrimStart(Upper(s)) == Upper(TrimStart(s))
    decreases |s|
  {
    if s != [] {
      UpperCharSpace(s[0]);
      assert Upper(s)[1..] == Upper(s[1..]);
      if IsSpace(s[0]) {
        TrimStartUpper(s[1..]);
      }
    }
  }

  lemma {:induction false} TrimEndUpper(s: string)
    ensures TrimEnd(Upper(s)) == Upper(TrimEnd(s))
    decreases |s|
  {
    if s != [] {
      UpperCharSpace(s[|s| - 1]);
      assert Upper(s)[..|s| - 1] == Upper(s[..|s| - 1]);
      if IsSpace(s[|s| - 1]) {
        TrimEndUpper(s[..|s| - 1]);
      }
    }
  }

  // ---------------------------------------------------------------- searching

  /** `s.startsWith(p)`. */
  predicate StartsWith(s: string, p: string)
  {
    |p| <= |s| && s[..|p|] == p
  }

  /** `s.includes(sub)`: `sub` occurs somewhere in `s`. */
  predicate Contains(s: string, sub: string)
  {
    exists i :: 0 <= i <= |s| && StartsWith(s[i..], sub)
  }

  /** The scan `includes` performs; it agrees with `Contains`. */
  function Includes(s: string, sub: string): (b: bool)
    ensures b <==> Contains(s, sub)
    decreases |s|
  {
    if StartsWith(s, sub) then
      assert StartsWith(s[0..], sub);
      true
    else if s == [] then
      false
    else
      var rest := Includes(s[1..], sub);
      assert forall i :: 1 <= i <= |s| ==> s[i..] == s[1..][i - 1..];
      assert rest ==> exists i :: 1 <= i <= |s| && StartsWith(s[i..], sub) by {
        if rest {
          var j :| 0 <= j <= |s[1..]| && StartsWith(s[1..][j..], sub);
          assert s[j + 1..] == s[1..][j..];
        }
      }
      rest
  }

  /** The empty string occurs in every string. */
  lemma ContainsEmpty(s: string)
    ensures Contains(s, "")
  {
    assert StartsWith(s[0..], "");
  }

  /** A string occurs in itself. */
  lemma ContainsSelf(s: string)
    ensures Contains(s, s)
  {
    assert StartsWith(s[0..], s);
  }

  /** Case-insensitive containment, as `a.toLowerCase().includes(b.toLowerCase())`. */
  predicate ContainsIgnoringCase(s: string, sub: string)
  {
    Contains(Lower(s), Lower(sub))
  }

  // ---------------------------------------------------------------- SQL LIKE and ILIKE

  /** The characters a `LIKE` pattern gives a meaning of their own: the wildcards `%` and `_`, and the escape `\`. */
  predicate Especial(c: char)
  {
    c == '%' || c == '_' || c == '\\'
  }

  /** A text with no pattern character: as a pattern it matches only itself. */
  predicate Literal(t: string)
  {
    forall i :: 0 <= i < |t| ==> !Especial(t[i])
  }

  /**
   * PostgreSQL's `s LIKE p` with its default escape `\`: `%` matches any run
   * of characters, `_` any one character, `\` makes the next character
   * literal, and every other character matches itself. A lone `\` at the
   * end, which PostgreSQL refuses, is read as itself; it cannot end a
   * pattern of the form `'%' || term || '%'`.
   */
  predicate Like(s: string, p: string)
    decreases |s| + |p|
  {
    if p == [] then s == []
    else if p[0] == '%' then Like(s, p[1..]) || (s != [] && Like(s[1..], p))
    else if p[0] == '_' then s != [] && Like(s[1..], p[1..])
    else if p[0] == '\\' && |p| >= 2 then s != [] && s[0] == p[1] && Like(s[1..], p[2..])
    else s != [] && s[0] == p[0] && Like(s[1..], p[1..])
  }

  /** `s ILIKE '%' || term || '%'`, the condition the searches bind: `LIKE` on the lower-cased texts. */
  predicate ILikeContains(s: string, term: string)
  {
    Like(Lower(s), "%" + Lower(term) + "%")
  }

  /** `%` alone matches every string. */
  lemma {:induction false} LikeTodo(s: string)
    ensures Like(s, "%")
    decreases |s|
  {
    if s != [] {
      LikeTodo(s[1..]);
    }
  }

  /** The empty term gives the pattern `'%%'`, which matches every string. */
  lemma ILikeVacio(s: string)
    ensures ILikeContains(s, "")
  {
    assert "%" + Lower("") + "%" == "%%";
    LikeTodo(Lower(s));
    assert "%%"[1..] == "%";
  }

  /** A literal pattern followed by `%` matches exactly the strings that start with it. */
  lemma {:induction false} LikePrefijo(s: string, t: string)
    requires Literal(t)
    ensures Like(s, t + "%") <==> StartsWith(s, t)
    decreases |t|
  {
    if t == [] {
      LikeTodo(s);
      assert t + "%" == "%";
    } else {
      var p := t + "%";
      assert p[0] == t[0] && p[1..] == t[1..] + "%";
      assert !Especial(t[0]);
      if s != [] {
        assert Literal(t[1..]) by {
          forall i | 0 <= i < |t[1..]| ensures !Especial(t[1..][i]) {
            assert t[1..][i] == t[i + 1];
          }
        }
        LikePrefijo(s[1..], t[1..]);
        if StartsWith(s, t) {
          assert s[1..][..|t| - 1] == s[..|t|][1..];
        }
        if s[0] == t[0] && StartsWith(s[1..], t[1..]) {
          assert s[..|t|] == [s[0]] + s[1..][..|t| - 1];
        }
      }
    }
  }

  /** A leading `%` lets the rest of the pattern match any suffix. */
  lemma {:induction false} LikeSufijo(s: string, q: string)
    ensures Like(s, "%" + q) <==> exists i :: 0 <= i <= |s| && Like(s[i..], q)
    decreases |s|
  {
    var p := "%" + q;
    assert p[0] == '%' && p[1..] == q;
    assert s[0..] == s;
    if s != [] {
      LikeSufijo(s[1..], q);
      if exists i :: 1 <= i <= |s| && Like(s[i..], q) {
        var i :| 1 <= i <= |s| && Like(s[i..], q);
        assert s[1..][i - 1..] == s[i..];
      }
      if exists j :: 0 <= j <= |s[1..]| && Like(s[1..][j..], q) {
        var j :| 0 <= j <= |s[1..]| && Like(s[1..][j..], q);
        assert s[1..][j..] == s[j + 1..];
      }
    }
  }

  /** For a term without pattern characters, `ILIKE '%term%'` is the case-insensitive substring test. */
  lemma ILikeLiteral(s: string, term: string)
    requires Literal(term)
    ensures ILikeContains(s, term) <==> ContainsIgnoringCase(s, term)
  {
    var u := Lower(s);
    var t := Lower(term);
    assert Literal(t);
    assert "%" + t + "%" == "%" + (t + "%");
    LikeSufijo(u, t + "%");
    forall i | 0 <= i <= |u| ensures Like(u[i..], t + "%") <==> StartsWith(u[i..], t) {
      LikePrefijo(u[i..], t);
    }
  }

  /** In the term `_` stands for any one character: the search `'_'` matches `'A'`, which has no `_`. */
  lemma ILikeUnCaracter()
    ensures ILikeContains("A", "_") && !ContainsIgnoringCase("A", "_")
  {
    assert Lower("A") == "a";
    assert Lower("_") == "_";
    assert "%" + "_" + "%" == "%_%";
    assert Like("", "%") by {
      assert "%"[1..] == "";
    }
    assert Like("a", "_%") by {
      assert "_%"[1..] == "%" && "a"[1..] == "";
    }
    assert Like("a", "%_%") by {
      assert "%_%"[1..] == "_%";
    }
    assert !StartsWith("a"[0..], "_") && !StartsWith("a"[1..], "_");
  }

  /** In the term `%` stands for any run of characters: the search `'a%z'` matches `'ABZ'`. */
  lemma ILikeTramo()
    ensures ILikeContains("ABZ", "a%z")
  {
    assert Lower("ABZ") == "abz";
    assert Lower("a%z") == "a%z";
    assert "%" + "a%z" + "%" == "%a%z%";
    assert Like("", "%") by {
      assert "%"[1..] == "";
    }
    assert Like("z", "z%") by {
      assert "z%"[1..] == "%" && "z"[1..] == "";
    }
    assert Like("z", "%z%") by {
      assert "%z%"[1..] == "z%";
    }
    assert Like("bz", "%z%") by {
      assert "bz"[1..] == "z";
    }
    assert Like("abz", "a%z%") by {
      assert "a%z%"[1..] == "%z%" && "abz"[1..] == "bz";
    }
    assert Like("abz", "%a%z%") by {
      assert "%a%z%"[1..] == "a%z%";
    }
  }

  // ---------------------------------------------------------------- split and join

  /** Pieces joined with one separator between neighbours. */
  function Join(parts: seq<string>, sep: string): string
  {
    if parts == [] then ""
    else if |parts| == 1 then parts[0]
    else parts[0] + sep + Join(parts[1..], sep)
  }

  /** `s.split(c)` for a one-character separator: never empty, and no piece contains `c`. */
  function Split(s: string, c: char): (r: seq<string>)
    ensures |r| >= 1
    ensures forall i :: 0 <= i < |r| ==> c !in r[i]
  {
    if s == [] then [""]
    else if s[0] == c then [""] + Split(s[1..], c)
    else
      var rest := Split(s[1..], c);
      [[s[0]] + rest[0]] + rest[1..]
  }

  /** Joining the pieces of `split` with the separator gives back the string. */
  lemma {:induction false} JoinSplit(s: string, c: char)
    ensures Join(Split(s, c), [c]) == s
  {
    if s == [] {
    } else if s[0] == c {
      JoinSplit(s[1..], c);
      assert Split(s, c)[1..] == Split(s[1..], c);
    } else {
      JoinSplit(s[1..], c);
      var rest := Split(s[1..], c);
      var r := Split(s, c);
      assert r[1..] == rest[1..];
      if |rest| == 1 {
        assert r == [[s[0]] + rest[0]];
      } else {
        assert rest[1..][0] == rest[1];
        assert Join(rest, [c]) == rest[0] + [c] + Join(rest[1..], [c]);
        assert Join(r, [c]) == [s[0]] + rest[0] + [c] + Join(rest[1..], [c]);
      }
    }
  }

  /** A string without the separator is split into itself alone. */
  lemma {:induction false} SplitSinSeparador(s: string, c: char)
    requires c !in s
    ensures Split(s, c) == [s]
  {
    if s != [] {
      assert c !in s[1..];
      SplitSinSeparador(s[1..], c);
      assert s[0] != c;
      assert [s[0]] + s[1..] == s;
    }
  }

  /** The text before the first separator is the first piece, and the rest is split on its own. */
  lemma {:induction false} SplitConcat(a: string, c: char, b: string)
    requires c !in a
    ensures Split(a + [c] + b, c) == [a] + Split(b, c)
  {
    if a == [] {
      assert a + [c] + b == [c] + b;
      assert ([c] + b)[1..] == b;
    } else {
      assert (a + [c] + b)[1..] == a[1..] + [c] + b;
      assert c !in a[1..];
      SplitConcat(a[1..], c, b);
      assert [a[0]] + a[1..] == a;
    }
  }

  // ---------------------------------------------------------------- numbers as text

  predicate IsDigit(c: char)
  {
    '0' <= c <= '9'
  }

  predicate AllDigits(s: string)
  {
    forall i :: 0 <= i < |s| ==> IsDigit(s[i])
  }

  /** The digit characters `Number.prototype.toString(radix)` uses: 0-9 then a-z. */
  function RadixDigit(d: nat): (c: char)
    requires d < 36
  {
    if d < 10 then (0x30 + d) as char else (0x61 + d - 10) as char
  }

  /** The value of one radix digit character. */
  function DigitValue(c: char): (d: nat)
  {
    var k := c as int;
    if 0x30 <= k <= 0x39 then k - 0x30
    else if 0x61 <= k <= 0x7A then k - 0x61 + 10
    else 36
  }

  lemma DigitRoundTrip(d: nat)
    requires d < 36
    ensures DigitValue(RadixDigit(d)) == d
  {
  }

  /** A non-negative integer written in `base`, most significant digit first, without leading zeros. */
  function NatToRadix(n: nat, base: nat): (r: string)
    requires 2 <= base <= 36
    ensures |r| >= 1
    ensures |r| > 1 ==> r[0] != '0'
    ensures forall i :: 0 <= i < |r| ==> DigitValue(r[i]) < base
    decreases n
  {
    if n < base then [RadixDigit(n)]
    else
      DivModFacts(n, base);
      NatToRadix(n / base, base) + [RadixDigit(n % base)]
  }

  /** Euclidean division facts for a divisor of at least 2 and a dividend not below it. */
  lemma DivModFacts(n: nat, base: nat)
    requires 2 <= base <= n
    ensures 0 <= n % base < base
    ensures 1 <= n / base < n
    ensures n == (n / base) * base + n % base
  {
  }

  /** The value of a string of radix digits. */
  function RadixValue(s: string, base: nat): nat
    decreases |s|
  {
    if s == [] then 0
    else RadixValue(s[..|s| - 1], base) * base + DigitValue(s[|s| - 1])
  }

  /** Reading back the digits `NatToRadix` writes gives the number. */
  lemma {:induction false} RadixRoundTrip(n: nat, base: nat)
    requires 2 <= base <= 36
    ensures RadixValue(NatToRadix(n, base), base) == n
    decreases n
  {
    var r := NatToRadix(n, base);
    if n < base {
      DigitRoundTrip(n);
    } else {
      DivModFacts(n, base);
      RadixRoundTrip(n / base, base);
      DigitRoundTrip(n % base);
      assert r[..|r| - 1] == NatToRadix(n / base, base);
    }
  }

  /** Decimal writing of a natural number. */
  function NatToString(n: nat): string
  {
    NatToRadix(n, 10)
  }

  /** Decimal writing of an integer, as `String(i)` or a template literal does it. */
  function IntToString(i: int): string
  {
    if i < 0 then "-" + NatToString(-i) else NatToString(i)
  }

  /** Different numbers are written differently, so a rendered number identifies its value. */
  lemma NatToStringInjective(m: nat, n: nat)
    requires NatToString(m) == NatToString(n)
    ensures m == n
  {
    RadixRoundTrip(m, 10);
    RadixRoundTrip(n, 10);
  }

  /**
   * `Number(s)` for text, on the integers: blank text reads 0, an optional
   * sign followed by decimal digits reads that integer, and anything else is
   * NaN, here `None`.
   */
  function NumberText(s: string): (r: Option<int>)
  {
    var u := Trim(s);
    if u == "" then Some(0)
    else
      var body := if u[0] == '-' || u[0] == '+' then u[1..] else u;
      if body != "" && AllDigits(body) then
        var v: int := RadixValue(body, 10);
        Some(if u[0] == '-' then -v else v)
      else None
  }

  /** `Number(String(i)) == i`, whatever whitespace surrounds the text. */
  lemma NumberTextRoundTrip(i: int, pre: string, post: string)
    requires forall k :: 0 <= k < |pre| ==> IsSpace(pre[k])
    requires forall k :: 0 <= k < |post| ==> IsSpace(post[k])
    ensures NumberText(pre + IntToString(i) + post) == Some(i)
  {
    var s := IntToString(i);
    IntToStringLee(i);
    TrimAround(pre, s, post);
    TrimOfTrimmed(s);
  }

  /** The rendered integer has no surrounding whitespace and reads back as itself. */
  lemma IntToStringLee(i: int)
    ensures IntToString(i) != [] && Trimmed(IntToString(i)) && NumberText(IntToString(i)) == Some(i)
  {
    var n: nat := if i < 0 then -i else i;
    var d := NatToString(n);
    NatTextLee(n);
    var s := IntToString(i);
    if i < 0 {
      assert s[1..] == d && s[0] == '-' && s[|s| - 1] == d[|d| - 1];
      TrimOfTrimmed(s);
    } else {
      TrimOfTrimmed(d);
    }
  }

  /** The decimal writing of a natural number is a non-empty run of digits worth that number. */
  lemma NatTextLee(n: nat)
    ensures var d := NatToString(n);
      d != [] && AllDigits(d) && RadixValue(d, 10) == n && d[0] != '-' && d[0] != '+'
      && !IsSpace(d[0]) && !IsSpace(d[|d| - 1])
  {
    var d := NatToString(n);
    NatToStringDigits(n);
    RadixRoundTrip(n, 10);
    assert IsDigit(d[0]) && IsDigit(d[|d| - 1]);
  }

  /** Whitespace around a trimmed, non-empty string is what `trim` takes away. */
  lemma {:induction false} TrimAround(pre: string, s: string, post: string)
    requires s != [] && Trimmed(s)
    requires forall k :: 0 <= k < |pre| ==> IsSpace(pre[k])
    requires forall k :: 0 <= k < |post| ==> IsSpace(post[k])
    ensures Trim(pre + s + post) == s
    decreases |pre| + |post|
  {
    if pre != [] {
      assert (pre + s + post)[1..] == pre[1..] + s + post;
      TrimAround(pre[1..], s, post);
    } else if post != [] {
      assert pre + s + post == s + post;
      var q := post[..|post| - 1];
      assert (s + post)[..|s + post| - 1] == s + q;
      TrimAround([], s, q);
      assert [] + s + q == s + q;
      assert (s + post)[0] == s[0] && (s + q)[0] == s[0];
      assert TrimStart(s + post) == s + post;
      assert TrimStart(s + q) == s + q;
      assert (s + post)[|s + post| - 1] == post[|post| - 1];
      assert TrimEnd(s + post) == TrimEnd(s + q);
    }
  }

  /** The texts `Number` reads a number from: blank, or a sign and at least one digit, or digits. */
  lemma NumberTextSome(s: string)
    ensures var u := Trim(s);
      NumberText(s).Some? <==>
        u == "" || (u[0] in "+-" && |u| > 1 && AllDigits(u[1..])) || AllDigits(u)
  {
  }

  /** The longest prefix of decimal digits. */
  function DigitPrefix(s: string): (r: string)
    ensures |r| <= |s| && r == s[..|r|] && AllDigits(r)
    ensures |r| < |s| ==> !IsDigit(s[|r|])
  {
    if s != [] && IsDigit(s[0]) then [s[0]] + DigitPrefix(s[1..]) else ""
  }

  /** A hexadecimal digit, in either case. */
  predicate IsHexDigit(c: char)
  {
    IsDigit(c) || 'a' <= c <= 'f' || 'A' <= c <= 'F'
  }

  /** The longest prefix of hexadecimal digits. */
  function HexPrefix(s: string): (r: string)
    ensures |r| <= |s| && r == s[..|r|]
    ensures forall i :: 0 <= i < |r| ==> IsHexDigit(r[i])
    ensures |r| < |s| ==> !IsHexDigit(s[|r|])
  {
    if s != [] && IsHexDigit(s[0]) then [s[0]] + HexPrefix(s[1..]) else ""
  }

  /** The `0x` or `0X` with which `parseInt` without a radix switches to base 16. */
  predicate PrefijoHex(body: string)
  {
    |body| >= 2 && body[0] == '0' && (body[1] == 'x' || body[1] == 'X')
  }

  /**
   * `parseInt(s)` without a radix: leading whitespace is skipped, one sign
   * is allowed, then `0x` or `0X` selects base 16 and anything else base 10;
   * the longest run of digits of that base is read, and with no digit the
   * result is NaN, here `None`.
   */
  function ParseInt(s: string): (r: Option<int>)
  {
    var u := TrimStart(s);
    var body := if u != [] && (u[0] == '-' || u[0] == '+') then u[1..] else u;
    var hex := PrefijoHex(body);
    var d := if hex then HexPrefix(body[2..]) else DigitPrefix(body);
    var v: int := if hex then RadixValue(Lower(d), 16) else RadixValue(d, 10);
    if d == [] then None
    else if u[0] == '-' then Some(-v)
    else Some(v)
  }

  /**
   * `parseInt` gives NaN exactly when no digit of the base follows the
   * whitespace, the optional sign and the optional `0x`.
   */
  lemma ParseIntNone(s: string)
    ensures var u := TrimStart(s);
      var body := if u != [] && (u[0] == '-' || u[0] == '+') then u[1..] else u;
      ParseInt(s).None? <==>
        if PrefijoHex(body) then |body| == 2 || !IsHexDigit(body[2])
        else body == [] || !IsDigit(body[0])
  {
  }

  /** With no radix, `0x` reads the rest in base 16: `parseInt('0x2')` is 2, not the 0 of a decimal reading. */
  lemma ParseIntHex()
    ensures ParseInt("0x2") == Some(2)
  {
    assert TrimStart("0x2") == "0x2" by {
      assert !IsSpace('0');
    }
    assert "0x2"[2..] == "2";
    assert HexPrefix("2") == "2";
    assert Lower("2") == "2";
    assert RadixValue("2", 16) == 2 by {
      assert "2"[..0] == "";
    }
  }

  /** The sign comes before `0x`, which may be upper-case, and the digits may be too: `parseInt(' -0X1f')` is -31. */
  lemma ParseIntHexSigno()
    ensures ParseInt(" -0X1f") == Some(-31)
  {
    assert TrimStart(" -0X1f") == "-0X1f" by {
      assert IsSpace(' ') && !IsSpace('-');
      assert " -0X1f"[1..] == "-0X1f";
    }
    assert "-0X1f"[1..] == "0X1f" && "0X1f"[2..] == "1f";
    assert HexPrefix("1f") == "1f" by {
      assert "1f"[1..] == "f" && "f"[1..] == "";
    }
    assert Lower("1f") == "1f";
    assert RadixValue("1f", 16) == 31 by {
      assert "1f"[..1] == "1" && "1"[..0] == "";
    }
  }

  /** The digits `NatToRadix` writes in base 10 are decimal digits. */
  lemma NatToStringDigits(n: nat)
    ensures AllDigits(NatToString(n)) && NatToString(n) != []
  {
    var r := NatToString(n);
    forall i | 0 <= i < |r| ensures IsDigit(r[i]) {
      assert DigitValue(r[i]) < 10;
    }
  }

  /** A string of digits is its own longest digit prefix. */
  lemma {:induction false} DigitPrefixAll(s: string)
    requires AllDigits(s)
    ensures DigitPrefix(s) == s
  {
    if s != [] {
      DigitPrefixAll(s[1..]);
    }
  }

  /** Reading back a string that starts with a digit or a sign skips no whitespace. */
  lemma TrimStartNoSpace(s: string)
    requires s != [] && (IsDigit(s[0]) || s[0] == '-')
    ensures TrimStart(s) == s
  {
    assert !IsSpace(s[0]);
  }

  /** `parseInt(String(i)) == i`: reading back a rendered integer gives the integer. */
  lemma ParseIntRoundTrip(i: int)
    ensures ParseInt(IntToString(i)) == Some(i)
  {
    var n: nat := if i < 0 then -i else i;
    var d := NatToString(n);
    NatToStringDigits(n);
    DigitPrefixAll(d);
    RadixRoundTrip(n, 10);
    var s := IntToString(i);
    assert !PrefijoHex(d) by {
      if |d| >= 2 {
        assert IsDigit(d[1]);
      }
    }
    if i < 0 {
      assert s == "-" + d;
      TrimStartNoSpace(s);
      assert s[1..] == d;
    } else {
      TrimStartNoSpace(d);
    }
  }
}
