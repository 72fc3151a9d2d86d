/** `_sanitize_for_reading` (airmet.py:526-567): a fixed chain of substitutions
    that turns a raw bulletin into text whose block, group and field
    boundaries are single reserved characters:
    `=` end of bulletin, `$` type/state separator, `+` group boundary,
    `*` header boundary, `&` header information, `#` former line break. */
module Sanitizer {
  import opened PyStr

  /** Start-of-heading, the control byte 0x01 that opens a bulletin. */
  const SOH: char := '\U{1}'
  /** Record separator, the control byte 0x1e before the header information. */
  const RS: char := '\U{1E}'

  /** `"...."` becomes `=`, then `"..."` becomes `$` (airmet.py:543). */
  function CollapsePeriods(raw: string): string {
    Replace(Replace(raw, "....", "="), "...", "$")
  }

  /** 0x01 becomes `+*` and 0x1e becomes `&` (airmet.py:543). */
  function MarkControls(t: string): string {
    Replace(Replace(t, [SOH], "+*"), [RS], "&")
  }

  /** `".\n."` becomes `".+"`, then `"00\n.\n"` becomes `"00*+"` (airmet.py:549-552). */
  function MarkGroups(t: string): string {
    Replace(Replace(t, ".\n.", ".+"), "00\n.\n", "00*+")
  }

  /** Every remaining newline becomes `#` (airmet.py:555). */
  function MarkFields(t: string): string {
    Replace(t, "\n", "#")
  }

  function Sanitize(raw: string): string {
    MarkFields(MarkGroups(MarkControls(CollapsePeriods(raw))))
  }

  /** What a character becomes when the bulletin holds no period at all. */
  function Render(c: char): string {
    if c == SOH then "+*" else if c == RS then "&" else if c == '\n' then "#" else [c]
  }

  /** The sanitized text contains no newline. */
  lemma SanitizeNoNewline(raw: string)
    ensures '\n' !in Sanitize(raw)
  {
    ReplaceCharRemoves(MarkGroups(MarkControls(CollapsePeriods(raw))), '\n', "#");
  }

  /** A run of four periods is rewritten before runs of three are: after the
      first substitution no four periods remain, and after the second no three. */
  lemma PeriodPrecedence(raw: string)
    ensures !Occurs(Replace(raw, "....", "="), "....")
    ensures !Occurs(CollapsePeriods(raw), "...")
  {
    ReplaceRemovesAll(raw, "....", "=");
    ReplaceRemovesAll(Replace(raw, "....", "="), "...", "$");
  }

  lemma {:induction false} ReplaceCharConcat(u: string, v: string, c: char, rep: string)
    ensures Replace(u + v, [c], rep) == Replace(u, [c], rep) + Replace(v, [c], rep)
    decreases |u|
  {
    if u != [] {
      assert (u + v)[1..] == u[1..] + v;
      assert (u + v)[0] == u[0];
      var h := if u[0] == c then rep else [u[0]];
      assert Replace(u + v, [c], rep) == h + Replace(u[1..] + v, [c], rep);
      assert Replace(u, [c], rep) == h + Replace(u[1..], [c], rep);
      ReplaceCharConcat(u[1..], v, c, rep);
    } else {
      assert u + v == v;
    }
  }

  lemma {:induction false} ReplaceOverFlatMap(s: string, f: char -> string, c: char, rep: string)
    ensures Replace(FlatMap(s, f), [c], rep) == FlatMap(s, x => Replace(f(x), [c], rep))
    decreases |s|
  {
    if s != [] {
      ReplaceCharConcat(f(s[0]), FlatMap(s[1..], f), c, rep);
      ReplaceOverFlatMap(s[1..], f, c, rep);
    }
  }

  lemma {:induction false} FlatMapExt(s: string, f: char -> string, g: char -> string)
    requires forall x :: f(x) == g(x)
    ensures FlatMap(s, f) == FlatMap(s, g)
    decreases |s|
  {
    if s != [] { FlatMapExt(s[1..], f, g); }
  }

  /** The three single-character substitutions together map each character
      through `Render`. */
  lemma MarkAsRender(s: string)
    ensures MarkFields(MarkControls(s)) == FlatMap(s, Render)
  {
    var f1 := x => if x == SOH then "+*" else [x];
    var f2 := x => Replace(f1(x), [RS], "&");
    var f3 := x => Replace(f2(x), "\n", "#");
    ReplaceCharIsFlatMap(s, SOH, "+*");
    ReplaceOverFlatMap(s, f1, RS, "&");
    ReplaceOverFlatMap(s, f2, '\n', "#");
    forall x ensures f3(x) == Render(x) {
      ReplaceMissing("+*", [RS], "&", RS);
      ReplaceMissing("+*", "\n", "#", '\n');
      ReplaceMissing("&", "\n", "#", '\n');
      if x != SOH {
        if x == RS {
          assert Replace([RS], [RS], "&") == "&" + Replace([], [RS], "&");
        } else {
          ReplaceMissing([x], [RS], "&", RS);
          if x == '\n' {
            assert Replace("\n", "\n", "#") == "#" + Replace([], "\n", "#");
          } else {
            ReplaceMissing([x], "\n", "#", '\n');
          }
        }
      }
    }
    FlatMapExt(s, f3, Render);
  }

  /** In a bulletin without periods, the control bytes become their markers,
      newlines become `#`, and every other character passes through unchanged. */
  lemma SanitizeWithoutPeriods(raw: string)
    requires '.' !in raw
    ensures Sanitize(raw) == FlatMap(raw, Render)
  {
    ReplaceMissing(raw, "....", "=", '.');
    ReplaceMissing(raw, "...", "$", '.');
    var m := MarkControls(raw);
    FlatMapAvoids(raw, x => if x == SOH then "+*" else [x], '.');
    ReplaceCharIsFlatMap(raw, SOH, "+*");
    var m1 := Replace(raw, [SOH], "+*");
    assert '.' !in m by {
      if '.' in m { ReplaceChars(m1, [RS], "&", '.'); }
    }
    ReplaceMissing(m, ".\n.", ".+", '.');
    ReplaceMissing(m, "00\n.\n", "00*+", '.');
    MarkAsRender(raw);
  }

  /** Text free of all four special characters is left exactly as it is. */
  lemma SanitizeIdentity(raw: string)
    requires '.' !in raw && '\n' !in raw && SOH !in raw && RS !in raw
    ensures Sanitize(raw) == raw
  {
    SanitizeWithoutPeriods(raw);
    FlatMapId(raw, Render);
  }

  /** Four periods end the bulletin; three separate the type from the states. */
  lemma SanitizePeriodsExample()
    ensures Sanitize("....") == "="
    ensures Sanitize("...") == "$"
  {
  }

  /** Text free of the characters the substitutions look at. */
  predicate Inert(u: string) {
    '.' !in u && '\n' !in u && SOH !in u && RS !in u
  }

  /** Fewer than three periods and no control byte: the first two steps change nothing. */
  lemma FewPeriods(s: string)
    requires Count(s, '.') < 3 && SOH !in s && RS !in s
    ensures MarkControls(CollapsePeriods(s)) == s
  {
    ReplaceFewer(s, "....", "=", '.');
    ReplaceFewer(s, "...", "$", '.');
    ReplaceMissing(s, [SOH], "+*", SOH);
    ReplaceMissing(s, [RS], "&", RS);
  }

  /** A line holding one period between two lines marks a group boundary. */
  lemma SanitizeGroupOf(u: string, v: string)
    requires Inert(u) && Inert(v)
    ensures Sanitize(u + ".\n." + v) == u + ".+" + v
  {
    var s := u + ".\n." + v;
    CountZero(u, '.'); CountZero(v, '.');
    CountConcat(u, ".\n.", '.'); CountConcat(u + ".\n.", v, '.');
    assert SOH !in s && RS !in s;
    FewPeriods(s);
    forall i | 0 <= i < |u| ensures !At(s, i, ".\n.") { AtHolds(s, i, ".\n.", 0); assert s[i] == u[i]; }
    ReplaceFirstAt(u, ".\n.", v, ".+");
    ReplaceMissing(v, ".\n.", ".+", '.');
    var r := u + ".+" + v;
    assert '\n' !in r;
    ReplaceMissing(r, "00\n.\n", "00*+", '\n');
    ReplaceMissing(r, "\n", "#", '\n');
  }

  lemma SanitizeGroupExample()
    ensures Sanitize("A" + ".\n." + "B") == "A" + ".+" + "B"
  {
    SanitizeGroupOf("A", "B");
  }

  /** A time ending in `00` on the line before a lone period closes the header. */
  lemma SanitizeHeaderOf(u: string, v: string)
    requires Inert(u) && Inert(v)
    ensures Sanitize(u + "00\n.\n" + v) == u + "00*+" + v
  {
    var s := u + "00\n.\n" + v;
    CountZero(u, '.'); CountZero(v, '.');
    CountConcat(u, "00\n.\n", '.'); CountConcat(u + "00\n.\n", v, '.');
    assert SOH !in s && RS !in s;
    FewPeriods(s);
    ReplaceFewer(s, ".\n.", ".+", '.');
    HeaderTime(u, v);
    var r := u + "00*+" + v;
    assert '\n' !in r;
    ReplaceMissing(r, "\n", "#", '\n');
  }

  lemma SanitizeHeaderExample()
    ensures Sanitize("12" + "00\n.\n" + "X") == "12" + "00*+" + "X"
  {
    SanitizeHeaderOf("12", "X");
  }

  /** Replacing the time marker between two lines that hold no other newline:
      no earlier occurrence can start inside `u`, since its third character
      would have to be a newline. */
  lemma HeaderTime(u: string, v: string)
    requires '\n' !in u && '\n' !in v
    ensures Replace(u + "00\n.\n" + v, "00\n.\n", "00*+") == u + "00*+" + v
  {
    var pat := "00\n.\n";
    var s := u + pat + v;
    forall i | 0 <= i < |u| ensures !At(s, i, pat) {
      AtChar(s, i, pat, 2);
      if i + 2 < |u| { assert s[i + 2] == u[i + 2]; }
      else { assert s[i + 2] == pat[i + 2 - |u|]; }
    }
    ReplaceFirstAt(u, pat, v, "00*+");
    ReplaceMissing(v, pat, "00*+", '\n');
  }
}
