/** The semantics of the Python `str` operations the decoder is built from:
    `replace`, `find`, `rfind`, `split`, `strip`, slicing with negative indices,
    and the character classes that its regular expressions use. */
module PyStr {
  import opened Wrappers

  /** The characters `str.isspace()` accepts: what `\s` matches in a `re`
      pattern over `str`, and what `strip()` removes. */
  predicate IsSpace(c: char) {
    c == ' ' || ('\t' <= c <= '\r') || ('\U{1C}' <= c <= '\U{1F}')
    || c == '\U{85}' || c == '\U{A0}' || c == '\U{1680}'
    || ('\U{2000}' <= c <= '\U{200A}') || c == '\U{2028}' || c == '\U{2029}'
    || c == '\U{202F}' || c == '\U{205F}' || c == '\U{3000}'
  }

  /** `\d`, restricted to the ASCII digits. */
  predicate IsDigit(c: char) { '0' <= c <= '9' }

  /** `[A-Z]`. */
  predicate IsUpper(c: char) { 'A' <= c <= 'Z' }

  /** `\w`, restricted to ASCII letters, digits and the underscore. */
  predicate IsWord(c: char) { IsDigit(c) || IsUpper(c) || ('a' <= c <= 'z') || c == '_' }

  predicate AllDigits(s: string) { forall k :: 0 <= k < |s| ==> IsDigit(s[k]) }

  /** `pat` occurs in `s` at index `i`. */
  predicate At(s: string, i: int, pat: string) {
    0 <= i && i + |pat| <= |s| && s[i..i + |pat|] == pat
  }

  predicate Occurs(s: string, pat: string) {
    exists i :: 0 <= i <= |s| && At(s, i, pat)
  }

  /** `s.replace(pat, rep)`: every non-overlapping occurrence, found left to right. */
  function Replace(s: string, pat: string, rep: string): string
    requires pat != []
    decreases |s|
  {
    if s == [] then []
    else if pat <= s then rep + Replace(s[|pat|..], pat, rep)
    else [s[0]] + Replace(s[1..], pat, rep)
  }

  /** `s.find(pat)` started at index `i`. */
  function FindFrom(s: string, pat: string, i: nat): (r: int)
    requires i <= |s|
    ensures r == -1 || i <= r <= |s|
    ensures r >= 0 ==> At(s, r, pat) && forall j :: i <= j < r ==> !At(s, j, pat)
    ensures r == -1 ==> forall j :: i <= j ==> !At(s, j, pat)
    decreases |s| - i
  {
    if At(s, i, pat) then i
    else if i == |s| then -1
    else FindFrom(s, pat, i + 1)
  }

  /** `s.find(pat)`: the first index at which `pat` occurs, or -1. */
  function Find(s: string, pat: string): (r: int)
    ensures r == -1 <==> !Occurs(s, pat)
    ensures r >= 0 ==> At(s, r, pat) && forall j :: 0 <= j < r ==> !At(s, j, pat)
  {
    FindFrom(s, pat, 0)
  }

  /** `pat in s`. */
  predicate Contains(s: string, pat: string) { Find(s, pat) != -1 }

  /** `s.rfind(c)` for a one-character needle: the last index of `c`, or -1. */
  function RFind(s: string, c: char): (r: int)
    ensures -1 <= r < |s|
    ensures r >= 0 ==> s[r] == c && forall j :: r < j < |s| ==> s[j] != c
    ensures r == -1 <==> c !in s
  {
    if s == [] then -1
    else if s[|s| - 1] == c then |s| - 1
    else RFind(s[..|s| - 1], c)
  }

  /** `s.split(c)` for a one-character separator. */
  function Split(s: string, c: char): (r: seq<string>)
    ensures |r| >= 1
    decreases |s|
  {
    if s == [] then [[]]
    else
      var rest := Split(s[1..], c);
      if s[0] == c then [[]] + rest else [[s[0]] + rest[0]] + rest[1..]
  }

  /** `c.join(parts)` for a one-character glue. */
  function Join(parts: seq<string>, c: char): string
    requires |parts| >= 1
    decreases |parts|
  {
    if |parts| == 1 then parts[0] else parts[0] + [c] + Join(parts[1..], c)
  }

  /** The number of times `c` occurs in `s`. */
  function Count(s: string, c: char): nat
    decreases |s|
  {
    if s == [] then 0 else (if s[0] == c then 1 else 0) + Count(s[1..], c)
  }

  /** `s.lstrip()`. */
  function LStrip(s: string): (r: string)
    ensures r <= s || (|r| <= |s| && r == s[|s| - |r|..])
    ensures r != [] ==> !IsSpace(r[0])
    decreases |s|
  {
    if s != [] && IsSpace(s[0]) then LStrip(s[1..]) else s
  }

  /** `s.rstrip()`. */
  function RStrip(s: string): (r: string)
    ensures r <= s
    ensures r != [] ==> !IsSpace(r[|r| - 1])
    decreases |s|
  {
    if s != [] && IsSpace(s[|s| - 1]) then RStrip(s[..|s| - 1]) else s
  }

  /** `s.strip()`, the same as `s.lstrip().rstrip()`. */
  function Strip(s: string): string { RStrip(LStrip(s)) }

  /** The index a Python slice bound `k` denotes in a string of length `n`:
      a negative bound counts from the end, and both are clamped. */
  function PyIndex(n: nat, k: int): (r: nat)
    ensures r <= n
  {
    if k < 0 then (if n + k < 0 then 0 else n + k)
    else if k > n then n
    else k
  }

  /** `s[:k]`. */
  function SliceTo(s: string, k: int): string { s[..PyIndex(|s|, k)] }

  /** `s[k:]`. */
  function SliceFrom(s: string, k: int): string { s[PyIndex(|s|, k)..] }

  /** `s[a:b]`. */
  function Slice(s: string, a: int, b: int): string {
    var i, j := PyIndex(|s|, a), PyIndex(|s|, b);
    if i <= j then s[i..j] else []
  }

  /** `xs.index(x)`: the first position holding `x`, or nothing (Python raises). */
  function IndexOf(xs: seq<string>, x: string): (r: Option<nat>)
    ensures r.None? <==> x !in xs
    ensures r.Some? ==> r.value < |xs| && xs[r.value] == x && forall j :: 0 <= j < r.value ==> xs[j] != x
    decreases |xs|
  {
    if xs == [] then None
    else if xs[0] == x then Some(0)
    else match IndexOf(xs[1..], x)
      case None => None
      case Some(k) => Some(k + 1)
  }

  /** Maps each character of `s` to a string and concatenates the results. */
  function FlatMap(s: string, f: char -> string): string
    decreases |s|
  {
    if s == [] then [] else f(s[0]) + FlatMap(s[1..], f)
  }

  // ---------------------------------------------------------------------
  // Lemmas about Replace

  /** A pattern that contains a character absent from `s` never matches. */
  lemma {:induction false} ReplaceMissing(s: string, pat: string, rep: string, x: char)
    requires x in pat && x !in s
    ensures Replace(s, pat, rep) == s
    decreases |s|
  {
    if s != [] {
      var k :| 0 <= k < |pat| && pat[k] == x;
      assert k < |s| ==> s[k] != x;
      assert !(pat <= s);
      ReplaceMissing(s[1..], pat, rep, x);
    }
  }

  /** A pattern longer than the text never matches. */
  lemma {:induction false} ReplaceShort(s: string, pat: string, rep: string)
    requires pat != [] && |s| < |pat|
    ensures Replace(s, pat, rep) == s
    decreases |s|
  {
    if s != [] {
      assert !(pat <= s);
      ReplaceShort(s[1..], pat, rep);
    }
  }

  /** A prefix holds no more copies of `c` than the whole. */
  lemma {:induction false} CountPrefix(p: string, s: string, c: char)
    ensures p <= s ==> Count(p, c) <= Count(s, c)
    decreases |p|
  {
    if p != [] && p <= s {
      assert p[1..] <= s[1..];
      CountPrefix(p[1..], s[1..], c);
    }
  }

  /** A pattern holding more copies of `c` than the text never matches in it. */
  lemma {:induction false} ReplaceFewer(s: string, pat: string, rep: string, c: char)
    requires pat != [] && Count(s, c) < Count(pat, c)
    ensures Replace(s, pat, rep) == s
    decreases |s|
  {
    if s != [] {
      CountPrefix(pat, s, c);
      assert !(pat <= s);
      ReplaceFewer(s[1..], pat, rep, c);
    }
  }

  /** A match in the tail of `s` is a match in `s` one index later. */
  lemma AtTail(s: string, i: nat, pat: string)
    requires s != []
    ensures At(s[1..], i, pat) <==> At(s, i + 1, pat)
  {
    if i + |pat| <= |s| - 1 {
      assert s[1..][i..i + |pat|] == s[i + 1..i + 1 + |pat|];
    }
  }

  /** Text in which the pattern does not occur is left unchanged. */
  lemma {:induction false} ReplaceAbsent(s: string, pat: string, rep: string)
    requires pat != [] && !Occurs(s, pat)
    ensures Replace(s, pat, rep) == s
    decreases |s|
  {
    if s != [] {
      assert !At(s, 0, pat);
      assert !(pat <= s);
      forall i | 0 <= i <= |s[1..]| ensures !At(s[1..], i, pat) {
        AtTail(s, i, pat);
      }
      ReplaceAbsent(s[1..], pat, rep);
    }
  }

  /** Replacing a single character is a character-by-character map. */
  lemma {:induction false} ReplaceCharIsFlatMap(s: string, c: char, rep: string)
    ensures Replace(s, [c], rep) == FlatMap(s, x => if x == c then rep else [x])
    decreases |s|
  {
    if s != [] {
      assert [c] <= s <==> s[0] == c;
      ReplaceCharIsFlatMap(s[1..], c, rep);
    }
  }

  /** The characters of a replacement result come from `s` or from `rep`. */
  lemma {:induction false} ReplaceChars(s: string, pat: string, rep: string, x: char)
    requires pat != []
    requires x in Replace(s, pat, rep)
    ensures x in s || x in rep
    decreases |s|
  {
    if s != [] {
      if pat <= s {
        if x !in rep { ReplaceChars(s[|pat|..], pat, rep, x); }
      } else if x != s[0] {
        ReplaceChars(s[1..], pat, rep, x);
      }
    }
  }

  /** Replacing with a string no longer than the pattern never lengthens. */
  lemma {:induction false} ReplaceShrinks(s: string, pat: string, rep: string)
    requires pat != [] && |rep| <= |pat|
    ensures |Replace(s, pat, rep)| <= |s|
    decreases |s|
  {
    if s != [] {
      if pat <= s { ReplaceShrinks(s[|pat|..], pat, rep); }
      else { ReplaceShrinks(s[1..], pat, rep); }
    }
  }

  /** A string over the pattern's own characters that starts the result also
      starts the input, provided the replacement shares no character with the
      pattern. */
  lemma {:induction false} ReplacePrefixBack(s: string, pat: string, rep: string, w: string)
    requires pat != [] && rep != []
    requires forall x :: x in rep ==> x !in pat
    requires forall x :: x in w ==> x in pat
    requires w <= Replace(s, pat, rep)
    ensures w <= s
    decreases |s|
  {
    if w != [] && s != [] {
      assert w[0] in w && rep[0] in rep;
      assert w[0] == Replace(s, pat, rep)[0];
      assert !(pat <= s);
      {
        var r := Replace(s[1..], pat, rep);
        assert w[1..] <= r;
        forall x | x in w[1..] ensures x in pat { assert x in w; }
        ReplacePrefixBack(s[1..], pat, rep, w[1..]);
      }
    }
  }

  /** When the replacement shares no character with the pattern, no occurrence
      of the pattern survives: the precedence of `replace("....", "=")` over a
      later `replace("...", "$")` rests on this. */
  lemma {:induction false} ReplaceRemovesAll(s: string, pat: string, rep: string)
    requires pat != [] && rep != []
    requires forall x :: x in rep ==> x !in pat
    ensures !Occurs(Replace(s, pat, rep), pat)
    decreases |s|
  {
    var r := Replace(s, pat, rep);
    if s != [] {
      if pat <= s {
        var t := Replace(s[|pat|..], pat, rep);
        ReplaceRemovesAll(s[|pat|..], pat, rep);
        forall i | 0 <= i <= |r| ensures !At(r, i, pat) {
          if i < |rep| {
            assert rep[i] in rep && pat[0] in pat;
            assert r[i] == rep[i];
            if i + |pat| <= |r| { assert r[i..i + |pat|][0] == r[i]; }
          } else if i + |pat| <= |r| {
            assert r[i..i + |pat|] == t[i - |rep|..i - |rep| + |pat|];
            assert !At(t, i - |rep|, pat);
          }
        }
      } else {
        var t := Replace(s[1..], pat, rep);
        ReplaceRemovesAll(s[1..], pat, rep);
        forall i | 0 <= i <= |r| ensures !At(r, i, pat) {
          if i == 0 {
            if At(r, 0, pat) {
              assert pat <= r;
              ReplacePrefixBack(s, pat, rep, pat);
            }
          } else if i + |pat| <= |r| {
            assert r[i..i + |pat|] == t[i - 1..i - 1 + |pat|];
            assert !At(t, i - 1, pat);
          }
        }
      }
    }
  }

  /** Replacing a character by a string without it removes every copy. */
  lemma ReplaceCharRemoves(s: string, c: char, rep: string)
    requires c !in rep
    ensures c !in Replace(s, [c], rep)
  {
    ReplaceCharIsFlatMap(s, c, rep);
    FlatMapAvoids(s, x => if x == c then rep else [x], c);
  }

  /** A flat map whose images never contain `c` produces no `c`. */
  lemma {:induction false} FlatMapAvoids(s: string, f: char -> string, c: char)
    requires forall x :: x in s ==> c !in f(x)
    ensures c !in FlatMap(s, f)
    decreases |s|
  {
    if s != [] {
      assert s[0] in s;
      forall x | x in s[1..] ensures c !in f(x) { assert x in s; }
      FlatMapAvoids(s[1..], f, c);
    }
  }

  /** A flat map that sends every character of `s` to itself gives back `s`. */
  lemma {:induction false} FlatMapId(s: string, f: char -> string)
    requires forall x :: x in s ==> f(x) == [x]
    ensures FlatMap(s, f) == s
    decreases |s|
  {
    if s != [] {
      assert s[0] in s;
      forall x | x in s[1..] ensures f(x) == [x] { assert x in s; }
      FlatMapId(s[1..], f);
    }
  }

  lemma {:induction false} FlatMapConcat(u: string, v: string, f: char -> string)
    ensures FlatMap(u + v, f) == FlatMap(u, f) + FlatMap(v, f)
    decreases |u|
  {
    if u == [] {
      assert u + v == v;
    } else {
      assert (u + v)[1..] == u[1..] + v;
      FlatMapConcat(u[1..], v, f);
    }
  }

  /** Replacing the one character between two texts that do not hold it. */
  lemma ReplaceAround(u: string, v: string, c: char, rep: string)
    requires c !in u
    ensures Replace(u + [c] + v, [c], rep) == u + rep + Replace(v, [c], rep)
  {
    var f := x => if x == c then rep else [x];
    var w := [c] + v;
    assert u + [c] + v == u + w;
    ReplaceCharIsFlatMap(u + w, c, rep);
    ReplaceCharIsFlatMap(v, c, rep);
    FlatMapConcat(u, w, f);
    FlatMapId(u, f);
    assert w[0] == c && w[1..] == v;
    assert FlatMap(w, f) == rep + FlatMap(v, f);
  }

  /** `rfind` gives the index of a `c` with none after it. */
  lemma RFindIs(s: string, c: char, k: nat)
    requires k < |s| && s[k] == c && forall j :: k < j < |s| ==> s[j] != c
    ensures RFind(s, c) == k
  {
  }

  /** A string without `c` holds no copy of it. */
  lemma {:induction false} CountZero(s: string, c: char)
    requires c !in s
    ensures Count(s, c) == 0
    decreases |s|
  {
    if s != [] {
      assert s[0] != c;
      forall j | 0 <= j < |s[1..]| ensures s[1..][j] != c { assert s[1..][j] == s[j + 1]; }
      CountZero(s[1..], c);
    }
  }

  lemma {:induction false} CountConcat(u: string, v: string, c: char)
    ensures Count(u + v, c) == Count(u, c) + Count(v, c)
    decreases |u|
  {
    if u == [] {
      assert u + v == v;
    } else {
      assert (u + v)[1..] == u[1..] + v;
      CountConcat(u[1..], v, c);
    }
  }

  /** Two distinct copies of `c` make the count at least two. */
  lemma {:induction false} CountTwo(s: string, i: nat, j: nat, c: char)
    requires i < j < |s| && s[i] == c && s[j] == c
    ensures Count(s, c) > 1
    decreases i
  {
    if i == 0 {
      CountAtLeastOne(s[1..], j - 1, c);
    } else {
      CountTwo(s[1..], i - 1, j - 1, c);
    }
  }

  /** Splitting at a character that occurs gives at least two pieces. */
  lemma SplitAtLeastTwo(s: string, c: char)
    requires c in s
    ensures |Split(s, c)| >= 2
  {
    var i :| 0 <= i < |s| && s[i] == c;
    CountAtLeastOne(s, i, c);
    SplitCount(s, c);
  }

  lemma {:induction false} CountAtLeastOne(s: string, i: nat, c: char)
    requires i < |s| && s[i] == c
    ensures Count(s, c) >= 1
    decreases i
  {
    if i > 0 { CountAtLeastOne(s[1..], i - 1, c); }
  }

  /** A pattern holding a character that `s` lacks is not found in `s`. */
  lemma FindMissing(s: string, pat: string, k: nat)
    requires k < |pat| && pat[k] !in s
    ensures Find(s, pat) == -1
  {
    forall i | 0 <= i <= |s| ensures !At(s, i, pat) {
      AtHolds(s, i, pat, k);
    }
  }

  lemma AtHolds(s: string, i: int, pat: string, k: nat)
    requires k < |pat|
    ensures At(s, i, pat) ==> pat[k] in s
  {
    if At(s, i, pat) {
      assert s[i..i + |pat|][k] == s[i + k];
    }
  }

  /** Replacing in `u + pat + v` when `pat` first occurs right after `u`. */
  lemma {:induction false} ReplaceFirstAt(u: string, pat: string, v: string, rep: string)
    requires pat != []
    requires forall i :: 0 <= i < |u| ==> !At(u + pat + v, i, pat)
    ensures Replace(u + pat + v, pat, rep) == u + rep + Replace(v, pat, rep)
    decreases |u|
  {
    var s := u + pat + v;
    if u == [] {
      assert s == pat + v;
      assert pat <= s && s[|pat|..] == v;
    } else {
      assert !At(s, 0, pat);
      assert !(pat <= s);
      assert s[1..] == u[1..] + pat + v;
      forall i | 0 <= i < |u[1..]| ensures !At(u[1..] + pat + v, i, pat) {
        AtTail(s, i, pat);
      }
      ReplaceFirstAt(u[1..], pat, v, rep);
      assert [u[0]] + u[1..] == u;
    }
  }

  /** Text in which no occurrence starts is copied as it stands. */
  lemma {:induction false} ReplaceSkip(u: string, v: string, pat: string, rep: string)
    requires pat != []
    requires forall i :: 0 <= i < |u| ==> !At(u + v, i, pat)
    ensures Replace(u + v, pat, rep) == u + Replace(v, pat, rep)
    decreases |u|
  {
    var s := u + v;
    if u == [] {
      assert s == v;
    } else {
      assert !At(s, 0, pat);
      assert !(pat <= s);
      assert s[1..] == u[1..] + v;
      forall i | 0 <= i < |u[1..]| ensures !At(u[1..] + v, i, pat) {
        AtTail(s, i, pat);
      }
      ReplaceSkip(u[1..], v, pat, rep);
      assert [u[0]] + u[1..] == u;
    }
  }

  /** No occurrence starts inside `x` when its `k`-th character is absent from
      `x` and from the first `k` characters after it. */
  lemma SkipWord(x: string, w: string, pat: string, k: nat)
    requires k < |pat| && k <= |w| && pat[k] !in x && pat[k] !in w[..k]
    ensures forall i :: 0 <= i < |x| ==> !At(x + w, i, pat)
  {
    forall i | 0 <= i < |x| ensures !At(x + w, i, pat) {
      AtChar(x + w, i, pat, k);
      if i + k < |x| {
        assert (x + w)[i + k] == x[i + k];
      } else if i + k < |x + w| {
        assert (x + w)[i + k] == w[..k][i + k - |x|];
      }
    }
  }

  /** Replacing in `x + w` where, by `SkipWord`, nothing starts inside `x`. */
  lemma ReplaceAfterWord(x: string, w: string, pat: string, rep: string, k: nat)
    requires pat != [] && k < |pat| && k <= |w| && pat[k] !in x && pat[k] !in w[..k]
    ensures Replace(x + w, pat, rep) == x + Replace(w, pat, rep)
  {
    SkipWord(x, w, pat, k);
    ReplaceSkip(x, w, pat, rep);
  }

  /** A pattern appended to text that cannot hold the start of one. */
  lemma ReplaceWordAtEnd(u: string, pat: string, rep: string, k: nat)
    requires k < |pat| && pat[k] !in u && pat[k] !in pat[..k]
    ensures Replace(u + pat, pat, rep) == u + rep
  {
    SkipWord(u, pat, pat, k);
    ReplaceAtEnd(u, pat, rep);
  }

  /** A pattern that first occurs at the very end is replaced there. */
  lemma ReplaceAtEnd(u: string, pat: string, rep: string)
    requires pat != []
    requires forall i :: 0 <= i < |u| ==> !At(u + pat, i, pat)
    ensures Replace(u + pat, pat, rep) == u + rep
  {
    assert u + pat + [] == u + pat;
    ReplaceFirstAt(u, pat, [], rep);
    assert u + rep + [] == u + rep;
  }

  // ---------------------------------------------------------------------
  // Lemmas about occurrences and slices

  /** Cutting just before the first occurrence of `pat` leaves no occurrence. */
  lemma CutAtFind(s: string, pat: string)
    requires pat != [] && Find(s, pat) != -1
    ensures !Occurs(s[..Find(s, pat)], pat)
  {
    var r := s[..Find(s, pat)];
    forall j | 0 <= j <= |r| ensures !At(r, j, pat) {
      if j + |pat| <= |r| {
        assert !At(s, j, pat);
        assert r[j..j + |pat|] == s[j..j + |pat|];
      }
    }
  }

  /** An occurrence in a prefix is an occurrence in the whole. */
  lemma OccursInPrefix(p: string, s: string, pat: string)
    requires p <= s && Occurs(p, pat)
    ensures Occurs(s, pat)
  {
    var j :| 0 <= j <= |p| && At(p, j, pat);
    assert s[j..j + |pat|] == p[j..j + |pat|];
    assert At(s, j, pat);
  }

  /** `pat[k]` sits at `i + k` when `pat` occurs at `i`. */
  lemma AtChar(s: string, i: int, pat: string, k: nat)
    requires k < |pat|
    ensures At(s, i, pat) ==> s[i + k] == pat[k]
  {
    if At(s, i, pat) { assert s[i..i + |pat|][k] == s[i + k]; }
  }

  /** A slice of a slice is a slice of the whole. */
  lemma SliceOfSlice(h: string, i: nat, j: nat, a: nat, b: nat)
    requires i <= j <= |h| && a <= b <= j - i
    ensures h[i..j][a..b] == h[i + a..i + b]
  {
    forall k | 0 <= k < b - a ensures h[i..j][a..b][k] == h[i + a..i + b][k] {
      assert h[i..j][a..b][k] == h[i..j][a + k] == h[i + a + k];
    }
  }

  // ---------------------------------------------------------------------
  // Lemmas about Split and Join

  /** No piece of `s.split(c)` contains `c`. */
  lemma {:induction false} SplitPiecesAvoid(s: string, c: char)
    ensures forall k :: 0 <= k < |Split(s, c)| ==> c !in Split(s, c)[k]
    decreases |s|
  {
    if s != [] { SplitPiecesAvoid(s[1..], c); }
  }

  /** `c.join(s.split(c)) == s`. */
  lemma {:induction false} JoinSplit(s: string, c: char)
    ensures Join(Split(s, c), c) == s
    decreases |s|
  {
    if s != [] {
      var rest := Split(s[1..], c);
      JoinSplit(s[1..], c);
      if s[0] != c && |rest| > 1 {
        assert ([[s[0]] + rest[0]] + rest[1..])[1..] == rest[1..];
      }
    }
  }

  /** The first piece of `s.split(c)` is a prefix of `s`: everything before the first `c`. */
  lemma {:induction false} SplitFirst(s: string, c: char)
    ensures Split(s, c)[0] <= s
    ensures c !in Split(s, c)[0]
    ensures |Split(s, c)[0]| < |s| ==> s[|Split(s, c)[0]|] == c
    decreases |s|
  {
    if s != [] {
      SplitFirst(s[1..], c);
    }
  }

  /** `s.split(c)` has one piece more than `s` has copies of `c`. */
  lemma {:induction false} SplitCount(s: string, c: char)
    ensures |Split(s, c)| == Count(s, c) + 1
    decreases |s|
  {
    if s != [] { SplitCount(s[1..], c); }
  }

  /** The first piece of a split that consists of a string without the
      separator is that string. */
  lemma {:induction false} SplitNoSep(s: string, c: char)
    requires c !in s
    ensures Split(s, c) == [s]
    decreases |s|
  {
    if s != [] {
      SplitNoSep(s[1..], c);
      assert [s[0]] + s[1..] == s;
    }
  }

  /** Splitting at a separator in the middle splits each side. */
  lemma {:induction false} SplitAround(a: string, b: string, c: char)
    ensures Split(a + [c] + b, c) == Split(a, c) + Split(b, c)
    decreases |a|
  {
    if a == [] {
      assert a + [c] + b == [c] + b;
      assert ([c] + b)[1..] == b;
    } else {
      var s := a + [c] + b;
      assert s[0] == a[0] && s[1..] == a[1..] + [c] + b;
      SplitAround(a[1..], b, c);
    }
  }

  /** Splitting `w + [c] + rest` where `w` holds no `c`. */
  lemma {:induction false} SplitAfterWord(w: string, rest: string, c: char)
    requires c !in w
    ensures Split(w + [c] + rest, c) == [w] + Split(rest, c)
    decreases |w|
  {
    if w == [] {
      assert ([c] + rest)[1..] == rest;
    } else {
      SplitAfterWord(w[1..], rest, c);
      assert (w + [c] + rest)[1..] == w[1..] + [c] + rest;
      assert [w[0]] + w[1..] == w;
    }
  }

  // ---------------------------------------------------------------------
  // Lemmas about stripping

  lemma {:induction false} LStripChars(s: string, x: char)
    requires x in LStrip(s)
    ensures x in s
    decreases |s|
  {
    if s != [] && IsSpace(s[0]) { LStripChars(s[1..], x); }
  }

  lemma {:induction false} RStripChars(s: string, x: char)
    requires x in RStrip(s)
    ensures x in s
    decreases |s|
  {
    if s != [] && IsSpace(s[|s| - 1]) { RStripChars(s[..|s| - 1], x); }
  }

  lemma {:induction false} LStripLength(s: string)
    ensures |LStrip(s)| <= |s|
    decreases |s|
  {
    if s != [] && IsSpace(s[0]) { LStripLength(s[1..]); }
  }

  /** `strip()` only removes characters and leaves none at either end. */
  lemma StripFacts(s: string)
    ensures |Strip(s)| <= |s|
    ensures forall x :: x in Strip(s) ==> x in s
    ensures Strip(s) != [] ==> !IsSpace(Strip(s)[0]) && !IsSpace(Strip(s)[|Strip(s)| - 1])
  {
    LStripLength(s);
    forall x | x in Strip(s) ensures x in s {
      RStripChars(LStrip(s), x);
      LStripChars(s, x);
    }
  }

  /** A string without whitespace at its ends is left alone by `strip()`. */
  lemma StripNoSpace(s: string)
    requires s != [] ==> !IsSpace(s[0]) && !IsSpace(s[|s| - 1])
    ensures Strip(s) == s
  {
  }
}
