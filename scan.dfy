/** Hand-written scanners for the regular expressions of airmet.py and
    subclasses.py: `MatchAt` decides whether a pattern matches at an index and
    where the match ends (with the outcome Python's backtracking engine
    reaches), `SearchFrom` is `re.search` and `FindAll` is `re.finditer`. */
module Scan {
  import opened Wrappers
  import opened PyStr

  /** `(\d|[A-Z])`, also written `([A-Z]|\d)`. */
  predicate IsAlnumUp(c: char) { IsDigit(c) || IsUpper(c) }

  /** `(\s|\#)`. */
  predicate IsSep(c: char) { IsSpace(c) || c == '#' }

  /** Three upper-case letters start at `i`. */
  predicate Upper3At(s: string, i: nat) {
    i + 3 <= |s| && IsUpper(s[i]) && IsUpper(s[i + 1]) && IsUpper(s[i + 2])
  }

  /** The length of the longest run of characters satisfying `p` that starts at `i`. */
  function RunLength(s: string, i: nat, p: char -> bool): (n: nat)
    requires i <= |s|
    ensures i + n <= |s|
    ensures forall k :: i <= k < i + n ==> p(s[k])
    ensures i + n < |s| ==> !p(s[i + n])
    decreases |s| - i
  {
    if i < |s| && p(s[i]) then 1 + RunLength(s, i + 1, p) else 0
  }

  /** The end of a maximal run of `(\#(\s)*)*` that starts at `j`. */
  function SkipHashGroups(s: string, j: nat): (r: nat)
    requires j <= |s|
    ensures j <= r <= |s|
    ensures r < |s| ==> s[r] != '#'
    decreases |s| - j
  {
    if j < |s| && s[j] == '#' then SkipHashGroups(s, j + 1 + RunLength(s, j + 1, IsSpace))
    else j
  }

  /** The reference core `(((\d|[A-Z]){3,6}(\s|\#)([A-Z]){3})|([A-Z]){3})` at `p`,
      with the `(?!-)` lookahead on the short form when `noHyphen` holds.
      The greedy `{3,6}` can only succeed with the whole alphanumeric run, since
      every shorter choice is followed by an alphanumeric, not a separator. */
  function CoreAt(s: string, p: nat, noHyphen: bool): (r: Option<nat>)
    requires p <= |s|
    ensures r.Some? ==> p < r.value <= |s|
  {
    var n := RunLength(s, p, IsAlnumUp);
    if 3 <= n <= 6 && p + n < |s| && IsSep(s[p + n]) && Upper3At(s, p + n + 1) then Some(p + n + 4)
    else if Upper3At(s, p) && !(noHyphen && p + 3 < |s| && s[p + 3] == '-') then Some(p + 3)
    else None
  }

  /** The largest `j` with `lo <= j`, `j + |pat| <= hi` and `pat` at `j`. */
  function LastAt(s: string, pat: string, lo: nat, hi: nat): (r: Option<nat>)
    requires hi <= |s|
    ensures r.Some? ==> lo <= r.value && r.value + |pat| <= hi && At(s, r.value, pat)
    ensures r.Some? ==> forall j :: r.value < j && j + |pat| <= hi ==> !At(s, j, pat)
    ensures r.None? ==> forall j :: lo <= j && j + |pat| <= hi ==> !At(s, j, pat)
    decreases hi
  {
    if hi < lo + |pat| then None
    else if At(s, hi - |pat|, pat) then Some(hi - |pat|)
    else LastAt(s, pat, lo, hi - 1)
  }

  /** The index of the first newline at or after `j`, or `|s|`: where a greedy `.+` stops. */
  function LineEnd(s: string, j: nat): (r: nat)
    requires j <= |s|
    ensures j <= r <= |s|
    decreases |s| - j
  {
    if j == |s| || s[j] == '\n' then j else LineEnd(s, j + 1)
  }

  datatype Span = Span(start: nat, end: nat)

  datatype Pattern =
    | FromRef      // FROM(\s|\#)CORE, short form with (?!-)          airmet.py:570
    | ToRef        // TO(\s|\#)CORE, short form with (?!-)            airmet.py:571
    | BoundedByRef // (BOUNDED BY)(\s|\#)CORE                         airmet.py:573
    | HyphenRef    // -(\#(\s)*)*CORE                                 airmet.py:574
    | SeeSeries    // \$(\w+|\s)+\$\#\.                               airmet.py:166
    | MainBlock    // \#([A-Z]|\d){4}\s.+                             airmet.py:733
    | AdvisoryId   // \#([A-Z]|\d){4}\s                               airmet.py:741
    | Station      // \#&([A-Z]|\d){4}\s                              airmet.py:742
    | IssueCode    // \d{6}\#                                         airmet.py:743
    | TypeKeyword  // \#AIRMET\s\w+                                   airmet.py:744
    | CondSpan     // FOR\s(\w|\s)+VALID                              airmet.py:745
    | ValidUntil   // VALID\sUNTIL\s\d{6}                             airmet.py:746

  /** Four `([A-Z]|\d)` characters then one `\s`, starting at `i`. */
  predicate Code4At(s: string, i: nat) {
    i + 5 <= |s| && IsAlnumUp(s[i]) && IsAlnumUp(s[i + 1]) && IsAlnumUp(s[i + 2])
    && IsAlnumUp(s[i + 3]) && IsSpace(s[i + 4])
  }

  /** Where a match of `p` that starts at `i` ends, if there is one. */
  function MatchAt(p: Pattern, s: string, i: nat): (r: Option<nat>)
    requires i <= |s|
    ensures r.Some? ==> i < r.value <= |s|
  {
    match p
    case FromRef =>
      if At(s, i, "FROM") && i + 4 < |s| && IsSep(s[i + 4]) then CoreAt(s, i + 5, true) else None
    case ToRef =>
      if At(s, i, "TO") && i + 2 < |s| && IsSep(s[i + 2]) then CoreAt(s, i + 3, true) else None
    case BoundedByRef =>
      if At(s, i, "BOUNDED BY") && i + 10 < |s| && IsSep(s[i + 10]) then CoreAt(s, i + 11, false) else None
    case HyphenRef =>
      if i < |s| && s[i] == '-' then CoreAt(s, SkipHashGroups(s, i + 1), false) else None
    case SeeSeries =>
      // The run of `\w` and `\s` is maximal: the `$` after it is in neither class.
      if i < |s| && s[i] == '$' then
        var n := RunLength(s, i + 1, c => IsWord(c) || IsSpace(c));
        if n >= 1 && At(s, i + 1 + n, "$#.") then Some(i + n + 4) else None
      else None
    case MainBlock =>
      if i < |s| && s[i] == '#' && Code4At(s, i + 1) && i + 6 < |s| && s[i + 6] != '\n'
      then Some(LineEnd(s, i + 6)) else None
    case AdvisoryId =>
      if i < |s| && s[i] == '#' && Code4At(s, i + 1) then Some(i + 6) else None
    case Station =>
      if At(s, i, "#&") && Code4At(s, i + 2) then Some(i + 7) else None
    case IssueCode =>
      if i + 7 <= |s| && AllDigits(s[i..i + 6]) && s[i + 6] == '#' then Some(i + 7) else None
    case TypeKeyword =>
      if At(s, i, "#AIRMET") && i + 7 < |s| && IsSpace(s[i + 7]) then
        var n := RunLength(s, i + 8, IsWord);
        if n >= 1 then Some(i + 8 + n) else None
      else None
    case CondSpan =>
      // The greedy `(\w|\s)+` backs off to the last VALID inside the run.
      if At(s, i, "FOR") && i + 3 < |s| && IsSpace(s[i + 3]) then
        var n := RunLength(s, i + 4, c => IsWord(c) || IsSpace(c));
        match LastAt(s, "VALID", i + 5, i + 4 + n)
        case Some(j) => Some(j + 5)
        case None => None
      else None
    case ValidUntil =>
      if At(s, i, "VALID") && i + 5 < |s| && IsSpace(s[i + 5]) && At(s, i + 6, "UNTIL")
         && i + 11 < |s| && IsSpace(s[i + 11]) && i + 18 <= |s| && AllDigits(s[i + 12..i + 18])
      then Some(i + 18) else None
  }

  /** `re.search` of `p` in `s`, starting at index `i`: the leftmost match. */
  function SearchFrom(p: Pattern, s: string, i: nat): (r: Option<Span>)
    requires i <= |s|
    ensures r.Some? ==> i <= r.value.start <= |s| && MatchAt(p, s, r.value.start) == Some(r.value.end)
    ensures r.Some? ==> forall j :: i <= j < r.value.start ==> MatchAt(p, s, j).None?
    ensures r.None? ==> forall j :: i <= j <= |s| ==> MatchAt(p, s, j).None?
    decreases |s| - i
  {
    match MatchAt(p, s, i)
    case Some(e) => Some(Span(i, e))
    case None => if i == |s| then None else SearchFrom(p, s, i + 1)
  }

  function Search(p: Pattern, s: string): Option<Span> { SearchFrom(p, s, 0) }

  /** `re.finditer` of `p` over `s[i:]`: after each match the scan resumes at its end. */
  function FindAll(p: Pattern, s: string, i: nat): (r: seq<Span>)
    requires i <= |s|
    ensures forall k :: 0 <= k < |r| ==> i <= r[k].start < r[k].end <= |s|
    ensures forall k :: 0 <= k < |r| ==> MatchAt(p, s, r[k].start) == Some(r[k].end)
    decreases |s| - i
  {
    match SearchFrom(p, s, i)
    case Some(m) => [m] + FindAll(p, s, m.end)
    case None => []
  }

  /** The matches `FindAll` returns are in order and do not overlap. */
  lemma {:induction false} FindAllOrdered(p: Pattern, s: string, i: nat)
    requires i <= |s|
    ensures forall k :: 0 <= k < |FindAll(p, s, i)| - 1 ==> FindAll(p, s, i)[k].end <= FindAll(p, s, i)[k + 1].start
    decreases |s| - i
  {
    match SearchFrom(p, s, i)
    case Some(m) =>
      FindAllOrdered(p, s, m.end);
    case None =>
  }

  /** Some span of `r` covers index `j`. */
  predicate Covered(r: seq<Span>, j: nat) {
    exists k :: 0 <= k < |r| && r[k].start <= j < r[k].end
  }

  /** `FindAll` skips no match: every index at or after `i` at which a match
      starts lies inside one of the reported spans. */
  lemma {:induction false} FindAllComplete(p: Pattern, s: string, i: nat, j: nat)
    requires i <= j <= |s| && MatchAt(p, s, j).Some?
    ensures Covered(FindAll(p, s, i), j)
    decreases |s| - i
  {
    SearchFinds(p, s, i, j);
    var m := SearchFrom(p, s, i).value;
    assert FindAll(p, s, i) == [m] + FindAll(p, s, m.end);
    if j < m.end {
      CoveredHead(m, FindAll(p, s, m.end), j);
    } else {
      FindAllComplete(p, s, m.end, j);
      CoveredTail(m, FindAll(p, s, m.end), j);
    }
  }

  /** A search from `i` finds a match no later than any index `j` at which
      one starts. */
  lemma SearchFinds(p: Pattern, s: string, i: nat, j: nat)
    requires i <= j <= |s| && MatchAt(p, s, j).Some?
    ensures SearchFrom(p, s, i).Some? && SearchFrom(p, s, i).value.start <= j
  {
  }

  lemma CoveredHead(m: Span, rest: seq<Span>, j: nat)
    requires m.start <= j < m.end
    ensures Covered([m] + rest, j)
  {
    assert ([m] + rest)[0] == m;
  }

  lemma CoveredTail(m: Span, rest: seq<Span>, j: nat)
    requires Covered(rest, j)
    ensures Covered([m] + rest, j)
  {
    var k :| 0 <= k < |rest| && rest[k].start <= j < rest[k].end;
    assert ([m] + rest)[k + 1] == rest[k];
  }

  /** The characters a match of `p` can start with. */
  predicate CanStart(p: Pattern, c: char) {
    match p
    case FromRef => c == 'F'
    case ToRef => c == 'T'
    case BoundedByRef => c == 'B'
    case HyphenRef => c == '-'
    case SeeSeries => c == '$'
    case MainBlock => c == '#'
    case AdvisoryId => c == '#'
    case Station => c == '#'
    case IssueCode => IsDigit(c)
    case TypeKeyword => c == '#'
    case CondSpan => c == 'F'
    case ValidUntil => c == 'V'
  }

  lemma MatchStarts(p: Pattern, s: string, i: nat)
    requires i <= |s| && MatchAt(p, s, i).Some?
    ensures i < |s| && CanStart(p, s[i])
  {
    match p
    case FromRef => assert s[i..i + 4][0] == s[i];
    case ToRef => assert s[i..i + 2][0] == s[i];
    case BoundedByRef => assert s[i..i + 10][0] == s[i];
    case Station => assert s[i..i + 2][0] == s[i];
    case IssueCode => assert s[i..i + 6][0] == s[i];
    case TypeKeyword => assert s[i..i + 7][0] == s[i];
    case CondSpan => assert s[i..i + 3][0] == s[i];
    case ValidUntil => assert s[i..i + 5][0] == s[i];
    case _ =>
  }

  /** The run length is determined by the characters that make up the run and
      the one that stops it. */
  lemma {:induction false} RunLengthIs(s: string, i: nat, p: char -> bool, n: nat)
    requires i + n <= |s|
    requires forall k :: i <= k < i + n ==> p(s[k])
    requires i + n < |s| ==> !p(s[i + n])
    ensures RunLength(s, i, p) == n
    decreases n
  {
    if n > 0 { RunLengthIs(s, i + 1, p, n - 1); }
  }

  /** The long form of the reference core: a run of three to six letters and
      digits, a separator, then three letters. */
  lemma CoreLong(s: string, p: nat, n: nat, noHyphen: bool)
    requires 3 <= n <= 6 && p + n + 4 <= |s|
    requires forall k :: p <= k < p + n ==> IsAlnumUp(s[k])
    requires IsSep(s[p + n]) && Upper3At(s, p + n + 1)
    ensures CoreAt(s, p, noHyphen) == Some(p + n + 4)
  {
    RunLengthIs(s, p, IsAlnumUp, n);
  }

  /** The short form of the reference core: three letters that end the text or
      are followed by something other than a letter, digit or separator (and
      not by a hyphen when the look-ahead applies). */
  lemma CoreShort(s: string, p: nat, noHyphen: bool)
    requires Upper3At(s, p)
    requires p + 3 < |s| ==> !IsAlnumUp(s[p + 3]) && !IsSep(s[p + 3]) && !(noHyphen && s[p + 3] == '-')
    ensures CoreAt(s, p, noHyphen) == Some(p + 3)
  {
    RunLengthIs(s, p, IsAlnumUp, 3);
  }
}

/** How a search moves over text in which no match can start. */
module SearchFacts {
  import opened Scan

  /** A search skips every index at which no match can start. */
  lemma {:induction false} SearchSkip(p: Pattern, s: string, i: nat, k: nat)
    requires i <= k <= |s|
    requires forall j :: i <= j < k ==> !CanStart(p, s[j])
    ensures SearchFrom(p, s, i) == SearchFrom(p, s, k)
    decreases k - i
  {
    if i < k {
      var c := s[i];
      assert !CanStart(p, c);
      NoStartNoMatch(p, s, i);
      SearchSkip(p, s, i + 1, k);
    }
  }

  /** A search moves past an index at which no match can start. */
  lemma NoStartNoMatch(p: Pattern, s: string, i: nat)
    requires i < |s| && !CanStart(p, s[i])
    ensures SearchFrom(p, s, i) == SearchFrom(p, s, i + 1)
  {
    if MatchAt(p, s, i).Some? { MatchStarts(p, s, i); }
  }
}
