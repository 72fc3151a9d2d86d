/** `_pop_vors` (airmet.py:569-645): finds the chain of VOR references that
    bounds an advisory area, keeps the ones that pass the quality checks and
    cuts the block they came from out of the text.

    Two schemes are tried in order.  The chain scheme is `FROM` followed by
    every `TO` reference in the text; the ring scheme is `BOUNDED BY` followed
    by every hyphenated reference.  Each candidate is the matched text together
    with the index where its match ends. */
module Vors {
  import opened Wrappers
  import opened PyStr
  import opened Scan

  /** A matched reference and the end index of its match. */
  datatype Candidate = Candidate(text: string, endPos: nat)

  /** What the two loops of a scheme collect: the start of the first match,
      the candidates in match order, and the initial end of the block. */
  datatype Collected = Collected(start: nat, cands: seq<Candidate>, end: int)

  /** The references kept so far and the tracked end of the block. */
  datatype Filtered = Filtered(refs: seq<string>, end: int)

  /** The text without the reference block, and the kept references. */
  datatype Popped = Popped(rest: string, refs: seq<string>)

  /** The end index the filter uses to flag the block end for recomputation. */
  const Flagged: int := -999

  predicate SpanIn(s: string, m: Span) { m.start <= m.end <= |s| }

  predicate SpansIn(s: string, ms: seq<Span>) { forall k :: 0 <= k < |ms| ==> SpanIn(s, ms[k]) }

  function CandidateOf(s: string, m: Span): Candidate
    requires SpanIn(s, m)
  {
    Candidate(s[m.start..m.end], m.end)
  }

  /** The candidates of a sequence of matches, in order. */
  function CandidatesOf(s: string, ms: seq<Span>): (r: seq<Candidate>)
    requires SpansIn(s, ms)
    ensures |r| == |ms|
    ensures forall k :: 0 <= k < |ms| ==> r[k] == CandidateOf(s, ms[k])
    decreases |ms|
  {
    if ms == [] then [] else CandidatesOf(s, ms[..|ms| - 1]) + [CandidateOf(s, ms[|ms| - 1])]
  }

  /** The largest end index among the candidates, or 0 when there are none:
      the running maximum of airmet.py:589-590 and 638-642. */
  function MaxEndPos(cands: seq<Candidate>): (r: nat)
    ensures forall k :: 0 <= k < |cands| ==> cands[k].endPos <= r
    ensures r == 0 || exists k :: 0 <= k < |cands| && cands[k].endPos == r
    decreases |cands|
  {
    if cands == [] then 0
    else
      var m := MaxEndPos(cands[..|cands| - 1]);
      if cands[|cands| - 1].endPos > m then cands[|cands| - 1].endPos else m
  }

  /** A scheme's collection: the first match, then every follow-on match in the
      whole text; the initial block end is the largest follow-on end, so the
      first match does not take part (airmet.py:582-590, 596-604). */
  function Gather(s: string, first: Span, rest: seq<Span>): (r: Collected)
    requires SpanIn(s, first) && SpansIn(s, rest)
    ensures |r.cands| == |rest| + 1 && r.cands[0] == CandidateOf(s, first)
  {
    var cs := CandidatesOf(s, rest);
    Collected(first.start, [CandidateOf(s, first)] + cs, MaxEndPos(cs))
  }

  lemma FindAllSpans(p: Pattern, s: string)
    ensures SpansIn(s, FindAll(p, s, 0))
  {
  }

  /** The chain scheme if its `FROM` matches, else the ring scheme if its
      `BOUNDED BY` matches, else nothing (airmet.py:570-607). */
  function Collect(s: string): Option<Collected>
  {
    FindAllSpans(ToRef, s);
    FindAllSpans(HyphenRef, s);
    match Search(FromRef, s)
    case Some(m) => Some(Gather(s, m, FindAll(ToRef, s, 0)))
    case None =>
      match Search(BoundedByRef, s)
      case Some(m) => Some(Gather(s, m, FindAll(HyphenRef, s, 0)))
      case None => None
  }

  // ---------------------------------------------------------------------
  // Quality checks (airmet.py:614-630)

  /** Line breaks become spaces, then the keywords and hyphens are removed. */
  function Clean(t: string): string {
    Replace(Replace(Replace(Replace(Replace(t, "#", " "), "BOUNDED BY ", ""), "-", ""), "FROM ", ""), "TO ", "")
  }

  /** `re.match(r"(\d{2}|\d{2}00)Z", v)`: a time such as `12Z` or `1200Z`. */
  predicate IsTimeCode(v: string) {
    |v| >= 3 && IsDigit(v[0]) && IsDigit(v[1])
    && (v[2] == 'Z' || (|v| >= 5 && v[2] == '0' && v[3] == '0' && v[4] == 'Z'))
  }

  /** `re.match(r"\d+(?!\w)", v)`: a number such as a flight level.  Only the
      whole digit run can be followed by a non-word character. */
  predicate IsBareNumber(v: string) {
    var n := RunLength(v, 0, IsDigit);
    n >= 1 && (n == |v| || !IsWord(v[n]))
  }

  /** `re.match(r"(?<!\d)[A-Z]{3}\s[A-Z]+", v)`: the reference ran into the
      description, as in `EPH MTN`.  The look-behind always holds at index 0. */
  predicate CaughtDesc(v: string) {
    |v| >= 5 && Upper3At(v, 0) && IsSpace(v[3]) && IsUpper(v[4])
  }

  /** The condition of airmet.py:621 that discards a candidate. */
  predicate Rejected(v: string) {
    |v| > 10 || |v| < 3 || IsTimeCode(v) || IsBareNumber(v)
  }

  /** The reference a candidate contributes, if it passes the checks: an
      over-run is cut to its first word, and the result is stripped. */
  function KeptRef(c: Candidate): Option<string> {
    var v := Clean(c.text);
    if Rejected(v) then None
    else Some(Strip(if CaughtDesc(v) then Split(v, ' ')[0] else v))
  }

  /** One pass of the loop at airmet.py:610-634.  A rejected candidate whose
      match ends where the block is thought to end flags that end; an over-run
      moves the end back by the four characters of the word it dropped. */
  function FilterStep(f: Filtered, c: Candidate): Filtered {
    match KeptRef(c)
    case None => Filtered(f.refs, if c.endPos == f.end then Flagged else f.end)
    case Some(r) => Filtered(f.refs + [r], if CaughtDesc(Clean(c.text)) then f.end - 4 else f.end)
  }

  /** The whole filter loop, from initial block end `end0`. */
  function FilterAll(cands: seq<Candidate>, end0: int): Filtered
    decreases |cands|
  {
    if cands == [] then Filtered([], end0)
    else FilterStep(FilterAll(cands[..|cands| - 1], end0), cands[|cands| - 1])
  }

  /** The references kept from the candidates, in candidate order: the list
      the filter builds, described without the block-end bookkeeping. */
  function KeptRefs(cands: seq<Candidate>): seq<string>
    decreases |cands|
  {
    if cands == [] then []
    else
      KeptRefs(cands[..|cands| - 1])
      + match KeptRef(cands[|cands| - 1]) case None => [] case Some(r) => [r]
  }

  /** A flagged block end is recomputed over all candidates, the first one
      included (airmet.py:636-642). */
  function FinalEnd(f: Filtered, cands: seq<Candidate>): int {
    if f.end == Flagged then MaxEndPos(cands) else f.end
  }

  /** `_pop_vors(text)`: the text with `text[start:end]` cut out (with Python's
      meaning of a negative `end`) and the kept references. */
  function Pop(s: string): (r: Popped)
    ensures Collect(s).None? ==> r == Popped(s, [])
    ensures Collect(s).Some? ==> r.refs == KeptRefs(Collect(s).value.cands)
  {
    match Collect(s)
    case None => Popped(s, [])
    case Some(g) =>
      var f := FilterAll(g.cands, g.end);
      FilterKeepsRefs(g.cands, g.end);
      Popped(SliceTo(s, g.start) + SliceFrom(s, FinalEnd(f, g.cands)), f.refs)
  }

  // ---------------------------------------------------------------------
  // The loops

  /** The candidates of one more match are the earlier ones and its own. */
  lemma CandidatesSnoc(s: string, rest: seq<Span>, i: nat)
    requires SpansIn(s, rest) && i < |rest|
    ensures SpansIn(s, rest[..i]) && SpansIn(s, rest[..i + 1])
    ensures CandidatesOf(s, rest[..i + 1]) == CandidatesOf(s, rest[..i]) + [CandidateOf(s, rest[i])]
  {
    assert rest[..i + 1][..i] == rest[..i];
  }

  /** The running maximum over one more candidate. */
  lemma MaxEndSnoc(cs: seq<Candidate>, c: Candidate)
    ensures MaxEndPos(cs + [c]) == if c.endPos > MaxEndPos(cs) then c.endPos else MaxEndPos(cs)
  {
    assert (cs + [c])[..|cs|] == cs;
  }

  /** The append loop over the follow-on matches of one scheme. */
  method GatherCandidates(s: string, first: Span, rest: seq<Span>) returns (g: Collected)
    requires SpanIn(s, first) && SpansIn(s, rest)
    ensures g == Gather(s, first, rest)
  {
    var cs: seq<Candidate> := [];
    var end: nat := 0;
    var i := 0;
    assert rest[..0] == [];
    while i < |rest|
      invariant 0 <= i <= |rest|
      invariant SpansIn(s, rest[..i])
      invariant cs == CandidatesOf(s, rest[..i])
      invariant end == MaxEndPos(cs)
    {
      var m := rest[i];
      CandidatesSnoc(s, rest, i);
      MaxEndSnoc(cs, CandidateOf(s, m));
      cs := cs + [CandidateOf(s, m)];
      if m.end > end {
        end := m.end;
      }
      i := i + 1;
    }
    assert rest[..i] == rest;
    g := Collected(first.start, [CandidateOf(s, first)] + cs, end);
  }

  /** The quality-check loop of airmet.py:610-634. */
  method FilterCandidates(cands: seq<Candidate>, end0: int) returns (refs: seq<string>, end: int)
    ensures Filtered(refs, end) == FilterAll(cands, end0)
  {
    refs, end := [], end0;
    var i := 0;
    while i < |cands|
      invariant 0 <= i <= |cands|
      invariant Filtered(refs, end) == FilterAll(cands[..i], end0)
    {
      var c := cands[i];
      assert cands[..i + 1][..i] == cands[..i];
      var v := Clean(c.text);
      if Rejected(v) {
        if c.endPos == end {
          end := Flagged;
        }
      } else {
        if CaughtDesc(v) {
          v := Split(v, ' ')[0];
          end := end - 4;
        }
        v := Strip(v);
        refs := refs + [v];
      }
      i := i + 1;
    }
    assert cands[..i] == cands;
  }

  /** The recomputation loop of airmet.py:637-642. */
  method MaxEnd(cands: seq<Candidate>) returns (e: nat)
    ensures e == MaxEndPos(cands)
  {
    e := 0;
    var i := 0;
    while i < |cands|
      invariant 0 <= i <= |cands|
      invariant e == MaxEndPos(cands[..i])
    {
      assert cands[..i + 1][..i] == cands[..i];
      if cands[i].endPos > e {
        e := cands[i].endPos;
      }
      i := i + 1;
    }
    assert cands[..i] == cands;
  }

  /** `_pop_vors`. */
  method PopVors(s: string) returns (rest: string, refs: seq<string>)
    ensures Popped(rest, refs) == Pop(s)
  {
    FindAllSpans(ToRef, s);
    FindAllSpans(HyphenRef, s);
    var g: Collected;
    match Search(FromRef, s) {
      case Some(m) =>
        g := GatherCandidates(s, m, FindAll(ToRef, s, 0));
      case None =>
        match Search(BoundedByRef, s) {
          case Some(m) =>
            g := GatherCandidates(s, m, FindAll(HyphenRef, s, 0));
          case None =>
            return s, [];
        }
    }
    var end;
    refs, end := FilterCandidates(g.cands, g.end);
    if end == Flagged {
      end := MaxEnd(g.cands);
    }
    rest := SliceTo(s, g.start) + SliceFrom(s, end);
  }

  // ---------------------------------------------------------------------
  // Properties

  /** The block-end bookkeeping never changes which references are kept. */
  lemma {:induction false} FilterKeepsRefs(cands: seq<Candidate>, end0: int)
    ensures FilterAll(cands, end0).refs == KeptRefs(cands)
    decreases |cands|
  {
    if cands != [] {
      FilterKeepsRefs(cands[..|cands| - 1], end0);
    }
  }

  /** Kept references follow candidate order: the references of a
      concatenation are those of its parts, concatenated. */
  lemma {:induction false} KeptRefsAppend(a: seq<Candidate>, b: seq<Candidate>)
    ensures KeptRefs(a + b) == KeptRefs(a) + KeptRefs(b)
    decreases |b|
  {
    if b != [] {
      var b' := b[..|b| - 1];
      assert (a + b)[..|a + b| - 1] == a + b';
      assert (a + b)[|a + b| - 1] == b[|b| - 1];
      KeptRefsAppend(a, b');
      var tail := match KeptRef(b[|b| - 1]) case None => [] case Some(r) => [r];
      assert KeptRefs(a + b) == KeptRefs(a + b') + tail;
      assert KeptRefs(b) == KeptRefs(b') + tail;
    } else {
      assert a + b == a;
    }
  }

  /** Cleaning leaves no line break and no hyphen. */
  lemma CleanAvoids(t: string)
    ensures '#' !in Clean(t) && '-' !in Clean(t)
  {
    var t1 := Replace(t, "#", " ");
    var t2 := Replace(t1, "BOUNDED BY ", "");
    var t3 := Replace(t2, "-", "");
    var t4 := Replace(t3, "FROM ", "");
    ReplaceCharRemoves(t, '#', " ");
    if '#' in t2 { ReplaceChars(t1, "BOUNDED BY ", "", '#'); }
    ReplaceCharRemoves(t2, '-', "");
    if '#' in t3 { ReplaceChars(t2, "-", "", '#'); }
    if '#' in t4 { ReplaceChars(t3, "FROM ", "", '#'); }
    if '-' in t4 { ReplaceChars(t3, "FROM ", "", '-'); }
    if '#' in Clean(t) { ReplaceChars(t4, "TO ", "", '#'); }
    if '-' in Clean(t) { ReplaceChars(t4, "TO ", "", '-'); }
  }

  /** Every kept reference is at most ten characters long, holds no `#` and
      no `-`, and has no white space at either end. */
  lemma KeptRefShape(c: Candidate)
    requires KeptRef(c).Some?
    ensures var r := KeptRef(c).value;
      |r| <= 10 && '#' !in r && '-' !in r
      && (r != [] ==> !IsSpace(r[0]) && !IsSpace(r[|r| - 1]))
  {
    var v := Clean(c.text);
    CleanAvoids(c.text);
    var w := if CaughtDesc(v) then Split(v, ' ')[0] else v;
    SplitFirst(v, ' ');
    assert |w| <= |v| && (forall x :: x in w ==> x in v);
    StripFacts(w);
  }

  /** Every reference in the list has that shape. */
  lemma {:induction false} KeptRefsShape(cands: seq<Candidate>)
    ensures forall k :: 0 <= k < |KeptRefs(cands)| ==>
      var r := KeptRefs(cands)[k];
      |r| <= 10 && '#' !in r && '-' !in r && (r != [] ==> !IsSpace(r[0]) && !IsSpace(r[|r| - 1]))
    decreases |cands|
  {
    if cands != [] {
      KeptRefsShape(cands[..|cands| - 1]);
      var last := cands[|cands| - 1];
      if KeptRef(last).Some? { KeptRefShape(last); }
    }
  }

  /** Time codes and bare numbers are never kept; a reference that ran into
      the description is cut to its first word. */
  lemma KeptRefChecks(c: Candidate)
    ensures IsTimeCode(Clean(c.text)) ==> KeptRef(c).None?
    ensures IsBareNumber(Clean(c.text)) ==> KeptRef(c).None?
    ensures KeptRef(c).Some? && CaughtDesc(Clean(c.text)) ==>
      KeptRef(c).value == Strip(Split(Clean(c.text), ' ')[0]) && ' ' !in Split(Clean(c.text), ' ')[0]
  {
    SplitFirst(Clean(c.text), ' ');
  }

  /** A `FROM` with no `TO` anywhere in the text leaves the block end at 0, so
      unless the one reference ran into the description the remainder is the
      text before `FROM` followed by the whole text again (airmet.py:584, 644). */
  lemma LoneFromDuplicates(s: string)
    requires Search(FromRef, s).Some? && FindAll(ToRef, s, 0) == []
    requires !CaughtDesc(Clean(Collect(s).value.cands[0].text))
    ensures Pop(s).rest == s[..Search(FromRef, s).value.start] + s
  {
    var g := Collect(s).value;
    assert g.cands == [g.cands[0]] && g.end == 0;
    assert g.cands[..|g.cands| - 1] == [];
    assert FilterAll(g.cands, 0) == FilterStep(Filtered([], 0), g.cands[0]);
    assert g.cands[0].endPos > 0;
  }

  /** The same lone `FROM` whose reference passes the checks but ran into the
      description moves the block end from 0 to -4, so the remainder is the
      text before `FROM` followed by the last four characters of the text
      (airmet.py:584, 628, 644). */
  lemma LoneFromOverRun(s: string)
    requires Search(FromRef, s).Some? && FindAll(ToRef, s, 0) == []
    requires !Rejected(Clean(Collect(s).value.cands[0].text))
    requires CaughtDesc(Clean(Collect(s).value.cands[0].text))
    ensures Pop(s).rest == s[..Search(FromRef, s).value.start] + SliceFrom(s, -4)
  {
    var g := Collect(s).value;
    assert g.cands == [g.cands[0]] && g.end == 0;
    assert g.cands[..|g.cands| - 1] == [];
    assert FilterAll(g.cands, 0) == FilterStep(Filtered([], 0), g.cands[0]);
  }

  /** When every candidate passes the checks and none ran into the
      description, the filter leaves the block end where the loops put it. */
  lemma {:induction false} FilterKeepsEnd(cands: seq<Candidate>, end0: int)
    requires forall k :: 0 <= k < |cands| ==> KeptRef(cands[k]).Some? && !CaughtDesc(Clean(cands[k].text))
    ensures FilterAll(cands, end0).end == end0
    decreases |cands|
  {
    if cands != [] {
      FilterKeepsEnd(cands[..|cands| - 1], end0);
    }
  }

  /** In that case the remainder is the text before the first match followed
      by the text after the farthest follow-on match: `text[:start] + text[end:]`
      with an ordinary, non-negative `end` (airmet.py:644). */
  lemma PopCutsBlock(s: string)
    requires Collect(s).Some?
    requires forall k :: 0 <= k < |Collect(s).value.cands| ==>
      KeptRef(Collect(s).value.cands[k]).Some? && !CaughtDesc(Clean(Collect(s).value.cands[k].text))
    ensures var g := Collect(s).value;
      g.start <= |s| && 0 <= g.end <= |s| && Pop(s).rest == s[..g.start] + s[g.end..]
  {
    var g := Collect(s).value;
    CollectInText(s);
    FilterKeepsEnd(g.cands, g.end);
    var f := FilterAll(g.cands, g.end);
    assert f.end == g.end && FinalEnd(f, g.cands) == g.end;
    assert PyIndex(|s|, g.start) == g.start && PyIndex(|s|, g.end) == g.end;
  }

  /** The start and initial end of a collection lie inside the text. */
  lemma CollectInText(s: string)
    requires Collect(s).Some?
    ensures Collect(s).value.start <= |s| && 0 <= Collect(s).value.end <= |s|
  {
    FindAllSpans(ToRef, s);
    FindAllSpans(HyphenRef, s);
    match Search(FromRef, s)
    case Some(m) => GatherInText(s, m, FindAll(ToRef, s, 0));
    case None =>
      match Search(BoundedByRef, s)
      case Some(m) => GatherInText(s, m, FindAll(HyphenRef, s, 0));
      case None =>
  }

  lemma GatherInText(s: string, first: Span, rest: seq<Span>)
    requires SpanIn(s, first) && SpansIn(s, rest)
    ensures Gather(s, first, rest).start <= |s| && 0 <= Gather(s, first, rest).end <= |s|
  {
    var cs := CandidatesOf(s, rest);
    if MaxEndPos(cs) != 0 {
      var k :| 0 <= k < |cs| && cs[k].endPos == MaxEndPos(cs);
      assert cs[k] == CandidateOf(s, rest[k]);
    }
  }

}
