/** Worked inputs for `_pop_vors`: the chain `FROM 40ESE YDC TO 30NNE EPH
    TO GEG`, the ring `BOUNDED BY TOU-EPH-DBS`, and an over-run reference.
    Each match, cleaning step and filter step is a lemma of its own. */
module VorsExamples {
  import opened Wrappers
  import opened PyStr
  import opened Scan
  import opened Vors
  import opened SearchFacts

  // ---------------------------------------------------------------------
  // The chain: its matches and the candidates they collect

  const Chain := "FROM 40ESE YDC TO 30NNE EPH TO GEG"
  const C0 := Candidate("FROM 40ESE YDC", 14)
  const C1 := Candidate("TO 30NNE EPH", 27)
  const C2 := Candidate("TO GEG", 34)

  lemma ChainFromCore() ensures CoreAt(Chain, 5, true) == Some(14) {
    assert forall k :: 5 <= k < 10 ==> IsAlnumUp(Chain[k]);
    assert IsSep(Chain[10]) && Upper3At(Chain, 11);
    CoreLong(Chain, 5, 5, true);
  }
  lemma ChainFromAt() ensures At(Chain, 0, "FROM") && IsSep(Chain[4]) {}
  lemma ChainFrom() ensures Search(FromRef, Chain) == Some(Span(0, 14)) { ChainFromAt(); ChainFromCore(); }

  lemma ChainNoT1() ensures forall j :: 0 <= j < 15 ==> !CanStart(ToRef, Chain[j]) {}
  lemma ChainTo1At() ensures At(Chain, 15, "TO") && IsSep(Chain[17]) {}
  lemma ChainTo1Core() ensures CoreAt(Chain, 18, true) == Some(27) {
    assert forall k :: 18 <= k < 23 ==> IsAlnumUp(Chain[k]);
    assert IsSep(Chain[23]) && Upper3At(Chain, 24);
    CoreLong(Chain, 18, 5, true);
  }
  lemma ChainTo1Match() ensures MatchAt(ToRef, Chain, 15) == Some(27) { ChainTo1At(); ChainTo1Core(); }
  lemma ChainTo1() ensures SearchFrom(ToRef, Chain, 0) == Some(Span(15, 27)) {
    ChainNoT1();
    SearchSkip(ToRef, Chain, 0, 15);
    ChainTo1Match();
  }

  lemma ChainTo2At() ensures At(Chain, 28, "TO") && IsSep(Chain[30]) && Upper3At(Chain, 31) {}
  lemma ChainTo2Match() ensures MatchAt(ToRef, Chain, 28) == Some(34) { ChainTo2At(); CoreShort(Chain, 31, true); }
  lemma ChainTo2() ensures SearchFrom(ToRef, Chain, 27) == Some(Span(28, 34)) {
    assert !CanStart(ToRef, Chain[27]);
    SearchSkip(ToRef, Chain, 27, 28);
    ChainTo2Match();
  }

  lemma ChainTos() ensures FindAll(ToRef, Chain, 0) == [Span(15, 27), Span(28, 34)] {
    ChainTo1();
    ChainTo2();
    assert SearchFrom(ToRef, Chain, 34) == None;
  }

  lemma ChainTexts()
    ensures Chain[0..14] == C0.text && Chain[15..27] == C1.text && Chain[28..34] == C2.text
  {
  }

  lemma ChainCands() ensures CandidatesOf(Chain, [Span(15, 27), Span(28, 34)]) == [C1, C2] {
    ChainTexts();
  }

  lemma ChainMax() ensures MaxEndPos([C1, C2]) == 34 {
    assert [C1, C2][..1] == [C1];
  }

  lemma ChainGather() ensures Gather(Chain, Span(0, 14), [Span(15, 27), Span(28, 34)]) == Collected(0, [C0, C1, C2], 34) {
    ChainTexts();
    ChainCands();
    ChainMax();
  }

  lemma ChainCollect() ensures Collect(Chain) == Some(Collected(0, [C0, C1, C2], 34)) {
    ChainFrom();
    ChainTos();
    ChainGather();
  }

  // ---------------------------------------------------------------------
  // Cleaning a candidate

  /** `v` holds no line break and no hyphen, and `b`, `f` and `o` witness that
      `BOUNDED BY `, `FROM ` and `TO ` do not occur in it. */
  predicate Uncluttered(v: string, b: char, f: char, o: char) {
    '#' !in v && '-' !in v && b in "BOUNDED BY " && b !in v && f in "FROM " && f !in v
    && o in "TO " && o !in v
  }

  lemma CleanFrom(v: string, b: char, o: char)
    requires Uncluttered(v, b, 'F', o) && b !in "FROM "
    ensures Clean("FROM " + v) == v
  {
    var t := "FROM " + v;
    assert "FROM " <= t && t[5..] == v;
    calc {
      Clean(t);
      { ReplaceMissing(t, "#", " ", '#'); ReplaceMissing(t, "BOUNDED BY ", "", b); ReplaceMissing(t, "-", "", '-'); }
      Replace(Replace(t, "FROM ", ""), "TO ", "");
      Replace("" + Replace(v, "FROM ", ""), "TO ", "");
      { ReplaceMissing(v, "FROM ", "", 'F'); assert "" + v == v; }
      Replace(v, "TO ", "");
      { ReplaceMissing(v, "TO ", "", o); }
      v;
    }
  }

  lemma CleanTo(v: string, b: char, f: char, o: char)
    requires Uncluttered(v, b, f, o) && b !in "TO " && f !in "TO "
    ensures Clean("TO " + v) == v
  {
    var t := "TO " + v;
    assert "TO " <= t && t[3..] == v;
    calc {
      Clean(t);
      { ReplaceMissing(t, "#", " ", '#'); ReplaceMissing(t, "BOUNDED BY ", "", b);
        ReplaceMissing(t, "-", "", '-'); ReplaceMissing(t, "FROM ", "", f); }
      Replace(t, "TO ", "");
      "" + Replace(v, "TO ", "");
      { ReplaceMissing(v, "TO ", "", o); assert "" + v == v; }
      v;
    }
  }

  lemma CleanHyphen(v: string, b: char, f: char, o: char)
    requires Uncluttered(v, b, f, o) && b != '-' && f != '-' && o != '-'
    ensures Clean("-" + v) == v
  {
    var t := "-" + v;
    assert "-" <= t && t[1..] == v;
    calc {
      Clean(t);
      { ReplaceMissing(t, "#", " ", '#'); ReplaceMissing(t, "BOUNDED BY ", "", b); }
      Replace(Replace(Replace(t, "-", ""), "FROM ", ""), "TO ", "");
      Replace(Replace("" + Replace(v, "-", ""), "FROM ", ""), "TO ", "");
      { ReplaceMissing(v, "-", "", '-'); assert "" + v == v; }
      Replace(Replace(v, "FROM ", ""), "TO ", "");
      { ReplaceMissing(v, "FROM ", "", f); ReplaceMissing(v, "TO ", "", o); }
      v;
    }
  }

  lemma CleanBounded(v: string, f: char, o: char)
    requires '#' !in v && '-' !in v && 'B' !in v && f in "FROM " && f !in v && o in "TO " && o !in v
    ensures Clean("BOUNDED BY " + v) == v
  {
    var t := "BOUNDED BY " + v;
    assert "BOUNDED BY " <= t && t[11..] == v;
    assert '#' !in t && '-' !in t;
    calc {
      Clean(t);
      { ReplaceMissing(t, "#", " ", '#'); }
      Replace(Replace(Replace(Replace(t, "BOUNDED BY ", ""), "-", ""), "FROM ", ""), "TO ", "");
      Replace(Replace(Replace("" + Replace(v, "BOUNDED BY ", ""), "-", ""), "FROM ", ""), "TO ", "");
      { ReplaceMissing(v, "BOUNDED BY ", "", 'B'); assert "" + v == v; }
      Replace(Replace(Replace(v, "-", ""), "FROM ", ""), "TO ", "");
      { ReplaceMissing(v, "-", "", '-'); ReplaceMissing(v, "FROM ", "", f); ReplaceMissing(v, "TO ", "", o); }
      v;
    }
  }

  lemma Clean0() ensures Clean(C0.text) == "40ESE YDC" {
    CleanFrom("40ESE YDC", 'B', 'T');
    assert "FROM " + "40ESE YDC" == C0.text;
  }
  lemma Clean1() ensures Clean(C1.text) == "30NNE EPH" {
    CleanTo("30NNE EPH", 'B', 'F', 'T');
    assert "TO " + "30NNE EPH" == C1.text;
  }
  lemma Clean2() ensures Clean(C2.text) == "GEG" {
    CleanTo("GEG", 'B', 'F', 'T');
    assert "TO " + "GEG" == C2.text;
  }

  // ---------------------------------------------------------------------
  // The chain: quality checks, filter and result

  /** A cleaned candidate that passes every check unchanged is kept as it is. */
  lemma KeptAsIs(c: Candidate, v: string)
    requires Clean(c.text) == v && !Rejected(v) && !CaughtDesc(v)
    requires v != [] && !IsSpace(v[0]) && !IsSpace(v[|v| - 1])
    ensures KeptRef(c) == Some(v)
  {
    StripNoSpace(v);
  }

  lemma Passes0() ensures !Rejected("40ESE YDC") && !CaughtDesc("40ESE YDC") {
    RunLengthIs("40ESE YDC", 0, IsDigit, 2);
  }
  lemma Passes1() ensures !Rejected("30NNE EPH") && !CaughtDesc("30NNE EPH") {
    RunLengthIs("30NNE EPH", 0, IsDigit, 2);
  }
  lemma Passes2() ensures !Rejected("GEG") && !CaughtDesc("GEG") {
    RunLengthIs("GEG", 0, IsDigit, 0);
  }

  lemma Kept0() ensures KeptRef(C0) == Some("40ESE YDC") {
    Clean0();
    Passes0();
    KeptAsIs(C0, "40ESE YDC");
  }

  lemma Kept1() ensures KeptRef(C1) == Some("30NNE EPH") {
    Clean1();
    Passes1();
    KeptAsIs(C1, "30NNE EPH");
  }

  lemma Kept2() ensures KeptRef(C2) == Some("GEG") {
    Clean2();
    Passes2();
    KeptAsIs(C2, "GEG");
  }

  /** A kept candidate that did not run into the description adds its
      reference and leaves the block end alone. */
  lemma FilterKeeps(f: Filtered, c: Candidate, r: string)
    requires KeptRef(c) == Some(r) && !CaughtDesc(Clean(c.text))
    ensures FilterStep(f, c) == Filtered(f.refs + [r], f.end)
  {
  }

  /** Three candidates that are all kept unchanged. */
  lemma FilterThree(c0: Candidate, c1: Candidate, c2: Candidate, r0: string, r1: string, r2: string, e: int)
    requires KeptRef(c0) == Some(r0) && !CaughtDesc(Clean(c0.text))
    requires KeptRef(c1) == Some(r1) && !CaughtDesc(Clean(c1.text))
    requires KeptRef(c2) == Some(r2) && !CaughtDesc(Clean(c2.text))
    ensures FilterAll([c0, c1, c2], e) == Filtered([r0, r1, r2], e)
  {
    FilterAppendKept([], c0, r0, e, []);
    FilterAppendKept([c0], c1, r1, e, [r0]);
    FilterAppendKept([c0, c1], c2, r2, e, [r0, r1]);
    assert [c0] + [c1] == [c0, c1] && [c0, c1] + [c2] == [c0, c1, c2] && [] + [c0] == [c0];
    assert [r0] + [r1] == [r0, r1] && [r0, r1] + [r2] == [r0, r1, r2] && [] + [r0] == [r0];
  }

  /** A kept candidate adds its reference and leaves the block end alone. */
  lemma FilterAppendKept(cs: seq<Candidate>, c: Candidate, r: string, e: int, refs: seq<string>)
    requires FilterAll(cs, e) == Filtered(refs, e)
    requires KeptRef(c) == Some(r) && !CaughtDesc(Clean(c.text))
    ensures FilterAll(cs + [c], e) == Filtered(refs + [r], e)
  {
    FilterSnoc(cs, c, e);
    FilterKeeps(Filtered(refs, e), c, r);
  }

  /** The filter over one more candidate takes one more step. */
  lemma FilterSnoc(cs: seq<Candidate>, c: Candidate, e: int)
    ensures FilterAll(cs + [c], e) == FilterStep(FilterAll(cs, e), c)
  {
    assert (cs + [c])[..|cs|] == cs;
  }

  lemma ChainFilter() ensures FilterAll([C0, C1, C2], 34) == Filtered(["40ESE YDC", "30NNE EPH", "GEG"], 34) {
    Kept0(); Kept1(); Kept2();
    Clean0(); Clean1(); Clean2();
    Passes0(); Passes1(); Passes2();
    FilterThree(C0, C1, C2, "40ESE YDC", "30NNE EPH", "GEG", 34);
  }

  /** `FROM 40ESE YDC TO 30NNE EPH TO GEG` yields its three references and
      leaves nothing behind. */
  lemma ChainExample() ensures Pop(Chain) == Popped("", ["40ESE YDC", "30NNE EPH", "GEG"]) {
    ChainCollect();
    ChainFilter();
    PopOf(Chain, Collected(0, [C0, C1, C2], 34), Filtered(["40ESE YDC", "30NNE EPH", "GEG"], 34));
    assert |Chain| == 34;
  }

  /** `Pop` once the collection and the filtering are known. */
  lemma PopOf(s: string, g: Collected, f: Filtered)
    requires Collect(s) == Some(g) && FilterAll(g.cands, g.end) == f
    ensures Pop(s) == Popped(SliceTo(s, g.start) + SliceFrom(s, FinalEnd(f, g.cands)), f.refs)
  {
  }

  // ---------------------------------------------------------------------
  // The ring: its matches and the candidates they collect

  const Ring := "BOUNDED BY TOU-EPH-DBS"
  const D0 := Candidate("BOUNDED BY TOU", 14)
  const D1 := Candidate("-EPH", 18)
  const D2 := Candidate("-DBS", 22)

  lemma RingNoF() ensures forall j :: 0 <= j < |Ring| ==> !CanStart(FromRef, Ring[j]) {}
  lemma RingNoFrom() ensures Search(FromRef, Ring) == None {
    RingNoF();
    SearchSkip(FromRef, Ring, 0, |Ring|);
  }

  lemma RingBoundedAt() ensures At(Ring, 0, "BOUNDED BY") && IsSep(Ring[10]) && Upper3At(Ring, 11) && Ring[14] == '-' {}
  lemma RingBoundedMatch() ensures MatchAt(BoundedByRef, Ring, 0) == Some(14) {
    RingBoundedAt();
    CoreShort(Ring, 11, false);
  }
  lemma RingBounded() ensures Search(BoundedByRef, Ring) == Some(Span(0, 14)) { RingBoundedMatch(); }

  lemma RingNoHyphen() ensures forall j :: 0 <= j < 14 ==> !CanStart(HyphenRef, Ring[j]) {}
  lemma RingHyphen1At() ensures Ring[14] == '-' && Ring[15] != '#' && Upper3At(Ring, 15) && Ring[18] == '-' {}
  lemma RingHyphen1Match() ensures MatchAt(HyphenRef, Ring, 14) == Some(18) {
    RingHyphen1At();
    assert SkipHashGroups(Ring, 15) == 15;
    CoreShort(Ring, 15, false);
  }
  lemma RingHyphen1() ensures SearchFrom(HyphenRef, Ring, 0) == Some(Span(14, 18)) {
    RingNoHyphen();
    SearchSkip(HyphenRef, Ring, 0, 14);
    RingHyphen1Match();
  }
  lemma RingHyphen2At() ensures Ring[18] == '-' && Ring[19] != '#' && Upper3At(Ring, 19) && |Ring| == 22 {}
  lemma RingHyphen2() ensures SearchFrom(HyphenRef, Ring, 18) == Some(Span(18, 22)) {
    RingHyphen2At();
    assert SkipHashGroups(Ring, 19) == 19;
    CoreShort(Ring, 19, false);
  }
  lemma RingHyphens() ensures FindAll(HyphenRef, Ring, 0) == [Span(14, 18), Span(18, 22)] {
    RingHyphen1();
    RingHyphen2();
    assert SearchFrom(HyphenRef, Ring, 22) == None;
  }

  lemma RingTexts()
    ensures Ring[0..14] == D0.text && Ring[14..18] == D1.text && Ring[18..22] == D2.text
  {
  }
  lemma RingCands() ensures CandidatesOf(Ring, [Span(14, 18), Span(18, 22)]) == [D1, D2] {
    RingTexts();
  }
  lemma RingMax() ensures MaxEndPos([D1, D2]) == 22 {
    assert [D1, D2][..1] == [D1];
  }
  lemma RingGather() ensures Gather(Ring, Span(0, 14), [Span(14, 18), Span(18, 22)]) == Collected(0, [D0, D1, D2], 22) {
    RingTexts();
    RingCands();
    RingMax();
  }
  lemma RingCollect() ensures Collect(Ring) == Some(Collected(0, [D0, D1, D2], 22)) {
    RingNoFrom();
    RingBounded();
    RingHyphens();
    RingGather();
  }

  // ---------------------------------------------------------------------
  // The ring: cleaning, quality checks, filter and result

  lemma CleanD0() ensures Clean(D0.text) == "TOU" {
    CleanBounded("TOU", 'F', ' ');
    assert "BOUNDED BY " + "TOU" == D0.text;
  }
  lemma CleanD1() ensures Clean(D1.text) == "EPH" {
    CleanHyphen("EPH", 'B', 'F', 'T');
    assert "-" + "EPH" == D1.text;
  }
  lemma CleanD2() ensures Clean(D2.text) == "DBS" {
    CleanHyphen("DBS", 'U', 'F', 'T');
    assert "-" + "DBS" == D2.text;
  }
  lemma RingPasses() ensures !Rejected("TOU") && !CaughtDesc("TOU") && !Rejected("EPH") && !CaughtDesc("EPH")
    && !Rejected("DBS") && !CaughtDesc("DBS")
  {
    RunLengthIs("TOU", 0, IsDigit, 0);
    RunLengthIs("EPH", 0, IsDigit, 0);
    RunLengthIs("DBS", 0, IsDigit, 0);
  }
  lemma RingKept() ensures KeptRef(D0) == Some("TOU") && KeptRef(D1) == Some("EPH") && KeptRef(D2) == Some("DBS") {
    CleanD0(); CleanD1(); CleanD2();
    RingPasses();
    KeptAsIs(D0, "TOU");
    KeptAsIs(D1, "EPH");
    KeptAsIs(D2, "DBS");
  }
  lemma RingFilter() ensures FilterAll([D0, D1, D2], 22) == Filtered(["TOU", "EPH", "DBS"], 22) {
    RingKept();
    CleanD0(); CleanD1(); CleanD2();
    RingPasses();
    FilterThree(D0, D1, D2, "TOU", "EPH", "DBS", 22);
  }

  /** `BOUNDED BY TOU-EPH-DBS` yields the three identifiers of the ring. */
  lemma RingExample() ensures Pop(Ring) == Popped("", ["TOU", "EPH", "DBS"]) {
    RingCollect();
    RingFilter();
    PopOf(Ring, Collected(0, [D0, D1, D2], 22), Filtered(["TOU", "EPH", "DBS"], 22));
    assert |Ring| == 22;
  }

  // ---------------------------------------------------------------------
  // A reference that ran into the description

  lemma OverRunClean() ensures Clean("TO EPH MTN") == "EPH MTN" {
    CleanTo("EPH MTN", 'B', 'F', 'O');
    assert "TO " + "EPH MTN" == "TO EPH MTN";
  }
  lemma OverRunChecks() ensures !Rejected("EPH MTN") && CaughtDesc("EPH MTN") {
    RunLengthIs("EPH MTN", 0, IsDigit, 0);
  }
  lemma OverRunWord() ensures Split("EPH MTN", ' ')[0] == "EPH" {
    SplitFirst("EPH MTN", ' ');
  }
  /** The rule for a reference that ran into the description, stated for any
      candidate. */
  lemma KeptFirstWord(c: Candidate, v: string, w: string)
    requires Clean(c.text) == v && !Rejected(v) && CaughtDesc(v) && Split(v, ' ')[0] == w
    requires w != [] && !IsSpace(w[0]) && !IsSpace(w[|w| - 1])
    ensures KeptRef(c) == Some(w)
  {
    StripNoSpace(w);
  }

  /** A reference that ran into the description keeps only its first word. */
  lemma OverRunExample() ensures KeptRef(Candidate("TO EPH MTN", 10)) == Some("EPH") {
    OverRunClean();
    OverRunChecks();
    OverRunWord();
    KeptFirstWord(Candidate("TO EPH MTN", 10), "EPH MTN", "EPH");
  }
}
