/** `_pop_states` (airmet.py:647-707): the jurisdiction block of a body group
    is the text between its first and its last `$` (a `##` left behind by the
    reference extractor counts as a `$`).  The block is cleaned and then
    classified as a plain list of two-letter state codes, as a list that
    mentions coastal waters, or as neither. */
module Jurisdictions {
  import opened Wrappers
  import opened PyStr
  import opened Scan

  /** The remainder of the group and the jurisdictions taken from it. */
  datatype StatesPopped = StatesPopped(rest: string, states: seq<string>)

  /** The error `list.index` raises at airmet.py:700. */
  const NoCoastalToken := "'CSTL_WTRS' is not in list"

  /** `text.replace("##", "$")` (airmet.py:649). */
  function Marked(text: string): string {
    Replace(text, "##", "$")
  }

  /** One round of `([A-Z]{3,}(\s*))` from `p` onwards, repeated while another
      round can start: the end of the greedy match of `^([A-Z]{3,}(\s*))+`. */
  function CaughtFrom(st: string, p: nat): (r: nat)
    requires p <= |st| && RunLength(st, p, IsUpper) >= 3
    ensures p + 3 <= r <= |st|
    ensures r < |st| ==> !IsSpace(st[r]) && RunLength(st, r, IsUpper) < 3
    decreases |st| - p
  {
    var q := p + RunLength(st, p, IsUpper);
    var r := q + RunLength(st, q, IsSpace);
    if RunLength(st, r, IsUpper) >= 3 then CaughtFrom(st, r) else r
  }

  /** `re.match(r"^([A-Z]{3,}(\s*))+", st)`: the end of the match, if any.
      The regex only matches when the text opens with three capitals; every
      round then takes its whole run greedily, and nothing after the `+`
      can force a shorter choice. */
  function CaughtAirmet(st: string): Option<nat> {
    if RunLength(st, 0, IsUpper) >= 3 then Some(CaughtFrom(st, 0)) else None
  }

  /** The raw block between the markers at `a` and `b`, after dropping a
      caught description prefix.  The source slices the marked text from
      `a + m`, not from `a + 1 + m` (airmet.py:662), so one character before
      the end of the match is kept. */
  function Unprefixed(t: string, a: nat, b: nat): string
    requires a < b <= |t|
  {
    var st := t[a + 1..b];
    match CaughtAirmet(st)
    case Some(m) => t[a + m..b]
    case None => st
  }

  /** Cuts "WTRS$UPDT" after its "WTRS", then cuts at "$UPDT" (airmet.py:668-674):
      what is left is a prefix with no "$UPDT" trailer, and text without one
      is left whole. */
  function ClipTrailers(st: string): (r: string)
    ensures r <= st
    ensures !Occurs(r, "$UPDT")
    ensures !Occurs(st, "$UPDT") ==> r == st
  {
    var k := Find(st, "WTRS$UPDT");
    var s1 := if k != -1 then st[..k + 4] else st;
    var k2 := Find(s1, "$UPDT");
    if k2 != -1 then
      CutAtFind(s1, "$UPDT");
      OccursInPrefix(s1, st, "$UPDT");
      s1[..k2]
    else
      assert k != -1 ==> Occurs(st, "$UPDT") by {
        if k != -1 { UpdateTrailer(st, k); }
      }
      s1
  }

  /** "WTRS$UPDT" holds "$UPDT" four characters in. */
  lemma UpdateTrailer(st: string, k: int)
    requires At(st, k, "WTRS$UPDT")
    ensures At(st, k + 4, "$UPDT")
  {
    assert st[k + 4..k + 9] == st[k..k + 9][4..];
  }

  /** `re.match(r"([A-Z]{2}\s)*[A-Z]{2}$", st)`: two-letter codes separated by
      single whitespace characters, optionally followed by one final newline
      (which `$` lets through). */
  predicate StatesOnly(s: string)
    decreases |s|
  {
    |s| >= 2 && IsUpper(s[0]) && IsUpper(s[1])
    && (|s| == 2 || (|s| == 3 && s[2] == '\n') || (|s| > 3 && IsSpace(s[2]) && StatesOnly(s[3..])))
  }

  /** The three merges of airmet.py:698. */
  function MergeCoastal(st: string): string {
    Replace(Replace(Replace(st, "CSTL#WTRS", "CSTL_WTRS"), "CSTL WTRS", "CSTL_WTRS"), "AND CSTL_WTRS", "CSTL_WTRS")
  }

  /** The split of the merged text, with the first "CSTL_WTRS" written back
      as "CSTL WTRS"; an error when there is none (airmet.py:698-700). */
  function CoastalStates(st: string): (r: Result<seq<string>, string>)
    ensures var pieces := Split(MergeCoastal(st), ' ');
      (r.Ok? <==> "CSTL_WTRS" in pieces)
      && (r.Ok? ==>
            exists k :: 0 <= k < |pieces| && pieces[k] == "CSTL_WTRS"
              && (forall j :: 0 <= j < k ==> pieces[j] != "CSTL_WTRS")
              && r.value == pieces[k := "CSTL WTRS"])
  {
    var pieces := Split(MergeCoastal(st), ' ');
    match IndexOf(pieces, "CSTL_WTRS")
    case None => Err(NoCoastalToken)
    case Some(k) =>
      var states := pieces[k := "CSTL WTRS"];
      assert states[k] == "CSTL WTRS";
      Ok(states)
  }

  /** The cleaned block text that is classified (airmet.py:657-674). */
  function StatesText(t: string, a: nat, b: nat): string
    requires a < b <= |t|
  {
    ClipTrailers(LStrip(Replace(Unprefixed(t, a, b), "#", " ")))
  }

  /** The markers are the first and the last `$` of the marked text. */
  lemma MarkersOrdered(t: string)
    ensures Find(t, "$") == -1 <==> RFind(t, '$') == -1
    ensures Find(t, "$") >= 0 ==> Find(t, "$") <= RFind(t, '$')
  {
    var a := Find(t, "$");
    if a >= 0 {
      assert t[a..a + 1] == "$";
      assert t[a] == '$';
    }
    if RFind(t, '$') >= 0 {
      assert At(t, RFind(t, '$'), "$");
    }
  }

  function PopStates(text: string): (r: Result<StatesPopped, string>)
  {
    var t := Marked(text);
    var a, b := Find(t, "$"), RFind(t, '$');
    MarkersOrdered(t);
    if a == b then Ok(StatesPopped(t, []))
    else
      var st := StatesText(t, a, b);
      if StatesOnly(st) then Ok(StatesPopped(t[..a] + t[b..], Split(st, ' ')))
      else if Contains(st, "CSTL") then WithRest(t[..a] + t[b..], CoastalStates(st))
      else Ok(StatesPopped(t, []))
  }

  /** Pairs a remainder with a parse that may have failed. */
  function WithRest(rest: string, r: Result<seq<string>, string>): Result<StatesPopped, string> {
    match r
    case Ok(states) => Ok(StatesPopped(rest, states))
    case Err(e) => Err(e)
  }

  /** Two distinct `$` in the marked text make the markers differ. */
  lemma MarkersDiffer(t: string)
    requires Find(t, "$") == RFind(t, '$')
    ensures Count(t, '$') < 2
  {
    var a := Find(t, "$");
    if a >= 0 {
      assert t[a..a + 1] == "$";
      forall j | 0 <= j < a ensures t[j] != '$' {
        assert !At(t, j, "$");
        assert t[j..j + 1] == [t[j]];
      }
      CountBelowTwo(t, a, '$');
    } else {
      MarkersOrdered(t);
      CountZero(t, '$');
    }
  }

  /** A `c` at `a` that is both the first and the last one is the only one. */
  lemma {:induction false} CountBelowTwo(s: string, a: nat, c: char)
    requires a < |s| && s[a] == c
    requires forall j :: 0 <= j < |s| && j != a ==> s[j] != c
    ensures Count(s, c) == 1
    decreases |s|
  {
    if a == 0 {
      forall j | 0 <= j < |s[1..]| ensures s[1..][j] != c { assert s[1..][j] == s[j + 1]; }
      CountZero(s[1..], c);
    } else {
      forall j | 0 <= j < |s[1..]| && j != a - 1 ensures s[1..][j] != c { assert s[1..][j] == s[j + 1]; }
      CountBelowTwo(s[1..], a - 1, c);
    }
  }

  /** There is a block exactly when the marked text holds two `$` or more. */
  lemma BlockIffTwoMarkers(text: string)
    ensures var t := Marked(text); Find(t, "$") != RFind(t, '$') <==> Count(t, '$') >= 2
  {
    var t := Marked(text);
    var a, b := Find(t, "$"), RFind(t, '$');
    MarkersOrdered(t);
    if a != b {
      assert t[a..a + 1] == "$";
      CountTwo(t, a, b, '$');
    } else {
      MarkersDiffer(t);
    }
  }

  /** With fewer than two `$` the group is returned marked and without states. */
  lemma NoBlockNoStates(text: string)
    requires Count(Marked(text), '$') < 2
    ensures PopStates(text) == Ok(StatesPopped(Marked(text), []))
  {
    BlockIffTwoMarkers(text);
  }

  /** The group is returned marked but otherwise unchanged, with no states,
      exactly when there is no block or the block is neither a state list nor
      mentions coastal waters; a classified block is always cut out. */
  lemma UnchangedIff(text: string)
    ensures var t := Marked(text);
      var a, b := Find(t, "$"), RFind(t, '$');
      PopStates(text) == Ok(StatesPopped(t, []))
      <==> (a == b || (0 <= a < b && !StatesOnly(StatesText(t, a, b)) && !Contains(StatesText(t, a, b), "CSTL")))
  {
    var t := Marked(text);
    var a, b := Find(t, "$"), RFind(t, '$');
    MarkersOrdered(t);
    if a != b {
      assert |t[..a] + t[b..]| < |t|;
    }
  }

  /** A classified block is replaced by its closing `$`, and rejoining a
      plain state list with spaces gives back the cleaned block text. */
  lemma StateListRoundTrip(text: string)
    ensures var t := Marked(text);
      var a, b := Find(t, "$"), RFind(t, '$');
      0 <= a < b && StatesOnly(StatesText(t, a, b)) ==>
        PopStates(text) == Ok(StatesPopped(t[..a] + t[b..], Split(StatesText(t, a, b), ' ')))
        && Join(PopStates(text).value.states, ' ') == StatesText(t, a, b)
        && t[b] == '$'
  {
    var t := Marked(text);
    var a, b := Find(t, "$"), RFind(t, '$');
    MarkersOrdered(t);
    if 0 <= a < b && StatesOnly(StatesText(t, a, b)) {
      JoinSplit(StatesText(t, a, b), ' ');
    }
  }

  /** When the codes are separated by single spaces, every piece of the split
      is a two-letter upper-case code. */
  lemma {:induction false} StateCodes(s: string)
    requires StatesOnly(s)
    requires forall k :: 0 <= k < |s| && IsSpace(s[k]) ==> s[k] == ' '
    ensures forall k :: 0 <= k < |Split(s, ' ')| ==>
      |Split(s, ' ')[k]| == 2 && IsUpper(Split(s, ' ')[k][0]) && IsUpper(Split(s, ' ')[k][1])
    decreases |s|
  {
    if |s| == 2 {
      SplitNoSep(s, ' ');
    } else {
      assert s[2] == ' ';
      var w, rest := s[..2], s[3..];
      assert s == w + [' '] + rest;
      SplitAfterWord(w, rest, ' ');
      forall k | 0 <= k < |rest| && IsSpace(rest[k]) ensures rest[k] == ' ' { assert rest[k] == s[k + 3]; }
      StateCodes(rest);
    }
  }

  /** A block of coastal waters either fails, as `list.index` does, or names
      "CSTL WTRS" among its jurisdictions. */
  lemma CoastalOutcome(text: string)
    ensures var t := Marked(text);
      var a, b := Find(t, "$"), RFind(t, '$');
      0 <= a < b && !StatesOnly(StatesText(t, a, b)) && Contains(StatesText(t, a, b), "CSTL") ==>
        var pieces := Split(MergeCoastal(StatesText(t, a, b)), ' ');
        (PopStates(text).Err? <==> "CSTL_WTRS" !in pieces)
        && (PopStates(text).Ok? ==>
              CoastalStates(StatesText(t, a, b)) == Ok(PopStates(text).value.states)
              && "CSTL WTRS" in PopStates(text).value.states
              && PopStates(text).value.rest == t[..a] + t[b..])
  {
    var t := Marked(text);
    var a, b := Find(t, "$"), RFind(t, '$');
    MarkersOrdered(t);
    if 0 <= a < b && !StatesOnly(StatesText(t, a, b)) && Contains(StatesText(t, a, b), "CSTL") {
      var r := CoastalStates(StatesText(t, a, b));
      assert PopStates(text) == WithRest(t[..a] + t[b..], r);
      if r.Ok? {
        var pieces := Split(MergeCoastal(StatesText(t, a, b)), ' ');
        var k :| 0 <= k < |pieces| && r.value == pieces[k := "CSTL WTRS"];
        assert r.value[k] == "CSTL WTRS";
      }
    }
  }

  // ---------------------------------------------------------------------
  // Worked examples

  /** Block text that cleaning leaves as it is: no line break, no marker, no
      leading whitespace, and no three-capital word for the description
      prefix to catch. */
  predicate Bare(st: string) {
    '#' !in st && '$' !in st && (st != [] ==> !IsSpace(st[0])) && RunLength(st, 0, IsUpper) < 3
  }

  /** A block `$st$` whose text needs no cleaning is classified as it stands. */
  lemma BareBlock(t: string, st: string)
    requires t == "$" + st + "$" && Bare(st)
    ensures Marked(t) == t && Find(t, "$") == 0 && RFind(t, '$') == |st| + 1
    ensures StatesText(t, 0, |st| + 1) == st
  {
    BareMarked(st);
    BareMarkers(st);
    assert t[1..|st| + 1] == st;
    assert Unprefixed(t, 0, |st| + 1) == st;
    BareText(st);
  }

  lemma BareMarked(st: string)
    requires '#' !in st
    ensures Marked("$" + st + "$") == "$" + st + "$"
  {
    var t := "$" + st + "$";
    assert '#' !in t;
    ReplaceMissing(t, "##", "$", '#');
  }

  lemma BareMarkers(st: string)
    requires '$' !in st
    ensures Find("$" + st + "$", "$") == 0 && RFind("$" + st + "$", '$') == |st| + 1
  {
    var t := "$" + st + "$";
    assert At(t, 0, "$");
    assert t[|st| + 1] == '$';
    RFindIs(t, '$', |st| + 1);
  }

  lemma BareText(st: string)
    requires '#' !in st && '$' !in st
    requires st != [] ==> !IsSpace(st[0])
    ensures ClipTrailers(LStrip(Replace(st, "#", " "))) == st
  {
    ReplaceMissing(st, "#", " ", '#');
    assert LStrip(st) == st;
    NoTrailer(st);
  }

  lemma NoTrailer(st: string)
    requires '$' !in st
    ensures ClipTrailers(st) == st
  {
    var p1, p2 := "WTRS$UPDT", "$UPDT";
    assert p1[4] == '$' && p2[0] == '$';
    FindMissing(st, p1, 4);
    FindMissing(st, p2, 0);
  }

  /** A bare block of state codes is cut out and split at its spaces. */
  lemma StateListBlock(t: string, st: string)
    requires t == "$" + st + "$" && Bare(st)
    requires StatesOnly(st)
    ensures PopStates(t) == Ok(StatesPopped("$", Split(st, ' ')))
  {
    assert Marked(t) == t && Find(t, "$") == 0 && RFind(t, '$') == |st| + 1 && StatesText(t, 0, |st| + 1) == st by {
      BareBlock(t, st);
    }
    assert t[..0] + t[|st| + 1..] == "$";
    StateListBranch(t, 0, |st| + 1, st, "$");
  }

  lemma StateListBranch(t: string, a: nat, b: nat, st: string, rest: string)
    requires Marked(t) == t && Find(t, "$") == a && RFind(t, '$') == b && a < b
    requires StatesText(t, a, b) == st && rest == t[..a] + t[b..]
    requires StatesOnly(st)
    ensures PopStates(t) == Ok(StatesPopped(rest, Split(st, ' ')))
  {
  }

  lemma UnclassifiedBranch(t: string, a: nat, b: nat)
    requires Marked(t) == t && Find(t, "$") == a && RFind(t, '$') == b && a < b
    requires !StatesOnly(StatesText(t, a, b)) && !Contains(StatesText(t, a, b), "CSTL")
    ensures PopStates(t) == Ok(StatesPopped(t, []))
  {
  }

  /** A bare coastal block is cut out and parsed by `CoastalStates`. */
  lemma CoastalBlock(t: string, st: string)
    requires t == "$" + st + "$" && Bare(st)
    requires !StatesOnly(st) && Contains(st, "CSTL")
    ensures PopStates(t) == WithRest("$", CoastalStates(st))
  {
    assert Marked(t) == t && Find(t, "$") == 0 && RFind(t, '$') == |st| + 1 && StatesText(t, 0, |st| + 1) == st by {
      BareBlock(t, st);
    }
    assert t[..0] + t[|st| + 1..] == "$";
    CoastalBranch(t, 0, |st| + 1, st, "$");
  }

  lemma CoastalBranch(t: string, a: nat, b: nat, st: string, rest: string)
    requires Marked(t) == t && Find(t, "$") == a && RFind(t, '$') == b && a < b
    requires StatesText(t, a, b) == st && rest == t[..a] + t[b..]
    requires !StatesOnly(st) && Contains(st, "CSTL")
    ensures PopStates(t) == WithRest(rest, CoastalStates(st))
  {
  }

  /** Two upper-case letters: the shape of a state code. */
  predicate Code(x: string) {
    |x| == 2 && IsUpper(x[0]) && IsUpper(x[1])
  }

  lemma CodeChars(x: string)
    requires Code(x)
    ensures '#' !in x && '$' !in x && ' ' !in x && '_' !in x
  {
  }

  /** Three codes separated by spaces form a bare state list. */
  lemma ThreeCodesBlock(x: string, y: string, z: string)
    requires Code(x) && Code(y) && Code(z)
    ensures PopStates("$" + x + " " + y + " " + z + "$") == Ok(StatesPopped("$", [x, y, z]))
  {
    CodeChars(x); CodeChars(y); CodeChars(z);
    var st := x + " " + y + " " + z;
    var t := "$" + st + "$";
    assert t == "$" + x + " " + y + " " + z + "$";
    assert st[2] == ' ';
    RunLengthIs(st, 0, IsUpper, 2);
    assert StatesOnly(z);
    assert (y + " " + z)[3..] == z;
    assert StatesOnly(y + " " + z);
    assert st[3..] == y + " " + z;
    assert StatesOnly(st);
    StateListBlock(t, st);
    ThreeCodes(x, y, z);
  }

  lemma ThreeCodes(x: string, y: string, z: string)
    requires ' ' !in x && ' ' !in y && ' ' !in z
    ensures Split(x + " " + y + " " + z, ' ') == [x, y, z]
  {
    SplitNoSep(z, ' ');
    SplitAfterWord(y, z, ' ');
    assert x + " " + y + " " + z == x + [' '] + (y + [' '] + z);
    SplitAfterWord(x, y + [' '] + z, ' ');
  }

  /** `$ID MT WY$` gives the three codes and leaves `$`. */
  lemma StateListExample()
    ensures PopStates("$" + "ID" + " " + "MT" + " " + "WY" + "$") == Ok(StatesPopped("$", ["ID", "MT", "WY"]))
  {
    ThreeCodesBlock("ID", "MT", "WY");
  }

  /** The merges turn "x AND CSTL WTRS" into "x CSTL_WTRS". */
  lemma MergeAndCoastal(x: string)
    requires Code(x)
    ensures MergeCoastal(x + " AND CSTL WTRS") == x + " CSTL_WTRS"
  {
    calc {
      MergeCoastal(x + " AND CSTL WTRS");
      Replace(Replace(Replace(x + " AND CSTL WTRS", "CSTL#WTRS", "CSTL_WTRS"), "CSTL WTRS", "CSTL_WTRS"), "AND CSTL_WTRS", "CSTL_WTRS");
      { MergeHash(x); }
      Replace(Replace(x + " AND CSTL WTRS", "CSTL WTRS", "CSTL_WTRS"), "AND CSTL_WTRS", "CSTL_WTRS");
      { MergeSpace(x); }
      Replace(x + " AND CSTL_WTRS", "AND CSTL_WTRS", "CSTL_WTRS");
      { MergeAnd(x); }
      x + " CSTL_WTRS";
    }
  }

  lemma MergeHash(x: string)
    requires Code(x)
    ensures Replace(x + " AND CSTL WTRS", "CSTL#WTRS", "CSTL_WTRS") == x + " AND CSTL WTRS"
  {
    CodeChars(x);
    var s0 := x + " AND CSTL WTRS";
    assert '#' !in s0;
    ReplaceMissing(s0, "CSTL#WTRS", "CSTL_WTRS", '#');
  }

  lemma MergeSpace(x: string)
    requires Code(x)
    ensures Replace(x + " AND CSTL WTRS", "CSTL WTRS", "CSTL_WTRS") == x + " AND CSTL_WTRS"
  {
    var u, pat := x + " AND ", "CSTL WTRS";
    assert x + " AND CSTL WTRS" == u + pat + "" by { CatAssoc(x, " AND ", pat, " AND CSTL WTRS"); }
    assert Replace(u + pat + "", pat, "CSTL_WTRS") == u + "CSTL_WTRS" + Replace("", pat, "CSTL_WTRS") by {
      NoCoastalBefore(x, u, pat);
      ReplaceFirstAt(u, pat, "", "CSTL_WTRS");
    }
    assert u + "CSTL_WTRS" + "" == x + " AND CSTL_WTRS" by { CatAssoc(x, " AND ", "CSTL_WTRS", " AND CSTL_WTRS"); }
  }

  lemma NoCoastalBefore(x: string, u: string, pat: string)
    requires Code(x) && u == x + " AND " && pat == "CSTL WTRS"
    ensures forall i :: 0 <= i < |u| ==> !At(u + pat + "", i, pat)
  {
    var s := u + pat + "";
    forall i | 0 <= i < |u| ensures !At(s, i, pat) {
      if i < 2 { assert s[i + 4] != ' '; } else { assert s[i] != 'C'; }
    }
  }

  lemma MergeAnd(x: string)
    requires Code(x)
    ensures Replace(x + " AND CSTL_WTRS", "AND CSTL_WTRS", "CSTL_WTRS") == x + " CSTL_WTRS"
  {
    var v, pat := x + " ", "AND CSTL_WTRS";
    assert x + " AND CSTL_WTRS" == v + pat + "" by { CatAssoc(x, " ", pat, " AND CSTL_WTRS"); }
    assert Replace(v + pat + "", pat, "CSTL_WTRS") == v + "CSTL_WTRS" + Replace("", pat, "CSTL_WTRS") by {
      NoAndBefore(x, v, pat);
      ReplaceFirstAt(v, pat, "", "CSTL_WTRS");
    }
    assert v + "CSTL_WTRS" + "" == x + " CSTL_WTRS" by { CatAssoc(x, " ", "CSTL_WTRS", " CSTL_WTRS"); }
  }

  lemma NoAndBefore(x: string, v: string, pat: string)
    requires Code(x) && v == x + " " && pat == "AND CSTL_WTRS"
    ensures forall i :: 0 <= i < |v| ==> !At(v + pat + "", i, pat)
  {
    var s := v + pat + "";
    forall i | 0 <= i < |v| ensures !At(s, i, pat) {
      if i < 2 { assert s[i + 3] != ' '; } else { assert s[i] != 'A'; }
    }
  }

  /** Regrouping a concatenation. */
  lemma CatAssoc(x: string, a: string, b: string, ab: string)
    requires ab == a + b
    ensures x + ab == x + a + b + ""
  {
    assert x + a + b + "" == x + a + b;
  }

  /** The text "x AND CSTL WTRS" is a coastal block that needs no cleaning. */
  lemma CodeAndCoastalShape(x: string)
    requires Code(x)
    ensures var st := x + " AND CSTL WTRS";
      '#' !in st && '$' !in st && !IsSpace(st[0]) && RunLength(st, 0, IsUpper) < 3
      && !StatesOnly(st) && Contains(st, "CSTL")
  {
    CodeChars(x);
    var st := x + " AND CSTL WTRS";
    assert st[2] == ' ';
    RunLengthIs(st, 0, IsUpper, 2);
    assert !StatesOnly(st) by { assert !IsSpace(st[5]); }
    assert At(st, 7, "CSTL");
  }

  lemma CodeAndCoastalParse(x: string)
    requires Code(x)
    ensures CoastalStates(x + " AND CSTL WTRS") == Ok([x, "CSTL WTRS"])
  {
    MergeAndCoastal(x);
    CodeCoastalSplit(x);
    var pieces := [x, "CSTL_WTRS"];
    assert pieces[0] != "CSTL_WTRS";
    assert IndexOf(pieces, "CSTL_WTRS") == Some(1);
    assert pieces[1 := "CSTL WTRS"] == [x, "CSTL WTRS"];
  }

  lemma CodeCoastalSplit(x: string)
    requires Code(x)
    ensures Split(x + " CSTL_WTRS", ' ') == [x, "CSTL_WTRS"]
  {
    assert Split(x + [' '] + "CSTL_WTRS", ' ') == [x] + Split("CSTL_WTRS", ' ') by {
      CodeChars(x);
      SplitAfterWord(x, "CSTL_WTRS", ' ');
    }
    assert Split("CSTL_WTRS", ' ') == ["CSTL_WTRS"] by { SplitNoSep("CSTL_WTRS", ' '); }
    assert x + [' '] + "CSTL_WTRS" == x + " CSTL_WTRS";
  }

  /** A code followed by "AND CSTL WTRS" gives the code and the coastal waters. */
  lemma CodeAndCoastalBlock(x: string)
    requires Code(x)
    ensures PopStates("$" + (x + " AND CSTL WTRS") + "$") == Ok(StatesPopped("$", [x, "CSTL WTRS"]))
  {
    var st := x + " AND CSTL WTRS";
    CodeAndCoastalShape(x);
    CodeAndCoastalParse(x);
    CoastalBlock("$" + st + "$", st);
  }

  /** `$CA AND CSTL WTRS$` gives California and its coastal waters. */
  lemma CoastalExample()
    ensures PopStates("$" + ("CA" + " AND CSTL WTRS") + "$") == Ok(StatesPopped("$", ["CA", "CSTL WTRS"]))
  {
    CodeAndCoastalBlock("CA");
  }

  /** The text "x CSTL" is a coastal block that needs no cleaning. */
  lemma CodeAndCstlShape(x: string)
    requires Code(x)
    ensures var st := x + " CSTL";
      '#' !in st && '$' !in st && !IsSpace(st[0]) && RunLength(st, 0, IsUpper) < 3
      && !StatesOnly(st) && Contains(st, "CSTL")
  {
    CodeChars(x);
    var st := x + " CSTL";
    assert st[2] == ' ';
    RunLengthIs(st, 0, IsUpper, 2);
    assert !StatesOnly(st) by { assert StatesOnly(st[3..]) ==> IsSpace(st[5]); }
    assert At(st, 3, "CSTL");
  }

  lemma CodeAndCstlParse(x: string)
    requires Code(x)
    ensures CoastalStates(x + " CSTL") == Err(NoCoastalToken)
  {
    CodeChars(x);
    var st := x + " CSTL";
    ReplaceShort(st, "CSTL#WTRS", "CSTL_WTRS");
    ReplaceShort(st, "CSTL WTRS", "CSTL_WTRS");
    ReplaceShort(st, "AND CSTL_WTRS", "CSTL_WTRS");
    SplitNoSep("CSTL", ' ');
    SplitAfterWord(x, "CSTL", ' ');
    assert x + [' '] + "CSTL" == st;
    assert "CSTL_WTRS" !in [x, "CSTL"];
  }

  /** A code followed by a lone "CSTL": the merges leave no "CSTL_WTRS" for
      `list.index` to find. */
  lemma CodeAndCstlBlock(x: string)
    requires Code(x)
    ensures PopStates("$" + (x + " CSTL") + "$") == Err(NoCoastalToken)
  {
    var st := x + " CSTL";
    CodeAndCstlShape(x);
    CodeAndCstlParse(x);
    CoastalBlock("$" + st + "$", st);
  }

  /** `$CA CSTL$` mentions coastal waters without "CSTL WTRS": `list.index` fails. */
  lemma CoastalErrorExample()
    ensures PopStates("$" + ("CA" + " CSTL") + "$") == Err(NoCoastalToken)
  {
    CodeAndCstlBlock("CA");
  }

  /** A three-letter word, a line break and a code: the regex of airmet.py:661
      catches the word, but because the slice restarts one character early the
      last letter of the word is kept, the block no longer reads as a state
      list, and no state is found. */
  lemma CaughtPrefixBlock(w: string, x: string)
    requires |w| == 3 && IsUpper(w[0]) && IsUpper(w[1]) && IsUpper(w[2]) && Code(x)
    ensures var t := "$" + (w + "#" + x) + "$"; PopStates(t) == Ok(StatesPopped(t, []))
  {
    CodeChars(x);
    var st := w + "#" + x;
    var t := "$" + st + "$";
    CaughtMarked(w, x);
    BareMarkers(st);
    CaughtPrefixText(w, x);
    KeptLetterUnclassified(w[2], x);
    UnclassifiedBranch(t, 0, |st| + 1);
  }

  /** A letter, a space and a code is neither a state list nor coastal. */
  lemma KeptLetterUnclassified(c: char, x: string)
    requires Code(x)
    ensures var s := [c] + " " + x; !StatesOnly(s) && !Contains(s, "CSTL")
  {
    var s := [c] + " " + x;
    assert !StatesOnly(s) by { assert !IsUpper(s[1]); }
    forall i | 0 <= i <= |s| ensures !At(s, i, "CSTL") {
      AtHolds(s, i, "CSTL", 1);
      assert At(s, i, "CSTL") ==> i == 0;
    }
  }

  /** What is classified: the last letter of the word, a space and the code. */
  lemma CaughtPrefixText(w: string, x: string)
    requires |w| == 3 && IsUpper(w[0]) && IsUpper(w[1]) && IsUpper(w[2]) && Code(x)
    ensures StatesText("$" + (w + "#" + x) + "$", 0, 7) == [w[2]] + " " + x
  {
    CaughtPrefixSteps(w, x);
    StatesTextOf("$" + (w + "#" + x) + "$", 0, 7, [w[2]] + "#" + x, [w[2]] + " " + x);
  }

  lemma CaughtPrefixSteps(w: string, x: string)
    requires |w| == 3 && IsUpper(w[0]) && IsUpper(w[1]) && IsUpper(w[2]) && Code(x)
    ensures Unprefixed("$" + (w + "#" + x) + "$", 0, 7) == [w[2]] + "#" + x
    ensures Replace([w[2]] + "#" + x, "#", " ") == [w[2]] + " " + x
    ensures ClipTrailers([w[2]] + " " + x) == [w[2]] + " " + x
  {
    CaughtPrefixKept(w, x);
    KeptLetterSpaced(w[2], x);
    CodeChars(x);
    NoTrailer([w[2]] + " " + x);
  }

  /** The cleaning steps, one at a time. */
  lemma StatesTextOf(t: string, a: nat, b: nat, u: string, s: string)
    requires a < b <= |t| && Unprefixed(t, a, b) == u && Replace(u, "#", " ") == s
    requires s != [] && !IsSpace(s[0]) && ClipTrailers(s) == s
    ensures StatesText(t, a, b) == s
  {
  }

  lemma KeptLetterSpaced(c: char, x: string)
    requires c != '#' && Code(x)
    ensures Replace([c] + "#" + x, "#", " ") == [c] + " " + x
  {
    CodeChars(x);
    ReplaceAround([c], x, '#', " ");
    ReplaceMissing(x, "#", " ", '#');
  }

  /** The caught word ends at the line break, and the slice restarts at its
      last letter. */
  lemma CaughtPrefixKept(w: string, x: string)
    requires |w| == 3 && IsUpper(w[0]) && IsUpper(w[1]) && IsUpper(w[2]) && Code(x)
    ensures Unprefixed("$" + (w + "#" + x) + "$", 0, 7) == [w[2]] + "#" + x
  {
    var st := w + "#" + x;
    var t := "$" + st + "$";
    assert t[1..7] == st;
    CaughtWord(w, x);
    assert t[3..7] == [w[2]] + "#" + x;
  }

  lemma CaughtWord(w: string, x: string)
    requires |w| == 3 && IsUpper(w[0]) && IsUpper(w[1]) && IsUpper(w[2]) && Code(x)
    ensures CaughtAirmet(w + "#" + x) == Some(3)
  {
    var st := w + "#" + x;
    assert st[3] == '#';
    RunLengthIs(st, 0, IsUpper, 3);
    assert RunLength(st, 3, IsSpace) == 0;
    assert RunLength(st, 3, IsUpper) == 0;
  }

  lemma CaughtMarked(w: string, x: string)
    requires |w| == 3 && IsUpper(w[0]) && IsUpper(w[1]) && IsUpper(w[2]) && Code(x)
    ensures Marked("$" + (w + "#" + x) + "$") == "$" + (w + "#" + x) + "$"
  {
    CodeChars(x);
    var t := "$" + (w + "#" + x) + "$";
    assert t == ("$" + w) + ("#" + (x + "$"));
    assert '#' !in "$" + w && '#' !in x + "$";
    CountZero("$" + w, '#');
    CountZero(x + "$", '#');
    CountConcat("#", x + "$", '#');
    CountConcat("$" + w, "#" + (x + "$"), '#');
    ReplaceFewer(t, "##", "$", '#');
  }

  /** `$ABC#CA$` keeps its block and yields no states, where "CA" was meant. */
  lemma CaughtPrefixExample()
    ensures PopStates("$" + ("ABC" + "#" + "CA") + "$") == Ok(StatesPopped("$" + ("ABC" + "#" + "CA") + "$", []))
  {
    CaughtPrefixBlock("ABC", "CA");
  }
}
