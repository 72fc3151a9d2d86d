/** `_header_to_dict` (airmet.py:731-791): the header group of a bulletin is
    searched for its advisory id, issuing station, issue time, AIRMET type,
    hazard conditions and valid-until time.  The year and month of the bulletin
    are parameters (the source reads them from module globals). */
module Header {
  import opened Wrappers
  import opened PyStr
  import opened Scan

  /** The dictionary built at airmet.py:772-789. */
  datatype Header = Header(
    airmetId: string, issAirport: string,
    issYear: int, issMonth: int, issDay: int, issHour: int, issMinute: int, issTimeStr: string,
    validYear: int, validMonth: int, validDay: int, validHour: int, validMinute: int, validTimeStr: string,
    airmetType: string, conditions: seq<string>)

  /** What Python raises when a required search found nothing and its
      `start()` is taken. */
  const NoMatch := "'NoneType' object has no attribute 'start'"
  /** What `int()` raises on text that is not a decimal integer, before the
      offending text. */
  const BadInt := "invalid literal for int() with base 10: "

  /** The message `int()` raises for the first of the three two-character
      slices of `s` it cannot read (airmet.py:764-770), the slice quoted as
      `repr` quotes text without quote marks or backslashes. */
  function IntError(s: string): string {
    var slice :=
      if PyInt(Slice(s, 0, 2)).None? then Slice(s, 0, 2)
      else if PyInt(Slice(s, 2, 4)).None? then Slice(s, 2, 4)
      else Slice(s, 4, 6);
    BadInt + "'" + slice + "'"
  }

  /** The value of a string of ASCII digits. */
  function DigitsValue(s: string): nat
    requires AllDigits(s)
    decreases |s|
  {
    if s == [] then 0
    else DigitsValue(s[..|s| - 1]) * 10 + Digit(s[|s| - 1])
  }

  /** The value of one ASCII digit. */
  function Digit(c: char): int { c as int - '0' as int }

  /** The value of a two-digit field. */
  function Value2(s: string): int
    requires |s| == 2
  {
    10 * Digit(s[0]) + Digit(s[1])
  }

  /** `int(s)` for a decimal literal: surrounding whitespace, an optional sign,
      then at least one digit. */
  function PyInt(s: string): (r: Option<int>)
    ensures r.Some? ==> Strip(s) != []
  {
    var t := Strip(s);
    var signed := t != [] && (t[0] == '+' || t[0] == '-');
    var body := if signed then t[1..] else t;
    if body != [] && AllDigits(body) then
      var v: int := DigitsValue(body);
      Some(if signed && t[0] == '-' then -v else v)
    else None
  }

  /** The day, hour and minute of a `DDHHMM` code: `int` of characters
      [0:2], [2:4] and [4:6] (airmet.py:764-770). */
  datatype Clock = Clock(day: int, hour: int, minute: int)

  function ClockOf(s: string): Option<Clock> {
    match (PyInt(Slice(s, 0, 2)), PyInt(Slice(s, 2, 4)), PyInt(Slice(s, 4, 6)))
    case (Some(d), Some(h), Some(m)) => Some(Clock(d, h, m))
    case _ => None
  }

  /** The hazard list of airmet.py:760-762: the `FOR ... VALID` span without
      its two keywords, multi-word hazards joined by `_`, every "AND "
      dropped, split at single spaces. */
  function Conditions(span: string): seq<string> {
    var c0 := Replace(Replace(span, "FOR ", ""), " VALID", "");
    Split(Replace(JoinTags(c0), "AND ", ""), ' ')
  }

  /** The three multi-word hazards joined by `_`, in source order; the third
      is written `STD_SFC_WNDS` (airmet.py:761). */
  function JoinTags(c: string): string {
    Replace(Replace(Replace(c, "STG WNDS", "STG_WNDS"), "MTN OBSCN", "MTN_OBSCN"), "STG SFC WNDS", "STD_SFC_WNDS")
  }

  /** The header from its main block on (airmet.py:733-735). */
  function MainTail(header: string): Option<string> {
    match Search(MainBlock, header)
    case Some(m) => Some(header[m.start..])
    case None => None
  }

  function ParseHeader(header: string, year: int, month: int): Result<Header, string> {
    match MainTail(header)
    case None => Err(NoMatch)
    case Some(h0) =>
      var amended := Contains(h0, "AMD");
      ParseFields(if amended then Replace(h0, " AMD", "") else h0, amended, year, month)
  }

  /** Where the required fields were found. */
  datatype Spans = Spans(idEnd: nat, iss: Span, ty: Span, va: Span, co: Span)

  /** Each span is a match of its pattern in `h`. */
  predicate SpansOf(h: string, sp: Spans) {
    sp.idEnd <= |h| && MatchAt(AdvisoryId, h, 0) == Some(sp.idEnd)
    && sp.iss.start <= |h| && MatchAt(IssueCode, h, sp.iss.start) == Some(sp.iss.end)
    && sp.ty.start <= |h| && MatchAt(TypeKeyword, h, sp.ty.start) == Some(sp.ty.end)
    && sp.va.start <= |h| && MatchAt(ValidUntil, h, sp.va.start) == Some(sp.va.end)
    && sp.co.start <= |h| && MatchAt(CondSpan, h, sp.co.start) == Some(sp.co.end)
  }

  /** The spans of the required fields, taken in the order the source slices
      them (airmet.py:748-762); a missing one is an error. */
  function FindSpans(h: string): (r: Option<Spans>)
    ensures r.Some? ==> SpansOf(h, r.value)
    ensures r.Some? <==> (MatchAt(AdvisoryId, h, 0).Some? && Search(IssueCode, h).Some?
      && Search(TypeKeyword, h).Some? && Search(ValidUntil, h).Some? && Search(CondSpan, h).Some?)
  {
    match MatchAt(AdvisoryId, h, 0)
    case None => None
    case Some(idEnd) =>
      match Search(IssueCode, h)
      case None => None
      case Some(iss) =>
        match Search(TypeKeyword, h)
        case None => None
        case Some(ty) =>
          match Search(ValidUntil, h)
          case None => None
          case Some(va) =>
            match Search(CondSpan, h)
            case None => None
            case Some(co) => Some(Spans(idEnd, iss, ty, va, co))
  }

  function ParseFields(h: string, amended: bool, year: int, month: int): Result<Header, string> {
    match FindSpans(h)
    case None => Err(NoMatch)
    case Some(sp) => Build(h, sp, amended, year, month)
  }

  /** The dictionary from the spans; both times go through `int`
      (airmet.py:764-789). The station is optional (airmet.py:749-752). */
  function Build(h: string, sp: Spans, amended: bool, year: int, month: int): Result<Header, string>
    requires SpansOf(h, sp)
  {
    var id := AdvisoryIdText(h, sp.idEnd);
    var issStr := IssueText(h, sp.iss);
    var validStr := ValidText(h, sp.va);
    match (ClockOf(issStr), ClockOf(validStr))
    case (Some(ic), Some(vc)) =>
      Ok(Header(
        if amended then id + " AMD" else id, StationText(h),
        year, month, ic.day, ic.hour, ic.minute, issStr,
        year, month, vc.day, vc.hour, vc.minute, validStr,
        Strip(Replace(h[sp.ty.start..sp.ty.end], "#AIRMET ", "")),
        Conditions(h[sp.co.start..sp.co.end])))
    case (None, _) => Err(IntError(issStr))
    case (_, None) => Err(IntError(validStr))
  }

  function AdvisoryIdText(h: string, idEnd: nat): string
    requires idEnd <= |h|
  {
    Strip(Replace(h[..idEnd], "#", ""))
  }

  function IssueText(h: string, iss: Span): string
    requires iss.start <= iss.end <= |h|
  {
    Strip(Replace(h[iss.start..iss.end], "#", ""))
  }

  function ValidText(h: string, va: Span): string
    requires va.start <= va.end <= |h|
  {
    Strip(Replace(h[va.start..va.end], "VALID UNTIL ", ""))
  }

  /** The station, or empty text when the search fails (airmet.py:749-752). */
  function StationText(h: string): string {
    match Search(Station, h)
    case Some(sp) => Strip(Replace(h[sp.start..sp.end], "#&", ""))
    case None => ""
  }

  // ---------------------------------------------------------------------
  // Times

  /** Six digits. */
  predicate SixDigits(s: string) {
    |s| == 6 && AllDigits(s)
  }

  /** `int` of two digits is their decimal value. */
  lemma PyIntDigits(s: string)
    requires |s| == 2 && AllDigits(s)
    ensures PyInt(s) == Some(Value2(s))
  {
    StripNoSpace(s);
    assert Strip(s) == s;
    assert IsDigit(s[0]) && IsDigit(s[1]);
    assert s[..1] == [s[0]] && [s[0]][..0] == [];
    assert DigitsValue(s) == DigitsValue(s[..1]) * 10 + Digit(s[1]);
    assert DigitsValue([s[0]]) == Digit(s[0]);
  }

  /** A six-digit code is read two digits at a time. */
  lemma ClockOfDigits(s: string)
    requires SixDigits(s)
    ensures ClockOf(s) == Some(Clock(Value2(s[0..2]), Value2(s[2..4]), Value2(s[4..6])))
  {
    assert Slice(s, 0, 2) == s[0..2] && Slice(s, 2, 4) == s[2..4] && Slice(s, 4, 6) == s[4..6];
    PyIntDigits(s[0..2]);
    PyIntDigits(s[2..4]);
    PyIntDigits(s[4..6]);
  }

  /** The issue time is the six digits before the line break. */
  lemma IssueTextDigits(h: string, iss: Span)
    requires iss.start <= |h| && MatchAt(IssueCode, h, iss.start) == Some(iss.end)
    ensures IssueText(h, iss) == h[iss.start..iss.start + 6] && SixDigits(IssueText(h, iss))
  {
    var d := h[iss.start..iss.start + 6];
    assert h[iss.start..iss.end] == d + ['#'] + [];
    assert '#' !in d by { forall k | 0 <= k < 6 ensures d[k] != '#' { assert IsDigit(d[k]); } }
    ReplaceAround(d, [], '#', "");
    assert d + "" + [] == d;
    StripNoSpace(d);
  }

  /** A valid-until span whose separators are single spaces leaves its six
      digits; with any other whitespace "VALID UNTIL " is not found, the text
      still opens with "VA", and `int` fails. */
  lemma ValidTextCases(h: string, va: Span)
    requires va.start <= |h| && MatchAt(ValidUntil, h, va.start) == Some(va.end)
    ensures ClockOf(ValidText(h, va)).Some? ==> SixDigits(ValidText(h, va))
  {
    var s := h[va.start..va.end];
    ValidSpanShape(h, va);
    if s[5] == ' ' && s[11] == ' ' {
      ValidSpaced(s);
    } else {
      ValidUnchanged(s);
      ValidUnchangedFails(s);
    }
  }

  /** `int("VA")` fails, so the valid time does not read as a clock. */
  lemma ValidUnchangedFails(s: string)
    requires |s| == 18 && s[0] == 'V' && s[1] == 'A' && IsDigit(s[17])
    ensures ClockOf(Strip(s)).None?
  {
    StripNoSpace(s);
    assert Slice(s, 0, 2) == [s[0], s[1]];
    StripNoSpace([s[0], s[1]]);
  }

  lemma ValidSpanShape(h: string, va: Span)
    requires va.start <= |h| && MatchAt(ValidUntil, h, va.start) == Some(va.end)
    ensures var s := h[va.start..va.end];
      |s| == 18 && s[..5] == "VALID" && IsSpace(s[5]) && s[6..11] == "UNTIL" && IsSpace(s[11]) && AllDigits(s[12..])
  {
    var i := va.start;
    assert At(h, i, "VALID") && At(h, i + 6, "UNTIL") && i + 18 <= |h| && va.end == i + 18;
    var s := h[i..i + 18];
    SliceOfSlice(h, i, i + 18, 0, 5);
    SliceOfSlice(h, i, i + 18, 6, 11);
    SliceOfSlice(h, i, i + 18, 12, 18);
    assert s[5] == h[i + 5] && s[11] == h[i + 11];
  }

  lemma ValidSpaced(s: string)
    requires |s| == 18 && s[..5] == "VALID" && s[5] == ' ' && s[6..11] == "UNTIL" && s[11] == ' ' && AllDigits(s[12..])
    ensures Strip(Replace(s, "VALID UNTIL ", "")) == s[12..] && SixDigits(s[12..])
  {
    var d := s[12..];
    var pat := "VALID UNTIL ";
    SpacedPrefix(s);
    assert Replace(s, pat, "") == Replace(d, pat, "");
    DigitsNoLetter(d, 'V');
    ReplaceMissing(d, pat, "", 'V');
    assert IsDigit(d[0]) && IsDigit(d[5]);
    StripNoSpace(d);
  }

  lemma SpacedPrefix(s: string)
    requires |s| == 18 && s[..5] == "VALID" && s[5] == ' ' && s[6..11] == "UNTIL" && s[11] == ' '
    ensures "VALID UNTIL " <= s
  {
    var pat := "VALID UNTIL ";
    forall k | 0 <= k < 12 ensures pat[k] == s[k] {
      if k < 5 { assert s[k] == s[..5][k]; }
      else if 5 < k < 11 { assert s[k] == s[6..11][k - 6]; }
    }
  }

  lemma DigitsNoLetter(d: string, c: char)
    requires AllDigits(d) && !IsDigit(c)
    ensures c !in d
  {
    forall k | 0 <= k < |d| ensures d[k] != c { assert IsDigit(d[k]); }
  }

  lemma ValidUnchanged(s: string)
    requires |s| == 18 && s[..5] == "VALID" && IsSpace(s[5]) && s[6..11] == "UNTIL" && IsSpace(s[11]) && AllDigits(s[12..])
    requires s[5] != ' ' || s[11] != ' '
    ensures Replace(s, "VALID UNTIL ", "") == s
    ensures s[0] == 'V' && s[1] == 'A' && IsDigit(s[17])
  {
    assert s[0] == s[..5][0] && s[1] == s[..5][1];
    assert IsDigit(s[12..][5]);
    var pat := "VALID UNTIL ";
    assert !(pat <= s) by { assert pat[5] == ' ' && pat[11] == ' '; }
    forall k | 0 <= k < |s[1..]| ensures s[1..][k] != 'V' {
      if k < 4 { assert s[1..][k] == s[..5][k + 1]; }
      else if k == 4 { assert s[1..][k] == s[5]; }
      else if k < 10 { assert s[1..][k] == s[6..11][k - 5]; }
      else if k == 10 { assert s[1..][k] == s[11]; }
      else { assert s[1..][k] == s[12..][k - 11]; assert IsDigit(s[12..][k - 11]); }
    }
    ReplaceMissing(s[1..], pat, "", 'V');
    assert [s[0]] + s[1..] == s;
  }

  /** Both times of a parsed header are six-digit codes, and their day, hour
      and minute are the integers of characters [0:2], [2:4] and [4:6]. */
  lemma HeaderTimes(header: string, year: int, month: int)
    ensures var r := ParseHeader(header, year, month);
      r.Ok? ==>
        var hd := r.value;
        SixDigits(hd.issTimeStr) && SixDigits(hd.validTimeStr)
        && ClockOf(hd.issTimeStr) == Some(Clock(hd.issDay, hd.issHour, hd.issMinute))
        && ClockOf(hd.validTimeStr) == Some(Clock(hd.validDay, hd.validHour, hd.validMinute))
        && hd.issYear == year && hd.validYear == year && hd.issMonth == month && hd.validMonth == month
  {
    match MainTail(header)
    case None =>
    case Some(h0) =>
      var amended := Contains(h0, "AMD");
      var h := if amended then Replace(h0, " AMD", "") else h0;
      FieldTimes(h, amended, year, month);
  }

  lemma FieldTimes(h: string, amended: bool, year: int, month: int)
    ensures var r := ParseFields(h, amended, year, month);
      r.Ok? ==>
        var hd := r.value;
        SixDigits(hd.issTimeStr) && SixDigits(hd.validTimeStr)
        && ClockOf(hd.issTimeStr) == Some(Clock(hd.issDay, hd.issHour, hd.issMinute))
        && ClockOf(hd.validTimeStr) == Some(Clock(hd.validDay, hd.validHour, hd.validMinute))
        && hd.issYear == year && hd.validYear == year && hd.issMonth == month && hd.validMonth == month
  {
    match FindSpans(h)
    case None =>
    case Some(sp) =>
      IssueTextDigits(h, sp.iss);
      ValidTextCases(h, sp.va);
  }

  // ---------------------------------------------------------------------
  // The advisory id

  /** The id field is the four characters after the opening `#`. */
  lemma AdvisoryIdCode(h: string)
    requires |h| >= 6 && h[0] == '#' && Code4At(h, 1)
    ensures AdvisoryIdText(h, 6) == h[1..5]
  {
    var v := h[1..6];
    HashDropped(h);
    CodeStripped(h, v);
  }

  /** Removing the `#` from the first six characters leaves the five after it. */
  lemma HashDropped(h: string)
    requires |h| >= 6 && h[0] == '#' && Code4At(h, 1)
    ensures Replace(h[..6], "#", "") == h[1..6]
  {
    var v := h[1..6];
    assert h[..6] == ['#'] + v;
    assert (['#'] + v)[1..] == v;
    assert '#' !in v by { forall k | 0 <= k < 5 ensures v[k] != '#' { assert v[k] == h[k + 1]; } }
    ReplaceMissing(v, "#", "", '#');
    assert "#" <= ['#'] + v;
    assert Replace(h[..6], "#", "") == "" + Replace(v, "#", "");
  }

  /** Stripping the code and its trailing whitespace leaves the code. */
  lemma CodeStripped(h: string, v: string)
    requires |h| >= 6 && Code4At(h, 1) && v == h[1..6]
    ensures Strip(v) == h[1..5]
  {
    var a := h[1..5];
    assert v[..4] == a && IsSpace(v[4]) && !IsSpace(v[0]);
    assert LStrip(v) == v;
    assert !IsSpace(a[3]);
    assert RStrip(v) == RStrip(a);
    assert RStrip(a) == a;
  }

  /** The station is the four-character code after the first `#&`, or empty
      text when there is none (airmet.py:742, 749-752). */
  lemma StationCode(h: string)
    ensures Search(Station, h).None? ==> StationText(h) == ""
    ensures Search(Station, h).Some? ==>
      var a := Search(Station, h).value.start;
      a + 7 <= |h| && StationText(h) == h[a + 2..a + 6]
  {
    match Search(Station, h)
    case None =>
    case Some(sp) => StationAt(h, sp.start, sp.end);
  }

  /** A station match at `a` reads as the four characters after its `#&`. */
  lemma StationAt(h: string, a: nat, e: nat)
    requires a <= |h| && MatchAt(Station, h, a) == Some(e)
    ensures e == a + 7 <= |h| && Strip(Replace(h[a..e], "#&", "")) == h[a + 2..a + 6]
  {
    StationMatch(h, a, e);
    var g := h[a..a + 7];
    assert g[..2] == "#&" by { assert h[a..a + 2] == "#&"; }
    assert Code4At(g, 2) by {
      forall k | 2 <= k < 7 ensures g[k] == h[a + k] { }
    }
    StationStripped(g);
    SliceOfSlice(h, a, a + 7, 2, 6);
  }

  lemma StationMatch(h: string, i: nat, e: nat)
    requires i <= |h| && MatchAt(Station, h, i) == Some(e)
    ensures e == i + 7 && e <= |h| && At(h, i, "#&") && Code4At(h, i + 2)
  {
  }

  lemma StationStripped(g: string)
    requires |g| == 7 && g[..2] == "#&" && Code4At(g, 2)
    ensures Strip(Replace(g, "#&", "")) == g[2..6]
  {
    var v := g[2..];
    assert Replace(g, "#&", "") == v by {
      assert g == [] + "#&" + v;
      assert '#' !in v by { forall k | 0 <= k < 5 ensures v[k] != '#' { assert v[k] == g[k + 2]; } }
      ReplaceFirstAt([], "#&", v, "");
      ReplaceMissing(v, "#&", "", '#');
    }
    assert Strip(v) == g[2..6] by {
      var t := g[1..];
      assert Code4At(t, 1) && v == t[1..6] && t[1..5] == g[2..6] by {
        forall k | 1 <= k < 6 ensures t[k] == g[k + 1] { }
      }
      CodeStripped(t, v);
    }
  }

  /** A four-character code with " AMD" appended exactly when `amended`. */
  predicate IdShaped(id: string, amended: bool) {
    |id| >= 4 && (forall k :: 0 <= k < 4 ==> IsAlnumUp(id[k]))
    && (amended <==> (|id| == 8 && id[4..] == " AMD")) && (!amended ==> |id| == 4)
  }

  lemma IdShape(h: string, amended: bool)
    requires Code4At(h, 1)
    ensures IdShaped(if amended then h[1..5] + " AMD" else h[1..5], amended)
  {
    var a := h[1..5];
    var id := if amended then a + " AMD" else a;
    assert id[..4] == a;
    forall k | 0 <= k < 4 ensures IsAlnumUp(id[k]) { assert id[k] == h[k + 1]; }
  }

  /** The id of a header is its four-character code, with " AMD" after it
      when amended. */
  lemma BuildId(h: string, sp: Spans, amended: bool, year: int, month: int)
    requires SpansOf(h, sp)
    ensures var r := Build(h, sp, amended, year, month);
      r.Ok? ==> IdShaped(r.value.airmetId, amended)
  {
    assert sp.idEnd == 6;
    AdvisoryIdCode(h);
    IdShape(h, amended);
  }

  /** The id found in a header text with the " AMD" marks removed. */
  lemma FieldsId(h: string, amended: bool, year: int, month: int)
    ensures var r := ParseFields(h, amended, year, month);
      r.Ok? ==> IdShaped(r.value.airmetId, amended)
  {
    match FindSpans(h)
    case None =>
    case Some(sp) => BuildId(h, sp, amended, year, month);
  }

  /** The id of a parsed header is its four-character code, followed by
      " AMD" exactly when the header from its main block on holds "AMD"
      (airmet.py:737-758). */
  lemma AmendedId(header: string, year: int, month: int)
    ensures var r := ParseHeader(header, year, month);
      r.Ok? ==>
        var id := r.value.airmetId;
        |id| >= 4 && (forall k :: 0 <= k < 4 ==> IsAlnumUp(id[k]))
        && (Contains(MainTail(header).value, "AMD") <==> (|id| == 8 && id[4..] == " AMD"))
        && (!Contains(MainTail(header).value, "AMD") ==> |id| == 4)
  {
    match MainTail(header)
    case None =>
    case Some(h0) =>
      var amended := Contains(h0, "AMD");
      FieldsId(if amended then Replace(h0, " AMD", "") else h0, amended, year, month);
  }

  // ---------------------------------------------------------------------
  // The AIRMET type

  /** A `\w+` run. */
  predicate Word(w: string) {
    w != [] && forall k :: 0 <= k < |w| ==> IsWord(w[k])
  }

  /** A type match at `a` is `#AIRMET`, one whitespace character, then the
      word up to `e`; the field is that word when the whitespace is a plain
      space, and the whole match otherwise, since "#AIRMET " is then not
      found (airmet.py:744, 754). */
  lemma TypeWord(h: string, a: nat, e: nat)
    requires a <= |h| && MatchAt(TypeKeyword, h, a) == Some(e)
    ensures a + 8 < e <= |h| && Word(h[a + 8..e])
    ensures h[a + 7] == ' ' ==> Strip(Replace(h[a..e], "#AIRMET ", "")) == h[a + 8..e]
    ensures h[a + 7] != ' ' ==> Strip(Replace(h[a..e], "#AIRMET ", "")) == h[a..e]
  {
    TypeMatch(h, a, e);
    var g := h[a..e];
    var w := h[a + 8..e];
    assert g[..7] == "#AIRMET" by { assert h[a..a + 7] == "#AIRMET"; }
    assert g[8..] == w && g[7] == h[a + 7];
    if h[a + 7] == ' ' {
      TypeReplaced(g, w);
      WordStripped(w);
    } else {
      TypeKept(g);
    }
  }

  lemma TypeMatch(h: string, a: nat, e: nat)
    requires a <= |h| && MatchAt(TypeKeyword, h, a) == Some(e)
    ensures a + 8 < e <= |h| && At(h, a, "#AIRMET") && IsSpace(h[a + 7])
    ensures Word(h[a + 8..e])
  {
    var n := RunLength(h, a + 8, IsWord);
    assert e == a + 8 + n;
    var w := h[a + 8..e];
    forall k | 0 <= k < |w| ensures IsWord(w[k]) { assert w[k] == h[a + 8 + k]; }
  }

  /** With a plain space after the keyword, the replace removes "#AIRMET "
      and leaves the word. */
  lemma TypeReplaced(g: string, w: string)
    requires |g| > 8 && g[..7] == "#AIRMET" && g[7] == ' ' && g[8..] == w && Word(w)
    ensures Replace(g, "#AIRMET ", "") == w
  {
    var pat := "#AIRMET ";
    assert g == [] + pat + w by { assert g[..8] == pat; }
    ReplaceFirstAt([], pat, w, "");
    WordAvoids(w, '#');
    ReplaceMissing(w, pat, "", '#');
  }

  /** With other whitespace after the keyword, "#AIRMET " does not occur and
      the match is left whole. */
  lemma TypeKept(g: string)
    requires |g| > 8 && g[..7] == "#AIRMET" && IsSpace(g[7]) && g[7] != ' ' && Word(g[8..])
    ensures Strip(Replace(g, "#AIRMET ", "")) == g
  {
    var pat := "#AIRMET ";
    var t := g[1..];
    assert !(pat <= g) by { assert pat[7] == ' '; }
    assert '#' !in t by {
      forall k | 0 <= k < |t| ensures t[k] != '#' {
        if k < 6 { assert t[k] == g[..7][k + 1]; }
        else if k > 6 { assert t[k] == g[8..][k - 7]; assert IsWord(g[8..][k - 7]); }
      }
    }
    ReplaceMissing(t, pat, "", '#');
    assert [g[0]] + t == g;
    assert g[0] == g[..7][0];
    assert IsWord(g[8..][|g| - 9]);
    StripNoSpace(g);
  }

  lemma WordAvoids(w: string, c: char)
    requires Word(w) && !IsWord(c)
    ensures c !in w
  {
  }

  lemma WordStripped(w: string)
    requires Word(w)
    ensures Strip(w) == w
  {
    assert IsWord(w[0]) && IsWord(w[|w| - 1]);
    StripNoSpace(w);
  }

  /** The type field of a header built from its spans. */
  lemma BuildType(h: string, sp: Spans, amended: bool, year: int, month: int)
    requires SpansOf(h, sp)
    ensures var r := Build(h, sp, amended, year, month);
      var a := sp.ty.start;
      var e := sp.ty.end;
      a + 8 < e <= |h| && Word(h[a + 8..e])
      && (r.Ok? ==> r.value.airmetType == if h[a + 7] == ' ' then h[a + 8..e] else h[a..e])
  {
    TypeWord(h, sp.ty.start, sp.ty.end);
  }

  /** `t` is what the first `#AIRMET` match of `h` gives: the `\w+` word
      after it when a plain space follows the keyword, and otherwise the
      whole match. */
  predicate TypeFieldOf(h: string, t: string) {
    Search(TypeKeyword, h).Some?
    && var a := Search(TypeKeyword, h).value.start;
    var e := Search(TypeKeyword, h).value.end;
    a + 8 < e <= |h| && Word(h[a + 8..e])
    && t == if h[a + 7] == ' ' then h[a + 8..e] else h[a..e]
  }

  lemma FieldsType(h: string, amended: bool, year: int, month: int)
    ensures var r := ParseFields(h, amended, year, month);
      r.Ok? ==> TypeFieldOf(h, r.value.airmetType)
  {
    match FindSpans(h)
    case None =>
    case Some(sp) =>
      assert Search(TypeKeyword, h) == Some(sp.ty);
      BuildType(h, sp, amended, year, month);
  }

  /** The type field of a parsed header is read from the first `#AIRMET`
      match of the header from its main block on, " AMD" removed when
      amended (airmet.py:744, 754). */
  lemma HeaderType(header: string, year: int, month: int)
    ensures var r := ParseHeader(header, year, month);
      r.Ok? ==>
        var h0 := MainTail(header).value;
        TypeFieldOf(if Contains(h0, "AMD") then Replace(h0, " AMD", "") else h0, r.value.airmetType)
  {
    match MainTail(header)
    case None =>
    case Some(h0) =>
      var amended := Contains(h0, "AMD");
      FieldsType(if amended then Replace(h0, " AMD", "") else h0, amended, year, month);
  }

  // ---------------------------------------------------------------------
  // Conditions

  /** No hazard tag holds a space. */
  lemma ConditionsAreWords(span: string)
    ensures forall k :: 0 <= k < |Conditions(span)| ==> ' ' !in Conditions(span)[k]
  {
    var c0 := Replace(Replace(span, "FOR ", ""), " VALID", "");
    SplitPiecesAvoid(Replace(JoinTags(c0), "AND ", ""), ' ');
  }

  /** A one-word hazard such as ICE, TURB, IFR or FRZLVL: capitals, without
      the letters the keywords FOR, AND, MTN OBSCN and STG WNDS would need. */
  predicate HazardWord(x: string) {
    x != [] && forall k :: 0 <= k < |x| ==> IsUpper(x[k]) && x[k] != 'O' && x[k] != 'W' && x[k] != 'M' && x[k] != 'D'
  }

  /** "FOR x AND y VALID" lists two one-word hazards. */
  lemma TwoConditions(x: string, y: string)
    requires HazardWord(x) && HazardWord(y) && y[0] != 'V'
    ensures Conditions("FOR " + (x + " AND " + y + " VALID")) == [x, y]
  {
    var body := x + " AND " + y;
    CondFor(x, y);
    CondValid(x, y);
    CondTags(body);
    CondAnd(x, y);
    assert ' ' !in x && ' ' !in y by {
      forall k | 0 <= k < |x| ensures x[k] != ' ' { assert IsUpper(x[k]); }
      forall k | 0 <= k < |y| ensures y[k] != ' ' { assert IsUpper(y[k]); }
    }
    SplitNoSep(y, ' ');
    SplitAfterWord(x, y, ' ');
    assert x + [' '] + y == x + " " + y;
  }

  lemma PlainChars(x: string)
    requires HazardWord(x)
    ensures ' ' !in x && 'O' !in x && 'W' !in x && 'M' !in x && 'D' !in x
  {
    forall k | 0 <= k < |x| ensures x[k] != ' ' { assert IsUpper(x[k]); }
  }

  lemma CondFor(x: string, y: string)
    requires HazardWord(x) && HazardWord(y)
    ensures Replace("FOR " + (x + " AND " + y + " VALID"), "FOR ", "") == x + " AND " + y + " VALID"
  {
    var v := x + " AND " + y + " VALID";
    assert ("FOR " + v)[4..] == v;
    assert Replace("FOR " + v, "FOR ", "") == "" + Replace(v, "FOR ", "");
    assert 'O' !in v by {
      PlainChars(x); PlainChars(y);
      assert 'O' !in " AND " && 'O' !in " VALID";
    }
    ReplaceMissing(v, "FOR ", "", 'O');
  }

  lemma CondValid(x: string, y: string)
    requires HazardWord(x) && HazardWord(y) && y[0] != 'V'
    ensures Replace(x + " AND " + y + " VALID", " VALID", "") == x + " AND " + y
  {
    PlainChars(x); PlainChars(y);
    var u := x + " AND " + y;
    var s := u + " VALID" + [];
    assert x + " AND " + y + " VALID" == s;
    forall i | 0 <= i < |u| ensures !At(s, i, " VALID") {
      AtHolds(s, i, " VALID", 0);
      AtChar(s, i, " VALID", 1);
      if i < |x| { assert s[i] == x[i]; }
      else if i == |x| { assert s[i + 1] == 'A'; }
      else if i < |x| + 4 { assert s[i] != ' '; }
      else if i == |x| + 4 { assert s[i + 1] == y[0]; }
      else { assert s[i] == y[i - |x| - 5]; }
    }
    ReplaceFirstAt(u, " VALID", [], "");
    assert u + "" + Replace([], " VALID", "") == u;
  }

  /** Without "W" or "M" the multi-word hazards are not there to join. */
  lemma CondTags(body: string)
    requires 'W' !in body && 'M' !in body
    ensures JoinTags(body) == body
  {
    ReplaceMissing(body, "STG WNDS", "STG_WNDS", 'W');
    ReplaceMissing(body, "MTN OBSCN", "MTN_OBSCN", 'M');
    ReplaceMissing(body, "STG SFC WNDS", "STD_SFC_WNDS", 'W');
  }

  lemma CondAnd(x: string, y: string)
    requires HazardWord(x) && HazardWord(y)
    ensures 'W' !in x + " AND " + y && 'M' !in x + " AND " + y
    ensures Replace(x + " AND " + y, "AND ", "") == x + " " + y
  {
    PlainChars(x); PlainChars(y);
    assert 'W' !in x + " AND " + y && 'M' !in x + " AND " + y;
    CondAndRemoved(x, y);
  }

  lemma CondAndRemoved(x: string, y: string)
    requires HazardWord(x) && ' ' !in y
    ensures Replace(x + " AND " + y, "AND ", "") == x + " " + y
  {
    var u := x + " ";
    var s := u + "AND " + y;
    assert x + " AND " + y == s by { assert " AND " == " " + "AND "; }
    assert Replace(s, "AND ", "") == u + "" + Replace(y, "AND ", "") by {
      forall i | 0 <= i < |u| ensures !At(s, i, "AND ") { AndNotAt(x, y, i); }
      ReplaceFirstAt(u, "AND ", y, "");
    }
    assert Replace(y, "AND ", "") == y by { ReplaceMissing(y, "AND ", "", ' '); }
    assert u + "" + y == x + " " + y;
  }

  /** No "AND " starts inside `x` or at the space after it. */
  lemma AndNotAt(x: string, y: string, i: nat)
    requires HazardWord(x) && i <= |x|
    ensures !At(x + " " + "AND " + y, i, "AND ")
  {
    var s := x + " " + "AND " + y;
    AtChar(s, i, "AND ", 2);
    AtChar(s, i, "AND ", 3);
    if i + 3 < |x| { assert s[i + 3] == x[i + 3]; }
    else if i + 3 == |x| { assert s[i + 2] == x[|x| - 1]; }
    else { assert s[i + 3] == (" AND " + y)[i + 3 - |x|]; }
  }

  /** The multi-word hazards and the tag each becomes. */
  predicate JoinedHazard(y: string, tag: string) {
    (y == "MTN OBSCN" && tag == "MTN_OBSCN")
    || (y == "STG WNDS" && tag == "STG_WNDS")
    || (y == "STG SFC WNDS" && tag == "STD_SFC_WNDS")
  }

  /** "FOR x AND y VALID" with a multi-word second hazard lists `x` and the
      joined tag: `MTN_OBSCN`, `STG_WNDS`, or `STD_SFC_WNDS` for surface winds. */
  lemma ConditionsJoined(x: string, y: string, tag: string)
    requires HazardWord(x) && JoinedHazard(y, tag)
    ensures Conditions("FOR " + (x + " AND " + y + " VALID")) == [x, tag]
  {
    var c0 := Replace(Replace("FOR " + (x + " AND " + y + " VALID"), "FOR ", ""), " VALID", "");
    JoinedHazardChars(y, tag);
    assert c0 == x + " AND " + y by { CondForValidJoined(x, y); }
    assert JoinTags(c0) == x + " AND " + tag by { JoinTagsAfterWord(x, y, tag); }
    assert Replace(x + " AND " + tag, "AND ", "") == x + " " + tag by { CondAndJoined(x, tag); }
    assert Split(x + " " + tag, ' ') == [x, tag] by {
      PlainChars(x);
      SplitAfterWord(x, tag, ' ');
      SplitNoSep(tag, ' ');
      assert x + " " + tag == x + [' '] + tag;
    }
  }

  /** Dropping "AND " in front of a joined tag. */
  lemma CondAndJoined(x: string, tag: string)
    requires HazardWord(x) && ' ' !in tag
    ensures Replace(x + " AND " + tag, "AND ", "") == x + " " + tag
  {
    PlainChars(x);
    var w := " AND " + tag;
    assert x + " AND " + tag == x + w;
    assert Replace(x + w, "AND ", "") == x + Replace(w, "AND ", "") by {
      ReplaceAfterWord(x, w, "AND ", "", 2);
    }
    assert Replace(w, "AND ", "") == " " + tag by {
      assert w == " " + "AND " + tag;
      ReplaceFirstAt(" ", "AND ", tag, "");
      ReplaceMissing(tag, "AND ", "", ' ');
    }
  }

  /** Dropping "FOR " and " VALID" around `x AND y`, for a second hazard
      without the letters R and V. */
  lemma CondForValidJoined(x: string, y: string)
    requires HazardWord(x) && 'R' !in y && 'V' !in y
    ensures Replace(Replace("FOR " + (x + " AND " + y + " VALID"), "FOR ", ""), " VALID", "") == x + " AND " + y
  {
    var t := " AND " + y + " VALID";
    assert x + " AND " + y + " VALID" == x + t;
    CondForJoined(x, t);
    CondValidJoined(x, y);
  }

  lemma CondForJoined(x: string, t: string)
    requires HazardWord(x) && 'R' !in t && t != [] && t[0] == ' '
    ensures Replace("FOR " + (x + t), "FOR ", "") == x + t
  {
    PlainChars(x);
    assert [] + "FOR " + (x + t) == "FOR " + (x + t);
    ReplaceFirstAt([], "FOR ", x + t, "");
    ReplaceAfterWord(x, t, "FOR ", "", 1);
    ReplaceMissing(t, "FOR ", "", 'R');
  }

  lemma CondValidJoined(x: string, y: string)
    requires HazardWord(x) && 'V' !in y
    ensures Replace(x + (" AND " + y + " VALID"), " VALID", "") == x + " AND " + y
  {
    PlainChars(x);
    var t := " AND " + y + " VALID";
    ReplaceAfterWord(x, t, " VALID", "", 0);
    ReplaceWordAtEnd(" AND " + y, " VALID", "", 1);
  }

  lemma JoinedHazardChars(y: string, tag: string)
    requires JoinedHazard(y, tag)
    ensures 'R' !in y && 'V' !in y && ' ' !in tag
  {
  }

  /** Joining the tags leaves the one-word hazard in front alone. */
  lemma JoinTagsAfterWord(x: string, y: string, tag: string)
    requires HazardWord(x) && JoinedHazard(y, tag)
    ensures JoinTags(x + " AND " + y) == x + " AND " + tag
  {
    PlainChars(x);
    if y == "MTN OBSCN" {
      JoinMtnObscn(x);
    } else if y == "STG WNDS" {
      JoinStgWnds(x);
    } else {
      JoinStgSfcWnds(x);
    }
  }

  lemma JoinMtnObscn(x: string)
    requires 'W' !in x && 'M' !in x
    ensures JoinTags(x + " AND " + "MTN OBSCN") == x + " AND " + "MTN_OBSCN"
  {
    var s := x + " AND " + "MTN OBSCN";
    var v := x + " AND " + "MTN_OBSCN";
    assert Replace(s, "STG WNDS", "STG_WNDS") == s by {
      ReplaceMissing(s, "STG WNDS", "STG_WNDS", 'W');
    }
    assert Replace(s, "MTN OBSCN", "MTN_OBSCN") == v by {
      ReplaceWordAtEnd(x + " AND ", "MTN OBSCN", "MTN_OBSCN", 0);
    }
    assert Replace(v, "STG SFC WNDS", "STD_SFC_WNDS") == v by {
      ReplaceMissing(v, "STG SFC WNDS", "STD_SFC_WNDS", 'W');
    }
  }

  lemma JoinStgWnds(x: string)
    requires 'W' !in x && 'M' !in x
    ensures JoinTags(x + " AND " + "STG WNDS") == x + " AND " + "STG_WNDS"
  {
    var v := x + " AND " + "STG_WNDS";
    assert Replace(x + " AND " + "STG WNDS", "STG WNDS", "STG_WNDS") == v by {
      ReplaceWordAtEnd(x + " AND ", "STG WNDS", "STG_WNDS", 4);
    }
    assert Replace(v, "MTN OBSCN", "MTN_OBSCN") == v by {
      ReplaceMissing(v, "MTN OBSCN", "MTN_OBSCN", 'M');
    }
    assert Replace(v, "STG SFC WNDS", "STD_SFC_WNDS") == v by {
      NoSurfaceWindsIn(x);
      ReplaceAbsent(v, "STG SFC WNDS", "STD_SFC_WNDS");
    }
  }

  lemma JoinStgSfcWnds(x: string)
    requires 'W' !in x && 'M' !in x
    ensures JoinTags(x + " AND " + "STG SFC WNDS") == x + " AND " + "STD_SFC_WNDS"
  {
    var s := x + " AND " + "STG SFC WNDS";
    assert Replace(s, "STG WNDS", "STG_WNDS") == s by {
      NoStrongWindsIn(x);
      ReplaceAbsent(s, "STG WNDS", "STG_WNDS");
    }
    assert Replace(s, "MTN OBSCN", "MTN_OBSCN") == s by {
      ReplaceMissing(s, "MTN OBSCN", "MTN_OBSCN", 'M');
    }
    ReplaceWordAtEnd(x + " AND ", "STG SFC WNDS", "STD_SFC_WNDS", 8);
  }

  /** Once strong winds are joined, no surface-winds phrase is left. */
  lemma NoSurfaceWindsIn(x: string)
    requires 'W' !in x
    ensures !Occurs(x + " AND " + "STG_WNDS", "STG SFC WNDS")
  {
    var u := x + " AND ";
    var s := u + "STG_WNDS";
    forall i | 0 <= i <= |s| ensures !At(s, i, "STG SFC WNDS") {
      AtChar(s, i, "STG SFC WNDS", 8);
      AtChar(s, i, "STG SFC WNDS", 0);
      if i + 8 < |u| { assert s[i + 8] == u[i + 8]; }
    }
  }

  /** "STG WNDS" does not occur inside "STG SFC WNDS". */
  lemma NoStrongWindsIn(x: string)
    requires 'W' !in x
    ensures !Occurs(x + " AND " + "STG SFC WNDS", "STG WNDS")
  {
    var u := x + " AND ";
    var s := u + "STG SFC WNDS";
    forall i | 0 <= i <= |s| ensures !At(s, i, "STG WNDS") {
      AtChar(s, i, "STG WNDS", 4);
      AtChar(s, i, "STG WNDS", 1);
      if i + 4 < |u| { assert s[i + 4] == u[i + 4]; }
    }
  }

  /** "FOR IFR AND MTN OBSCN VALID" lists IFR and mountain obscuration, and
      "FOR TURB AND STG SFC WNDS VALID" lists turbulence and surface winds
      under the tag `STD_SFC_WNDS`. */
  lemma ConditionsJoinedExample()
    ensures Conditions("FOR " + ("IFR" + " AND " + "MTN OBSCN" + " VALID")) == ["IFR", "MTN_OBSCN"]
    ensures Conditions("FOR " + ("TURB" + " AND " + "STG SFC WNDS" + " VALID")) == ["TURB", "STD_SFC_WNDS"]
  {
    ConditionsJoined("IFR", "MTN OBSCN", "MTN_OBSCN");
    ConditionsJoined("TURB", "STG SFC WNDS", "STD_SFC_WNDS");
  }

  /** "FOR ICE AND FRZLVL VALID" lists icing and the freezing level. */
  lemma ConditionsExample()
    ensures Conditions("FOR " + ("ICE" + " AND " + "FRZLVL" + " VALID")) == ["ICE", "FRZLVL"]
  {
    TwoConditions("ICE", "FRZLVL");
  }
}
