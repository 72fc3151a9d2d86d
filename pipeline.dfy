/** The group loop of `download` (airmet.py:137-225) for one bulletin, without
    the network and file I/O around it: the bulletin is sanitized and split
    into groups; a header group is parsed into the header, and every other
    group loses its references, states, description and qualifiers in turn. */
module Bulletin {
  import opened Wrappers
  import opened PyStr
  import opened Sanitizer
  import opened Splitter
  import opened Vors
  import opened Jurisdictions
  import opened Extract
  import HD = Header

  /** What a body group becomes (airmet.py:196-209). */
  datatype Group =
    | Advisory(qualifiers: seq<string>, vors: seq<string>, states: seq<string>, desc: string)
    | Unsupported(qualifiers: seq<string>, error: string)

  const FreezingUnsupported := "Freezing level data parsing not yet implemented."

  /** What Python up to 3.10 raises when no group of the first bulletin was a
      header (3.11 and later word it "cannot access local variable ..."). */
  const NoHeader := "local variable 'header_dict' referenced before assignment"

  /** The `main_dict` of one bulletin (airmet.py:218-219). */
  datatype Product = Product(header: HD.Header, rawText: string, subgroups: seq<Group>)

  /** Some qualifier mentions the freezing level. */
  predicate HasFreezing(quals: seq<string>) {
    exists k :: 0 <= k < |quals| && Contains(quals[k], "FRZ")
  }

  /** A body group through the four extractors (airmet.py:165-209).  The
      `replace("##", "$")` of airmet.py:178 discards its result, so the
      states are popped from the text the references left. */
  function DecodeGroup(g: string): Result<Group, string> {
    Assemble(Pop(DropSeeSeries(g)))
  }

  /** The last three extractors, after `_pop_vors` gave `p`. */
  function Assemble(p: Popped): Result<Group, string> {
    match PopStates(p.rest)
    case Err(e) => Err(e)
    case Ok(sp) =>
      var d := PopDescription(sp.rest);
      var quals := PopQualifiers(d.rest);
      if HasFreezing(quals) then Ok(Unsupported(quals, FreezingUnsupported))
      else Ok(Advisory(quals, p.refs, sp.states, d.desc))
  }

  /** The header seen so far and the groups decoded so far. */
  datatype Progress = Progress(header: Option<HD.Header>, groups: seq<Group>)

  /** One turn of the group loop; an exception ends the bulletin. */
  function Step(pr: Progress, g: string, year: int, month: int): Result<Progress, string> {
    if IsHeader(g) then
      match HD.ParseHeader(HeaderText(g), year, month)
      case Err(e) => Err(e)
      case Ok(h) => Ok(Progress(Some(h), pr.groups))
    else
      match DecodeGroup(g)
      case Err(e) => Err(e)
      case Ok(grp) => Ok(Progress(pr.header, pr.groups + [grp]))
  }

  /** The loop over `gs`, stopping at the first error. */
  function Run(pr: Progress, gs: seq<string>, year: int, month: int): Result<Progress, string>
    decreases |gs|
  {
    if gs == [] then Ok(pr)
    else
      match Run(pr, gs[..|gs| - 1], year, month)
      case Err(e) => Err(e)
      case Ok(q) => Step(q, gs[|gs| - 1], year, month)
  }

  /** The raw text without its start-of-heading and record-separator
      characters (airmet.py:219). */
  function RawText(raw: string): string {
    Replace(Replace(raw, [SOH], ""), [RS], "")
  }

  /** One bulletin; `prev` is the header left by an earlier bulletin of the
      same download, since `header_dict` is not reset between them. */
  function Decode(raw: string, prev: Option<HD.Header>, year: int, month: int): Result<Product, string> {
    match Run(Progress(prev, []), Groups(Sanitize(raw)), year, month)
    case Err(e) => Err(e)
    case Ok(q) =>
      match q.header
      case None => Err(NoHeader)
      case Some(h) => Ok(Product(h, RawText(raw), q.groups))
  }

  // ---------------------------------------------------------------------
  // The loops

  /** The `frz_present` loop of airmet.py:195-198. */
  method FreezingPresent(quals: seq<string>) returns (frz: bool)
    ensures frz == HasFreezing(quals)
  {
    frz := false;
    var i := 0;
    while i < |quals|
      invariant 0 <= i <= |quals|
      invariant frz <==> exists k :: 0 <= k < i && Contains(quals[k], "FRZ")
    {
      if Contains(quals[i], "FRZ") {
        frz := true;
      }
      i := i + 1;
    }
  }

  /** A body group, as the loop body does it. */
  method DecodeBodyGroup(g: string) returns (r: Result<Group, string>)
    ensures r == DecodeGroup(g)
  {
    var rest, vors := PopVors(DropSeeSeries(g));
    match PopStates(rest) {
      case Err(e) =>
        return Err(e);
      case Ok(sp) =>
        var d := PopDescription(sp.rest);
        var quals := PopQualifiers(d.rest);
        var frz := FreezingPresent(quals);
        if frz {
          r := Ok(Unsupported(quals, FreezingUnsupported));
        } else {
          r := Ok(Advisory(quals, vors, sp.states, d.desc));
        }
    }
  }

  /** One turn of the loop body: a header group replaces the header, any
      other group is decoded and appended. */
  method StepGroup(pr: Progress, g: string, year: int, month: int) returns (r: Result<Progress, string>)
    ensures r == Step(pr, g, year, month)
  {
    if IsHeader(g) {
      var h := HD.ParseHeader(HeaderText(g), year, month);
      if h.Err? {
        return Err(h.error);
      }
      r := Ok(Progress(Some(h.value), pr.groups));
    } else {
      var grp := DecodeBodyGroup(g);
      if grp.Err? {
        return Err(grp.error);
      }
      r := Ok(Progress(pr.header, pr.groups + [grp.value]));
    }
  }

  /** The group loop of airmet.py:147-216, stopping at the first error. */
  method RunLoop(pr0: Progress, gs: seq<string>, year: int, month: int) returns (r: Result<Progress, string>)
    ensures r == Run(pr0, gs, year, month)
  {
    var pr := pr0;
    var i := 0;
    while i < |gs|
      invariant 0 <= i <= |gs|
      invariant Run(pr0, gs[..i], year, month) == Ok(pr)
    {
      RunSnoc(pr0, gs, i, year, month);
      var next := StepGroup(pr, gs[i], year, month);
      if next.Err? {
        ErrorStops(pr0, gs, i + 1, next.error, year, month);
        return Err(next.error);
      }
      pr := next.value;
      i := i + 1;
    }
    assert gs[..i] == gs;
    r := Ok(pr);
  }

  /** `download`'s handling of one bulletin (airmet.py:137-219). */
  method DecodeBulletin(raw: string, prev: Option<HD.Header>, year: int, month: int) returns (r: Result<Product, string>)
    ensures r == Decode(raw, prev, year, month)
  {
    var run := RunLoop(Progress(prev, []), Groups(Sanitize(raw)), year, month);
    if run.Err? {
      return Err(run.error);
    }
    var pr := run.value;
    if pr.header.None? {
      return Err(NoHeader);
    }
    r := Ok(Product(pr.header.value, RawText(raw), pr.groups));
  }

  // ---------------------------------------------------------------------
  // Properties

  /** The loop over one more group is one more step. */
  lemma RunSnoc(pr: Progress, gs: seq<string>, i: nat, year: int, month: int)
    requires i < |gs|
    ensures Run(pr, gs[..i + 1], year, month)
         == (match Run(pr, gs[..i], year, month)
             case Err(e) => Err(e)
             case Ok(q) => Step(q, gs[i], year, month))
  {
    assert gs[..i + 1][..i] == gs[..i];
  }

  /** An error ends the loop: later groups are not looked at. */
  lemma {:induction false} ErrorStops(pr: Progress, gs: seq<string>, j: nat, e: string, year: int, month: int)
    requires j <= |gs| && Run(pr, gs[..j], year, month) == Err(e)
    ensures Run(pr, gs, year, month) == Err(e)
    decreases |gs| - j
  {
    if j < |gs| {
      assert gs[..j + 1][..j] == gs[..j];
      ErrorStops(pr, gs, j + 1, e, year, month);
    } else {
      assert gs[..j] == gs;
    }
  }

  /** The groups without a `*`, in order. */
  function BodyGroups(gs: seq<string>): (r: seq<string>)
    ensures |r| <= |gs|
    decreases |gs|
  {
    if gs == [] then []
    else BodyGroups(gs[..|gs| - 1]) + (if IsHeader(gs[|gs| - 1]) then [] else [gs[|gs| - 1]])
  }

  /** The body groups are exactly the groups without a `*`. */
  lemma {:induction false} BodyGroupsAreBody(gs: seq<string>)
    ensures forall x :: x in BodyGroups(gs) <==> x in gs && !IsHeader(x)
    decreases |gs|
  {
    if gs != [] {
      var init := gs[..|gs| - 1];
      BodyGroupsAreBody(init);
      assert gs == init + [gs[|gs| - 1]];
    }
  }

  /** The index of the last group with a `*`, if any. */
  function LastHeader(gs: seq<string>): (r: Option<nat>)
    ensures r.Some? ==> r.value < |gs| && IsHeader(gs[r.value])
    ensures r.Some? ==> forall j :: r.value < j < |gs| ==> !IsHeader(gs[j])
    ensures r.None? ==> forall k :: 0 <= k < |gs| ==> !IsHeader(gs[k])
    decreases |gs|
  {
    if gs == [] then None
    else if IsHeader(gs[|gs| - 1]) then Some(|gs| - 1)
    else LastHeader(gs[..|gs| - 1])
  }

  /** A completed loop has appended one decoded group per body group, in
      order, and nothing else. */
  lemma {:induction false} RunGroups(pr: Progress, gs: seq<string>, year: int, month: int)
    ensures Run(pr, gs, year, month).Ok? ==>
      var q := Run(pr, gs, year, month).value;
      var bs := BodyGroups(gs);
      |q.groups| == |pr.groups| + |bs| && q.groups[..|pr.groups|] == pr.groups
      && forall k :: 0 <= k < |bs| ==> DecodeGroup(bs[k]) == Ok(q.groups[|pr.groups| + k])
    decreases |gs|
  {
    if gs != [] && Run(pr, gs, year, month).Ok? {
      var init := gs[..|gs| - 1];
      var g := gs[|gs| - 1];
      RunGroups(pr, init, year, month);
      var q0 := Run(pr, init, year, month).value;
      var q := Run(pr, gs, year, month).value;
      if !IsHeader(g) {
        var bs := BodyGroups(gs);
        assert bs == BodyGroups(init) + [g];
        forall k | 0 <= k < |bs| ensures DecodeGroup(bs[k]) == Ok(q.groups[|pr.groups| + k]) {
          if k < |BodyGroups(init)| {
            assert bs[k] == BodyGroups(init)[k];
            assert q.groups[|pr.groups| + k] == q0.groups[|pr.groups| + k];
          }
        }
        assert q.groups[..|pr.groups|] == q0.groups[..|pr.groups|];
      }
    }
  }

  /** The header of a completed loop is the parse of the last header group,
      or the one it started with when there was none: a later header
      replaces an earlier one. */
  lemma {:induction false} RunHeader(pr: Progress, gs: seq<string>, year: int, month: int)
    ensures Run(pr, gs, year, month).Ok? ==>
      var q := Run(pr, gs, year, month).value;
      match LastHeader(gs)
      case None => q.header == pr.header
      case Some(k) => q.header.Some? && HD.ParseHeader(HeaderText(gs[k]), year, month) == Ok(q.header.value)
    decreases |gs|
  {
    if gs != [] && Run(pr, gs, year, month).Ok? {
      var init := gs[..|gs| - 1];
      RunHeader(pr, init, year, month);
      if !IsHeader(gs[|gs| - 1]) {
        match LastHeader(init)
        case None =>
        case Some(k) => assert gs[k] == init[k];
      }
    }
  }

  /** A body group is unsupported exactly when a qualifier mentions the
      freezing level; otherwise it keeps the references `_pop_vors` found, and
      its description holds no `$` and no line break.  It fails exactly when
      `_pop_states` does. */
  lemma GroupFacts(g: string)
    ensures DecodeGroup(g).Err? <==> PopStates(Pop(DropSeeSeries(g)).rest).Err?
    ensures DecodeGroup(g).Ok? ==>
      var grp := DecodeGroup(g).value;
      (grp.Unsupported? <==> HasFreezing(grp.qualifiers))
      && (grp.Unsupported? ==> grp.error == FreezingUnsupported)
      && (forall k :: 0 <= k < |grp.qualifiers| ==> '#' !in grp.qualifiers[k])
      && (grp.Advisory? ==>
        grp.vors == Pop(DropSeeSeries(g)).refs && '$' !in grp.desc && '#' !in grp.desc)
  {
    AssembleFacts(Pop(DropSeeSeries(g)));
  }

  /** `GroupFacts` for whatever `_pop_vors` returned. */
  lemma AssembleFacts(p: Popped)
    ensures Assemble(p).Err? <==> PopStates(p.rest).Err?
    ensures Assemble(p).Ok? ==>
      var grp := Assemble(p).value;
      (grp.Unsupported? <==> HasFreezing(grp.qualifiers))
      && (grp.Unsupported? ==> grp.error == FreezingUnsupported)
      && (forall k :: 0 <= k < |grp.qualifiers| ==> '#' !in grp.qualifiers[k])
      && (grp.Advisory? ==> grp.vors == p.refs && '$' !in grp.desc && '#' !in grp.desc)
  {
    var ps := PopStates(p.rest);
    if ps.Ok? {
      var d := PopDescription(ps.value.rest);
      var quals := PopQualifiers(d.rest);
      PopDescriptionClean(ps.value.rest);
      PopQualifiersFacts(d.rest);
      assert Assemble(p) == if HasFreezing(quals) then Ok(Unsupported(quals, FreezingUnsupported))
        else Ok(Advisory(quals, p.refs, ps.value.states, d.desc));
    }
  }

  /** The raw text kept in the product holds neither control character. */
  lemma RawTextClean(raw: string)
    ensures SOH !in RawText(raw) && RS !in RawText(raw)
  {
    var t := Replace(raw, [SOH], "");
    ReplaceCharRemoves(raw, SOH, "");
    ReplaceCharRemoves(t, RS, "");
    if SOH in RawText(raw) { ReplaceChars(t, [RS], "", SOH); }
  }

  /** A product lists one decoded group per body group of its bulletin, in
      order; its header is the last header group's when there is one, and
      otherwise the one left from before, without which the bulletin fails. */
  lemma DecodeFacts(raw: string, prev: Option<HD.Header>, year: int, month: int)
    ensures var gs := Groups(Sanitize(raw));
      var r := Decode(raw, prev, year, month);
      (r.Ok? ==>
        var bs := BodyGroups(gs);
        |r.value.subgroups| == |bs|
        && (forall k :: 0 <= k < |bs| ==> DecodeGroup(bs[k]) == Ok(r.value.subgroups[k]))
        && (LastHeader(gs).Some? ==> HD.ParseHeader(HeaderText(gs[LastHeader(gs).value]), year, month) == Ok(r.value.header))
        && (LastHeader(gs).None? ==> prev == Some(r.value.header)))
      && (LastHeader(gs).None? && prev.None? ==> r.Err?)
  {
    var gs := Groups(Sanitize(raw));
    var pr0 := Progress(prev, []);
    RunGroups(pr0, gs, year, month);
    RunHeader(pr0, gs, year, month);
    match Run(pr0, gs, year, month)
    case Err(e) =>
    case Ok(q) =>
      assert q.groups[..0] == [];
  }
}
