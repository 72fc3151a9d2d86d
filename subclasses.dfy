/** The two container classes of subclasses.py: `Bounds`, the references of one
    area with their coordinates, and `States`, the state list of one area.
    Both iterate over their elements by way of two counters they update. */
module Subclasses {
  import opened Wrappers
  import opened PyStr
  import opened Scan
  import opened Vors
  import opened Offsets

  /** A coordinate pair as the reference table stores it. */
  datatype LatLon = LatLon(lat: real, lon: real)

  /** What Python up to 3.10 raises when the table has no row for a reference
      (3.11 and later word it "cannot access local variable ..."): the
      `except` branch only prints, and the coordinates are then read from an
      unassigned name (subclasses.py:208-214). */
  const VorNotFound := "local variable 'vor_data' referenced before assignment"

  /** `_vor_dir_to_lat_lon(vor)` called without its `*args`, as
      subclasses.py:62 does: the stored coordinates of `vor`, unmoved. */
  function VorLatLon(vor: string, table: map<string, LatLon>): (r: Option<LatLon>)
    ensures r.Some? <==> vor in table
    ensures r.Some? ==> r.value == table[vor]
  {
    if vor in table then Some(table[vor]) else None
  }

  /** The points of `refs`, one per reference and in order, or nothing when
      one of them is missing from the table. */
  function Locate(refs: seq<string>, table: map<string, LatLon>): (r: Option<seq<LatLon>>)
    ensures r.Some? ==> |r.value| == |refs|
    decreases |refs|
  {
    if refs == [] then Some([])
    else
      match Locate(refs[..|refs| - 1], table)
      case None => None
      case Some(ps) =>
        match VorLatLon(SplitOffset(refs[|refs| - 1]).id, table)
        case None => None
        case Some(p) => Some(ps + [p])
  }

  /** Every reference is located exactly when the bare identifier of each one
      is in the table, and then the `k`-th point is the stored coordinate of
      the `k`-th identifier: the distance and bearing are never used. */
  lemma {:induction false} LocateFacts(refs: seq<string>, table: map<string, LatLon>)
    ensures Locate(refs, table).Some? <==> forall k :: 0 <= k < |refs| ==> SplitOffset(refs[k]).id in table
    ensures Locate(refs, table).Some? ==>
      var ps := Locate(refs, table).value;
      |ps| == |refs| && forall k :: 0 <= k < |refs| ==> ps[k] == table[SplitOffset(refs[k]).id]
  {
    LocateDefined(refs, table);
    LocateValues(refs, table);
  }

  lemma {:induction false} LocateDefined(refs: seq<string>, table: map<string, LatLon>)
    ensures Locate(refs, table).Some? <==> forall k :: 0 <= k < |refs| ==> SplitOffset(refs[k]).id in table
    decreases |refs|
  {
    if refs != [] {
      var init := refs[..|refs| - 1];
      LocateDefined(init, table);
      forall k | 0 <= k < |init| ensures init[k] == refs[k] { }
    }
  }

  lemma {:induction false} LocateValues(refs: seq<string>, table: map<string, LatLon>)
    ensures Locate(refs, table).Some? ==>
      forall k :: 0 <= k < |refs| ==>
        SplitOffset(refs[k]).id in table && Locate(refs, table).value[k] == table[SplitOffset(refs[k]).id]
    decreases |refs|
  {
    if refs != [] && Locate(refs, table).Some? {
      var init := refs[..|refs| - 1];
      LocateValues(init, table);
      forall k | 0 <= k < |init| ensures init[k] == refs[k] { }
    }
  }

  /** A missing reference ends the loop. */
  lemma {:induction false} LocateStops(refs: seq<string>, table: map<string, LatLon>, j: nat)
    requires j <= |refs| && Locate(refs[..j], table).None?
    ensures Locate(refs, table).None?
    decreases |refs| - j
  {
    if j < |refs| {
      assert refs[..j + 1][..j] == refs[..j];
      LocateStops(refs, table, j + 1);
    } else {
      assert refs[..j] == refs;
    }
  }

  /** One more located reference extends the points by its coordinate. */
  lemma LocateStep(refs: seq<string>, table: map<string, LatLon>, i: nat, pts: seq<LatLon>, q: LatLon)
    requires i < |refs| && Locate(refs[..i], table) == Some(pts)
    requires VorLatLon(SplitOffset(refs[i]).id, table) == Some(q)
    ensures Locate(refs[..i + 1], table) == Some(pts + [q])
  {
    assert refs[..i + 1][..i] == refs[..i];
  }

  class Bounds {
    var rawString: string
    var vorTuples: seq<string>
    var latlonPoints: seq<LatLon>
    var numPoints: int
    var iterIdx: int

    /** The iteration counters stay within the points. */
    predicate Valid()
      reads this
    {
      0 <= iterIdx <= numPoints <= |latlonPoints|
    }

    constructor Init(s: string, refs: seq<string>, pts: seq<LatLon>)
      ensures rawString == s && vorTuples == refs && latlonPoints == pts
      ensures numPoints == 0 && iterIdx == 0 && Valid()
    {
      rawString := s;
      vorTuples := refs;
      latlonPoints := pts;
      numPoints := 0;
      iterIdx := 0;
    }

    /** `Bounds(vor_string)` (subclasses.py:44-63): the references, then a
        point per reference; an unknown reference is an error. */
    static method Create(vorString: string, table: map<string, LatLon>) returns (r: Result<Bounds, string>)
      ensures r.Ok? <==> Locate(Pop(vorString).refs, table).Some?
      ensures r.Err? ==> r.error == VorNotFound
      ensures r.Ok? ==> (
        fresh(r.value) && r.value.rawString == vorString
        && r.value.vorTuples == Pop(vorString).refs
        && r.value.latlonPoints == Locate(Pop(vorString).refs, table).value
        && r.value.iterIdx == 0 && r.value.Valid())
    {
      var refs := ParseVorString(vorString);
      var pts := LocatePoints(refs, table);
      if pts.None? {
        return Err(VorNotFound);
      }
      var b := new Bounds.Init(vorString, refs, pts.value);
      r := Ok(b);
    }

    /** The point loop of subclasses.py:47-63. */
    static method LocatePoints(refs: seq<string>, table: map<string, LatLon>) returns (r: Option<seq<LatLon>>)
      ensures r == Locate(refs, table)
    {
      var pts: seq<LatLon> := [];
      var i := 0;
      while i < |refs|
        invariant 0 <= i <= |refs|
        invariant Locate(refs[..i], table) == Some(pts)
      {
        // The offset split is computed, but only the identifier is used.
        var o := SplitOffset(refs[i]);
        var p := VorLatLon(o.id, table);
        match p {
          case None =>
            assert refs[..i + 1][..i] == refs[..i];
            LocateStops(refs, table, i + 1);
            return None;
          case Some(q) =>
            LocateStep(refs, table, i, pts, q);
            pts := pts + [q];
        }
        i := i + 1;
      }
      assert refs[..i] == refs;
      r := Some(pts);
    }

    /** `_parse_vor_string` (subclasses.py:111-191): the same two schemes,
        candidate loop and quality checks as `_pop_vors`, keeping only the
        list; with neither scheme present the list is empty. */
    static method ParseVorString(s: string) returns (refs: seq<string>)
      ensures refs == Pop(s).refs
      ensures Collect(s).None? ==> refs == []
    {
      FindAllSpans(ToRef, s);
      FindAllSpans(HyphenRef, s);
      var g: Collected;
      match Search(FromRef, s) {
        case Some(m) =>
          g := GatherCandidates(s, m, FindAll(ToRef, s, 0));
        case None =>
          match Search(BoundedByRef, s) {
            case Some(m) =>
              g := GatherCandidates(s, m, FindAll(HyphenRef, s, 0));
            case None =>
              return [];
          }
      }
      var end;
      refs, end := FilterCandidates(g.cands, g.end);
      FilterKeepsRefs(g.cands, g.end);
    }

    /** `__iter__` (subclasses.py:65-68). */
    method Iter() returns (it: Bounds)
      modifies this
      ensures it == this && numPoints == |latlonPoints| && iterIdx == 0 && Valid()
      ensures rawString == old(rawString) && vorTuples == old(vorTuples) && latlonPoints == old(latlonPoints)
    {
      numPoints := |latlonPoints|;
      iterIdx := 0;
      it := this;
    }

    /** `__next__` (subclasses.py:70-76): the next point, or the end. */
    method Next() returns (r: Option<LatLon>)
      requires Valid()
      modifies this
      ensures Valid() && numPoints == old(numPoints)
      ensures old(iterIdx) < numPoints ==> r == Some(latlonPoints[old(iterIdx)]) && iterIdx == old(iterIdx) + 1
      ensures old(iterIdx) >= numPoints ==> r.None? && iterIdx == old(iterIdx)
      ensures rawString == old(rawString) && vorTuples == old(vorTuples) && latlonPoints == old(latlonPoints)
    {
      if iterIdx < numPoints {
        r := Some(latlonPoints[iterIdx]);
        iterIdx := iterIdx + 1;
      } else {
        r := None;
      }
    }

    /** `for point in bounds`: every point once, in order, then the end. */
    method Points() returns (out: seq<LatLon>)
      requires Valid()
      modifies this
      ensures out == latlonPoints && iterIdx == numPoints == |latlonPoints|
      ensures rawString == old(rawString) && vorTuples == old(vorTuples) && latlonPoints == old(latlonPoints)
    {
      var _ := Iter();
      out := [];
      var x := Next();
      while x.Some?
        invariant Valid() && numPoints == |latlonPoints|
        invariant rawString == old(rawString) && vorTuples == old(vorTuples) && latlonPoints == old(latlonPoints)
        invariant x.Some? ==> 1 <= iterIdx && out + [x.value] == latlonPoints[..iterIdx]
        invariant x.None? ==> iterIdx == numPoints && out == latlonPoints
        decreases numPoints - iterIdx, x.Some?
      {
        out := out + [x.value];
        x := Next();
        if x.None? {
          assert out == latlonPoints[..iterIdx];
          assert latlonPoints[..iterIdx] == latlonPoints;
        }
      }
    }

    /** `__getitem__` (subclasses.py:78-79) with an integer index, counting
        from the end when negative; out of range is Python's IndexError. */
    function GetItem(idx: int): (r: Option<LatLon>)
      reads this
      ensures r.Some? <==> -|latlonPoints| <= idx < |latlonPoints|
      ensures r.Some? && idx >= 0 ==> r.value == latlonPoints[idx]
      ensures r.Some? && idx < 0 ==> r.value == latlonPoints[|latlonPoints| + idx]
    {
      if 0 <= idx < |latlonPoints| then Some(latlonPoints[idx])
      else if -|latlonPoints| <= idx < 0 then Some(latlonPoints[|latlonPoints| + idx])
      else None
    }
  }

  /** `_parse_state_string` (subclasses.py:298-300): the coastal waters
      become one token, then the text is split at single spaces. */
  function ParseStateString(s: string): seq<string> {
    Split(Replace(s, "AND CSTL WTRS", "CSTL_WTRS"), ' ')
  }

  /** No token holds a space, and joining the tokens with spaces gives the
      text with the coastal waters merged. */
  lemma ParseStateFacts(s: string)
    ensures forall k :: 0 <= k < |ParseStateString(s)| ==> ' ' !in ParseStateString(s)[k]
    ensures Join(ParseStateString(s), ' ') == Replace(s, "AND CSTL WTRS", "CSTL_WTRS")
  {
    var t := Replace(s, "AND CSTL WTRS", "CSTL_WTRS");
    SplitPiecesAvoid(t, ' ');
    JoinSplit(t, ' ');
  }

  /** A list ending in "AND CSTL WTRS" ends in the one token "CSTL_WTRS". */
  lemma ParseStateCoastal(u: string)
    requires 'W' !in u
    ensures ParseStateString(u + " " + "AND CSTL WTRS") == Split(u, ' ') + ["CSTL_WTRS"]
  {
    CoastalNotEarly(u);
    SplitReplacedEnd(u, "AND CSTL WTRS", "CSTL_WTRS");
  }

  /** A last word `pat` that occurs nowhere earlier becomes the one token `rep`. */
  lemma SplitReplacedEnd(u: string, pat: string, rep: string)
    requires pat != [] && ' ' !in rep
    requires forall i :: 0 <= i < |u + " "| ==> !At(u + " " + pat, i, pat)
    ensures Split(Replace(u + " " + pat, pat, rep), ' ') == Split(u, ' ') + [rep]
  {
    ReplaceAtEnd(u + " ", pat, rep);
    assert u + " " + rep == u + [' '] + rep;
    SplitAround(u, rep, ' ');
    SplitNoSep(rep, ' ');
  }

  /** The coastal-waters phrase does not start before its place. */
  lemma CoastalNotEarly(u: string)
    requires 'W' !in u
    ensures forall i :: 0 <= i < |u + " "| ==> !At(u + " " + "AND CSTL WTRS", i, "AND CSTL WTRS")
  {
    forall i | 0 <= i < |u + " "| ensures !At(u + " " + "AND CSTL WTRS", i, "AND CSTL WTRS") {
      NoCoastalBefore(u, i);
    }
  }

  /** The phrase cannot start at `i`: its `W` would fall inside `u`, on the
      space, or on a letter of the phrase other than its `W`. */
  lemma NoCoastalBefore(u: string, i: nat)
    requires 'W' !in u && i <= |u|
    ensures !At(u + " " + "AND CSTL WTRS", i, "AND CSTL WTRS")
  {
    var pat := "AND CSTL WTRS";
    var s := u + " " + pat;
    AtChar(s, i, pat, 9);
    if i + 9 < |u| { assert s[i + 9] == u[i + 9]; }
    else if i + 9 > |u| { assert s[i + 9] == pat[i + 9 - |u| - 1]; }
  }

  /** "MS AL AND CSTL WTRS" lists Mississippi, Alabama and the coastal waters. */
  lemma ParseStateExample()
    ensures ParseStateString("MS AL" + " " + "AND CSTL WTRS") == ["MS", "AL", "CSTL_WTRS"]
  {
    ParseStateCoastal("MS AL");
    assert "MS AL" == "MS" + [' '] + "AL";
    SplitAfterWord("MS", "AL", ' ');
    SplitNoSep("AL", ' ');
  }

  class States {
    var rawString: string
    var states: seq<string>
    var numStates: int
    var iterIdx: int

    /** The iteration counters stay within the list. */
    predicate Valid()
      reads this
    {
      0 <= iterIdx <= numStates <= |states|
    }

    /** `States(state_string)` (subclasses.py:271-274). */
    constructor (stateString: string)
      ensures rawString == stateString && states == ParseStateString(stateString)
      ensures numStates == 0 && iterIdx == 0 && Valid()
    {
      rawString := stateString;
      states := ParseStateString(stateString);
      numStates := 0;
      iterIdx := 0;
    }

    /** `item in states` (subclasses.py:276-280): a scan that stops at the
        first equal element. */
    method Contains(item: string) returns (b: bool)
      ensures b <==> item in states
      ensures b <==> exists k :: 0 <= k < |states| && states[k] == item
    {
      var i := 0;
      while i < |states|
        invariant 0 <= i <= |states|
        invariant item !in states[..i]
      {
        if item == states[i] {
          return true;
        }
        assert states[..i + 1] == states[..i] + [states[i]];
        i := i + 1;
      }
      assert states[..i] == states;
      return false;
    }

    /** `__iter__` (subclasses.py:282-285). */
    method Iter() returns (it: States)
      modifies this
      ensures it == this && numStates == |states| && iterIdx == 0 && Valid()
      ensures rawString == old(rawString) && states == old(states)
    {
      numStates := |states|;
      iterIdx := 0;
      it := this;
    }

    /** `__next__` (subclasses.py:287-293). */
    method Next() returns (r: Option<string>)
      requires Valid()
      modifies this
      ensures Valid() && numStates == old(numStates)
      ensures old(iterIdx) < numStates ==> r == Some(states[old(iterIdx)]) && iterIdx == old(iterIdx) + 1
      ensures old(iterIdx) >= numStates ==> r.None? && iterIdx == old(iterIdx)
      ensures rawString == old(rawString) && states == old(states)
    {
      if iterIdx < numStates {
        r := Some(states[iterIdx]);
        iterIdx := iterIdx + 1;
      } else {
        r := None;
      }
    }

    /** `for state in states`: every state once, in order, then the end. */
    method Elements() returns (out: seq<string>)
      requires Valid()
      modifies this
      ensures out == states && iterIdx == numStates == |states|
      ensures rawString == old(rawString) && states == old(states)
    {
      var _ := Iter();
      out := [];
      var x := Next();
      while x.Some?
        invariant Valid() && numStates == |states|
        invariant rawString == old(rawString) && states == old(states)
        invariant x.Some? ==> 1 <= iterIdx && out + [x.value] == states[..iterIdx]
        invariant x.None? ==> iterIdx == numStates && out == states
        decreases numStates - iterIdx, x.Some?
      {
        out := out + [x.value];
        x := Next();
        if x.None? {
          assert out == states[..iterIdx];
          assert states[..iterIdx] == states;
        }
      }
    }
  }
}
