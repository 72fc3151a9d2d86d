/** The lookup tables at the top of airmet.py and its `str_to_bool` helper. */
module Tables {
  import opened Wrappers

  /** The sixteen compass points, clockwise from north. */
  const Points: seq<string> :=
    ["N", "NNE", "NE", "ENE", "E", "ESE", "SE", "SSE",
     "S", "SSW", "SW", "WSW", "W", "WNW", "NW", "NNW"]

  /** `DEF_CARDINAL_DIR_TO_DEG_DICT` (airmet.py:25-42), in tenths of a degree
      so that the half degrees stay exact. */
  const CardinalTenths: map<string, nat> := map[
    "N" := 0, "NNE" := 225, "NE" := 450, "ENE" := 675,
    "E" := 900, "ESE" := 1125, "SE" := 1350, "SSE" := 1575,
    "S" := 1800, "SSW" := 2025, "SW" := 2250, "WSW" := 2475,
    "W" := 2700, "WNW" := 2925, "NW" := 3150, "NNW" := 3375]

  /** `DEF_CARDINAL_DIR_TO_DEG_DICT.get(cardinal)` (airmet.py:470). */
  function Bearing(card: string): (r: Option<nat>)
    ensures r.Some? <==> card in CardinalTenths
  {
    if card in CardinalTenths then Some(CardinalTenths[card]) else None
  }

  /** The `k`-th point clockwise is `k` sixteenths of a turn. */
  lemma CompassRose()
    ensures |Points| == 16
    ensures forall k :: 0 <= k < 16 ==> Bearing(Points[k]) == Some(225 * k)
  {
  }

  /** The table names exactly the sixteen points. */
  lemma CompassDomain()
    ensures forall c :: c in CardinalTenths <==> c in Points
  {
  }

  /** The sixteen points are different names. */
  lemma CompassDistinct()
    ensures forall i, j :: 0 <= i < j < |Points| ==> Points[i] != Points[j]
  {
  }

  /** Every bearing is a whole number of sixteenths below a full turn. */
  lemma BearingRange(c: string)
    ensures Bearing(c).Some? ==> Bearing(c).value < 3600 && exists k :: 0 <= k < 16 && Bearing(c).value == 225 * k
  {
    if Bearing(c).Some? {
      CompassDomain();
      CompassRose();
      var k :| 0 <= k < 16 && Points[k] == c;
      assert Bearing(c).value == 225 * k;
    }
  }

  /** `DEF_AIRMET_TYPE_TO_COND_DICT` (airmet.py:44-48): the AIRMET series
      and the hazard it reports. */
  const TypeCondition: map<string, string> := map["SIERRA" := "IFR", "TANGO" := "TURB", "ZULU" := "ICE"]

  /** `DEF_AIRMET_TYPE_TO_COND_DICT.get(airmet_type)` (airmet.py:276). */
  function ConditionOf(airmetType: string): (r: Option<string>)
    ensures r.Some? <==> airmetType in {"SIERRA", "TANGO", "ZULU"}
  {
    if airmetType in TypeCondition then Some(TypeCondition[airmetType]) else None
  }

  /** Each series reports its own hazard: no two share one. */
  lemma ConditionsDistinct()
    ensures ConditionOf("SIERRA") == Some("IFR")
    ensures ConditionOf("TANGO") == Some("TURB")
    ensures ConditionOf("ZULU") == Some("ICE")
    ensures forall a, b :: ConditionOf(a).Some? && ConditionOf(a) == ConditionOf(b) ==> a == b
  {
  }

  /** What `kwargs.get(...)` can hand to `str_to_bool`. */
  datatype Arg = Text(s: string) | Flag(b: bool) | Number(n: int) | Absent

  const TrueWords: seq<string> := ["true", "True", "TRUE", "t", "T", "yes", "Yes", "YES", "y", "Y"]
  const FalseWords: seq<string> := ["false", "False", "FALSE", "f", "F", "no", "No", "NO", "n", "N"]

  /** `str_to_bool` (airmet.py:52-58): membership in the list of true
      spellings, where the list also holds `True` and so, by Python's
      equality, the integer 1; everything else falls back to false. */
  function StrToBool(a: Arg): bool {
    match a
    case Text(s) => s in TrueWords
    case Flag(b) => b
    case Number(n) => n == 1
    case Absent => false
  }

  /** ASCII lower case. */
  function LowerChar(c: char): char {
    if 'A' <= c <= 'Z' then (c as int + 32) as char else c
  }

  /** ASCII lower case of a whole string; used only to state which spellings
      `StrToBool` accepts (the decoder itself never lower-cases). */
  function Lower(s: string): string {
    seq(|s|, k requires 0 <= k < |s| => LowerChar(s[k]))
  }

  /** The true spellings are "true", "t", "yes" and "y" in lower, title or
      upper case; mixed case such as "tRUE" is false. */
  lemma StrToBoolSpellings(s: string)
    ensures StrToBool(Text(s)) ==> Lower(s) in ["true", "t", "yes", "y"]
    ensures !StrToBool(Text("tRUE")) && !StrToBool(Text("1"))
  {
    if StrToBool(Text(s)) {
      if |s| == 4 { assert Lower(s) == "true"; }
      else if |s| == 3 { assert Lower(s) == "yes"; }
      else if s[0] == 't' || s[0] == 'T' { assert Lower(s) == "t"; }
      else { assert Lower(s) == "y"; }
    }
  }

  /** No spelling is on both lists, every false spelling and a missing
      keyword give false, and a boolean converts to itself. */
  lemma StrToBoolFallback()
    ensures forall w :: w in TrueWords ==> w !in FalseWords
    ensures forall w :: w in FalseWords ==> !StrToBool(Text(w))
    ensures !StrToBool(Absent) && !StrToBool(Number(0))
    ensures forall b :: StrToBool(Flag(b)) == b
  {
  }
}
