/** The "distance, compass point, identifier" split of a reference such as
    "40ESE YDC", written out the same way in `_add_poly_to_kml`
    (airmet.py:405-420) and in `Bounds.__init__` (subclasses.py:50-60). */
module Offsets {
  import opened PyStr
  import opened Scan

  /** The identifier to look up and the `dir_args` list: empty for a bare
      identifier, else the distance and the compass text. */
  datatype Offset = Offset(id: string, dirArgs: seq<string>)

  /** Cut at spaces; the first token's leading `\d*` is the distance and the
      rest of it the compass text, both stripped; the second token is the id. */
  function SplitOffset(vor: string): (r: Offset)
    ensures r.dirArgs == [] <==> ' ' !in vor
    ensures r.dirArgs == [] ==> r.id == vor
    ensures r.dirArgs != [] ==> |r.dirArgs| == 2 && ' ' !in r.id
  {
    if ' ' in vor then
      SplitAtLeastTwo(vor, ' ');
      SplitPiecesAvoid(vor, ' ');
      var parts := Split(vor, ' ');
      var n := RunLength(parts[0], 0, IsDigit);
      Offset(parts[1], [Strip(parts[0][..n]), Strip(parts[0][n..])])
    else Offset(vor, [])
  }

  predicate NoSpace(s: string) {
    forall k :: 0 <= k < |s| ==> !IsSpace(s[k])
  }

  /** A bare identifier is looked up as it is. With a space, the id is the
      second token and the distance is the digits the first token opens
      with; when that token holds no other whitespace the distance followed
      by the compass text is the whole token, and the compass text does not
      open with a digit. */
  lemma OffsetFacts(vor: string)
    ensures ' ' !in vor ==> SplitOffset(vor) == Offset(vor, [])
    ensures ' ' in vor ==>
      var tok := Split(vor, ' ');
      var r := SplitOffset(vor);
      |tok| >= 2 && r.id == tok[1] && |r.dirArgs| == 2 && AllDigits(r.dirArgs[0]) && r.dirArgs[0] <= tok[0]
      && (NoSpace(tok[0]) ==>
        r.dirArgs[0] + r.dirArgs[1] == tok[0] && (r.dirArgs[1] != [] ==> !IsDigit(r.dirArgs[1][0])))
  {
    if ' ' in vor {
      SplitAtLeastTwo(vor, ' ');
      TokenParts(Split(vor, ' ')[0]);
    }
  }

  /** The two parts of a first token. */
  lemma TokenParts(t: string)
    ensures var n := RunLength(t, 0, IsDigit);
      var d := Strip(t[..n]);
      var c := Strip(t[n..]);
      d == t[..n] && AllDigits(d)
      && (NoSpace(t) ==> d + c == t && (c != [] ==> !IsDigit(c[0])))
  {
    var n := RunLength(t, 0, IsDigit);
    assert AllDigits(t[..n]);
    StripNoSpace(t[..n]);
    if NoSpace(t) {
      var c := t[n..];
      assert c != [] ==> c[0] == t[n] && c[|c| - 1] == t[|t| - 1];
      StripNoSpace(c);
      assert t[..n] + c == t;
    }
  }

  /** Digits, compass text, a space and an id. */
  lemma OffsetOf(d: string, c: string, id: string)
    requires AllDigits(d) && c != [] && !IsDigit(c[0]) && NoSpace(c) && NoSpace(id)
    ensures SplitOffset(d + c + " " + id) == Offset(id, [d, c])
  {
    var t := d + c;
    var s := t + " " + id;
    assert s[|t|] == ' ';
    assert Split(s, ' ') == [t, id] by { TwoTokens(d, c, id); }
    assert RunLength(t, 0, IsDigit) == |d| by { RunLengthIs(t, 0, IsDigit, |d|); }
    assert t[..|d|] == d && t[|d|..] == c;
    assert Strip(d) == d && Strip(c) == c by { StripNoSpace(d); StripNoSpace(c); }
  }

  lemma TwoTokens(d: string, c: string, id: string)
    requires AllDigits(d) && NoSpace(c) && NoSpace(id)
    ensures Split(d + c + " " + id, ' ') == [d + c, id]
  {
    var t := d + c;
    assert ' ' !in t by {
      forall k | 0 <= k < |t| ensures t[k] != ' ' {
        if k < |d| { assert IsDigit(d[k]); } else { assert t[k] == c[k - |d|]; }
      }
    }
    assert ' ' !in id by { forall k | 0 <= k < |id| ensures id[k] != ' ' { assert !IsSpace(id[k]); } }
    SplitNoSep(id, ' ');
    SplitAfterWord(t, id, ' ');
    assert t + [' '] + id == d + c + " " + id;
  }

  /** "40ESE YDC" is 40 nautical miles east-south-east of YDC. */
  lemma OffsetExample()
    ensures SplitOffset("40" + "ESE" + " " + "YDC") == Offset("YDC", ["40", "ESE"])
    ensures SplitOffset("YDC") == Offset("YDC", [])
  {
    OffsetOf("40", "ESE", "YDC");
  }
}
