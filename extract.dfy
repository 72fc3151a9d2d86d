/** The last two extractors of a body group: `_pop_description`
    (airmet.py:709-717) takes the free text after the last `$`, and
    `_pop_qualifiers` (airmet.py:719-729) splits what is left into tags. */
module Extract {
  import opened PyStr

  /** The text before the description, and the description. */
  datatype Described = Described(rest: string, desc: string)

  /** `_pop_description`: with `p = text.rfind("$")`, the description is
      `text[p+1:]` with line breaks as spaces and the remainder is `text[:p]`. */
  function PopDescription(text: string): Described {
    var p := RFind(text, '$');
    Described(SliceTo(text, p), Replace(SliceFrom(text, p + 1), "#", " "))
  }

  /** With a `$` in the text, the remainder is exactly the text before the
      last one and the description is what follows it, line breaks as spaces. */
  lemma PopDescriptionSplits(text: string)
    requires '$' in text
    ensures var p := RFind(text, '$');
      PopDescription(text) == Described(text[..p], Replace(text[p + 1..], "#", " "))
  {
    var p := RFind(text, '$');
    assert PyIndex(|text|, p) == p && PyIndex(|text|, p + 1) == p + 1;
  }

  /** Without a `$` the description is the whole text, and since `rfind`
      gave `-1` the remainder is the text without its last character. */
  lemma PopDescriptionNoMarker(text: string)
    requires '$' !in text
    ensures PopDescription(text).desc == Replace(text, "#", " ")
    ensures PopDescription(text).rest == (if text == [] then [] else text[..|text| - 1])
  {
    assert RFind(text, '$') == -1;
    assert PyIndex(|text|, 0) == 0;
  }

  /** The description never holds a `$` or a `#`. */
  lemma PopDescriptionClean(text: string)
    ensures '$' !in PopDescription(text).desc && '#' !in PopDescription(text).desc
  {
    var tail := SliceFrom(text, RFind(text, '$') + 1);
    var desc := Replace(tail, "#", " ");
    assert PopDescription(text).desc == desc;
    assert '#' !in desc by { ReplaceCharRemoves(tail, '#', " "); }
    assert '$' !in desc by {
      TailUnmarked(text);
      if '$' in desc { ReplaceChars(tail, "#", " ", '$'); }
    }
  }

  /** What follows the last `$` holds none, and so does the whole text when
      there is no `$`. */
  lemma TailUnmarked(text: string)
    ensures '$' !in SliceFrom(text, RFind(text, '$') + 1)
  {
    var p := RFind(text, '$');
    var tail := SliceFrom(text, p + 1);
    if p >= 0 {
      assert tail == text[p + 1..] by { PopDescriptionSplits(text); }
      forall i | 0 <= i < |tail| ensures tail[i] != '$' { assert tail[i] == text[p + 1 + i]; }
    } else {
      assert tail == text by { PopDescriptionNoMarker(text); }
    }
  }

  /** `_pop_qualifiers`: nothing for empty text; otherwise one leading `#` or
      space is dropped and the rest is split at every `#`. */
  function PopQualifiers(text: string): seq<string> {
    if text == [] then []
    else Split(if text[0] == '#' || text[0] == ' ' then text[1..] else text, '#')
  }

  /** No tag holds a `#`, and rejoining the tags with `#` gives back the text
      without its one dropped leading character. */
  lemma PopQualifiersFacts(text: string)
    ensures text == [] <==> PopQualifiers(text) == []
    ensures forall k :: 0 <= k < |PopQualifiers(text)| ==> '#' !in PopQualifiers(text)[k]
    ensures text != [] ==>
      Join(PopQualifiers(text), '#') == (if text[0] == '#' || text[0] == ' ' then text[1..] else text)
  {
    if text != [] {
      var t := if text[0] == '#' || text[0] == ' ' then text[1..] else text;
      SplitPiecesAvoid(t, '#');
      JoinSplit(t, '#');
    }
  }

  /** Two tags after a leading line break. */
  lemma PopQualifiersOf(u: string, v: string)
    requires '#' !in u && '#' !in v
    ensures PopQualifiers("#" + (u + "#" + v)) == [u, v]
  {
    var t := u + "#" + v;
    assert ("#" + t)[0] == '#' && ("#" + t)[1..] == t;
    SplitNoSep(v, '#');
    SplitAfterWord(u, v, '#');
  }

  /** Examples: nothing for empty text; a leading line break is dropped
      before the split. */
  lemma PopQualifiersExample()
    ensures PopQualifiers("") == []
    ensures PopQualifiers("#" + ("MTN OBSCN" + "#" + "FRZLVL")) == ["MTN OBSCN", "FRZLVL"]
  {
    PopQualifiersOf("MTN OBSCN", "FRZLVL");
  }

  /** The description of `pre + "$" + u + "#" + v`, with no `$` after the
      marker and no `#` in `u` or `v`. */
  lemma PopDescriptionOf(pre: string, u: string, v: string)
    requires '$' !in u && '$' !in v && '#' !in u && '#' !in v
    ensures PopDescription(pre + "$" + u + "#" + v) == Described(pre, u + " " + v)
  {
    var text := pre + "$" + u + "#" + v;
    var k := |pre|;
    assert RFind(text, '$') == k by { LastMarker(pre, u, v); }
    PopDescriptionSplits(text);
    assert text[..k] == pre;
    assert text[k + 1..] == u + ['#'] + v;
    assert Replace(u + ['#'] + v, "#", " ") == u + " " + v by {
      ReplaceAround(u, v, '#', " ");
      ReplaceMissing(v, "#", " ", '#');
    }
  }

  /** The `$` after `pre` is the last one. */
  lemma LastMarker(pre: string, u: string, v: string)
    requires '$' !in u && '$' !in v
    ensures RFind(pre + "$" + u + "#" + v, '$') == |pre|
  {
    LastOf(pre, '$', u, '#', v);
  }

  /** A `c` followed only by text without one is the last `c`. */
  lemma LastOf(pre: string, c: char, u: string, d: char, v: string)
    requires c !in u && c !in v && d != c
    ensures RFind(pre + [c] + u + [d] + v, c) == |pre|
  {
    var text := pre + [c] + u + [d] + v;
    var k := |pre|;
    forall j | k < j < |text| ensures text[j] != c { AfterMarker(pre, c, u, d, v, j); }
    assert text[k] == c by { MarkerAt(pre, c, u, d, v); }
    RFindIs(text, c, k);
  }

  lemma MarkerAt(pre: string, c: char, u: string, d: char, v: string)
    ensures (pre + [c] + u + [d] + v)[|pre|] == c
  {
    var a := pre + [c];
    assert (a + u + [d] + v)[|pre|] == a[|pre|];
  }

  /** Each character after the marker comes from `u`, is `d`, or comes from `v`. */
  lemma AfterMarker(pre: string, c: char, u: string, d: char, v: string, j: int)
    requires c !in u && c !in v && d != c
    requires |pre| < j < |pre| + |u| + |v| + 2
    ensures (pre + [c] + u + [d] + v)[j] != c
  {
    var a := pre + [c] + u;
    var b := a + [d];
    if j < |a| {
      assert (b + v)[j] == b[j] == a[j];
      assert a[j] == u[j - |pre| - 1];
    } else if j == |a| {
      assert (b + v)[j] == b[j] == d;
    } else {
      assert (b + v)[j] == v[j - |b|];
    }
  }

  /** Example: the description after the last `$`, with its line breaks as spaces. */
  lemma PopDescriptionExample()
    ensures PopDescription("#MTN" + "$" + "CIG BLW 010" + "#" + "VIS BLW 3SM")
      == Described("#MTN", "CIG BLW 010" + " " + "VIS BLW 3SM")
  {
    PopDescriptionOf("#MTN", "CIG BLW 010", "VIS BLW 3SM");
  }
}
