/** The block splitter of `download` (airmet.py:139-168): the sanitized bulletin
    is cut at its last `=` and split into groups at every `+`; a group holding a
    `*` is the header, and a body group loses a leading "SEE SIGMET ... SERIES"
    span before its fields are extracted. */
module Splitter {
  import opened Wrappers
  import opened PyStr
  import opened Scan

  /** `san[:san.rfind("=")]` (airmet.py:139). */
  function Body(san: string): (r: string)
    ensures r <= san
  {
    SliceTo(san, RFind(san, '='))
  }

  /** `body.split("+")` (airmet.py:142). */
  function Groups(san: string): (r: seq<string>)
    ensures |r| >= 1
  {
    Split(Body(san), '+')
  }

  /** `group.find("*") != -1` (airmet.py:153). */
  predicate IsHeader(g: string) {
    Find(g, "*") != -1
  }

  /** `group.replace("*", "")` (airmet.py:156). */
  function HeaderText(g: string): (r: string)
    ensures '*' !in r
  {
    ReplaceCharRemoves(g, '*', "");
    assert "*" == ['*'];
    Replace(g, "*", "")
  }

  /** Everything after the first `$...$#.` span, when there is one (airmet.py:166-168). */
  function DropSeeSeries(g: string): (r: string)
  {
    match Search(SeeSeries, g)
    case Some(m) => g[m.end..]
    case None => g
  }

  /** The body is the text before the last `=`; without any `=` the `-1` of
      `rfind` makes it the text without its last character. */
  lemma BodyBeforeLastEnd(san: string)
    ensures '=' in san ==> exists k :: (0 <= k < |san| && san[k] == '=' && Body(san) == san[..k]
      && forall j :: k < j < |san| ==> san[j] != '=')
    ensures '=' !in san && san != [] ==> Body(san) == san[..|san| - 1]
    ensures '=' !in Body(san) || Count(san, '=') > 1
  {
    var k := RFind(san, '=');
    if k >= 0 {
      assert Body(san) == san[..k];
      if '=' in Body(san) {
        var j :| 0 <= j < |san[..k]| && san[..k][j] == '=';
        CountTwo(san, j, k, '=');
      }
    }
  }

  /** Rejoining the groups with `+` gives back the body, there is one group more
      than the body has `+`, and no group holds a `+`. */
  lemma GroupsPartitionBody(san: string)
    ensures Join(Groups(san), '+') == Body(san)
    ensures |Groups(san)| == Count(Body(san), '+') + 1
    ensures forall k :: 0 <= k < |Groups(san)| ==> '+' !in Groups(san)[k]
  {
    JoinSplit(Body(san), '+');
    SplitCount(Body(san), '+');
    SplitPiecesAvoid(Body(san), '+');
  }

  /** The header text is the group with every `*` dropped and every other
      character kept, in order; so it holds no `*` and is never longer than
      its group. */
  lemma HeaderTextFacts(g: string)
    ensures HeaderText(g) == FlatMap(g, x => if x == '*' then "" else [x])
    ensures '*' !in HeaderText(g)
    ensures |HeaderText(g)| <= |g|
  {
    assert "*" == ['*'];
    ReplaceCharIsFlatMap(g, '*', "");
    ReplaceCharRemoves(g, '*', "");
    ReplaceShrinks(g, "*", "");
  }

  /** A group is a header exactly when it holds a `*`. */
  lemma IsHeaderIff(g: string)
    ensures IsHeader(g) <==> '*' in g
  {
    if '*' in g {
      var i :| 0 <= i < |g| && g[i] == '*';
      assert At(g, i, "*");
    }
    if IsHeader(g) {
      var i := Find(g, "*");
      assert g[i..i + 1] == "*";
      assert g[i] == '*';
    }
  }

  /** Dropping the series span leaves a suffix of the group: what it drops
      runs from a `$` to the end of a `$#.`. */
  lemma DropSeeSeriesFacts(g: string)
    ensures |DropSeeSeries(g)| <= |g| && DropSeeSeries(g) == g[|g| - |DropSeeSeries(g)|..]
    ensures Search(SeeSeries, g).Some? ==>
      var m := Search(SeeSeries, g).value;
      m.start + 5 <= m.end <= |g| && g[m.start] == '$' && g[m.end - 3..m.end] == "$#."
      && DropSeeSeries(g) == g[m.end..]
  {
    match Search(SeeSeries, g)
    case Some(m) => SeeSeriesShape(g, m.start, m.end);
    case None =>
  }

  /** A `$…$#.` match opens with `$` and closes with `$#.`. */
  lemma SeeSeriesShape(g: string, i: nat, e: nat)
    requires i <= |g| && MatchAt(SeeSeries, g, i) == Some(e)
    ensures i + 5 <= e <= |g| && g[i] == '$' && g[e - 3..e] == "$#."
  {
    var n := RunLength(g, i + 1, c => IsWord(c) || IsSpace(c));
    assert e == i + n + 4;
    assert At(g, i + 1 + n, "$#.");
  }
}
