/**
  `search_homebrew_cask`: reading the output of `brew search --cask` and
  picking one cask from it. The output is an argument here; running the
  command belongs to the caller. A listing is the text after the
  "==> Casks" heading, trimmed and cut into lines; the choice prefers a line
  equal to the name up to case (and up to dashes), then a sole line, then
  the line most similar to the name if its similarity exceeds 0.6.
*/
module CaskSearch {
  import opened Options
  import opened RubyString
  import opened Levenshtein

  /** The heading in front of the cask section of `brew search` output. */
  const Marker: string := "==> Casks"

  /** What the search stage gives back: a cask, nothing (`nil`), or an
      exception escaping the method. */
  datatype SearchResult = Found(cask: string) | NotFound | Raised

  /** The outcome of reading the output: no cask section at all, a section
      whose text cannot be taken (`split(...).last` is `nil`, and calling
      `strip` on it raises), or the candidate lines. */
  datatype Listing = NoSection | Unreadable | Section(casks: seq<string>)

  /** `include?`, then `split(Marker).last.strip.split("\n")`. */
  function ParseListing(output: string): (r: Listing)
    ensures r.NoSection? <==> !Contains(output, Marker)
    ensures r.Section? ==> forall k :: 0 <= k < |r.casks| ==> !Contains(r.casks[k], "\n")
  {
    if !Contains(output, Marker) then NoSection
    else
      var fields := Split(output, Marker);
      if |fields| == 0 then Unreadable
      else Section(Split(Strip(fields[|fields| - 1]), "\n"))
  }

  /** Two occurrences of the heading never overlap. */
  lemma MarkerNoSelfOverlap(s: string, i: nat, j: nat)
    requires OccursAt(s, Marker, i) && OccursAt(s, Marker, j) && i < j
    ensures i + |Marker| <= j
  {
    assert s[j..j + |Marker|] == Marker;
    assert s[j] == '=' && s[j + 1] == '=';
    assert forall k :: i <= k < i + |Marker| ==> s[k] == s[i..i + |Marker|][k - i];
  }

  /** The heading occurs where it was put. */
  lemma MarkerBetween(q: string, f: string)
    ensures OccursAt(q + Marker + f, Marker, |q|)
    ensures Contains(q + Marker + f, Marker)
  {
    var s := q + Marker + f;
    assert s[|q|..|q| + |Marker|] == Marker;
    assert 0 <= |q| <= |s| - |Marker| && OccursAt(s, Marker, |q|);
  }

  /** The last field of the split is whatever follows the last heading. */
  lemma {:induction false} LastFieldAfterLastMarker(q: string, f: string)
    requires !Contains(f, Marker)
    ensures var r := SplitFields(q + Marker + f, Marker); r[|r| - 1] == f
    decreases |q|
  {
    var s := q + Marker + f;
    var i := LeftmostMarker(q, f);
    SplitFieldsAt(s, Marker, i);
    if i == |q| {
      assert s[i + |Marker|..] == f;
      SplitFieldsAbsent(f, Marker);
    } else {
      var q' := q[i + |Marker|..];
      assert s[i + |Marker|..] == q' + Marker + f;
      LastFieldAfterLastMarker(q', f);
    }
  }

  /** The leftmost heading in `q + Marker + f` is the one shown or lies
      wholly inside `q`. */
  lemma LeftmostMarker(q: string, f: string) returns (i: nat)
    ensures IndexFrom(q + Marker + f, Marker, 0) == Some(i)
    ensures i == |q| || i + |Marker| <= |q|
  {
    var s := q + Marker + f;
    MarkerBetween(q, f);
    var idx := IndexFrom(s, Marker, 0);
    assert idx.Some?;
    i := idx.value;
    if i != |q| {
      MarkerNoSelfOverlap(s, i, |q|);
    }
  }

  /** Ruby's split keeps the text after the last heading as its last field
      when that text is not empty. */
  lemma SplitAfterLastMarker(q: string, f: string)
    requires f != [] && !Contains(f, Marker)
    ensures var r := Split(q + Marker + f, Marker); |r| > 0 && r[|r| - 1] == f
  {
    LastFieldAfterLastMarker(q, f);
    var fields := SplitFields(q + Marker + f, Marker);
    assert DropTrailingEmpty(fields) == fields;
  }

  /** With some text after the last heading, the candidates are exactly the
      lines of that text once trimmed: joined back they give the trimmed text,
      and none holds a line break. */
  lemma SectionAfterLastMarker(q: string, f: string)
    requires f != [] && !Contains(f, Marker)
    ensures ParseListing(q + Marker + f) == Section(Split(Strip(f), "\n"))
    ensures Join(ParseListing(q + Marker + f).casks, "\n") == Strip(f)
  {
    MarkerBetween(q, f);
    SplitAfterLastMarker(q, f);
    var t := Strip(f);
    if t != [] {
      assert t[|t| - 1] != '\n';
    }
    SplitJoinRoundTrip(t, "\n");
  }

  /** The usual shape of the output: the heading, then one cask per line. */
  lemma ListingOfLines(lines: seq<string>, body: string)
    requires forall k :: 0 <= k < |lines| ==> '\n' !in lines[k]
    requires lines != [] && lines[|lines| - 1] != []
    requires body == Join(lines, "\n")
    requires body != [] && !IsStripSpace(body[0]) && !IsStripSpace(body[|body| - 1]) && '=' !in body
    ensures ParseListing(Marker + "\n" + body + "\n") == Section(lines)
  {
    ParseFramed(body);
    StripAround("\n", body, "\n");
    SplitOfJoin(lines, '\n');
  }

  /** Text between line breaks after the heading is the section read. */
  lemma ParseFramed(body: string)
    requires '=' !in body
    ensures ParseListing(Marker + "\n" + body + "\n") == Section(Split(Strip("\n" + body + "\n"), "\n"))
  {
    var f := "\n" + body + "\n";
    assert '=' !in f;
    AbsentFirstChar(f, Marker);
    assert Marker + "\n" + body + "\n" == [] + Marker + f;
    SectionAfterLastMarker([], f);
  }

  /** Output consisting of the bare heading makes the matcher raise. */
  lemma BareHeadingUnreadable()
    ensures ParseListing(Marker) == Unreadable
  {
    assert OccursAt(Marker, Marker, 0);
    assert Marker[0..|Marker|] == Marker;
    assert IndexFrom(Marker, Marker, 0) == Some(0);
    assert Marker[|Marker|..] == [];
    assert IndexFrom([], Marker, 0) == None;
    assert SplitFields(Marker, Marker) == [[], []];
  }

  /** The candidate equals the name ignoring case, or does once its dashes
      are read as spaces. */
  predicate IsExactMatch(cask: string, name: string) {
    Downcase(cask) == Downcase(name) || ReplaceDashes(Downcase(cask)) == Downcase(name)
  }

  /** `Enumerable#find` from position `from`: the first exact match. */
  function FirstExact(casks: seq<string>, name: string, from: nat): (r: Option<nat>)
    requires from <= |casks|
    ensures r.Some? ==> from <= r.value < |casks| && IsExactMatch(casks[r.value], name)
    ensures forall k :: from <= k < |casks| && (r.None? || k < r.value) ==> !IsExactMatch(casks[k], name)
    decreases |casks| - from
  {
    if from == |casks| then None
    else if IsExactMatch(casks[from], name) then Some(from)
    else FirstExact(casks, name, from + 1)
  }

  /** Similarity is defined unless both strings are empty; then Ruby divides
      zero by zero. */
  predicate Scorable(cask: string, name: string) {
    |cask| > 0 || |name| > 0
  }

  /** `calculate_similarity`: one minus the edit distance between the
      lowered, dash-free candidate and the lowered name, relative to the
      longer of the two. */
  function Similarity(cask: string, name: string): (r: real)
    requires Scorable(cask, name)
    ensures 0.0 <= r <= 1.0
    ensures r == 1.0 <==> ReplaceDashes(Downcase(cask)) == Downcase(name)
  {
    var a := ReplaceDashes(Downcase(cask));
    var b := Downcase(name);
    DistanceUpperBound(a, b);
    DistanceZeroIffEqual(a, b);
    RatioBounds(Distance(a, b) as real, Max(|a|, |b|) as real);
    1.0 - (Distance(a, b) as real) / (Max(|a|, |b|) as real)
  }

  lemma RatioBounds(d: real, m: real)
    requires 0.0 <= d <= m && 0.0 < m
    ensures 0.0 <= d / m <= 1.0
    ensures d / m == 0.0 <==> d == 0.0
  {
  }

  /** The comparand pair of `Similarity`: lowered candidate with dashes read
      as spaces, and the lowered name. */
  function Compared(cask: string, name: string): (string, string) {
    (ReplaceDashes(Downcase(cask)), Downcase(name))
  }

  /** The 0.6 threshold in whole numbers: a score exceeds it exactly when five
      times the distance is below twice the longer length. */
  lemma SimilarityThreshold(cask: string, name: string)
    requires Scorable(cask, name)
    ensures var (a, b) := Compared(cask, name);
      Similarity(cask, name) > 0.6 <==> 5 * Distance(a, b) < 2 * Max(|a|, |b|)
  {
    var (a, b) := Compared(cask, name);
    ThresholdRatio(Distance(a, b) as real, Max(|a|, |b|) as real);
  }

  lemma ThresholdRatio(d: real, m: real)
    requires 0.0 < m
    ensures 1.0 - d / m > 0.6 <==> 5.0 * d < 2.0 * m
  {
    assert d / m * m == d;
  }

  /** A blank line of the listing never scores: its similarity is zero. */
  lemma BlankLineScoresZero(name: string)
    requires name != []
    ensures Similarity([], name) == 0.0
  {
    DistanceFromEmpty(Downcase(name));
    assert ReplaceDashes(Downcase([])) == [];
  }

  /** Where no line matches exactly, every line can be scored: an empty line
      would equal an empty name. */
  lemma NoExactMeansScorable(casks: seq<string>, name: string)
    requires forall k :: 0 <= k < |casks| ==> !IsExactMatch(casks[k], name)
    ensures forall k :: 0 <= k < |casks| ==> Scorable(casks[k], name)
  {
    forall k | 0 <= k < |casks|
      ensures Scorable(casks[k], name)
    {
      if casks[k] == [] {
        assert !IsExactMatch([], name);
      }
    }
  }

  /** Line `k` scores at least as well as every line. */
  ghost predicate IsBest(casks: seq<string>, name: string, k: int) {
    0 <= k < |casks| && Scorable(casks[k], name)
    && forall j :: 0 <= j < |casks| ==>
         Scorable(casks[j], name) && Similarity(casks[j], name) <= Similarity(casks[k], name)
  }

  /** The first of the best-scoring lines. Ruby's `sort_by!` is not stable,
      so which of several equal scores comes first is not fixed; this choice
      is one of the admissible ones. */
  function BestIndex(casks: seq<string>, name: string): (r: nat)
    requires |casks| > 0
    requires forall k :: 0 <= k < |casks| ==> Scorable(casks[k], name)
    ensures IsBest(casks, name, r)
    decreases |casks|
  {
    if |casks| == 1 then 0
    else
      var b := BestIndex(casks[..|casks| - 1], name);
      var r := if Similarity(casks[|casks| - 1], name) > Similarity(casks[b], name) then |casks| - 1 else b;
      BestOfLonger(casks, name, b, r);
      r
  }

  /** A best line of all but the last line, compared with the last line,
      gives a best line of all of them. */
  lemma BestOfLonger(casks: seq<string>, name: string, b: nat, r: nat)
    requires |casks| > 1
    requires forall k :: 0 <= k < |casks| ==> Scorable(casks[k], name)
    requires IsBest(casks[..|casks| - 1], name, b)
    requires r == if Similarity(casks[|casks| - 1], name) > Similarity(casks[b], name) then |casks| - 1 else b
    ensures IsBest(casks, name, r)
  {
    var front := casks[..|casks| - 1];
    assert casks[b] == front[b];
    forall j | 0 <= j < |casks|
      ensures Similarity(casks[j], name) <= Similarity(casks[r], name)
    {
      if j < |front| {
        assert casks[j] == front[j];
      }
    }
  }

  /** Every answer `search_homebrew_cask` may give for the candidate lines:
      the first exact match if any; else the sole line; else, with no line at
      all, an exception; else a best-scoring line if its score exceeds 0.6,
      and nothing otherwise. */
  ghost predicate AllowedChoice(casks: seq<string>, name: string, r: SearchResult) {
    if exists k :: 0 <= k < |casks| && IsExactMatch(casks[k], name) then
      exists k :: 0 <= k < |casks| && IsExactMatch(casks[k], name)
        && (forall j :: 0 <= j < k ==> !IsExactMatch(casks[j], name))
        && r == Found(casks[k])
    else if |casks| == 1 then r == Found(casks[0])
    else if |casks| == 0 then r == Raised
    else if exists k :: IsBest(casks, name, k) && Similarity(casks[k], name) > 0.6 then
      exists k :: IsBest(casks, name, k) && Similarity(casks[k], name) > 0.6 && r == Found(casks[k])
    else r == NotFound
  }

  /** The selection of lines 106-127, taking the first of equal best scores. */
  function ChooseCask(casks: seq<string>, name: string): (r: SearchResult)
    ensures AllowedChoice(casks, name, r)
    ensures r.Found? ==> r.cask in casks
  {
    match FirstExact(casks, name, 0)
    case Some(k) => Found(casks[k])
    case None =>
      if |casks| == 1 then Found(casks[0])
      else if |casks| == 0 then Raised
      else
        NoExactMeansScorable(casks, name);
        var b := BestIndex(casks, name);
        if Similarity(casks[b], name) > 0.6 then Found(casks[b]) else NotFound
  }

  /** The admissible answers differ only in which of equally scored lines is
      returned: the kind of answer is fixed, and so is the score. */
  lemma AllowedChoiceDeterminesVerdict(casks: seq<string>, name: string, r1: SearchResult, r2: SearchResult)
    requires AllowedChoice(casks, name, r1) && AllowedChoice(casks, name, r2)
    ensures r1.Found? == r2.Found? && r1.NotFound? == r2.NotFound? && r1.Raised? == r2.Raised?
    ensures r1 != r2 ==>
      exists i, j :: IsBest(casks, name, i) && IsBest(casks, name, j) && r1 == Found(casks[i]) && r2 == Found(casks[j])
  {
    if exists k :: 0 <= k < |casks| && IsExactMatch(casks[k], name) {
      var k1 :| 0 <= k1 < |casks| && IsExactMatch(casks[k1], name)
        && (forall j :: 0 <= j < k1 ==> !IsExactMatch(casks[j], name)) && r1 == Found(casks[k1]);
      var k2 :| 0 <= k2 < |casks| && IsExactMatch(casks[k2], name)
        && (forall j :: 0 <= j < k2 ==> !IsExactMatch(casks[j], name)) && r2 == Found(casks[k2]);
      assert IsExactMatch(casks[k1], name) && IsExactMatch(casks[k2], name);
      assert k1 == k2;
    }
  }

  /** `search_homebrew_cask` given the text the `brew search` command
      printed. */
  function SearchHomebrewCask(name: string, output: string): (r: SearchResult)
    ensures !Contains(output, Marker) ==> r == NotFound
    ensures r.Found? ==> ParseListing(output).Section? && r.cask in ParseListing(output).casks
    ensures ParseListing(output).Unreadable? ==> r == Raised
    ensures ParseListing(output).Section? ==> AllowedChoice(ParseListing(output).casks, name, r)
  {
    match ParseListing(output)
    case NoSection => NotFound
    case Unreadable => Raised
    case Section(casks) => ChooseCask(casks, name)
  }

  /** A line at most three fifths as long as the name scores at most 0.6. */
  lemma ShortLineScoresLow(cask: string, name: string)
    requires Scorable(cask, name) && 5 * |cask| <= 3 * |name|
    ensures Similarity(cask, name) <= 0.6
  {
    var (a, b) := Compared(cask, name);
    DistanceLowerBound(a, b);
    SimilarityThreshold(cask, name);
  }

  /** Several lines, none exact and none scoring above 0.6: nothing is chosen. */
  lemma NothingChosenBelowThreshold(casks: seq<string>, name: string)
    requires |casks| >= 2
    requires forall k :: 0 <= k < |casks| ==> !IsExactMatch(casks[k], name)
    requires forall k :: 0 <= k < |casks| ==> Scorable(casks[k], name) && Similarity(casks[k], name) <= 0.6
    ensures ChooseCask(casks, name) == NotFound
  {
    assert FirstExact(casks, name, 0) == None;
  }

  /** An exact match wins even when a longer line follows. */
  lemma ChooseFooEditor()
    ensures ChooseCask(["foo-editor", "foo-editor-pro"], "Foo Editor") == Found("foo-editor")
  {
    FooEditorIsExact();
    assert FirstExact(["foo-editor", "foo-editor-pro"], "Foo Editor", 0) == Some(0);
  }

  lemma FooEditorIsExact()
    ensures IsExactMatch("foo-editor", "Foo Editor")
  {
    assert Downcase("Foo Editor") == "foo editor";
    assert Downcase("foo-editor") == "foo-editor";
    assert ReplaceDashes("foo-editor") == "foo editor";
  }

  /** A sole line is taken whatever its score. */
  lemma ChooseBarTool()
    ensures ChooseCask(["bar-tool"], "Bar Tool Suite") == Found("bar-tool")
  {
    assert |Downcase("bar-tool")| != |Downcase("Bar Tool Suite")|;
    assert !IsExactMatch("bar-tool", "Bar Tool Suite");
  }

  /** Two lines far shorter than the name: no match. */
  lemma ChooseNothingForBarToolSuite()
    ensures ChooseCask(["bar", "tool"], "Bar Tool Suite") == NotFound
  {
    var casks := ["bar", "tool"];
    var name := "Bar Tool Suite";
    forall k | 0 <= k < |casks|
      ensures !IsExactMatch(casks[k], name) && Scorable(casks[k], name) && Similarity(casks[k], name) <= 0.6
    {
      assert |Downcase(casks[k])| != |Downcase(name)|;
      ShortLineScoresLow(casks[k], name);
    }
    NothingChosenBelowThreshold(casks, name);
  }

  /** An empty listing makes the matcher raise instead of answering. */
  lemma ChooseFromNothingRaises(name: string)
    ensures ChooseCask([], name) == Raised
  {
  }
}
