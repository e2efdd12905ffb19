/**
  `AppMatcher#find_matching_cask`: from the name of an installed application
  to a Homebrew cask. The name is cleaned; a cleaned name on the exclusion
  list is skipped; a name in the built-in table of well-known applications is
  answered from the table; any other name is looked up with
  `brew search --cask`, whose printed output is a function of the query here.
*/
module AppMatcher {
  import opened Options
  import opened RubyString
  import opened NameCleaning
  import opened Exclusion
  import opened CaskSearch

  /** `NAME_MAPPINGS`: lower-case application names and their casks. */
  const NameMappings: map<string, string> := map[
    "google chrome" := "google-chrome",
    "firefox" := "firefox",
    "visual studio code" := "visual-studio-code",
    "vscode" := "visual-studio-code",
    "sublime text" := "sublime-text",
    "iterm" := "iterm2",
    "alfred" := "alfred",
    "slack" := "slack",
    "discord" := "discord",
    "spotify" := "spotify",
    "vlc" := "vlc",
    "zoom" := "zoom",
    "docker" := "docker",
    "notion" := "notion"
  ]

  /** The matcher's configuration: the exclusion list and the regular
      expression engine that decides the `/.../` entries. The error handler
      only logs and is not modelled. */
  datatype Matcher = Matcher(excludeList: seq<string>, regexMatch: (string, string) -> bool)

  /** `initialize`: a missing exclusion list means an empty one. */
  function NewMatcher(excludeList: Option<seq<string>>, regexMatch: (string, string) -> bool): (m: Matcher)
    ensures excludeList.Some? ==> m.excludeList == excludeList.value
    ensures excludeList.None? ==> m.excludeList == []
    ensures m.regexMatch == regexMatch
    ensures excludeList.None? ==> forall name :: !IsExcluded(m.excludeList, m.regexMatch, name)
  {
    Matcher(if excludeList.Some? then excludeList.value else [], regexMatch)
  }

  /** What `find_matching_cask` ends in. Ruby returns `nil` both for an
      excluded application and for one without a match; the model tells the
      two apart. `Raised` is an exception escaping the method. */
  datatype Verdict = Matched(cask: string) | Excluded | NoMatch | Raised

  /** `check_direct_mapping`: the name matches a key of the table ignoring
      case exactly when there is an answer, and that key's cask is the
      answer. */
  function CheckDirectMapping(name: string): (r: Option<string>)
    ensures r.Some? <==> exists k :: k in NameMappings && Downcase(k) == Downcase(name)
    ensures forall k :: k in NameMappings && Downcase(k) == Downcase(name) ==> r == Some(NameMappings[k])
  {
    KeysLowercase();
    DowncaseIdempotent(name);
    if Downcase(name) in NameMappings then Some(NameMappings[Downcase(name)]) else None
  }

  /** `find_matching_cask`: clean the name, then exclusion, table, search, in
      that order; the search is asked about the cleaned name. */
  function FindMatchingCask(m: Matcher, appName: string, brewSearch: string -> string): (r: Verdict)
    ensures var clean := CleanAppName(appName);
      && (r.Excluded? <==> IsExcluded(m.excludeList, m.regexMatch, clean))
      && (r.Matched? ==>
            r.cask in NameMappings.Values
            || (ParseListing(brewSearch(clean)).Section? && r.cask in ParseListing(brewSearch(clean)).casks))
  {
    var clean := CleanAppName(appName);
    if IsExcluded(m.excludeList, m.regexMatch, clean) then Excluded
    else
      match CheckDirectMapping(Downcase(clean))
      case Some(cask) => Matched(cask)
      case None =>
        SearchVerdict(SearchHomebrewCask(clean, brewSearch(clean)))
  }

  /** `nil` from the search is no match; a cask or an exception passes through. */
  function SearchVerdict(r: SearchResult): (v: Verdict)
    ensures v.Matched? <==> r.Found?
    ensures v.Matched? ==> v.cask == r.cask
    ensures v.NoMatch? <==> r.NotFound?
    ensures v.Raised? <==> r.Raised?
    ensures !v.Excluded?
  {
    match r
    case Found(cask) => Matched(cask)
    case NotFound => NoMatch
    case Raised => Verdict.Raised
  }

  /** An excluded application is skipped before the table and the search:
      the verdict is the same whatever `brew search` would print. */
  lemma ExcludedSkipsLookupAndSearch(m: Matcher, appName: string, brewSearch1: string -> string, brewSearch2: string -> string)
    requires IsExcluded(m.excludeList, m.regexMatch, CleanAppName(appName))
    ensures FindMatchingCask(m, appName, brewSearch1) == Excluded
    ensures FindMatchingCask(m, appName, brewSearch2) == FindMatchingCask(m, appName, brewSearch1)
  {
  }

  /** A name found in the table is answered from it without searching; the
      second `downcase` in the lookup changes nothing. */
  lemma MappedSkipsSearch(m: Matcher, appName: string, brewSearch1: string -> string, brewSearch2: string -> string)
    requires !IsExcluded(m.excludeList, m.regexMatch, CleanAppName(appName))
    requires Downcase(CleanAppName(appName)) in NameMappings
    ensures FindMatchingCask(m, appName, brewSearch1) == Matched(NameMappings[Downcase(CleanAppName(appName))])
    ensures FindMatchingCask(m, appName, brewSearch2) == FindMatchingCask(m, appName, brewSearch1)
  {
    DowncaseIdempotent(CleanAppName(appName));
  }

  /** The search is asked about the cleaned name only: two searches agreeing
      on it give the same verdict. */
  lemma SearchSeesOnlyCleanName(m: Matcher, appName: string, brewSearch1: string -> string, brewSearch2: string -> string)
    requires brewSearch1(CleanAppName(appName)) == brewSearch2(CleanAppName(appName))
    ensures FindMatchingCask(m, appName, brewSearch1) == FindMatchingCask(m, appName, brewSearch2)
  {
    var clean := CleanAppName(appName);
    assert SearchHomebrewCask(clean, brewSearch1(clean)) == SearchHomebrewCask(clean, brewSearch2(clean));
  }

  /** Without an exclusion list nothing is excluded. */
  lemma NoExcludeListExcludesNothing(regexMatch: (string, string) -> bool, appName: string, brewSearch: string -> string)
    ensures !FindMatchingCask(NewMatcher(None, regexMatch), appName, brewSearch).Excluded?
  {
  }

  /** The outcome when the table does not know the name and nothing excludes
      it: the search stage's answer. */
  lemma UnmappedGoesToSearch(m: Matcher, appName: string, brewSearch: string -> string)
    requires !IsExcluded(m.excludeList, m.regexMatch, CleanAppName(appName))
    requires Downcase(CleanAppName(appName)) !in NameMappings
    ensures var clean := CleanAppName(appName);
      FindMatchingCask(m, appName, brewSearch) == SearchVerdict(SearchHomebrewCask(clean, brewSearch(clean)))
  {
    DowncaseIdempotent(CleanAppName(appName));
  }

  /** Every key of the table is already lower case. */
  lemma KeysLowercase()
    ensures forall k :: k in NameMappings ==> Downcase(k) == k
  {
    forall k | k in NameMappings
      ensures Downcase(k) == k
    {
      LowercaseKey(k);
    }
  }

  lemma LowercaseKey(k: string)
    requires k in NameMappings
    ensures Downcase(k) == k
  {
    forall i | 0 <= i < |k|
      ensures !('A' <= k[i] <= 'Z')
    {
    }
  }

  // End-to-end cases, with no exclusion list unless one is given. Each is
  // assembled from facts about its literal inputs, proved one at a time.

  lemma CleanFirefox()
    ensures CleanAppName("Firefox 120.0.1") == "Firefox"
  {
    FirefoxVersion();
    CleanCutsVersion("Firefox 120.0.1", 7);
  }

  lemma FirefoxVersion()
    ensures VersionAt("Firefox 120.0.1", 7) && StripAppSuffix("Firefox 120.0.1") == "Firefox 120.0.1"
    ensures "Firefox 120.0.1"[..7] == "Firefox" && '(' !in "Firefox"
  {
  }

  lemma FirefoxInTable()
    ensures Downcase("Firefox") == "firefox" && "firefox" in NameMappings && NameMappings["firefox"] == "firefox"
  {
  }

  /** A version suffix is cut and the rest is found in the table. */
  lemma FirefoxFromTable(regexMatch: (string, string) -> bool, brewSearch: string -> string)
    ensures FindMatchingCask(NewMatcher(None, regexMatch), "Firefox 120.0.1", brewSearch) == Matched("firefox")
  {
    CleanFirefox();
    FirefoxInTable();
    MappedSkipsSearch(NewMatcher(None, regexMatch), "Firefox 120.0.1", brewSearch, brewSearch);
  }

  /** A bundle name loses its extension and is found in the table. */
  lemma VisualStudioCodeFromTable(regexMatch: (string, string) -> bool, brewSearch: string -> string)
    ensures FindMatchingCask(NewMatcher(None, regexMatch), "Visual Studio Code.app", brewSearch) == Matched("visual-studio-code")
  {
    CleanVisualStudioCode();
    VisualStudioCodeInTable();
    MappedSkipsSearch(NewMatcher(None, regexMatch), "Visual Studio Code.app", brewSearch, brewSearch);
  }

  lemma CleanVisualStudioCode()
    ensures CleanAppName("Visual Studio Code.app") == "Visual Studio Code"
  {
    VisualStudioCodeSuffix();
    CleanKeepsPlainName("Visual Studio Code");
  }

  lemma VisualStudioCodeSuffix()
    ensures StripAppSuffix("Visual Studio Code.app") == "Visual Studio Code"
    ensures '(' !in "Visual Studio Code" && StripAppSuffix("Visual Studio Code") == "Visual Studio Code"
  {
  }

  lemma VisualStudioCodeInTable()
    ensures Downcase("Visual Studio Code") == "visual studio code"
    ensures "visual studio code" in NameMappings && NameMappings["visual studio code"] == "visual-studio-code"
  {
  }

  /** An excluded application is skipped even though the table knows it. */
  lemma SpotifyExcluded(regexMatch: (string, string) -> bool, brewSearch: string -> string)
    ensures FindMatchingCask(NewMatcher(Some(["Spotify"]), regexMatch), "Spotify.app", brewSearch) == Excluded
  {
    CleanSpotify();
    ExactEntryExcludes(["Spotify"], regexMatch, "Spotify", 0);
  }

  lemma CleanSpotify()
    ensures CleanAppName("Spotify.app") == "Spotify"
  {
    assert StripAppSuffix("Spotify.app") == "Spotify";
    CleanKeepsPlainName("Spotify");
  }

  /** The search stage decides for a clean name that is neither excluded nor
      in the table, on the listing `brew search` printed for it. */
  lemma ListedAnswer(m: Matcher, appName: string, clean: string, brewSearch: string -> string, casks: seq<string>)
    requires CleanAppName(appName) == clean && !IsExcluded(m.excludeList, m.regexMatch, clean)
    requires Downcase(clean) !in NameMappings
    requires ParseListing(brewSearch(clean)) == Section(casks)
    ensures FindMatchingCask(m, appName, brewSearch) == SearchVerdict(ChooseCask(casks, clean))
  {
    UnmappedGoesToSearch(m, appName, brewSearch);
  }

  lemma FooEditorUnmapped()
    ensures Downcase("Foo Editor") !in NameMappings
  {
    assert Downcase("Foo Editor") == "foo editor";
  }

  lemma CleanFooEditor()
    ensures CleanAppName("Foo Editor") == "Foo Editor"
  {
    assert StripAppSuffix("Foo Editor") == "Foo Editor";
    CleanKeepsPlainName("Foo Editor");
  }

  lemma BarToolSuiteUnmapped()
    ensures Downcase("Bar Tool Suite") !in NameMappings
  {
    assert Downcase("Bar Tool Suite") == "bar tool suite";
  }

  lemma CleanBarToolSuite()
    ensures CleanAppName("Bar Tool Suite") == "Bar Tool Suite"
  {
    assert StripAppSuffix("Bar Tool Suite") == "Bar Tool Suite";
    CleanKeepsPlainName("Bar Tool Suite");
  }

  // The search cases below start from the candidate lines `brew search`
  // listed; `ListingOfLines` gives the output that lists them.

  /** Two listed casks, the first equal to the name once dashes are spaces. */
  lemma FooEditorExactMatch(regexMatch: (string, string) -> bool, brewSearch: string -> string)
    requires ParseListing(brewSearch("Foo Editor")) == Section(["foo-editor", "foo-editor-pro"])
    ensures FindMatchingCask(NewMatcher(None, regexMatch), "Foo Editor", brewSearch) == Matched("foo-editor")
  {
    CleanFooEditor();
    FooEditorUnmapped();
    ChooseFooEditor();
    ListedAnswer(NewMatcher(None, regexMatch), "Foo Editor", "Foo Editor", brewSearch, ["foo-editor", "foo-editor-pro"]);
  }

  /** A sole listed cask is taken though it is not an exact match. */
  lemma BarToolSoleResult(regexMatch: (string, string) -> bool, brewSearch: string -> string)
    requires ParseListing(brewSearch("Bar Tool Suite")) == Section(["bar-tool"])
    ensures FindMatchingCask(NewMatcher(None, regexMatch), "Bar Tool Suite", brewSearch) == Matched("bar-tool")
  {
    CleanBarToolSuite();
    BarToolSuiteUnmapped();
    ChooseBarTool();
    ListedAnswer(NewMatcher(None, regexMatch), "Bar Tool Suite", "Bar Tool Suite", brewSearch, ["bar-tool"]);
  }

  /** Several listed casks, all too far from the name: no match. */
  lemma BarToolNoMatch(regexMatch: (string, string) -> bool, brewSearch: string -> string)
    requires ParseListing(brewSearch("Bar Tool Suite")) == Section(["bar", "tool"])
    ensures FindMatchingCask(NewMatcher(None, regexMatch), "Bar Tool Suite", brewSearch) == NoMatch
  {
    CleanBarToolSuite();
    BarToolSuiteUnmapped();
    ChooseNothingForBarToolSuite();
    ListedAnswer(NewMatcher(None, regexMatch), "Bar Tool Suite", "Bar Tool Suite", brewSearch, ["bar", "tool"]);
  }

  /** The heading with nothing under it leaves no candidates. */
  lemma HeadingAloneListsNothing(q: string)
    ensures ParseListing(q + Marker + "\n") == Section([])
  {
    AbsentFirstChar("\n", Marker);
    SectionAfterLastMarker(q, "\n");
    StripLineBreak();
    SplitNothing("\n");
  }

  lemma BareHeadingListsNothing()
    ensures ParseListing(Marker + "\n") == Section([])
  {
    HeadingAloneListsNothing([]);
    assert [] + Marker + "\n" == Marker + "\n";
  }

  /** The heading with nothing under it: the empty candidate list makes the
      matcher raise. */
  lemma EmptyListingRaises(regexMatch: (string, string) -> bool, brewSearch: string -> string)
    requires brewSearch("Foo Editor") == Marker + "\n"
    ensures FindMatchingCask(NewMatcher(None, regexMatch), "Foo Editor", brewSearch) == Verdict.Raised
  {
    CleanFooEditor();
    FooEditorUnmapped();
    BareHeadingListsNothing();
    ChooseFromNothingRaises("Foo Editor");
    ListedAnswer(NewMatcher(None, regexMatch), "Foo Editor", "Foo Editor", brewSearch, []);
  }

  /** An unmapped name that is not excluded raises when the search lists
      the heading with no line under it: the source compares `nil > 0.6`. */
  lemma EmptySectionRaises(m: Matcher, appName: string, clean: string, brewSearch: string -> string)
    requires CleanAppName(appName) == clean && !IsExcluded(m.excludeList, m.regexMatch, clean)
    requires Downcase(clean) !in NameMappings
    requires ParseListing(brewSearch(clean)) == Section([])
    ensures FindMatchingCask(m, appName, brewSearch) == Verdict.Raised
  {
    UnmappedGoesToSearch(m, appName, brewSearch);
  }

  /** An unmapped name that is not excluded gets no match when its search
      output has no cask heading. */
  lemma UnheadedAnswer(m: Matcher, appName: string, clean: string, brewSearch: string -> string)
    requires CleanAppName(appName) == clean && !IsExcluded(m.excludeList, m.regexMatch, clean)
    requires Downcase(clean) !in NameMappings
    requires !Contains(brewSearch(clean), Marker)
    ensures FindMatchingCask(m, appName, brewSearch) == NoMatch
  {
    UnmappedGoesToSearch(m, appName, brewSearch);
  }

  /** Output without the cask heading: no match. */
  lemma NoHeadingNoMatch(regexMatch: (string, string) -> bool, brewSearch: string -> string)
    requires !Contains(brewSearch("Foo Editor"), Marker)
    ensures FindMatchingCask(NewMatcher(None, regexMatch), "Foo Editor", brewSearch) == NoMatch
  {
    CleanFooEditor();
    FooEditorUnmapped();
    UnheadedAnswer(NewMatcher(None, regexMatch), "Foo Editor", "Foo Editor", brewSearch);
  }
}
