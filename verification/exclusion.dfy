/**
  `is_excluded?`: a cleaned name is excluded when some entry of the exclusion
  list matches it. An entry that starts and ends with `/` is a regular
  expression, compiled case-insensitively from the text between the slashes;
  any other entry matches a name equal to it ignoring case. Regular
  expression matching belongs to Ruby's engine and is a parameter here:
  `regexMatch(pattern, name)` says whether the compiled pattern matches
  somewhere in the name.
*/
module Exclusion {
  import opened RubyString

  /** `start_with?('/') && end_with?('/')`: a lone "/" qualifies too. */
  predicate IsRegexEntry(entry: string) {
    |entry| > 0 && entry[0] == '/' && entry[|entry| - 1] == '/'
  }

  /** `entry[1..-2]`: the text between the slashes, empty for "/" and "//". */
  function RegexSource(entry: string): (r: string)
    requires IsRegexEntry(entry)
    ensures |r| == if |entry| >= 2 then |entry| - 2 else 0
    ensures |entry| >= 2 ==> entry == [entry[0]] + r + [entry[|entry| - 1]]
  {
    if |entry| >= 2 then entry[1..|entry| - 1] else []
  }

  predicate EntryMatches(entry: string, name: string, regexMatch: (string, string) -> bool) {
    if IsRegexEntry(entry) then regexMatch(RegexSource(entry), name)
    else Downcase(name) == Downcase(entry)
  }

  /** `any?` over the list, front to back. */
  function IsExcluded(excludeList: seq<string>, regexMatch: (string, string) -> bool, name: string): (r: bool)
    ensures r <==> exists k :: 0 <= k < |excludeList| && EntryMatches(excludeList[k], name, regexMatch)
    decreases |excludeList|
  {
    if |excludeList| == 0 then false
    else (EntryMatches(excludeList[0], name, regexMatch)
          || IsExcluded(excludeList[1..], regexMatch, name))
  }

  /** An entry without slashes excludes exactly the names equal to it up to case. */
  lemma {:induction false} ExactEntryExcludes(excludeList: seq<string>, regexMatch: (string, string) -> bool, name: string, k: nat)
    requires k < |excludeList| && !IsRegexEntry(excludeList[k])
    requires Downcase(name) == Downcase(excludeList[k])
    ensures IsExcluded(excludeList, regexMatch, name)
  {
    assert EntryMatches(excludeList[k], name, regexMatch);
  }

  /** Without regular expressions, exclusion does not depend on case. */
  lemma ExclusionIgnoresCase(excludeList: seq<string>, regexMatch: (string, string) -> bool, a: string, b: string)
    requires forall k :: 0 <= k < |excludeList| ==> !IsRegexEntry(excludeList[k])
    requires Downcase(a) == Downcase(b)
    ensures IsExcluded(excludeList, regexMatch, a) == IsExcluded(excludeList, regexMatch, b)
  {
    if IsExcluded(excludeList, regexMatch, a) {
      var k :| 0 <= k < |excludeList| && EntryMatches(excludeList[k], a, regexMatch);
      assert EntryMatches(excludeList[k], b, regexMatch);
    }
    if IsExcluded(excludeList, regexMatch, b) {
      var k :| 0 <= k < |excludeList| && EntryMatches(excludeList[k], b, regexMatch);
      assert EntryMatches(excludeList[k], a, regexMatch);
    }
  }

  // The example configuration: "Spotify" and the pattern entry for names starting with "adobe".
  lemma ExclusionExample(regexMatch: (string, string) -> bool)
    requires regexMatch("^adobe.*", "Adobe Acrobat")
    requires !regexMatch("^adobe.*", "Slack")
    ensures IsExcluded(["Spotify", "/^adobe.*/"], regexMatch, "spotify")
    ensures IsExcluded(["Spotify", "/^adobe.*/"], regexMatch, "Adobe Acrobat")
    ensures !IsExcluded(["Spotify", "/^adobe.*/"], regexMatch, "Slack")
  {
    var list := ["Spotify", "/^adobe.*/"];
    assert !IsRegexEntry(list[0]) && IsRegexEntry(list[1]);
    assert RegexSource(list[1]) == "^adobe.*";
    assert Downcase("spotify") == Downcase("Spotify");
    assert EntryMatches(list[0], "spotify", regexMatch);
    assert EntryMatches(list[1], "Adobe Acrobat", regexMatch);
    assert Downcase("Slack") != Downcase("Spotify") by {
      assert Downcase("Slack")[1] == 'l';
    }
    assert !EntryMatches(list[0], "Slack", regexMatch);
    assert !EntryMatches(list[1], "Slack", regexMatch);
  }
}
