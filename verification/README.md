# AppMatcher — a Dafny model of brew-cask-replacer's cask matcher

brew-cask-replacer scans the applications installed on a Mac and looks for a
Homebrew cask that could replace each one. `AppMatcher#find_matching_cask`
decides which cask that is. It works in four steps:

1. It cleans the application's name. This drops a trailing ".app" (or any
   character other than a line break followed by "app", since the dot in the
   pattern is not escaped), one trailing version such as " 4.29.149", every
   parenthesised group, and the white space around the name.
2. It skips names that the user's exclusion list matches. An entry is either
   a name compared ignoring case, or a `/regex/`.
3. It answers names it knows from a built-in table of fourteen entries for
   well-known applications.
4. Otherwise it runs `brew search --cask` and reads the lines under the
   "==> Casks" heading. It prefers, in order:
   - a line equal to the name up to case, or up to dashes read as spaces;
   - a sole line;
   - the line with the best Levenshtein similarity, if that score exceeds 0.6.

The model has five modules, one per stage of the Ruby class, plus the
support modules `Options` and `RubyString`:

- `Options` holds `Option`.
- `RubyString` models the Ruby `String` methods the class uses: ASCII
  `downcase`, `gsub('-', ' ')`, `strip`, `include?`, and `split` with a string
  separator. It also has a join that inverts that `split`.
- `Levenshtein` gives the edit distance as a recursive definition. It also
  has the matrix algorithm of `levenshtein_distance`, proved equal to that
  definition.
- `NameCleaning` models `clean_app_name`.
- `Exclusion` models `is_excluded?`.
- `CaskSearch` models the reading of `brew search` output, the choice of a
  cask, and `calculate_similarity`.
- `AppMatcher` models the mapping table, `initialize`, `check_direct_mapping`
  and `find_matching_cask`.

The outside world is modelled as parameters:

- What `brew search` prints is a function `brewSearch` from the query to the
  output text.
- Ruby's regular expression engine is a predicate `regexMatch(pattern, name)`.
- An exception escaping the method is the verdict `Raised`.

## Model

| member | source | states |
|---|---|---|
| AppMatcher.NewMatcher | lib/app_matcher.rb:24-27 | A given exclusion list is kept as is. A missing one becomes the empty list, so a matcher built without one excludes no name. |
| AppMatcher.CheckDirectMapping | lib/app_matcher.rb:91-93 | The lookup answers exactly when the name equals some key of the table ignoring case, and then the answer is that key's cask. |
| AppMatcher.KeysLowercase | lib/app_matcher.rb:6-22 | Every key of the table is already lower case. |
| AppMatcher.SearchVerdict | lib/app_matcher.rb:45-53 | A cask from the search is the answer, `nil` from the search is no match, and an exception in the search propagates; the search never yields an exclusion. |
| AppMatcher.FindMatchingCask | lib/app_matcher.rb:30-54 | The verdict is Excluded exactly when the cleaned name is excluded. A matched cask is either a value of the table or a line of the listing that the search printed for the cleaned name. |
| AppMatcher.ExcludedSkipsLookupAndSearch | lib/app_matcher.rb:35-38 | An excluded name gets the Excluded verdict whatever the search would print. |
| AppMatcher.MappedSkipsSearch | lib/app_matcher.rb:41-42 | A name in the table that is not excluded is answered with its table entry, and the search output has no influence. |
| AppMatcher.UnmappedGoesToSearch | lib/app_matcher.rb:45-53 | A name that is neither excluded nor in the table gets the search stage's answer for the cleaned name. |
| AppMatcher.SearchSeesOnlyCleanName | lib/app_matcher.rb:32-45 | Two searches that print the same for the cleaned name lead to the same verdict. |
| AppMatcher.NoExcludeListExcludesNothing | lib/app_matcher.rb:25 | Without an exclusion list, no application is ever excluded. |
| AppMatcher.FirefoxFromTable | lib/app_matcher.rb:8 | "Firefox 120.0.1" is matched to "firefox" from the table, whatever the search prints. |
| AppMatcher.VisualStudioCodeFromTable | lib/app_matcher.rb:9 | "Visual Studio Code.app" is matched to "visual-studio-code" from the table. |
| AppMatcher.SpotifyExcluded | lib/app_matcher.rb:35-38 | With "Spotify" on the exclusion list, "Spotify.app" is excluded. |
| AppMatcher.ListedAnswer | lib/app_matcher.rb:45-53 | For an unmapped name that is not excluded, the verdict is the choice among the candidate lines the search output lists. |
| AppMatcher.FooEditorExactMatch | lib/app_matcher.rb:106-111 | With the lines "foo-editor" and "foo-editor-pro", "Foo Editor" is matched to "foo-editor". |
| AppMatcher.BarToolSoleResult | lib/app_matcher.rb:114 | A single line "bar-tool" is taken for "Bar Tool Suite" although it is not an exact match. |
| AppMatcher.BarToolNoMatch | lib/app_matcher.rb:117-130 | With the lines "bar" and "tool", both scoring at most 0.6, "Bar Tool Suite" gets no match. |
| AppMatcher.HeadingAloneListsNothing | lib/app_matcher.rb:103 | The heading followed by a bare line break lists no candidates. |
| AppMatcher.EmptySectionRaises | lib/app_matcher.rb:45-53 | An unmapped name that is not excluded makes the matcher raise when the search output lists the heading with no line under it. |
| AppMatcher.EmptyListingRaises | lib/app_matcher.rb:117-127 | For "Foo Editor", search output made of the heading and a line break makes the matcher raise instead of answering. |
| AppMatcher.UnheadedAnswer | lib/app_matcher.rb:101-130 | Search output without the cask heading gives no match for an unmapped name that is not excluded. |
| AppMatcher.NoHeadingNoMatch | lib/app_matcher.rb:101-130 | "Foo Editor" gets no match when the search output lacks the cask heading. |
| NameCleaning.CleanAppName | lib/app_matcher.rb:59-73 | The clean name has no strip-space character at either end, and no opening parenthesis followed later by a closing one. When no opening parenthesis is left once the suffix and version are gone, it is that text trimmed of white space only. |
| NameCleaning.CleanUnversioned | lib/app_matcher.rb:67-70 | The group removal and `strip` that end the cleaning: the result has no strip-space character at either end and no group, and a text without an opening parenthesis is only trimmed of white space. |
| NameCleaning.CleanIsSubsequence | lib/app_matcher.rb:59-73 | The clean name is the raw name with some characters left out: nothing is added or reordered. |
| NameCleaning.StripAppSuffix | lib/app_matcher.rb:61 | The name changes exactly when it ends in "app" after any character other than a line feed. Then those four characters are removed and nothing else. |
| NameCleaning.GroupEndExact | lib/app_matcher.rb:67 | Wherever `\s*\([^)]*\)` matches from a position, the scan finds that match and no other. |
| NameCleaning.RemoveGroups | lib/app_matcher.rb:67 | Without an opening parenthesis the name is unchanged; the result is never longer than the name. |
| NameCleaning.RemoveGroupsDropsMatch | lib/app_matcher.rb:67 | A match is removed whole and the scan resumes right after it. |
| NameCleaning.RemoveGroupsKeepsUnmatched | lib/app_matcher.rb:67 | A stretch where no match starts is kept verbatim. |
| NameCleaning.StripVersion | lib/app_matcher.rb:64 | The name is unchanged exactly when no " digits(.digits)*" token ends it. Otherwise the result is the prefix in front of that token. |
| NameCleaning.VersionAtUnique | lib/app_matcher.rb:64 | The version pattern can match at one position at most. |
| NameCleaning.StripVersionAt | lib/app_matcher.rb:64 | Where a version token starts, the name is cut exactly there. |
| NameCleaning.StripVersionNoDigitEnd | lib/app_matcher.rb:64 | A name not ending in a digit keeps its full text. |
| NameCleaning.RemoveGroupsLeavesNoGroup | lib/app_matcher.rb:67 | After the group removal, no opening parenthesis is followed by a closing one. |
| NameCleaning.RemoveGroupsKeepsPlainStretch | lib/app_matcher.rb:67 | A stretch without an opening parenthesis and not ending in white space is kept verbatim. |
| NameCleaning.CleanKeepsPlainName | lib/app_matcher.rb:59-73 | A stripped name with no parenthesis, no trailing digit and no ".app"-like ending is its own clean form. |
| NameCleaning.CleanCutsVersion | lib/app_matcher.rb:64-70 | A trailing version token is cut off together with its space. |
| NameCleaning.CleanDropsTrailingGroup | lib/app_matcher.rb:67-70 | A trailing parenthesised group and the white space before it are dropped. |
| NameCleaning.CleanGoogleChrome | lib/app_matcher.rb:61 | "Google Chrome.app" cleans to "Google Chrome". |
| NameCleaning.CleanSlack | lib/app_matcher.rb:64 | "Slack 4.29.149" cleans to "Slack". |
| NameCleaning.CleanITerm | lib/app_matcher.rb:67 | "iTerm (Beta)" cleans to "iTerm". |
| NameCleaning.CleanWhatsapp | lib/app_matcher.rb:61 | The unescaped dot makes "Whatsapp" clean to "What". |
| NameCleaning.CleanNotion | lib/app_matcher.rb:64-67 | "Notion 2.0 (Universal)" cleans to "Notion 2.0": the version is sought before the group is removed. |
| NameCleaning.CleanNotionAgain | lib/app_matcher.rb:64 | A second cleaning turns "Notion 2.0" into "Notion", so cleaning is not idempotent. |
| Exclusion.RegexSource | lib/app_matcher.rb:81 | The pattern is the entry without its first and last character: the two slashes around the pattern give the entry back. It is empty for "/" and "//". |
| Exclusion.IsExcluded | lib/app_matcher.rb:76-88 | A name is excluded exactly when some entry matches it: a `/.../` entry through the regular expression, any other entry by case-insensitive equality. |
| Exclusion.ExactEntryExcludes | lib/app_matcher.rb:84-85 | A plain entry excludes every name equal to it ignoring case. |
| Exclusion.ExclusionIgnoresCase | lib/app_matcher.rb:85 | Without pattern entries, two names equal up to case are excluded alike. |
| Exclusion.ExclusionExample | lib/app_matcher.rb:76-88 | With the list "Spotify" and "/^adobe.*/", "spotify" and "Adobe Acrobat" are excluded and "Slack" is not. |
| CaskSearch.ParseListing | lib/app_matcher.rb:101-103 | There is no section exactly when the output lacks the heading. Section lines hold no line break. |
| CaskSearch.SectionAfterLastMarker | lib/app_matcher.rb:103 | With text after the last heading, the candidates are the lines of that text once trimmed, and joining them gives the trimmed text back. |
| CaskSearch.ListingOfLines | lib/app_matcher.rb:103 | The heading followed by one cask per line lists exactly those casks. |
| CaskSearch.BareHeadingUnreadable | lib/app_matcher.rb:103 | Output that is the bare heading leaves `split(...).last` nil, which makes the matcher raise. |
| CaskSearch.FirstExact | lib/app_matcher.rb:106-109 | The result is the first line equal to the name up to case or dashes; none exists before it, and none at all when nothing is found. |
| CaskSearch.Similarity | lib/app_matcher.rb:134-145 | The score lies between 0 and 1. It is 1 exactly when the lowered candidate, with dashes read as spaces, equals the lowered name. |
| CaskSearch.SimilarityThreshold | lib/app_matcher.rb:127 | A score exceeds 0.6 exactly when five times the distance is below twice the longer length. |
| CaskSearch.BlankLineScoresZero | lib/app_matcher.rb:117-120 | A blank line scores 0 against any non-empty name. |
| CaskSearch.NoExactMeansScorable | lib/app_matcher.rb:106-118 | When no line matches exactly, the score of every line is defined. |
| CaskSearch.BestIndex | lib/app_matcher.rb:117-126 | The line taken first after sorting by descending score scores at least as well as every line. |
| CaskSearch.ChooseCask | lib/app_matcher.rb:105-127 | The answer is one the source may give: the first exact match, else the sole line, else an exception for no lines, else a best-scoring line above 0.6, else nothing. A chosen cask is always one of the lines. |
| CaskSearch.AllowedChoiceDeterminesVerdict | lib/app_matcher.rb:123-127 | Any two admissible answers are of the same kind. When they differ, both are best-scoring lines. |
| CaskSearch.SearchHomebrewCask | lib/app_matcher.rb:96-131 | Output without the heading gives no cask. Output from which no section text can be taken makes the method raise. A found cask is a line of the listing, and the answer is an admissible choice among those lines. |
| CaskSearch.ShortLineScoresLow | lib/app_matcher.rb:127 | A line at most three fifths as long as the name never passes the threshold. |
| CaskSearch.NothingChosenBelowThreshold | lib/app_matcher.rb:117-130 | With several lines, none exact and none above 0.6, nothing is chosen. |
| CaskSearch.ChooseFooEditor | lib/app_matcher.rb:106-111 | An exact match wins over a longer line that follows it. |
| CaskSearch.ChooseBarTool | lib/app_matcher.rb:114 | A sole line is taken whatever its score. |
| CaskSearch.ChooseNothingForBarToolSuite | lib/app_matcher.rb:117-130 | "bar" and "tool" against "Bar Tool Suite": no match. |
| Levenshtein.ComputeDistance | lib/app_matcher.rb:148-169 | The matrix algorithm returns exactly the recursive edit distance. |
| Levenshtein.DistanceFromEmpty | lib/app_matcher.rb:153-154 | The distance between a string and the empty string is the string's length, either way round. |
| Levenshtein.DistanceToSelf | lib/app_matcher.rb:148-169 | A string's distance to itself is 0. |
| Levenshtein.DistanceSymmetric | lib/app_matcher.rb:148-169 | The distance does not depend on the order of the two strings. |
| Levenshtein.DistanceUpperBound | lib/app_matcher.rb:148-169 | The distance is at most the longer length. |
| Levenshtein.DistanceLowerBound | lib/app_matcher.rb:148-169 | The distance is at least the difference of the lengths. |
| Levenshtein.DistanceZeroIffEqual | lib/app_matcher.rb:148-169 | The distance is 0 exactly when the strings are equal. |
| RubyString.SplitJoinRoundTrip | lib/app_matcher.rb:103 | For text that does not end with the separator, joining the fields of `split` gives the text back. |
| RubyString.SplitOfJoin | lib/app_matcher.rb:103 | Splitting the join of separator-free lines, the last one non-empty, gives the lines back. |
| RubyString.StripIsMiddleSlice | lib/app_matcher.rb:70 | `strip` returns a middle slice of its input with only strip-space around it. |
| RubyString.DowncaseIdempotent | lib/app_matcher.rb:41 | Lowering twice is lowering once. |

## Left out

- Running `brew search --cask` with a shell-escaped name is left out. The command's output is the parameter `brewSearch`, applied to the cleaned name, because the model cannot run processes.
- Compiling and matching regular expressions in `is_excluded?` is left out. `regexMatch(pattern, name)` stands for Ruby's case-insensitive `Regexp#match?`, and a `RegexpError` from a malformed pattern is not modelled.
- Logging through the error handler is left out. It has no effect on the result.
- `downcase` covers only the ASCII letters. Ruby also lowers other Unicode letters.
- Scores are exact rationals, not IEEE doubles. At the threshold, `1 - 2/5` in doubles is 0.6 as well, so the comparison with 0.6 decides alike.
- Ruby returns `nil` for both an excluded application and an unmatched one. The model keeps them apart as `Excluded` and `NoMatch`.
- An empty candidate list makes the source raise a `NoMethodError`, because it compares `nil > 0.6`. The model gives `Raised` there, where a plain description of the matcher would expect no match.
- Ruby's `split` drops trailing empty fields, so the section read is the last non-empty field of the split. When the output ends with a heading, that field lies in front of it.
- `split(...).last` is `nil` only when the output consists of headings alone. Calling `strip` on it then raises, and the model gives `Raised` there too.
- Blank lines inside the section are kept as candidates, as in the source.
- `sort_by!` is not stable, so among equally scored lines the source may return any one. `ChooseCask` takes the first; its contract promises only some best-scoring line. `AllowedChoiceDeterminesVerdict` shows that the kind of verdict does not depend on that choice.
- The score is undefined for an empty line against an empty name, where the source divides 0 by 0. That pair is always an exact match, so it never reaches the scoring.
- "Notion 2.0 (Universal)" cleans to "Notion 2.0", not "Notion": the version is sought before the group is removed. `CleanNotion` records what the code does.
- The scenario lemmas in `AppMatcher` take the listing that the search output parses to as a precondition. They do not evaluate the parser on a literal output text; `ListingOfLines` covers the parser.
- The rest of the repository is not part of this model:
  - lib/homebrew_interface.rb, the installer: through `brew` it checks that Homebrew is present, installs, uninstalls and looks up casks, and reads the Homebrew version.
  - lib/backup_manager.rb: it copies application bundles aside and restores them, keeping JSON metadata with timestamps.
  - lib/progress_tracker.rb: it draws a progress bar on the console.
  - lib/error_handler.rb: it is the logger and exits with status 1 on a fatal error.
