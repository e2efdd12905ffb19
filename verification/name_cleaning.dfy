/**
  `clean_app_name`: four rewrites applied in order to an application's
  display name before it is looked up.
    1. `sub(/.app\z/, '')`        drop a final ".app" (the dot is a wildcard);
    2. `sub(/ \d+(\.\d+)*\z/, '')` drop one trailing " 1.2.3" version;
    3. `gsub(/\s*\([^)]*\)/, '')`  drop every parenthesised group and the
                                   white space before it;
    4. `strip`.
*/
module NameCleaning {
  import opened Options
  import opened RubyString

  /** Step 1. The regular expression's `.` is not escaped, so any character
      other than a line feed followed by "app" at the very end is removed. */
  function StripAppSuffix(s: string): (r: string)
    ensures r == s <==> !(|s| >= 4 && s[|s| - 3..] == "app" && s[|s| - 4] != '\n')
    ensures r != s ==> s == r + [s[|s| - 4]] + "app"
    ensures |r| <= |s| && r == s[..|r|]
  {
    if |s| >= 4 && s[|s| - 3..] == "app" && s[|s| - 4] != '\n' then s[..|s| - 4] else s
  }

  /** `\d+(\.\d+)*`: groups of digits separated by single dots. */
  predicate IsVersion(t: string) {
    && |t| > 0
    && IsDigit(t[0])
    && IsDigit(t[|t| - 1])
    && (forall k :: 0 <= k < |t| ==> IsDigit(t[k]) || t[k] == '.')
    && (forall k :: 0 < k < |t| && t[k] == '.' ==> t[k - 1] != '.')
  }

  /** `/ \d+(\.\d+)*\z/` matches from position `i`. */
  predicate VersionAt(s: string, i: int) {
    0 <= i < |s| && s[i] == ' ' && IsVersion(s[i + 1..])
  }

  /** The leftmost match position at or after `from`. */
  function VersionFrom(s: string, from: nat): (r: Option<nat>)
    ensures r.Some? ==> from <= r.value && VersionAt(s, r.value)
    ensures forall i :: from <= i && (r.None? || i < r.value) ==> !VersionAt(s, i)
    decreases |s| - from
  {
    if from >= |s| then None
    else if VersionAt(s, from) then Some(from)
    else VersionFrom(s, from + 1)
  }

  /** A version token holds no space. */
  lemma NoSpaceAfterVersionStart(s: string, i: int)
    requires VersionAt(s, i)
    ensures forall k :: i < k < |s| ==> s[k] != ' '
  {
    forall k | i < k < |s|
      ensures s[k] != ' '
    {
      assert s[i + 1..][k - i - 1] == s[k];
    }
  }

  /** So the regular expression can match at one position at most: the last
      space of the name. */
  lemma VersionAtUnique(s: string, i: int, j: int)
    requires VersionAt(s, i) && VersionAt(s, j)
    ensures i == j
  {
    NoSpaceAfterVersionStart(s, i);
    NoSpaceAfterVersionStart(s, j);
  }

  /** Step 2. Removes at most one trailing version token with its space. */
  function StripVersion(s: string): (r: string)
    ensures r == s <==> forall i :: !VersionAt(s, i)
    ensures r != s ==> |r| < |s| && r == s[..|r|] && VersionAt(s, |r|)
  {
    match VersionFrom(s, 0)
    case None => s
    case Some(i) => s[..i]
  }

  /** Where a version token is known to start, that is where the name is cut. */
  lemma StripVersionAt(s: string, i: int)
    requires VersionAt(s, i)
    ensures StripVersion(s) == s[..i]
  {
    VersionAtUnique(s, i, |StripVersion(s)|);
  }

  /** A name that does not end in a digit has no version to strip. */
  lemma StripVersionNoDigitEnd(s: string)
    requires s == [] || !IsDigit(s[|s| - 1])
    ensures StripVersion(s) == s
  {
    forall i | 0 <= i < |s| && s[i] == ' '
      ensures !IsVersion(s[i + 1..])
    {
      if i + 1 < |s| {
        assert s[i + 1..][|s| - i - 2] == s[|s| - 1];
      }
    }
  }

  /** The end of the run of `\s` characters that starts at `i`. */
  function SpaceEnd(s: string, i: nat): (j: nat)
    requires i <= |s|
    ensures i <= j <= |s|
    ensures forall k :: i <= k < j ==> IsRegexSpace(s[k])
    ensures j == |s| || !IsRegexSpace(s[j])
    decreases |s| - i
  {
    if i < |s| && IsRegexSpace(s[i]) then SpaceEnd(s, i + 1) else i
  }

  /** The first position at or after `i` that holds `c`. */
  function CharFrom(s: string, c: char, i: nat): (r: Option<nat>)
    requires i <= |s|
    ensures r.Some? ==> i <= r.value < |s| && s[r.value] == c
    ensures forall k :: i <= k < |s| && (r.None? || k < r.value) ==> s[k] != c
    decreases |s| - i
  {
    if i == |s| then None
    else if s[i] == c then Some(i)
    else CharFrom(s, c, i + 1)
  }

  /** Where the match of `\s*\([^)]*\)` that starts at `i` ends, if there is
      one: white space, an opening parenthesis, and everything up to and
      including the first closing one. */
  function GroupEnd(s: string, i: nat): (r: Option<nat>)
    requires i <= |s|
    ensures r.Some? ==> GroupMatch(s, i, SpaceEnd(s, i), r.value)
    ensures r.Some? ==> i + 2 <= r.value <= |s| && s[r.value - 1] == ')'
    ensures r.None? && i < |s| && s[i] == '(' ==> forall k :: i < k < |s| ==> s[k] != ')'
  {
    var w := SpaceEnd(s, i);
    if w < |s| && s[w] == '(' then
      match CharFrom(s, ')', w + 1)
      case Some(j) => Some(j + 1)
      case None => None
    else
      None
  }

  /** `\s*\([^)]*\)` matches exactly `s[p..e]`, with the opening parenthesis
      at `o`: white space up to `o`, then `(`, then no `)` until the last
      character, which is `)`. */
  predicate GroupMatch(s: string, p: int, o: int, e: int) {
    && 0 <= p <= o && o + 2 <= e <= |s|
    && (forall j :: p <= j < o ==> IsRegexSpace(s[j]))
    && s[o] == '(' && s[e - 1] == ')'
    && (forall j :: o < j < e - 1 ==> s[j] != ')')
  }

  /** `GroupEnd` finds every match: where the regular expression matches from
      `i`, it reports that match, and there is only one. */
  lemma GroupEndExact(s: string, i: nat, o: int, e: int)
    requires i <= |s| && GroupMatch(s, i, o, e)
    ensures o == SpaceEnd(s, i) && GroupEnd(s, i) == Some(e)
  {
    var w := SpaceEnd(s, i);
    assert !IsRegexSpace(s[o]);
    assert w <= o;
    assert o <= w;
    var c := CharFrom(s, ')', w + 1);
    assert c.Some? && c.value <= e - 1;
    assert c.value == e - 1;
  }

  /** No opening parenthesis has a closing one anywhere after it, so
      `\([^)]*\)` finds nothing. */
  predicate NoGroup(s: string) {
    forall i, j :: 0 <= i < j < |s| && s[i] == '(' ==> s[j] != ')'
  }

  /** The scan of `gsub` from position `i`: a match is dropped and the scan
      resumes after it; elsewhere one character is kept. Text without an
      opening parenthesis is kept whole. */
  function RemoveGroupsFrom(s: string, i: nat): (r: string)
    requires i <= |s|
    ensures |r| <= |s| - i
    ensures (forall k :: i <= k < |s| ==> s[k] != '(') ==> r == s[i..]
    decreases |s| - i
  {
    if i == |s| then []
    else
      match GroupEnd(s, i)
      case Some(e) => RemoveGroupsFrom(s, e)
      case None => [s[i]] + RemoveGroupsFrom(s, i + 1)
  }

  /** Step 3, `gsub(/\s*\([^)]*\)/, '')`. */
  function RemoveGroups(s: string): (r: string)
    ensures |r| <= |s|
    ensures '(' !in s ==> r == s
  {
    RemoveGroupsFrom(s, 0)
  }

  /** `gsub` drops a match whole and resumes after it. */
  lemma RemoveGroupsDropsMatch(s: string, p: nat, o: int, e: int)
    requires p <= |s| && GroupMatch(s, p, o, e)
    ensures RemoveGroupsFrom(s, p) == RemoveGroupsFrom(s, e)
  {
    GroupEndExact(s, p, o, e);
  }

  /** `gsub` keeps verbatim a stretch at which no match starts. */
  lemma {:induction false} RemoveGroupsKeepsUnmatched(s: string, k: nat, n: nat)
    requires k <= n <= |s|
    requires forall p, o, e :: k <= p < n ==> !GroupMatch(s, p, o, e)
    ensures RemoveGroupsFrom(s, k) == s[k..n] + RemoveGroupsFrom(s, n)
    decreases n - k
  {
    if k < n {
      NoMatchNoEnd(s, k);
      RemoveGroupsKeepsUnmatched(s, k + 1, n);
      UnmatchedStep(s, k, n);
    }
  }

  /** Where the regular expression does not match, `GroupEnd` finds nothing. */
  lemma NoMatchNoEnd(s: string, k: nat)
    requires k <= |s| && forall o, e :: !GroupMatch(s, k, o, e)
    ensures GroupEnd(s, k).None?
  {
  }

  lemma UnmatchedStep(s: string, k: nat, n: nat)
    requires k < n <= |s| && GroupEnd(s, k).None?
    requires RemoveGroupsFrom(s, k + 1) == s[k + 1..n] + RemoveGroupsFrom(s, n)
    ensures RemoveGroupsFrom(s, k) == s[k..n] + RemoveGroupsFrom(s, n)
  {
    KeepOne(s, k);
    ConsSlice(s, k, n, RemoveGroupsFrom(s, k), RemoveGroupsFrom(s, k + 1), RemoveGroupsFrom(s, n));
  }

  /** Where no match starts, the scan keeps one character. */
  lemma KeepOne(s: string, k: nat)
    requires k < |s| && GroupEnd(s, k).None?
    ensures RemoveGroupsFrom(s, k) == [s[k]] + RemoveGroupsFrom(s, k + 1)
  {
  }

  lemma ConsSlice(s: string, k: nat, n: nat, x: string, y: string, z: string)
    requires k < n <= |s| && x == [s[k]] + y && y == s[k + 1..n] + z
    ensures x == s[k..n] + z
  {
    assert s[k..n] == [s[k]] + s[k + 1..n];
  }

  /** Every character kept comes from the part of the input scanned. */
  lemma {:induction false} RemoveGroupsKeepsOnlyInput(s: string, i: nat, c: char)
    requires i <= |s| && forall k :: i <= k < |s| ==> s[k] != c
    ensures c !in RemoveGroupsFrom(s, i)
    decreases |s| - i
  {
    if i < |s| {
      match GroupEnd(s, i)
      case Some(e) =>
        RemoveGroupsKeepsOnlyInput(s, e, c);
      case None =>
        RemoveGroupsKeepsOnlyInput(s, i + 1, c);
    }
  }

  lemma NoGroupCons(c: char, rest: string)
    requires NoGroup(rest)
    requires c == '(' ==> ')' !in rest
    ensures NoGroup([c] + rest)
  {
    var r := [c] + rest;
    forall i, j | 0 <= i < j < |r| && r[i] == '('
      ensures r[j] != ')'
    {
      if i == 0 {
        assert r[j] == rest[j - 1] && rest[j - 1] in rest;
      } else {
        assert r[i] == rest[i - 1] && r[j] == rest[j - 1];
      }
    }
  }

  /** No parenthesised group survives the scan. */
  lemma {:induction false} RemoveGroupsLeavesNoGroup(s: string, i: nat)
    requires i <= |s|
    ensures NoGroup(RemoveGroupsFrom(s, i))
    decreases |s| - i
  {
    if i < |s| {
      match GroupEnd(s, i)
      case Some(e) =>
        RemoveGroupsLeavesNoGroup(s, e);
        SkipGroup(s, i, e);
      case None =>
        RemoveGroupsLeavesNoGroup(s, i + 1);
        KeepChar(s, i);
    }
  }

  /** One step of the scan that drops a whole group keeps the property. */
  lemma SkipGroup(s: string, i: nat, e: nat)
    requires i < |s| && GroupEnd(s, i) == Some(e)
    requires NoGroup(RemoveGroupsFrom(s, e))
    ensures NoGroup(RemoveGroupsFrom(s, i))
  {
    assert RemoveGroupsFrom(s, i) == RemoveGroupsFrom(s, e);
  }

  /** One step of the scan that keeps a character keeps the property: an
      opening parenthesis is kept only when no closing one follows it. */
  lemma KeepChar(s: string, i: nat)
    requires i < |s| && GroupEnd(s, i).None?
    requires NoGroup(RemoveGroupsFrom(s, i + 1))
    ensures NoGroup(RemoveGroupsFrom(s, i))
  {
    var rest := RemoveGroupsFrom(s, i + 1);
    if s[i] == '(' {
      RemoveGroupsKeepsOnlyInput(s, i + 1, ')');
    }
    NoGroupCons(s[i], rest);
    assert RemoveGroupsFrom(s, i) == [s[i]] + rest;
  }

  lemma NoGroupOfSlice(s: string, a: int, b: int)
    requires NoGroup(s) && 0 <= a <= b <= |s|
    ensures NoGroup(s[a..b])
  {
    var t := s[a..b];
    forall i, j | 0 <= i < j < |t| && t[i] == '('
      ensures t[j] != ')'
    {
      assert t[i] == s[a + i] && t[j] == s[a + j];
    }
  }

  lemma NoGroupOfStrip(s: string)
    requires NoGroup(s)
    ensures NoGroup(Strip(s))
  {
    StripIsMiddleSlice(s);
    var a := |s| - |StripLeading(s)|;
    NoGroupOfSlice(s, a, a + |Strip(s)|);
  }

  /** `f` lists, in increasing order, positions of `s` at or after `lo` that
      spell `r`. */
  ghost predicate Embeds(r: string, s: string, f: seq<int>, lo: nat) {
    && |f| == |r|
    && (forall k :: 0 <= k < |f| ==> lo <= f[k] < |s| && r[k] == s[f[k]])
    && (forall j, k :: 0 <= j < k < |f| ==> f[j] < f[k])
  }

  /** `r` is `s` with some characters left out. */
  ghost predicate IsSubsequence(r: string, s: string) {
    exists f :: Embeds(r, s, f, 0)
  }

  /** The scan keeps characters of the input in their order. */
  lemma {:induction false} RemoveGroupsEmbeds(s: string, i: nat) returns (f: seq<int>)
    requires i <= |s|
    ensures Embeds(RemoveGroupsFrom(s, i), s, f, i)
    decreases |s| - i
  {
    if i == |s| {
      f := [];
    } else {
      match GroupEnd(s, i)
      case Some(e) =>
        f := RemoveGroupsEmbeds(s, e);
        WidenEmbeds(RemoveGroupsFrom(s, e), s, f, e, i);
        assert RemoveGroupsFrom(s, i) == RemoveGroupsFrom(s, e);
      case None =>
        var g := RemoveGroupsEmbeds(s, i + 1);
        f := [i] + g;
        ConsEmbeds(s, i, RemoveGroupsFrom(s, i + 1), g);
        assert RemoveGroupsFrom(s, i) == [s[i]] + RemoveGroupsFrom(s, i + 1);
    }
  }

  lemma WidenEmbeds(r: string, s: string, f: seq<int>, lo: nat, lo': nat)
    requires Embeds(r, s, f, lo) && lo' <= lo
    ensures Embeds(r, s, f, lo')
  {
  }

  lemma ConsEmbeds(s: string, i: nat, rest: string, g: seq<int>)
    requires i < |s| && Embeds(rest, s, g, i + 1)
    ensures Embeds([s[i]] + rest, s, [i] + g, i)
  {
    var r, f := [s[i]] + rest, [i] + g;
    forall k | 0 < k < |f|
      ensures i < f[k] && r[k] == s[f[k]]
    {
      assert f[k] == g[k - 1] && r[k] == rest[k - 1];
    }
  }

  /** A slice of what was kept from a prefix of `s` is a subsequence of `s`. */
  lemma SliceOfEmbedded(r: string, n: string, m: string, s: string, g: seq<int>, a: int)
    requires Embeds(n, m, g, 0) && |m| <= |s| && m == s[..|m|]
    requires 0 <= a && a + |r| <= |n| && r == n[a..a + |r|]
    ensures IsSubsequence(r, s)
  {
    var h := seq(|r|, k requires 0 <= k < |r| => g[a + k]);
    forall k | 0 <= k < |h|
      ensures 0 <= h[k] < |s| && r[k] == s[h[k]]
    {
      assert r[k] == n[a + k] && m[g[a + k]] == s[g[a + k]];
    }
    assert Embeds(r, s, h, 0);
  }

  /** `clean_app_name`. The result is stripped and has no parenthesised
      group left in it. When no parenthesis is left once the suffix and the
      version are gone, it is what is left with only white space trimmed
      around it. */
  function CleanAppName(appName: string): (r: string)
    ensures r == [] || (!IsStripSpace(r[0]) && !IsStripSpace(r[|r| - 1]))
    ensures NoGroup(r)
    ensures var v := StripVersion(StripAppSuffix(appName));
      '(' !in v ==> StrippedAt(v, r, |v| - |StripLeading(v)|)
  {
    CleanUnversioned(StripVersion(StripAppSuffix(appName)))
  }

  /** The last two steps of `clean_app_name`, on a name whose suffix and
      version are already gone. */
  function CleanUnversioned(v: string): (r: string)
    ensures r == [] || (!IsStripSpace(r[0]) && !IsStripSpace(r[|r| - 1]))
    ensures NoGroup(r)
    ensures '(' !in v ==> StrippedAt(v, r, |v| - |StripLeading(v)|)
  {
    CleanLeavesNoGroup(v);
    CleanPlainStep(v, RemoveGroups(v));
    Strip(RemoveGroups(v))
  }

  lemma CleanLeavesNoGroup(v: string)
    ensures NoGroup(Strip(RemoveGroups(v)))
  {
    RemoveGroupsLeavesNoGroup(v, 0);
    NoGroupOfStrip(RemoveGroups(v));
  }

  lemma PrefixOfPrefix(s: string, x: string, v: string)
    requires |x| <= |s| && x == s[..|x|] && |v| <= |x| && v == x[..|v|]
    ensures v == s[..|v|]
  {
  }

  /** Without parentheses the group removal changes nothing, so only white
      space is trimmed from the version-free name. */
  lemma CleanPlainStep(v: string, n: string)
    requires n == RemoveGroups(v)
    ensures '(' !in v ==> StrippedAt(v, Strip(n), |v| - |StripLeading(v)|)
  {
    if '(' !in v {
      StripIsMiddleSlice(v);
    }
  }

  /** The clean name is the raw name with characters left out: nothing is
      added and the order is kept. */
  lemma CleanIsSubsequence(appName: string)
    ensures IsSubsequence(CleanAppName(appName), appName)
  {
    var x := StripAppSuffix(appName);
    var v := StripVersion(x);
    PrefixOfPrefix(appName, x, v);
    PipelineIsSubsequence(appName, v, RemoveGroups(v));
  }

  lemma PipelineIsSubsequence(appName: string, v: string, n: string)
    requires |v| <= |appName| && v == appName[..|v|] && n == RemoveGroupsFrom(v, 0)
    ensures IsSubsequence(Strip(n), appName)
  {
    var g := RemoveGroupsEmbeds(v, 0);
    StripIsMiddleSlice(n);
    StrippedIsSubsequence(appName, v, n, g, Strip(n), |n| - |StripLeading(n)|);
  }

  lemma StrippedIsSubsequence(s: string, v: string, n: string, g: seq<int>, r: string, a: int)
    requires |v| <= |s| && v == s[..|v|] && Embeds(n, v, g, 0) && StrippedAt(n, r, a)
    ensures IsSubsequence(r, s)
  {
    SliceOfEmbedded(r, n, v, s, g, a);
  }

  /** A name that none of the four steps changes is its own clean form. */
  lemma CleanKeepsPlainName(s: string)
    requires s != [] && !IsStripSpace(s[0]) && !IsStripSpace(s[|s| - 1]) && !IsDigit(s[|s| - 1])
    requires '(' !in s && StripAppSuffix(s) == s
    ensures CleanAppName(s) == s
  {
    StripVersionNoDigitEnd(s);
    StripOfStripped(s);
  }

  /** A trailing version is cut off, and nothing else when the rest is plain. */
  lemma CleanCutsVersion(s: string, i: nat)
    requires VersionAt(s, i) && StripAppSuffix(s) == s
    requires 0 < i && !IsStripSpace(s[0]) && !IsStripSpace(s[i - 1]) && '(' !in s[..i]
    ensures CleanAppName(s) == s[..i]
  {
    StripVersionAt(s, i);
    StripOfStripped(s[..i]);
  }

  /** The scan keeps a stretch without an opening parenthesis that does not
      end in white space: no match can start inside it. */
  lemma {:induction false} RemoveGroupsKeepsPlainStretch(s: string, k: nat, n: nat)
    requires k <= n <= |s|
    requires '(' !in s[k..n]
    requires k == n || !IsRegexSpace(s[n - 1])
    ensures RemoveGroupsFrom(s, k) == s[k..n] + RemoveGroupsFrom(s, n)
    decreases n - k
  {
    if k < n {
      var w := SpaceEnd(s, k);
      assert w < n;
      assert s[w] == s[k..n][w - k];
      assert '(' !in s[k + 1..n] by {
        assert s[k..n] == [s[k]] + s[k + 1..n];
      }
      RemoveGroupsKeepsPlainStretch(s, k + 1, n);
      assert s[k..n] == [s[k]] + s[k + 1..n];
    }
  }

  /** A closing group at the end of the name: white space from `p`, an opening
      parenthesis at `o`, and the first closing one as the last character. */
  lemma TrailingGroupEnd(s: string, p: nat, o: nat)
    requires p <= o < |s| - 1
    requires forall j :: p <= j < o ==> IsRegexSpace(s[j])
    requires s[o] == '(' && s[|s| - 1] == ')' && ')' !in s[o + 1..|s| - 1]
    ensures GroupEnd(s, p) == Some(|s|)
  {
    assert SpaceEnd(s, p) == o;
    forall k | o < k < |s| - 1
      ensures s[k] != ')'
    {
      assert s[k] == s[o + 1..|s| - 1][k - o - 1];
    }
  }

  /** A single trailing parenthesised group and the white space before it are
      dropped, and nothing else when the rest is plain. */
  lemma CleanDropsTrailingGroup(s: string, p: nat, o: nat)
    requires 0 < p <= o < |s| - 1
    requires !IsStripSpace(s[0]) && !IsStripSpace(s[p - 1]) && '(' !in s[..p]
    requires forall j :: p <= j < o ==> IsRegexSpace(s[j])
    requires s[o] == '(' && s[|s| - 1] == ')' && ')' !in s[o + 1..|s| - 1]
    ensures CleanAppName(s) == s[..p]
  {
    assert s[|s| - 3..][2] == ')';
    assert StripAppSuffix(s) == s;
    StripVersionNoDigitEnd(s);
    RemoveGroupsKeepsPlainStretch(s, 0, p);
    TrailingGroupEnd(s, p, o);
    StripOfStripped(s[..p]);
  }

  lemma CleanGoogleChrome()
    ensures CleanAppName("Google Chrome.app") == "Google Chrome"
  {
    assert StripAppSuffix("Google Chrome.app") == "Google Chrome";
    CleanKeepsPlainName("Google Chrome");
  }

  lemma CleanSlack()
    ensures CleanAppName("Slack 4.29.149") == "Slack"
  {
    CleanCutsVersion("Slack 4.29.149", 5);
  }

  lemma CleanITerm()
    ensures CleanAppName("iTerm (Beta)") == "iTerm"
  {
    CleanDropsTrailingGroup("iTerm (Beta)", 5, 6);
  }

  /** The unescaped dot: "Whatsapp" loses its last four characters. */
  lemma CleanWhatsapp()
    ensures CleanAppName("Whatsapp") == "What"
  {
    assert StripAppSuffix("Whatsapp") == "What";
    CleanKeepsPlainName("What");
  }

  /** Cleaning is not idempotent: the version is looked for before the
      parentheses are removed, so a second pass (`CleanNotionAgain`) removes
      more. */
  lemma CleanNotion()
    ensures CleanAppName("Notion 2.0 (Universal)") == "Notion 2.0"
  {
    CleanDropsTrailingGroup("Notion 2.0 (Universal)", 10, 11);
  }

  lemma CleanNotionAgain()
    ensures CleanAppName("Notion 2.0") == "Notion"
  {
    CleanCutsVersion("Notion 2.0", 6);
  }
}
