/**
  The Ruby `String` operations the matcher relies on, over strings of `char`:
  `downcase` (ASCII letters only), `gsub('-', ' ')`, `strip`, `include?`,
  `split` with a string separator, and the inverse of `split`, a join.
*/
module RubyString {
  import opened Options

  /** A character matched by `\s` in a Ruby regular expression:
      space, tab, line feed, vertical tab, form feed, carriage return. */
  predicate IsRegexSpace(c: char) {
    c == ' ' || c == '\t' || c == '\n' || c == '\r' || c as int == 0x0B || c as int == 0x0C
  }

  /** A character that `String#strip` removes: the `\s` characters and NUL. */
  predicate IsStripSpace(c: char) {
    c as int == 0 || IsRegexSpace(c)
  }

  predicate IsDigit(c: char) {
    '0' <= c <= '9'
  }

  predicate AllStripSpace(s: string) {
    forall i :: 0 <= i < |s| ==> IsStripSpace(s[i])
  }

  function LowerChar(c: char): char {
    if 'A' <= c <= 'Z' then (c as int + 32) as char else c
  }

  /** `String#downcase`, restricted to the ASCII letters. */
  function Downcase(s: string): (r: string)
    ensures |r| == |s|
  {
    seq(|s|, i requires 0 <= i < |s| => LowerChar(s[i]))
  }

  lemma DowncaseIdempotent(s: string)
    ensures Downcase(Downcase(s)) == Downcase(s)
  {
  }

  /** `gsub('-', ' ')`. */
  function ReplaceDashes(s: string): (r: string)
    ensures |r| == |s|
    ensures '-' !in r
  {
    seq(|s|, i requires 0 <= i < |s| => if s[i] == '-' then ' ' else s[i])
  }

  /** `lstrip`: drops the leading run of strip-space characters. */
  function StripLeading(s: string): (r: string)
    ensures |r| <= |s| && r == s[|s| - |r|..]
    ensures AllStripSpace(s[..|s| - |r|])
    ensures r == [] || !IsStripSpace(r[0])
    decreases |s|
  {
    if |s| > 0 && IsStripSpace(s[0]) then
      var r := StripLeading(s[1..]);
      LeadingStep(s, s[1..], r);
      r
    else
      s
  }

  /** `rstrip`: drops the trailing run of strip-space characters. */
  function StripTrailing(s: string): (r: string)
    ensures |r| <= |s| && r == s[..|r|]
    ensures AllStripSpace(s[|r|..])
    ensures r == [] || !IsStripSpace(r[|r| - 1])
    decreases |s|
  {
    if |s| > 0 && IsStripSpace(s[|s| - 1]) then
      var r := StripTrailing(s[..|s| - 1]);
      TrailingStep(s, s[..|s| - 1], r);
      r
    else
      s
  }

  /** Dropping one more strip-space character in front keeps `r` a suffix
      with only strip-space before it. */
  lemma LeadingStep(s: string, p: string, r: string)
    requires |s| > 0 && p == s[1..] && IsStripSpace(s[0])
    requires |r| <= |p| && r == p[|p| - |r|..] && AllStripSpace(p[..|p| - |r|])
    ensures r == s[|s| - |r|..] && AllStripSpace(s[..|s| - |r|])
  {
    assert s[..|s| - |r|] == [s[0]] + p[..|p| - |r|];
  }

  /** Dropping one more strip-space character at the end keeps `r` a prefix
      with only strip-space after it. */
  lemma TrailingStep(s: string, p: string, r: string)
    requires |s| > 0 && p == s[..|s| - 1] && IsStripSpace(s[|s| - 1])
    requires |r| <= |p| && r == p[..|r|] && AllStripSpace(p[|r|..])
    ensures r == s[..|r|] && AllStripSpace(s[|r|..])
  {
    assert s[|r|..] == p[|r|..] + [s[|s| - 1]];
  }

  /** `String#strip`: neither end of the result is a strip-space character. */
  function Strip(s: string): (r: string)
    ensures r == [] || (!IsStripSpace(r[0]) && !IsStripSpace(r[|r| - 1]))
  {
    StripTrailing(StripLeading(s))
  }

  /** What `strip` leaves is the middle slice of `s`: only strip-space
      characters are removed, and only at the two ends. */
  lemma StripIsMiddleSlice(s: string)
    ensures StrippedAt(s, Strip(s), |s| - |StripLeading(s)|)
  {
    MiddleOfSuffix(s, StripLeading(s), Strip(s));
  }

  /** A prefix `r` of a suffix `l` of `s`, with only strip-space cut off at
      either end, is a middle slice. */
  lemma MiddleOfSuffix(s: string, l: string, r: string)
    requires |l| <= |s| && l == s[|s| - |l|..] && AllStripSpace(s[..|s| - |l|])
    requires |r| <= |l| && r == l[..|r|] && AllStripSpace(l[|r|..])
    ensures StrippedAt(s, r, |s| - |l|)
  {
    var a := |s| - |l|;
    assert r == s[a..a + |r|];
    assert s[a + |r|..] == l[|r|..];
  }

  /** `r` is the slice of `s` at offset `a` and only strip-space lies around it. */
  ghost predicate StrippedAt(s: string, r: string, a: int) {
    && 0 <= a && a + |r| <= |s|
    && r == s[a..a + |r|]
    && AllStripSpace(s[..a])
    && AllStripSpace(s[a + |r|..])
  }

  /** A string that is already stripped is left alone. */
  lemma StripOfStripped(s: string)
    requires s == [] || (!IsStripSpace(s[0]) && !IsStripSpace(s[|s| - 1]))
    ensures Strip(s) == s
  {
  }

  lemma {:induction false} StripLeadingOf(x: string, z: string)
    requires AllStripSpace(x)
    requires z == [] || !IsStripSpace(z[0])
    ensures StripLeading(x + z) == z
    decreases |x|
  {
    if |x| > 0 {
      assert (x + z)[1..] == x[1..] + z;
      StripLeadingOf(x[1..], z);
    }
  }

  lemma {:induction false} StripTrailingOf(z: string, y: string)
    requires AllStripSpace(y)
    requires z == [] || !IsStripSpace(z[|z| - 1])
    ensures StripTrailing(z + y) == z
    decreases |y|
  {
    if |y| > 0 {
      assert (z + y)[..|z + y| - 1] == z + y[..|y| - 1];
      StripTrailingOf(z, y[..|y| - 1]);
    }
  }

  /** Strip removes exactly the space around a stripped core. */
  lemma StripAround(x: string, core: string, y: string)
    requires AllStripSpace(x) && AllStripSpace(y)
    requires core != [] && !IsStripSpace(core[0]) && !IsStripSpace(core[|core| - 1])
    ensures Strip(x + core + y) == core
  {
    assert x + core + y == x + (core + y);
    StripLeadingOf(x, core + y);
    StripTrailingOf(core, y);
  }

  /** `s[i..]` starts with `sep`. */
  predicate OccursAt(s: string, sep: string, i: int) {
    0 <= i && i + |sep| <= |s| && s[i..i + |sep|] == sep
  }

  /** `String#include?`. */
  predicate Contains(s: string, sep: string) {
    exists i :: 0 <= i <= |s| - |sep| && OccursAt(s, sep, i)
  }

  predicate EndsWith(s: string, suffix: string) {
    |suffix| <= |s| && s[|s| - |suffix|..] == suffix
  }

  /** A string whose first character never appears in `s` does not occur in it. */
  lemma AbsentFirstChar(s: string, sep: string)
    requires |sep| > 0 && sep[0] !in s
    ensures !Contains(s, sep)
  {
    forall i | 0 <= i <= |s| - |sep|
      ensures !OccursAt(s, sep, i)
    {
      assert s[i] in s;
      assert s[i..i + |sep|][0] == s[i];
    }
  }

  /** The leftmost occurrence of `sep` in `s` at or after `from`. */
  function IndexFrom(s: string, sep: string, from: nat): (r: Option<nat>)
    ensures r.Some? ==> from <= r.value && OccursAt(s, sep, r.value)
    ensures forall i :: from <= i && (r.None? || i < r.value) ==> !OccursAt(s, sep, i)
    decreases |s| - from
  {
    if from + |sep| > |s| then None
    else if OccursAt(s, sep, from) then Some(from)
    else IndexFrom(s, sep, from + 1)
  }

  /** The inverse of splitting: the fields with `sep` between neighbours. */
  function Join(fields: seq<string>, sep: string): string {
    if |fields| == 0 then []
    else if |fields| == 1 then fields[0]
    else fields[0] + sep + Join(fields[1..], sep)
  }

  /** All fields between the leftmost non-overlapping occurrences of `sep`,
      empty ones included. */
  function SplitFields(s: string, sep: string): (r: seq<string>)
    requires |sep| > 0
    ensures |r| > 0
    decreases |s|
  {
    match IndexFrom(s, sep, 0)
    case None => [s]
    case Some(i) => [s[..i]] + SplitFields(s[i + |sep|..], sep)
  }

  /** Splitting peels off the text before the leftmost separator. */
  lemma SplitFieldsAt(s: string, sep: string, i: nat)
    requires |sep| > 0 && IndexFrom(s, sep, 0) == Some(i)
    ensures i + |sep| <= |s|
    ensures SplitFields(s, sep) == [s[..i]] + SplitFields(s[i + |sep|..], sep)
  {
  }

  /** The text before the leftmost occurrence holds no occurrence. */
  lemma NoOccurrenceBefore(s: string, sep: string, i: nat)
    requires |sep| > 0 && i <= |s|
    requires forall j :: 0 <= j < i ==> !OccursAt(s, sep, j)
    ensures !Contains(s[..i], sep)
  {
    forall j | 0 <= j <= i - |sep| && OccursAt(s[..i], sep, j)
      ensures OccursAt(s, sep, j)
    {
      assert s[..i][j..j + |sep|] == s[j..j + |sep|];
    }
  }

  /** A string without the separator is a single field. */
  lemma SplitFieldsAbsent(s: string, sep: string)
    requires |sep| > 0 && !Contains(s, sep)
    ensures SplitFields(s, sep) == [s]
  {
    assert IndexFrom(s, sep, 0).None?;
  }

  /** Splitting then joining with the same separator is the identity. */
  lemma {:induction false} SplitFieldsJoin(s: string, sep: string)
    requires |sep| > 0
    ensures Join(SplitFields(s, sep), sep) == s
    decreases |s|
  {
    match IndexFrom(s, sep, 0)
    case None =>
    case Some(i) =>
      var rest := SplitFields(s[i + |sep|..], sep);
      SplitFieldsJoin(s[i + |sep|..], sep);
      assert ([s[..i]] + rest)[1..] == rest;
      assert s[i..i + |sep|] == sep;
      assert s == s[..i] + sep + s[i + |sep|..];
  }

  /** No field holds the separator. */
  lemma {:induction false} SplitFieldsSeparatorFree(s: string, sep: string)
    requires |sep| > 0
    ensures forall k :: 0 <= k < |SplitFields(s, sep)| ==> !Contains(SplitFields(s, sep)[k], sep)
    decreases |s|
  {
    match IndexFrom(s, sep, 0)
    case None =>
    case Some(i) =>
      SplitFieldsSeparatorFree(s[i + |sep|..], sep);
      NoOccurrenceBefore(s, sep, i);
  }

  /** The last field is empty only when the string is, or ends with `sep`. */
  lemma {:induction false} SplitFieldsLastEmpty(s: string, sep: string)
    requires |sep| > 0
    ensures var r := SplitFields(s, sep); r[|r| - 1] == [] ==> s == [] || EndsWith(s, sep)
    decreases |s|
  {
    match IndexFrom(s, sep, 0)
    case None =>
    case Some(i) =>
      var s' := s[i + |sep|..];
      SplitFieldsLastEmpty(s', sep);
      if s' != [] && EndsWith(s', sep) {
        assert s[|s| - |sep|..] == s'[|s'| - |sep|..];
      }
  }

  /** Removes the empty fields at the end, as `split` does when no limit is given. */
  function DropTrailingEmpty(fields: seq<string>): (r: seq<string>)
    ensures |r| <= |fields| && r == fields[..|r|]
    ensures r == [] || r[|r| - 1] != []
    ensures forall k :: |r| <= k < |fields| ==> fields[k] == []
  {
    if |fields| > 0 && fields[|fields| - 1] == [] then DropTrailingEmpty(fields[..|fields| - 1])
    else fields
  }

  /** `String#split(sep)` with a non-empty string separator and no limit. */
  function Split(s: string, sep: string): (r: seq<string>)
    requires |sep| > 0
    ensures forall k :: 0 <= k < |r| ==> !Contains(r[k], sep)
    ensures r == [] || r[|r| - 1] != []
  {
    SplitFieldsSeparatorFree(s, sep);
    DropTrailingEmpty(SplitFields(s, sep))
  }

  /** Joining the fields of a split gives back the string, unless the string
      ends with the separator (the fields dropped at the end are lost). */
  lemma SplitJoinRoundTrip(s: string, sep: string)
    requires |sep| > 0 && !EndsWith(s, sep)
    ensures Join(Split(s, sep), sep) == s
  {
    var fields := SplitFields(s, sep);
    SplitFieldsJoin(s, sep);
    SplitFieldsLastEmpty(s, sep);
    if fields[|fields| - 1] == [] {
      assert s == [];
      assert fields == [[]];
    }
  }

  /** A lone line break strips to nothing. */
  lemma StripLineBreak()
    ensures Strip("\n") == []
  {
    assert StripLeading("\n") == StripLeading("\n"[1..]);
  }

  /** Splitting empty text gives no fields at all. */
  lemma SplitNothing(sep: string)
    requires |sep| > 0
    ensures Split([], sep) == []
  {
    assert IndexFrom([], sep, 0).None?;
  }

  /** The first occurrence of a one-character separator ends the text that
      does not hold it. */
  lemma FirstSeparatorAfter(head: string, c: char, tail: string)
    requires c !in head
    ensures IndexFrom(head + [c] + tail, [c], 0) == Some(|head|)
  {
    var s := head + [c] + tail;
    assert s[|head|..|head| + 1] == [c];
    assert OccursAt(s, [c], |head|);
    forall i | 0 <= i < |head|
      ensures !OccursAt(s, [c], i)
    {
      assert s[i..i + 1][0] == s[i] == head[i];
      assert head[i] in head;
    }
  }

  /** Splitting peels off the text before the first separator. */
  lemma SplitFieldsCons(head: string, c: char, tail: string)
    requires c !in head
    ensures SplitFields(head + [c] + tail, [c]) == [head] + SplitFields(tail, [c])
  {
    var s := head + [c] + tail;
    FirstSeparatorAfter(head, c, tail);
    assert s[..|head|] == head;
    assert s[|head| + 1..] == tail;
  }

  /** Fields free of a one-character separator come back from their join. */
  lemma {:induction false} SplitFieldsOfJoin(lines: seq<string>, c: char)
    requires |lines| > 0 && forall k :: 0 <= k < |lines| ==> c !in lines[k]
    ensures SplitFields(Join(lines, [c]), [c]) == lines
    decreases |lines|
  {
    if |lines| == 1 {
      AbsentFirstChar(lines[0], [c]);
      SplitFieldsAbsent(lines[0], [c]);
    } else {
      SplitFieldsCons(lines[0], c, Join(lines[1..], [c]));
      SplitFieldsOfJoin(lines[1..], c);
      assert lines == [lines[0]] + lines[1..];
    }
  }

  /** Splitting joined lines at the line break gives the lines back, provided
      the last one is not empty (Ruby drops empty fields at the end). */
  lemma SplitOfJoin(lines: seq<string>, c: char)
    requires forall k :: 0 <= k < |lines| ==> c !in lines[k]
    requires lines == [] || lines[|lines| - 1] != []
    ensures Split(Join(lines, [c]), [c]) == lines
  {
    if lines == [] {
      assert IndexFrom([], [c], 0) == None;
    } else {
      SplitFieldsOfJoin(lines, c);
    }
  }
}
