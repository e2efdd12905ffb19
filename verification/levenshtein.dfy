/**
  Levenshtein edit distance: the least number of single-character insertions,
  deletions and substitutions turning one string into the other. `Distance`
  is the textbook recurrence on prefixes; `ComputeDistance` fills the
  `(|s|+1) x (|t|+1)` table row by row, as the matcher does, and is proved to
  agree with it.
*/
module Levenshtein {

  function Min3(a: nat, b: nat, c: nat): nat {
    if a <= b && a <= c then a else if b <= c then b else c
  }

  function Max(a: nat, b: nat): nat {
    if a >= b then a else b
  }

  /** 0 if the last characters agree, else 1: the price of the diagonal step. */
  function Cost(s: string, t: string): nat
    requires |s| > 0 && |t| > 0
  {
    if s[|s| - 1] == t[|t| - 1] then 0 else 1
  }

  /** Cell `(|s|, |t|)` of the table: first column `i`, first row `j`, and
      every other cell the least of deletion, insertion and substitution. */
  function Distance(s: string, t: string): nat
    decreases |s| + |t|
  {
    if |s| == 0 then |t|
    else if |t| == 0 then |s|
    else
      Min3(Distance(s[..|s| - 1], t) + 1,
           Distance(s, t[..|t| - 1]) + 1,
           Distance(s[..|s| - 1], t[..|t| - 1]) + Cost(s, t))
  }

  lemma DistanceFromEmpty(s: string)
    ensures Distance(s, []) == |s| && Distance([], s) == |s|
  {
  }

  lemma {:induction false} DistanceToSelf(s: string)
    ensures Distance(s, s) == 0
    decreases |s|
  {
    if |s| > 0 {
      DistanceToSelf(s[..|s| - 1]);
    }
  }

  lemma {:induction false} DistanceSymmetric(s: string, t: string)
    ensures Distance(s, t) == Distance(t, s)
    decreases |s| + |t|
  {
    if |s| > 0 && |t| > 0 {
      DistanceSymmetric(s[..|s| - 1], t);
      DistanceSymmetric(s, t[..|t| - 1]);
      DistanceSymmetric(s[..|s| - 1], t[..|t| - 1]);
    }
  }

  /** At most one edit per position of the longer string. */
  lemma {:induction false} DistanceUpperBound(s: string, t: string)
    ensures Distance(s, t) <= Max(|s|, |t|)
    decreases |s| + |t|
  {
    if |s| > 0 && |t| > 0 {
      DistanceUpperBound(s[..|s| - 1], t[..|t| - 1]);
    }
  }

  /** At least one edit per character the lengths differ by. */
  lemma {:induction false} DistanceLowerBound(s: string, t: string)
    ensures |s| - |t| <= Distance(s, t) && |t| - |s| <= Distance(s, t)
    decreases |s| + |t|
  {
    if |s| > 0 && |t| > 0 {
      DistanceLowerBound(s[..|s| - 1], t);
      DistanceLowerBound(s, t[..|t| - 1]);
      DistanceLowerBound(s[..|s| - 1], t[..|t| - 1]);
    }
  }

  lemma {:induction false} DistanceZeroIffEqual(s: string, t: string)
    ensures Distance(s, t) == 0 <==> s == t
    decreases |s| + |t|
  {
    DistanceToSelf(s);
    if |s| > 0 && |t| > 0 && Distance(s, t) == 0 {
      var s', t' := s[..|s| - 1], t[..|t| - 1];
      assert Distance(s', t') == 0 && Cost(s, t) == 0;
      DistanceZeroIffEqual(s', t');
      assert s == s' + [s[|s| - 1]] && t == t' + [t[|t| - 1]];
    }
  }

  /** The recurrence read on prefixes: the step the table makes at `(i, j)`. */
  lemma DistanceStep(s: string, t: string, i: nat, j: nat)
    requires 1 <= i <= |s| && 1 <= j <= |t|
    ensures Distance(s[..i], t[..j])
         == Min3(Distance(s[..i - 1], t[..j]) + 1,
                 Distance(s[..i], t[..j - 1]) + 1,
                 Distance(s[..i - 1], t[..j - 1]) + (if s[i - 1] == t[j - 1] then 0 else 1))
  {
    var si, tj := s[..i], t[..j];
    assert si[..i - 1] == s[..i - 1];
    assert tj[..j - 1] == t[..j - 1];
    assert Cost(si, tj) == if s[i - 1] == t[j - 1] then 0 else 1;
  }

  /** Row `i` of the table holds the distances from the first `i` characters
      of `s` to every prefix of `t`. */
  ghost predicate RowDone(d: array2<nat>, s: string, t: string, i: nat)
    reads d
    requires i <= |s| && d.Length0 == |s| + 1 && d.Length1 == |t| + 1
  {
    forall b :: 0 <= b <= |t| ==> d[i, b] == Distance(s[..i], t[..b])
  }

  /** Fills row `i` left to right from row `i - 1` and the first column. */
  method FillRow(d: array2<nat>, s: string, t: string, i: nat)
    requires 1 <= i <= |s| && d.Length0 == |s| + 1 && d.Length1 == |t| + 1
    requires RowDone(d, s, t, i - 1) && d[i, 0] == i
    modifies d
    ensures RowDone(d, s, t, i)
    ensures forall a, b :: 0 <= a <= |s| && 0 <= b <= |t| && a != i ==> d[a, b] == old(d[a, b])
  {
    assert Distance(s[..i], t[..0]) == i;
    var j := 1;
    while j <= |t|
      invariant 1 <= j <= |t| + 1
      invariant RowDone(d, s, t, i - 1)
      invariant forall b :: 0 <= b < j ==> d[i, b] == Distance(s[..i], t[..b])
      invariant forall a, b :: 0 <= a <= |s| && 0 <= b <= |t| && a != i ==> d[a, b] == old(d[a, b])
    {
      var cost := if s[i - 1] == t[j - 1] then 0 else 1;
      var up, left, diag := d[i - 1, j], d[i, j - 1], d[i - 1, j - 1];
      assert up == Distance(s[..i - 1], t[..j]);
      assert diag == Distance(s[..i - 1], t[..j - 1]);
      assert left == Distance(s[..i], t[..j - 1]);
      DistanceStep(s, t, i, j);
      d[i, j] := Min3(up + 1, left + 1, diag + cost);
      assert d[i, j] == Distance(s[..i], t[..j]);
      j := j + 1;
    }
  }

  /** `levenshtein_distance`: the dynamic-programming table, filled row by row. */
  method ComputeDistance(s: string, t: string) returns (dist: nat)
    ensures dist == Distance(s, t)
  {
    var d := new nat[|s| + 1, |t| + 1];
    var i := 0;
    while i <= |s|
      invariant 0 <= i <= |s| + 1
      invariant forall a :: 0 <= a < i ==> d[a, 0] == a
    {
      d[i, 0] := i;
      i := i + 1;
    }
    var j := 0;
    while j <= |t|
      invariant 0 <= j <= |t| + 1
      invariant forall a :: 1 <= a <= |s| ==> d[a, 0] == a
      invariant forall b :: 0 <= b < j ==> d[0, b] == b
    {
      d[0, j] := j;
      j := j + 1;
    }
    assert RowDone(d, s, t, 0) by {
      forall b | 0 <= b <= |t|
        ensures d[0, b] == Distance(s[..0], t[..b])
      {
        DistanceFromEmpty(t[..b]);
      }
    }
    i := 1;
    while i <= |s|
      invariant 1 <= i <= |s| + 1
      invariant RowDone(d, s, t, i - 1)
      invariant forall a :: i <= a <= |s| ==> d[a, 0] == a
    {
      FillRow(d, s, t, i);
      i := i + 1;
    }
    dist := d[|s|, |t|];
    assert s[..|s|] == s && t[..|t|] == t;
  }
}
