/** Case-insensitive Levenshtein distance, computed by a full dynamic
    programming table, and the fuzzy window count built on it
    (src/LevenshteinDistance.py). */
module Levenshtein {
  import opened Strings

  /** The threshold `fuzzy_search` uses when the caller gives none. */
  const DefaultMaxDistance := 2

  /** Substitution cost: 0 when the characters agree after lowercasing. */
  function Cost(a: char, b: char): (r: nat)
    ensures r <= 1
    ensures r == 0 <==> Lower(a) == Lower(b)
  {
    if Lower(a) == Lower(b) then 0 else 1
  }

  function Min3(a: nat, b: nat, c: nat): (r: nat)
    ensures r <= a && r <= b && r <= c
    ensures r == a || r == b || r == c
  {
    if a <= b && a <= c then a else if b <= c then b else c
  }

  /** The edit distance of `s` and `t`, by the recurrence on their last
      characters: delete from `s`, insert into `s`, or substitute. */
  function EditDistance(s: string, t: string): nat
    decreases |s| + |t|
  {
    if |s| == 0 then |t|
    else if |t| == 0 then |s|
    else Min3(EditDistance(s[..|s| - 1], t) + 1,
              EditDistance(s, t[..|t| - 1]) + 1,
              EditDistance(s[..|s| - 1], t[..|t| - 1]) + Cost(s[|s| - 1], t[|t| - 1]))
  }

  /** Equality after lowercasing every character. */
  predicate EqualIgnoringCase(s: string, t: string) {
    |s| == |t| && forall k :: 0 <= k < |s| ==> Lower(s[k]) == Lower(t[k])
  }

  /** The distance between the prefixes `source[..i]` and `target[..j]`. */
  function PrefixDistance(source: string, target: string, i: nat, j: nat): nat
    requires i <= |source| && j <= |target|
  {
    EditDistance(source[..i], target[..j])
  }

  /** The recurrence the table follows, stated on prefixes. */
  lemma PrefixStep(source: string, target: string, i: nat, j: nat)
    requires 1 <= i <= |source| && 1 <= j <= |target|
    ensures PrefixDistance(source, target, i, j)
      == Min3(PrefixDistance(source, target, i - 1, j) + 1,
              PrefixDistance(source, target, i, j - 1) + 1,
              PrefixDistance(source, target, i - 1, j - 1) + Cost(source[i - 1], target[j - 1]))
  {
    assert source[..i][..i - 1] == source[..i - 1];
    assert target[..j][..j - 1] == target[..j - 1];
  }

  /** `LevenshteinDistance(source, target)`: row `j`, column `i` of the table
      holds the distance between `source[..i]` and `target[..j]`. */
  method LevenshteinDistance(source: string, target: string) returns (d: nat)
    ensures d == EditDistance(source, target)
  {
    var m := |source|;
    var n := |target|;
    var matrix := new nat[n + 1, m + 1]((_, _) => 0);

    for i := 1 to m + 1
      invariant forall k :: 1 <= k < i ==> matrix[0, k] == k
      invariant matrix[0, 0] == 0
    {
      matrix[0, i] := i;
    }
    for i := 1 to n + 1
      invariant forall k :: 0 <= k <= m ==> matrix[0, k] == PrefixDistance(source, target, k, 0)
      invariant forall k :: 1 <= k < i ==> matrix[k, 0] == k
    {
      matrix[i, 0] := i;
    }

    for j := 1 to n + 1
      invariant forall jj, ii :: 0 <= jj < j && 0 <= ii <= m ==>
        matrix[jj, ii] == PrefixDistance(source, target, ii, jj)
      invariant forall k :: j <= k <= n ==> matrix[k, 0] == k
    {
      assert matrix[j, 0] == PrefixDistance(source, target, 0, j);
      for i := 1 to m + 1
        invariant forall jj, ii :: 0 <= jj < j && 0 <= ii <= m ==>
          matrix[jj, ii] == PrefixDistance(source, target, ii, jj)
        invariant forall ii :: 0 <= ii < i ==>
          matrix[j, ii] == PrefixDistance(source, target, ii, j)
        invariant forall k :: j < k <= n ==> matrix[k, 0] == k
      {
        var cost := if Lower(source[i - 1]) == Lower(target[j - 1]) then 0 else 1;
        PrefixStep(source, target, i, j);
        var best := Min3(matrix[j - 1, i] + 1, matrix[j, i - 1] + 1, matrix[j - 1, i - 1] + cost);
        assert best == PrefixDistance(source, target, i, j);
        matrix[j, i] := best;
      }
    }
    assert source[..m] == source && target[..n] == target;
    d := matrix[n, m];
  }

  /** The distance to the empty string is the other string's length. */
  lemma EmptyDistance(s: string)
    ensures EditDistance(s, "") == |s| && EditDistance("", s) == |s|
  {
  }

  /** Every distance lies between the difference and the larger of the lengths. */
  lemma {:induction false} DistanceBounds(s: string, t: string)
    ensures EditDistance(s, t) <= if |s| >= |t| then |s| else |t|
    ensures EditDistance(s, t) >= if |s| >= |t| then |s| - |t| else |t| - |s|
    decreases |s| + |t|
  {
    if |s| > 0 && |t| > 0 {
      DistanceBounds(s[..|s| - 1], t);
      DistanceBounds(s, t[..|t| - 1]);
      DistanceBounds(s[..|s| - 1], t[..|t| - 1]);
    }
  }

  /** The distance is symmetric. */
  lemma {:induction false} DistanceSymmetric(s: string, t: string)
    ensures EditDistance(s, t) == EditDistance(t, s)
    decreases |s| + |t|
  {
    if |s| > 0 && |t| > 0 {
      DistanceSymmetric(s[..|s| - 1], t);
      DistanceSymmetric(s, t[..|t| - 1]);
      DistanceSymmetric(s[..|s| - 1], t[..|t| - 1]);
      assert Cost(s[|s| - 1], t[|t| - 1]) == Cost(t[|t| - 1], s[|s| - 1]);
    }
  }

  /** The distance is zero exactly when the strings agree case-insensitively. */
  lemma {:induction false} DistanceZeroIff(s: string, t: string)
    ensures EditDistance(s, t) == 0 <==> EqualIgnoringCase(s, t)
    decreases |s| + |t|
  {
    if |s| > 0 && |t| > 0 {
      var s', t' := s[..|s| - 1], t[..|t| - 1];
      DistanceZeroIff(s', t');
      if EditDistance(s, t) == 0 {
        DistanceBounds(s', t);
        DistanceBounds(s, t');
        assert EditDistance(s', t') == 0 && Cost(s[|s| - 1], t[|t| - 1]) == 0;
        assert forall k :: 0 <= k < |s| ==> Lower(s[k]) == Lower(t[k]) by {
          forall k | 0 <= k < |s| ensures Lower(s[k]) == Lower(t[k]) {
            if k < |s| - 1 { assert s[k] == s'[k] && t[k] == t'[k]; }
          }
        }
      }
      if EqualIgnoringCase(s, t) {
        assert EqualIgnoringCase(s', t') by {
          forall k | 0 <= k < |s'| ensures Lower(s'[k]) == Lower(t'[k]) {
            assert s'[k] == s[k] && t'[k] == t[k];
          }
        }
      }
    }
  }

  // ---------------------------------------------------------------------
  // Fuzzy window search

  /** The number of windows `range(len(text) - len(pattern) + 1)` visits. */
  function WindowCount(text: string, pattern: string): (r: nat)
    ensures |pattern| > |text| ==> r == 0
    ensures |pattern| <= |text| ==> r + |pattern| == |text| + 1
  {
    if |pattern| <= |text| then |text| - |pattern| + 1 else 0
  }

  /** The window of `text` that starts at `i` and is as wide as `pattern`. */
  function Window(text: string, pattern: string, i: nat): (w: string)
    requires i < WindowCount(text, pattern)
    ensures |w| == |pattern|
  {
    text[i..i + |pattern|]
  }

  /** How many of the first `n` windows lie within `maxDistance` of the pattern. */
  function FuzzyMatches(text: string, pattern: string, maxDistance: int, n: nat): (r: nat)
    requires n <= WindowCount(text, pattern)
    ensures r <= n
  {
    if n == 0 then 0
    else FuzzyMatches(text, pattern, maxDistance, n - 1)
         + (if EditDistance(Window(text, pattern, n - 1), pattern) <= maxDistance then 1 else 0)
  }

  /** What `fuzzy_search(text, pattern, max_distance)` returns. */
  function FuzzyCount(text: string, pattern: string, maxDistance: int): nat
  {
    FuzzyMatches(text, pattern, maxDistance, WindowCount(text, pattern))
  }

  /** How many of the first `n` windows equal the pattern case-insensitively. */
  function Occurrences(text: string, pattern: string, n: nat): (r: nat)
    requires n <= WindowCount(text, pattern)
  {
    if n == 0 then 0
    else Occurrences(text, pattern, n - 1)
         + (if EqualIgnoringCase(Window(text, pattern, n - 1), pattern) then 1 else 0)
  }

  /** `fuzzy_search`: one distance table per window, counting those within range. */
  method FuzzySearch(text: string, pattern: string, maxDistance: int) returns (count: nat)
    ensures count == FuzzyCount(text, pattern, maxDistance)
  {
    var patternLen := |pattern|;
    count := 0;
    var windows := |text| - patternLen + 1;
    var i := 0;
    while i < windows
      invariant 0 <= i && (windows <= 0 ==> i == 0)
      invariant windows > 0 ==> i <= windows && windows == WindowCount(text, pattern)
      invariant count == FuzzyMatches(text, pattern, maxDistance, i)
    {
      var substring := text[i..i + patternLen];
      var distance := LevenshteinDistance(substring, pattern);
      if distance <= maxDistance {
        count := count + 1;
      }
      i := i + 1;
    }
  }

  /** `fuzzy_search(text, pattern)` with the default threshold. */
  method FuzzySearchDefault(text: string, pattern: string) returns (count: nat)
    ensures count == FuzzyCount(text, pattern, DefaultMaxDistance)
  {
    count := FuzzySearch(text, pattern, DefaultMaxDistance);
  }

  /** The count never exceeds the number of windows, and is 0 when the
      pattern is longer than the text. */
  lemma FuzzyCountBound(text: string, pattern: string, maxDistance: int)
    ensures FuzzyCount(text, pattern, maxDistance) <= if |pattern| <= |text| then |text| - |pattern| + 1 else 0
    ensures |pattern| > |text| ==> FuzzyCount(text, pattern, maxDistance) == 0
  {
  }

  /** With threshold 0 the windows counted are exactly the case-insensitive
      occurrences, overlapping ones included. */
  lemma {:induction false} FuzzyZeroIsExact(text: string, pattern: string, n: nat)
    requires n <= WindowCount(text, pattern)
    ensures FuzzyMatches(text, pattern, 0, n) == Occurrences(text, pattern, n)
  {
    if n > 0 {
      FuzzyZeroIsExact(text, pattern, n - 1);
      DistanceZeroIff(Window(text, pattern, n - 1), pattern);
    }
  }

  lemma FuzzyCountZero(text: string, pattern: string)
    ensures FuzzyCount(text, pattern, 0) == Occurrences(text, pattern, WindowCount(text, pattern))
  {
    FuzzyZeroIsExact(text, pattern, WindowCount(text, pattern));
  }

  /** A larger threshold never counts fewer windows. */
  lemma {:induction false} FuzzyMonotone(text: string, pattern: string, d1: int, d2: int, n: nat)
    requires d1 <= d2 && n <= WindowCount(text, pattern)
    ensures FuzzyMatches(text, pattern, d1, n) <= FuzzyMatches(text, pattern, d2, n)
  {
    if n > 0 {
      FuzzyMonotone(text, pattern, d1, d2, n - 1);
    }
  }

  /** Once the threshold reaches the pattern length every window counts. */
  lemma {:induction false} FuzzyAllWindows(text: string, pattern: string, maxDistance: int, n: nat)
    requires maxDistance >= |pattern| && n <= WindowCount(text, pattern)
    ensures FuzzyMatches(text, pattern, maxDistance, n) == n
  {
    if n > 0 {
      FuzzyAllWindows(text, pattern, maxDistance, n - 1);
      DistanceBounds(Window(text, pattern, n - 1), pattern);
    }
  }

  lemma FuzzyCountAll(text: string, pattern: string, maxDistance: int)
    requires maxDistance >= |pattern| && |pattern| <= |text|
    ensures FuzzyCount(text, pattern, maxDistance) == |text| - |pattern| + 1
  {
    FuzzyAllWindows(text, pattern, maxDistance, WindowCount(text, pattern));
  }

  lemma FuzzyCountMonotone(text: string, pattern: string, d1: int, d2: int)
    requires d1 <= d2
    ensures FuzzyCount(text, pattern, d1) <= FuzzyCount(text, pattern, d2)
  {
    FuzzyMonotone(text, pattern, d1, d2, WindowCount(text, pattern));
  }
}
