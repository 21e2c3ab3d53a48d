/** Single-shot Boyer–Moore search with the bad-character rule only
    (src/boyer_moore.py). Comparison is case-sensitive. */
module BoyerMoore {
  import opened Strings

  /** `pattern` occurs in `text` starting at `a`. */
  predicate MatchesAt(text: string, pattern: string, a: int) {
    0 <= a && a + |pattern| <= |text| && text[a..a + |pattern|] == pattern
  }

  /** The brute-force reference: the first start at or after `a` where
      `pattern` occurs, or -1. */
  function FirstMatchFrom(text: string, pattern: string, a: nat): int
    decreases |text| - a
  {
    if a + |pattern| > |text| then -1
    else if text[a..a + |pattern|] == pattern then a
    else FirstMatchFrom(text, pattern, a + 1)
  }

  /** What `boyer_moore(text, pattern)` returns: the leftmost occurrence, or -1.
      An empty pattern gives -1, since the scan never compares anything. */
  function Leftmost(text: string, pattern: string): int
  {
    if |pattern| == 0 then -1 else FirstMatchFrom(text, pattern, 0)
  }

  lemma {:induction false} FirstMatchFromSpec(text: string, pattern: string, a: nat)
    ensures var r := FirstMatchFrom(text, pattern, a);
      (r == -1 || (a <= r && MatchesAt(text, pattern, r)))
      && (forall k :: a <= k && (r == -1 || k < r) ==> !MatchesAt(text, pattern, k))
    decreases |text| - a
  {
    if a + |pattern| <= |text| && text[a..a + |pattern|] != pattern {
      FirstMatchFromSpec(text, pattern, a + 1);
    }
  }

  /** A non-negative result is an occurrence with none before it; -1 means
      the pattern is empty or occurs nowhere. */
  lemma LeftmostSpec(text: string, pattern: string)
    ensures var r := Leftmost(text, pattern);
      (r >= 0 ==> r + |pattern| <= |text| && text[r..r + |pattern|] == pattern
                  && forall k :: 0 <= k < r ==> !MatchesAt(text, pattern, k))
      && (r == -1 <==> |pattern| == 0 || forall k :: 0 <= k ==> !MatchesAt(text, pattern, k))
      && (|text| < |pattern| ==> r == -1)
  {
    FirstMatchFromSpec(text, pattern, 0);
  }

  /** Skipping starts that are not occurrences does not change the first one. */
  lemma {:induction false} FirstMatchSkip(text: string, pattern: string, a: nat, b: nat)
    requires a <= b
    requires forall k :: a <= k < b ==> !MatchesAt(text, pattern, k)
    ensures FirstMatchFrom(text, pattern, a) == FirstMatchFrom(text, pattern, b)
    decreases b - a
  {
    if a < b && a + |pattern| <= |text| {
      assert !MatchesAt(text, pattern, a);
      FirstMatchSkip(text, pattern, a + 1, b);
    } else if a < b {
      FirstMatchSkip(text, pattern, a + 1, b);
    }
  }

  /** The largest index of `c` in `s`, or -1 when `c` does not occur. */
  function LastIndexOf(s: string, c: char): (r: int)
    ensures -1 <= r < |s|
    ensures r >= 0 ==> s[r] == c
    ensures forall k :: r < k < |s| ==> s[k] != c
    ensures r == -1 <==> c !in s
  {
    if |s| == 0 then -1
    else if s[|s| - 1] == c then |s| - 1
    else
      var r := LastIndexOf(s[..|s| - 1], c);
      assert r == -1 ==> c !in s[..|s| - 1];
      assert s == s[..|s| - 1] + [s[|s| - 1]];
      r
  }

  /** The characters the table has entries for: the 26 lowercase ASCII
      letters and those of the pattern. */
  predicate InTable(pattern: string, c: char) {
    IsAsciiLower(c) || c in pattern
  }

  /** Builds `last_occurrence`: every lowercase letter maps to -1, then each
      pattern character to its index, later ones overwriting earlier ones. */
  method LastOccurrence(pattern: string) returns (last: map<char, int>)
    ensures forall c :: c in last <==> InTable(pattern, c)
    ensures forall c :: c in last ==> last[c] == LastIndexOf(pattern, c)
  {
    last := map[];
    for i := 0 to 26
      invariant forall c :: c in last <==> 'a' <= c && (c as int) < 'a' as int + i
      invariant forall c :: c in last ==> last[c] == -1
    {
      last := last[('a' as int + i) as char := -1];
    }
    for i := 0 to |pattern|
      invariant forall c :: c in last <==> IsAsciiLower(c) || c in pattern[..i]
      invariant forall c :: c in last ==> last[c] == LastIndexOf(pattern[..i], c)
    {
      assert pattern[..i + 1][..i] == pattern[..i];
      assert pattern[..i + 1] == pattern[..i] + [pattern[i]];
      last := last[pattern[i] := i];
    }
    assert pattern[..|pattern|] == pattern;
  }

  function Min(a: int, b: int): int { if a <= b then a else b }

  /** The bad-character rule never skips an occurrence: when `pattern[j]`
      differs from `text[i]`, no start from the current alignment `i - j` up
      to the new one holds an occurrence, and the new one lies further right. */
  lemma BadCharacterShift(text: string, pattern: string, i: int, j: int, l: int)
    requires 0 <= j < |pattern| && 0 <= i - j && i < |text|
    requires pattern[j] != text[i]
    requires l == LastIndexOf(pattern, text[i])
    ensures i + 1 - Min(l + 1, j) > i - j
    ensures forall a :: i - j <= a < i + 1 - Min(l + 1, j) ==> !MatchesAt(text, pattern, a)
  {
    forall a | i - j <= a < i + 1 - Min(l + 1, j)
      ensures !MatchesAt(text, pattern, a)
    {
      if a + |pattern| <= |text| {
        assert text[a..a + |pattern|][i - a] == text[i];
        assert pattern[i - a] != text[i];
      }
    }
  }

  /** Once every position of the pattern agrees, the alignment is an occurrence. */
  lemma SuffixMatched(text: string, pattern: string, a: int)
    requires 0 <= a && a + |pattern| <= |text|
    requires forall k :: 0 <= k < |pattern| ==> text[a + k] == pattern[k]
    ensures MatchesAt(text, pattern, a)
  {
    assert text[a..a + |pattern|] == pattern by {
      forall k | 0 <= k < |pattern| ensures text[a..a + |pattern|][k] == pattern[k] {
        assert text[a..a + |pattern|][k] == text[a + k];
      }
    }
  }

  /** The scan of `boyer_moore` from pattern end `i` and pattern index `j`
      meets only characters with a table entry at its mismatches, so
      `last_occurrence[text[i]]` raises no `KeyError`. It follows the scan
      step by step: a match moves one place left, a mismatch looks up
      `text[i]` and shifts. */
  predicate NoKeyError(text: string, pattern: string, i: int, j: int)
    requires -1 <= j < |pattern| && 0 <= i - j
    decreases |text| - (i - j), j
  {
    if j < 0 || i >= |text| then true
    else if pattern[j] == text[i] then j == 0 || NoKeyError(text, pattern, i - 1, j - 1)
    else
      InTable(pattern, text[i])
      && NoKeyError(text, pattern, i + |pattern| - Min(LastIndexOf(pattern, text[i]) + 1, j), |pattern| - 1)
  }

  /** A match leaves the rest of the scan free of `KeyError`. */
  lemma KeyMatchStep(text: string, pattern: string, i: int, j: int, i': int, j': int)
    requires 0 < j < |pattern| && 0 <= i - j && i < |text|
    requires pattern[j] == text[i] && NoKeyError(text, pattern, i, j)
    requires i' == i - 1 && j' == j - 1
    ensures NoKeyError(text, pattern, i', j')
  {
  }

  /** The character looked up at a mismatch has a table entry. */
  lemma KeyLookup(text: string, pattern: string, i: int, j: int)
    requires 0 <= j < |pattern| && 0 <= i - j && i < |text|
    requires pattern[j] != text[i] && NoKeyError(text, pattern, i, j)
    ensures InTable(pattern, text[i])
  {
  }

  /** After the shift the rest of the scan is free of `KeyError`. */
  lemma KeyMismatchStep(text: string, pattern: string, i: int, j: int, l: int, next: int)
    requires 0 <= j < |pattern| && 0 <= i - j && i < |text|
    requires pattern[j] != text[i] && NoKeyError(text, pattern, i, j)
    requires l == LastIndexOf(pattern, text[i]) && next == i + |pattern| - Min(l + 1, j)
    ensures NoKeyError(text, pattern, next, |pattern| - 1)
  {
  }

  /** Every character of the text has a table entry. */
  predicate Lookupable(text: string, pattern: string) {
    forall k :: 0 <= k < |text| ==> InTable(pattern, text[k])
  }

  /** A text whose every character has an entry never raises `KeyError`. */
  lemma {:induction false} LookupableNoKeyError(text: string, pattern: string, i: int, j: int)
    requires -1 <= j < |pattern| && 0 <= i - j
    requires Lookupable(text, pattern)
    ensures NoKeyError(text, pattern, i, j)
    decreases |text| - (i - j), j
  {
    if 0 <= j && i < |text| {
      if pattern[j] == text[i] {
        if j > 0 {
          LookupableNoKeyError(text, pattern, i - 1, j - 1);
        }
      } else {
        LookupableNoKeyError(text, pattern, i + |pattern| - Min(LastIndexOf(pattern, text[i]) + 1, j), |pattern| - 1);
      }
    }
  }

  /** A text with a character outside the table can still be searched: in
      "abc def" the pattern "abc" matches at the first alignment, before any
      lookup, although the space has no entry. */
  lemma MatchBeforeLookup()
    ensures !Lookupable("abc def", "abc")
    ensures NoKeyError("abc def", "abc", 2, 2)
    ensures Leftmost("abc def", "abc") == 0
  {
    var text, pattern := "abc def", "abc";
    assert !InTable(pattern, text[3]);
    assert text[0..3] == pattern;
  }

  /** The scan's invariant: the pattern is aligned at `i - j`, its positions
      after `j` agree with the text, and no earlier alignment is an occurrence. */
  ghost predicate Scanning(text: string, pattern: string, i: int, j: int) {
    0 <= j < |pattern| && 0 <= i - j <= |text|
    && (j < |pattern| - 1 ==> i - j + |pattern| <= |text|)
    && (forall k :: j < k < |pattern| ==> text[i - j + k] == pattern[k])
    && (forall k :: 0 <= k < i - j ==> !MatchesAt(text, pattern, k))
  }

  lemma ScanStart(text: string, pattern: string)
    requires 0 < |pattern| <= |text|
    ensures Scanning(text, pattern, |pattern| - 1, |pattern| - 1)
  {
  }

  /** A matching character moves the comparison one place left. */
  lemma MatchStep(text: string, pattern: string, i: int, j: int, i': int, j': int)
    requires Scanning(text, pattern, i, j) && i < |text| && 0 < j
    requires pattern[j] == text[i]
    requires i' == i - 1 && j' == j - 1
    ensures Scanning(text, pattern, i', j')
  {
  }

  /** Agreement down to pattern index 0 is the leftmost occurrence. */
  lemma MatchFound(text: string, pattern: string, i: int)
    requires Scanning(text, pattern, i, 0) && i < |text|
    requires pattern[0] == text[i]
    ensures Leftmost(text, pattern) == i
  {
    SuffixMatched(text, pattern, i);
    FirstMatchSkip(text, pattern, 0, i);
  }

  /** A mismatch restarts the comparison at the pattern's end, after the
      bad-character shift. */
  lemma MismatchStep(text: string, pattern: string, i: int, j: int, l: int, next: int)
    requires Scanning(text, pattern, i, j) && i < |text|
    requires pattern[j] != text[i]
    requires l == LastIndexOf(pattern, text[i])
    requires next == i + |pattern| - Min(l + 1, j)
    ensures Scanning(text, pattern, next, |pattern| - 1)
  {
    BadCharacterShift(text, pattern, i, j, l);
  }

  /** Running off the end of the text means there is no occurrence. */
  lemma ScanExhausted(text: string, pattern: string, i: int, j: int)
    requires Scanning(text, pattern, i, j) && i >= |text|
    ensures Leftmost(text, pattern) == -1
  {
    assert forall k :: i - j <= k ==> !MatchesAt(text, pattern, k);
    FirstMatchSkip(text, pattern, 0, i - j);
  }

  /** The table has an entry for every character `InTable` admits, and the
      entry is that character's last index in `pattern`. */
  predicate TableFor(pattern: string, last: map<char, int>) {
    forall c :: InTable(pattern, c) ==> c in last && last[c] == LastIndexOf(pattern, c)
  }

  /** The scanning loop of `boyer_moore`: aligns the pattern's end at `i`,
      compares right to left, and on a mismatch at pattern index `j` moves `i`
      on by `p - min(last[text[i]] + 1, j)`. */
  method Scan(text: string, pattern: string, last: map<char, int>) returns (r: int)
    requires |pattern| <= |text|
    requires TableFor(pattern, last)
    requires NoKeyError(text, pattern, |pattern| - 1, |pattern| - 1)
    ensures r == Leftmost(text, pattern)
  {
    var p := |pattern|;
    var t := |text|;
    var i := p - 1;
    var j := p - 1;
    if p > 0 {
      ScanStart(text, pattern);
    }
    while j >= 0 && i < t
      invariant p > 0 ==> Scanning(text, pattern, i, j)
      invariant p == 0 ==> i == -1 && j == -1
      invariant NoKeyError(text, pattern, i, j)
      decreases t - (i - j), j
    {
      if pattern[j] == text[i] {
        if j == 0 {
          MatchFound(text, pattern, i);
          return i;
        } else {
          ghost var i0, j0 := i, j;
          j := j - 1;
          i := i - 1;
          MatchStep(text, pattern, i0, j0, i, j);
          KeyMatchStep(text, pattern, i0, j0, i, j);
        }
      } else {
        ghost var i0, j0 := i, j;
        KeyLookup(text, pattern, i, j);
        var l := last[text[i]];
        i := i + p - Min(l + 1, j);
        j := p - 1;
        MismatchStep(text, pattern, i0, j0, l, i);
        KeyMismatchStep(text, pattern, i0, j0, l, i);
      }
    }
    if p > 0 {
      ScanExhausted(text, pattern, i, j);
    }
    return -1;
  }

  /** `boyer_moore(text, pattern)`: -1 when the text is shorter than the
      pattern; otherwise builds the table and scans. */
  method BoyerMooreSearch(text: string, pattern: string) returns (r: int)
    requires NoKeyError(text, pattern, |pattern| - 1, |pattern| - 1)
    ensures r == Leftmost(text, pattern)
  {
    if |text| < |pattern| {
      LeftmostSpec(text, pattern);
      return -1;
    }
    var last := LastOccurrence(pattern);
    r := Scan(text, pattern, last);
  }

  /** The example run in the source: "abacab" first occurs in
      "bbacabbadcabacabaababb" at index 10. */
  lemma DemoLeftmost()
    ensures Leftmost("bbacabbadcabacabaababb", "abacab") == 10
  {
    var text := "bbacabbadcabacabaababb";
    var pattern := "abacab";
    assert text[10..16] == pattern;
    forall k | 0 <= k < 10 ensures !MatchesAt(text, pattern, k) {
      assert text[k..k + 6][0] == text[k];
      assert text[k..k + 6][1] == text[k + 1];
      assert text[k..k + 6][2] == text[k + 2];
    }
    FirstMatchSkip(text, pattern, 0, 10);
  }
}
