/** `PDFTextExtractor.clean_text` (src/pdf_extractor.py): lowercase,
    collapse whitespace runs, turn every other non-word character into a
    space, collapse again, strip. Each `re.sub` is a function of its own. */
module TextCleaning {
  import opened Strings

  /** `s.lower()`. */
  function Lowercase(s: string): (r: string)
    ensures |r| == |s|
    ensures forall k :: 0 <= k < |s| ==> r[k] == Lower(s[k])
  {
    if s == [] then [] else [Lower(s[0])] + Lowercase(s[1..])
  }

  /** `re.sub(r'\s+', ' ', s)`: every maximal run of whitespace becomes one space. */
  function CollapseSpaces(s: string): (r: string)
    ensures |r| == 0 <==> |s| == 0
    ensures |s| > 0 ==> (IsSpace(s[0]) <==> r[0] == ' ') && (!IsSpace(s[0]) ==> r[0] == s[0])
    decreases |s|
  {
    if s == [] then []
    else if IsSpace(s[0]) then [' '] + CollapseSpaces(TrimStart(s[1..]))
    else [s[0]] + CollapseSpaces(s[1..])
  }

  /** `re.sub(r'[^\w\s]', ' ', s)`: each character that is neither a word
      character nor whitespace becomes a space. */
  function ReplaceNonWord(s: string): (r: string)
    ensures |r| == |s|
    ensures forall k :: 0 <= k < |s| ==> r[k] == if IsWord(s[k]) || IsSpace(s[k]) then s[k] else ' '
  {
    if s == [] then []
    else [if IsWord(s[0]) || IsSpace(s[0]) then s[0] else ' '] + ReplaceNonWord(s[1..])
  }

  /** `clean_text(text)`. */
  function CleanText(text: string): string
  {
    if text == "" then ""
    else Strip(CollapseSpaces(ReplaceNonWord(CollapseSpaces(Lowercase(text)))))
  }

  // ---------------------------------------------------------------------
  // The shape of the output

  /** No two neighbouring characters are both whitespace. */
  predicate NoDoubleSpace(s: string) {
    forall k :: 0 < k < |s| ==> !(IsSpace(s[k - 1]) && IsSpace(s[k]))
  }

  /** The only whitespace character is the plain space. */
  predicate OnlyPlainSpaces(s: string) {
    forall k :: 0 <= k < |s| ==> IsSpace(s[k]) ==> s[k] == ' '
  }

  predicate NoUpper(s: string) {
    forall k :: 0 <= k < |s| ==> !IsUpper(s[k])
  }

  predicate WordOrSpace(s: string) {
    forall k :: 0 <= k < |s| ==> IsWord(s[k]) || s[k] == ' '
  }

  /** What `clean_text` promises of its result. */
  predicate Cleaned(s: string) {
    NoUpper(s) && WordOrSpace(s) && NoDoubleSpace(s)
    && (s == [] || (s[0] != ' ' && s[|s| - 1] != ' '))
  }

  /** The word characters of a string, in order. */
  function WordChars(s: string): (r: string)
    ensures forall k :: 0 <= k < |r| ==> IsWord(r[k])
  {
    if s == [] then []
    else if IsWord(s[0]) then [s[0]] + WordChars(s[1..])
    else WordChars(s[1..])
  }

  lemma {:induction false} WordCharsAppend(a: string, b: string)
    ensures WordChars(a + b) == WordChars(a) + WordChars(b)
  {
    if a == [] {
      assert a + b == b;
    } else {
      assert (a + b)[0] == a[0] && (a + b)[1..] == a[1..] + b;
      WordCharsAppend(a[1..], b);
    }
  }

  /** Whitespace contributes no word characters. */
  lemma {:induction false} WordCharsOfSpaces(s: string)
    requires forall k :: 0 <= k < |s| ==> IsSpace(s[k])
    ensures WordChars(s) == []
  {
    if s != [] {
      WordIsNotSpace(s[0]);
      WordCharsOfSpaces(s[1..]);
    }
  }

  lemma {:induction false} WordCharsTrimStart(s: string)
    ensures WordChars(TrimStart(s)) == WordChars(s)
  {
    if s != [] && IsSpace(s[0]) {
      WordIsNotSpace(s[0]);
      WordCharsTrimStart(s[1..]);
    }
  }

  // Lowercase

  lemma {:induction false} LowercaseWordChars(s: string)
    ensures WordChars(Lowercase(s)) == Lowercase(WordChars(s))
  {
    if s != [] {
      WordIsNotSpace(s[0]);
      LowercaseWordChars(s[1..]);
    }
  }

  lemma LowercaseUnchanged(s: string)
    requires NoUpper(s)
    ensures Lowercase(s) == s
  {
  }

  // CollapseSpaces

  /** Collapsing keeps every non-whitespace character and adds only spaces. */
  lemma {:induction false} CollapseChars(s: string, P: char -> bool)
    requires forall k :: 0 <= k < |s| ==> IsSpace(s[k]) || P(s[k])
    ensures forall k :: 0 <= k < |CollapseSpaces(s)| ==>
      CollapseSpaces(s)[k] == ' ' || (!IsSpace(CollapseSpaces(s)[k]) && P(CollapseSpaces(s)[k]))
    decreases |s|
  {
    if s != [] {
      var rest := if IsSpace(s[0]) then TrimStart(s[1..]) else s[1..];
      CollapseChars(rest, P);
    }
  }

  /** After collapsing, whitespace never follows whitespace. */
  lemma {:induction false} CollapseNoDoubleSpace(s: string)
    ensures NoDoubleSpace(CollapseSpaces(s))
    decreases |s|
  {
    if s != [] {
      var rest := if IsSpace(s[0]) then TrimStart(s[1..]) else s[1..];
      CollapseNoDoubleSpace(rest);
      var r := CollapseSpaces(s);
      assert r[1..] == CollapseSpaces(rest);
      forall k | 0 < k < |r| ensures !(IsSpace(r[k - 1]) && IsSpace(r[k])) {
        if k > 1 {
          assert r[k - 1] == r[1..][k - 2] && r[k] == r[1..][k - 1];
        }
      }
    }
  }

  lemma {:induction false} CollapseWordChars(s: string)
    ensures WordChars(CollapseSpaces(s)) == WordChars(s)
    decreases |s|
  {
    if s != [] {
      WordIsNotSpace(s[0]);
      if IsSpace(s[0]) {
        CollapseWordChars(TrimStart(s[1..]));
        WordCharsTrimStart(s[1..]);
        WordIsNotSpace(' ');
        assert WordChars(CollapseSpaces(s)) == WordChars(CollapseSpaces(TrimStart(s[1..])));
      } else {
        CollapseWordChars(s[1..]);
      }
    }
  }

  /** A string with plain single spaces only is left as it is. */
  lemma {:induction false} CollapseUnchanged(s: string)
    requires OnlyPlainSpaces(s) && NoDoubleSpace(s)
    ensures CollapseSpaces(s) == s
    decreases |s|
  {
    if s != [] {
      assert OnlyPlainSpaces(s[1..]) && NoDoubleSpace(s[1..]) by {
        forall k | 0 < k < |s[1..]| ensures !(IsSpace(s[1..][k - 1]) && IsSpace(s[1..][k])) {
          assert s[1..][k - 1] == s[k] && s[1..][k] == s[k + 1];
        }
      }
      if IsSpace(s[0]) {
        assert |s| > 1 ==> !IsSpace(s[1]);
        assert TrimStart(s[1..]) == s[1..];
      }
      CollapseUnchanged(s[1..]);
    }
  }

  /** Dropping leading whitespace from a concatenation: the second part is
      reached only when the first is whitespace throughout. */
  lemma {:induction false} TrimStartAppend(x: string, y: string)
    ensures TrimStart(x + y) == if TrimStart(x) != [] then TrimStart(x) + y else TrimStart(y)
  {
    if x == [] {
      assert x + y == y;
    } else if IsSpace(x[0]) {
      var xy := x + y;
      assert xy[0] == x[0] && xy[1..] == x[1..] + y;
      assert TrimStart(xy) == TrimStart(x[1..] + y);
      assert TrimStart(x) == TrimStart(x[1..]);
      TrimStartAppend(x[1..], y);
    } else {
      var xy := x + y;
      assert xy[0] == x[0];
      assert TrimStart(xy) == xy && TrimStart(x) == x;
    }
  }

  /** Leading whitespace removal keeps the last character when anything is left. */
  lemma TrimStartLast(x: string)
    requires TrimStart(x) != []
    ensures TrimStart(x)[|TrimStart(x)| - 1] == x[|x| - 1]
  {
    var t := TrimStart(x);
    assert t == x[|x| - |t|..];
  }

  /** When everything after the first character is leading whitespace, the
      last character is whitespace too. */
  lemma LastIsSpace(a: string)
    requires a != [] && IsSpace(a[0]) && TrimStart(a[1..]) == []
    ensures IsSpace(a[|a| - 1])
  {
    if |a| > 1 {
      assert a[|a| - 1] == a[1..][|a| - 2];
    }
  }

  /** A string that does not start with whitespace has none to drop. */
  lemma TrimStartFree(s: string)
    requires s == [] || !IsSpace(s[0])
    ensures TrimStart(s) == s
  {
  }

  /** A string that is whitespace throughout is dropped entirely. */
  lemma {:induction false} TrimStartAllSpace(s: string)
    requires forall k :: 0 <= k < |s| ==> IsSpace(s[k])
    ensures TrimStart(s) == []
  {
    if s != [] {
      assert forall k :: 0 <= k < |s[1..]| ==> s[1..][k] == s[k + 1];
      TrimStartAllSpace(s[1..]);
    }
  }

  /** A non-empty run of whitespace collapses to one space. */
  lemma CollapseRun(w: string)
    requires w != [] && forall k :: 0 <= k < |w| ==> IsSpace(w[k])
    ensures CollapseSpaces(w) == " "
  {
    assert forall k :: 0 <= k < |w[1..]| ==> w[1..][k] == w[k + 1];
    TrimStartAllSpace(w[1..]);
    CollapseSpaceStep(w);
  }

  /** A string without whitespace is left as it is. */
  lemma {:induction false} CollapseNoSpace(s: string)
    requires forall k :: 0 <= k < |s| ==> !IsSpace(s[k])
    ensures CollapseSpaces(s) == s
  {
    if s != [] {
      CollapseNoSpace(s[1..]);
    }
  }

  lemma AppendAssoc(x: string, y: string, z: string)
    ensures x + (y + z) == (x + y) + z
  {
  }

  /** The first character and the rest of a concatenation. */
  lemma HeadTail(a: string, b: string)
    requires a != []
    ensures (a + b)[0] == a[0] && (a + b)[1..] == a[1..] + b
  {
  }

  /** One unfolding of `CollapseSpaces` at leading whitespace. */
  lemma CollapseSpaceStep(s: string)
    requires s != [] && IsSpace(s[0])
    ensures CollapseSpaces(s) == [' '] + CollapseSpaces(TrimStart(s[1..]))
  {
  }

  /** One unfolding of `CollapseSpaces` at a non-whitespace character. */
  lemma CollapseKeepStep(s: string)
    requires s != [] && !IsSpace(s[0])
    ensures CollapseSpaces(s) == [s[0]] + CollapseSpaces(s[1..])
  {
  }

  /** One step of `CollapseAppend` for a first part that starts with a
      non-whitespace character. */
  lemma CollapseAppendKeep(a: string, b: string)
    requires a != [] && !IsSpace(a[0])
    requires CollapseSpaces(a[1..] + b) == CollapseSpaces(a[1..]) + CollapseSpaces(b)
    ensures CollapseSpaces(a + b) == CollapseSpaces(a) + CollapseSpaces(b)
  {
    HeadTail(a, b);
    CollapseKeepStep(a + b);
    CollapseKeepStep(a);
    AppendAssoc([a[0]], CollapseSpaces(a[1..]), CollapseSpaces(b));
  }

  /** One step of `CollapseAppend` for a first part that starts with
      whitespace followed by something else. */
  lemma CollapseAppendRun(a: string, b: string)
    requires a != [] && IsSpace(a[0]) && TrimStart(a[1..]) != []
    requires CollapseSpaces(TrimStart(a[1..]) + b) == CollapseSpaces(TrimStart(a[1..])) + CollapseSpaces(b)
    ensures CollapseSpaces(a + b) == CollapseSpaces(a) + CollapseSpaces(b)
  {
    HeadTail(a, b);
    CollapseSpaceStep(a + b);
    CollapseSpaceStep(a);
    TrimStartAppend(a[1..], b);
    AppendAssoc([' '], CollapseSpaces(TrimStart(a[1..])), CollapseSpaces(b));
  }

  /** One step of `CollapseAppend` for a first part that is whitespace only. */
  lemma CollapseAppendBlank(a: string, b: string)
    requires a != [] && IsSpace(a[0]) && TrimStart(a[1..]) == []
    requires b == [] || !IsSpace(b[0])
    ensures CollapseSpaces(a + b) == CollapseSpaces(a) + CollapseSpaces(b)
  {
    var u := a[1..] + b;
    HeadTail(a, b);
    TrimStartAppend(a[1..], b);
    TrimStartFree(b);
    assert TrimStart(u) == b;
    CollapseSpaceStep(a + b);
    assert CollapseSpaces(a + b) == [' '] + CollapseSpaces(b);
    CollapseSpaceStep(a);
    assert CollapseSpaces(a) == [' '];
  }

  /** Collapsing works part by part, as long as the parts do not meet inside
      a whitespace run. With `CollapseRun` and `CollapseNoSpace` this says
      that each maximal whitespace run becomes one space and every other
      character stays, in order. */
  lemma {:induction false} CollapseAppend(a: string, b: string)
    requires a == [] || b == [] || !IsSpace(a[|a| - 1]) || !IsSpace(b[0])
    ensures CollapseSpaces(a + b) == CollapseSpaces(a) + CollapseSpaces(b)
    decreases |a|
  {
    if a == [] {
      assert a + b == b;
      assert CollapseSpaces(a) + CollapseSpaces(b) == CollapseSpaces(b);
    } else if !IsSpace(a[0]) {
      if |a| > 1 {
        assert a[1..][|a[1..]| - 1] == a[|a| - 1];
      }
      CollapseAppend(a[1..], b);
      CollapseAppendKeep(a, b);
    } else if TrimStart(a[1..]) != [] {
      TrimStartLast(a[1..]);
      assert a[1..][|a[1..]| - 1] == a[|a| - 1];
      CollapseAppend(TrimStart(a[1..]), b);
      CollapseAppendRun(a, b);
    } else {
      LastIsSpace(a);
      CollapseAppendBlank(a, b);
    }
  }

  // ReplaceNonWord

  lemma {:induction false} ReplaceNonWordWordChars(s: string)
    ensures WordChars(ReplaceNonWord(s)) == WordChars(s)
  {
    if s != [] {
      WordIsNotSpace(' ');
      ReplaceNonWordWordChars(s[1..]);
    }
  }

  lemma ReplaceNonWordUnchanged(s: string)
    requires forall k :: 0 <= k < |s| ==> IsWord(s[k]) || IsSpace(s[k])
    ensures ReplaceNonWord(s) == s
  {
  }

  // Strip

  lemma SplitThree(s: string, a: int, b: int)
    requires 0 <= a <= b <= |s|
    ensures s == s[..a] + s[a..b] + s[b..]
  {
  }

  lemma StripWordChars(s: string)
    ensures WordChars(Strip(s)) == WordChars(s)
  {
    StripSpec(s);
    var r := Strip(s);
    var a := StripStart(s);
    var b := a + |r|;
    var pre, post := s[..a], s[b..];
    SplitThree(s, a, b);
    assert forall k :: 0 <= k < |pre| ==> IsSpace(pre[k]) by {
      forall k | 0 <= k < |pre| ensures IsSpace(pre[k]) { assert pre[k] == s[k]; }
    }
    assert forall k :: 0 <= k < |post| ==> IsSpace(post[k]) by {
      forall k | 0 <= k < |post| ensures IsSpace(post[k]) { assert post[k] == s[b + k]; }
    }
    WordCharsOfSpaces(pre);
    WordCharsOfSpaces(post);
    WordCharsAppend(pre + r, post);
    WordCharsAppend(pre, r);
  }

  // ---------------------------------------------------------------------
  // What clean_text guarantees

  /** The empty string cleans to the empty string. */
  lemma CleanEmpty()
    ensures CleanText("") == ""
  {
  }

  /** A lower-case word character or a plain space. */
  predicate CleanChar(c: char) {
    !IsUpper(c) && (IsWord(c) || c == ' ')
  }

  lemma CollapseLowercase(s1: string)
    requires NoUpper(s1)
    ensures forall k :: 0 <= k < |CollapseSpaces(s1)| ==>
      CollapseSpaces(s1)[k] == ' ' || (!IsSpace(CollapseSpaces(s1)[k]) && !IsUpper(CollapseSpaces(s1)[k]))
  {
    CollapseChars(s1, c => !IsUpper(c));
  }

  lemma ReplaceNonWordClean(s2: string)
    requires forall k :: 0 <= k < |s2| ==> s2[k] == ' ' || (!IsSpace(s2[k]) && !IsUpper(s2[k]))
    ensures forall k :: 0 <= k < |ReplaceNonWord(s2)| ==>
      IsSpace(ReplaceNonWord(s2)[k]) || CleanChar(ReplaceNonWord(s2)[k])
  {
  }

  lemma CollapseClean(s3: string)
    requires forall k :: 0 <= k < |s3| ==> IsSpace(s3[k]) || CleanChar(s3[k])
    ensures NoUpper(CollapseSpaces(s3)) && WordOrSpace(CollapseSpaces(s3))
    ensures NoDoubleSpace(CollapseSpaces(s3))
  {
    CollapseChars(s3, CleanChar);
    CollapseNoDoubleSpace(s3);
  }

  /** A slice keeps the properties that speak of single and neighbouring characters. */
  lemma SliceClean(s: string, a: int, b: int)
    requires 0 <= a <= b <= |s|
    requires NoUpper(s) && WordOrSpace(s) && NoDoubleSpace(s)
    ensures NoUpper(s[a..b]) && WordOrSpace(s[a..b]) && NoDoubleSpace(s[a..b])
  {
    var r := s[a..b];
    forall k | 0 < k < |r| ensures !(IsSpace(r[k - 1]) && IsSpace(r[k])) {
      assert r[k - 1] == s[a + k - 1] && r[k] == s[a + k];
    }
  }

  /** Stripping a string of clean characters without double spaces leaves
      a cleaned string. */
  lemma StripClean(s4: string)
    requires NoUpper(s4) && WordOrSpace(s4) && NoDoubleSpace(s4)
    ensures Cleaned(Strip(s4))
  {
    StripSpec(s4);
    var a := StripStart(s4);
    SliceClean(s4, a, a + |Strip(s4)|);
  }

  /** The result has no upper-case letter, only word characters and single
      plain spaces, and neither starts nor ends with a space. */
  lemma CleanTextCleaned(text: string)
    ensures Cleaned(CleanText(text))
  {
    if text != "" {
      var s1 := Lowercase(text);
      var s2 := CollapseSpaces(s1);
      var s3 := ReplaceNonWord(s2);
      var s4 := CollapseSpaces(s3);
      CollapseLowercase(s1);
      ReplaceNonWordClean(s2);
      CollapseClean(s3);
      StripClean(s4);
    }
  }

  /** The word characters kept are those of the input, lowercased, in order. */
  lemma CleanTextWordChars(text: string)
    ensures WordChars(CleanText(text)) == Lowercase(WordChars(text))
  {
    if text != "" {
      var s1 := Lowercase(text);
      var s2 := CollapseSpaces(s1);
      var s3 := ReplaceNonWord(s2);
      var s4 := CollapseSpaces(s3);
      LowercaseWordChars(text);
      CollapseWordChars(s1);
      ReplaceNonWordWordChars(s2);
      CollapseWordChars(s3);
      StripWordChars(s4);
    }
  }

  /** A cleaned string is a fixed point of every step. */
  lemma CleanedUnchanged(s: string)
    requires Cleaned(s)
    ensures CleanText(s) == s
  {
    if s != "" {
      LowercaseUnchanged(s);
      assert OnlyPlainSpaces(s) && NoDoubleSpace(s) by {
        forall k | 0 <= k < |s| ensures IsSpace(s[k]) ==> s[k] == ' ' {
          WordIsNotSpace(s[k]);
        }
      }
      CollapseUnchanged(s);
      ReplaceNonWordUnchanged(s);
      StripUnchanged(s);
    }
  }

  /** Cleaning twice is cleaning once. */
  lemma CleanTextIdempotent(text: string)
    ensures CleanText(CleanText(text)) == CleanText(text)
  {
    CleanTextCleaned(text);
    CleanedUnchanged(CleanText(text));
  }

  // ---------------------------------------------------------------------
  // Where the spaces go

  /** The reference reading of `clean_text`: the runs of word characters of
      `s`, in order, with exactly one space between neighbouring runs and
      none at either end. It reads `s` once, left to right; `gap` records a
      non-word character since the last word character, `started` that a
      word character has been seen. */
  function SpacedWords(s: string, gap: bool, started: bool): string
    decreases |s|
  {
    if s == [] then ""
    else if IsWord(s[0]) then (if gap && started then " " else "") + [s[0]] + SpacedWords(s[1..], false, true)
    else SpacedWords(s[1..], true, started)
  }

  /** Before the first word, whether a gap was seen makes no difference. */
  lemma SpacedStartFree(v: string, g1: bool, g2: bool)
    ensures SpacedWords(v, g1, false) == SpacedWords(v, g2, false)
  {
  }

  /** A string without word characters spells no words. */
  lemma {:induction false} SpacedNone(v: string, gap: bool, started: bool)
    requires forall k :: 0 <= k < |v| ==> !IsWord(v[k])
    ensures SpacedWords(v, gap, started) == ""
  {
    if v != [] {
      SpacedNone(v[1..], true, started);
    }
  }

  /** Separators in front of the first word are ignored. */
  lemma {:induction false} SpacedPrefixSep(u: string, v: string, gap: bool)
    requires forall k :: 0 <= k < |u| ==> !IsWord(u[k])
    ensures SpacedWords(u + v, gap, false) == SpacedWords(v, gap, false)
  {
    if u == [] {
      assert u + v == v;
    } else {
      assert (u + v)[0] == u[0] && (u + v)[1..] == u[1..] + v;
      SpacedPrefixSep(u[1..], v, true);
      SpacedStartFree(v, true, gap);
    }
  }

  /** Separators after the last word are ignored. */
  lemma {:induction false} SpacedSuffixSep(u: string, v: string, gap: bool, started: bool)
    requires forall k :: 0 <= k < |v| ==> !IsWord(v[k])
    ensures SpacedWords(u + v, gap, started) == SpacedWords(u, gap, started)
  {
    if u == [] {
      assert u + v == v;
      SpacedNone(v, gap, started);
    } else {
      assert (u + v)[0] == u[0] && (u + v)[1..] == u[1..] + v;
      if IsWord(u[0]) {
        SpacedSuffixSep(u[1..], v, false, true);
      } else {
        SpacedSuffixSep(u[1..], v, true, started);
      }
    }
  }

  /** Replacing separators by spaces spells the same words. */
  lemma {:induction false} SpacedReplaceNonWord(s: string, gap: bool, started: bool)
    ensures SpacedWords(ReplaceNonWord(s), gap, started) == SpacedWords(s, gap, started)
  {
    if s != [] {
      var r := ReplaceNonWord(s);
      assert r[1..] == ReplaceNonWord(s[1..]);
      WordIsNotSpace(s[0]);
      if IsWord(s[0]) {
        SpacedReplaceNonWord(s[1..], false, true);
      } else {
        SpacedReplaceNonWord(s[1..], true, started);
      }
    }
  }

  /** After a gap, leading whitespace changes nothing. */
  lemma {:induction false} SpacedTrimStart(u: string, started: bool)
    ensures SpacedWords(TrimStart(u), true, started) == SpacedWords(u, true, started)
  {
    if u != [] && IsSpace(u[0]) {
      WordIsNotSpace(u[0]);
      SpacedTrimStart(u[1..], started);
    }
  }

  /** Collapsing whitespace runs spells the same words. */
  lemma {:induction false} SpacedCollapse(s: string, gap: bool, started: bool)
    ensures SpacedWords(CollapseSpaces(s), gap, started) == SpacedWords(s, gap, started)
    decreases |s|
  {
    if s != [] {
      var c := CollapseSpaces(s);
      WordIsNotSpace(s[0]);
      if IsSpace(s[0]) {
        var t := TrimStart(s[1..]);
        assert c[0] == ' ' && c[1..] == CollapseSpaces(t);
        SpacedCollapse(t, true, started);
        SpacedTrimStart(s[1..], started);
      } else {
        assert c[0] == s[0] && c[1..] == CollapseSpaces(s[1..]);
        if IsWord(s[0]) {
          SpacedCollapse(s[1..], false, true);
        } else {
          SpacedCollapse(s[1..], true, started);
        }
      }
    }
  }

  /** Stripping whitespace at both ends spells the same words. */
  lemma SpacedStrip(s: string)
    ensures SpacedWords(Strip(s), false, false) == SpacedWords(s, false, false)
  {
    StripSpec(s);
    var r := Strip(s);
    var a := StripStart(s);
    var b := a + |r|;
    var pre, post := s[..a], s[b..];
    SplitThree(s, a, b);
    forall k | 0 <= k < |pre| ensures !IsWord(pre[k]) {
      assert pre[k] == s[k];
      WordIsNotSpace(pre[k]);
    }
    forall k | 0 <= k < |post| ensures !IsWord(post[k]) {
      assert post[k] == s[b + k];
      WordIsNotSpace(post[k]);
    }
    SpacedSuffixSep(pre + r, post, false, false);
    SpacedPrefixSep(pre, r, false);
  }

  /** After a word, words separated by single spaces read back as they are. */
  lemma {:induction false} SpacedFixed(r: string)
    requires WordOrSpace(r) && NoDoubleSpace(r)
    requires r == [] || r[|r| - 1] != ' '
    ensures SpacedWords(r, false, true) == r
    decreases |r|
  {
    if r != [] {
      assert WordOrSpace(r[1..]) && NoDoubleSpace(r[1..]) by {
        forall k | 0 < k < |r[1..]| ensures !(IsSpace(r[1..][k - 1]) && IsSpace(r[1..][k])) {
          assert r[1..][k - 1] == r[k] && r[1..][k] == r[k + 1];
        }
      }
      if IsWord(r[0]) {
        SpacedFixed(r[1..]);
      } else {
        assert r[0] == ' ' && |r| > 1;
        assert !IsSpace(r[1]);
        assert IsWord(r[1]);
        var rest := r[2..];
        assert rest == r[1..][1..];
        assert WordOrSpace(rest) && NoDoubleSpace(rest) by {
          forall k | 0 < k < |rest| ensures !(IsSpace(rest[k - 1]) && IsSpace(rest[k])) {
            assert rest[k - 1] == r[k + 1] && rest[k] == r[k + 2];
          }
        }
        SpacedFixed(rest);
        assert r == " " + [r[1]] + rest;
      }
    }
  }

  /** A cleaned string is its own reference reading. */
  lemma CleanedSpaced(r: string)
    requires Cleaned(r)
    ensures SpacedWords(r, false, false) == r
  {
    if r != [] {
      SliceClean(r, 1, |r|);
      assert r[1..|r|] == r[1..];
      SpacedFixed(r[1..]);
    }
  }

  /** `clean_text(text)` is the runs of word characters of `text.lower()`,
      in order, separated by single spaces: each run of whitespace or other
      non-word characters between two words becomes one space, and those
      before the first word and after the last vanish. */
  lemma CleanTextSpacedWords(text: string)
    ensures CleanText(text) == SpacedWords(Lowercase(text), false, false)
  {
    if text != "" {
      var s1 := Lowercase(text);
      var s2 := CollapseSpaces(s1);
      var s3 := ReplaceNonWord(s2);
      var s4 := CollapseSpaces(s3);
      SpacedCollapse(s1, false, false);
      SpacedReplaceNonWord(s2, false, false);
      SpacedCollapse(s3, false, false);
      SpacedStrip(s4);
      CleanTextCleaned(text);
      CleanedSpaced(CleanText(text));
    }
  }
}
