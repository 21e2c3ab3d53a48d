# CV search core in Dafny

This project models the matching and text-handling core of a CV search tool.
The tool extracts text from PDF CVs, cleans it, cuts it into sections and
searches it for keywords. Four parts are modelled, one Dafny module each,
with one shared module of string helpers:

- `Levenshtein` (src/LevenshteinDistance.py) is case-insensitive edit
  distance, computed over a dynamic-programming table (an `array2` filled by
  two nested `for` loops). It also has `fuzzy_search`, which counts the
  windows of the text, each as wide as the pattern, that lie within
  `max_distance` of it. The table is proved equal to a recursive edit-distance
  specification. Distance to the empty string, bounds, symmetry and
  zero-iff-equal are proved about that specification. The window count is
  proved bounded, monotone in the threshold, exact at threshold 0 and total
  once the threshold reaches the pattern length.
- `BoyerMoore` (src/boyer_moore.py) is single-shot Boyer–Moore with the
  bad-character rule only, comparing case-sensitively. The last-occurrence
  table is proved to map each character to its last index in the pattern.
  The scan is proved to return the leftmost occurrence, or -1. This rests on
  the shift never skipping an occurrence and always moving the alignment
  forward. The precondition is that no lookup raises `KeyError`, stated
  exactly: only the characters met at a mismatch need a table entry.
- `TextCleaning` (`PDFTextExtractor.clean_text` in src/pdf_extractor.py) is a
  chain of pure functions: lowercase, collapse whitespace, replace non-word
  characters, collapse again, strip. The output is proved equal to a
  one-pass reference, `SpacedWords`: the runs of word characters of the
  lowercased input, separated by single spaces. It is also proved to be in
  a normal form, and cleaning is proved idempotent.
- `CvSections` (src/regex.py) holds the rest:
  - the `CVInfo` record as a class whose `__post_init__` fills missing lists;
  - the header search of `find_section_boundaries`;
  - the section slicing of `extract_section_content_flexible`;
  - the experience and education wrappers;
  - the report that `format_output` builds.

  Each imperative routine is a method. It is proved equal to a specification
  function, and the source's promises are lemmas about that function.
- `Strings` holds Python's `str.lower` per character, the `\s` and `\w`
  classes, `strip`, `split('\n')` and `'\n'.join`.

The regular expressions that recognise section headers are not modelled.
Every operation that needs them takes a parameter
`isHeader: (Section, string) -> bool`. It is true exactly when one of that
section's header patterns matches the stripped line.

## Model

| member | source | states |
|---|---|---|
| Strings.SplitLines | src/regex.py:76 | `text.split('\n')` yields at least one piece, and no piece holds a line feed |
| Strings.JoinSplitLines | src/regex.py:76 | joining the pieces of `split('\n')` with line feeds gives the text back |
| Strings.StripSpec | src/regex.py:78 | `strip()` yields a slice of the input that neither starts nor ends with whitespace, and everything it drops is whitespace |
| Strings.StripIdempotent | src/regex.py:78 | stripping a stripped line changes nothing |
| Levenshtein.PrefixStep | src/LevenshteinDistance.py:13-21 | the distance of two prefixes satisfies the recurrence the table applies (delete, insert, substitute at the cost above) |
| Levenshtein.LevenshteinDistance | src/LevenshteinDistance.py:1-23 | the returned cell `matrix[n][m]` is the edit distance of source and target |
| Levenshtein.DistanceBounds | src/LevenshteinDistance.py:21-23 | the distance lies between the length difference and the longer length |
| Levenshtein.DistanceSymmetric | src/LevenshteinDistance.py:21-23 | swapping source and target does not change the distance |
| Levenshtein.DistanceZeroIff | src/LevenshteinDistance.py:15-23 | the distance is 0 exactly when both strings have the same length and agree character by character after lowercasing |
| Levenshtein.EmptyDistance | src/LevenshteinDistance.py:7-11 | the distance to or from the empty string is the other string's length |
| Levenshtein.FuzzySearch | src/LevenshteinDistance.py:26-36 | the count is the number of windows whose distance to the pattern is at most `max_distance` |
| Levenshtein.FuzzySearchDefault | src/LevenshteinDistance.py:26 | called without a threshold, `fuzzy_search` counts the windows within distance 2 |
| Levenshtein.FuzzyCountBound | src/LevenshteinDistance.py:30 | the count is at most the number of windows, and 0 when the pattern is longer than the text |
| Levenshtein.FuzzyZeroIsExact | src/LevenshteinDistance.py:30-34 | with threshold 0 the windows counted are exactly those equal to the pattern ignoring case |
| Levenshtein.FuzzyCountZero | src/LevenshteinDistance.py:30-34 | `fuzzy_search(text, pattern, 0)` counts the case-insensitive occurrences, overlapping ones included |
| Levenshtein.FuzzyMonotone | src/LevenshteinDistance.py:30-36 | among windows seen so far, a larger threshold never counts fewer |
| Levenshtein.FuzzyCountMonotone | src/LevenshteinDistance.py:30-36 | the count is monotone in `max_distance` |
| Levenshtein.FuzzyAllWindows | src/LevenshteinDistance.py:30-36 | once the threshold reaches the pattern length, every window seen so far counts |
| Levenshtein.FuzzyCountAll | src/LevenshteinDistance.py:30-36 | with `max_distance >= |pattern|`, the count is `|text| - |pattern| + 1` |
| BoyerMoore.LeftmostSpec | src/boyer_moore.py:7-8 | a non-negative result is an occurrence with no occurrence before it; -1 means the pattern is empty or occurs nowhere, and it is always the result when the text is shorter than the pattern |
| BoyerMoore.FirstMatchFromSpec | src/boyer_moore.py:21-31 | the reference search from a start finds an occurrence there or later, with none in between, or -1 when there is none |
| BoyerMoore.LastIndexOf | src/boyer_moore.py:14-15 | the index found holds the character and no later one does; -1 exactly when the character is absent |
| BoyerMoore.LastOccurrence | src/boyer_moore.py:9-15 | the table has keys exactly for `a`–`z` and the pattern's characters; each maps to its last index in the pattern, or -1 |
| BoyerMoore.BadCharacterShift | src/boyer_moore.py:29 | at a mismatch the shift `p - min(last + 1, j)` moves the alignment forward by at least 1 and skips no occurrence |
| BoyerMoore.SuffixMatched | src/boyer_moore.py:22-24 | when every pattern position agrees with the text, the alignment is an occurrence |
| BoyerMoore.MatchStep | src/boyer_moore.py:26-27 | a matching character keeps the scan invariant with `i` and `j` one place to the left |
| BoyerMoore.MatchFound | src/boyer_moore.py:23-24 | returning `i` at `j == 0` returns the leftmost occurrence |
| BoyerMoore.MismatchStep | src/boyer_moore.py:29-30 | a mismatch restores the scan invariant at the new alignment, with `j` reset to `p - 1` |
| BoyerMoore.ScanExhausted | src/boyer_moore.py:21-31 | leaving the scan with `i >= t` means the pattern occurs nowhere, so -1 is right |
| BoyerMoore.KeyLookup | src/boyer_moore.py:29 | when the scan is free of `KeyError`, the character looked up at a mismatch has a table entry |
| BoyerMoore.KeyMatchStep | src/boyer_moore.py:26-27 | after a matching character the rest of the scan stays free of `KeyError` |
| BoyerMoore.KeyMismatchStep | src/boyer_moore.py:29-30 | after the shift the rest of the scan stays free of `KeyError` |
| BoyerMoore.LookupableNoKeyError | src/boyer_moore.py:11-15 | a text whose every character is a lower-case letter or a pattern character never raises `KeyError` |
| BoyerMoore.MatchBeforeLookup | src/boyer_moore.py:21-24 | a text with a character outside the table ("abc def" with "abc") is still searched, and gives 0, because the match comes before any lookup |
| BoyerMoore.Scan | src/boyer_moore.py:18-31 | for every text and pattern on which no lookup fails, the scan returns the leftmost occurrence, or -1; an empty pattern gives -1 |
| BoyerMoore.BoyerMooreSearch | src/boyer_moore.py:3-31 | on every input that raises no `KeyError`, `boyer_moore(text, pattern)` returns the leftmost occurrence, or -1 |
| BoyerMoore.DemoLeftmost | src/boyer_moore.py:34-37 | on the demo input "abacab" first occurs in "bbacabbadcabacabaababb" at index 10 |
| TextCleaning.Lowercase | src/pdf_extractor.py:45 | `text.lower()` lowercases each character in place, keeping the length |
| TextCleaning.ReplaceNonWord | src/pdf_extractor.py:51 | each character that is neither a word character nor whitespace becomes a space; the others stay |
| TextCleaning.CollapseRun | src/pdf_extractor.py:48 | a non-empty run of whitespace collapses to one space |
| TextCleaning.CollapseNoSpace | src/pdf_extractor.py:48 | a string without whitespace is left as it is |
| TextCleaning.CollapseAppend | src/pdf_extractor.py:48 | collapsing works part by part when the parts do not meet inside a whitespace run; so each maximal whitespace run becomes one space and every other character stays, in order |
| TextCleaning.TrimStartAppend | src/pdf_extractor.py:48 | the whitespace dropped from the front of a concatenation reaches the second part only when the first is all whitespace |
| TextCleaning.CollapseNoDoubleSpace | src/pdf_extractor.py:54 | after collapsing, no two neighbouring characters are whitespace |
| TextCleaning.CleanEmpty | src/pdf_extractor.py:41-42 | empty input gives the empty string |
| TextCleaning.CleanTextCleaned | src/pdf_extractor.py:45-57 | the output has no upper-case letter, only word characters and single plain spaces, and no leading or trailing space |
| TextCleaning.CleanTextWordChars | src/pdf_extractor.py:45-54 | the output's word characters are the input's, lowercased, in the same order |
| TextCleaning.CleanedUnchanged | src/pdf_extractor.py:45-59 | a string already in that normal form is left unchanged |
| TextCleaning.SpacedCollapse | src/pdf_extractor.py:48 | collapsing whitespace keeps the words and where they are separated |
| TextCleaning.SpacedReplaceNonWord | src/pdf_extractor.py:51 | turning non-word characters into spaces keeps the words and where they are separated |
| TextCleaning.SpacedStrip | src/pdf_extractor.py:57 | stripping keeps the words and where they are separated |
| TextCleaning.CleanedSpaced | src/pdf_extractor.py:45-57 | a string in the normal form is its words, separated by single spaces |
| TextCleaning.CleanTextSpacedWords | src/pdf_extractor.py:41-59 | `clean_text(text)` is the runs of word characters of `text.lower()`, in order, with one space between neighbouring runs and none at either end |
| TextCleaning.CleanTextIdempotent | src/pdf_extractor.py:45-59 | cleaning a cleaned string leaves it unchanged |
| CvSections.CVInfo.PostInit | src/regex.py:19-31 | each list field that is `None` becomes `[]`; every other field keeps its value |
| CvSections.CVInfo.constructor | src/regex.py:7-31 | the data class stores its arguments and then runs `__post_init__`, so every list field holds a list |
| CvSections.StripAllAt | src/regex.py:78 | line `k` of the stripped lines is `lines[k].strip()` |
| CvSections.LastHeaderSpec | src/regex.py:77-87 | the lookup finds the last non-blank line below a bound that is a header of the section, or -1 when there is none |
| CvSections.BoundariesSpec | src/regex.py:76-87 | a section is recorded exactly when some non-blank line is its header; then the record is the index and stripped text of its last such line |
| CvSections.RecordHeaders | src/regex.py:83-87 | one line overwrites the record of every section it is a header of, and leaves the other sections' records alone |
| CvSections.FindSectionBoundaries | src/regex.py:60-89 | the dictionary built is the specification `Boundaries` of the stripped lines, and every recorded index is a line index |
| CvSections.NextBoundarySpec | src/regex.py:102-105 | the end found is `n` or a recorded index above the start, and no recorded index lies strictly between the start and it |
| CvSections.SectionEnd | src/regex.py:102-105 | the loop over the recorded sections computes that end |
| CvSections.SectionEndSpec | src/regex.py:99-105 | a section's end lies after its header and is the smallest recorded header index above it, or `len(lines)` |
| CvSections.NonBlankMembers | src/regex.py:108-115 | the collected lines are exactly the non-empty stripped lines in the index range |
| CvSections.NoHeaderNoContent | src/regex.py:96-97 | a section with no header line has no content |
| CvSections.ContentWithinMembers | src/regex.py:108-115 | given recorded boundaries, the section's lines are exactly the non-blank stripped lines strictly between its header and its end |
| CvSections.SectionContentMembers | src/regex.py:99-115 | with a header, the content is the non-blank stripped lines strictly between the header and the section's end, in order |
| CvSections.NonBlankClean | src/regex.py:110-113 | every collected line is non-empty, already stripped, and holds no line feed |
| CvSections.SectionContentClean | src/regex.py:108-115 | every line a section yields is non-empty, stripped and a single line |
| CvSections.CollectNonBlank | src/regex.py:108-115 | the collecting loop yields the non-blank stripped lines of the range, in order |
| CvSections.ContentBetween | src/regex.py:96-115 | given recorded boundaries, the end search and the collecting loop together yield the section's content |
| CvSections.ExtractSectionContent | src/regex.py:91-115 | `extract_section_content_flexible(text, section)` returns the specification `SectionContent` of the text's stripped lines |
| CvSections.ExtractExperience | src/regex.py:153-166 | no experience content gives `[]`; otherwise one entry whose `content` and `raw_lines` are the content |
| CvSections.ExtractEducation | src/regex.py:169-182 | no education content gives `[]`; otherwise one entry whose `content` and `raw_lines` are the content |
| CvSections.AppendAll | src/regex.py:354-355 | appending the items one by one extends the output by exactly those items |
| CvSections.AppendSummary | src/regex.py:346-350 | the summary block is its header, then each item followed by a blank line, and only when items exist |
| CvSections.AppendList | src/regex.py:352-368 | a list block is its header, the items and one blank line, and only when items exist |
| CvSections.AppendEntries | src/regex.py:370-388 | an entry block is its header, then each entry's `content` lines (none without the key), each entry followed by a blank line |
| CvSections.FormatOutput | src/regex.py:338-390 | `format_output(cv)` is the report's lines joined by line feeds |
| CvSections.JoinEmpty | src/regex.py:390 | a joined list is empty exactly when it has no line or one empty line |
| CvSections.FormatEmpty | src/regex.py:338-390 | the report is empty exactly when the title and every list are empty |
| CvSections.FormatTitleFirst | src/regex.py:342-344 | with a title, the report starts with the title and a line feed |
| CvSections.HeadingsAppend | src/regex.py:340-388 | the header lines of two consecutive parts of the report are those of each part, in order |
| CvSections.FormatSectionOrder | src/regex.py:342-388 | when no line of the input holds a line feed, the report's header lines are, in this order, Summary, Skills, Highlights, Accomplishments, Experience and Education, each present exactly when its list is non-empty |

## Left out

- PDF reading and file output (`extract_text`, `extract_to_file`, `main` in src/pdf_extractor.py) are left out. They are pdfplumber calls, file writes and prints.
- src/integrated_regex.py, src/main.py and src/gui.py are left out. They hold orchestration, database inserts and the GUI.
- `extract_title`, `extract_education` (the regex one), `read_extracted_text`, `save_formatted_output` and `extract_cv_info` in src/regex.py are left out. They need the `re` engine, `str.title` or file I/O.
- The header regular expressions (src/regex.py:51-58, 85) are replaced by the `isHeader` parameter. The order in which one line's patterns are tried does not matter, because `break` only leaves that section's pattern list. So one line can record several sections, and the model does the same.
- The unused `all_patterns`, `section_map` and `combined_pattern` (src/regex.py:65-74) are not modelled. They do not affect the result.
- `str.lower()` and `\w` are modelled over ASCII. Non-ASCII letters are neither lowercased nor word characters here. `\s` is the full set `str.isspace` accepts.
- The demo call `LevenshteinDistance("Benyam", "Ephrem")` at src/LevenshteinDistance.py:39 is not evaluated.
- The default argument `max_distance=2` is the constant `DefaultMaxDistance`. `FuzzySearchDefault` is the call that leaves it out.
- The `KeyError` of `boyer_moore` (src/boyer_moore.py:29) is a precondition, not an error value. `NoKeyError` follows the scan and holds exactly when every character looked up at a mismatch has a table entry.
- The outer `while True` of `boyer_moore` (src/boyer_moore.py:20) runs its body once, so it is modelled as the single inner loop.
- Python's dictionary iteration order in `extract_section_content_flexible` (src/regex.py:103) is replaced by the fixed order of `AllSections`. The smallest index above the start does not depend on the order.
- `CollectNonBlank` keeps the source's `if i < len(lines)` test (src/regex.py:110). The end of a section never exceeds `len(lines)`, so the test is always true.
- `CVInfo` fields other than the lists are not checked for `None`, as in the source. The data class's defaults are not modelled: the constructor takes every field.
- Experience and education entries are dictionaries from strings to line lists. Other value types the annotation `Dict[str, str]` allows are not modelled, because only `content` lists are read.
