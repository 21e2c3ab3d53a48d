/** Line-range logic and output formatting of the CV extractor
    (src/regex.py): the `CVInfo` record, locating section headers,
    slicing out a section's lines, and the text report.

    Whether a stripped line is a header of a section is decided by the
    extractor's regular expressions; here that test is the parameter
    `isHeader`, true exactly when one of the section's header patterns
    matches the line. */
module CvSections {
  import opened Strings

  datatype Option<T> = None | Some(value: T)

  /** The lines an optional list stands for; `None` is falsy in the source
      and contributes nothing. */
  function Present<T>(o: Option<seq<T>>): seq<T>
  {
    match o
    case Some(xs) => xs
    case None => []
  }

  /** An experience or education entry: a dictionary from keys to lines. */
  type Entry = map<string, seq<string>>

  /** The `CVInfo` data class. A list field holds `None` until `__post_init__`
      replaces it. */
  class CVInfo {
    var title: string
    var skills: Option<seq<string>>
    var summary: Option<seq<string>>
    var highlights: Option<seq<string>>
    var accomplishments: Option<seq<string>>
    var experience: Option<seq<Entry>>
    var education: Option<seq<Entry>>
    var rawText: string

    /** Every list field holds a list. */
    ghost predicate Initialized()
      reads this
    {
      skills.Some? && summary.Some? && highlights.Some? && accomplishments.Some?
      && experience.Some? && education.Some?
    }

    /** The generated `__init__`, which stores its arguments and then runs
        `__post_init__`. */
    constructor (title: string, skills: Option<seq<string>>, summary: Option<seq<string>>,
                 highlights: Option<seq<string>>, accomplishments: Option<seq<string>>,
                 experience: Option<seq<Entry>>, education: Option<seq<Entry>>, rawText: string)
      ensures Initialized()
      ensures this.title == title && this.rawText == rawText
      ensures this.skills == Some(Present(skills)) && this.summary == Some(Present(summary))
      ensures this.highlights == Some(Present(highlights))
      ensures this.accomplishments == Some(Present(accomplishments))
      ensures this.experience == Some(Present(experience)) && this.education == Some(Present(education))
    {
      this.title := title;
      this.skills := skills;
      this.summary := summary;
      this.highlights := highlights;
      this.accomplishments := accomplishments;
      this.experience := experience;
      this.education := education;
      this.rawText := rawText;
      new;
      PostInit();
    }

    /** `__post_init__`: each list field that is `None` becomes the empty list;
        the other fields keep their values. */
    method PostInit()
      modifies this
      ensures Initialized()
      ensures title == old(title) && rawText == old(rawText)
      ensures skills == Some(Present(old(skills))) && summary == Some(Present(old(summary)))
      ensures highlights == Some(Present(old(highlights)))
      ensures accomplishments == Some(Present(old(accomplishments)))
      ensures experience == Some(Present(old(experience))) && education == Some(Present(old(education)))
    {
      if skills.None? { skills := Some([]); }
      if summary.None? { summary := Some([]); }
      if highlights.None? { highlights := Some([]); }
      if accomplishments.None? { accomplishments := Some([]); }
      if experience.None? { experience := Some([]); }
      if education.None? { education := Some([]); }
    }
  }

  // ---------------------------------------------------------------------
  // Section headers

  datatype Section = Skills | Summary | Highlights | Accomplishments | Experience | Education

  /** The sections in the order the extractor's header table lists them. */
  const AllSections: seq<Section> := [Skills, Summary, Highlights, Accomplishments, Experience, Education]

  function SectionIndex(s: Section): (k: nat)
    ensures k < |AllSections| && AllSections[k] == s
  {
    match s
    case Skills => 0
    case Summary => 1
    case Highlights => 2
    case Accomplishments => 3
    case Experience => 4
    case Education => 5
  }

  /** Whether some header pattern of the section matches a stripped line. */
  type HeaderTest = (Section, string) -> bool

  /** Every line, stripped. */
  function StripAll(lines: seq<string>): (r: seq<string>)
    ensures |r| == |lines|
  {
    if lines == [] then [] else StripAll(lines[..|lines| - 1]) + [Strip(lines[|lines| - 1])]
  }

  /** Line `k` of `StripAll(lines)` is line `k` of `lines`, stripped. */
  lemma {:induction false} StripAllAt(lines: seq<string>, k: nat)
    requires k < |lines|
    ensures StripAll(lines)[k] == Strip(lines[k])
    decreases |lines|
  {
    if k < |lines| - 1 {
      StripAllAt(lines[..|lines| - 1], k);
    }
  }

  /** Stripped line `k` is a non-blank header line of section `s`. */
  predicate HeaderAt(stripped: seq<string>, isHeader: HeaderTest, s: Section, k: int)
    requires 0 <= k < |stripped|
  {
    stripped[k] != "" && isHeader(s, stripped[k])
  }

  /** The last header line of `s` among the first `n` lines, or -1. */
  function LastHeader(stripped: seq<string>, isHeader: HeaderTest, s: Section, n: int): (r: int)
    requires 0 <= n <= |stripped|
    ensures -1 <= r < n
  {
    if n == 0 then -1
    else if HeaderAt(stripped, isHeader, s, n - 1) then n - 1
    else LastHeader(stripped, isHeader, s, n - 1)
  }

  /** `LastHeader` finds a header line, and none comes after it. */
  lemma {:induction false} LastHeaderSpec(stripped: seq<string>, isHeader: HeaderTest, s: Section, n: int)
    requires 0 <= n <= |stripped|
    ensures var r := LastHeader(stripped, isHeader, s, n);
      (r >= 0 ==> HeaderAt(stripped, isHeader, s, r))
      && forall k :: r < k < n ==> !HeaderAt(stripped, isHeader, s, k)
  {
    if n > 0 && !HeaderAt(stripped, isHeader, s, n - 1) {
      LastHeaderSpec(stripped, isHeader, s, n - 1);
    }
  }

  /** What `find_section_boundaries` returns, given the stripped lines: for
      each section with a header line, the index and text of its last one. */
  function Boundaries(stripped: seq<string>, isHeader: HeaderTest): (b: map<Section, (nat, string)>)
    ensures forall s :: s in b ==> b[s].0 < |stripped|
  {
    map s | s in AllSections && LastHeader(stripped, isHeader, s, |stripped|) >= 0 ::
      (LastHeader(stripped, isHeader, s, |stripped|) as nat,
       stripped[LastHeader(stripped, isHeader, s, |stripped|)])
  }

  /** A section is recorded exactly when it has a header line, and what is
      recorded is its last header line. */
  lemma BoundariesSpec(stripped: seq<string>, isHeader: HeaderTest, s: Section)
    ensures s in Boundaries(stripped, isHeader) <==>
      exists k :: 0 <= k < |stripped| && HeaderAt(stripped, isHeader, s, k)
    ensures s in Boundaries(stripped, isHeader) ==>
      var (k, line) := Boundaries(stripped, isHeader)[s];
      k < |stripped| && HeaderAt(stripped, isHeader, s, k) && line == stripped[k]
      && forall k' :: k < k' < |stripped| ==> !HeaderAt(stripped, isHeader, s, k')
  {
    assert s in AllSections by { assert AllSections[SectionIndex(s)] == s; }
    LastHeaderSpec(stripped, isHeader, s, |stripped|);
    var r := LastHeader(stripped, isHeader, s, |stripped|);
    if r < 0 {
      assert forall k :: 0 <= k < |stripped| ==> !HeaderAt(stripped, isHeader, s, k);
    }
  }

  /** `found` agrees with the header lines among the first `n` for section `s`. */
  ghost predicate Agrees(found: map<Section, (nat, string)>, stripped: seq<string>, isHeader: HeaderTest,
                         s: Section, n: int)
    requires 0 <= n <= |stripped|
  {
    var k := LastHeader(stripped, isHeader, s, n);
    if k < 0 then s !in found else s in found && found[s] == (k as nat, stripped[k])
  }

  /** Blank lines are never header lines, so they leave every section's
      last header where it was. */
  lemma AgreesBlank(found: map<Section, (nat, string)>, stripped: seq<string>, isHeader: HeaderTest,
                    i: int, s: Section)
    requires 0 <= i < |stripped| && stripped[i] == ""
    requires Agrees(found, stripped, isHeader, s, i)
    ensures Agrees(found, stripped, isHeader, s, i + 1)
  {
    assert LastHeader(stripped, isHeader, s, i + 1) == LastHeader(stripped, isHeader, s, i);
  }

  /** Recording line `i` under the sections whose test it passes moves the
      agreement from the first `i` lines to the first `i + 1`. */
  lemma AgreesRecord(found: map<Section, (nat, string)>, found': map<Section, (nat, string)>,
                     stripped: seq<string>, isHeader: HeaderTest, i: int, s: Section)
    requires 0 <= i < |stripped| && stripped[i] != ""
    requires Agrees(found, stripped, isHeader, s, i)
    requires isHeader(s, stripped[i]) ==> s in found' && found'[s] == (i as nat, stripped[i])
    requires !isHeader(s, stripped[i]) ==> (s in found' <==> s in found) && (s in found ==> found'[s] == found[s])
    ensures Agrees(found', stripped, isHeader, s, i + 1)
  {
  }

  /** Agreement on all lines is the boundary map. */
  lemma AgreesAll(found: map<Section, (nat, string)>, stripped: seq<string>, isHeader: HeaderTest)
    requires forall s :: Agrees(found, stripped, isHeader, s, |stripped|)
    ensures found == Boundaries(stripped, isHeader)
  {
    var b := Boundaries(stripped, isHeader);
    forall s: Section ensures (s in found <==> s in b) && (s in found ==> found[s] == b[s]) {
      assert AllSections[SectionIndex(s)] == s;
      assert Agrees(found, stripped, isHeader, s, |stripped|);
    }
    assert found.Keys == b.Keys;
  }

  /** The inner loop of `find_section_boundaries`: records `(i, line)` for every
      section whose header test the non-blank stripped line passes. */
  method RecordHeaders(found: map<Section, (nat, string)>, isHeader: HeaderTest, i: nat, line: string)
    returns (found': map<Section, (nat, string)>)
    ensures forall s :: isHeader(s, line) ==> s in found' && found'[s] == (i, line)
    ensures forall s :: !isHeader(s, line) ==> (s in found' <==> s in found) && (s in found ==> found'[s] == found[s])
  {
    found' := found;
    for k := 0 to |AllSections|
      invariant forall s :: SectionIndex(s) < k && isHeader(s, line) ==> s in found' && found'[s] == (i, line)
      invariant forall s :: !(SectionIndex(s) < k && isHeader(s, line)) ==>
        (s in found' <==> s in found) && (s in found ==> found'[s] == found[s])
    {
      var section := AllSections[k];
      if isHeader(section, line) {
        found' := found'[section := (i, line)];
      }
    }
  }

  /** `find_section_boundaries(text)`: walks the lines, skips blank ones, and
      records `(i, stripped line)` for every section whose header test the
      line passes; a later header of the same section overwrites an earlier one. */
  method FindSectionBoundaries(text: string, isHeader: HeaderTest) returns (found: map<Section, (nat, string)>)
    ensures found == Boundaries(StripAll(SplitLines(text)), isHeader)
    ensures forall s :: s in found ==> found[s].0 < |SplitLines(text)|
  {
    found := map[];
    var lines := SplitLines(text);
    ghost var stripped := StripAll(lines);
    for i := 0 to |lines|
      invariant forall s :: Agrees(found, stripped, isHeader, s, i)
    {
      var lineStripped := Strip(lines[i]);
      StripAllAt(lines, i);
      ghost var next := i + 1;
      if lineStripped == "" {
        forall s ensures Agrees(found, stripped, isHeader, s, next) {
          AgreesBlank(found, stripped, isHeader, i, s);
        }
        continue;
      }
      var found' := RecordHeaders(found, isHeader, i, lineStripped);
      forall s ensures Agrees(found', stripped, isHeader, s, next) {
        AgreesRecord(found, found', stripped, isHeader, i, s);
      }
      found := found';
    }
    AgreesAll(found, stripped, isHeader);
  }

  // ---------------------------------------------------------------------
  // Section content

  /** The smallest recorded line index above `start` that is below `n`
      (or `n`), looking at the sections in `secs`. */
  function NextBoundary(bounds: map<Section, (nat, string)>, start: int, n: int, secs: seq<Section>): (r: int)
    ensures r <= n
    ensures start < n ==> start < r
  {
    if secs == [] then n
    else
      var rest := NextBoundary(bounds, start, n, secs[..|secs| - 1]);
      var s := secs[|secs| - 1];
      if s in bounds && start < bounds[s].0 < rest then bounds[s].0 else rest
  }

  /** The boundary is `n` or a recorded index, and no recorded index above
      `start` comes before it. */
  lemma {:induction false} NextBoundarySpec(bounds: map<Section, (nat, string)>, start: int, n: int, secs: seq<Section>)
    ensures var r := NextBoundary(bounds, start, n, secs);
      (r == n || exists s :: s in secs && s in bounds && bounds[s].0 == r)
      && forall s :: s in secs && s in bounds && start < bounds[s].0 ==> r <= bounds[s].0
  {
    if secs != [] {
      NextBoundarySpec(bounds, start, n, secs[..|secs| - 1]);
      assert secs == secs[..|secs| - 1] + [secs[|secs| - 1]];
    }
  }

  /** The non-blank lines among `stripped[lo..hi]`, in order. */
  function NonBlank(stripped: seq<string>, lo: int, hi: int): seq<string>
    requires 0 <= lo && hi <= |stripped|
    decreases hi - lo
  {
    if hi <= lo then []
    else NonBlank(stripped, lo, hi - 1) + (if stripped[hi - 1] != "" then [stripped[hi - 1]] else [])
  }

  /** `NonBlank` keeps exactly the non-blank lines with index in `lo..hi`. */
  lemma {:induction false} NonBlankMembers(stripped: seq<string>, lo: int, hi: int)
    requires 0 <= lo && hi <= |stripped|
    ensures forall l :: l in NonBlank(stripped, lo, hi) <==>
      l != "" && exists k :: lo <= k < hi && stripped[k] == l
    decreases hi - lo
  {
    if hi > lo {
      NonBlankMembers(stripped, lo, hi - 1);
    }
  }

  /** What `extract_section_content_flexible(text, section)` returns, given the
      stripped lines: nothing without a header; otherwise the non-blank lines
      after the header and before the next recorded header (or the end). */
  function SectionContent(stripped: seq<string>, isHeader: HeaderTest, section: Section): seq<string>
  {
    ContentWithin(stripped, Boundaries(stripped, isHeader), section)
  }

  /** The section's lines given the recorded header lines `bounds`. */
  function ContentWithin(stripped: seq<string>, bounds: map<Section, (nat, string)>, section: Section): seq<string>
  {
    if section !in bounds then []
    else
      var start := bounds[section].0;
      NonBlank(stripped, start + 1, NextBoundary(bounds, start, |stripped|, AllSections))
  }

  lemma ContentWithinFound(stripped: seq<string>, bounds: map<Section, (nat, string)>, section: Section, end: int)
    requires section in bounds && bounds[section].0 < |stripped|
    requires end == NextBoundary(bounds, bounds[section].0, |stripped|, AllSections)
    ensures ContentWithin(stripped, bounds, section) == NonBlank(stripped, bounds[section].0 + 1, end)
  {
  }

  /** The end of a section lies after its header and is the nearest header line
      of any section after it, or the last line's successor. */
  lemma SectionEndSpec(stripped: seq<string>, isHeader: HeaderTest, section: Section)
    requires section in Boundaries(stripped, isHeader)
    ensures var bounds := Boundaries(stripped, isHeader);
      var start := bounds[section].0;
      var end := NextBoundary(bounds, start, |stripped|, AllSections);
      start < end <= |stripped|
      && (end == |stripped| || exists s :: s in bounds && bounds[s].0 == end)
      && forall s :: s in bounds && start < bounds[s].0 ==> end <= bounds[s].0
  {
    var bounds := Boundaries(stripped, isHeader);
    BoundariesSpec(stripped, isHeader, section);
    NextBoundarySpec(bounds, bounds[section].0, |stripped|, AllSections);
    forall s | s in bounds ensures s in AllSections {
      assert AllSections[SectionIndex(s)] == s;
    }
  }

  /** Without a header line there is no content. */
  lemma NoHeaderNoContent(stripped: seq<string>, isHeader: HeaderTest, section: Section)
    requires forall k :: 0 <= k < |stripped| ==> !HeaderAt(stripped, isHeader, section, k)
    ensures SectionContent(stripped, isHeader, section) == []
  {
    BoundariesSpec(stripped, isHeader, section);
  }

  /** Given the recorded boundaries, a section's lines are exactly the
      non-blank lines strictly between its header and its end. */
  lemma ContentWithinMembers(stripped: seq<string>, bounds: map<Section, (nat, string)>, section: Section)
    requires section in bounds && bounds[section].0 < |stripped|
    ensures var start := bounds[section].0;
      var end := NextBoundary(bounds, start, |stripped|, AllSections);
      forall l :: l in ContentWithin(stripped, bounds, section) <==>
        l != "" && exists k :: start < k < end && stripped[k] == l
  {
    var start := bounds[section].0;
    var end := NextBoundary(bounds, start, |stripped|, AllSections);
    ContentWithinFound(stripped, bounds, section, end);
    NonBlankMembers(stripped, start + 1, end);
  }

  /** With a recorded header, the section's lines are exactly the non-blank
      lines strictly between the header and the section's end; `NonBlank`
      keeps them in the order of the text. */
  lemma SectionContentMembers(stripped: seq<string>, isHeader: HeaderTest, section: Section)
    requires section in Boundaries(stripped, isHeader)
    ensures var bounds := Boundaries(stripped, isHeader);
      var start := bounds[section].0;
      var end := NextBoundary(bounds, start, |stripped|, AllSections);
      SectionContent(stripped, isHeader, section) == NonBlank(stripped, start + 1, end)
      && forall l :: l in SectionContent(stripped, isHeader, section) <==>
           l != "" && exists k :: start < k < end && stripped[k] == l
  {
    var bounds := Boundaries(stripped, isHeader);
    ContentWithinFound(stripped, bounds, section, NextBoundary(bounds, bounds[section].0, |stripped|, AllSections));
    ContentWithinMembers(stripped, bounds, section);
  }

  /** A line that stripping leaves alone and that holds no line feed. */
  predicate StrippedLine(l: string) {
    Strip(l) == l && '\n' !in l
  }

  /** A clean content line: non-empty, already stripped, one line. */
  predicate CleanLine(l: string) {
    l != "" && StrippedLine(l)
  }

  /** The stripped lines of a text are stripped already and hold no line feed. */
  lemma StripAllLines(text: string)
    ensures forall l :: l in StripAll(SplitLines(text)) ==> StrippedLine(l)
  {
    var lines := SplitLines(text);
    var stripped := StripAll(lines);
    forall l | l in stripped ensures StrippedLine(l) {
      var k :| 0 <= k < |stripped| && stripped[k] == l;
      StripAllAt(lines, k);
      StripIdempotent(lines[k]);
      StripAvoids(lines[k], '\n');
    }
  }

  lemma {:induction false} NonBlankClean(stripped: seq<string>, lo: int, hi: int)
    requires 0 <= lo && hi <= |stripped|
    requires forall l :: l in stripped ==> StrippedLine(l)
    ensures forall l :: l in NonBlank(stripped, lo, hi) ==> CleanLine(l)
    decreases hi - lo
  {
    if hi > lo {
      NonBlankClean(stripped, lo, hi - 1);
    }
  }

  lemma SectionLinesClean(stripped: seq<string>, isHeader: HeaderTest, section: Section)
    requires forall l :: l in stripped ==> StrippedLine(l)
    ensures forall l :: l in SectionContent(stripped, isHeader, section) ==> CleanLine(l)
  {
    var bounds := Boundaries(stripped, isHeader);
    if section in bounds {
      var start := bounds[section].0;
      NonBlankClean(stripped, start + 1, NextBoundary(bounds, start, |stripped|, AllSections));
    }
  }

  /** Every line of a section is non-empty, stripped and free of line feeds. */
  lemma SectionContentClean(text: string, isHeader: HeaderTest, section: Section)
    ensures forall l :: l in SectionContent(StripAll(SplitLines(text)), isHeader, section) ==> CleanLine(l)
  {
    StripAllLines(text);
    SectionLinesClean(StripAll(SplitLines(text)), isHeader, section);
  }

  /** The end-of-section search of `extract_section_content_flexible`: the
      smallest recorded line index above `start`, or `n`. */
  method SectionEnd(bounds: map<Section, (nat, string)>, start: int, n: int) returns (end: int)
    ensures end == NextBoundary(bounds, start, n, AllSections)
  {
    end := n;
    for k := 0 to |AllSections|
      invariant end == NextBoundary(bounds, start, n, AllSections[..k])
    {
      var other := AllSections[k];
      assert AllSections[..k + 1] == AllSections[..k] + [other];
      if other in bounds && bounds[other].0 > start && bounds[other].0 < end {
        end := bounds[other].0;
      }
    }
    assert AllSections[..|AllSections|] == AllSections;
  }

  /** The collecting loop of `extract_section_content_flexible`: the
      non-blank stripped lines with index in `lo..hi`. */
  method CollectNonBlank(lines: seq<string>, lo: nat, hi: nat) returns (content: seq<string>)
    requires lo <= hi <= |lines|
    ensures content == NonBlank(StripAll(lines), lo, hi)
  {
    ghost var stripped := StripAll(lines);
    content := [];
    for i := lo to hi
      invariant content == NonBlank(stripped, lo, i)
    {
      if i < |lines| {
        var line := Strip(lines[i]);
        StripAllAt(lines, i);
        if line != "" {
          content := content + [line];
        }
      }
    }
  }

  /** The body of `extract_section_content_flexible` once the header lines
      `bounds` are known. */
  method ContentBetween(lines: seq<string>, bounds: map<Section, (nat, string)>, section: Section)
    returns (content: seq<string>)
    requires forall s :: s in bounds ==> bounds[s].0 < |lines|
    ensures content == ContentWithin(StripAll(lines), bounds, section)
  {
    if section !in bounds {
      return [];
    }
    var start := bounds[section].0;
    var end := SectionEnd(bounds, start, |lines|);
    content := CollectNonBlank(lines, start + 1, end);
    ContentWithinFound(StripAll(lines), bounds, section, end);
  }

  /** `extract_section_content_flexible(text, section)`. */
  method ExtractSectionContent(text: string, isHeader: HeaderTest, section: Section) returns (content: seq<string>)
    ensures content == SectionContent(StripAll(SplitLines(text)), isHeader, section)
  {
    var lines := SplitLines(text);
    var bounds := FindSectionBoundaries(text, isHeader);
    content := ContentBetween(lines, bounds, section);
  }

  /** The single entry the flexible extractors build from a section's lines. */
  function SingleEntry(content: seq<string>): (e: Entry)
    ensures e.Keys == {"content", "raw_lines"}
    ensures e["content"] == content && e["raw_lines"] == content
  {
    map["content" := content, "raw_lines" := content]
  }

  /** `extract_experience_flexible(text)`. */
  method ExtractExperience(text: string, isHeader: HeaderTest) returns (entries: seq<Entry>)
    ensures var c := SectionContent(StripAll(SplitLines(text)), isHeader, Experience);
      (c == [] ==> entries == [])
      && (c != [] ==> |entries| == 1 && entries[0].Keys == {"content", "raw_lines"}
                      && entries[0]["content"] == c && entries[0]["raw_lines"] == c)
  {
    var content := ExtractSectionContent(text, isHeader, Experience);
    if content == [] {
      return [];
    }
    entries := [SingleEntry(content)];
  }

  /** `extract_education_flexible(text)`. */
  method ExtractEducation(text: string, isHeader: HeaderTest) returns (entries: seq<Entry>)
    ensures var c := SectionContent(StripAll(SplitLines(text)), isHeader, Education);
      (c == [] ==> entries == [])
      && (c != [] ==> |entries| == 1 && entries[0].Keys == {"content", "raw_lines"}
                      && entries[0]["content"] == c && entries[0]["raw_lines"] == c)
  {
    var content := ExtractSectionContent(text, isHeader, Education);
    if content == [] {
      return [];
    }
    entries := [SingleEntry(content)];
  }

  // ---------------------------------------------------------------------
  // Output formatting

  const SummaryHeader := "\U{2022} Summary\n"
  const SkillsHeader := "\U{2022} Skills\n"
  const HighlightsHeader := "\U{2022} Highlights\n"
  const AccomplishmentsHeader := "\U{2022} Accomplishments\n"
  const ExperienceHeader := "\U{2022} Experience\n"
  const EducationHeader := "\U{2022} Education\n"

  /** `entry.get('content', [])`. */
  function EntryContent(e: Entry): seq<string>
  {
    if "content" in e then e["content"] else []
  }

  /** Summary items are each followed by a blank line. */
  function SummaryLines(items: seq<string>): seq<string>
  {
    if items == [] then []
    else SummaryLines(items[..|items| - 1]) + [items[|items| - 1], ""]
  }

  /** Each entry's content lines, each entry followed by a blank line. */
  function EntryLines(entries: seq<Entry>): seq<string>
  {
    if entries == [] then []
    else EntryLines(entries[..|entries| - 1]) + EntryContent(entries[|entries| - 1]) + [""]
  }

  /** A header line, then the items, then one blank line. */
  function ListBlock(header: string, items: seq<string>): seq<string>
  {
    if items == [] then [] else [header] + items + [""]
  }

  /** The title and a blank line, when there is a title. */
  function TitleBlock(title: string): seq<string>
  {
    if title != "" then [title, ""] else []
  }

  /** The summary header, then each item followed by a blank line. */
  function SummaryBlock(items: seq<string>): seq<string>
  {
    if items != [] then [SummaryHeader] + SummaryLines(items) else []
  }

  /** A header, then each entry's content lines and a blank line. */
  function EntriesBlock(header: string, entries: seq<Entry>): seq<string>
  {
    if entries != [] then [header] + EntryLines(entries) else []
  }

  /** The list of output lines `format_output` builds. */
  function FormatLines(title: string, summary: seq<string>, skills: seq<string>,
                       highlights: seq<string>, accomplishments: seq<string>,
                       experience: seq<Entry>, education: seq<Entry>): seq<string>
  {
    TitleBlock(title)
    + SummaryBlock(summary)
    + ListBlock(SkillsHeader, skills)
    + ListBlock(HighlightsHeader, highlights)
    + ListBlock(AccomplishmentsHeader, accomplishments)
    + EntriesBlock(ExperienceHeader, experience)
    + EntriesBlock(EducationHeader, education)
  }

  /** `output.append(item)` for every item, in order. */
  method AppendAll(output: seq<string>, items: seq<string>) returns (r: seq<string>)
    ensures r == output + items
  {
    r := output;
    for k := 0 to |items|
      invariant r == output + items[..k]
    {
      assert items[..k + 1] == items[..k] + [items[k]];
      r := r + [items[k]];
    }
    assert items[..|items|] == items;
  }

  lemma SummaryLinesStep(items: seq<string>, k: nat)
    requires k < |items|
    ensures SummaryLines(items[..k + 1]) == SummaryLines(items[..k]) + [items[k], ""]
  {
    assert items[..k + 1][..k] == items[..k];
  }

  lemma AppendAssoc<T>(a: seq<T>, b: seq<T>, c: seq<T>)
    ensures a + b + c == a + (b + c)
  {
  }

  /** The summary loop: each item, then an empty line. */
  method AppendSummary(output: seq<string>, items: seq<string>) returns (r: seq<string>)
    ensures r == output + SummaryBlock(items)
  {
    r := output;
    if items != [] {
      r := r + [SummaryHeader];
      ghost var start := r;
      for k := 0 to |items|
        invariant r == start + SummaryLines(items[..k])
      {
        SummaryLinesStep(items, k);
        AppendAssoc(start, SummaryLines(items[..k]), [items[k], ""]);
        r := r + [items[k], ""];
      }
      assert items[..|items|] == items;
      AppendAssoc(output, [SummaryHeader], SummaryLines(items));
    }
  }

  /** A skills, highlights or accomplishments block. */
  method AppendList(output: seq<string>, header: string, items: seq<string>) returns (r: seq<string>)
    ensures r == output + ListBlock(header, items)
  {
    r := output;
    if items != [] {
      r := AppendAll(r + [header], items);
      r := r + [""];
    }
  }

  lemma EntryLinesStep(entries: seq<Entry>, k: nat)
    requires k < |entries|
    ensures EntryLines(entries[..k + 1]) == EntryLines(entries[..k]) + EntryContent(entries[k]) + [""]
  {
    assert entries[..k + 1][..k] == entries[..k];
  }

  /** An experience or education block: each entry's content, then an empty line. */
  method AppendEntries(output: seq<string>, header: string, entries: seq<Entry>) returns (r: seq<string>)
    ensures r == output + EntriesBlock(header, entries)
  {
    r := output;
    if entries != [] {
      r := r + [header];
      ghost var start := r;
      for k := 0 to |entries|
        invariant r == start + EntryLines(entries[..k])
      {
        EntryLinesStep(entries, k);
        AppendAssoc(start, EntryLines(entries[..k]), EntryContent(entries[k]));
        r := AppendAll(r, EntryContent(entries[k]));
        AppendAssoc(start, EntryLines(entries[..k]) + EntryContent(entries[k]), [""]);
        r := r + [""];
      }
      assert entries[..|entries|] == entries;
      AppendAssoc(output, [header], EntryLines(entries));
    }
  }

  /** `format_output(cv_info)`: appends the title and each non-empty section
      to a list of lines and joins them with line feeds. */
  method FormatOutput(cv: CVInfo) returns (out: string)
    ensures out == Join(FormatLines(cv.title, Present(cv.summary), Present(cv.skills),
                                    Present(cv.highlights), Present(cv.accomplishments),
                                    Present(cv.experience), Present(cv.education)), "\n")
  {
    var output := TitleBlock(cv.title);
    output := AppendSummary(output, Present(cv.summary));
    output := AppendList(output, SkillsHeader, Present(cv.skills));
    output := AppendList(output, HighlightsHeader, Present(cv.highlights));
    output := AppendList(output, AccomplishmentsHeader, Present(cv.accomplishments));
    output := AppendEntries(output, ExperienceHeader, Present(cv.experience));
    output := AppendEntries(output, EducationHeader, Present(cv.education));
    out := Join(output, "\n");
  }

  // ---------------------------------------------------------------------
  // Properties of the report

  /** A joined list is empty exactly when it is empty or one empty line. */
  lemma JoinEmpty(xs: seq<string>, sep: string)
    requires sep != ""
    ensures Join(xs, sep) == "" <==> xs == [] || xs == [""]
  {
    if |xs| >= 2 {
      assert |Join(xs, sep)| >= |sep|;
    }
  }

  /** The report is empty exactly when the title and every list are empty. */
  lemma FormatEmpty(title: string, summary: seq<string>, skills: seq<string>,
                    highlights: seq<string>, accomplishments: seq<string>,
                    experience: seq<Entry>, education: seq<Entry>)
    ensures Join(FormatLines(title, summary, skills, highlights, accomplishments, experience, education), "\n") == ""
      <==> title == "" && summary == [] && skills == [] && highlights == [] && accomplishments == []
           && experience == [] && education == []
  {
    var lines := FormatLines(title, summary, skills, highlights, accomplishments, experience, education);
    JoinEmpty(lines, "\n");
    if !(title == "" && summary == [] && skills == [] && highlights == [] && accomplishments == []
         && experience == [] && education == []) {
      assert |lines| >= 2;
    }
  }

  /** With a title, the report starts with the title and a line feed. */
  lemma FormatTitleFirst(title: string, summary: seq<string>, skills: seq<string>,
                         highlights: seq<string>, accomplishments: seq<string>,
                         experience: seq<Entry>, education: seq<Entry>)
    requires title != ""
    ensures var out := Join(FormatLines(title, summary, skills, highlights, accomplishments, experience, education), "\n");
      |title| < |out| && out[..|title| + 1] == title + "\n"
  {
    var lines := FormatLines(title, summary, skills, highlights, accomplishments, experience, education);
    var rest := lines[1..];
    assert lines == [title] + rest;
    JoinHead(title, rest, "\n");
    assert (title + "\n" + Join(rest, "\n"))[..|title| + 1] == title + "\n";
  }

  /** A section header line of the report. */
  predicate IsHeading(l: string) {
    l == SummaryHeader || l == SkillsHeader || l == HighlightsHeader
    || l == AccomplishmentsHeader || l == ExperienceHeader || l == EducationHeader
  }

  /** Every header line ends with a line feed, so a line without one is no header. */
  lemma HeadingHasLineFeed(l: string)
    requires IsHeading(l)
    ensures '\n' in l
  {
    assert l[|l| - 1] == '\n';
  }

  /** The header lines of `lines`, in order. */
  function Headings(lines: seq<string>): seq<string>
  {
    if lines == [] then []
    else Headings(lines[..|lines| - 1]) + (if IsHeading(lines[|lines| - 1]) then [lines[|lines| - 1]] else [])
  }

  lemma {:induction false} HeadingsAppend(a: seq<string>, b: seq<string>)
    ensures Headings(a + b) == Headings(a) + Headings(b)
    decreases |b|
  {
    if b == [] {
      assert a + b == a;
    } else {
      HeadingsAppend(a, b[..|b| - 1]);
      assert (a + b)[..|a + b| - 1] == a + b[..|b| - 1];
    }
  }

  /** Lines without a line feed contribute no header line. */
  lemma {:induction false} HeadingsNone(lines: seq<string>)
    requires forall l :: l in lines ==> '\n' !in l
    ensures Headings(lines) == []
    decreases |lines|
  {
    if lines != [] {
      HeadingsNone(lines[..|lines| - 1]);
      if IsHeading(lines[|lines| - 1]) {
        HeadingHasLineFeed(lines[|lines| - 1]);
      }
    }
  }

  lemma {:induction false} SummaryLinesNoHeadings(items: seq<string>)
    requires forall l :: l in items ==> '\n' !in l
    ensures Headings(SummaryLines(items)) == []
    decreases |items|
  {
    if items != [] {
      SummaryLinesNoHeadings(items[..|items| - 1]);
      HeadingsAppend(SummaryLines(items[..|items| - 1]), [items[|items| - 1], ""]);
      HeadingsNone([items[|items| - 1], ""]);
    }
  }

  /** No content line of any entry holds a line feed. */
  predicate EntriesOneLine(entries: seq<Entry>) {
    forall k, l :: 0 <= k < |entries| && l in EntryContent(entries[k]) ==> '\n' !in l
  }

  lemma {:induction false} EntryLinesNoHeadings(entries: seq<Entry>)
    requires EntriesOneLine(entries)
    ensures Headings(EntryLines(entries)) == []
    decreases |entries|
  {
    if entries != [] {
      var init := entries[..|entries| - 1];
      var e := entries[|entries| - 1];
      assert EntriesOneLine(init) by {
        forall k, l | 0 <= k < |init| && l in EntryContent(init[k]) ensures '\n' !in l {
          assert init[k] == entries[k];
        }
      }
      EntryLinesNoHeadings(init);
      HeadingsAppend(EntryLines(init), EntryContent(e));
      HeadingsAppend(EntryLines(init) + EntryContent(e), [""]);
      HeadingsNone(EntryContent(e));
      HeadingsNone([""]);
    }
  }

  /** `[header]` when a list is present, nothing otherwise. */
  function HeadingIf(present: bool, header: string): seq<string>
  {
    if present then [header] else []
  }

  /** The header lines a report holds: one per non-empty list, in the fixed
      order Summary, Skills, Highlights, Accomplishments, Experience, Education. */
  function PresentHeadings(summary: seq<string>, skills: seq<string>,
                           highlights: seq<string>, accomplishments: seq<string>,
                           experience: seq<Entry>, education: seq<Entry>): seq<string>
  {
    HeadingIf(summary != [], SummaryHeader)
    + HeadingIf(skills != [], SkillsHeader)
    + HeadingIf(highlights != [], HighlightsHeader)
    + HeadingIf(accomplishments != [], AccomplishmentsHeader)
    + HeadingIf(experience != [], ExperienceHeader)
    + HeadingIf(education != [], EducationHeader)
  }

  lemma ListBlockHeadings(header: string, items: seq<string>)
    requires IsHeading(header)
    requires forall l :: l in items ==> '\n' !in l
    ensures Headings(ListBlock(header, items)) == HeadingIf(items != [], header)
  {
    if items != [] {
      HeadingsAppend([header], items + [""]);
      HeadingsAppend(items, [""]);
      HeadingsNone(items);
      HeadingsNone([""]);
      assert [header] + items + [""] == [header] + (items + [""]);
    }
  }

  lemma EntriesBlockHeadings(header: string, entries: seq<Entry>)
    requires IsHeading(header)
    requires EntriesOneLine(entries)
    ensures Headings(EntriesBlock(header, entries)) == HeadingIf(entries != [], header)
  {
    if entries != [] {
      HeadingsAppend([header], EntryLines(entries));
      EntryLinesNoHeadings(entries);
    }
  }

  lemma SummaryBlockHeadings(items: seq<string>)
    requires forall l :: l in items ==> '\n' !in l
    ensures Headings(SummaryBlock(items)) == HeadingIf(items != [], SummaryHeader)
  {
    if items != [] {
      HeadingsAppend([SummaryHeader], SummaryLines(items));
      SummaryLinesNoHeadings(items);
    }
  }

  /** The header lines of seven consecutive blocks, block by block, when the
      first holds none. */
  lemma HeadingsOfBlocks(t: seq<string>, s: seq<string>, k: seq<string>, h: seq<string>,
                         a: seq<string>, x: seq<string>, e: seq<string>)
    requires Headings(t) == []
    ensures Headings(t + s + k + h + a + x + e)
      == Headings(s) + Headings(k) + Headings(h) + Headings(a) + Headings(x) + Headings(e)
  {
    HeadingsAppend(t, s);
    HeadingsAppend(t + s, k);
    HeadingsAppend(t + s + k, h);
    HeadingsAppend(t + s + k + h, a);
    HeadingsAppend(t + s + k + h + a, x);
    HeadingsAppend(t + s + k + h + a + x, e);
    assert [] + Headings(s) == Headings(s);
  }

  /** When no title, item or entry line holds a line feed (as holds for lines
      taken from a section), the report's header lines are those of the
      non-empty lists, in the fixed order. */
  lemma FormatSectionOrder(title: string, summary: seq<string>, skills: seq<string>,
                           highlights: seq<string>, accomplishments: seq<string>,
                           experience: seq<Entry>, education: seq<Entry>)
    requires '\n' !in title
    requires forall l :: l in summary ==> '\n' !in l
    requires forall l :: l in skills ==> '\n' !in l
    requires forall l :: l in highlights ==> '\n' !in l
    requires forall l :: l in accomplishments ==> '\n' !in l
    requires EntriesOneLine(experience) && EntriesOneLine(education)
    ensures Headings(FormatLines(title, summary, skills, highlights, accomplishments, experience, education))
      == PresentHeadings(summary, skills, highlights, accomplishments, experience, education)
  {
    var t := TitleBlock(title);
    var s := SummaryBlock(summary);
    var k := ListBlock(SkillsHeader, skills);
    var h := ListBlock(HighlightsHeader, highlights);
    var a := ListBlock(AccomplishmentsHeader, accomplishments);
    var x := EntriesBlock(ExperienceHeader, experience);
    var e := EntriesBlock(EducationHeader, education);
    HeadingsNone(t);
    SummaryBlockHeadings(summary);
    ListBlockHeadings(SkillsHeader, skills);
    ListBlockHeadings(HighlightsHeader, highlights);
    ListBlockHeadings(AccomplishmentsHeader, accomplishments);
    EntriesBlockHeadings(ExperienceHeader, experience);
    EntriesBlockHeadings(EducationHeader, education);
    HeadingsOfBlocks(t, s, k, h, a, x, e);
    assert FormatLines(title, summary, skills, highlights, accomplishments, experience, education)
      == t + s + k + h + a + x + e;
  }
}
