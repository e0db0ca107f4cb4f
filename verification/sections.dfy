/**
 * The section extractor of the fact checker: page texts are concatenated,
 * split into trimmed non-empty lines, and a two-state scan ("no header yet"
 * / "current header plus body lines") cuts the lines into numbered sections.
 */
module Sections {
  import opened Text
  import opened Grouping

  // ---------------------------------------------------------------------------
  // Pages and lines
  // ---------------------------------------------------------------------------

  /** What one page adds to the text: nothing when its text is empty, else the text and one newline. */
  function PageChunk(page: string): string {
    if page != "" then page + "\n" else ""
  }

  /** The text built by the page loop: each page with non-empty text, followed by one newline. */
  function PageText(pages: seq<string>): (text: string)
    ensures text == [] || text[|text| - 1] == '\n'
  {
    if pages == [] then "" else PageText(pages[..|pages| - 1]) + PageChunk(pages[|pages| - 1])
  }

  /** The pages that contribute text, in order. */
  function NonEmptyPages(pages: seq<string>): (r: seq<string>)
    ensures forall i :: 0 <= i < |r| ==> r[i] != ""
  {
    if pages == [] then []
    else if pages[|pages| - 1] == "" then NonEmptyPages(pages[..|pages| - 1])
    else NonEmptyPages(pages[..|pages| - 1]) + [pages[|pages| - 1]]
  }

  /** The list comprehension over pieces: trim each one and keep the non-empty results. */
  function Clean(pieces: seq<string>): (r: seq<string>)
    ensures |r| <= |pieces|
  {
    if pieces == [] then []
    else if Strip(pieces[0]) == "" then Clean(pieces[1..])
    else [Strip(pieces[0])] + Clean(pieces[1..])
  }

  /** Every line is non-empty and already trimmed. */
  lemma {:induction false} CleanLines(pieces: seq<string>)
    ensures forall i :: 0 <= i < |Clean(pieces)| ==> Clean(pieces)[i] != "" && IsTrimmed(Clean(pieces)[i])
  {
    if pieces != [] {
      CleanLines(pieces[1..]);
      StripIsTrimmedInfix(pieces[0]);
    }
  }

  /** The trimmed, non-empty lines of a text. */
  function Lines(text: string): seq<string> {
    Clean(SplitOn(text, '\n'))
  }

  /** The lines of every page, page after page. */
  function PageLines(pages: seq<string>): seq<string> {
    if pages == [] then []
    else PageLines(pages[..|pages| - 1]) + Lines(pages[|pages| - 1])
  }

  // ---------------------------------------------------------------------------
  // The header pattern ^\d+\.\s+
  // ---------------------------------------------------------------------------

  /** Length of the run of ASCII digits at the front of `s`. */
  function LeadingDigits(s: string): nat {
    if s != [] && IsDigit(s[0]) then 1 + LeadingDigits(s[1..]) else 0
  }

  /** The leading digit run is maximal: digits up to it, and no digit right after it. */
  lemma {:induction false} LeadingDigitsRun(s: string)
    ensures LeadingDigits(s) <= |s|
    ensures AllDigits(s[..LeadingDigits(s)])
    ensures LeadingDigits(s) < |s| ==> !IsDigit(s[LeadingDigits(s)])
  {
    if s != [] && IsDigit(s[0]) {
      LeadingDigitsRun(s[1..]);
      assert s[..LeadingDigits(s)] == [s[0]] + s[1..][..LeadingDigits(s[1..])];
    }
  }

  /** A line is a header when it starts with digits, a period and a whitespace character. */
  predicate IsHeader(line: string) {
    var n := LeadingDigits(line);
    1 <= n && n + 1 < |line| && line[n] == '.' && IsSpace(line[n + 1])
  }

  /** The regular expression's reading of the pattern: SOME run of one or more digits, then `.`, then whitespace. */
  ghost predicate MatchesHeaderPattern(line: string) {
    exists n: nat :: HeaderMatchAt(line, n)
  }

  /** `line` opens with `n >= 1` digits, a period and a whitespace character. */
  predicate HeaderMatchAt(line: string, n: nat) {
    1 <= n && n + 1 < |line| && AllDigits(line[..n]) && line[n] == '.' && IsSpace(line[n + 1])
  }

  predicate AllDigits(s: string) {
    forall k :: 0 <= k < |s| ==> IsDigit(s[k])
  }

  lemma HeaderIffPattern(line: string)
    ensures IsHeader(line) <==> MatchesHeaderPattern(line)
  {
    if MatchesHeaderPattern(line) {
      var n: nat :| HeaderMatchAt(line, n);
      LeadingDigitsRun(line);
      var m := LeadingDigits(line);
      assert !IsDigit(line[n]);
      assert m == n;
    } else if IsHeader(line) {
      LeadingDigitsRun(line);
      assert HeaderMatchAt(line, LeadingDigits(line));
    }
  }

  // ---------------------------------------------------------------------------
  // Pages to lines
  // ---------------------------------------------------------------------------

  lemma {:induction false} CleanAppend(a: seq<string>, b: seq<string>)
    ensures Clean(a + b) == Clean(a) + Clean(b)
  {
    if a != [] {
      assert (a + b)[1..] == a[1..] + b;
      CleanAppend(a[1..], b);
    } else {
      assert a + b == b;
    }
  }

  /** A newline separates lines: the lines of `a + "\n" + b` are those of `a` followed by those of `b`. */
  lemma LinesAppend(a: string, b: string)
    ensures Lines(a + "\n" + b) == Lines(a) + Lines(b)
  {
    SplitOnAppend(a, '\n', b);
    CleanAppend(SplitOn(a, '\n'), SplitOn(b, '\n'));
  }

  lemma LinesOfNewlineTerminated(a: string)
    ensures Lines(a + "\n") == Lines(a)
  {
    LinesAppend(a, "");
    assert a + "\n" + "" == a + "\n";
  }

  /** A piece of text without a newline is one line, or none when it is blank. */
  lemma LinesOfOneLine(s: string)
    requires '\n' !in s
    ensures Lines(s) == if Strip(s) == "" then [] else [Strip(s)]
  {
    SplitOnNoSeparator(s, '\n');
  }

  /**
   * The lines of the concatenated text are the lines of each page, page after
   * page: no line spans two pages, and empty pages contribute nothing.
   */
  lemma {:induction false} PageTextLines(pages: seq<string>)
    ensures Lines(PageText(pages)) == PageLines(pages)
  {
    if pages != [] {
      var init := pages[..|pages| - 1];
      PageTextLines(init);
      ChunkLines(PageText(init), pages[|pages| - 1]);
    }
  }

  /** Appending one page's chunk to a newline-terminated text appends that page's lines. */
  lemma ChunkLines(t: string, page: string)
    requires t == [] || t[|t| - 1] == '\n'
    ensures Lines(t + PageChunk(page)) == Lines(t) + Lines(page)
  {
    if page == "" {
      EmptyPageLines(t, page);
    } else if t == [] {
      FirstPageLines(t, page);
    } else {
      TerminatedPageLines(t[..|t| - 1], page);
      assert t == t[..|t| - 1] + "\n";
    }
  }

  lemma EmptyPageLines(t: string, page: string)
    requires page == ""
    ensures Lines(t + PageChunk(page)) == Lines(t) + Lines(page)
  {
    assert SplitOn(page, '\n') == [""];
    assert t + PageChunk(page) == t;
  }

  lemma FirstPageLines(t: string, page: string)
    requires t == [] && page != ""
    ensures Lines(t + PageChunk(page)) == Lines(t) + Lines(page)
  {
    assert SplitOn(t, '\n') == [""];
    assert t + PageChunk(page) == page + "\n";
    LinesOfNewlineTerminated(page);
  }

  lemma TerminatedPageLines(t: string, page: string)
    requires page != ""
    ensures Lines(t + "\n" + PageChunk(page)) == Lines(t + "\n") + Lines(page)
  {
    assert t + "\n" + PageChunk(page) == t + "\n" + (page + "\n");
    LinesAppend(t, page + "\n");
    LinesOfNewlineTerminated(t);
    LinesOfNewlineTerminated(page);
  }

  /**
   * When no page text holds a newline, splitting the concatenated text gives
   * back exactly the non-empty pages and one trailing empty piece: every
   * contributing page is followed by exactly one newline.
   */
  lemma {:induction false} PageTextSplit(pages: seq<string>)
    requires forall i :: 0 <= i < |pages| ==> '\n' !in pages[i]
    ensures SplitOn(PageText(pages), '\n') == NonEmptyPages(pages) + [""]
  {
    if pages != [] {
      var init := pages[..|pages| - 1];
      var page := pages[|pages| - 1];
      forall i | 0 <= i < |init| ensures '\n' !in init[i] {
        assert init[i] == pages[i];
      }
      PageTextSplit(init);
      ChunkSplit(PageText(init), NonEmptyPages(init), page);
    }
  }

  /** Appending one page's chunk to a text whose pieces are `kept` and a trailing empty piece. */
  lemma ChunkSplit(t: string, kept: seq<string>, page: string)
    requires t == [] || t[|t| - 1] == '\n'
    requires SplitOn(t, '\n') == kept + [""]
    requires '\n' !in page
    ensures SplitOn(t + PageChunk(page), '\n') == (if page == "" then kept else kept + [page]) + [""]
  {
    if page == "" {
      assert t + PageChunk(page) == t;
    } else if t == [] {
      FirstPageSplit(kept, page);
    } else {
      LaterPageSplit(t, kept, page);
    }
  }

  /** A later contributing page: the text so far ends in a newline. */
  lemma LaterPageSplit(t: string, kept: seq<string>, page: string)
    requires t != [] && t[|t| - 1] == '\n'
    requires SplitOn(t, '\n') == kept + [""]
    requires '\n' !in page && page != ""
    ensures SplitOn(t + PageChunk(page), '\n') == kept + [page] + [""]
  {
    var t' := t[..|t| - 1];
    assert t == t' + "\n";
    SplitOnTerminated(t');
    SeqCancel(SplitOn(t', '\n'), kept, "");
    TerminatedPageSplit(t', page);
  }

  /** The first contributing page: the text is that page and one newline. */
  lemma FirstPageSplit(kept: seq<string>, page: string)
    requires SplitOn("", '\n') == kept + [""]
    requires '\n' !in page && page != ""
    ensures SplitOn("" + PageChunk(page), '\n') == kept + [page] + [""]
  {
    assert SplitOn("", '\n') == [] + [""];
    SeqCancel([], kept, "");
    assert "" + PageChunk(page) == page + "\n";
    SplitOnNoSeparator(page, '\n');
    SplitOnTerminated(page);
  }

  /** One more newline-terminated page adds that page and one more empty piece. */
  lemma TerminatedPageSplit(t: string, page: string)
    requires '\n' !in page && page != ""
    ensures SplitOn(t + "\n" + PageChunk(page), '\n') == SplitOn(t, '\n') + [page] + [""]
  {
    assert t + "\n" + PageChunk(page) == t + ['\n'] + (page + "\n");
    SplitOnAppend(t, '\n', page + "\n");
    SplitOnNoSeparator(page, '\n');
    SplitOnTerminated(page);
  }

  /** A trailing newline adds one empty piece to the split. */
  lemma SplitOnTerminated(a: string)
    ensures SplitOn(a + "\n", '\n') == SplitOn(a, '\n') + [""]
  {
    SplitOnAppend(a, '\n', "");
    assert a + ['\n'] + "" == a + "\n";
  }

  // ---------------------------------------------------------------------------
  // The extractor
  // ---------------------------------------------------------------------------

  /** What the extractor returns for a sequence of trimmed lines. */
  function SectionsOf(lines: seq<string>): seq<Section> {
    Segment(lines, IsHeader)
  }

  /**
   * `extract_sections`: concatenate the texts of the non-empty pages, each
   * followed by a newline, split into trimmed non-empty lines, then scan the
   * lines, closing the open section at each header and once more at the end.
   */
  method ExtractSections(pages: seq<string>) returns (sections: seq<Section>)
    ensures sections == SectionsOf(Lines(PageText(pages)))
    ensures sections == SectionsOf(PageLines(pages))
  {
    var text := ConcatPages(pages);
    var lines := Lines(text);
    sections := ScanLines(lines);
    PageTextLines(pages);
  }

  /** The page loop: each page with non-empty text is appended, followed by a newline. */
  method ConcatPages(pages: seq<string>) returns (text: string)
    ensures text == PageText(pages)
  {
    text := "";
    for p := 0 to |pages|
      invariant text == PageText(pages[..p])
    {
      PageTextSnoc(pages, p);
      if pages[p] != "" {
        text := text + pages[p] + "\n";
      }
    }
    assert pages[..|pages|] == pages;
  }

  /** Reading one more page appends that page's chunk. */
  lemma PageTextSnoc(pages: seq<string>, p: nat)
    requires p < |pages|
    ensures PageText(pages[..p + 1]) == PageText(pages[..p]) + PageChunk(pages[p])
  {
    assert pages[..p + 1][..p] == pages[..p];
  }

  /**
   * The line scan: a header line closes the open section (if any) and opens
   * its own; any other line joins the open body (or is dropped before the
   * first header); the open section is closed at the end.
   */
  method ScanLines(lines: seq<string>) returns (sections: seq<Section>)
    ensures sections == SectionsOf(lines)
  {
    sections := [];
    var header: Option<string> := None;
    var body: seq<string> := [];
    assert lines[0..] == lines;

    for i := 0 to |lines|
      invariant sections + Pending(header, body, lines[i..], IsHeader) == SectionsOf(lines)
    {
      ScanStep(sections, header, body, lines, i, IsHeader);
      ghost var before := sections + Pending(header, body, lines[i..], IsHeader);
      if IsHeader(lines[i]) {
        ghost var flushed := sections + Flush(header, body);
        if header.Some? {
          sections := sections + [Section(header.value, Join(body, " "))];
        }
        assert sections == flushed;
        header := Some(lines[i]);
        body := [];
      } else {
        body := body + [lines[i]];
      }
      assert sections + Pending(header, body, lines[i + 1..], IsHeader) == before;
    }

    PendingAtEnd(header, body, IsHeader);
    if header.Some? {
      sections := sections + [Section(header.value, Join(body, " "))];
    }
  }

  /** A numbered heading matches the header pattern. */
  lemma NumberedLineIsHeader()
    ensures IsHeader("1. Intro")
  {
    assert LeadingDigits("1. Intro") == 1;
  }

  /** A wrapped line that starts with a year ending a sentence is taken for a header too. */
  lemma YearLineIsHeader()
    ensures IsHeader("2024. Up")
  {
    assert LeadingDigits("2024. Up") == 4;
  }

  /** A line that starts with a decimal number is not a header: a space must follow the period. */
  lemma DecimalLineIsNotHeader()
    ensures !IsHeader("1.5 m")
  {
    assert LeadingDigits("1.5 m") == 1;
  }
}
