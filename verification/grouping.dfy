/**
 * Cutting a sequence of lines into sections at header lines, for any header
 * test `isHeader`: lines before the first header are dropped, and every
 * header opens a section that runs up to the next header or the end. The
 * section extractor instantiates `isHeader` with its numbered-header pattern.
 */
module Grouping {
  import opened Text

  /** One emitted section: the header line and its body lines joined by single spaces. */
  datatype Section = Section(header: string, body: string)

  /** A section before its body is joined: the header line and the body lines that follow it. */
  datatype Group = Group(header: string, lines: seq<string>)

  /** Length of the run of non-header lines at the front of `lines`. */
  function BodyRun(lines: seq<string>, isHeader: string -> bool): (n: nat)
    ensures n <= |lines|
  {
    if lines == [] || isHeader(lines[0]) then 0 else 1 + BodyRun(lines[1..], isHeader)
  }

  /** The body run holds no header and ends at a header or at the end of the lines. */
  lemma {:induction false} BodyRunSpec(lines: seq<string>, isHeader: string -> bool)
    ensures forall k :: 0 <= k < BodyRun(lines, isHeader) ==> !isHeader(lines[k])
    ensures BodyRun(lines, isHeader) < |lines| ==> isHeader(lines[BodyRun(lines, isHeader)])
  {
    if lines != [] && !isHeader(lines[0]) {
      BodyRunSpec(lines[1..], isHeader);
    }
  }

  /** A run of non-header lines followed by a header (or by nothing) is exactly the body run. */
  lemma {:induction false} BodyRunAcross(body: seq<string>, rest: seq<string>, isHeader: string -> bool)
    requires forall k :: 0 <= k < |body| ==> !isHeader(body[k])
    requires rest == [] || isHeader(rest[0])
    ensures BodyRun(body + rest, isHeader) == |body|
  {
    if body == [] {
      assert body + rest == rest;
    } else {
      assert (body + rest)[0] == body[0];
      assert (body + rest)[1..] == body[1..] + rest;
      BodyRunAcross(body[1..], rest, isHeader);
    }
  }

  /** Drops the lines before the first header. */
  function DropPreamble(lines: seq<string>, isHeader: string -> bool): seq<string> {
    lines[BodyRun(lines, isHeader)..]
  }

  /** Cuts lines into groups: the first line with the non-header lines after it, and so on from the next header. */
  function Groups(lines: seq<string>, isHeader: string -> bool): seq<Group>
    decreases |lines|
  {
    if lines == [] then []
    else
      var n := BodyRun(lines[1..], isHeader);
      [Group(lines[0], lines[1..1 + n])] + Groups(lines[1 + n..], isHeader)
  }

  /** Joins each group's body lines with single spaces. */
  function Render(groups: seq<Group>): (r: seq<Section>)
    ensures |r| == |groups|
  {
    if groups == [] then []
    else [Section(groups[0].header, Join(groups[0].lines, " "))] + Render(groups[1..])
  }

  /** The sections of a sequence of lines. */
  function Segment(lines: seq<string>, isHeader: string -> bool): seq<Section> {
    Render(Groups(DropPreamble(lines, isHeader), isHeader))
  }

  /** The lines a sequence of groups stands for: each header followed by its body lines. */
  function Flatten(groups: seq<Group>): seq<string> {
    if groups == [] then [] else [groups[0].header] + groups[0].lines + Flatten(groups[1..])
  }

  /** Every group opens with a header line and has no header among its body lines. */
  predicate WellFormed(groups: seq<Group>, isHeader: string -> bool) {
    forall i :: 0 <= i < |groups| ==>
      isHeader(groups[i].header) && forall k :: 0 <= k < |groups[i].lines| ==> !isHeader(groups[i].lines[k])
  }

  /** The header lines, in document order. */
  function HeaderLines(lines: seq<string>, isHeader: string -> bool): (r: seq<string>)
    ensures |r| <= |lines|
  {
    if lines == [] then []
    else (if isHeader(lines[0]) then [lines[0]] else []) + HeaderLines(lines[1..], isHeader)
  }

  // ---------------------------------------------------------------------------
  // Properties of the segmentation
  // ---------------------------------------------------------------------------

  lemma {:induction false} RenderAt(groups: seq<Group>, j: nat)
    requires j < |groups|
    ensures Render(groups)[j] == Section(groups[j].header, Join(groups[j].lines, " "))
  {
    if j > 0 {
      RenderAt(groups[1..], j - 1);
    }
  }

  /** Two well-formed groupings, one after the other, are well formed. */
  lemma WellFormedAppend(a: seq<Group>, b: seq<Group>, isHeader: string -> bool)
    requires WellFormed(a, isHeader) && WellFormed(b, isHeader)
    ensures WellFormed(a + b, isHeader)
  {
    forall i | |a| <= i < |a + b| ensures (a + b)[i] == b[i - |a|] {
    }
  }

  /** The groups after the first of a well-formed grouping are well formed. */
  lemma WellFormedTail(groups: seq<Group>, isHeader: string -> bool)
    requires groups != [] && WellFormed(groups, isHeader)
    ensures WellFormed(groups[1..], isHeader)
  {
    forall i | 0 <= i < |groups[1..]| ensures groups[1..][i] == groups[i + 1] {
    }
  }

  /** The groups partition the lines: well formed, and together exactly the lines, in order. */
  lemma {:induction false} GroupsPartition(lines: seq<string>, isHeader: string -> bool)
    requires lines == [] || isHeader(lines[0])
    ensures WellFormed(Groups(lines, isHeader), isHeader)
    ensures Flatten(Groups(lines, isHeader)) == lines
    decreases |lines|
  {
    if lines != [] {
      var n := BodyRun(lines[1..], isHeader);
      var g, rest := Group(lines[0], lines[1..1 + n]), lines[1 + n..];
      FirstGroup(lines, n, isHeader);
      FirstGroupWellFormed(lines, n, isHeader);
      assert Groups(lines, isHeader) == [g] + Groups(rest, isHeader);
      GroupsPartition(rest, isHeader);
      WellFormedAppend([g], Groups(rest, isHeader), isHeader);
      FlattenCons(g, Groups(rest, isHeader));
    }
  }

  /** Lines that open with a header: that header, the body run of `n` lines after it, then lines that open with the next header. */
  lemma FirstGroup(lines: seq<string>, n: nat, isHeader: string -> bool)
    requires lines != [] && n == BodyRun(lines[1..], isHeader)
    ensures 1 + n <= |lines|
    ensures lines == [lines[0]] + lines[1..1 + n] + lines[1 + n..]
    ensures lines[1 + n..] == [] || isHeader(lines[1 + n..][0])
  {
    var tail := lines[1..];
    BodyRunSpec(tail, isHeader);
    assert lines[1..1 + n] == tail[..n];
    assert lines[1 + n..] == tail[n..];
    assert tail == tail[..n] + tail[n..];
    assert lines == [lines[0]] + tail;
  }

  /** A header and the body run after it form a well-formed group. */
  lemma FirstGroupWellFormed(lines: seq<string>, n: nat, isHeader: string -> bool)
    requires lines != [] && isHeader(lines[0]) && n == BodyRun(lines[1..], isHeader)
    ensures WellFormed([Group(lines[0], lines[1..1 + n])], isHeader)
  {
    var tail := lines[1..];
    BodyRunSpec(tail, isHeader);
    var body := lines[1..1 + n];
    forall k | 0 <= k < |body| ensures !isHeader(body[k]) {
      assert body[k] == tail[k];
    }
  }

  /** Flattening a group in front of others puts its lines in front. */
  lemma FlattenCons(g: Group, groups: seq<Group>)
    ensures Flatten([g] + groups) == [g.header] + g.lines + Flatten(groups)
  {
    assert ([g] + groups)[1..] == groups;
  }

  /** The partition is unique: any well-formed grouping of the lines is the one `Groups` computes. */
  lemma {:induction false} GroupsUnique(groups: seq<Group>, lines: seq<string>, isHeader: string -> bool)
    requires WellFormed(groups, isHeader) && Flatten(groups) == lines
    ensures lines == [] || isHeader(lines[0])
    ensures Groups(lines, isHeader) == groups
    decreases |groups|
  {
    if groups != [] {
      var g, tail := groups[0], groups[1..];
      var rest := Flatten(tail);
      assert lines == [g.header] + g.lines + rest;
      WellFormedTail(groups, isHeader);
      GroupsUnique(tail, rest, isHeader);
      GroupsOfFirst(g, rest, isHeader);
      assert groups == [g] + tail;
    }
  }

  /** A header, its header-free body lines, then lines that open with a header (or none): the first group is exactly that. */
  lemma GroupsOfFirst(g: Group, rest: seq<string>, isHeader: string -> bool)
    requires isHeader(g.header) && forall k :: 0 <= k < |g.lines| ==> !isHeader(g.lines[k])
    requires rest == [] || isHeader(rest[0])
    ensures Groups([g.header] + g.lines + rest, isHeader) == [g] + Groups(rest, isHeader)
  {
    var lines := [g.header] + g.lines + rest;
    assert lines[1..] == g.lines + rest;
    BodyRunAcross(g.lines, rest, isHeader);
    assert lines[1..1 + |g.lines|] == g.lines;
    assert lines[1 + |g.lines|..] == rest;
  }

  /** Non-header lines at the front contribute no header line. */
  lemma {:induction false} HeaderLinesSkipRun(lines: seq<string>, n: nat, isHeader: string -> bool)
    requires n <= |lines|
    requires forall k :: 0 <= k < n ==> !isHeader(lines[k])
    ensures HeaderLines(lines, isHeader) == HeaderLines(lines[n..], isHeader)
  {
    if n > 0 {
      HeaderLinesSkipRun(lines[1..], n - 1, isHeader);
      assert lines[1..][n - 1..] == lines[n..];
    }
  }

  /** The headers of the groups are the header lines. */
  lemma {:induction false} GroupHeaders(lines: seq<string>, isHeader: string -> bool)
    requires lines == [] || isHeader(lines[0])
    ensures |Groups(lines, isHeader)| == |HeaderLines(lines, isHeader)|
    ensures forall j :: 0 <= j < |Groups(lines, isHeader)| ==>
              Groups(lines, isHeader)[j].header == HeaderLines(lines, isHeader)[j]
    decreases |lines|
  {
    if lines != [] {
      var n := BodyRun(lines[1..], isHeader);
      BodyRunSpec(lines[1..], isHeader);
      var rest := lines[1 + n..];
      assert rest == lines[1..][n..];
      GroupHeaders(rest, isHeader);
      HeaderLinesSkipRun(lines[1..], n, isHeader);
      assert Groups(lines, isHeader) == [Group(lines[0], lines[1..1 + n])] + Groups(rest, isHeader);
      assert HeaderLines(lines, isHeader) == [lines[0]] + HeaderLines(rest, isHeader);
    }
  }

  /** Exactly one section per header line, and the headers are the header lines in document order. */
  lemma SegmentHeaders(lines: seq<string>, isHeader: string -> bool)
    ensures |Segment(lines, isHeader)| == |HeaderLines(lines, isHeader)|
    ensures forall j :: 0 <= j < |Segment(lines, isHeader)| ==>
              Segment(lines, isHeader)[j].header == HeaderLines(lines, isHeader)[j]
  {
    var rest := DropPreamble(lines, isHeader);
    BodyRunSpec(lines, isHeader);
    HeaderLinesSkipRun(lines, BodyRun(lines, isHeader), isHeader);
    GroupHeaders(rest, isHeader);
    forall j | 0 <= j < |Segment(lines, isHeader)|
      ensures Segment(lines, isHeader)[j].header == HeaderLines(lines, isHeader)[j]
    {
      RenderAt(Groups(rest, isHeader), j);
    }
  }

  /** Lines with no header yield no section at all (there is no whole-document fallback). */
  lemma NoHeaderNoSegments(lines: seq<string>, isHeader: string -> bool)
    requires forall k :: 0 <= k < |lines| ==> !isHeader(lines[k])
    ensures Segment(lines, isHeader) == []
  {
    BodyRunAcross(lines, [], isHeader);
    assert lines + [] == lines;
  }

  /** Lines before the first header never reach any section. */
  lemma PreambleIgnored(preamble: seq<string>, lines: seq<string>, isHeader: string -> bool)
    requires forall k :: 0 <= k < |preamble| ==> !isHeader(preamble[k])
    ensures Segment(preamble + lines, isHeader) == Segment(lines, isHeader)
  {
    BodyRunPrefix(preamble, lines, isHeader);
    assert (preamble + lines)[|preamble| + BodyRun(lines, isHeader)..] == lines[BodyRun(lines, isHeader)..];
  }

  /** Header-free lines in front lengthen the body run by their number. */
  lemma {:induction false} BodyRunPrefix(preamble: seq<string>, lines: seq<string>, isHeader: string -> bool)
    requires forall k :: 0 <= k < |preamble| ==> !isHeader(preamble[k])
    ensures BodyRun(preamble + lines, isHeader) == |preamble| + BodyRun(lines, isHeader)
  {
    if preamble == [] {
      assert preamble + lines == lines;
    } else {
      var rest := preamble[1..];
      assert (preamble + lines)[1..] == rest + lines;
      assert forall k :: 0 <= k < |rest| ==> rest[k] == preamble[k + 1];
      BodyRunPrefix(rest, lines, isHeader);
    }
  }

  /**
   * The segmentation, characterised without reference to how it is computed:
   * for header-free preamble lines followed by any well-formed grouping, the
   * sections are the groups, each header with its body lines joined by single
   * spaces.
   */
  lemma SegmentOfGroups(preamble: seq<string>, groups: seq<Group>, isHeader: string -> bool)
    requires forall k :: 0 <= k < |preamble| ==> !isHeader(preamble[k])
    requires WellFormed(groups, isHeader)
    ensures Segment(preamble + Flatten(groups), isHeader) == Render(groups)
  {
    var lines := Flatten(groups);
    PreambleIgnored(preamble, lines, isHeader);
    GroupsUnique(groups, lines, isHeader);
    BodyRunAcross([], lines, isHeader);
    assert [] + lines == lines;
    assert DropPreamble(lines, isHeader) == lines;
  }

  // ---------------------------------------------------------------------------
  // The left-to-right scan
  // ---------------------------------------------------------------------------

  /**
   * What is still to come from a left-to-right scan that is in state
   * (`header`, `body`) when `rest` is the input not yet read.
   */
  function Pending(header: Option<string>, body: seq<string>, rest: seq<string>, isHeader: string -> bool): seq<Section> {
    if header.None? then Segment(rest, isHeader) else Open(header.value, body, rest, isHeader)
  }

  /** What is still to come while the section of `header` is open with body lines `body` so far. */
  function Open(header: string, body: seq<string>, rest: seq<string>, isHeader: string -> bool): seq<Section> {
    var n := BodyRun(rest, isHeader);
    [Section(header, Join(body + rest[..n], " "))] + Render(Groups(rest[n..], isHeader))
  }

  /** The section a scan in state (`header`, `body`) closes: none before the first header. */
  function Flush(header: Option<string>, body: seq<string>): (r: seq<Section>)
    ensures |r| == if header.Some? then 1 else 0
  {
    if header.Some? then [Section(header.value, Join(body, " "))] else []
  }

  /** Once every line is read, only the open section (if any) is still to come. */
  lemma PendingAtEnd(header: Option<string>, body: seq<string>, isHeader: string -> bool)
    ensures Pending(header, body, [], isHeader) == Flush(header, body)
  {
    assert body + [][..0] == body;
  }

  /** Lines that open with a header: that header's section is open, with an empty body so far. */
  lemma GroupsAtHeader(rest: seq<string>, isHeader: string -> bool)
    requires rest != [] && isHeader(rest[0])
    ensures Render(Groups(rest, isHeader)) == Open(rest[0], [], rest[1..], isHeader)
  {
    var tail := rest[1..];
    var m := BodyRun(tail, isHeader);
    BodyRunSpec(tail, isHeader);
    assert rest[1..1 + m] == tail[..m];
    assert rest[1 + m..] == tail[m..];
    assert [] + tail[..m] == tail[..m];
  }

  lemma SegmentAtHeader(rest: seq<string>, isHeader: string -> bool)
    requires rest != [] && isHeader(rest[0])
    ensures Segment(rest, isHeader) == Open(rest[0], [], rest[1..], isHeader)
  {
    assert DropPreamble(rest, isHeader) == rest;
    GroupsAtHeader(rest, isHeader);
  }

  lemma SegmentAtBody(rest: seq<string>, isHeader: string -> bool)
    requires rest != [] && !isHeader(rest[0])
    ensures Segment(rest, isHeader) == Segment(rest[1..], isHeader)
  {
    assert DropPreamble(rest, isHeader) == DropPreamble(rest[1..], isHeader);
  }

  lemma OpenAtHeader(header: string, body: seq<string>, rest: seq<string>, isHeader: string -> bool)
    requires rest != [] && isHeader(rest[0])
    ensures Open(header, body, rest, isHeader)
         == [Section(header, Join(body, " "))] + Open(rest[0], [], rest[1..], isHeader)
  {
    assert BodyRun(rest, isHeader) == 0;
    assert body + rest[..0] == body;
    assert rest[0..] == rest;
    GroupsAtHeader(rest, isHeader);
  }

  lemma OpenAtBody(header: string, body: seq<string>, rest: seq<string>, isHeader: string -> bool)
    requires rest != [] && !isHeader(rest[0])
    ensures Open(header, body, rest, isHeader) == Open(header, body + [rest[0]], rest[1..], isHeader)
  {
    var tail := rest[1..];
    var m := BodyRun(tail, isHeader);
    assert BodyRun(rest, isHeader) == 1 + m;
    BodyRunSpec(tail, isHeader);
    assert rest[1 + m..] == tail[m..];
    assert rest[..1 + m] == [rest[0]] + tail[..m];
    assert body + rest[..1 + m] == (body + [rest[0]]) + tail[..m];
  }

  /** One step of the scan keeps `emitted + Pending(state, rest)` unchanged. */
  lemma PendingStep(header: Option<string>, body: seq<string>, rest: seq<string>, isHeader: string -> bool)
    requires rest != []
    ensures isHeader(rest[0]) ==>
      Pending(header, body, rest, isHeader) == Flush(header, body) + Pending(Some(rest[0]), [], rest[1..], isHeader)
    ensures !isHeader(rest[0]) ==>
      Pending(header, body, rest, isHeader) == Pending(header, body + [rest[0]], rest[1..], isHeader)
  {
    match header
    case None =>
      if isHeader(rest[0]) {
        SegmentAtHeader(rest, isHeader);
      } else {
        SegmentAtBody(rest, isHeader);
      }
    case Some(h) =>
      if isHeader(rest[0]) {
        OpenAtHeader(h, body, rest, isHeader);
      } else {
        OpenAtBody(h, body, rest, isHeader);
      }
  }

  /**
   * Reading line `i` keeps `emitted + Pending(...)` unchanged: a header line
   * flushes the open section and opens a new one, any other line joins the body.
   */
  lemma ScanStep(emitted: seq<Section>, header: Option<string>, body: seq<string>,
                 lines: seq<string>, i: nat, isHeader: string -> bool)
    requires i < |lines|
    ensures isHeader(lines[i]) ==>
      emitted + Pending(header, body, lines[i..], isHeader)
      == (emitted + Flush(header, body)) + Pending(Some(lines[i]), [], lines[i + 1..], isHeader)
    ensures !isHeader(lines[i]) ==>
      emitted + Pending(header, body, lines[i..], isHeader)
      == emitted + Pending(header, body + [lines[i]], lines[i + 1..], isHeader)
  {
    PendingStep(header, body, lines[i..], isHeader);
    assert lines[i..][1..] == lines[i + 1..];
  }

  /**
   * A title line before the first header is dropped, and each header
   * collects the lines up to the next one, joined by single spaces.
   */
  lemma TitleAndTwoSections(title: string, h1: string, a: string, b: string, h2: string, c: string,
                            isHeader: string -> bool)
    requires !isHeader(title) && isHeader(h1) && !isHeader(a) && !isHeader(b) && isHeader(h2) && !isHeader(c)
    ensures Segment([title, h1, a, b, h2, c], isHeader) == [Section(h1, a + " " + b), Section(h2, c)]
  {
    var g1, g2 := Group(h1, [a, b]), Group(h2, [c]);
    assert WellFormed([g1, g2], isHeader);
    SegmentOfGroups([title], [g1, g2], isHeader);
    FlattenTwo(g1, g2);
    assert [title] + Flatten([g1, g2]) == [title, h1, a, b, h2, c];
    RenderTwo(g1, g2);
    assert [a, b][1..] == [b];
    assert Join([a, b], " ") == a + " " + Join([b], " ");
  }

  lemma FlattenTwo(g1: Group, g2: Group)
    ensures Flatten([g1, g2]) == [g1.header] + g1.lines + [g2.header] + g2.lines
  {
    assert [g1, g2][1..] == [g2];
    assert Flatten([g2]) == [g2.header] + g2.lines + [];
  }

  lemma RenderTwo(g1: Group, g2: Group)
    ensures Render([g1, g2]) == [Section(g1.header, Join(g1.lines, " ")), Section(g2.header, Join(g2.lines, " "))]
  {
    assert [g1, g2][1..] == [g2];
  }
}
