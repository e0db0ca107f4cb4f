# Fact checker core, in Dafny

The fact checker reads a PDF report and cuts it into numbered sections.

- **Reading the report.** The texts of the pages are concatenated. Every page with non-empty text is followed by one newline. The text is split into trimmed, non-empty lines. A line that starts with digits, a period and whitespace (`^\d+\.\s+`) opens a new section. The lines up to the next such line form its body, joined by single spaces. Lines before the first header are dropped.
- **Checking each section.** The claim is the body's text before its first period, trimmed, plus a period. The preview is the body's first 600 characters followed by `...`.
- **Evidence.** The search results for the claim become two things. Their excerpts are joined by newlines into the evidence. Their URLs become the list of sources.
- **Reading the verdict.** The language model's reply is trimmed and cut at its first newline. Every occurrence of `Status:` is deleted from the first line, and every occurrence of `Explanation:` from the second, in one left-to-right pass (Python's `replace`). Both lines are then trimmed. The status picks one of three displays:
  - exactly `Verified`: success;
  - exactly `False`: error;
  - anything else: warning.

The modules:

- `Text`: Python's `strip`, `split`, `split(sep, 1)`, `join` and `replace(x, "")`.
- `Grouping`: cutting lines into sections, for any header test.
- `Sections`: the header pattern, as a predicate; the page loop and the line scan, as imperative methods proved against functional specifications.
- `Claims`: claim and preview.
- `Evidence`: evidence and sources.
- `Verdicts`: reply parsing and display tier.

## Model

| member | source | states |
|---|---|---|
| Sections.ExtractSections | app.py:26-52 | the sections returned are those of the lines of the concatenated page text, and equally those of the lines of each page taken page after page |
| Sections.ConcatPages | app.py:28-32 | the loop's text is every non-empty page text followed by one newline, in page order |
| Sections.PageTextSplit | app.py:30-32 | when no page holds a newline, splitting the text at newlines gives exactly the non-empty pages, in order, then one empty piece: each contributing page is followed by exactly one newline |
| Sections.PageTextLines | app.py:30-34 | no line spans two pages and empty pages contribute nothing: the lines of the text are the lines of each page, concatenated |
| Sections.CleanLines | app.py:34 | every line kept is non-empty and has no leading or trailing whitespace |
| Sections.LinesAppend | app.py:34 | lines are cut at every newline: the lines of `a + "\n" + b` are those of `a` followed by those of `b` |
| Sections.LinesOfOneLine | app.py:34 | a newline-free text gives its trimmed self as one line, or no line when it is blank |
| Sections.HeaderIffPattern | app.py:38 | the header test holds exactly when the line opens with one or more digits, a period and a whitespace character |
| Sections.LeadingDigitsRun | app.py:38 | the digit run used by the header test is maximal: all digits, and no digit right after it |
| Sections.NumberedLineIsHeader | app.py:38 | a numbered heading such as "1. Intro" is a header |
| Sections.YearLineIsHeader | app.py:38 | a line such as "2024. Up" (a wrapped sentence ending in a year) is also taken for a header |
| Sections.DecimalLineIsNotHeader | app.py:38 | a line that opens with a decimal number such as "1.5 m" is not a header |
| Sections.PageText | app.py:28-32 | the text the page loop builds: each non-empty page text followed by one newline; it is empty or ends in a newline (`PageTextSplit` and `PageTextLines` prove what it contains) |
| Sections.Clean | app.py:34 | the comprehension: each piece trimmed, blank pieces dropped, order kept; it never has more lines than pieces (`CleanLines` proves every kept line non-empty and trimmed) |
| Sections.Lines | app.py:34 | the trimmed non-empty lines of a text, the comprehension applied to `split("\n")` (`LinesAppend` and `LinesOfOneLine` prove how they are cut) |
| Sections.IsHeader | app.py:38 | `header_pattern.match(line)`: digits, then a period, then whitespace, at the start of the line (`HeaderIffPattern` proves it equal to the pattern's reading) |
| Grouping.Segment | app.py:40-50 | the sections of a sequence of lines: preamble dropped, then one section per header with its body lines joined by single spaces; the reference `ScanLines` is proved against (`SegmentOfGroups`, `GroupsPartition`, `GroupsUnique`, `SegmentHeaders` pin it down) |
| Sections.ScanLines | app.py:35-50 | the header/body scan returns exactly the sections of its lines as `Grouping.Segment` defines them |
| Grouping.TitleAndTwoSections | app.py:40-50 | a title line, then two headers with two and one body lines, gives two sections whose bodies are the body lines joined by single spaces |
| Grouping.SegmentHeaders | app.py:40-50 | there is exactly one section per header line, and the section headers are the header lines in document order |
| Grouping.NoHeaderNoSegments | app.py:40-50 | lines without any header yield no section at all |
| Grouping.PreambleIgnored | app.py:40-47 | header-free lines before the first header change nothing |
| Grouping.SegmentOfGroups | app.py:40-50 | any header-free preamble followed by well-formed header-and-body groups yields one section per group: its header, and its body lines joined by single spaces |
| Grouping.GroupsPartition | app.py:40-50 | lines that open with a header are partitioned into groups, each a header plus the non-header lines after it; together the groups are exactly the lines, in order |
| Grouping.GroupsUnique | app.py:40-50 | this partition is the only well-formed one |
| Grouping.BodyRunSpec | app.py:46-47 | a body collects non-header lines and stops at the next header or at the end |
| Grouping.ScanStep | app.py:41-47 | one scan step keeps "sections emitted so far + sections still to come" equal, both on a header line and on a body line |
| Grouping.PendingAtEnd | app.py:49-50 | after the last line only the open section, if any, remains to be emitted |
| Grouping.Flush | app.py:42-43 | closing the scan state emits one section when a header is open and none before the first header |
| Claims.Claim | app.py:68 | the claim always ends in a period |
| Claims.ClaimSpec | app.py:68 | the claim is the trimmed text before the first period plus one period; it holds no other period; the part before the period is trimmed; a body without a period is claimed whole, trimmed |
| Claims.ClaimOfEmpty | app.py:68 | an empty body gives the claim "." |
| Claims.ClaimIdempotent | app.py:68 | the claim of a claim is itself |
| Claims.ClaimOfSentence | app.py:68 | whatever follows the first period does not affect the claim |
| Claims.ClaimOfTrimmedSentence | app.py:68 | a trimmed first sentence is claimed exactly as written |
| Claims.ClaimCutsAtDecimalPoint | app.py:68 | a decimal point ends the claim early: "Sales grew 2.5%." is claimed as "Sales grew 2." |
| Claims.Preview | app.py:73 | the preview is a prefix of the body of at most 600 characters plus "..."; it is the whole body when the body has at most 600 characters, and exactly 603 characters otherwise |
| Evidence.Contents | app.py:82 | the excerpts are the results' contents, one per result, in result order |
| Evidence.EvidenceText | app.py:82 | no results give empty evidence, and one result gives its excerpt unchanged |
| Evidence.EvidenceSplits | app.py:82 | when no excerpt holds a newline, the evidence splits back at newlines into exactly the excerpts |
| Evidence.Sources | app.py:83 | the sources are the results' URLs, one per result, in result order |
| Verdicts.ParseReply | app.py:120-123 | parsing fails exactly when the trimmed reply has no newline; otherwise the status has no newline and both fields are trimmed |
| Verdicts.FormatReply | app.py:98-101 | the reply format the prompt requests: `Status: ` and the status, a newline, `Explanation: ` and the explanation (`ParseFormatted` proves that parsing gives both back) |
| Verdicts.ParseFormatted | app.py:120-123 | a reply in the requested "Status: …" / "Explanation: …" format parses back to its status and explanation, when neither repeats its own label and the status is one line |
| Verdicts.PromptLabelTiers | app.py:120-131 | each of the three labels the prompt allows parses back unchanged and gets the success, warning or error display respectively |
| Verdicts.RemoveLabel | app.py:122-123 | deleting a label from "label value" and trimming gives back the value |
| Verdicts.SinglePassReplace | app.py:122 | the label is deleted in one left-to-right pass, so "Sta" + "Status:" + rest becomes "Sta" + rest and can spell a fresh label |
| Verdicts.TierOf | app.py:126-131 | exactly one display is chosen: success exactly for "Verified", error exactly for "False", warning for everything else |
| Verdicts.LabelledStatusWarns | app.py:126-131 | a status that still starts with its label gets the warning display |
| Text.Strip | app.py:34 | Python's `strip()` with Python's whitespace table (`StripIsTrimmedInfix`, `StripIdempotent`, `StripEmptyIffAllSpace` prove what it returns) |
| Text.SplitOn | app.py:34 | Python's `split(c)`: the pieces between occurrences of `c`, at least one (`SplitOnPieces`, `JoinSplitOn`, `SplitOnFirst` pin it down) |
| Text.SplitOnPieces | app.py:68 | no piece of `split(c)` holds `c`; with `JoinSplitOn` this fixes the pieces of a split |
| Text.SplitOnFirst | app.py:68 | the first piece of `split(c)` is the text before the first `c` |
| Text.SplitOnce | app.py:120 | Python's `split(c, 1)`: one piece exactly when `c` is absent, otherwise the text before the first `c` and everything after it, which put back together with `c` give the string |
| Text.Join | app.py:82 | Python's `sep.join(parts)` (`SplitOnJoin` and `JoinSplitOn` prove it inverse to splitting) |
| Text.RemoveAll | app.py:122-123 | Python's `replace(pat, "")`: every occurrence found in one left-to-right pass is deleted; the result is never longer (`RemoveAllAbsent`, `RemoveAllAfterPlain` and `Verdicts.SinglePassReplace` state what it keeps) |
| Text.RemoveAllAfterPlain | app.py:122-123 | a stretch in which no occurrence of the label starts is copied unchanged, and deletion carries on after it |
| Text.StripIsTrimmedInfix | app.py:34 | `strip()` returns a contiguous middle part of the string with no whitespace at either end, and everything it cuts off is whitespace |
| Text.StripIdempotent | app.py:34 | `strip()` applied twice equals `strip()` applied once |
| Text.StripEmptyIffAllSpace | app.py:34 | `strip()` gives the empty string exactly when every character is whitespace, which is when the comprehension drops a line |
| Text.SplitOnJoin | app.py:82 | splitting a join at its separator gives back the parts when no part holds the separator |
| Text.JoinSplitOn | app.py:34 | joining the pieces of a split with the separator gives back the string |
| Text.SplitOnAppend | app.py:34 | splitting distributes over an occurrence of the separator |
| Text.SplitOnceIsSplitOn | app.py:120 | `split(c, 1)` has the same first piece as `split(c)`, and its second piece is the remaining pieces joined again |
| Text.RemoveAllAbsent | app.py:122-123 | `replace(label, "")` leaves a string without the label unchanged |
| Text.RemoveAllKeepsOut | app.py:122 | `replace(label, "")` only deletes, so it cannot introduce a newline |

## Left out

- Reading the PDF is not modelled. The page texts are an input sequence, one string per page, and a page with no text is the empty string. The program calls the text extractor twice per page. Both calls are assumed to return the same text.
- The web search and the language model are not modelled. The search results and the model's reply are inputs.
- The search client's limit of three results is not modelled. That limit is enforced by the search client, so every length of result list is covered.
- The user interface is not modelled. This covers the upload widget, the expander titles, the section count message, the `if sources:` guard and the display calls themselves, of which only the choice of display is modelled.
- The prompt text, the five-second pause and the API-key check are not modelled. They are I/O around the core.
- The per-section loop (app.py:66-139) is not modelled as a loop. It applies the claim, preview, evidence, parsing and tier steps to each section independently, and each step is modelled on its own.
- Sections.IsHeader: `\d` is modelled as the ASCII digits `0`-`9`. The regular expression also accepts other Unicode decimal digits.
- Characters are Unicode code points. `\s` and `strip()` use Python's whitespace table.
- Verdicts.ParseReply: a reply whose trimmed text has no newline makes the program fail with an index error at app.py:123. The model returns `None` for it.
