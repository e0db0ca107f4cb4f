/**
 * Reading the language model's reply: the reply is trimmed and cut at its
 * first newline into a status line and an explanation, the labels
 * "Status:" and "Explanation:" are deleted, and the status picks how the
 * verdict is displayed.
 */
module Verdicts {
  import opened Text

  /** The parsed verdict for one claim. */
  datatype Verdict = Verdict(status: string, explanation: string)

  /** How the status is displayed: success box, error box or warning box. */
  datatype Tier = Success | Error | Warning

  const StatusLabel := "Status:"
  const ExplanationLabel := "Explanation:"

  /**
   * The verdict in a reply, or `None` when the trimmed reply has no newline
   * (the program then fails indexing the missing second line).
   */
  function ParseReply(reply: string): (verdict: Option<Verdict>)
    ensures verdict.None? <==> '\n' !in Strip(reply)
    ensures verdict.Some? ==> '\n' !in verdict.value.status
    ensures verdict.Some? ==> IsTrimmed(verdict.value.status) && IsTrimmed(verdict.value.explanation)
  {
    var lines := SplitOnce(Strip(reply), '\n');
    if |lines| == 1 then None
    else
      var status := RemoveAll(lines[0], StatusLabel);
      var explanation := RemoveAll(lines[1], ExplanationLabel);
      RemoveAllKeepsOut(lines[0], StatusLabel, '\n');
      StripIsTrimmedInfix(status);
      StripIsTrimmedInfix(explanation);
      StripKeepsOut(status, '\n');
      Some(Verdict(Strip(status), Strip(explanation)))
  }

  /** The reply in the format the prompt asks for. */
  function FormatReply(verdict: Verdict): string {
    StatusLabel + " " + verdict.status + "\n" + ExplanationLabel + " " + verdict.explanation
  }

  /**
   * Deleting a label from "label value" and trimming gives back the value,
   * provided the value is trimmed and holds no copy of the label.
   */
  lemma RemoveLabel(tag: string, value: string)
    requires tag != [] && tag[0] != ' '
    requires IsTrimmed(value) && !Occurs(value, tag)
    ensures Strip(RemoveAll(tag + " " + value, tag)) == value
  {
    var line := tag + " " + value;
    assert line[..|tag|] == tag;
    assert line[|tag|..] == " " + value;
    assert !OccursAt(" " + value, tag, 0);
    RemoveAllAfterPlain(" ", value, tag);
    RemoveAllAbsent(value, tag);
    StripAfterSpace(' ', value);
    TrimmedStripsToItself(value);
  }

  /** The explanation line after trimming: the label, then the explanation after one space if it is non-empty. */
  function ExplanationLine(explanation: string): string {
    if explanation == "" then ExplanationLabel else ExplanationLabel + " " + explanation
  }

  /** Trimming a formatted reply: only the space after an empty explanation's label is lost. */
  lemma StripFormatted(verdict: Verdict)
    requires IsTrimmed(verdict.status) && IsTrimmed(verdict.explanation)
    ensures Strip(FormatReply(verdict)) ==
      StatusLabel + " " + verdict.status + "\n" + ExplanationLine(verdict.explanation)
  {
    var head := StatusLabel + " " + verdict.status + "\n" + ExplanationLabel;
    if verdict.explanation == "" {
      assert FormatReply(verdict) == head + [' '];
      StripBeforeSpace(head, ' ');
      assert IsTrimmed(head);
      TrimmedStripsToItself(head);
    } else {
      assert FormatReply(verdict) == head + " " + verdict.explanation;
      assert IsTrimmed(FormatReply(verdict));
      TrimmedStripsToItself(FormatReply(verdict));
    }
  }

  /**
   * Parsing a reply written in the requested format gives back its status and
   * explanation, as long as neither holds its own label again and the status
   * fits on one line.
   */
  lemma ParseFormatted(verdict: Verdict)
    requires IsTrimmed(verdict.status) && IsTrimmed(verdict.explanation)
    requires '\n' !in verdict.status
    requires !Occurs(verdict.status, StatusLabel) && !Occurs(verdict.explanation, ExplanationLabel)
    ensures ParseReply(FormatReply(verdict)) == Some(verdict)
  {
    FormattedLines(verdict);
    RemoveLabel(StatusLabel, verdict.status);
    ExplanationRecovered(verdict.explanation);
  }

  /** A formatted reply, trimmed, splits at its one newline into the status line and the explanation line. */
  lemma FormattedLines(verdict: Verdict)
    requires IsTrimmed(verdict.status) && IsTrimmed(verdict.explanation)
    requires '\n' !in verdict.status
    ensures SplitOnce(Strip(FormatReply(verdict)), '\n') == [StatusLabel + " " + verdict.status, ExplanationLine(verdict.explanation)]
  {
    var first := StatusLabel + " " + verdict.status;
    var second := ExplanationLine(verdict.explanation);
    StripFormatted(verdict);
    var stripped := first + ['\n'] + second;
    assert Strip(FormatReply(verdict)) == stripped;
    assert '\n' !in first;
    IndexOfPrefix(first, '\n', second);
    assert stripped[..|first|] == first;
    assert stripped[|first| + 1..] == second;
  }

  /** Deleting the label from the explanation line and trimming gives back the explanation. */
  lemma ExplanationRecovered(explanation: string)
    requires IsTrimmed(explanation) && !Occurs(explanation, ExplanationLabel)
    ensures Strip(RemoveAll(ExplanationLine(explanation), ExplanationLabel)) == explanation
  {
    if explanation == "" {
      assert ExplanationLabel[..|ExplanationLabel|] == ExplanationLabel;
      assert RemoveAll(ExplanationLabel, ExplanationLabel) == RemoveAll("", ExplanationLabel);
    } else {
      RemoveLabel(ExplanationLabel, explanation);
    }
  }

  /** Which display tier a status gets: exactly "Verified" succeeds, exactly "False" errs, anything else warns. */
  function TierOf(status: string): (tier: Tier)
    ensures tier == Success <==> status == "Verified"
    ensures tier == Error <==> status == "False"
    ensures tier == Warning <==> status != "Verified" && status != "False"
  {
    if status == "Verified" then Success
    else if status == "False" then Error
    else Warning
  }

  /** A string without a capital S holds no "Status:" label. */
  lemma NoStatusLabel(s: string)
    requires 'S' !in s
    ensures !Occurs(s, StatusLabel)
  {
    forall k: nat ensures !OccursAt(s, StatusLabel, k) {
      if k + |StatusLabel| <= |s| {
        assert s[k..k + |StatusLabel|][0] == s[k];
      }
    }
  }

  /**
   * The three labels the prompt allows, sent back in the requested format,
   * are read back unchanged and get the success, warning and error displays
   * respectively.
   */
  lemma PromptLabelTiers(status: string, explanation: string)
    requires status == "Verified" || status == "Inaccurate" || status == "False"
    requires IsTrimmed(explanation) && !Occurs(explanation, ExplanationLabel)
    ensures ParseReply(FormatReply(Verdict(status, explanation))) == Some(Verdict(status, explanation))
    ensures status == "Verified" ==> TierOf(ParseReply(FormatReply(Verdict(status, explanation))).value.status) == Success
    ensures status == "Inaccurate" ==> TierOf(ParseReply(FormatReply(Verdict(status, explanation))).value.status) == Warning
    ensures status == "False" ==> TierOf(ParseReply(FormatReply(Verdict(status, explanation))).value.status) == Error
  {
    assert IsTrimmed(status) && '\n' !in status && 'S' !in status;
    NoStatusLabel(status);
    ParseFormatted(Verdict(status, explanation));
  }

  /**
   * The label is deleted in one pass, not repeatedly: deleting "Status:" from
   * the middle of "Sta" + "Status:" + `tail` joins the two halves into a fresh
   * "Status:". So the status line "StaStatus:tus: Verified" yields the status
   * "Status: Verified", which `LabelledStatusWarns` shows gets the warning
   * display.
   */
  lemma SinglePassReplace(tail: string)
    requires 'S' !in tail
    ensures RemoveAll(StatusLabel[..3] + StatusLabel + tail, StatusLabel) == StatusLabel[..3] + tail
  {
    var head := StatusLabel[..3];
    var line := head + (StatusLabel + tail);
    assert head + StatusLabel + tail == line;
    forall k: nat | k < 3 ensures !OccursAt(line, StatusLabel, k) {
      if k == 0 {
        assert line[..|StatusLabel|][3] != StatusLabel[3];
      } else {
        assert line[k..k + |StatusLabel|][0] == line[k];
      }
    }
    RemoveAllAfterPlain(head, StatusLabel + tail, StatusLabel);
    assert (StatusLabel + tail)[..|StatusLabel|] == StatusLabel;
    assert (StatusLabel + tail)[|StatusLabel|..] == tail;
    NoStatusLabel(tail);
    RemoveAllAbsent(tail, StatusLabel);
  }

  /** A status that still starts with the label is neither "Verified" nor "False". */
  lemma LabelledStatusWarns(value: string)
    ensures TierOf(StatusLabel + " " + value) == Warning
  {
    var status := StatusLabel + " " + value;
    assert status[0] == 'S';
  }
}
