/**
 * What the fact checker shows for one section: the claim it checks (the
 * body's first sentence) and a preview of the body.
 */
module Claims {
  import opened Text

  /** The claim checked for a section body: the text before the first period, trimmed, with one period appended. */
  function Claim(body: string): (claim: string)
    ensures |claim| >= 1 && claim[|claim| - 1] == '.'
  {
    Strip(SplitOn(body, '.')[0]) + "."
  }

  /**
   * The claim is the trimmed text up to the first period plus a period; it
   * holds no other period; and a body without a period is claimed whole.
   */
  lemma ClaimSpec(body: string)
    ensures Claim(body) == Strip(body[..IndexOf(body, '.')]) + "."
    ensures forall k :: 0 <= k < |Claim(body)| - 1 ==> Claim(body)[k] != '.'
    ensures IsTrimmed(Claim(body)[..|Claim(body)| - 1])
    ensures '.' !in body ==> Claim(body) == Strip(body) + "."
  {
    var first := body[..IndexOf(body, '.')];
    SplitOnFirst(body, '.');
    StripKeepsOut(first, '.');
    StripIsTrimmed(first);
    assert Claim(body)[..|Claim(body)| - 1] == Strip(first);
    if '.' !in body {
      assert first == body;
    }
  }

  /** The claim of an empty body is a lone period. */
  lemma ClaimOfEmpty()
    ensures Claim("") == "."
  {
    assert SplitOn("", '.') == [""];
  }

  /** Taking the claim of a claim changes nothing. */
  lemma ClaimIdempotent(body: string)
    ensures Claim(Claim(body)) == Claim(body)
  {
    ClaimSpec(body);
    var c := Claim(body);
    var t := c[..|c| - 1];
    assert c == t + ['.'] + "";
    assert '.' !in t;
    IndexOfPrefix(t, '.', "");
    ClaimSpec(c);
    assert c[..IndexOf(c, '.')] == t;
    TrimmedStripsToItself(t);
  }

  /** A body whose first sentence is `first` is claimed by `first`, trimmed, whatever follows. */
  lemma ClaimOfSentence(first: string, rest: string)
    requires '.' !in first
    ensures Claim(first + "." + rest) == Strip(first) + "."
  {
    SplitOnAppend(first, '.', rest);
    SplitOnNoSeparator(first, '.');
  }

  /** A first sentence with no surrounding whitespace is claimed as it stands. */
  lemma ClaimOfTrimmedSentence(first: string, rest: string)
    requires '.' !in first && IsTrimmed(first)
    ensures Claim(first + "." + rest) == first + "."
  {
    ClaimOfSentence(first, rest);
    TrimmedStripsToItself(first);
  }

  /** The cut is at the first period of any kind, so a decimal point ends the claim early. */
  lemma ClaimCutsAtDecimalPoint()
    ensures Claim("Sales grew 2.5%.") == "Sales grew 2."
  {
    var first := "Sales grew 2";
    assert "Sales grew 2.5%." == first + "." + "5%.";
    ClaimOfTrimmedSentence(first, "5%.");
  }

  /** Number of body characters the preview shows. */
  const PreviewLength := 600

  /** The preview of a body: at most its first 600 characters, always followed by "...". */
  function Preview(content: string): (preview: string)
    ensures |preview| <= PreviewLength + 3
    ensures |preview| >= 3 && preview[|preview| - 3..] == "..."
    ensures |preview| - 3 <= |content|
    ensures preview[..|preview| - 3] == content[..|preview| - 3]
    ensures |content| <= PreviewLength ==> preview == content + "..."
    ensures |content| > PreviewLength ==> |preview| == PreviewLength + 3
  {
    (if |content| <= PreviewLength then content else content[..PreviewLength]) + "..."
  }
}
