/**
 * The web-search step of the fact checker: the search client returns result
 * records, whose contents become the evidence text and whose URLs become the
 * list of sources shown under the verdict.
 */
module Evidence {
  import opened Text

  /** One search hit: the page excerpt and its address. */
  datatype SearchResult = SearchResult(content: string, url: string)

  /** The excerpts of the results, in result order. */
  function Contents(results: seq<SearchResult>): (contents: seq<string>)
    ensures |contents| == |results|
    ensures forall i :: 0 <= i < |results| ==> contents[i] == results[i].content
  {
    if results == [] then [] else [results[0].content] + Contents(results[1..])
  }

  /** The evidence passed to the model: the excerpts joined by newlines. */
  function EvidenceText(results: seq<SearchResult>): (evidence: string)
    ensures results == [] ==> evidence == ""
    ensures |results| == 1 ==> evidence == results[0].content
  {
    Join(Contents(results), "\n")
  }

  /** The sources listed under the verdict: one URL per result, in result order. */
  function Sources(results: seq<SearchResult>): (urls: seq<string>)
    ensures |urls| == |results|
    ensures forall i :: 0 <= i < |results| ==> urls[i] == results[i].url
  {
    if results == [] then [] else [results[0].url] + Sources(results[1..])
  }

  /**
   * When no excerpt holds a newline, splitting the evidence at newlines gives
   * back every excerpt, in order: nothing is lost or merged by the join.
   */
  lemma EvidenceSplits(results: seq<SearchResult>)
    requires |results| >= 1
    requires forall i :: 0 <= i < |results| ==> '\n' !in results[i].content
    ensures SplitOn(EvidenceText(results), '\n') == Contents(results)
  {
    SplitOnJoin(Contents(results), '\n');
  }
}
