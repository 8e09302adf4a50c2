/**
 * The summary source of `convertMarkdown`: the first line of the body that is
 * not blank and is not a heading, trimmed, or a fixed sentence when there is none.
 */
module Summary {
  import opened Text

  const NoSummary := "No summary available"

  /** A line that can serve as the summary source: non-blank and not starting with `#` once trimmed. */
  predicate IsProse(line: string) {
    Trim(line) != "" && !StartsWith(Trim(line), "#")
  }

  /** No line can serve as the summary source. */
  predicate NoProse(lines: seq<string>) {
    forall i :: 0 <= i < |lines| ==> !IsProse(lines[i])
  }

  /** Line `i` is the first prose line. */
  predicate FirstProseAt(lines: seq<string>, i: int) {
    && 0 <= i < |lines|
    && IsProse(lines[i])
    && forall j :: 0 <= j < i ==> !IsProse(lines[j])
  }

  /** The loop that looks for `rawSummary`, stopping at the first prose line. */
  method RawSummary(body: string) returns (rawSummary: string)
    ensures NoProse(Split(body, '\n')) ==> rawSummary == NoSummary
    ensures var lines := Split(body, '\n');
      forall i :: FirstProseAt(lines, i) ==> rawSummary == Trim(lines[i])
    ensures rawSummary == NoSummary || (rawSummary != "" && rawSummary[0] != '#' && !IsSpace(rawSummary[0]))
  {
    rawSummary := NoSummary;
    var lines := Split(body, '\n');
    for k := 0 to |lines|
      invariant forall j :: 0 <= j < k ==> !IsProse(lines[j])
      invariant rawSummary == NoSummary
    {
      var line := lines[k];
      if IsProse(line) {
        TrimFacts(line);
        rawSummary := Trim(line);
        assert rawSummary[..1] == [rawSummary[0]];
        break;
      }
      // Headings and blank lines are skipped.
    }
  }
}
