/**
 * The read-time estimate of a post (`calculateReadTime`): the body's
 * whitespace-separated tokens at 200 words per minute, rounded up, rendered
 * as `"<N> min"`.
 */
module ReadingTime {
  import opened Strings

  const WordsPerMinute: nat := 200

  /** `content.split(/\s+/).length`. */
  function TokenCount(body: string): (n: nat)
    ensures n >= 1
  {
    |SplitOnSpaceRuns(body)|
  }

  /** `Math.ceil(words / wordsPerMinute)`: the least whole number of minutes covering every token. */
  function Minutes(body: string): (m: nat)
    ensures m >= 1
    ensures (m - 1) * WordsPerMinute < TokenCount(body) <= m * WordsPerMinute
  {
    (TokenCount(body) + WordsPerMinute - 1) / WordsPerMinute
  }

  /** `calculateReadTime`: the minutes in decimal, followed by `" min"`. */
  function CalculateReadTime(body: string): (r: string)
    ensures |r| >= 5 && r[|r| - 4..] == " min"
    ensures var digits := r[..|r| - 4];
            && (forall i :: 0 <= i < |digits| ==> IsDigit(digits[i]))
            && (|digits| > 1 ==> digits[0] != '0')
            && DecimalValue(digits) == Minutes(body)
  {
    var digits := NatToString(Minutes(body));
    NatToStringValue(Minutes(body));
    var r := digits + " min";
    assert r[..|r| - 4] == digits;
    r
  }

  /** Words separated by whitespace gaps of any length and kind are counted one token each. */
  lemma TokenCountOfWords(words: seq<string>, gaps: seq<string>)
    requires |words| == |gaps| + 1
    requires forall i :: 0 <= i < |words| ==> words[i] != [] && NoSpace(words[i])
    requires forall i :: 0 <= i < |gaps| ==> gaps[i] != [] && AllSpace(gaps[i])
    ensures TokenCount(Interleave(words, gaps)) == |words|
  {
    SplitOnSpaceRunsOfWords(words, gaps);
  }

  /** Four hundred words read in two minutes, however they are spaced. */
  lemma FourHundredWordsTakeTwoMinutes(words: seq<string>, gaps: seq<string>)
    requires |words| == 400 && |gaps| == 399
    requires forall i :: 0 <= i < |words| ==> words[i] != [] && NoSpace(words[i])
    requires forall i :: 0 <= i < |gaps| ==> gaps[i] != [] && AllSpace(gaps[i])
    ensures CalculateReadTime(Interleave(words, gaps)) == "2 min"
  {
    TokenCountOfWords(words, gaps);
    assert Minutes(Interleave(words, gaps)) == 2;
  }

  /** An empty body still counts one token, so it reads in one minute. */
  lemma EmptyBodyTakesOneMinute()
    ensures CalculateReadTime("") == "1 min"
  {
    assert SplitOnSpaceRuns("") == [""];
  }
}
