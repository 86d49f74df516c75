/**
  The one-line summary of a streamed comment's body that the chain breaker
  logs before it looks at the comment: the body cut to a fixed number of
  characters, with line breaks turned into spaces, and "..." appended when
  something was cut off.
 */
module Summary {

  /** The character that replaces a line break. */
  function Flatten(ch: char): char
  {
    if ch == '\n' then ' ' else ch
  }

  /** `s.replace('\n', ' ')`: same length, each line break becomes a space,
      every other character stays where it was. */
  function ReplaceNewlines(s: string): (r: string)
    ensures |r| == |s|
    ensures forall i :: 0 <= i < |s| ==> r[i] == Flatten(s[i])
    ensures '\n' !in r
  {
    if s == [] then [] else [Flatten(s[0])] + ReplaceNewlines(s[1..])
  }

  /** `body[:maxLen].replace('\n', ' ')`, followed by '...' when the body is
      longer than `maxLen`. */
  function Summarize(body: string, maxLen: nat): (s: string)
    ensures '\n' !in s
    ensures |s| <= maxLen + 3
    ensures |s| == if |body| <= maxLen then |body| else maxLen + 3
    ensures forall i :: 0 <= i < |body| && i < maxLen ==> s[i] == Flatten(body[i])
    ensures |body| > maxLen <==> |s| == maxLen + 3 && s[maxLen..] == "..."
  {
    var head := ReplaceNewlines(body[..if |body| < maxLen then |body| else maxLen]);
    if |body| > maxLen then head + "..." else head
  }

  /** A body that fits and has no line break is logged as it is. */
  lemma ShortPlainBodyIsItsOwnSummary(body: string, maxLen: nat)
    requires |body| <= maxLen && '\n' !in body
    ensures Summarize(body, maxLen) == body
  {
  }

  /** The summary of a body that is cut off starts with the summary of its
      first `maxLen` characters, which is not cut off. */
  lemma TruncatedSummaryExtendsPrefix(body: string, maxLen: nat)
    requires |body| > maxLen
    ensures Summarize(body, maxLen) == Summarize(body[..maxLen], maxLen) + "..."
  {
  }
}
