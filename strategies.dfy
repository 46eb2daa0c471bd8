/**
  The chain-of-thought strategy after its single model call: a pure mapping
  from the call's result envelope to one answer string. The model call itself
  is not modelled; its result is the input.
*/
module Strategies {
  import opened TextPrims

  /** The part of the model-call result that `run_cot` reads: the `ok` flag
      and the optional `text`. */
  datatype CallResult = CallResult(ok: bool, text: Option<string>)

  /** The marker the model is told to put before its final answer
      (case-sensitive). */
  const Marker: string := "FINAL ANSWER:"

  /** The sentinel answer for a failed call or an empty response. */
  const ErrorAnswer: string := "ERROR"

  /** The answer a stripped line offers: the trimmed text after the first
      occurrence of the marker, when the line has the marker and that text is
      not empty. */
  function MarkerAnswer(line: string): (r: Option<string>)
    ensures r.Some? ==> r.value != [] && IsTrimmed(r.value)
  {
    match Find(line, Marker)
    case None => None
    case Some(i) =>
      var answer := Strip(line[i + |Marker|..]);
      if answer == [] then None else Some(answer)
  }

  /** The line, stripped, offers a marker answer. Only a line that holds the
      case-sensitive marker can, and a blank line never does. */
  predicate HasMarkerAnswer(line: string): (res: bool)
    ensures res ==> Contains(Strip(line), Marker)
    ensures IsBlank(line) ==> !res
  {
    MarkerAnswer(Strip(line)).Some?
  }

  /** The line's stripped form is not empty (`if line:` after `strip()`). */
  predicate NonEmptyLine(line: string)
  {
    Strip(line) != []
  }

  /** The index of the first line whose stripped form offers a marker answer. */
  function FirstMarkerLine(lines: seq<string>): (r: Option<nat>)
    ensures r.Some? ==> r.value < |lines| && HasMarkerAnswer(lines[r.value])
    ensures r.Some? ==> forall j :: 0 <= j < r.value ==> !HasMarkerAnswer(lines[j])
    ensures r.None? <==> forall j :: 0 <= j < |lines| ==> !HasMarkerAnswer(lines[j])
  {
    FirstWhere(lines, HasMarkerAnswer)
  }

  /** The index of the last line that is not blank. */
  function LastNonEmptyLine(lines: seq<string>): (r: Option<nat>)
    ensures r.Some? ==> r.value < |lines| && !IsBlank(lines[r.value])
    ensures r.Some? ==> forall j :: r.value < j < |lines| ==> IsBlank(lines[j])
    ensures r.None? <==> forall j :: 0 <= j < |lines| ==> IsBlank(lines[j])
  {
    LastWhere(lines, NonEmptyLine)
  }

  /** The text `run_cot` searches: the response text, None read as "",
      stripped. */
  function ResponseText(res: CallResult): string
  {
    Strip(if res.text.None? then "" else res.text.value)
  }

  /** `run_cot` after the call: "ERROR" for a failed call or a blank response;
      else the answer on the first line with a usable "FINAL ANSWER:" marker;
      else the last non-empty line; else the whole text. Every answer is
      non-empty and trimmed. */
  function RunCot(res: CallResult): (answer: string)
    ensures answer != [] && IsTrimmed(answer)
    ensures !res.ok ==> answer == ErrorAnswer
    ensures res.ok && (res.text.None? || IsBlank(res.text.value)) ==> answer == ErrorAnswer
  {
    if !res.ok then ErrorAnswer
    else
      var text := ResponseText(res);
      if text == [] then ErrorAnswer
      else
        var lines := SplitLines(text);
        match FirstMarkerLine(lines)
        case Some(k) => MarkerAnswer(Strip(lines[k])).value
        case None =>
          match LastNonEmptyLine(lines)
          case Some(k) => Strip(lines[k])
          case None => text
  }

  /** For a successful, non-blank response the whole-text fallback is never
      reached: the stripped text has a non-empty line, so when no line offers
      a marker answer the last non-empty line is the answer. */
  lemma WholeTextFallbackUnreachable(res: CallResult)
    requires res.ok && ResponseText(res) != []
    ensures LastNonEmptyLine(SplitLines(ResponseText(res))).Some?
  {
    TrimmedTextHasNonEmptyLine(ResponseText(res));
  }

  lemma TrimmedTextHasNonEmptyLine(text: string)
    requires text != [] && IsTrimmed(text)
    ensures LastNonEmptyLine(SplitLines(text)).Some?
  {
    SplitLinesKeepsChars(text, 0);
    var lines := SplitLines(text);
    var k :| 0 <= k < |lines| && text[0] in lines[k];
    var j :| 0 <= j < |lines[k]| && lines[k][j] == text[0];
    assert !IsBlank(lines[k]);
    assert NonEmptyLine(lines[k]);
  }

  /** The marker branch: when some line offers a marker answer, the result is
      the answer of the first such line; lines whose marker has nothing after
      it are passed over. */
  lemma MarkerLineWins(res: CallResult, k: nat)
    requires res.ok && ResponseText(res) != []
    requires var lines := SplitLines(ResponseText(res));
      k < |lines| && HasMarkerAnswer(lines[k]) &&
      forall j :: 0 <= j < k ==> !HasMarkerAnswer(lines[j])
    ensures RunCot(res) == MarkerAnswer(Strip(SplitLines(ResponseText(res))[k])).value
  {
    FirstWhereIs(SplitLines(ResponseText(res)), HasMarkerAnswer, k);
  }

  /** The fallback branch: when no line offers a marker answer (no line holds
      the case-sensitive marker, or every marker has nothing after it on its
      line), the result is the last non-empty line, stripped. So a response
      "FINAL ANSWER:" followed by "42" on the next line answers "42". */
  lemma NoMarkerGivesLastLine(res: CallResult, k: nat)
    requires res.ok && ResponseText(res) != []
    requires var lines := SplitLines(ResponseText(res));
      && (forall j :: 0 <= j < |lines| ==> !HasMarkerAnswer(lines[j]))
      && k < |lines| && !IsBlank(lines[k])
      && (forall j :: k < j < |lines| ==> IsBlank(lines[j]))
    ensures RunCot(res) == Strip(SplitLines(ResponseText(res))[k])
  {
    FallbackLine(SplitLines(ResponseText(res)), k);
  }

  /** In particular, a response in which no line holds the marker at all
      answers with its last non-empty line. */
  lemma NoMarkerAtAllGivesLastLine(res: CallResult, k: nat)
    requires res.ok && ResponseText(res) != []
    requires var lines := SplitLines(ResponseText(res));
      && (forall j :: 0 <= j < |lines| ==> !Contains(Strip(lines[j]), Marker))
      && k < |lines| && !IsBlank(lines[k])
      && (forall j :: k < j < |lines| ==> IsBlank(lines[j]))
    ensures RunCot(res) == Strip(SplitLines(ResponseText(res))[k])
  {
    var lines := SplitLines(ResponseText(res));
    forall j | 0 <= j < |lines|
      ensures !HasMarkerAnswer(lines[j])
    {
    }
    NoMarkerGivesLastLine(res, k);
  }

  /** With no marker answer on any line, there is no marker line, and the
      last non-blank line is the fallback. */
  lemma FallbackLine(lines: seq<string>, k: nat)
    requires forall j :: 0 <= j < |lines| ==> !HasMarkerAnswer(lines[j])
    requires k < |lines| && !IsBlank(lines[k])
    requires forall j :: k < j < |lines| ==> IsBlank(lines[j])
    ensures FirstMarkerLine(lines).None?
    ensures LastNonEmptyLine(lines) == Some(k)
  {
    forall j | k < j < |lines|
      ensures !NonEmptyLine(lines[j])
    {
      assert IsBlank(lines[j]);
    }
    LastWhereIs(lines, NonEmptyLine, k);
  }

  /** The marker is case-sensitive: a line without upper-case letters, such
      as "final answer: 7", never contains it. */
  lemma LowerCaseLineHasNoMarker(line: string)
    requires IsLowerCase(line)
    ensures !Contains(line, Marker)
    ensures !HasMarkerAnswer(line)
  {
    StripKeepsChars(line);
    NoMarkerInLowerCase(line);
    NoMarkerInLowerCase(Strip(line));
  }

  /** A text without upper-case letters does not contain the marker. */
  lemma NoMarkerInLowerCase(t: string)
    requires IsLowerCase(t)
    ensures !Contains(t, Marker)
  {
    if Contains(t, Marker) {
      MarkerStartsUpper(t, Find(t, Marker).value);
      assert false;
    }
  }

  /** An occurrence of the marker starts with an upper-case letter. */
  lemma MarkerStartsUpper(t: string, i: nat)
    requires OccursAt(t, Marker, i)
    ensures t[i] in t && IsUpper(t[i])
  {
    assert t[i] == t[i..i + |Marker|][0];
  }
}
