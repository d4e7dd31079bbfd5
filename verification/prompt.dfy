/** How the commands obtain and interpret their answers (src/main.rs):
    `set_or_ask_for` and `ask_for`, and the three rules the add and update
    commands apply to an answer before storing it. Interactive reads are
    inputs: an answer is either supplied on the command line or taken from a
    sequence of typed lines, and reading past the last typed line yields the
    empty line, as `read_line` does at end of input. */
module Prompt {
  import opened Wrappers
  import Text

  /** `set_or_ask_for`: a supplied value is returned as it is; a typed line
      is returned trimmed: the slice of it between its leading and trailing
      whitespace. */
  function SetOrAskFor(supplied: Option<string>, typed: string): (r: string)
    ensures supplied.Some? ==> r == supplied.value
    ensures supplied.None? ==> |r| <= |typed|
    ensures supplied.None? ==>
      exists a, b :: (0 <= a <= b <= |typed| && r == typed[a..b] &&
                      Text.AllWhitespace(typed[..a]) && Text.AllWhitespace(typed[b..]))
    ensures supplied.None? && |r| > 0 ==> !Text.IsWhitespace(r[0]) && !Text.IsWhitespace(r[|r| - 1])
    ensures supplied.None? ==> (r == "" <==> Text.AllWhitespace(typed))
  {
    if supplied.Some? then supplied.value else Text.Trim(typed)
  }

  /** The answer `ask_for` rejects: its trimmed form ends in `?` (a request
      to list the candidates first). */
  predicate IsListRequest(answer: string)
  {
    Text.EndsWithChar(Text.Trim(answer), '?')
  }

  /** The typed line at position `i`, or the empty line past the end. */
  function LineAt(typed: seq<string>, i: nat): string
  {
    if i < |typed| then typed[i] else ""
  }

  /** Each of the first `i` typed lines is a list request. */
  predicate ListRequestsBefore(typed: seq<string>, i: nat)
    requires i <= |typed|
    decreases i
  {
    i == 0 || (ListRequestsBefore(typed, i - 1) && IsListRequest(SetOrAskFor(None, typed[i - 1])))
  }

  /** `answer` is what the `i`-th read gives, and every earlier read was a
      list request. */
  predicate AnsweredAt(typed: seq<string>, i: nat, answer: string)
  {
    && i <= |typed|
    && answer == SetOrAskFor(None, LineAt(typed, i))
    && ListRequestsBefore(typed, i)
  }

  /** The position of the first typed line that is not a list request,
      searching from `i`; past the last line reading yields the empty line,
      which ends the search. */
  function AnswerIndex(typed: seq<string>, i: nat): (k: nat)
    requires i <= |typed| && ListRequestsBefore(typed, i)
    ensures i <= k <= |typed| && ListRequestsBefore(typed, k)
    ensures k < |typed| ==> !IsListRequest(SetOrAskFor(None, typed[k]))
    decreases |typed| - i
  {
    if i < |typed| && IsListRequest(SetOrAskFor(None, typed[i])) then AnswerIndex(typed, i + 1) else i
  }

  /** `ask_for`: repeats `set_or_ask_for` until the answer is not a list
      request. `None` stands for the endless loop that a supplied list
      request causes (the supplied value is returned again every round). */
  function AskFor(supplied: Option<string>, typed: seq<string>): (r: Option<string>)
    ensures r.Some? ==> !IsListRequest(r.value)
    ensures r.None? <==> supplied.Some? && IsListRequest(supplied.value)
    ensures supplied.Some? && r.Some? ==> r.value == supplied.value
    ensures supplied.None? ==> r.Some? && exists i :: AnsweredAt(typed, i, r.value)
  {
    if supplied.Some? then
      if IsListRequest(supplied.value) then None else supplied
    else
      var k := AnswerIndex(typed, 0);
      LoopExit(typed, k);
      Some(SetOrAskFor(None, LineAt(typed, k)))
  }

  /** Where the reading stops, the answer is not a list request; past the
      last typed line that is the empty answer. */
  lemma LoopExit(typed: seq<string>, i: nat)
    requires i <= |typed| && ListRequestsBefore(typed, i)
    requires i < |typed| ==> !IsListRequest(SetOrAskFor(None, typed[i]))
    ensures !IsListRequest(SetOrAskFor(None, LineAt(typed, i)))
    ensures AnsweredAt(typed, i, SetOrAskFor(None, LineAt(typed, i)))
  {
    if i == |typed| {
      assert Text.Trim("") == "";
    }
  }

  /** The add rule for optional text: an answer that is blank or `null`
      (after trimming, in any case) is absent; any other answer is stored
      untrimmed. */
  function BlankOrNull(answer: string): (r: Option<string>)
    ensures r.None? <==> Text.AllWhitespace(answer) || Text.Norm(answer) == "null"
    ensures r.Some? ==> r.value == answer
  {
    Text.NormEmptyIff(answer);
    if Text.Norm(answer) == "" || Text.Norm(answer) == "null" then None else Some(answer)
  }

  /** The answer `null` is read as itself. */
  lemma NormNull()
    ensures Text.Norm("null") == "null"
  {
    TrimNull();
    LowerNull();
  }

  lemma TrimNull()
    ensures Text.Trim("null") == "null"
  {
    var s := "null";
    assert s[0] == 'n' && s[|s| - 1] == 'l';
    Text.TrimNoop(s);
  }

  lemma LowerNull()
    ensures Text.Lower("null") == "null"
  {
    var s := "null";
    assert |s| == 4 && s[0] == 'n' && s[1] == 'u' && s[2] == 'l' && s[3] == 'l';
    Text.LowerNoop(s);
  }

  /** The update rule for optional text: exactly `""` keeps the old value,
      `null` (after trimming, in any case) clears it, any other answer,
      whitespace included, replaces it. */
  function TriState(answer: string, stored: Option<string>): (r: Option<string>)
    ensures answer == "" ==> r == stored
    ensures answer != "" ==> (r.None? <==> Text.Norm(answer) == "null")
    ensures answer != "" && r.Some? ==> r.value == answer
  {
    if answer == "" then stored
    else if Text.Norm(answer) == "null" then None
    else Some(answer)
  }

  /** The update rule for required text: `""` keeps the old value. */
  function KeepIfEmpty(answer: string, stored: string): (r: string)
    ensures answer == "" ==> r == stored
    ensures r == "" ==> answer == "" && stored == ""
    ensures answer != "" ==> r == answer
  {
    if answer == "" then stored else answer
  }

  /** The add and update rules agree on every non-empty answer except a
      whitespace-only one, which add drops and update stores. */
  lemma TriStateVersusBlankOrNull(answer: string, stored: Option<string>)
    requires answer != ""
    ensures !Text.AllWhitespace(answer) ==> TriState(answer, stored) == BlankOrNull(answer)
    ensures Text.AllWhitespace(answer) ==> TriState(answer, stored) == Some(answer) && BlankOrNull(answer) == None
  {
    Text.NormEmptyIff(answer);
  }

  /** Typed (hence trimmed) answers never reach the whitespace-only case:
      for them the update rule is the add rule plus "empty keeps". */
  lemma TypedTriState(typed: string, stored: Option<string>)
    ensures var a := SetOrAskFor(None, typed);
      TriState(a, stored) == if a == "" then stored else BlankOrNull(a)
  {
    var a := SetOrAskFor(None, typed);
    if a != "" {
      TriStateVersusBlankOrNull(a, stored);
      assert !Text.AllWhitespace(a) by {
        assert !Text.IsWhitespace(a[0]);
      }
    }
  }
}
