/** The required-input prompt (`get_user_input`). The terminal's answers are the
    sequence `responses`, read front to back; reaching its end stands for the
    end-of-file error that `input()` raises then. */
module Prompt {
  import opened Wrappers
  import opened PyText

  /** Index of the answer a required prompt accepts: the first one that is not blank. */
  function RequiredAnswer(responses: seq<string>): (r: Option<nat>)
    ensures r.Some? ==> r.value < |responses|
  {
    if responses == [] then None
    else if !AllSpace(responses[0]) then Some(0)
    else
      match RequiredAnswer(responses[1..])
      case None => None
      case Some(k) => Some(k + 1)
  }

  /** The accepted answer is not blank and every answer before it is; when there is
      none, every answer is blank. */
  lemma {:induction false} RequiredAnswerFirst(responses: seq<string>)
    ensures RequiredAnswer(responses).Some? ==>
      && !AllSpace(responses[RequiredAnswer(responses).value])
      && forall k :: 0 <= k < RequiredAnswer(responses).value ==> AllSpace(responses[k])
    ensures RequiredAnswer(responses).None? ==> forall k :: 0 <= k < |responses| ==> AllSpace(responses[k])
  {
    if responses != [] && AllSpace(responses[0]) {
      var tail := responses[1..];
      RequiredAnswerFirst(tail);
      assert forall j :: 0 < j < |responses| ==> responses[j] == tail[j - 1];
    }
  }

  /** The first non-blank answer is the one a required prompt accepts. */
  lemma {:induction false} RequiredAnswerIs(responses: seq<string>, k: nat)
    requires k < |responses| && !AllSpace(responses[k])
    requires forall j :: 0 <= j < k ==> AllSpace(responses[j])
    ensures RequiredAnswer(responses) == Some(k)
  {
    RequiredAnswerFirst(responses);
  }

  /** All answers blank: a required prompt accepts none of them. */
  lemma {:induction false} RequiredAnswerNone(responses: seq<string>)
    requires forall j :: 0 <= j < |responses| ==> AllSpace(responses[j])
    ensures RequiredAnswer(responses) == None
  {
    RequiredAnswerFirst(responses);
  }

  /** `get_user_input(prompt, allow_null)`: read answers until one is non-empty after
      stripping (or, with `allowNull`, take the first one) and return it stripped.
      `used` is how many answers were read. */
  method GetUserInput(responses: seq<string>, allowNull: bool) returns (value: Option<string>, used: nat)
    ensures used <= |responses|
    ensures allowNull ==>
      if responses == [] then value == None && used == 0
      else value == Some(Strip(responses[0])) && used == 1
    ensures !allowNull && value.Some? ==>
      && RequiredAnswer(responses) == Some(used - 1)
      && value.value == Strip(responses[used - 1])
      && value.value != ""
    ensures !allowNull && value.None? ==> RequiredAnswer(responses) == None && used == |responses|
  {
    used := 0;
    while used < |responses|
      invariant used <= |responses|
      invariant used > 0 ==> !allowNull
      invariant forall k :: 0 <= k < used ==> AllSpace(responses[k])
    {
      var v := Strip(responses[used]);
      assert v == "" <==> AllSpace(responses[used]);
      used := used + 1;
      if v != "" || allowNull {
        if !allowNull {
          RequiredAnswerIs(responses, used - 1);
        }
        return Some(v), used;
      }
    }
    if !allowNull {
      RequiredAnswerNone(responses);
    }
    value := None;
  }
}
