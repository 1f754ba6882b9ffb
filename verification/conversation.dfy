/** The deterministic pieces of conversation.py: the session-id validator of `Question`, the
    chain-type table of `Conversation._prompts`, and `KydenModerationChain._moderate`. */
module Conversation {
  import opened Wrappers
  import opened Errors

  // ---------------------------------------------------------------------------------------
  // Question.validate_session_id: re.match(r"^[a-fA-F0-9]{64}$", v)
  // ---------------------------------------------------------------------------------------

  /** The regex's character class `[a-fA-F0-9]`. */
  predicate IsHexDigit(c: char) {
    '0' <= c <= '9' || 'a' <= c <= 'f' || 'A' <= c <= 'F'
  }

  /** The counted repetition `[a-fA-F0-9]{n}` run from `pos`: where the match ends, or None
      when fewer than `n` hex digits follow. A fixed count leaves nothing to backtrack. */
  function MatchHexRun(v: string, pos: nat, n: nat): (end: Option<nat>)
    requires pos <= |v|
    ensures end.Some? ==> end.value == pos + n <= |v|
    decreases n
  {
    if n == 0 then Some(pos)
    else if pos < |v| && IsHexDigit(v[pos]) then MatchHexRun(v, pos + 1, n - 1)
    else None
  }

  /** Python's `$` without MULTILINE: the end of the text, or just before a final newline. */
  predicate DollarMatchesAt(v: string, pos: nat)
    requires pos <= |v|
  {
    pos == |v| || (pos == |v| - 1 && v[pos] == '\n')
  }

  /** `re.match` of the session-id pattern: `^` is the start `re.match` anchors to anyway,
      then 64 hex digits, then `$`. */
  predicate MatchesSessionIdPattern(v: string) {
    var end := MatchHexRun(v, 0, 64);
    end.Some? && DollarMatchesAt(v, end.value)
  }

  /** The accepted texts, stated directly: 64 hex digits and nothing more, except that one
      trailing newline also passes. */
  predicate IsSessionIdText(v: string) {
    && (|v| == 64 || (|v| == 65 && v[64] == '\n'))
    && forall i :: 0 <= i < 64 ==> IsHexDigit(v[i])
  }

  lemma {:induction false} MatchHexRunSucceeds(v: string, pos: nat, n: nat)
    requires pos <= |v|
    ensures MatchHexRun(v, pos, n).Some? <==>
      pos + n <= |v| && forall i :: pos <= i < pos + n ==> IsHexDigit(v[i])
    decreases n
  {
    if n > 0 && pos < |v| && IsHexDigit(v[pos]) {
      MatchHexRunSucceeds(v, pos + 1, n - 1);
    }
  }

  /** The regex accepts exactly the texts `IsSessionIdText` describes. */
  lemma SessionIdPatternCharacterisation(v: string)
    ensures MatchesSessionIdPattern(v) <==> IsSessionIdText(v)
  {
    MatchHexRunSucceeds(v, 0, 64);
  }

  /** The validator: the id is returned unchanged when it matches, otherwise a ValueError
      naming it is raised. */
  function ValidateSessionId(v: string): (r: Result<string, Exception>)
    ensures r.Success? <==> IsSessionIdText(v)
    ensures r.Success? ==> r.value == v
    ensures r.Failure? ==> r.error == ValueError(v + " does not match the required session-id format")
  {
    SessionIdPatternCharacterisation(v);
    if MatchesSessionIdPattern(v) then Success(v)
    else Failure(ValueError(v + " does not match the required session-id format"))
  }

  /** Validation is idempotent: a value it returned passes it again. */
  lemma ValidateSessionIdIdempotent(v: string)
    requires ValidateSessionId(v).Success?
    ensures ValidateSessionId(ValidateSessionId(v).value) == ValidateSessionId(v)
  {
  }

  /** Upper- and lower-case digits are both accepted, and the trailing newline that `$` lets
      through is kept in the returned id. */
  lemma SessionIdExamples()
    ensures ValidateSessionId(Repeat('a', 64)).Success?
    ensures ValidateSessionId(Repeat('F', 64) + "\n") == Success(Repeat('F', 64) + "\n")
    ensures ValidateSessionId(Repeat('a', 63)).Failure?
    ensures ValidateSessionId(Repeat('a', 64) + "\n\n").Failure?
    ensures ValidateSessionId(Repeat('g', 64)).Failure?
  {
    assert !IsHexDigit(Repeat('g', 64)[0]);
    assert (Repeat('a', 64) + "\n\n")[64] == '\n' && |Repeat('a', 64) + "\n\n"| == 66;
  }

  function Repeat(c: char, n: nat): (s: string)
    ensures |s| == n && forall i :: 0 <= i < n ==> s[i] == c
  {
    seq(n, _ => c)
  }

  // ---------------------------------------------------------------------------------------
  // Conversation._prompts: chain type -> prompt builder -> named prompts
  // ---------------------------------------------------------------------------------------

  /** The role of one message of a chat prompt. */
  datatype Role = SystemRole | HumanRole | AIRole

  /** A prompt as its shape: a chat prompt is its messages' roles with the variables each
      template reads; a plain prompt lists its input variables. Template texts are not modelled. */
  datatype Prompt =
    | ChatPrompt(messages: seq<(Role, set<string>)>)
    | PlainPrompt(inputVariables: seq<string>)

  /** The chain types the mapping knows. */
  const ChainTypes: set<string> := {"stuff", "map_reduce", "refine", "map_rerank"}

  /** The default `chain_type`. */
  const DefaultChainType: string := "stuff"

  /** `_stuff_chain_prompts`: one chat prompt, a system message with the documents and the
      question as a human message. */
  function StuffChainPrompts(): map<string, Prompt> {
    map["prompt" := ChatPrompt([(SystemRole, {"context"}), (HumanRole, {"question"})])]
  }

  /** `_map_reduce_chain_prompts`: a question prompt over one portion (`context`) and a
      combine prompt over the extracted parts (`summaries`). */
  function MapReduceChainPrompts(): map<string, Prompt> {
    map["question_prompt" := ChatPrompt([(SystemRole, {"context"}), (HumanRole, {"question"})]),
        "combine_prompt" := ChatPrompt([(SystemRole, {"summaries"}), (HumanRole, {"question"})])]
  }

  /** `_refine_chain_prompts`: a refine prompt replaying the question and the existing answer
      before the refine instruction, and a question prompt. */
  function RefineChainPrompts(): map<string, Prompt> {
    map["question_prompt" := ChatPrompt([(SystemRole, {"context_str"}), (HumanRole, {"question"})]),
        "refine_prompt" := ChatPrompt([(HumanRole, {"question"}), (AIRole, {"existing_answer"}),
                                       (HumanRole, {"context_str"})])]
  }

  /** `_map_rerank_chain_prompts`: one plain prompt over `context` and `question`. */
  function MapRerankChainPrompts(): map<string, Prompt> {
    map["prompt" := PlainPrompt(["context", "question"])]
  }

  /** `_prompts(chain_type)`: look the chain type up in the mapping and call the builder found;
      a chain type not in the mapping raises KeyError. */
  function Prompts(chainType: string): (r: Result<map<string, Prompt>, Exception>)
    ensures r.Success? <==> chainType in ChainTypes
    ensures r.Failure? ==> r.error == KeyError(chainType)
  {
    var mapping := map[
      "stuff" := StuffChainPrompts(),
      "map_reduce" := MapReduceChainPrompts(),
      "refine" := RefineChainPrompts(),
      "map_rerank" := MapRerankChainPrompts()];
    if chainType in mapping then Success(mapping[chainType]) else Failure(KeyError(chainType))
  }

  /** The keys each chain type yields. */
  lemma PromptKeys()
    ensures Prompts("stuff").Success? && Prompts("stuff").value.Keys == {"prompt"}
    ensures Prompts("map_reduce").Success?
      && Prompts("map_reduce").value.Keys == {"question_prompt", "combine_prompt"}
    ensures Prompts("refine").Success?
      && Prompts("refine").value.Keys == {"question_prompt", "refine_prompt"}
    ensures Prompts("map_rerank").Success? && Prompts("map_rerank").value.Keys == {"prompt"}
    ensures Prompts(DefaultChainType) == Prompts("stuff")
  {
  }

  /** Every prompt any chain type yields reads the user's question, and every chat prompt
      among them opens the conversation with the question or a system message and has a human
      message last, so the model is always answering a human turn. */
  lemma PromptsReadTheQuestion(chainType: string, key: string)
    requires Prompts(chainType).Success? && key in Prompts(chainType).value
    ensures var p := Prompts(chainType).value[key];
      match p
      case ChatPrompt(ms) =>
        && |ms| >= 2
        && ms[|ms| - 1].0 == HumanRole
        && (exists i :: 0 <= i < |ms| && "question" in ms[i].1)
      case PlainPrompt(vars) => "question" in vars
  {
    var p := Prompts(chainType).value[key];
    if p.ChatPrompt? {
      assert "question" in p.messages[|p.messages| - 1].1 || "question" in p.messages[0].1;
    }
  }

  // ---------------------------------------------------------------------------------------
  // KydenModerationChain._moderate
  // ---------------------------------------------------------------------------------------

  /** The text that replaces, or is raised in place of, flagged input. */
  const ViolationMessage: string := "Text was found that violates our content policy."

  /** `_moderate(text, results)`: unflagged text passes unchanged; flagged text raises a
      PolicyViolationError when the chain is set to raise, and is replaced by the violation
      text otherwise. `results` is the moderation service's answer; looking up a missing
      `flagged` raises KeyError. */
  function Moderate(text: string, results: map<string, bool>, raiseOnFlag: bool): (r: Result<string, Exception>)
    ensures "flagged" !in results ==> r == Failure(KeyError("flagged"))
    ensures "flagged" in results && !results["flagged"] ==> r == Success(text)
    ensures "flagged" in results && results["flagged"] && raiseOnFlag ==>
      && r.Failure? && r.error.AppError?
      && r.error.error.code == PolicyViolationErrorCode && r.error.error.message == ViolationMessage
    ensures "flagged" in results && results["flagged"] && !raiseOnFlag ==> r == Success(ViolationMessage)
  {
    if "flagged" !in results then Failure(KeyError("flagged"))
    else if results["flagged"] then
      if raiseOnFlag then Failure(AppError(NewPolicyViolationError(ViolationMessage)))
      else Success(ViolationMessage)
    else Success(text)
  }

  /** Flagged text never comes through: whatever `_moderate` lets pass is either unflagged
      input or the violation text, and every error it raises for flagged text is a policy
      violation. */
  lemma ModerateNeverPassesFlaggedText(text: string, results: map<string, bool>, raiseOnFlag: bool)
    requires "flagged" in results && results["flagged"]
    ensures Moderate(text, results, raiseOnFlag).Success? ==>
      Moderate(text, results, raiseOnFlag).value == ViolationMessage
    ensures Moderate(text, results, raiseOnFlag).Failure? ==>
      Moderate(text, results, raiseOnFlag).error.AppError? &&
      IsPolicyViolation(Moderate(text, results, raiseOnFlag).error.error)
  {
  }

  /** Moderating the output of a moderation again changes nothing when the service does not
      flag the violation text itself. */
  lemma ModerateIdempotentOnUnflaggedOutput(
    text: string, results: map<string, bool>, again: map<string, bool>, raiseOnFlag: bool)
    requires Moderate(text, results, raiseOnFlag).Success?
    requires "flagged" in again && !again["flagged"]
    ensures Moderate(Moderate(text, results, raiseOnFlag).value, again, raiseOnFlag)
      == Moderate(text, results, raiseOnFlag)
  {
  }
}
