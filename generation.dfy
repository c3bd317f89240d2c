/**
 * The requests main.py sends to the language model and how it reacts to the
 * replies: the bias-analysis prompt (main.py:67-73), the summary prompt
 * (main.py:149-166), the retry on a second model after a quota error
 * (main.py:168-180) and the empty-response check (main.py:182).
 * The secrets store and the model are outside the model: a secret is an
 * `Option<string>` and each call's reply is a parameter.
 */
module Generation {
  import opened PyStr

  datatype Option<T> = None | Some(value: T)

  // ---------------------------------------------------------------------
  // Prompts
  // ---------------------------------------------------------------------

  /** The instruction used when no bias prompt is configured. */
  const DefaultBiasInstruction: string := "Analyze this text for bias: "

  /**
   * `build_bias_prompt(text)`: the configured instructions, a blank line and
   * the text; without configured instructions, the default instruction
   * followed directly by the text. Either way the text closes the prompt.
   */
  function BuildBiasPrompt(instructions: Option<string>, text: string): (r: string)
    ensures |r| == |text| + (if instructions.Some? then |instructions.value| + 2 else |DefaultBiasInstruction|)
    ensures r[|r| - |text|..] == text
    ensures instructions.None? ==> r[..|DefaultBiasInstruction|] == DefaultBiasInstruction
    ensures instructions.Some? ==> r[..|instructions.value|] == instructions.value
    ensures instructions.Some? ==> r[|instructions.value|..|instructions.value| + 2] == "\n\n"
  {
    match instructions
    case None => DefaultBiasInstruction + text
    case Some(base) => base + "\n\n" + text
  }

  /** Different texts give different bias prompts, whatever the configuration. */
  lemma BiasPromptInjective(instructions: Option<string>, t1: string, t2: string)
    requires BuildBiasPrompt(instructions, t1) == BuildBiasPrompt(instructions, t2)
    ensures t1 == t2
  {
    var p := BuildBiasPrompt(instructions, t1);
    assert |t1| == |t2|;
    assert t1 == p[|p| - |t1|..] == t2;
  }

  /**
   * Pressing "Detect Bias": the input is stripped; an input that is all
   * whitespace is refused with a warning (`None`), otherwise the stripped
   * input goes into the bias prompt.
   */
  function RequestBias(input: string, instructions: Option<string>): (r: Option<string>)
    ensures r.None? <==> Strip(input) == ""
    ensures r.Some? ==> r.value == BuildBiasPrompt(instructions, Strip(input))
  {
    var text := Strip(input);
    if text == "" then None else Some(BuildBiasPrompt(instructions, text))
  }

  /** What pressing "Summarize Now" leads to before the model is called. */
  datatype SummaryRequest =
    | NothingToSummarise          // the warning about an empty input
    | PromptMissing               // the error about the missing summary prompt
    | Ask(prompt: string)         // the prompt sent to the model

  const LanguageInstruction: string := "IMPORTANT: Provide the entire response in "
  const TextHeading: string := "TEXT:\n"

  /** The prompt built from the configured instructions, the language name and the text. */
  function SummaryPrompt(base: string, languageName: string, text: string): (r: string)
    ensures |r| == |base| + 1 + |LanguageInstruction| + |languageName| + 3 + |TextHeading| + |text|
    ensures r[|r| - |text|..] == text
    ensures r[..|base| + 1] == base + "\n"
    ensures r[|base| + 1..|r| - |text|] == LanguageInstruction + languageName + ".\n\n" + TextHeading
  {
    base + "\n" + LanguageInstruction + languageName + ".\n\n" + TextHeading + text
  }

  /**
   * The input is stripped; an input that is all whitespace is refused, a
   * missing summary prompt stops the request, and otherwise the prompt ends
   * with the stripped input.
   */
  function RequestSummary(input: string, base: Option<string>, languageName: string): (r: SummaryRequest)
    ensures r.NothingToSummarise? <==> Strip(input) == ""
    ensures r.PromptMissing? <==> Strip(input) != "" && base.None?
    ensures r.Ask? ==> Strip(input) != "" && base.Some?
    ensures r.Ask? ==> r.prompt == SummaryPrompt(base.value, languageName, Strip(input))
  {
    var text := Strip(input);
    if text == "" then NothingToSummarise
    else if base.None? then PromptMissing
    else Ask(SummaryPrompt(base.value, languageName, text))
  }

  /**
   * The text that closes a summary prompt is the stripped input: it is not
   * empty and has no leading or trailing whitespace.
   */
  lemma SummaryPromptEndsWithText(input: string, base: Option<string>, languageName: string)
    requires RequestSummary(input, base, languageName).Ask?
    ensures var p := RequestSummary(input, base, languageName).prompt;
      var text := Strip(input);
      text != "" && Trimmed(text) && p[|p| - |text|..] == text
  {
  }

  /** With the same instructions and language, different texts give different summary prompts. */
  lemma SummaryPromptInjective(base: string, languageName: string, t1: string, t2: string)
    requires SummaryPrompt(base, languageName, t1) == SummaryPrompt(base, languageName, t2)
    ensures t1 == t2
  {
    var p := SummaryPrompt(base, languageName, t1);
    assert |t1| == |t2|;
    assert t1 == p[|p| - |t1|..] == t2;
  }

  // ---------------------------------------------------------------------
  // The quota fallback
  // ---------------------------------------------------------------------

  const PrimaryModel: string := "gemini-flash-latest"
  const FallbackModel: string := "gemini-2.5-flash-lite"

  /** One call to the model: the reply's text (possibly empty), or the message of the exception it raised. */
  datatype Reply = Replied(text: string) | Raised(message: string)

  /** `"quota" in message.lower() or "resource" in message.lower()`. */
  predicate IsQuotaError(message: string) {
    Contains(Lower(message), "quota") || Contains(Lower(message), "resource")
  }

  /** The models called, in order: the second one only after a quota error from the first. */
  function ModelsCalled(primary: Reply): (r: seq<string>)
    ensures 1 <= |r| <= 2 && r[0] == PrimaryModel
    ensures |r| == 2 <==> primary.Raised? && IsQuotaError(primary.message)
    ensures |r| == 2 ==> r[1] == FallbackModel
  {
    if primary.Raised? && IsQuotaError(primary.message) then [PrimaryModel, FallbackModel]
    else [PrimaryModel]
  }

  /**
   * The reply the summary is taken from, given what each model would
   * answer: the first model's reply unless it raised a quota error, in
   * which case the second model's reply (which may itself raise). Any
   * other error is raised again.
   */
  function GenerateWithFallback(primary: Reply, fallback: Reply): (r: Reply)
    ensures primary.Replied? ==> r == primary
    ensures primary.Raised? && !IsQuotaError(primary.message) ==> r == primary
    ensures |ModelsCalled(primary)| == 2 ==> r == fallback
  {
    if primary.Raised? && IsQuotaError(primary.message) then fallback else primary
  }

  /** The second model's answer is used only after the first raised a quota error. */
  lemma FallbackOnlyAfterQuotaError(primary: Reply, fallback: Reply)
    requires GenerateWithFallback(primary, fallback) != primary
    ensures primary.Raised? && IsQuotaError(primary.message)
    ensures GenerateWithFallback(primary, fallback) == fallback
  {
  }

  /** How a summary request ends once the model has been asked. */
  datatype SummaryOutcome =
    | Summary(text: string)           // shown, spoken and exported
    | EmptyResponse                   // "The AI returned an empty response."
    | Failed(message: string)         // "Something went wrong: ..."

  function Summarise(primary: Reply, fallback: Reply): (r: SummaryOutcome)
    ensures r.Summary? ==> r.text != "" && GenerateWithFallback(primary, fallback) == Replied(r.text)
    ensures r.Summary? <==> GenerateWithFallback(primary, fallback).Replied? && GenerateWithFallback(primary, fallback).text != ""
    ensures r.Failed? <==> GenerateWithFallback(primary, fallback).Raised?
    ensures r.Failed? ==> r.message == GenerateWithFallback(primary, fallback).message
  {
    match GenerateWithFallback(primary, fallback)
    case Raised(message) => Failed(message)
    case Replied(text) => if text == "" then EmptyResponse else Summary(text)
  }

  // ---------------------------------------------------------------------
  // Properties of the quota test
  // ---------------------------------------------------------------------

  /** `lower()` commutes with concatenation. */
  lemma LowerConcat(a: string, b: string)
    ensures Lower(a + b) == Lower(a) + Lower(b)
  {
  }

  /** An occurrence survives any text written around it. */
  lemma ContainsWithin(a: string, s: string, b: string, pat: string)
    requires Contains(s, pat)
    ensures Contains(a + s + b, pat)
  {
    var i :| 0 <= i <= |s| - |pat| && OccursAt(s, pat, i);
    var t := a + s + b;
    assert t[|a| + i..|a| + i + |pat|] == s[i..i + |pat|];
    assert OccursAt(t, pat, |a| + i);
  }

  /** A message that reports a quota error still does so inside a longer message. */
  lemma QuotaErrorWithin(a: string, message: string, b: string)
    requires IsQuotaError(message)
    ensures IsQuotaError(a + message + b)
  {
    LowerConcat(a + message, b);
    LowerConcat(a, message);
    if Contains(Lower(message), "quota") {
      ContainsWithin(Lower(a), Lower(message), Lower(b), "quota");
    } else {
      ContainsWithin(Lower(a), Lower(message), Lower(b), "resource");
    }
  }

  /** Messages that differ only in the case of their ASCII letters are classified alike. */
  lemma QuotaErrorIgnoresCase(m1: string, m2: string)
    requires |m1| == |m2|
    requires forall k :: 0 <= k < |m1| ==> LowerChar(m1[k]) == LowerChar(m2[k])
    ensures IsQuotaError(m1) <==> IsQuotaError(m2)
  {
    assert Lower(m1) == Lower(m2);
  }

  /** A message with no letter `q` or `r` in either case is not a quota error. */
  lemma NotQuotaErrorWithoutQR(message: string)
    requires forall k :: 0 <= k < |message| ==> LowerChar(message[k]) != 'q' && LowerChar(message[k]) != 'r'
    ensures !IsQuotaError(message)
  {
    var low := Lower(message);
    forall i | 0 <= i <= |low| - 5 ensures !OccursAt(low, "quota", i) {
      assert low[i] != 'q';
    }
    forall i | 0 <= i <= |low| - 8 ensures !OccursAt(low, "resource", i) {
      assert low[i] != 'r';
    }
  }

  /** The word `RESOURCE` in capitals, as in a resource-exhausted status, triggers the fallback. */
  lemma ResourceExhaustedIsQuotaError(a: string, b: string)
    ensures IsQuotaError(a + "RESOURCE" + b)
  {
    var low := Lower("RESOURCE");
    assert low == "resource";
    assert OccursAt(low, "resource", 0);
    QuotaErrorWithin(a, "RESOURCE", b);
  }

  /** A not-found status is raised again without trying the second model. */
  lemma NotFoundIsNotQuotaError()
    ensures !IsQuotaError("404 NOT_FOUND")
  {
    NotQuotaErrorWithoutQR("404 NOT_FOUND");
  }
}
