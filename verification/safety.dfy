/** The safety gate in front of PRD generation (safety.py): a local
    heuristic over two ordered pattern tables, composed with an optional
    external moderation verdict that fails open. */
module Safety {
  import opened Optional
  import opened Text
  import opened Pattern

  /** Verdict of a safety evaluation. The source's `flags` is optional, but
      every path of the modelled functions sets it, so it is a plain sequence. */
  datatype SafetyResult = SafetyResult(ok: bool, reason: string, flags: seq<string>)

  const EmptyFlag := "empty_input"
  const InjectionFlag := "prompt_injection_pattern"
  const HarmfulFlag := "harmful_hint"
  const ModerationFlaggedFlag := "moderation_flagged"
  const ModerationOkFlag := "moderation_ok"
  const ModerationUnavailableFlag := "moderation_unavailable"

  const EmptyReason := "Input is empty."
  const InjectionReason :=
    "Potential prompt-injection detected. "
    + "Please remove instructions like 'ignore previous instructions', references to system prompts, or requests for secrets."
  const HarmfulReason := "Potentially harmful content detected. Please provide business/product notes only."
  const ModerationReason := "Input was flagged by moderation. Please provide business/product notes only."

  /** The prompt-injection table, in the source's order. */
  const InjectionPatterns: seq<Regex> := [
    // \bignore (all|any|the) (previous|prior) instructions\b
    [Boundary, Lit("ignore "), Alt(["all", "any", "the"]), Lit(" "), Alt(["previous", "prior"]), Lit(" instructions"), Boundary],
    // \bdisregard (all|any|the) (previous|prior) instructions\b
    [Boundary, Lit("disregard "), Alt(["all", "any", "the"]), Lit(" "), Alt(["previous", "prior"]), Lit(" instructions"), Boundary],
    // \byou are now\b
    WholeWordPattern("you are now"),
    // \bact as\b.*\b(system|developer)\b
    [Boundary, Lit("act as"), Boundary, AnyRun, Boundary, Alt(["system", "developer"]), Boundary],
    // \b(system|developer) prompt\b
    [Boundary, Alt(["system", "developer"]), Lit(" prompt"), Boundary],
    // \breveal\b.*\b(system prompt|hidden prompt|instructions)\b
    [Boundary, Lit("reveal"), Boundary, AnyRun, Boundary, Alt(["system prompt", "hidden prompt", "instructions"]), Boundary],
    // \bprint\b.*\b(system prompt|developer message|secret)\b
    [Boundary, Lit("print"), Boundary, AnyRun, Boundary, Alt(["system prompt", "developer message", "secret"]), Boundary],
    // \bapi[_ -]?key\b
    [Boundary, Lit("api"), OptChar(['_', ' ', '-']), Lit("key"), Boundary],
    WholeWordPattern("password"),
    WholeWordPattern("token"),
    WholeWordPattern("exfiltrate"),
    WholeWordPattern("data leak"),
    WholeWordPattern("do not follow"),
    // \boverride\b.*\brules\b
    [Boundary, Lit("override"), Boundary, AnyRun, Boundary, Lit("rules"), Boundary]
  ]

  /** The harmful-intent table: `\bkw\b` for each keyword, in the source's order. */
  const HarmfulHints: seq<Regex> := [
    WholeWordPattern("kill"),
    WholeWordPattern("murder"),
    WholeWordPattern("weapon"),
    WholeWordPattern("bomb"),
    WholeWordPattern("suicide"),
    WholeWordPattern("terror")
  ]

  /** Some pattern of the table matches `s`. */
  predicate AnyHit(pats: seq<Regex>, s: string) {
    exists k :: 0 <= k < |pats| && Search(pats[k], s)
  }

  /** The source's scan of a table that stops at the first hit: the index of
      the first pattern that matches, if any. */
  function FirstHit(pats: seq<Regex>, s: string): (r: Option<nat>)
    ensures r.Some? ==> r.value < |pats| && Search(pats[r.value], s)
    ensures r.Some? ==> forall k :: 0 <= k < r.value ==> !Search(pats[k], s)
    ensures r.None? <==> !AnyHit(pats, s)
    decreases |pats|
  {
    if |pats| == 0 then None
    else if Search(pats[0], s) then Some(0)
    else
      match FirstHit(pats[1..], s)
      case None => None
      case Some(k) => Some(k + 1)
  }

  /** The text the tables are matched against: trimmed, then lower-cased
      (`None` reads as the empty string). */
  function Screened(text: Option<string>): string {
    Lower(Strip(text.GetOr("")))
  }

  /** The input is missing, empty, or whitespace only. */
  ghost predicate IsEmptyInput(text: Option<string>) {
    text.None? || IsBlank(text.value)
  }

  ghost predicate InjectionHit(text: Option<string>) {
    AnyHit(InjectionPatterns, Screened(text))
  }

  ghost predicate HarmfulHit(text: Option<string>) {
    AnyHit(HarmfulHints, Screened(text))
  }

  /** `heuristic_safety_check`. */
  function HeuristicSafetyCheck(text: Option<string>): (r: SafetyResult)
    ensures IsEmptyInput(text) ==> r == SafetyResult(false, EmptyReason, [EmptyFlag])
    ensures !IsEmptyInput(text) ==>
      r.flags == (if InjectionHit(text) then [InjectionFlag] else [])
               + (if HarmfulHit(text) then [HarmfulFlag] else [])
    ensures !IsEmptyInput(text) && InjectionHit(text) ==> !r.ok && r.reason == InjectionReason
    ensures !IsEmptyInput(text) && !InjectionHit(text) && HarmfulHit(text) ==> !r.ok && r.reason == HarmfulReason
    ensures r.ok <==> !IsEmptyInput(text) && !InjectionHit(text) && !HarmfulHit(text)
    ensures r.ok ==> r.reason == "" && r.flags == []
  {
    var t := Strip(text.GetOr(""));
    if t == [] then
      SafetyResult(false, EmptyReason, [EmptyFlag])
    else
      var lowered := Lower(t);
      var flags :=
        (if FirstHit(InjectionPatterns, lowered).Some? then [InjectionFlag] else [])
        + (if FirstHit(HarmfulHints, lowered).Some? then [HarmfulFlag] else []);
      if InjectionFlag in flags then
        SafetyResult(false, InjectionReason, flags)
      else if HarmfulFlag in flags then
        SafetyResult(false, HarmfulReason, flags)
      else
        SafetyResult(true, "", flags)
  }

  /** What the hosted moderation service answered: the oracle standing in for
      the network call. */
  datatype Moderation = Flagged | NotFlagged | Fault

  /** `openai_moderation_check`, with the service call replaced by its outcome. */
  function ModerationCheck(outcome: Moderation): (r: SafetyResult)
    ensures r.ok <==> !outcome.Flagged?
    ensures !r.ok ==> r.reason == ModerationReason && r.flags == [ModerationFlaggedFlag]
    ensures r.ok ==> r.reason == ""
    ensures outcome.NotFlagged? ==> r.flags == [ModerationOkFlag]
    ensures outcome.Fault? ==> r.flags == [ModerationUnavailableFlag]
  {
    match outcome
    case Flagged => SafetyResult(false, ModerationReason, [ModerationFlaggedFlag])
    case NotFlagged => SafetyResult(true, "", [ModerationOkFlag])
    case Fault => SafetyResult(true, "", [ModerationUnavailableFlag])
  }

  /** `safety_check`: the heuristic gate, then the optional moderation gate. */
  function SafetyCheck(text: Option<string>, useModeration: bool, moderation: Moderation): (r: SafetyResult)
    ensures !HeuristicSafetyCheck(text).ok ==> r == HeuristicSafetyCheck(text)
    ensures r.ok ==> HeuristicSafetyCheck(text).ok
    ensures HeuristicSafetyCheck(text).ok && useModeration && moderation.Flagged? ==>
      !r.ok && r.reason == ModerationReason && r.flags == [ModerationFlaggedFlag]
    ensures HeuristicSafetyCheck(text).ok && !(useModeration && moderation.Flagged?) ==>
      r.ok && r.reason == "" && r.flags == HeuristicSafetyCheck(text).flags
  {
    var h := HeuristicSafetyCheck(text);
    if !h.ok then h
    else if useModeration && !ModerationCheck(moderation).ok then ModerationCheck(moderation)
    else SafetyResult(true, "", h.flags)
  }
}
