/** The final judge (`SupervisorAgent.make_final_decision` in
    backend/agents.py): two hard rules, then up to five calls of the
    text-generation model, then a fail-safe admission. The model is an
    oracle: a function from the prompt and the attempt number to a failure
    or a reply. */
module Arbitration {
  import opened Optional
  import opened Text
  import opened Decisions
  import opened Safety
  import opened Consult

  /** Who decided: the `decision_source` values. */
  datatype Source =
    | SafetyAgent | EsiProtocol
    | PathologyAgent | DischargeOfficer | GeriatricAgent | Supervisor
    | ErrorFallback

  /** The `decision_source` string the Python code returns. */
  function SourceName(s: Source): string {
    match s
    case SafetyAgent => "SafetyAgent"
    case EsiProtocol => "ESI_Protocol"
    case PathologyAgent => "PathologyAgent"
    case DischargeOfficer => "DischargeOfficer"
    case GeriatricAgent => "GeriatricAgent"
    case Supervisor => "Supervisor"
    case ErrorFallback => "Error_Fallback"
  }

  /** The dictionary `make_final_decision` returns. */
  datatype Verdict = Verdict(decision: Decision, reason: string, source: Source)

  /** How many times the model is asked before giving up. */
  const MaxAttempts: nat := 5

  /** The verdict when every attempt failed: admit. */
  const FailSafe := Verdict(Admit, "System Error", ErrorFallback)

  const PathologyWinner := "WINNER: PathologyAgent"
  const DischargeWinner := "WINNER: DischargeOfficer"
  const GeriatricWinner := "WINNER: GeriatricAgent"

  /** `f"{x}"` for an optional reason: Python prints a missing one as "None". */
  function ReasonText(reason: Option<string>): string {
    match reason
    case Some(s) => s
    case None => "None"
  }

  /** The first hard rule: a critical safety result. */
  function SafetyOverride(safety: SafetyResult): Verdict {
    Verdict(Admit, "Safety Protocol: " + ReasonText(safety.reason), SafetyAgent)
  }

  /** The second hard rule: ESI level 1. */
  const EsiOverride := Verdict(Admit, "Protocol: ESI 1 (Resuscitation)", EsiProtocol)

  /** The winner named in a reply: the first of the three markers present,
      in the order the code tests them, else the supervisor itself. */
  function WinnerOf(text: string): Source {
    if Contains(text, PathologyWinner) then PathologyAgent
    else if Contains(text, DischargeWinner) then DischargeOfficer
    else if Contains(text, GeriatricWinner) then GeriatricAgent
    else Supervisor
  }

  /** A successful synthesis reply as a verdict: the reply is stripped, and
      its decision, winner and reason read from it. Stated on the raw reply:
      stripping loses none of the markers. */
  function ParseSynthesis(raw: string): (v: Verdict)
    ensures v.decision == Admit <==> Contains(raw, AdmitMarker)
    ensures v.decision == Discharge <==> !Contains(raw, AdmitMarker)
    ensures v.source == PathologyAgent <==> Contains(raw, PathologyWinner)
    ensures v.source == DischargeOfficer <==>
      !Contains(raw, PathologyWinner) && Contains(raw, DischargeWinner)
    ensures v.source == GeriatricAgent <==>
      !Contains(raw, PathologyWinner) && !Contains(raw, DischargeWinner) && Contains(raw, GeriatricWinner)
    ensures v.source == Supervisor <==>
      !Contains(raw, PathologyWinner) && !Contains(raw, DischargeWinner) && !Contains(raw, GeriatricWinner)
    ensures !Contains(raw, ReasonMarker) ==> v.reason == Strip(raw)
    ensures Contains(raw, ReasonMarker) ==> !Contains(v.reason, ReasonMarker)
    ensures v.reason == ReasonOf(Strip(raw))
  {
    var text := Strip(raw);
    AdmitMarkerSurvivesStrip(raw);
    ReasonMarkerSurvivesStrip(raw);
    StripKeepsContains(raw, PathologyWinner);
    StripKeepsContains(raw, DischargeWinner);
    StripKeepsContains(raw, GeriatricWinner);
    Verdict(DecisionOf(text), ReasonOf(text), WinnerOf(text))
  }

  /** The retry policy over the outcomes of successive attempts: the first
      reply decides; if there is none, the fail-safe admission. */
  function Synthesize(outcomes: seq<OracleOutcome>): (v: Verdict)
    ensures v.decision != Uncertain
    ensures v.source != SafetyAgent && v.source != EsiProtocol
    ensures v.source == ErrorFallback <==> forall i :: 0 <= i < |outcomes| ==> outcomes[i].Failure?
    ensures v.source == ErrorFallback ==> v == FailSafe
  {
    if outcomes == [] then FailSafe
    else match outcomes[0]
      case Failure => Synthesize(outcomes[1..])
      case Response(raw) => ParseSynthesis(raw)
  }

  /** Only the first `MaxAttempts` outcomes are ever asked for. */
  function FirstAttempts(outcomes: seq<OracleOutcome>): (r: seq<OracleOutcome>)
    ensures |r| <= MaxAttempts && |r| <= |outcomes|
    ensures r == outcomes[..|r|]
    ensures |r| == if |outcomes| < MaxAttempts then |outcomes| else MaxAttempts
  {
    if |outcomes| <= MaxAttempts then outcomes else outcomes[..MaxAttempts]
  }

  /** What `make_final_decision` returns, given the safety result, the ESI
      level and the outcomes the model would give on successive attempts.
      The program always has five answers to draw on; a shorter sequence
      means that no further answer comes, which the fallback treats like a
      failure. */
  function Decide(safety: SafetyResult, esi: int, outcomes: seq<OracleOutcome>): (v: Verdict)
    ensures v.decision != Uncertain
  {
    if safety.isCritical then SafetyOverride(safety)
    else if esi == 1 then EsiOverride
    else Synthesize(FirstAttempts(outcomes))
  }

  /** The line of the prompt that carries one expert's vote. */
  function VoteLine(heading: string, v: Vote): string {
    heading + DecisionName(v.decision) + " -> " + v.reason
  }

  /** The synthesis prompt, reduced to what it carries: the patient text and
      the three votes, each with its decision and reason. */
  function SynthesisPrompt(patientText: string, path: Vote, disch: Vote, geri: Vote): (prompt: string)
    ensures Contains(prompt, patientText)
  {
    PromptCarriesPatient(patientText, path, disch, geri);
    PromptHead(patientText)
    + (VoteLine(PathologistHeading, path)
    + ("\n" + (VoteLine(DischargeOfficerHeading, disch)
    + ("\n" + (VoteLine(GeriatricianHeading, geri)
    + "\n")))))
  }

  /** The part of the prompt before the votes. */
  function PromptHead(patientText: string): string {
    "PATIENT SUMMARY:\n" + patientText + "\n\nTHE COUNCIL'S VOTES:\n"
  }

  /** The prompt's head, and so the prompt, carries the patient text. */
  lemma PromptCarriesPatient(patientText: string, path: Vote, disch: Vote, geri: Vote)
    ensures Contains(PromptHead(patientText)
      + (VoteLine(PathologistHeading, path)
      + ("\n" + (VoteLine(DischargeOfficerHeading, disch)
      + ("\n" + (VoteLine(GeriatricianHeading, geri)
      + "\n"))))), patientText)
  {
    var head := PromptHead(patientText);
    ContainsMiddle("PATIENT SUMMARY:\n", patientText, "\n\nTHE COUNCIL'S VOTES:\n");
    ContainsInPrefix(head, VoteLine(PathologistHeading, path)
      + ("\n" + (VoteLine(DischargeOfficerHeading, disch)
      + ("\n" + (VoteLine(GeriatricianHeading, geri)
      + "\n")))), patientText);
  }

  const PathologistHeading := "1. PATHOLOGIST (Medical Risk): "
  const DischargeOfficerHeading := "2. DISCHARGE OFFICER (Logistics): "
  const GeriatricianHeading := "3. GERIATRICIAN (Functional/Social): "

  /** The outcomes the oracle gives for `prompt` on attempts 0 to 4. */
  function Attempts(oracle: (string, nat) -> OracleOutcome, prompt: string): (r: seq<OracleOutcome>)
    ensures |r| == MaxAttempts
  {
    seq(MaxAttempts, i requires 0 <= i < MaxAttempts => oracle(prompt, i))
  }

  /** `SupervisorAgent.make_final_decision`. Besides the verdict it returns
      how many times it called the model. */
  method MakeFinalDecision(safety: SafetyResult, path: Vote, disch: Vote, geri: Vote,
                           esi: int, patientText: string,
                           oracle: (string, nat) -> OracleOutcome)
    returns (v: Verdict, calls: nat)
    ensures v == Decide(safety, esi, Attempts(oracle, SynthesisPrompt(patientText, path, disch, geri)))
    ensures calls <= MaxAttempts
    ensures safety.isCritical || esi == 1 ==> calls == 0
    ensures v.source == ErrorFallback ==> calls == MaxAttempts
    ensures !safety.isCritical && esi != 1 && v.source != ErrorFallback ==>
      1 <= calls
      && oracle(SynthesisPrompt(patientText, path, disch, geri), calls - 1).Response?
      && forall i :: 0 <= i < calls - 1 ==> oracle(SynthesisPrompt(patientText, path, disch, geri), i).Failure?
  {
    // 1. Hard rules.
    if safety.isCritical {
      return SafetyOverride(safety), 0;
    }
    if esi == 1 {
      return EsiOverride, 0;
    }
    // 2. Synthesis, retried.
    var prompt := SynthesisPrompt(patientText, path, disch, geri);
    v, calls := RetrySynthesis(prompt, oracle);
    assert FirstAttempts(Attempts(oracle, prompt)) == Attempts(oracle, prompt);
  }

  /** The retry loop of `make_final_decision`: ask the model up to five
      times; the first reply is parsed into the verdict; after five
      failures, the fail-safe admission. The one-second pause between
      attempts is timing only. */
  method RetrySynthesis(prompt: string, oracle: (string, nat) -> OracleOutcome)
    returns (v: Verdict, calls: nat)
    ensures v == Synthesize(Attempts(oracle, prompt))
    ensures 1 <= calls <= MaxAttempts
    ensures v.source == ErrorFallback ==> calls == MaxAttempts
    ensures v.source != ErrorFallback ==>
      oracle(prompt, calls - 1).Response? && v == ParseSynthesis(oracle(prompt, calls - 1).text)
    ensures forall i :: 0 <= i < calls - 1 ==> oracle(prompt, i).Failure?
  {
    ghost var outcomes := Attempts(oracle, prompt);
    assert forall i :: 0 <= i < MaxAttempts ==> outcomes[i] == oracle(prompt, i);
    calls := 0;
    for attempt := 0 to MaxAttempts
      invariant calls == attempt
      invariant forall i :: 0 <= i < attempt ==> oracle(prompt, i).Failure?
    {
      var outcome := oracle(prompt, attempt);
      calls := calls + 1;
      match outcome {
        case Response(raw) =>
          FirstReplyDecides(outcomes, attempt);
          return ParseSynthesis(raw), calls;
        case Failure =>
      }
    }
    assert forall i :: 0 <= i < |outcomes| ==> outcomes[i].Failure?;
    return FailSafe, calls;
  }

  // ---------------------------------------------------------------------
  // Properties of the arbitration.

  /** The first reply, after any number of failures, decides the verdict. */
  lemma {:induction false} FirstReplyDecides(outcomes: seq<OracleOutcome>, k: nat)
    requires k < |outcomes| && outcomes[k].Response?
    requires forall i :: 0 <= i < k ==> outcomes[i].Failure?
    ensures Synthesize(outcomes) == ParseSynthesis(outcomes[k].text)
  {
    if k > 0 {
      FirstReplyDecides(outcomes[1..], k - 1);
    }
  }

  /** A critical safety result admits, whatever the ESI level and whatever
      the model would say. */
  lemma CriticalAlwaysAdmits(safety: SafetyResult, esi: int, outcomes: seq<OracleOutcome>)
    requires safety.isCritical
    ensures Decide(safety, esi, outcomes) == Verdict(Admit, "Safety Protocol: " + ReasonText(safety.reason), SafetyAgent)
  {
  }

  /** ESI level 1 admits, whatever the model would say, unless the safety
      rule already fired. */
  lemma EsiOneAlwaysAdmits(safety: SafetyResult, outcomes: seq<OracleOutcome>)
    requires !safety.isCritical
    ensures Decide(safety, 1, outcomes) == EsiOverride
  {
  }

  /** Five failures in a row give the fail-safe admission. */
  lemma AllFailuresAdmit(safety: SafetyResult, esi: int, outcomes: seq<OracleOutcome>)
    requires !safety.isCritical && esi != 1
    requires |outcomes| >= MaxAttempts
    requires forall i :: 0 <= i < MaxAttempts ==> outcomes[i].Failure?
    ensures Decide(safety, esi, outcomes) == FailSafe
  {
    var first := FirstAttempts(outcomes);
    assert forall i :: 0 <= i < |first| ==> first[i] == outcomes[i];
  }

  /** A discharge only ever comes from a reply of the model, within the
      first five attempts, that lacks the admit marker; neither hard rule
      can have fired. */
  lemma DischargeNeedsReply(safety: SafetyResult, esi: int, outcomes: seq<OracleOutcome>)
    requires Decide(safety, esi, outcomes).decision == Discharge
    ensures !safety.isCritical && esi != 1
    ensures exists k ::
      && 0 <= k < MaxAttempts && k < |outcomes| && outcomes[k].Response?
      && !Contains(outcomes[k].text, AdmitMarker)
      && (forall i :: 0 <= i < k ==> outcomes[i].Failure?)
  {
    var first := FirstAttempts(outcomes);
    assert Synthesize(first).decision == Discharge;
    var k := FirstReplyIndex(first);
    FirstReplyDecides(first, k);
    assert first[k] == outcomes[k];
    assert forall i :: 0 <= i < k ==> first[i] == outcomes[i];
  }

  /** The index of the first reply among outcomes that are not all failures. */
  lemma {:induction false} FirstReplyIndex(outcomes: seq<OracleOutcome>) returns (k: nat)
    requires !forall i :: 0 <= i < |outcomes| ==> outcomes[i].Failure?
    ensures k < |outcomes| && outcomes[k].Response?
    ensures forall i :: 0 <= i < k ==> outcomes[i].Failure?
  {
    if outcomes[0].Response? {
      k := 0;
    } else {
      var k' := FirstReplyIndex(outcomes[1..]);
      k := k' + 1;
    }
  }

  /** The prompt carries every expert's decision and reason. */
  lemma PromptCarriesVotes(patientText: string, path: Vote, disch: Vote, geri: Vote)
    ensures Contains(SynthesisPrompt(patientText, path, disch, geri), VoteLine(PathologistHeading, path))
    ensures Contains(SynthesisPrompt(patientText, path, disch, geri), VoteLine(DischargeOfficerHeading, disch))
    ensures Contains(SynthesisPrompt(patientText, path, disch, geri), VoteLine(GeriatricianHeading, geri))
  {
    var head := PromptHead(patientText);
    var l1 := VoteLine(PathologistHeading, path);
    var l2 := VoteLine(DischargeOfficerHeading, disch);
    var l3 := VoteLine(GeriatricianHeading, geri);
    var rest3 := l3 + "\n";
    var rest2 := l2 + ("\n" + rest3);
    var rest1 := l1 + ("\n" + rest2);
    ContainsSelf(l3);
    ContainsInPrefix(l3, "\n", l3);
    ContainsInSuffix("\n", rest3, l3);
    ContainsInSuffix(l2, "\n" + rest3, l3);
    ContainsSelf(l2);
    ContainsInPrefix(l2, "\n" + rest3, l2);
    ContainsInSuffix("\n", rest2, l3);
    ContainsInSuffix("\n", rest2, l2);
    ContainsInSuffix(l1, "\n" + rest2, l3);
    ContainsInSuffix(l1, "\n" + rest2, l2);
    ContainsSelf(l1);
    ContainsInPrefix(l1, "\n" + rest2, l1);
    ContainsInSuffix(head, rest1, l1);
    ContainsInSuffix(head, rest1, l2);
    ContainsInSuffix(head, rest1, l3);
  }

  /** End to end: text with an active critical flag is admitted by the
      safety rule, with the flag in the reason, whatever the ESI level and
      whatever the model would say. */
  lemma CriticalTextIsAdmitted(t: string, esi: int, outcomes: seq<OracleOutcome>, k: nat)
    requires t != ""
    requires k < |CriticalFlags| && ActiveHit(Lower(t), CriticalFlags[k])
    ensures Assessment(Some(t)).isCritical
    ensures Decide(Assessment(Some(t)), esi, outcomes) == SafetyOverride(Assessment(Some(t)))
  {
    CriticalIffActiveFlag(t);
  }
}
