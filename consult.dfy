/** The rule by which the three expert agents (`PathologyAgent`,
    `DischargeOfficerAgent`, `GeriatricAgent` in backend/agents.py) turn a
    reply of the text-generation model into a vote. The three `_call_llm`
    methods are identical, so the rule is stated once. */
module Consult {
  import opened Optional
  import opened Text
  import opened Decisions

  /** One call of the external model: it raises (`Failure`) or answers. */
  datatype OracleOutcome = Failure | Response(text: string)

  /** An expert's vote as the Python dictionary carries it. */
  datatype Vote = Vote(decision: Decision, reason: string)

  const AdmitMarker := "DECISION: Admit"
  const ReasonMarker := "REASON:"

  /** `"Admit" if "DECISION: Admit" in text else "Discharge"`. */
  function DecisionOf(text: string): Decision {
    if Contains(text, AdmitMarker) then Admit else Discharge
  }

  /** `text.split("REASON:")[-1].strip() if "REASON:" in text else text`:
      the trimmed text after the last reason marker, or all of `text`. */
  function ReasonOf(text: string): (reason: string)
    ensures !Contains(text, ReasonMarker) ==> reason == text
    ensures Contains(text, ReasonMarker) ==> !Contains(reason, ReasonMarker)
  {
    match LastIndexOf(text, ReasonMarker)
    case None => text
    case Some(p) =>
      var tail := text[p + |ReasonMarker|..];
      TailAfterLastMarker(text, p);
      StripKeepsAbsent(tail, ReasonMarker);
      Strip(tail)
  }

  /** Nothing after the last marker is another marker. */
  lemma TailAfterLastMarker(text: string, p: nat)
    requires LastIndexOf(text, ReasonMarker) == Some(p)
    ensures p + |ReasonMarker| <= |text|
    ensures !Contains(text[p + |ReasonMarker|..], ReasonMarker)
  {
    var start := p + |ReasonMarker|;
    var tail := text[start..];
    forall j: nat | OccursAt(tail, ReasonMarker, j)
      ensures OccursAt(text, ReasonMarker, start + j)
    {
      SliceOfSlice(text, start, |text|, j, |ReasonMarker|);
    }
  }

  /** `_call_llm`: a failed call gives `Uncertain`/"Error"; otherwise the
      stripped reply is Admit exactly when it carries the admit marker, and
      its reason is found by `ReasonOf`. */
  function ParseVote(outcome: OracleOutcome): (v: Vote)
    ensures outcome.Failure? <==> v.decision == Uncertain
    ensures outcome.Failure? ==> v == Vote(Uncertain, "Error")
    ensures outcome.Response? ==> (v.decision == Admit <==> Contains(outcome.text, AdmitMarker))
    ensures outcome.Response? && !Contains(outcome.text, ReasonMarker) ==> v.reason == Strip(outcome.text)
    ensures outcome.Response? ==> v.reason == ReasonOf(Strip(outcome.text))
  {
    match outcome
    case Failure => Vote(Uncertain, "Error")
    case Response(raw) =>
      var text := Strip(raw);
      AdmitMarkerSurvivesStrip(raw);
      ReasonMarkerSurvivesStrip(raw);
      Vote(DecisionOf(text), ReasonOf(text))
  }

  /** Stripping the reply does not change whether it has the admit marker. */
  lemma AdmitMarkerSurvivesStrip(raw: string)
    ensures Contains(Strip(raw), AdmitMarker) <==> Contains(raw, AdmitMarker)
  {
    StripKeepsContains(raw, AdmitMarker);
  }

  /** Stripping the reply does not change whether it has the reason marker. */
  lemma ReasonMarkerSurvivesStrip(raw: string)
    ensures Contains(Strip(raw), ReasonMarker) <==> Contains(raw, ReasonMarker)
  {
    StripKeepsContains(raw, ReasonMarker);
  }

  /** Only the first character of the reason marker is an 'R', so two of
      its occurrences never overlap. */
  lemma MarkerDoesNotOverlapItself(text: string, p: nat, q: nat)
    requires OccursAt(text, ReasonMarker, p) && p < q < p + |ReasonMarker|
    ensures !OccursAt(text, ReasonMarker, q)
  {
    assert text[q] == text[p..p + |ReasonMarker|][q - p];
    var k := q - p;
    assert ReasonMarker[k] != 'R' by {
      assert 1 <= k < 7;
      assert ReasonMarker == "REASON:";
    }
  }

  /** The reason is what follows the LAST marker: whatever comes before it,
      a tail without a further marker comes back, trimmed. */
  lemma ReasonAfterLastMarker(pre: string, tail: string)
    requires !Contains(tail, ReasonMarker)
    ensures ReasonOf(pre + ReasonMarker + tail) == Strip(tail)
  {
    var text := pre + ReasonMarker + tail;
    var p := |pre|;
    assert text[p..p + |ReasonMarker|] == ReasonMarker;
    assert OccursAt(text, ReasonMarker, p);
    var last := LastIndexOf(text, ReasonMarker);
    assert last.Some?;
    var q := last.value;
    assert q >= p;
    if q > p {
      if q < p + |ReasonMarker| {
        MarkerDoesNotOverlapItself(text, p, q);
      } else {
        var j := q - (p + |ReasonMarker|);
        assert text[q..q + |ReasonMarker|] == tail[j..j + |ReasonMarker|];
        assert OccursAt(tail, ReasonMarker, j);
      }
    }
    assert text[p + |ReasonMarker|..] == tail;
  }

  /** A reply in the format the prompts ask for comes back as the vote it
      states, whenever its reason is already trimmed and free of markers. */
  lemma FormattedAdmitRoundTrip(reason: string)
    requires reason != [] && !IsSpace(reason[0]) && !IsSpace(reason[|reason| - 1])
    requires !Contains(reason, ReasonMarker)
    ensures ParseVote(Response(AdmitReply(reason))) == Vote(Admit, reason)
  {
    var raw := AdmitReply(reason);
    AdmitReplyHasMarker(reason);
    AdmitReplyIsStripped(reason);
    AdmitReplyReason(reason);
  }

  /** The reply the prompts' format asks for, for an Admit vote. */
  function AdmitReply(reason: string): string {
    AdmitMarker + "\n" + ReasonMarker + " " + reason
  }

  lemma AdmitReplyHasMarker(reason: string)
    ensures Contains(AdmitReply(reason), AdmitMarker)
  {
    assert AdmitReply(reason) == [] + AdmitMarker + ("\n" + ReasonMarker + " " + reason);
    ContainsMiddle([], AdmitMarker, "\n" + ReasonMarker + " " + reason);
  }

  lemma AdmitReplyIsStripped(reason: string)
    requires reason != [] && !IsSpace(reason[|reason| - 1])
    ensures Strip(AdmitReply(reason)) == AdmitReply(reason)
  {
    var raw := AdmitReply(reason);
    assert raw[0] == 'D';
    assert raw[|raw| - 1] == reason[|reason| - 1];
    StripUnchanged(raw);
  }

  lemma AdmitReplyReason(reason: string)
    requires reason != [] && !IsSpace(reason[0]) && !IsSpace(reason[|reason| - 1])
    requires !Contains(reason, ReasonMarker)
    ensures ReasonOf(AdmitReply(reason)) == reason
  {
    var sr := " " + reason;
    assert AdmitReply(reason) == (AdmitMarker + "\n") + ReasonMarker + sr;
    assert !Contains(sr, ReasonMarker) by {
      if Contains(sr, ReasonMarker) {
        var j: nat :| j <= |sr| && OccursAt(sr, ReasonMarker, j);
        assert sr[j..j + |ReasonMarker|][0] == sr[j];
        assert j != 0;
        SliceOfSlice(sr, 1, |sr|, j - 1, |ReasonMarker|);
        assert sr[1..] == reason;
        assert OccursAt(reason, ReasonMarker, j - 1);
      }
    }
    ReasonAfterLastMarker(AdmitMarker + "\n", sr);
    StripSpaceInFront(' ', reason);
  }
}
