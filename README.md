# Triage decision arbitration, modelled in Dafny

The project models the disposition engine of an emergency-department triage
assistant. For each patient it chooses Admit or Discharge.

- The **safety agent** (`SafetyAgent.analyze`) is a deterministic scanner.
  It lower-cases the patient text and walks 32 critical flags in priority
  order. For each flag it finds the first whole-word match, looks at the 35
  characters before that match, and reports the first flag whose window
  holds none of 13 qualifiers ("history of", "stable", "rule out", ...).
- The **expert agents** (pathology, discharge officer, geriatrics) ask a
  text-generation model for a vote. Their shared `_call_llm` parses the
  reply: Admit only when the literal `DECISION: Admit` occurs, the reason
  after the last `REASON:`, and `Uncertain`/"Error" when the call fails.
- The **supervisor** (`SupervisorAgent.make_final_decision`) applies two
  hard rules first: a critical safety result admits, and ESI level 1
  admits. Otherwise it sends the three votes to the model, up to five
  times. The first reply is parsed into a decision, a winning source and a
  reason. After five failures it admits with source `Error_Fallback`.
- The **utilities** normalise decision labels and gender, sort complaints
  into dashboard categories, and clean and lay out a patient record for
  the prompts.

The model is split into these modules:

- `Text` holds the Python string operations the code calls: `strip`,
  `lower`, `in` and `replace`. It also holds two stand-ins. `LastIndexOf`
  finds the last occurrence of a marker, which is how the model reads
  `split("REASON:")[-1]`. `SplitLines` and `JoinLines` state the line
  layout of the patient-record template.
- `Safety` holds the scanner. `Safety.Analyze` and its loop `Safety.Scan` are
  proved equal to the specification functions `Safety.Assessment` and
  `Safety.ScanFrom`.
- `Consult` holds the expert-vote parser.
- `Arbitration` holds the supervisor. The model is an oracle: a function
  from the prompt and the attempt number to `Failure` or `Response(text)`.
  `Arbitration.MakeFinalDecision` is proved equal to `Arbitration.Decide`
  applied to the oracle's first five answers.
- `Utils` holds `backend/utils.py`.

Two behaviours of the code that the model keeps:

- `make_final_decision` returns only a decision, a reason and a source;
  `main.py` attaches the votes.
- Only the first whole-word match of each flag is examined. A later,
  unqualified mention of a flag whose first mention is qualified does not
  make it active.

## Model

| member | source | states |
|---|---|---|
| Safety.Analyze | backend/agents.py:25-45 | `analyze` returns exactly `Assessment(input)`: the early answer for missing or empty text, else the scan of the lower-cased text. |
| Safety.Scan | backend/agents.py:30-45 | The loop over the flags, with its inner qualifier loop, returns the first active flag as `CRITICAL: flag`, else "No critical keywords" (equal to `ScanFrom(text, flags, 0)`). |
| Safety.HasQualifier | backend/agents.py:36-40 | The early-exit loop reports a qualifier exactly when some qualifier is a substring of the window. |
| Safety.Assessment | backend/agents.py:25-45 | Missing or empty text gives Discharge with no reason. Otherwise the result is critical iff it is Admit, and a non-critical result is "No critical keywords". |
| Safety.ScanFrom | backend/agents.py:30-45 | A critical result is `CRITICAL: flag` for one of the scanned flags, and it is Admit. Any other result is the no-keywords Discharge. |
| Safety.ScanFromFirstActive | backend/agents.py:30-43 | A critical scan names a flag that is active, and every flag scanned before it is inactive. |
| Safety.Search | backend/agents.py:31-32 | The result is a whole-word match (word boundary on both sides) and no earlier index matches. It is None iff there is no whole-word match anywhere. |
| Safety.Window | backend/agents.py:35 | The window is the `min(start, 35)` characters that end right before the match. |
| Safety.CriticalIffActiveFlag | backend/agents.py:25-45 | Non-empty text is critical iff some flag is active in its lower-cased form. The reported flag is the first active one in list order. |
| Safety.FirstActiveFlagWins | backend/agents.py:30-43 | If flag k is active and every earlier flag is inactive, the answer is `CRITICAL: flag k`, wherever the matches sit in the text. |
| Safety.ActiveHitMeans | backend/agents.py:31-41 | Given the leftmost whole-word match, a flag is reported iff no qualifier occurs in the 35 characters before that match. |
| Safety.CaseInsensitive | backend/agents.py:29 | Text and its lower-cased form get the same assessment. |
| Safety.QualifierInsideLongerWord | backend/agents.py:37-38 | Qualifiers are raw substrings: a window containing "unstable" or "cold" counts as qualified. |
| Consult.ParseVote | backend/agents.py:84-92 | A failure is exactly the Uncertain vote, with reason "Error". A reply is Admit iff it contains `DECISION: Admit`. Without `REASON:` the reason is the whole stripped reply; in every case it is `ReasonOf` of the stripped reply. |
| Consult.ReasonOf | backend/agents.py:89 | Without the marker the reason is the whole text. With it, the reason holds no further marker. |
| Consult.ReasonAfterLastMarker | backend/agents.py:89 | The reason of `pre + "REASON:" + tail`, where tail has no marker, is `tail` stripped, whatever `pre` holds. |
| Consult.FormattedAdmitRoundTrip | backend/agents.py:78-92 | A reply in the requested `DECISION:`/`REASON:` format parses back to the Admit vote with that reason. |
| Arbitration.ParseSynthesis | backend/agents.py:243-255 | On the raw reply: Admit iff `DECISION: Admit` occurs. The winner is the first of the three `WINNER:` markers present, else Supervisor. Without `REASON:` the reason is the stripped reply; in every case it is `ReasonOf` of the stripped reply. |
| Arbitration.Synthesize | backend/agents.py:239-272 | The verdict is never Uncertain and never comes from a hard rule. Its source is Error_Fallback iff every outcome failed, and then it is the fail-safe Admit. |
| Arbitration.FirstAttempts | backend/agents.py:239-240 | The first five outcomes are consulted, or all of them when there are fewer; they are a prefix of the outcomes. |
| Arbitration.Attempts | backend/agents.py:240-242 | The oracle is asked once per attempt, five times in all. |
| Arbitration.Decide | backend/agents.py:189-272 | The final decision is never Uncertain. |
| Arbitration.MakeFinalDecision | backend/agents.py:189-272 | The verdict equals `Decide` over the oracle's answers to the synthesis prompt. There are at most five calls, none when a hard rule fires, and five when it falls back. A non-fallback verdict from synthesis comes from the last call, after only failures. |
| Arbitration.RetrySynthesis | backend/agents.py:239-272 | The retry loop equals `Synthesize` over the five attempts. A non-fallback verdict is the parse of the first reply, and every earlier call failed. |
| Arbitration.FirstReplyDecides | backend/agents.py:240-262 | After any number of failures, the first reply alone decides the verdict. |
| Arbitration.CriticalAlwaysAdmits | backend/agents.py:193-198 | A critical safety result admits, with reason `Safety Protocol: <reason>` and source SafetyAgent, whatever the ESI level and the model say. |
| Arbitration.EsiOneAlwaysAdmits | backend/agents.py:200-205 | ESI 1 without a critical result admits with the ESI protocol reason, whatever the model says. |
| Arbitration.AllFailuresAdmit | backend/agents.py:267-272 | Five failed attempts give `Admit`, "System Error", Error_Fallback. |
| Arbitration.DischargeNeedsReply | backend/agents.py:189-272 | A Discharge means no hard rule fired, and the first reply within five attempts lacks `DECISION: Admit`. |
| Arbitration.SynthesisPrompt | backend/agents.py:208-237 | A reduced template: it keeps only the patient text and the three vote lines, and drops the instructions and rules A-C. The prompt contains the patient text. |
| Arbitration.PromptCarriesVotes | backend/agents.py:213-216 | The synthesis prompt contains each expert's vote line, with decision and reason. |
| Arbitration.CriticalTextIsAdmitted | backend/agents.py:193-198 | End to end: text with an active flag is critical and is admitted by the safety rule, whatever the ESI level and the model say. |
| Utils.NormalizeLabel | backend/utils.py:3-12 | Non-strings are Uncertain. Otherwise Discharge iff a discharge word occurs. Admit iff an admit word occurs and no discharge word does. Both hold on the unstripped lower-cased text. |
| Utils.DischargeBeatsAdmit | backend/utils.py:10-11 | A label naming both discharge and admit is Discharge. |
| Utils.NormalizeLabelIdempotent | backend/utils.py:8-12 | Normalising a normalised label's name gives that label again. |
| Utils.NormalizeGender | backend/utils.py:14-23 | Non-strings are Other. Otherwise Male iff the text holds "m", "zachar" or "זכר". Female iff it is not Male and holds "f", "nekeva" or "נקבה". |
| Utils.FemaleReadsAsMale | backend/utils.py:21-22 | "female" and "Female" come out Male; "F" comes out Female. |
| Utils.CategorizeComplaint | backend/utils.py:25-36 | The first group in list order whose keyword occurs in the lower-cased text wins. Each of the six results holds iff its group matches and every earlier group does not; Other iff no group matches. |
| Utils.PainIsCardiac | backend/utils.py:31 | Any complaint mentioning "pain" is Chest Pain/Cardiac. |
| Utils.Clean | backend/utils.py:43-47 | Missing or "MISSING" gives "N/A". The result never holds `"`, `\`, a line feed or a carriage return, and has no leading or trailing whitespace. A value with none of `_x000D_`, `"`, `\`, line feed or carriage return comes back stripped and otherwise unchanged. |
| Utils.FormatPatientData | backend/utils.py:38-57 | The block splits back into exactly its lines: a blank line, the seven field lines, and a line of indentation. |
| Utils.FormatHasSevenFieldLines | backend/utils.py:49-57 | Line `i + 1` of the block is `    <Label>: <cleaned value>` for the i-th of Age, Gender, Complaint, ESI, Vitals, Summary and Medical History, read from keys age, gender, maincause, ESI, Measurements, Cause_Remarks and Anamnesis. |

## Left out

- The HTTP layer (`main.py`), configuration, spreadsheet loading and the dashboard are not part of this model.
- Prompt wording is left out beyond the parts the parsers and properties depend on. This covers the expert agents' `consult` prompts and the medical rules A-C of the synthesis prompt. The model cannot check their clinical content.
- The one-second pause between synthesis attempts is timing only and is left out.
- Exceptions are modelled as the oracle's `Failure` outcome. A failure while reading or parsing a reply is treated the same way.
- Safety.Assessment: `str()` of a non-string input, and Python's truthiness of non-string values, are left out. Input is a string or `None`.
- Text.Lower: only ASCII letters are lower-cased; Python's full Unicode case mapping is left out. Hebrew text has no case, so the keyword tables are unaffected.
- Safety.IsWordChar: `\b` uses ASCII word characters. Python's Unicode-aware `\w` also counts other letters and digits.
- Consult.ReasonOf: `split("REASON:")[-1]` is modelled as the text after the last occurrence. The two agree because two occurrences of `REASON:` cannot overlap.
- Arbitration.Decide: the ESI score is an integer. Python's `esi_score == 1` also holds for the float `1.0`, but not for the string `"1"`.
- Utils.Clean: for a value that holds `_x000D_`, a double quote, a backslash or a line break, the contract states what the result lacks and that it is trimmed, not its exact text.
- Utils.Clean: pandas' notion of a missing value (`NaN`, `None`, `NaT`) is the `None` case. `str()` of a number is assumed already applied.
- Utils.CategorizeComplaint: takes the string `str(text)`. The conversion of non-strings is left to the caller.
- Concurrency of the four agent calls is left out. The supervisor only uses their results.
