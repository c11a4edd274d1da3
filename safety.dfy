/** The deterministic critical-keyword scanner (`SafetyAgent` in
    backend/agents.py). Its two tables are set once when the agent is built
    and never change, so they are module constants here. */
module Safety {
  import opened Optional
  import opened Text
  import opened Decisions

  /** Critical flags, in priority order. */
  const CriticalFlags: seq<string> := [
    "cardiac arrest", "cpr", "resuscitation", "shock", "coma", "unconscious",
    "intubation", "massive bleed", "tamponade", "aortic dissection",
    "stemi", "st elevation", "vtach", "vfib", "ventricular fibrillation",
    "respiratory failure", "stridor", "oxygen < 85", "saturation < 85",
    "acute stroke", "large vessel occlusion", "lvo", "status epilepticus",
    "intracranial hemorrhage", "brain bleed", "subarachnoid",
    "ketoacidosis", "dka", "hhnk", "strangulated", "incarcerated", "peritonitis"
  ]

  /** Qualifiers that mark a flag mention as historical, suspected or stable. */
  const IgnoredContext: seq<string> := [
    "history of", "chronic", "old", "past", "prior", "stable", "resolved",
    "rule out", "r/o", "suspected", "possible", "potential", "question of"
  ]

  /** How many characters before a flag are searched for a qualifier. */
  const ContextWidth: nat := 35

  /** The dictionary `analyze` returns. */
  datatype SafetyResult = SafetyResult(decision: Decision, isCritical: bool, reason: Option<string>)

  /** The answer for empty or missing text. */
  const NoInput := SafetyResult(Discharge, false, None)

  /** The answer when no flag survives the scan. */
  const NoCriticalKeywords := SafetyResult(Discharge, false, Some("No critical keywords"))

  /** The answer when `flag` is found unqualified. */
  function Critical(flag: string): SafetyResult {
    SafetyResult(Admit, true, Some("CRITICAL: " + flag))
  }

  // ---------------------------------------------------------------------
  // Whole-word search: the regular expression `\b<flag>\b`.

  /** A regular-expression word character (ASCII letters, digits, `_`). */
  predicate IsWordChar(c: char) {
    'a' <= c <= 'z' || 'A' <= c <= 'Z' || '0' <= c <= '9' || c == '_'
  }

  /** Index `i` of `s` holds a word character; outside `s` there is none. */
  predicate WordAt(s: string, i: int) {
    0 <= i < |s| && IsWordChar(s[i])
  }

  /** `\b` matches at position `k`: a word character on exactly one side. */
  predicate IsBoundary(s: string, k: nat) {
    WordAt(s, k - 1) != WordAt(s, k)
  }

  /** `\b<f>\b` matches at index `i` of `s`. */
  predicate WholeWordAt(s: string, f: string, i: nat) {
    OccursAt(s, f, i) && IsBoundary(s, i) && IsBoundary(s, i + |f|)
  }

  /** The leftmost whole-word match of `f` at or after index `i`. */
  function WholeWordFrom(s: string, f: string, i: nat): (r: Option<nat>)
    ensures r.Some? ==> i <= r.value && WholeWordAt(s, f, r.value)
    ensures r.Some? ==> forall j: nat :: i <= j < r.value ==> !WholeWordAt(s, f, j)
    ensures r.None? ==> forall j: nat :: i <= j ==> !WholeWordAt(s, f, j)
    decreases |s| + 1 - i
  {
    if i + |f| > |s| then None
    else if WholeWordAt(s, f, i) then Some(i)
    else WholeWordFrom(s, f, i + 1)
  }

  /** `re.search(r'\b' + re.escape(f) + r'\b', s)`: the start of the
      leftmost whole-word match of `f`. */
  function Search(s: string, f: string): (r: Option<nat>)
    ensures r.Some? ==> WholeWordAt(s, f, r.value)
    ensures r.Some? ==> forall j: nat :: j < r.value ==> !WholeWordAt(s, f, j)
    ensures r.None? <==> forall j: nat :: !WholeWordAt(s, f, j)
  {
    WholeWordFrom(s, f, 0)
  }

  // ---------------------------------------------------------------------
  // Negation and the scan.

  /** The up-to-35 characters of `s` right before index `start`. */
  function Window(s: string, start: nat): (w: string)
    requires start <= |s|
    ensures |w| == if start < ContextWidth then start else ContextWidth
    ensures w == s[start - |w|..start]
  {
    s[(if start < ContextWidth then 0 else start - ContextWidth)..start]
  }

  /** Some qualifier of `IgnoredContext` occurs, as a plain substring, in
      `context`. */
  predicate Negated(context: string) {
    AnyQualifier(context, IgnoredContext)
  }

  /** Some entry of `qualifiers` occurs in `context`. */
  predicate AnyQualifier(context: string, qualifiers: seq<string>) {
    exists j :: 0 <= j < |qualifiers| && Contains(context, qualifiers[j])
  }

  /** Flag `f` is reported from `s`: it has a whole-word match, and the
      window before its FIRST match holds no qualifier. */
  predicate ActiveHit(s: string, f: string) {
    match Search(s, f)
    case Some(i) => !Negated(Window(s, i))
    case None => false
  }

  /** The scan over `flags[k..]` of already lower-cased text. The reported
      flag is the first active one from index `k` on. */
  function ScanFrom(s: string, flags: seq<string>, k: nat): (r: SafetyResult)
    requires k <= |flags|
    ensures r.isCritical <==> r.decision == Admit
    ensures !r.isCritical ==> r == NoCriticalKeywords
    ensures r.isCritical ==> exists j :: k <= j < |flags| && r == Critical(flags[j])
    decreases |flags| - k
  {
    if k == |flags| then NoCriticalKeywords
    else if ActiveHit(s, flags[k]) then Critical(flags[k])
    else ScanFrom(s, flags, k + 1)
  }

  /** A critical scan from `k` names an active flag, and every flag between
      `k` and it is inactive. */
  lemma {:induction false} ScanFromFirstActive(s: string, flags: seq<string>, k: nat)
    requires k <= |flags|
    ensures ScanFrom(s, flags, k).isCritical ==>
      exists j :: k <= j < |flags| && ScanFrom(s, flags, k) == Critical(flags[j])
        && ActiveHit(s, flags[j])
        && forall i :: k <= i < j ==> !ActiveHit(s, flags[i])
    decreases |flags| - k
  {
    if k < |flags| && !ActiveHit(s, flags[k]) {
      ScanFromFirstActive(s, flags, k + 1);
    }
  }

  /** What `SafetyAgent.analyze` returns for `input` (`None` is Python's
      `None`). */
  function Assessment(input: Option<string>): (r: SafetyResult)
    ensures r.isCritical <==> r.decision == Admit
    ensures input == None || input == Some("") ==> r == NoInput
    ensures input != None && input != Some("") && !r.isCritical ==> r == NoCriticalKeywords
  {
    if input.None? || input.value == "" then NoInput
    else ScanFrom(Lower(input.value), CriticalFlags, 0)
  }

  /** `SafetyAgent.analyze`: missing or empty text is answered at once;
      otherwise the lower-cased text is scanned. */
  method Analyze(input: Option<string>) returns (r: SafetyResult)
    ensures r == Assessment(input)
  {
    if input.None? || input.value == "" {
      return NoInput;
    }
    r := Scan(Lower(input.value), CriticalFlags);
  }

  /** The loop of `analyze`: walk the flags in priority order; for each,
      find its first whole-word match, look for a qualifier in the window
      before it, and return on the first flag that is not qualified. */
  method Scan(text: string, flags: seq<string>) returns (r: SafetyResult)
    ensures r == ScanFrom(text, flags, 0)
  {
    var k := 0;
    while k < |flags|
      invariant 0 <= k <= |flags|
      invariant ScanFrom(text, flags, k) == ScanFrom(text, flags, 0)
    {
      var flag := flags[k];
      var found := Search(text, flag);
      if found.Some? {
        var start := found.value;
        var context := Window(text, start);
        var isNegated := HasQualifier(context, IgnoredContext);
        if !isNegated {
          return Critical(flag);
        }
      }
      k := k + 1;
    }
    return NoCriticalKeywords;
  }

  /** The inner loop of `analyze`: is any qualifier a substring of the
      window? Stops at the first one found. */
  method HasQualifier(context: string, qualifiers: seq<string>) returns (isNegated: bool)
    ensures isNegated == AnyQualifier(context, qualifiers)
  {
    isNegated := false;
    var j := 0;
    while j < |qualifiers|
      invariant 0 <= j <= |qualifiers|
      invariant forall i :: 0 <= i < j ==> !Contains(context, qualifiers[i])
    {
      if Contains(context, qualifiers[j]) {
        isNegated := true;
        break;
      }
      j := j + 1;
    }
  }

  // ---------------------------------------------------------------------
  // Properties of the scan.

  /** If any flag at or after `k0` is active, the scan from `k0` reports. */
  lemma {:induction false} ScanFindsActive(s: string, flags: seq<string>, k0: nat, k: nat)
    requires k0 <= k < |flags|
    requires ActiveHit(s, flags[k])
    ensures ScanFrom(s, flags, k0).isCritical
    decreases k - k0
  {
    if k0 < k && !ActiveHit(s, flags[k0]) {
      ScanFindsActive(s, flags, k0 + 1, k);
    }
  }

  /** The first active flag from `k0` on is the one the scan reports. */
  lemma {:induction false} ScanReportsFirstActive(s: string, flags: seq<string>, k0: nat, k: nat)
    requires k0 <= k < |flags|
    requires ActiveHit(s, flags[k])
    requires forall i :: k0 <= i < k ==> !ActiveHit(s, flags[i])
    ensures ScanFrom(s, flags, k0) == Critical(flags[k])
    decreases k - k0
  {
    if k0 < k {
      ScanReportsFirstActive(s, flags, k0 + 1, k);
    }
  }

  /** The scan of any flag list reports exactly when some flag is active. */
  lemma ScanCriticalIff(s: string, flags: seq<string>)
    ensures ScanFrom(s, flags, 0).isCritical <==>
      exists k :: 0 <= k < |flags| && ActiveHit(s, flags[k])
  {
    ScanFromFirstActive(s, flags, 0);
    if k :| 0 <= k < |flags| && ActiveHit(s, flags[k]) {
      ScanFindsActive(s, flags, 0, k);
    }
  }

  /** Non-empty text is critical exactly when some flag is active in its
      lower-cased form; a critical answer names the first active flag in
      list order, with every earlier flag absent or qualified. */
  lemma CriticalIffActiveFlag(t: string)
    requires t != ""
    ensures Assessment(Some(t)).isCritical <==>
      exists k :: 0 <= k < |CriticalFlags| && ActiveHit(Lower(t), CriticalFlags[k])
    ensures Assessment(Some(t)).isCritical ==>
      exists k :: 0 <= k < |CriticalFlags|
        && Assessment(Some(t)) == Critical(CriticalFlags[k])
        && ActiveHit(Lower(t), CriticalFlags[k])
        && forall i :: 0 <= i < k ==> !ActiveHit(Lower(t), CriticalFlags[i])
  {
    ScanFromFirstActive(Lower(t), CriticalFlags, 0);
    ScanCriticalIff(Lower(t), CriticalFlags);
  }

  /** Priority does not depend on where matches sit in the text: the first
      active flag in list order wins over every later one. */
  lemma FirstActiveFlagWins(t: string, k: nat)
    requires t != ""
    requires k < |CriticalFlags| && ActiveHit(Lower(t), CriticalFlags[k])
    requires forall i :: 0 <= i < k ==> !ActiveHit(Lower(t), CriticalFlags[i])
    ensures Assessment(Some(t)) == Critical(CriticalFlags[k])
  {
    ScanReportsFirstActive(Lower(t), CriticalFlags, 0, k);
  }

  /** An active flag's meaning in terms of the text: a whole-word match with
      no earlier one, and no qualifier in the 35 characters before it. */
  lemma ActiveHitMeans(s: string, f: string, i: nat)
    requires WholeWordAt(s, f, i) && forall j: nat :: j < i ==> !WholeWordAt(s, f, j)
    ensures i <= |s|
    ensures ActiveHit(s, f) <==> !Negated(Window(s, i))
  {
  }

  /** Case does not matter: `analyze` sees the same text after lower-casing. */
  lemma CaseInsensitive(t: string)
    ensures Assessment(Some(t)) == Assessment(Some(Lower(t)))
  {
    LowerIdempotent(t);
  }

  /** The qualifier test is a raw substring test: "unstable" counts as
      "stable" and "cold" as "old", so an unstable or cold patient's flag is
      suppressed too. */
  lemma QualifierInsideLongerWord(context: string)
    requires Contains(context, "unstable") || Contains(context, "cold")
    ensures Negated(context)
  {
    if Contains(context, "unstable") {
      assert OccursAt("unstable", "stable", 2);
      ContainsTransitive(context, "unstable", "stable");
      assert IgnoredContext[5] == "stable";
    } else {
      assert OccursAt("cold", "old", 1);
      ContainsTransitive(context, "cold", "old");
      assert IgnoredContext[2] == "old";
    }
  }
}
