/** The text normalisers of backend/utils.py: decision labels, gender and
    complaint categories, and the cleaning and layout of a patient record
    for the prompts. A value that is not a Python `str` (or that pandas
    counts as missing) is `None` here. */
module Utils {
  import opened Optional
  import opened Text
  import opened Decisions

  // ---------------------------------------------------------------------
  // normalize_label

  /** `normalize_label`: strip, lower-case, then test for a discharge word
      before an admit word. */
  function NormalizeLabel(x: Option<string>): (r: Decision)
    ensures x.None? ==> r == Uncertain
    ensures x.Some? ==> (r == Discharge <==> MentionsDischarge(Lower(x.value)))
    ensures x.Some? ==> (r == Admit <==> !MentionsDischarge(Lower(x.value)) && MentionsAdmit(Lower(x.value)))
  {
    match x
    case None => Uncertain
    case Some(s) =>
      var t := Lower(Strip(s));
      NormalizedContains(s, "שחרור");
      NormalizedContains(s, "discharge");
      NormalizedContains(s, "אשפוז");
      NormalizedContains(s, "admit");
      if Contains(t, "שחרור") || Contains(t, "discharge") then Discharge
      else if Contains(t, "אשפוז") || Contains(t, "admit") then Admit
      else Uncertain
  }

  /** The text names a discharge, in Hebrew or English. */
  predicate MentionsDischarge(t: string) {
    Contains(t, "שחרור") || Contains(t, "discharge")
  }

  /** The text names an admission, in Hebrew or English. */
  predicate MentionsAdmit(t: string) {
    Contains(t, "אשפוז") || Contains(t, "admit")
  }

  /** Stripping before the search changes nothing for a keyword without
      whitespace at its ends. */
  lemma NormalizedContains(s: string, w: string)
    requires w != [] && !IsSpace(w[0]) && !IsSpace(w[|w| - 1])
    ensures Contains(Lower(Strip(s)), w) <==> Contains(Lower(s), w)
  {
    LowerStripCommute(s);
    StripKeepsContains(Lower(s), w);
  }

  /** Discharge takes precedence: a label naming both is a discharge. */
  lemma DischargeBeatsAdmit(s: string)
    requires Contains(Lower(s), "discharge") && Contains(Lower(s), "admit")
    ensures NormalizeLabel(Some(s)) == Discharge
  {
  }

  /** `normalize_label` is idempotent on its own outputs. */
  lemma NormalizeLabelIdempotent(x: Option<string>)
    ensures NormalizeLabel(Some(DecisionName(NormalizeLabel(x)))) == NormalizeLabel(x)
  {
    match NormalizeLabel(x)
    case Admit => AdmitNameIsAdmit();
    case Discharge => DischargeNameIsDischarge();
    case Uncertain => UncertainNameIsUncertain();
  }

  lemma AdmitNameIsAdmit()
    ensures NormalizeLabel(Some("Admit")) == Admit
  {
    var t := Lower("Admit");
    assert t == "admit";
    ContainsSelf("admit");
    MissingCharExcludes(t, "שחרור", 'ש');
    MissingCharExcludes(t, "discharge", 'c');
    assert !MentionsDischarge(t);
    assert MentionsAdmit(t);
  }

  lemma DischargeNameIsDischarge()
    ensures NormalizeLabel(Some("Discharge")) == Discharge
  {
    var t := Lower("Discharge");
    assert t == "discharge";
    ContainsSelf("discharge");
    assert MentionsDischarge(t);
  }

  lemma UncertainNameIsUncertain()
    ensures NormalizeLabel(Some("Uncertain")) == Uncertain
  {
    var t := Lower("Uncertain");
    assert t == "uncertain";
    MissingCharExcludes(t, "שחרור", 'ש');
    MissingCharExcludes(t, "discharge", 'd');
    MissingCharExcludes(t, "אשפוז", 'א');
    MissingCharExcludes(t, "admit", 'd');
    assert !MentionsDischarge(t);
    assert !MentionsAdmit(t);
  }

  // ---------------------------------------------------------------------
  // normalize_gender

  datatype Gender = Male | Female | Other

  /** `normalize_gender`: strip, lower-case, then the male words (among
      them the single letter "m") before the female words. */
  function NormalizeGender(x: Option<string>): (r: Gender)
    ensures x.None? ==> r == Gender.Other
    ensures x.Some? ==> (r == Male <==> MaleText(Lower(x.value)))
    ensures x.Some? ==> (r == Female <==> !MaleText(Lower(x.value)) && FemaleText(Lower(x.value)))
  {
    match x
    case None => Gender.Other
    case Some(s) =>
      var t := Lower(Strip(s));
      NormalizedContains(s, "zachar");
      NormalizedContains(s, "male");
      NormalizedContains(s, "m");
      NormalizedContains(s, "זכר");
      NormalizedContains(s, "nekeva");
      NormalizedContains(s, "female");
      NormalizedContains(s, "f");
      NormalizedContains(s, "נקבה");
      MaleWordsReduce(t);
      FemaleWordsReduce(t);
      MaleWordsReduce(Lower(s));
      FemaleWordsReduce(Lower(s));
      if Contains(t, "zachar") || Contains(t, "male") || Contains(t, "m") || Contains(t, "זכר") then Male
      else if Contains(t, "nekeva") || Contains(t, "female") || Contains(t, "f") || Contains(t, "נקבה") then Female
      else Gender.Other
  }

  /** What the male test amounts to: "male" is subsumed by "m". */
  predicate MaleText(t: string) {
    Contains(t, "m") || Contains(t, "zachar") || Contains(t, "זכר")
  }

  /** What the female test amounts to once the male test failed: "female"
      is subsumed by "f". */
  predicate FemaleText(t: string) {
    Contains(t, "f") || Contains(t, "nekeva") || Contains(t, "נקבה")
  }

  lemma MaleWordsReduce(t: string)
    ensures (Contains(t, "zachar") || Contains(t, "male") || Contains(t, "m") || Contains(t, "זכר")) <==> MaleText(t)
  {
    if Contains(t, "male") {
      assert OccursAt("male", "m", 0);
      ContainsTransitive(t, "male", "m");
    }
  }

  lemma FemaleWordsReduce(t: string)
    ensures (Contains(t, "nekeva") || Contains(t, "female") || Contains(t, "f") || Contains(t, "נקבה")) <==> FemaleText(t)
  {
    if Contains(t, "female") {
      assert OccursAt("female", "f", 0);
      ContainsTransitive(t, "female", "f");
    }
  }

  /** Any text with an "m" is male, so "female" itself is read as male and
      only "f", "nekeva" or "נקבה" without an "m" gives female. */
  lemma FemaleReadsAsMale()
    ensures NormalizeGender(Some("female")) == Male
    ensures NormalizeGender(Some("Female")) == Male
    ensures NormalizeGender(Some("F")) == Female
  {
    LowerFemale();
    var t := "female";
    assert OccursAt(t, "m", 2);
    assert MaleText(t);
    LetterFIsFemale();
  }

  lemma LowerFemale()
    ensures Lower("female") == "female" && Lower("Female") == "female"
  {
  }

  lemma LetterFIsFemale()
    ensures NormalizeGender(Some("F")) == Female
  {
    var t := Lower("F");
    assert t == "f";
    ContainsSelf(t);
    MissingCharExcludes(t, "m", 'm');
    MissingCharExcludes(t, "zachar", 'z');
    MissingCharExcludes(t, "זכר", 'ז');
    assert !MaleText(t);
    assert FemaleText(t);
  }

  // ---------------------------------------------------------------------
  // categorize_complaint

  datatype Category =
    | ChestPainCardiac | Respiratory | Abdominal | TraumaFall | NeurologicalSyncope | Other

  /** The category name the dashboard shows. */
  function CategoryName(c: Category): string {
    match c
    case ChestPainCardiac => "Chest Pain/Cardiac"
    case Respiratory => "Respiratory"
    case Abdominal => "Abdominal"
    case TraumaFall => "Trauma/Fall"
    case NeurologicalSyncope => "Neurological/Syncope"
    case Other => "Other"
  }

  predicate CardiacText(t: string) {
    Contains(t, "chest") || Contains(t, "heart") || Contains(t, "pain") || Contains(t, "cp")
    || Contains(t, "חזה") || Contains(t, "לב")
  }

  predicate RespiratoryText(t: string) {
    Contains(t, "breath") || Contains(t, "dyspnea") || Contains(t, "short")
    || Contains(t, "קוצר") || Contains(t, "נשימה")
  }

  predicate AbdominalText(t: string) {
    Contains(t, "abdo") || Contains(t, "belly") || Contains(t, "stomach") || Contains(t, "batan")
    || Contains(t, "בטן")
  }

  predicate TraumaText(t: string) {
    Contains(t, "fall") || Contains(t, "trauma") || Contains(t, "hit") || Contains(t, "mva")
    || Contains(t, "accident") || Contains(t, "נפילה") || Contains(t, "חבלה") || Contains(t, "תאונה")
  }

  predicate NeurologicalText(t: string) {
    Contains(t, "weak") || Contains(t, "dizzy") || Contains(t, "syncope") || Contains(t, "faint")
    || Contains(t, "חולשה") || Contains(t, "סחרחורת")
  }

  /** `categorize_complaint` over `str(text)`: the first group, in the
      listed order, one of whose keywords occurs in the lower-cased text. */
  function CategorizeComplaint(text: string): (r: Category)
    ensures r == ChestPainCardiac <==> CardiacText(Lower(text))
    ensures r == Respiratory <==> !CardiacText(Lower(text)) && RespiratoryText(Lower(text))
    ensures r == Abdominal <==>
      !CardiacText(Lower(text)) && !RespiratoryText(Lower(text)) && AbdominalText(Lower(text))
    ensures r == TraumaFall <==>
      !CardiacText(Lower(text)) && !RespiratoryText(Lower(text)) && !AbdominalText(Lower(text))
      && TraumaText(Lower(text))
    ensures r == NeurologicalSyncope <==>
      !CardiacText(Lower(text)) && !RespiratoryText(Lower(text)) && !AbdominalText(Lower(text))
      && !TraumaText(Lower(text)) && NeurologicalText(Lower(text))
    ensures r == Category.Other <==>
      !CardiacText(Lower(text)) && !RespiratoryText(Lower(text)) && !AbdominalText(Lower(text))
      && !TraumaText(Lower(text)) && !NeurologicalText(Lower(text))
  {
    var t := Lower(text);
    if CardiacText(t) then ChestPainCardiac
    else if RespiratoryText(t) then Respiratory
    else if AbdominalText(t) then Abdominal
    else if TraumaText(t) then TraumaFall
    else if NeurologicalText(t) then NeurologicalSyncope
    else Category.Other
  }

  /** Rule order is observable: any complaint mentioning "pain" is cardiac,
      abdominal pain and a painful fall included. */
  lemma PainIsCardiac(text: string)
    requires Contains(Lower(text), "pain")
    ensures CategorizeComplaint(text) == ChestPainCardiac
  {
  }

  // ---------------------------------------------------------------------
  // format_patient_data and its inner clean

  /** `clean`: a missing value or "MISSING" becomes "N/A"; otherwise Excel
      carriage-return artefacts become spaces, double quotes single ones,
      backslashes and carriage returns go, line feeds become spaces, and
      the result is stripped. */
  function Clean(value: Option<string>): (r: string)
    ensures value.None? || value == Some("MISSING") ==> r == "N/A"
    ensures '"' !in r && '\\' !in r && '\n' !in r && '\r' !in r
    ensures r == [] || (!IsSpace(r[0]) && !IsSpace(r[|r| - 1]))
    ensures value.Some? && value.value != "MISSING" && PlainText(value.value) ==> r == Strip(value.value)
  {
    if value.None? || value.value == "MISSING" then "N/A"
    else
      PlainTextUnchanged(value.value);
      var s0 := Replace(value.value, "_x000D_", " ");
      var s1 := Replace(s0, "\"", "'");
      var s2 := Replace(s1, "\\", "");
      var s3 := Replace(s2, "\n", " ");
      var s4 := Replace(s3, "\r", "");
      SanitizedHasNoSpecials(s0);
      Strip(s4)
  }

  /** Text with no Excel artefact, double quote, backslash or line break:
      the replacements of `clean` leave it alone. */
  predicate PlainText(s: string) {
    !Contains(s, "_x000D_") && '"' !in s && '\\' !in s && '\n' !in s && '\r' !in s
  }

  /** On plain text every replacement of `clean` is the identity. */
  lemma PlainTextUnchanged(s: string)
    ensures PlainText(s) ==> Replace(Replace(Replace(Replace(Replace(s, "_x000D_", " "), "\"", "'"), "\\", ""), "\n", " "), "\r", "") == s
  {
    if PlainText(s) {
      ReplaceUnchanged(s, "_x000D_", " ");
      MissingCharExcludes(s, "\"", '"');
      ReplaceUnchanged(s, "\"", "'");
      MissingCharExcludes(s, "\\", '\\');
      ReplaceUnchanged(s, "\\", "");
      MissingCharExcludes(s, "\n", '\n');
      ReplaceUnchanged(s, "\n", " ");
      MissingCharExcludes(s, "\r", '\r');
      ReplaceUnchanged(s, "\r", "");
    }
  }

  /** The four replacements leave none of the four special characters. */
  lemma SanitizedHasNoSpecials(s0: string)
    ensures var s4 := Replace(Replace(Replace(Replace(s0, "\"", "'"), "\\", ""), "\n", " "), "\r", "");
      '"' !in Strip(s4) && '\\' !in Strip(s4) && '\n' !in Strip(s4) && '\r' !in Strip(s4)
  {
    var s1 := Replace(s0, "\"", "'");
    var s2 := Replace(s1, "\\", "");
    var s3 := Replace(s2, "\n", " ");
    var s4 := Replace(s3, "\r", "");
    ReplaceRemoves(s0, '"', "'");
    ReplaceRemoves(s1, '\\', "");
    ReplaceKeepsAbsent(s1, "\\", "", '"');
    ReplaceRemoves(s2, '\n', " ");
    ReplaceKeepsAbsent(s2, "\n", " ", '"');
    ReplaceKeepsAbsent(s2, "\n", " ", '\\');
    ReplaceRemoves(s3, '\r', "");
    ReplaceKeepsAbsent(s3, "\r", "", '"');
    ReplaceKeepsAbsent(s3, "\r", "", '\\');
    ReplaceKeepsAbsent(s3, "\r", "", '\n');
    StripBounds(s4);
  }

  /** `patient_dict.get(key)`: `None` when the key is absent. */
  function Field(record: map<string, Option<string>>, key: string): Option<string> {
    if key in record then record[key] else None
  }

  /** The labels of the seven fields, in the order they are printed. */
  const FieldLabels: seq<string> := ["Age", "Gender", "Complaint", "ESI", "Vitals", "Summary", "Medical History"]

  /** The record keys the seven fields are read from. */
  const FieldKeys: seq<string> := ["age", "gender", "maincause", "ESI", "Measurements", "Cause_Remarks", "Anamnesis"]

  /** One indented `Label: value` line of the prompt block. */
  function FieldLine(heading: string, value: string): string {
    "    " + heading + ": " + value
  }

  /** The seven field lines, in order. */
  function FieldLines(record: map<string, Option<string>>): (lines: seq<string>)
    ensures |lines| == 7
  {
    seq(7, i requires 0 <= i < 7 => FieldLine(FieldLabels[i], Clean(Field(record, FieldKeys[i]))))
  }

  /** `format_patient_data`: the triple-quoted template is a blank first
      line, the seven field lines, and a last line of indentation, joined
      by line breaks. */
  function FormatPatientData(record: map<string, Option<string>>): (block: string)
    ensures SplitLines(block) == [""] + FieldLines(record) + ["    "]
  {
    var lines := [""] + FieldLines(record) + ["    "];
    LinesHaveNoBreak(record);
    SplitJoinLines(lines);
    JoinLines(lines)
  }

  /** No field label holds a line break. */
  lemma LabelsHaveNoBreak()
    ensures forall i :: 0 <= i < |FieldLabels| ==> '\n' !in FieldLabels[i]
  {
  }

  /** A field line breaks no line when its label and value do not. */
  lemma FieldLineHasNoBreak(heading: string, value: string)
    requires '\n' !in heading && '\n' !in value
    ensures '\n' !in FieldLine(heading, value)
  {
  }

  /** No line of the block holds a line break: the labels have none and a
      cleaned value never does. */
  lemma LinesHaveNoBreak(record: map<string, Option<string>>)
    ensures var lines := [""] + FieldLines(record) + ["    "];
      forall i :: 0 <= i < |lines| ==> '\n' !in lines[i]
  {
    var fields := FieldLines(record);
    var lines := [""] + fields + ["    "];
    LabelsHaveNoBreak();
    forall i | 0 <= i < 7
      ensures '\n' !in fields[i]
    {
      FieldLineHasNoBreak(FieldLabels[i], Clean(Field(record, FieldKeys[i])));
    }
    forall i | 0 <= i < |lines|
      ensures '\n' !in lines[i]
    {
      if 1 <= i <= 7 {
        assert lines[i] == fields[i - 1];
      }
    }
  }

  /** Line `i + 1` of the formatted block is the `i`-th field, labelled, with
      its cleaned value: the seven fields sit in the fixed order, each on
      its own line. */
  lemma FormatHasSevenFieldLines(record: map<string, Option<string>>)
    ensures forall i :: 0 <= i < 7 ==>
      SplitLines(FormatPatientData(record))[i + 1]
        == "    " + FieldLabels[i] + ": " + Clean(Field(record, FieldKeys[i]))
  {
    var lines := [""] + FieldLines(record) + ["    "];
    assert forall i :: 0 <= i < 7 ==> lines[i + 1] == FieldLines(record)[i];
  }
}
