/** Extraction of specialty labels from the advice text (app.py, the block after the
    model call): two scanning loops that collect matching labels, then de-duplication. */
module Extractor {
  import opened Text
  import opened Catalog
  import opened Seqs

  /** The labels of `labels`, in order, whose lower-case form occurs in `lowText`:
      what the first loop appends. */
  function LabelHits(labels: seq<string>, lowText: string): seq<string>
  {
    if labels == [] then []
    else
      var last := labels[|labels| - 1];
      LabelHits(labels[..|labels| - 1], lowText)
        + (if Contains(lowText, LowerStr(last)) then [last] else [])
  }

  /** The mapped labels of the rules, in order, whose lower-case keyword occurs in
      `lowText`: what the second loop appends. */
  function KeywordHits(rules: seq<KeywordRule>, lowText: string): seq<string>
  {
    if rules == [] then []
    else
      var last := rules[|rules| - 1];
      KeywordHits(rules[..|rules| - 1], lowText)
        + (if Contains(lowText, LowerStr(last.keyword)) then [last.specialty] else [])
  }

  /** `list(set(xs))`: the distinct elements of `xs`. Python leaves the order of the
      result unspecified; this keeps each element's first occurrence. */
  function Dedup(xs: seq<string>): (r: seq<string>)
    ensures NoDuplicates(r)
    ensures forall x :: x in r <==> x in xs
    ensures |r| <= |xs|
  {
    if xs == [] then []
    else
      var rest := Dedup(xs[..|xs| - 1]);
      var last := xs[|xs| - 1];
      assert xs == xs[..|xs| - 1] + [last];
      if last in rest then rest else rest + [last]
  }

  /** The specialties the extractor reports for `text`, as a pure function. */
  function Extraction(text: string): (r: seq<string>)
    ensures NoDuplicates(r)
  {
    var lowText := LowerStr(text);
    Dedup(LabelHits(Specialties, lowText) + KeywordHits(KeywordRules, lowText))
  }

  /** The independent statement of when `text` mentions specialty `s`: its label occurs
      in the text, or a keyword that maps to it does, both compared in lower case. */
  predicate Mentions(text: string, s: string) {
    || (s in Specialties && Contains(LowerStr(text), LowerStr(s)))
    || (exists r :: r in KeywordRules && r.specialty == s && Contains(LowerStr(text), LowerStr(r.keyword)))
  }

  /** The two loops, the de-duplication, and what the result means. */
  method ExtractSpecialties(text: string) returns (found: seq<string>)
    ensures found == Extraction(text)
    ensures NoDuplicates(found)
    ensures forall s :: s in found <==> Mentions(text, s)
    ensures forall s :: s in found ==> s in Specialties
  {
    var lowText := LowerStr(text);
    var mapped: seq<string> := [];
    for i := 0 to |Specialties|
      invariant mapped == LabelHits(Specialties[..i], lowText)
    {
      var s := Specialties[i];
      assert Specialties[..i + 1][..i] == Specialties[..i];
      if Contains(lowText, LowerStr(s)) {
        mapped := mapped + [s];
      }
    }
    assert Specialties[..|Specialties|] == Specialties;
    var labels := mapped;
    for j := 0 to |KeywordRules|
      invariant mapped == labels + KeywordHits(KeywordRules[..j], lowText)
    {
      var rule := KeywordRules[j];
      assert KeywordRules[..j + 1][..j] == KeywordRules[..j];
      if Contains(lowText, LowerStr(rule.keyword)) {
        mapped := mapped + [rule.specialty];
      }
    }
    assert KeywordRules[..|KeywordRules|] == KeywordRules;
    found := Dedup(mapped);
    forall s
      ensures s in found <==> Mentions(text, s)
    {
      ExtractionMembership(text, s);
    }
    ExtractionWithinCatalog(text);
  }

  /** A label is collected by the first loop exactly when it is listed and occurs in the text. */
  lemma {:induction false} LabelHitsMembership(labels: seq<string>, lowText: string, s: string)
    ensures s in LabelHits(labels, lowText) <==> s in labels && Contains(lowText, LowerStr(s))
    decreases |labels|
  {
    if labels != [] {
      var init := labels[..|labels| - 1];
      LabelHitsMembership(init, lowText, s);
      assert labels == init + [labels[|labels| - 1]];
    }
  }

  /** A label is collected by the second loop exactly when some rule maps a keyword
      occurring in the text to it. */
  lemma {:induction false} KeywordHitsMembership(rules: seq<KeywordRule>, lowText: string, s: string)
    ensures s in KeywordHits(rules, lowText)
        <==> exists r :: r in rules && r.specialty == s && Contains(lowText, LowerStr(r.keyword))
    decreases |rules|
  {
    if rules != [] {
      var init := rules[..|rules| - 1];
      var last := rules[|rules| - 1];
      KeywordHitsMembership(init, lowText, s);
      assert rules == init + [last];
      if s in KeywordHits(rules, lowText) && s !in KeywordHits(init, lowText) {
        assert last in rules && last.specialty == s && Contains(lowText, LowerStr(last.keyword));
      }
    }
  }

  /** A specialty is reported exactly when the text mentions it. */
  lemma ExtractionMembership(text: string, s: string)
    ensures s in Extraction(text) <==> Mentions(text, s)
  {
    var lowText := LowerStr(text);
    LabelHitsMembership(Specialties, lowText, s);
    KeywordHitsMembership(KeywordRules, lowText, s);
  }

  /** Every reported specialty is a canonical label. */
  lemma ExtractionWithinCatalog(text: string)
    ensures forall s :: s in Extraction(text) ==> s in Specialties
  {
    RulesTargetCatalog();
    forall s | s in Extraction(text)
      ensures s in Specialties
    {
      ExtractionMembership(text, s);
    }
  }

  /** Texts that differ only in the case of their letters yield the same specialties. */
  lemma ExtractionCaseInsensitive(a: string, b: string)
    requires CaseEquivalent(a, b)
    ensures Extraction(a) == Extraction(b)
  {
    CaseEquivalentIffSameLower(a, b);
  }

  /** An empty text yields no specialties. */
  lemma ExtractionOfEmptyText()
    ensures Extraction("") == []
  {
    EntriesNonEmpty();
    forall sub | sub != ""
      ensures !Contains("", sub)
    {
      ContainsInEmpty(sub);
    }
    var r := Extraction("");
    if r != [] {
      ExtractionMembership("", r[0]);
      assert false;
    }
  }

  /** A keyword found in the text always brings its specialty into the report. */
  lemma KeywordSuggestsSpecialty(text: string, r: KeywordRule)
    requires r in KeywordRules && Contains(LowerStr(text), LowerStr(r.keyword))
    ensures r.specialty in Extraction(text)
  {
    ExtractionMembership(text, r.specialty);
  }

  /** Where "heart" sits in the report "I have heart pain and chest tightness". */
  lemma HeartPainContainsHeart(report: string)
    requires report == "I have heart pain and chest tightness"
    ensures Contains(LowerStr(report), LowerStr("heart"))
  {
    assert report[7] == 'h' && report[8] == 'e' && report[9] == 'a' && report[10] == 'r' && report[11] == 't';
    assert OccursAt(report, "heart", 7);
    LowerStrKeepsOccurrence(report, "heart", 7);
  }

  /** A report that names a symptom word reaches the matching specialty through the keyword table. */
  lemma HeartPainSuggestsCardiologist(report: string)
    requires report == "I have heart pain and chest tightness"
    ensures "Cardiologist" in Extraction(report)
  {
    HeartPainContainsHeart(report);
    assert KeywordRules[0] == KeywordRule("heart", "Cardiologist");
    KeywordSuggestsSpecialty(report, KeywordRules[0]);
  }

  /** In a lower-case text without the letters c, f, n and p, the only canonical label
      that can occur is "Dermatologist": every other one has one of those letters. */
  lemma OnlyDermatologistLabelCanOccur(lowText: string)
    requires 'c' !in lowText && 'f' !in lowText && 'n' !in lowText && 'p' !in lowText
    ensures forall s :: s in Specialties && Contains(lowText, LowerStr(s)) ==> s == "Dermatologist"
  {
    MissingCharRulesOut(lowText, Specialties[0], 0);
    MissingCharRulesOut(lowText, Specialties[1], 0);
    MissingCharRulesOut(lowText, Specialties[3], 0);
    MissingCharRulesOut(lowText, Specialties[4], 2);
    MissingCharRulesOut(lowText, Specialties[5], 5);
    MissingCharRulesOut(lowText, Specialties[6], 1);
    MissingCharRulesOut(lowText, Specialties[7], 7);
    MissingCharRulesOut(lowText, Specialties[8], 0);
    MissingCharRulesOut(lowText, Specialties[9], 1);
    MissingCharRulesOut(lowText, Specialties[10], 0);
    MissingCharRulesOut(lowText, Specialties[11], 0);
    MissingCharRulesOut(lowText, Specialties[12], 0);
    MissingCharRulesOut(lowText, Specialties[13], 0);
  }

  /** In a lower-case text without the letters b, c, f, k, n, p and y, the only keyword
      that can occur is "heart". */
  lemma OnlyHeartKeywordCanOccur(lowText: string)
    requires 'b' !in lowText && 'c' !in lowText && 'f' !in lowText && 'k' !in lowText
    requires 'n' !in lowText && 'p' !in lowText && 'y' !in lowText
    ensures forall r :: r in KeywordRules && Contains(lowText, LowerStr(r.keyword)) ==> r.specialty == "Cardiologist"
  {
    MissingCharRulesOut(lowText, KeywordRules[1].keyword, 0);
    MissingCharRulesOut(lowText, KeywordRules[2].keyword, 1);
    MissingCharRulesOut(lowText, KeywordRules[3].keyword, 0);
    MissingCharRulesOut(lowText, KeywordRules[4].keyword, 2);
    MissingCharRulesOut(lowText, KeywordRules[5].keyword, 0);
    MissingCharRulesOut(lowText, KeywordRules[6].keyword, 4);
    MissingCharRulesOut(lowText, KeywordRules[7].keyword, 5);
    MissingCharRulesOut(lowText, KeywordRules[8].keyword, 2);
    MissingCharRulesOut(lowText, KeywordRules[9].keyword, 1);
    MissingCharRulesOut(lowText, KeywordRules[10].keyword, 0);
    MissingCharRulesOut(lowText, KeywordRules[11].keyword, 0);
    MissingCharRulesOut(lowText, KeywordRules[12].keyword, 0);
    MissingCharRulesOut(lowText, KeywordRules[13].keyword, 0);
  }

  /** A text whose lower-cased form contains "heart" and "dermatologist" mentions both
      Cardiologist (by keyword) and Dermatologist (by label). */
  lemma MentionsHeartAndDermatologist(text: string)
    requires Contains(LowerStr(text), LowerStr("heart")) && Contains(LowerStr(text), LowerStr("Dermatologist"))
    ensures Mentions(text, "Cardiologist") && Mentions(text, "Dermatologist")
  {
  }

  /** A text lacking, once lower-cased, the letters b, c, f, k, n, p and y mentions no
      specialty but Cardiologist and Dermatologist. */
  lemma MentionsAtMostHeartAndDermatologist(text: string)
    requires var t := LowerStr(text); 'b' !in t && 'c' !in t && 'f' !in t && 'k' !in t
    requires var t := LowerStr(text); 'n' !in t && 'p' !in t && 'y' !in t
    ensures forall s :: Mentions(text, s) ==> s == "Cardiologist" || s == "Dermatologist"
  {
    OnlyDermatologistLabelCanOccur(LowerStr(text));
    OnlyHeartKeywordCanOccur(LowerStr(text));
  }

  /** A text that contains "heart" and "Dermatologist" and, once lower-cased, none of
      the letters b, c, f, k, n, p and y yields exactly the two specialties. */
  lemma HeartAndDermatologistOnly(text: string)
    requires Contains(LowerStr(text), LowerStr("heart")) && Contains(LowerStr(text), LowerStr("Dermatologist"))
    requires var t := LowerStr(text); 'b' !in t && 'c' !in t && 'f' !in t && 'k' !in t
    requires var t := LowerStr(text); 'n' !in t && 'p' !in t && 'y' !in t
    ensures "Cardiologist" in Extraction(text) && "Dermatologist" in Extraction(text)
    ensures forall s :: s in Extraction(text) ==> s == "Cardiologist" || s == "Dermatologist"
  {
    MentionsHeartAndDermatologist(text);
    MentionsAtMostHeartAndDermatologist(text);
    forall s
      ensures s in Extraction(text) <==> Mentions(text, s)
    {
      ExtractionMembership(text, s);
    }
  }

  /** The report "heart, Dermatologist" lower-cased, and the two words found in it. */
  lemma HeartDermatologistLowered()
    ensures LowerStr("heart, Dermatologist") == "heart, dermatologist"
    ensures LowerStr("heart") == "heart" && LowerStr("Dermatologist") == "dermatologist"
  {
  }

  /** Where the two words sit in the lower-cased report. */
  lemma HeartDermatologistOccurrences()
    ensures OccursAt("heart, dermatologist", "heart", 0)
    ensures OccursAt("heart, dermatologist", "dermatologist", 7)
  {
  }

  /** The report "heart, Dermatologist", lower-cased, contains both words. */
  lemma HeartDermatologistContainsBoth(report: string)
    requires report == "heart, Dermatologist"
    ensures Contains(LowerStr(report), LowerStr("heart"))
    ensures Contains(LowerStr(report), LowerStr("Dermatologist"))
  {
    HeartDermatologistLowered();
    HeartDermatologistOccurrences();
  }

  /** The report "heart, Dermatologist", lower-cased, lacks the letters b, c, f, k, n, p and y. */
  lemma HeartDermatologistLacksLetters(report: string)
    requires report == "heart, Dermatologist"
    ensures var t := LowerStr(report); 'b' !in t && 'c' !in t && 'f' !in t && 'k' !in t
    ensures var t := LowerStr(report); 'n' !in t && 'p' !in t && 'y' !in t
  {
  }

  /** A report naming the keyword "heart" and the label "Dermatologist" yields exactly
      those two specialties. */
  lemma HeartAndDermatologist(report: string)
    requires report == "heart, Dermatologist"
    ensures "Cardiologist" in Extraction(report) && "Dermatologist" in Extraction(report)
    ensures forall s :: s in Extraction(report) ==> s == "Cardiologist" || s == "Dermatologist"
  {
    HeartDermatologistContainsBoth(report);
    HeartDermatologistLacksLetters(report);
    HeartAndDermatologistOnly(report);
  }

  /** Upper-case and lower-case spellings of a report yield the same specialties. */
  lemma UpperCaseReportSameAsLowerCase(upper: string, lower: string)
    requires upper == "HEART pain" && lower == "heart pain"
    ensures Extraction(upper) == Extraction(lower)
  {
    assert CaseEquivalent(upper, lower);
    ExtractionCaseInsensitive(upper, lower);
  }
}
