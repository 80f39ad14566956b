/** The fixed specialty catalog of app.py: the canonical labels and the keyword table. */
module Catalog {

  /** One entry of `keyword_map`: an informal fragment and the canonical label it stands for. */
  datatype KeywordRule = KeywordRule(keyword: string, specialty: string)

  /** `csv_specialties`, in the order the first extraction loop visits them. */
  const Specialties: seq<string> := [
    "Cardiologist", "Neurologist", "Dermatologist", "Pediatrician",
    "General Physician", "Orthopedic", "ENT Specialist",
    "Gastroenterologist", "Psychiatrist", "Ophthalmologist",
    "Preventive Medicine", "Nutritionist", "Physiotherapist", "Family Physician"
  ]

  /** `keyword_map` as its items, in insertion order (the order Python iterates a dict in). */
  const KeywordRules: seq<KeywordRule> := [
    KeywordRule("heart", "Cardiologist"),
    KeywordRule("brain", "Neurologist"),
    KeywordRule("skin", "Dermatologist"),
    KeywordRule("child", "Pediatrician"),
    KeywordRule("general", "General Physician"),
    KeywordRule("bone", "Orthopedic"),
    KeywordRule("ear nose throat", "ENT Specialist"),
    KeywordRule("stomach", "Gastroenterologist"),
    KeywordRule("mental", "Psychiatrist"),
    KeywordRule("eye", "Ophthalmologist"),
    KeywordRule("preventive", "Preventive Medicine"),
    KeywordRule("nutrition", "Nutritionist"),
    KeywordRule("physio", "Physiotherapist"),
    KeywordRule("family", "Family Physician")
  ]

  /** Every value of the keyword table is one of the canonical labels. */
  lemma RulesTargetCatalog()
    ensures forall r :: r in KeywordRules ==> r.specialty in Specialties
  {
  }

  /** The keyword table is a dictionary: no keyword appears twice. */
  lemma KeywordsDistinct()
    ensures forall i, j :: 0 <= i < j < |KeywordRules| ==> KeywordRules[i].keyword != KeywordRules[j].keyword
  {
  }

  /** No canonical label and no keyword is empty, so none occurs in an empty text. */
  lemma EntriesNonEmpty()
    ensures forall s :: s in Specialties ==> |s| > 0
    ensures forall r :: r in KeywordRules ==> |r.keyword| > 0
  {
  }
}
