/** One run of the app.py script against a user's session: the history kept in the
    session state, and the pipeline that a "Get Doctors" click with a non-empty symptom
    triggers (advice text, then specialties, then doctors). */
module App {
  import opened Extractor
  import opened Directory
  import opened Seqs
  import Catalog

  datatype Option<T> = None | Some(value: T)

  /** What one analysis produces: the model's advice, the extracted specialties and the
      doctors that match them. */
  datatype Analysis = Analysis(advice: string, specialties: seq<string>, doctors: seq<Doctor>)

  /** The part of `st.session_state` the script uses: the key "history" and its list. */
  class SessionState {
    var hasHistory: bool
    var history: seq<string>

    /** A fresh session, before the script has run in it. */
    constructor ()
      ensures !hasHistory && history == []
    {
      hasHistory := false;
      history := [];
    }

    /** `if "history" not in st.session_state: st.session_state.history = []`: the first run
        of a session creates the empty history, later runs keep it. */
    method EnsureHistory()
      modifies this
      ensures hasHistory
      ensures history == if old(hasHistory) then old(history) else []
    {
      if !hasHistory {
        hasHistory := true;
        history := [];
      }
    }

    /** `st.session_state.history.append(response_text)`: one entry at the end, the earlier
        ones untouched. */
    method Append(advice: string)
      requires hasHistory
      modifies this`history
      ensures history == old(history) + [advice]
      ensures |history| == |old(history)| + 1 && history[..|old(history)|] == old(history)
    {
      history := history + [advice];
    }
  }

  /** One run of the script. `pressed` is the "Get Doctors" button, `symptom` the text input,
      `advice` the text the language model answers with (the model call itself is outside
      this model), and `doctors` the table read from doctors.csv. Without a click or with
      an empty symptom nothing is analysed and the history is left alone. */
  method RunScript(session: SessionState, pressed: bool, symptom: string, advice: string, doctors: seq<Doctor>)
    returns (outcome: Option<Analysis>)
    modifies session
    ensures session.hasHistory
    ensures outcome.Some? <==> pressed && symptom != ""
    ensures outcome.Some? ==>
      && outcome.value.advice == advice
      && outcome.value.specialties == Extraction(advice)
      && outcome.value.doctors == FilterDoctors(doctors, Extraction(advice))
    ensures session.history
         == (if old(session.hasHistory) then old(session.history) else [])
          + (if outcome.Some? then [advice] else [])
  {
    session.EnsureHistory();
    if pressed && symptom != "" {
      session.Append(advice);
      var specialties := ExtractSpecialties(advice);
      var filtered := FilterDoctors(doctors, specialties);
      outcome := Some(Analysis(advice, specialties, filtered));
    } else {
      outcome := None;
    }
  }

  /** An analysis only ever lists catalog specialties, each once, and only doctors of
      those specialties, in table order. */
  lemma AnalysisConsistent(advice: string, doctors: seq<Doctor>)
    ensures var specialties := Extraction(advice);
      && NoDuplicates(specialties)
      && (forall s :: s in specialties ==> s in Catalog.Specialties)
      && (forall d :: d in FilterDoctors(doctors, specialties) ==> d.specialty in Catalog.Specialties)
      && IsSubsequence(FilterDoctors(doctors, specialties), doctors)
  {
    ExtractionWithinCatalog(advice);
    FilterExact(doctors, Extraction(advice));
  }
}
