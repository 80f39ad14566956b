# AI Health Assistant: specialty matching and doctor filtering

The AI Health Assistant is a single Streamlit script (`app.py`). A user types symptoms
and clicks "Get Doctors". The script sends a prompt to a hosted language model and shows
the advice it gets back. It then picks medical specialties out of that advice and lists
the doctors of those specialties from a CSV table. The advice is also appended to a
per-session history.

This project models the part of the script with logic in it:

- **Catalog** (`catalog.dfy`): the 14 canonical specialty labels (`csv_specialties`)
  and the keyword table (`keyword_map`), in the order the script iterates them.
- **Extractor** (`extractor.dfy`): the two scanning loops over the lower-cased advice
  text, then the de-duplication `list(set(...))`. `ExtractSpecialties` is the loop
  method. `Extraction` is the same computation as a function, and `Mentions` states
  independently when a specialty should be reported.
- **Directory** (`directory.dfy`): a doctor row (`Name`, `Specialty`, `Distance`, `lat`,
  `lng`) and the filter. The filter is the boolean mask `isin` when some specialty was
  extracted, and an empty table when none was.
- **App** (`app.dfy`): the session state's history list, created on the first run and
  appended to on each analysis. It also holds one run of the script (`RunScript`), which
  takes the button, the symptom text, the model's answer and the doctor table as inputs.
- **Text** and **Seqs** (`text.dfy`, `seqs.dfy`): lower-casing, substring search,
  "no duplicates" and "subsequence".

The doctor table is a sequence value, so the filter cannot change it. The filter's
result is stated as a subsequence of the table that keeps each wanted row as often as
the table has it, and no other row.

The script has no error handling around the model call or the CSV read, so the model
takes the advice text and the table as given inputs. The history grows without bound.
The extractor returns `list(set(...))`, a duplicate-free list, and the model returns a
duplicate-free sequence.

## Model

| member | source | states |
|---|---|---|
| `Text.Lower` | app.py:121 | case folding never yields an upper-case letter and leaves every other character as it is |
| `Text.LowerStr` | app.py:121 | folding A-Z to a-z character by character keeps the length and yields a string with no upper-case letter |
| `Text.LowerStrIdempotent` | app.py:126 | lower-casing an already lower-cased string changes nothing |
| `Text.CaseEquivalentIffSameLower` | app.py:121 | two strings lower-case to the same string exactly when they have the same length and, at each position, the same character or the upper- and lower-case forms of one ASCII letter |
| `Text.Contains` | app.py:121-126 | Python's `sub in s`; no contract of its own, its meaning is given by `Text.ContainsInEmpty` and `Text.LowerStrKeepsOccurrence` |
| `Text.ContainsInEmpty` | app.py:121 | the only substring of the empty text is the empty string |
| `Text.LowerStrKeepsOccurrence` | app.py:121 | if a label occurs in the text, its lower-cased form occurs in the lower-cased text at the same offset |
| `Catalog.RulesTargetCatalog` | app.py:64-86 | every value of the keyword table is one of the canonical labels |
| `Catalog.KeywordsDistinct` | app.py:71-86 | the keyword table has no repeated key, so it is a faithful dictionary |
| `Catalog.EntriesNonEmpty` | app.py:64-86 | no label and no keyword is empty |
| `Extractor.Dedup` | app.py:129 | the de-duplicated list has no repeats, holds exactly the elements of its input and is no longer than it |
| `Extractor.Extraction` | app.py:117-129 | the reported specialties contain no duplicates |
| `Extractor.ExtractSpecialties` | app.py:117-129 | the two loops plus de-duplication compute `Extraction`; the result has no duplicates, holds exactly the specialties the text `Mentions`, and only catalog labels |
| `Extractor.LabelHits` | app.py:120-122 | what the first loop appends; no contract of its own, its meaning is given by `Extractor.LabelHitsMembership` |
| `Extractor.KeywordHits` | app.py:125-127 | what the second loop appends; no contract of its own, its meaning is given by `Extractor.KeywordHitsMembership` |
| `Extractor.LabelHitsMembership` | app.py:120-122 | the first loop collects a label exactly when it is listed and its lower-cased form occurs in the lower-cased text |
| `Extractor.KeywordHitsMembership` | app.py:125-127 | the second loop collects a label exactly when some keyword mapping to it occurs, lower-cased, in the lower-cased text |
| `Extractor.ExtractionMembership` | app.py:117-129 | a specialty is reported exactly when its label occurs in the text or a keyword mapping to it does, both compared in lower case |
| `Extractor.ExtractionWithinCatalog` | app.py:64-86 | every reported specialty is one of the 14 canonical labels |
| `Extractor.ExtractionCaseInsensitive` | app.py:121-126 | two texts that differ only in letter case yield the same specialties |
| `Extractor.ExtractionOfEmptyText` | app.py:117-129 | an empty text yields no specialties |
| `Extractor.KeywordSuggestsSpecialty` | app.py:125-127 | a keyword found in the lower-cased text always puts its mapped specialty in the result |
| `Extractor.HeartPainSuggestsCardiologist` | app.py:72 | "I have heart pain and chest tightness" yields Cardiologist through the keyword "heart" |
| `Extractor.HeartAndDermatologist` | app.py:117-129 | the text "heart, Dermatologist" yields exactly Cardiologist and Dermatologist, each once |
| `Extractor.UpperCaseReportSameAsLowerCase` | app.py:121-126 | "HEART pain" and "heart pain" yield the same specialties |
| `Directory.FilterDoctors` | app.py:137-140 | every returned row comes from the table and has a wanted specialty |
| `Directory.SelectBySpecialty` | app.py:138 | the `isin` mask; no contract of its own, its meaning is given by `Directory.SelectMembership`, `Directory.SelectIsSubsequence` and `Directory.SelectCounts` |
| `Directory.SelectMembership` | app.py:138 | the mask keeps a row exactly when it is in the table and its specialty is wanted |
| `Directory.SelectIsSubsequence` | app.py:138 | the mask keeps the rows in their table order |
| `Directory.SelectCounts` | app.py:138 | the mask keeps each wanted row as often as the table has it, and no other row |
| `Directory.SelectEmptyIff` | app.py:138 | the mask keeps nothing exactly when no row has a wanted specialty |
| `Directory.FilterIsSelection` | app.py:137-140 | the explicit empty-table branch gives the same rows as the mask would |
| `Directory.FilterExact` | app.py:137-140 | the filter returns a subsequence of the table holding each wanted row as often as the table does and no other row |
| `Directory.FilterEmptyIff` | app.py:137-140 | the filter is empty exactly when no row has a wanted specialty, so an empty extraction gives no doctors whatever the table |
| `Directory.FilterKeepsCardiologistsInOrder` | app.py:138 | rows Cardiologist, Neurologist, Cardiologist filtered for Cardiologist give the first and the third row, in that order |
| `App.SessionState.constructor` | app.py:44 | a new session has no history key yet |
| `App.SessionState.EnsureHistory` | app.py:44-45 | the first run creates an empty history; later runs keep the existing one |
| `App.SessionState.Append` | app.py:112 | one entry is added at the end; the length grows by one and the earlier entries are unchanged |
| `App.RunScript` | app.py:91-140 | an analysis happens exactly when the button is pressed and the symptom is non-empty; it appends the advice to the history once and returns the extracted specialties and the filtered doctors; otherwise the history is unchanged |
| `App.AnalysisConsistent` | app.py:117-140 | an analysis lists catalog specialties without repeats and only doctors of catalog specialties, in table order |

## Left out

- `Text.Lower`: folds only the ASCII letters A-Z; Python's `str.lower()` folds all of Unicode. Every label and keyword is ASCII, so the matching of ASCII advice text is unaffected. A non-ASCII capital is where the two part: Python lower-cases the Kelvin sign K (U+212A) to `k`, so advice spelling "SKIN" with that sign reports Dermatologist in the script and nothing in the model.
- `Extractor.Dedup`: `list(set(...))` returns the distinct labels in an unspecified order. The model keeps first-occurrence order, which is one of the orders Python may produce. `Extractor.ExtractSpecialties` and `App.RunScript` fix the result to that exact sequence, an order the script does not promise; only membership and absence of repeats hold for the script whatever order `set` iteration gives.
- The language-model client and its call (`ChatGoogleGenerativeAI`, `model.invoke`): an external network service. Its answer is the `advice` input of `RunScript`.
- The prompt template: a literal with the symptom text interpolated. `RunScript` only checks that the symptom is non-empty.
- Loading the API key (`load_dotenv`, `os.getenv`): process environment I/O.
- Reading `doctors.csv` with `pd.read_csv`: file I/O. The table is a given sequence of `Doctor` rows, with distance and coordinates as reals.
- The empty table `pd.DataFrame()` has no columns, while an empty mask result keeps them. The model has no columns and treats both as an empty row sequence.
- All Streamlit widgets: the page setup, text input, button, spinner, subheaders, specialty list, doctor table, advice text area and history expanders. These are UI rendering.
- The pydeck map, including the mean of `lat` and `lng`: floating-point averaging plus a third-party renderer.
- The commented-out voice input: dead code that depends on microphone and speech I/O.
- Exceptions from the model call or the CSV read: the script does not handle them, and the model does not include them.
- A cap on the history: the script's session history grows without bound, and so does the model's `history`.
