# Keyword classification engine of the finance dashboard

This project models, in Dafny, the core of a small personal-finance
dashboard (`main.py`). Bank transactions are sorted into user-defined
categories by keyword. The model covers four parts:

- **Category store.** The store is an insertion-ordered dict from category
  name to keyword list. It is modelled as `Entries = seq<(string, seq<string>)>`
  inside the class `Categories.CategoryStore`. A ghost field `persisted`
  holds what the last `save_categories()` wrote.
  - `add_keyword_to_category` is modelled twice: as the function
    `WithKeyword` and as the method `CategoryStore.AddKeyword`.
  - The add-category step is modelled as `WithCategory` and
    `CategoryStore.AddCategory`.
- **Classifier.** `categorize_transactions` is the in-place nested loop
  `Classifier.Categorize` over an `array<Transaction>`. It is proved equal to
  the function `Classify`, which gives every row `CategoryFor(store, details)`.
  The text primitives sit in module `Text`:
  - `lower()` on ASCII letters;
  - `strip()` over Python's whitespace set;
  - substring `in`.
- **Correction feedback loop.** The Apply Changes pass is
  `Corrections.ApplyChanges`. It is proved against the fold `LearnedAfter`,
  which applies `WithKeyword` to every row whose category the user changed.
- **Summary.** The group / sum / sort of the expense summary is
  `Summary.Summarize = SortByTotal(Groups(rows))`, over integer amounts.

Modules follow the program's structure: `Text`, then `Categories`, then
`Classifier`, then `Corrections`, then `Summary`. `Examples` holds a worked
instance.

Points where the code behaves differently from what a reader might expect,
modelled as the code does them:

- **Unknown category.** `add_keyword_to_category` strips the keyword first.
  It looks the category up only when the stripped keyword is non-empty:
  `keyword and ...` short-circuits. So a blank keyword returns false for any
  category name. A non-blank keyword for a name that is not a key raises
  `KeyError` at the lookup. The model requires the category to be a key only
  in that second case.
- **No special case for "Uncategorized".** A keyword can be added to
  "Uncategorized" like to any other category. The classifier never uses it,
  because it skips "Uncategorized" (see `Classifier.UncategorizedIffNoMatch`).
- **Stripping only.** The stored keyword is `keyword.strip()`, with no
  lower-casing. So duplicate detection is exact string equality after
  stripping. "Uber" and "uber" are two keywords, even though they match the
  same rows.

## Model

| member | source | states |
|---|---|---|
| Text.Lower | main.py:41-44 | `s.lower()` on ASCII letters; keeps the length. `Text.LowerAt` states its meaning position by position |
| Text.LowerAt | main.py:41 | `lower()` maps each character on its own: same length, and ASCII upper-case letters become lower-case |
| Text.TrimStart | main.py:66 | removes leading whitespace and never lengthens the string; `Text.TrimStartIsSuffix` states what it keeps |
| Text.TrimStartIsSuffix | main.py:66 | leading trim keeps a suffix; everything dropped is whitespace; the rest starts with a non-space |
| Text.TrimEnd | main.py:66 | removes trailing whitespace and never lengthens the string; `Text.TrimEndIsPrefix` states what it keeps |
| Text.TrimEndIsPrefix | main.py:66 | trailing trim keeps a prefix; everything dropped is whitespace; the rest ends with a non-space |
| Text.Strip | main.py:66 | `s.strip()` with no argument; never lengthens the string. `Text.StripCharacterized` states exactly what it returns |
| Text.StripCharacterized | main.py:66 | `strip()` returns a contiguous slice of the input. Everything cut on either side is whitespace, and the slice neither starts nor ends with whitespace |
| Text.StripIdempotent | main.py:66 | stripping twice is stripping once |
| Text.StripLowerCommute | main.py:41 | `s.lower().strip() == s.strip().lower()` |
| Text.Normalize | main.py:41-44 | `s.lower().strip()`, the form in which keywords and details are compared; never lengthens the string |
| Text.NormalizeStrip | main.py:41-44 | a keyword stored as `details.strip()` normalizes exactly as `details` does |
| Text.ContainsIff | main.py:46 | `pattern in text` holds iff the pattern occurs at some position of the text (the empty pattern always occurs) |
| Text.Contains | main.py:46 | `pattern in text` as a scan over the start positions of `text`; `Text.ContainsIff` proves it equal to "occurs at some position" |
| Categories.IndexOf | main.py:67 | the dict lookup finds an entry with the requested name |
| Categories.KeywordsOf | main.py:67 | `categories[name]`: the list at the position `Categories.IndexOf` finds |
| Categories.IndexOfFirst | main.py:67 | the lookup finds the first such entry |
| Categories.WithKeyword | main.py:65-71 | needs the category to be a key only when the stripped keyword is non-empty. The result is true iff the stripped keyword is non-empty and not yet in the category's list; a blank keyword gives false and an unchanged store for any category; the set of names is unchanged; on false the store is unchanged |
| Categories.WithKeywordEffect | main.py:65-71 | only the named category's list changes. It gains exactly `keyword.strip()` at its end when the result is true; every other entry and all positions stay as they were |
| Categories.WithKeywordOthersUntouched | main.py:67-68 | the keyword list of every other category is the same after the call |
| Categories.KeywordsAfterAdd | main.py:65-71 | the keyword list of any category after the call, as a function of the list before |
| Categories.WithKeywordWellFormed | main.py:67-68 | adding a keyword keeps names unique and, for a well-formed store, adds no duplicate keyword |
| Categories.WithCategory | main.py:99-102 | a category is added iff its name is non-empty and not yet a key; the names grow by exactly that name; otherwise the store is unchanged |
| Categories.WithCategoryEffect | main.py:99-102 | a new category goes last in iteration order with an empty list; every existing category keeps its position and its list |
| Categories.WithCategoryWellFormed | main.py:100-101 | adding a category keeps names unique and the store well formed |
| Categories.CategoryStore.Default | main.py:20-24 | with no categories file the store is `{"Uncategorized": []}` and nothing is persisted |
| Categories.CategoryStore.Loaded | main.py:17-19 | a loaded store equals the file contents, which are the persisted snapshot |
| Categories.CategoryStore.Save | main.py:27-29 | `save_categories()` leaves the store unchanged and the file then holds the whole store |
| Categories.CategoryStore.AddKeyword | main.py:65-71 | needs the category to be a key only when the stripped keyword is non-empty; the new store and result are those of `WithKeyword`; on true the file equals the store, on false nothing changes; keys stay unique and well-formedness is kept |
| Categories.CategoryStore.AddCategory | main.py:99-102 | the new store and result are those of `WithCategory`; on success the file equals the store; otherwise the file is untouched; keys stay unique and well-formedness is kept |
| Classifier.NormalizeAll | main.py:41 | the normalized keyword list has the same length, and each element is the normalized keyword at the same position |
| Classifier.AnyKeywordIn | main.py:46 | `any(keyword in details for keyword in lowered)`, scanning the keywords in order; `Classifier.AnyKeywordInIff` states its meaning |
| Classifier.AnyKeywordInIff | main.py:46 | the `any(...)` test holds iff some normalized keyword is a substring of the normalized details |
| Classifier.Eligible | main.py:37-38 | a category the loop does not skip: its name is not "Uncategorized" and its keyword list is non-empty |
| Classifier.Assigns | main.py:37-47 | visiting this category writes its name into a row with these details: it is eligible and one of its normalized keywords is in the normalized details |
| Classifier.CategoryFor | main.py:33-47 | the category a row with these details holds after the loop over the given categories; `Classifier.CategoryForCharacterized` states it |
| Classifier.Classify | main.py:32-49 | the whole frame after `categorize_transactions`: each row with its category replaced by `CategoryFor`; `ClassifyKeepsRows`, `ClassifyDependsOnlyOnDetails` and `ClassifyIdempotent` state its properties |
| Classifier.CategoryForCharacterized | main.py:33-47 | a row ends "Uncategorized" when no visited category matches it; otherwise it ends with the name of the last matching category in iteration order |
| Classifier.LastWriterWins | main.py:35-47 | if category `i` matches and no later category does, the row ends with category `i`'s name |
| Classifier.UncategorizedIffNoMatch | main.py:33-38 | a row ends "Uncategorized" iff no category assigns it. "Uncategorized" itself and categories with no keywords never assign |
| Classifier.CategoryForIsEligibleName | main.py:37-47 | every row ends either "Uncategorized" or with the name of a non-skipped category of the store |
| Classifier.CategoryForStep | main.py:43-47 | visiting one more category overwrites a row with its name exactly when it matches, and otherwise leaves the row unchanged |
| Classifier.ClassifyKeepsRows | main.py:33-47 | classification keeps the number of rows and their order, and changes no field other than the category |
| Classifier.ClassifyDependsOnlyOnDetails | main.py:33-44 | the assigned categories depend only on the details and the store, not on the categories held before |
| Classifier.ClassifyIdempotent | main.py:33-47 | classifying an already classified frame again changes nothing |
| Classifier.ResetCategories | main.py:33 | after the reset every row is itself with category "Uncategorized" |
| Classifier.VisitCategory | main.py:43-47 | one pass of the row loop for a visited category turns rows classified by the first `c` categories into rows classified by the first `c + 1` |
| Classifier.Categorize | main.py:32-49 | the array after `categorize_transactions` is exactly `Classify` of its old contents against the store |
| Corrections.Changed | main.py:129 | the edited category differs from the category the row holds, so the row is not skipped |
| Corrections.LearnedAfter | main.py:126-133 | learning over the edited rows keeps the set of category names. `Corrections.CorrectionsAreLearned` and `Corrections.LearnedKeywordsComeFromCorrections` state the two directions of what it learns |
| Corrections.LearnedAfterKeepsOrder | main.py:126-133 | learning keeps every category at its position |
| Corrections.LearnedAfterWellFormed | main.py:126-133 | learning keeps names unique and adds no duplicate keyword |
| Corrections.LearnedStep | main.py:128-133 | handling one row appends its stripped details to the chosen category exactly when the row changed category and `add_keyword_to_category` accepts it; otherwise every list is unchanged |
| Corrections.NoChangeLearnsNothing | main.py:128-130 | a pass in which no row changed category leaves the store as it was |
| Corrections.LearningOnlyAppends | main.py:133 | every category's old keyword list is a prefix of its list after the pass |
| Corrections.LearnedStepExtends | main.py:133 | one row's handling keeps every keyword list a prefix of the new one |
| Corrections.LearnedKeywordsComeFromCorrections | main.py:131-133 | every keyword the pass adds to a category is the stripped details of a row the user switched to that category |
| Corrections.CorrectionsAreLearned | main.py:128-133 | after the pass has handled a row the user switched to a new category with non-blank details, that category is a key and its list contains the row's stripped details, whether this row added them or an earlier row did |
| Corrections.PassReclassifies | main.py:125-133 | after the whole pass, take any row the user switched to a category other than "Uncategorized", with non-blank details. Every transaction whose normalized details contain that row's normalized details is classified under that category. The exception is a category later in iteration order that also matches |
| Corrections.LearnedKeywordClassifies | main.py:41-47 | once a row's details are learned under a category that is not "Uncategorized", every row whose normalized details contain them is classified under it. The exception is a later category that also matches |
| Corrections.ApplyChanges | main.py:125-138 | every row takes its edited category, whether or not a keyword was learned; the store is `LearnedAfter` over all rows; the file equals the store after the pass; well-formedness is kept |
| Summary.AddToGroup | main.py:146 | adding one row's amount keeps names distinct, adds its category to the names, and raises only that category's total, by the amount |
| Summary.Groups | main.py:146 | the groups have distinct names, exactly the categories of the rows, and each total is the sum of `Amount` over that category's rows |
| Summary.Insert | main.py:147 | insertion adds exactly one element (multiset) |
| Summary.InsertNames | main.py:147 | insertion adds exactly the new name and keeps names distinct when it is new |
| Summary.InsertSorted | main.py:147 | inserting into a list in summary order keeps it in summary order |
| Summary.BeforeTransitive | main.py:147 | the summary order is transitive |
| Summary.SortByTotal | main.py:147 | sorting is a permutation (multiset) |
| Summary.SortByTotalNames | main.py:147 | sorting keeps the set of names and their distinctness |
| Summary.BeforeDecides | main.py:147 | of two entries with different names exactly one comes first, so the summary order leaves no choice |
| Summary.SortByTotalSorted | main.py:147 | the sorted totals are in summary order |
| Summary.TotalOfEntry | main.py:146 | with distinct names, each entry carries its group's total |
| Summary.Summarize | main.py:146-147 | `category_totals`: the groups sorted by total; `Summary.SummaryCorrect` states what it holds |
| Summary.SummaryCorrect | main.py:146-147 | the summary has one entry per category of the rows. Each entry's total is the sum of `Amount` over that category. Totals never increase down the list, and equal totals are in name order |
| Examples.SummaryOrderExample | main.py:147 | totals Food 50, Transport 120 and Bills 120 are listed as Bills, Transport, Food |

## Left out

- The Streamlit user interface is not modelled: page setup, uploader, tabs, text inputs, buttons, the data editor, toasts, success messages, `st.rerun` and `time.sleep`. The model takes what the user typed or edited as parameters: the new category name, and the edited rows (`Corrections.EditedRow`).
- JSON load and save are not modelled: `os.path.exists`, `open`, `json.load` and `json.dump`. Persistence is the ghost field `CategoryStore.persisted`, set where `save_categories()` is called. A file holding duplicate JSON keys is not modelled either, so `CategoryStore.Loaded` requires unique names.
- CSV reading, column-name cleanup, date parsing and the float conversion of `Amount` are not modelled. `load_transactions` is not part of this model. Rows are given already parsed, with a `Date` record and an integer amount in minor units.
- The debit/credit split and the Plotly charts are not modelled. Each is a display or a thin pandas filter. The summary and the correction pass take the debit rows as given.
- Text.Lower: is ASCII-only lower-casing. Python's `str.lower()` also folds non-ASCII letters, which is not modelled.
- Summary.SortByTotal: breaks ties between equal totals by category name. pandas' default `sort_values` is not stable and promises no tie order, so the model picks one.
- Summary.Groups: lists groups in order of first appearance, while `groupby` sorts them by name. `Summary.SummaryCorrect` states only properties of the sorted result, which hold whatever the grouping order.
- Float summation of amounts is not modelled. Amounts are exact integers.
- Corrections.ApplyChanges: requires that every row switched to a new category with non-blank details names a key of the store. The editor's select box offers only keys. Blank details need no key, since `add_keyword_to_category` then returns before its lookup. A cleared cell (`None`) is not modelled, because categories are strings. In the source, such a row with non-blank details raises `KeyError` in `add_keyword_to_category`. With blank details it keeps `None` as its category, and `groupby` leaves it out of the summary. Cleared details (`None`) are not modelled either, because `EditedRow.details` is a string. In the source, a row switched to a new category with its details cleared raises `AttributeError` at `keyword.strip()` in `add_keyword_to_category`.
- Categories.CategoryStore.AddKeyword: requires the category to be a key when the stripped keyword is non-empty. There the source raises `KeyError` at the lookup, and that error path is not modelled.
