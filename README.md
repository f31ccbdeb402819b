# Suno genre collector — a Dafny model of its tag pipeline

The system collects music-descriptor tags ("genres") that a browser capture script
finds in a music service's tag-recommendation responses. A backend keeps every tag
once in a SQLite table. Each new tag is classified into one of thirteen fixed
categories by a language-model call, and the viewer lists the stored tags with
search, sort and a category filter.

The model covers four parts:

- **`Categorize`** (`categorize.dfy`, backend/categorize.js).
  - The 13-entry taxonomy and the numbered list shown to the classifier.
  - `normalizeCategory`: a 1-based index maps to its entry; a string mentioning "lyrical" in any case maps to "Language & Lyrical Context"; everything else maps to the fallback "Miscellaneous / Meta".
  - The code-fence stripper.
  - `categorizeTags`: no call for an empty batch; the normalised reply on success; every tag at the fallback on failure.
  - The classifier call and `JSON.parse` are one abstract input. It is a `ServiceReply` (the reply text, or a failure) plus a `parse` function that yields the reply object, or `None` for a syntax error.
- **`Server`** (`server.dfy`, backend/server.js).
  - The `tags` table is a class `TagStore` holding a sequence of `{ id, name, category }` rows, with unique names and increasing ids.
  - `POST /api/genres` is the method `Ingest`. It validates the body, keeps the incoming names that are not stored (in order, in-batch duplicates kept) and classifies them in one call. Its insert loop, `InsertBatch`, runs `INSERT ... ON CONFLICT(name) DO NOTHING` once per tag and counts the real inserts.
  - `GET /api/genres` is `Listing`, the rows ordered by category and then name.
  - The pure function `AfterIngest` states what an ingest leaves in the store. Lemmas about it give the ingestion guarantees.
- **`Viewer`** (`viewer.dfy`, frontend/src/App.jsx). The pure list logic:
  - the unique sorted category options;
  - the category toggle, the select-all toggle and its tri-state indicator;
  - the displayed list: a case-insensitive name search, a category filter, and the sort modes "az", "za" and "category".
- **`Capture`** (`injector.js`, modelled in `injector.dfy`). The extraction of names from `recommended_tags` and the condition under which the `SunoGenresFound` event is dispatched.

The supporting modules are:

- `Strings`: code-point order, ASCII lower-casing, `includes`, first-occurrence de-duplication, `join`/`split` and decimal numerals.
- `Sorting`: a generic insertion sort by a comparator, proved a sorting permutation.
- `TagOrder`: the tag record and the three comparators.
- `JsValues`: JavaScript values, truthiness, `typeof` and property access.

## Model

| member | source | states |
|---|---|---|
| Categorize.TaxonomyShape | backend/categorize.js:6-20 | the taxonomy has 13 distinct, non-empty entries; the last is the fallback "Miscellaneous / Meta" and the 11th is "Language & Lyrical Context" |
| Categorize.NumberedListLines | backend/categorize.js:30-32 | `NumberedList` (the `map`/`join` at lines 30-32): splitting the numbered list at newlines gives exactly 13 lines, and line i is the decimal numeral of i+1, ". " and the i-th category |
| Categorize.NumberedSplitsBack | backend/categorize.js:30-32 | numbering any non-empty list of newline-free names and joining with newlines can be split back into exactly those numbered lines |
| Categorize.NumberedLineRoundTrip | backend/categorize.js:30-32 | the number printed on line i, read back and normalised, selects the i-th category again, so the prompt's numbering and the normaliser agree |
| Categorize.NoNewlineInCategory | backend/categorize.js:6-20 | no category name contains a newline, so each one stays on its own line of the list |
| Categorize.NormalizeCategory | backend/categorize.js:61-83 | total on every raw value, always returns a taxonomy entry, and maps the number n with 1 <= n <= 13 to entry n-1 |
| Categorize.NormalizeString | backend/categorize.js:72-82 | a string whose lower-cased form contains "lyrical" gives "Language & Lyrical Context"; any other string gives the fallback |
| Categorize.NormalizeIgnoresCase | backend/categorize.js:73-75 | two strings that lower-case alike are normalised alike |
| Categorize.NormalizeOtherwiseFallsBack | backend/categorize.js:63-82 | null, undefined, booleans, arrays, objects and out-of-range numbers all give the fallback |
| Categorize.NormalizeNumbersBijective | backend/categorize.js:63-68 | distinct in-range numbers select distinct categories |
| Categorize.NormalizeExampleNumber | backend/categorize.js:63-68 | 7 gives "Mood / Emotion"; 0 and 14 give the fallback |
| Categorize.NormalizeLyricalAnywhere | backend/categorize.js:72-77 | a string whose lower-cased form has "lyrical" anywhere, with any text around it, gives "Language & Lyrical Context" |
| Categorize.RemoveFenceLeavesNone | backend/categorize.js:95-96 | `RemoveAll` (one `replace(/.../g, "")`, never longer than its input): after every "```" has been removed, no "```" is left, including none formed by joining the pieces |
| Categorize.StripFencesLeavesNoFence | backend/categorize.js:94-97 | `StripFences` (the chain at lines 94-97): the cleaned reply text contains no "```" |
| Categorize.StripFencesUnwraps | backend/categorize.js:94-98 | a reply fenced as "```json" + body + "```", with a backtick-free body, reaches `JSON.parse` as the trimmed body |
| Categorize.StripFencesOnPlainText | backend/categorize.js:94-97 | a reply without backticks is only trimmed |
| Categorize.TrimStart | backend/categorize.js:97 | the result is a suffix of the input; exactly the leading whitespace is dropped |
| Categorize.TrimEnd | backend/categorize.js:97 | the result is a prefix of the input; exactly the trailing whitespace is dropped |
| Categorize.ClassifiedCategory | backend/categorize.js:100-115 | the category a tag receives from a parsed reply, or from a failure, is always a taxonomy entry (own-property lookup; the inherited names are under Findings) |
| Categorize.NormalizeReply | backend/categorize.js:101-104 | the loop's map has exactly the reply's keys, each with its raw value normalised |
| Categorize.FallbackFor | backend/categorize.js:110-113 | the loop's map has exactly the input tags as keys, each with the fallback category |
| Categorize.CategorizeTags | backend/categorize.js:85-116 | no call and an empty map exactly for an empty batch; on a parsed reply, its keys with normalised values, so tags missing from the reply stay absent; on failure, every input tag at the fallback; every value is a taxonomy entry |
| Categorize.FailureGivesFallback | backend/categorize.js:108-115 | after a failed call every tag's category is the fallback |
| Server.NewTagsMembers | backend/server.js:79-82 | `NewTags` (the filter at lines 80-82): a name is kept exactly when it is incoming and not stored |
| Server.NewTagsKeepOrder | backend/server.js:80-82 | the filter distributes over concatenation, so kept names stay in input order and in-batch duplicates are kept |
| Server.NewTagsOnlyNeedCandidates | backend/server.js:74-82 | `TagStore.ExistingNames` (the `IN` query at lines 74-79): filtering by the stored names found among the candidates is the same as filtering by all stored names |
| Server.ClassifiedMapping | backend/server.js:104 | `CategoryFor` (`categorizedTags[tagName] \|\| fallback`, own properties only; the inherited ones are under Findings): the category read from the mapping, with the fallback for a missing key, is the classifier's category for every tag |
| Server.StoredCategoryAsWrittenAgrees | backend/server.js:104 | `StoredCategoryAsWritten` (the plain-object lookup as written): for every tag that is not a member of `Object.prototype`, it gives the same category as the own-property lookup |
| Server.InheritedNameGetsNoCategory | backend/server.js:104 | with the reply `{}`, the tag "toString" gets the inherited method as written and the fallback when corrected, and ingesting `["toString"]` into an empty store stores it with the fallback; "__proto__" gets the prototype even from the all-fallback object |
| Server.NewRecordsShape | backend/server.js:100-109 | the k-th appended row has the k-th name, the k-th id from the next id on, and that name's category |
| Server.NamesAppend | backend/server.js:96-109 | the names stored after the appended rows are the old names plus the batch's names |
| Server.IngestStoresEveryTag | backend/server.js:96-109 | `AfterIngest` (the rows the handler at lines 59-123 leaves): after an ingest every incoming name is stored |
| Server.IngestKeepsNamesUnique | backend/server.js:96-109 | an ingest keeps names unique |
| Server.IngestStoresTaxonomyCategories | backend/server.js:104 | with the own-property lookup `CategoryFor`: if every stored category is a taxonomy entry, this stays true after an ingest |
| Server.IngestAppendsClassifiedRows | backend/server.js:96-109 | earlier rows, categories included, are unchanged; the store grows by the number of distinct new names; the k-th added row has the k-th such name, the model's k-th id and the classifier's category for it |
| Server.ReingestFindsNothingNew | backend/server.js:74-89 | a second ingest of the same batch finds nothing new, so `Ingest` answers "all exist" with `classifierCalled` false and the store unchanged |
| Server.NewTagsAllStored | backend/server.js:84-89 | when every incoming name is stored, the new-tag list is empty |
| Server.InsertedCountIsDistinctNewNames | backend/server.js:100-109 | the number of inserted rows is the number of distinct incoming names that were not stored |
| Server.DuplicateInBatchInsertsOnce | backend/server.js:100-109 | `["x", "x"]` on an empty store keeps both entries as new but stores one row "x" |
| Server.PermutationKeepsNamesUnique | backend/server.js:31 | reordering rows keeps names unique |
| Server.TagStore.constructor | backend/server.js:28-34 | a new table is empty and valid, and the first id is 1 |
| Server.TagStore.Listing | backend/server.js:48-50 | the listing holds exactly the stored rows, strictly ordered by category and then name |
| Server.TagStore.InsertIfAbsent | backend/server.js:96-108 | reports 1 and appends a row with the next id when the name is absent; reports 0 and changes nothing when it is present; the table stays valid |
| Server.TagStore.InsertBatch | backend/server.js:100-109 | appends exactly the rows for the batch's distinct names in first-occurrence order, with the model's consecutive ids and the mapped category or the fallback; the count equals the growth |
| Server.TagStore.Ingest | backend/server.js:59-123 | the classifier is called (`classifierCalled`) exactly when the outcome is "added"; rejects a missing, non-array or empty body and leaves the store unchanged; answers "all exist" when nothing is new and leaves the store unchanged; otherwise leaves exactly `AfterIngest` and reports the number of distinct new names |
| Server.MappingAgrees | backend/server.js:92-104 | the category the handler looks up for each tag is the one the classifier's parsed reply gives it |
| Server.NewRecordsAgree | backend/server.js:104 | two mappings that give every tag the same category give the same appended rows |
| Viewer.CategoryColumn | frontend/src/App.jsx:48 | the i-th entry is the category of the i-th tag |
| Viewer.UniqueCategoriesSpec | frontend/src/App.jsx:47-50 | `UniqueCategories` (lines 47-50): the options are strictly ascending and free of duplicates, and are exactly the categories present among the tags |
| Viewer.WithoutMembers | frontend/src/App.jsx:56 | `Without` (the `filter` at line 56, never longer than its input): the result holds exactly the other categories, and is unchanged when the category was absent |
| Viewer.WithoutKeepsDistinct | frontend/src/App.jsx:56 | filtering keeps a duplicate-free selection duplicate-free |
| Viewer.ToggleFlips | frontend/src/App.jsx:53-59 | `ToggleCategory` (lines 53-59): toggling flips the category's membership, leaves every other category's membership alone, and appends an absent category at the end |
| Viewer.ToggleKeepsDistinct | frontend/src/App.jsx:53-59 | toggling keeps a duplicate-free selection duplicate-free |
| Viewer.ToggleTwiceRestores | frontend/src/App.jsx:53-59 | toggling an absent category twice restores the selection |
| Viewer.WithoutAppended | frontend/src/App.jsx:56-57 | removing a just-appended category gives back the earlier selection |
| Viewer.SameCountIffAllSelected | frontend/src/App.jsx:62-77 | for a duplicate-free selection of options, equal counts mean that every option is selected |
| Viewer.SelectAllToggleSpec | frontend/src/App.jsx:62-70 | `SelectAllToggle` (lines 62-70): select-all clears the selection when every option is selected, and otherwise selects all options |
| Viewer.SelectionStaysOfOptions | frontend/src/App.jsx:53-70 | toggling an option and select-all keep the selection a duplicate-free subset of the options |
| Viewer.SelectAllIndicatorSpec | frontend/src/App.jsx:73-77 | `SelectAllIndicator` (lines 73-77): "none" exactly when nothing is selected, "all" exactly when every option is, "some" exactly when some but not all are |
| Viewer.FilteredMembers | frontend/src/App.jsx:83-91 | `Filtered` (the `filter` at lines 83-91, never longer than its input): a tag passes exactly when its lower-cased name contains the lower-cased search term and the selection is empty or holds its category |
| Viewer.FilteredKeepsAll | frontend/src/App.jsx:83-91 | when every tag matches, the filter returns the list unchanged |
| Viewer.DisplayedIsPermutation | frontend/src/App.jsx:93-109 | every sort mode displays a permutation of the filtered tags |
| Viewer.DisplayedMembers | frontend/src/App.jsx:81-110 | `DisplayedTags` (lines 81-110): a tag is displayed exactly when it matches the search and the category filter |
| Viewer.EmptyQueryShowsAll | frontend/src/App.jsx:84-89 | an empty search with no category selected displays every tag |
| Viewer.DisplayedOrder | frontend/src/App.jsx:94-109 | "az" orders by ascending name, "za" by descending name, "category" by category and then name; any other mode keeps the filter order |
| Capture.ExtractMembers | injector.js:27-33 | `Extract` (the `map`/`filter(Boolean)` at lines 27-33 with `null` skipped, never longer than its input): a value is extracted exactly when an entry is that non-empty string, or an object whose `name` is that truthy value |
| Capture.ExtractTruthy | injector.js:33 | every extracted name is truthy |
| Capture.ExtractAppend | injector.js:27-33 | extraction works entry by entry, so kept names keep their relative order |
| Capture.CaptureDispatches | injector.js:22-44 | `CaptureResponse` (lines 22-44 with `null` skipped): an event is dispatched exactly when the body is an object whose `recommended_tags` is a non-empty array yielding some name; it carries the extracted names |
| Capture.ExtractAsWrittenWithoutNull | injector.js:27-33 | without `null` entries, the code as written extracts the same names as the corrected extraction |
| Capture.ExtractAsWrittenWithNull | injector.js:27-33 | `ExtractAsWritten` and `NameOfAsWritten` (lines 27-33 as written): as written, one `null` entry makes the whole extraction throw |
| Capture.CaptureAsWrittenComparison | injector.js:22-52 | `CaptureAsWritten` (lines 22-52 as written): as written, the outcome equals the corrected one when there is no `null` entry, and is the logged error when there is one |
| Capture.NullEntryDropsBatch | injector.js:30 | for `{"recommended_tags": [null, "rock"]}` the script as written dispatches nothing, while the corrected one dispatches `["rock"]` |
| Strings.Lower | frontend/src/App.jsx:84-86 | `toLowerCase` keeps the length and lower-cases each character |
| Strings.LowerIdempotent | backend/categorize.js:73 | lower-casing twice is lower-casing once |
| Strings.ContainsAt | frontend/src/App.jsx:86 | `includes` holds exactly when the needle occurs at some position |
| Strings.DedupSpec | frontend/src/App.jsx:48 | `[...new Set(xs)]` has the same members as `xs`, no duplicates, and is no longer |
| Strings.DedupCard | frontend/src/App.jsx:48 | the de-duplicated list is as long as the set of its members |
| Strings.SplitJoin | backend/categorize.js:30-32 | splitting a newline-joined list of newline-free lines gives the lines back |
| Strings.DecimalRoundTrip | backend/categorize.js:31 | the numeral printed for a number reads back as that number |
| Sorting.SortPermutes | frontend/src/App.jsx:96-106 | sorting permutes its input |
| Sorting.SortSorts | frontend/src/App.jsx:96-106 | sorting by a total preorder yields a list ordered by it |
| TagOrder.CategoryThenNameIsPreorder | backend/server.js:49 | ordering by category and then name is a total preorder |
| TagOrder.CategoryThenNameStrict | backend/server.js:49 | for rows with different names, at most one of two rows comes first under category-then-name |

## Left out

- The Gemini client and the prompt are out of the model, and so is what the model answers. The reply is an input: a text or a failure. `JSON.parse` with `for ... in` key enumeration is the abstract `parse` parameter. A thrown `SyntaxError` is its `None`.
- The order of the parsed reply's keys is left out. Keys named like members of `Object.prototype` are covered under Findings.
- Non-integer numbers are left out: numbers are integers. The range check at backend/categorize.js:63-66 does not test for integers, so a reply value of 2.5 would yield `undefined`.
- Express, CORS, HTTP status codes and response bodies are outcomes of the `IngestOutcome` datatype. The 500 paths (a failing database) are left out, as are database initialisation and `process.exit`.
- SQLite is a sequence of rows. The column default "Miscellaneous / Meta" is never used, because every insert supplies a category.
- Concurrent POST requests racing on the same names are left out. The model is sequential, and each insert-if-absent is one atomic step.
- `genres` elements that are not strings are left out: the body is `Missing`, `NotAnArray` or an array of strings.
- `localeCompare`, the string `<` of JavaScript, SQLite's collation and the default `Array.prototype.sort` are one code-point lexicographic order. Locale collation is left out. JavaScript's `<` and the default `sort` compare UTF-16 code units, which differ from code-point order when a character outside the Basic Multilingual Plane meets one in U+E000 to U+FFFF; that difference is left out.
- `toLowerCase` lowers ASCII letters only; Unicode case mapping is left out.
- App.jsx rendering, effects, the click-outside listener, the initial `fetch` and React state updates are left out.
- injector.js: the `fetch` replacement, the URL test, the response clone and `.json()` are left out. A body that is not JSON never reaches the modelled callback.
- popup.js, background.js and content.js are not part of this model.
- Server.TagStore.Valid: does not carry "every category is a taxonomy entry". Server.IngestStoresTaxonomyCategories proves that ingestion preserves it.
- Server.TagStore.Ingest: the new tags go to the classifier with their in-batch duplicates, and `ON CONFLICT` inserts each name once; the model does the same.
- Server.CategoryFor: reads only the properties `categorizeTags` assigned. The lookup as written also finds the members every plain object inherits (`toString`, `constructor`, ...), and never holds an assigned `__proto__`. That lookup is `StoredCategoryAsWritten` under Findings. What the SQLite driver does with such a non-string category (store its text or fail with a 500) is left out.
- Server.TagStore.InsertIfAbsent: hands out ids consecutively and advances the next id only on a real insert. SQLite's `AUTOINCREMENT` (backend/server.js:30) promises only that each new id exceeds every id used before, and may skip ids after an insert that hit the `UNIQUE` conflict. So the exact ids are this model's choice; `Valid` states what the table promises (unique, increasing, below the next id).
- Server.TagStore.InsertBatch, Server.NewRecordsShape, Server.IngestAppendsClassifiedRows: the consecutive ids they state are the model's choice, as for Server.TagStore.InsertIfAbsent.

## Findings

| source | as written | input that shows it | evidently intended | confidence | as-written member | corrected member |
|---|---|---|---|---|---|---|
| injector.js:30 | `typeof tag === "object" && tag.name` reads `.name` of `null`, because `typeof null` is "object". The `TypeError` rejects the promise, and the `.catch` at lines 47-52 only logs it. | `{"recommended_tags": [null, "rock"]}` | a `null` entry is dropped like any other entry without a name, and "rock" is dispatched | high that the throw happens; medium that it is unintended; not executed | Capture.CaptureAsWritten (shown by Capture.NullEntryDropsBatch) | Capture.CaptureResponse (properties in Capture.CaptureDispatches, Capture.ExtractMembers) |
| backend/server.js:104 | `categorizedTags[tagName]` reads a plain object built by assignment (backend/categorize.js:101-104, 110-113), so a tag named like an `Object.prototype` member that the reply leaves out gets the inherited, truthy method, and `|| "Miscellaneous / Meta"` passes it on as the category. Assigning to `__proto__` is ignored, so that tag always gets the prototype. | `genres: ["toString"]` on an empty store, with the classifier replying `{}` | every tag without an assigned category gets "Miscellaneous / Meta", so only taxonomy entries are stored | high that the lookup returns the inherited member; what the insert then does is not modelled; not executed | Server.StoredCategoryAsWritten (shown by Server.InheritedNameGetsNoCategory) | Server.CategoryFor and Categorize.ClassifiedCategory (properties in Server.ClassifiedMapping, Server.IngestStoresTaxonomyCategories) |
