# hyperschedule-api: the course store and its diff engines, in Dafny

This project models the server side of Hyperschedule, the course
scheduler for the Claremont Colleges. The model covers six parts.

- **The versioned course store** of `hyperschedule/server.py`, and of its
  older copy `server.py`.
  - Every scrape of the Portal gives a course list.
  - `deduplicate_course_keys` gives suffix letters A, B, C, … in place to
    courses whose identity keys collide.
  - `index_courses` files the courses by key.
  - `compute_update` compares the new index with the previous one.
  - `update_course_data` keeps the newest 100 update records.
  - `compute_diff` replays the records newer than a client's timestamp
    into an incremental answer for the courses-since endpoint. The
    all-courses and malformed-courses endpoints serve the full catalogue.
  - `Store` is a class whose `Refresh` method is `update_course_data`. It
    keeps a ghost history of every index it has held. `Valid()` ties the
    fields to that history.
  - The main theorem is `CourseReplay.DiffSinceDelivers`. A client that
    holds the index current at its timestamp, and applies the answer,
    then holds the current index as far as the tracked attributes go.
- **The identity key and course helpers** of both `libcourse.py` files:
  - the attribute tables;
  - the `/`-joined index key and its reading back;
  - sort keys and the readable course code;
  - the checks of `parse_claremont_course_code`;
  - `format_term`.
- **The generic JSON diff** of `hyperschedule/api/diff.py`:
  - `compute_diff`, `apply_diff` and `merge_diffs`;
  - the `DiffManager` class with its logarithmic pruning;
  - the per-scraper, per-term `Database` of
    `hyperschedule/api/database.py`.
- **The Claremont helpers** of `hyperschedule/scrapers/claremont/shared.py`
  and the **Lingk description tables**. There are five entry points across
  `hyperschedule/scrapers/claremont/lingk.py`, `hyperschedule/liblingk.py`
  and `liblingk.py`. All five share one loop shape.
- **The v4 payload check** of `hyperschedule/api/validate.py`.
- **The checks of the Portal scraper** in `libportal.py`:
  - `unique_preserve_order`;
  - the course code, status, schedule-day and half-semester checks of
    `process_course`;
  - the split into courses and malformed courses in
    `get_latest_course_list`.

Regular expressions are not modelled. A match is an input: its groups, or
`None` when it fails. Where the code matches on data it reads itself, the
input is a matcher function.

JSON values are the recursive datatype `JsonValue.Json`. Integers are
unbounded, as in Python. Python's exceptions become `Result`/`Option`
error values.

The files:

| file | module | models |
|---|---|---|
| `util.dfy` | `Util` | `Option`/`Result`; `str.join`/`split`; `int()`/`str()`; zero padding; `" ".join(s.split())` |
| `json.dfy` | `JsonValue` | the JSON datatype |
| `course_key.dfy` | `CourseKey` | both `libcourse.py` files |
| `course_dedup.dfy` | `CourseDedup` | `deduplicate_course_keys` on an array |
| `course_index.dfy` | `CourseIndex` | `index_courses`, `compute_update` |
| `course_replay.dfy` | `CourseReplay` | `compute_diff` of the server, and what its answer means to a client |
| `course_store.dfy` | `CourseStore` | `course_data`, `update_course_data`, the handlers |
| `json_diff.dfy` | `JsonDiff` | `compute_diff`, `apply_diff`, `merge_diffs` of `diff.py` |
| `diff_manager.dfy` | `DiffManagers` | `DiffManager` |
| `database.dfy` | `TermDatabase` | `Database` |
| `claremont_shared.dfy` | `ClaremontShared` | `shared.py` |
| `lingk.dfy` | `LingkTables` | the three Lingk modules |
| `validate.dfy` | `Validate` | `validate.py` |
| `portal.dfy` | `Portal` | `libportal.py` |

## Model

| member | source | states |
|---|---|---|
| CourseKey.ToRecord | hyperschedule/libcourse.py:21-47 | The served record has exactly the attributes the course carries, with its values. |
| CourseKey.IndexKeyRoundTrip | hyperschedule/libcourse.py:59-77 | `course_from_index_key(course_to_index_key(c))` gives exactly c's five identity attributes when department, suffix and school contain no "/". |
| CourseKey.FromParts | hyperschedule/libcourse.py:66-77 | The loop over `zip(attrs, parts)` only produces attributes it was given. |
| CourseKey.IndexKeyInjective | hyperschedule/libcourse.py:59-64 | Two identities without "/" that share an index key are equal, so a key names one course slot. |
| CourseKey.ConvertTable | hyperschedule/libcourse.py:49-57 | The int-conversion table covers exactly the identity attributes. A key read back has an int only for courseNumber and section. |
| CourseKey.SortKeyOrder | hyperschedule/libcourse.py:79-84 | `<=` on course_sort_key is total and transitive. Its ties are exactly the equal sort keys. |
| CourseKey.SortKeyLessStrict | hyperschedule/libcourse.py:79-84 | `<` on course_sort_key is irreflexive, transitive, asymmetric and total on distinct keys. |
| CourseKey.StrLessTotal | hyperschedule/libcourse.py:79-84 | Python's `<` on distinct strings holds one way or the other. |
| CourseKey.FormatCourseDigits | hyperschedule/libcourse.py:86-96 | format_course pads the number to at least 3 digits and the section to at least 2. Both read back as the original numbers. |
| CourseKey.ParseClaremontSpec | hyperschedule/libcourse.py:100-153 | A parse succeeds exactly on well-formed groups. Number and present section are positive, the strings hold no "/", and a missing section stays None. Non-positive numbers and sections are refused with their own errors. |
| CourseKey.ParsedKeyRoundTrip | hyperschedule/libcourse.py:100-153 | A parsed code, with its section forced to any number, has an index key that reads back as its identity. |
| CourseKey.FormatTermReadBack | hyperschedule/libcourse.py:158-164 | format_term is the semester, then exactly the decimal digits of the year. |
| CourseDedup.DeduplicateCourseKeys | hyperschedule/server.py:55-79 | Succeeds exactly when no colliding group holds a suffixed course, and then leaves the relabelled list. On the ScrapeError it names the first suffixed course of the first clashing group, with the earlier groups already relabelled in place. |
| CourseDedup.GroupByKey | hyperschedule/server.py:68-70 | The grouping loop files every position under its key, with keys in first-occurrence order. |
| CourseDedup.FirstSuffixed | hyperschedule/server.py:72-77 | The suffix check finds the first member of a colliding group that already has a suffix. |
| CourseDedup.AssignLetters | hyperschedule/server.py:78-79 | The zip with the 26 capital letters relabels the first 26 members of a group in input order. |
| CourseDedup.DedupGroup | hyperschedule/server.py:71-79 | One colliding group is checked, then relabelled. |
| CourseDedup.DedupLetters | hyperschedule/server.py:78-79 | In a colliding group of 2 to 26 courses, the t-th member in input order gets letter t ('A' first). |
| CourseDedup.DedupSuffix | server.py:90-91 | Every relabelled member of a colliding group gets the letter of its place in the group. |
| CourseDedup.DedupSingleton | hyperschedule/server.py:72 | A course whose key is unique is left as it is. |
| CourseDedup.DedupSeparates | hyperschedule/server.py:55-79 | Two members of one colliding group, both among its first 26, end with different identities. |
| CourseDedup.RelabelOnlySuffix | hyperschedule/server.py:79 | Relabelling rewrites only courseCodeSuffix. |
| CourseDedup.Letter | hyperschedule/server.py:78 | The letters are 'A'..'Z', and distinct places get distinct letters (with LetterInjective). |
| CourseDedup.LetterInjective | hyperschedule/server.py:78 | Distinct places below 26 get distinct letters. |
| CourseIndex.KeyList | hyperschedule/server.py:85 | course_to_index_key of every course, in order. |
| CourseIndex.IndexByKeys | hyperschedule/server.py:83-90 | Filing succeeds exactly when no key repeats; each course is then filed under its key and nothing else is held. Otherwise it fails at the first course repeating an earlier key. |
| CourseIndex.IndexCourses | hyperschedule/server.py:81-90 | index_courses succeeds exactly when dedup raises nothing and the relabelled keys are distinct. The array then holds the relabelled courses, each filed under its own key. The dedup ScrapeError is raised exactly when some colliding group holds a suffixed course, and names such a course. The "more than one course matching" error comes after a complete relabelling, at the first course whose key repeats an earlier one. |
| CourseIndex.IndexOfIndexed | hyperschedule/server.py:89 | An index built from the real keys files every course under its own key. |
| CourseIndex.ComputeUpdate | hyperschedule/server.py:92-110 | The loops compute the update the specification function describes (see UpdateOfSpec). |
| CourseIndex.ChangedAttrs | hyperschedule/server.py:100-103 | The inner loop collects the tracked attributes on which two courses differ. |
| CourseIndex.DiffAttrsOrdered | hyperschedule/server.py:100-103 | The differing attributes come in COURSE_ATTRS order, without repeats. |
| CourseIndex.DiffAttrsSame | hyperschedule/server.py:100-103 | A course compared with itself differs in no attribute. |
| CourseIndex.UpdateOfSpec | hyperschedule/server.py:92-110 | added = new keys minus old keys, and removed = old keys minus new keys. A modified key is in both indexes and carries the non-empty list of exactly the tracked attributes that differ. The three parts are pairwise disjoint. |
| CourseIndex.UpdateOfSame | hyperschedule/server.py:92-110 | compute_update(I, I) is empty. |
| CourseIndex.UpdateOfEmpty | server.py:104-122 | The update is empty exactly when the key sets agree and every course agrees on every tracked attribute. |
| CourseReplay.MergeModifiedPass | hyperschedule/server.py:118-122 | The modified pass: no key may be currently removed (the assert), and its attributes join the key's set. |
| CourseReplay.MergeAddedPass | hyperschedule/server.py:123-129 | The added pass: a key may be neither modified nor added already. A removed key that comes back becomes modified in every tracked attribute. |
| CourseReplay.MergeRemovedPass | hyperschedule/server.py:130-136 | The removed pass: a key may not be removed already. It loses its modified entry and cancels its own addition, or else joins removed. |
| CourseReplay.ApplyUpdate | hyperschedule/server.py:118-136 | The three passes over one update record. |
| CourseReplay.Replay | hyperschedule/server.py:116-136 | The fold over the retained records, oldest first, skipping those not newer than since. |
| CourseReplay.ReplaySkip | server.py:128-129 | Records with timestamp <= since are skipped. |
| CourseReplay.StepReadded | hyperschedule/server.py:125-127 | A key removed and then re-added within the window ends up modified with the full COURSE_ATTRS set, and neither added nor removed. |
| CourseReplay.StepKeepsRemovedApart | hyperschedule/server.py:119-137 | removed stays disjoint from added and from modified through every record. |
| CourseReplay.AddedThenModified | hyperschedule/server.py:118-129 | added and modified can share a key: a course added and then changed is served both in full and as a partial entry. |
| CourseReplay.ChangedRecordSpec | hyperschedule/server.py:146-152 | A modified course is served as exactly COURSE_INDEX_ATTRS plus its changed attributes, with the current course's values. It fails exactly when an attribute is missing. |
| CourseReplay.ReadChanged | hyperschedule/server.py:148-151 | The loop over `itertools.chain(COURSE_INDEX_ATTRS, attrs)` builds that record. |
| CourseReplay.ReadAdded | hyperschedule/server.py:139-141 | Added keys map to the full current record. The lookup fails exactly when a key is missing from the index. |
| CourseReplay.ReadRemoved | hyperschedule/server.py:142-144 | Removed keys map to course_from_index_key(key). The lookup fails exactly when a key does not read back. |
| CourseReplay.ReadModified | hyperschedule/server.py:145-152 | Modified keys map to their partial records. The lookup fails exactly when a key or an attribute is missing. |
| CourseReplay.Materialise | hyperschedule/server.py:138-157 | The three lookup loops of compute_diff. |
| CourseReplay.ComputeDiff | hyperschedule/server.py:112-157 | compute_diff: the fold, then the lookups. |
| CourseReplay.StepSummarises | hyperschedule/server.py:116-137 | Folding in the update between two consecutive indexes never trips an assert. It carries the summary of the way from the client's index on to the newer index. |
| CourseReplay.ModifiedPassSummarises | hyperschedule/server.py:118-122 | The modified pass over a genuine update never fails and records every attribute changed since the base. |
| CourseReplay.AddedPassSummarises | hyperschedule/server.py:123-129 | The added pass over a genuine update never fails. A returning key becomes fully modified. |
| CourseReplay.RemovedPassSummarises | hyperschedule/server.py:130-137 | The removed pass over a genuine update never fails, and the summary reaches the next index. |
| CourseReplay.ReplayChain | hyperschedule/server.py:116-137 | Over a genuine history whose records are all newer than since, the fold never fails. It summarises the way from the first index to the last. |
| CourseReplay.IndexedReadable | hyperschedule/libcourse.py:59-77 | In an index of parsed courses, every key reads back as exactly the identity of the course filed under it. |
| CourseReplay.ApplyCourseDiff | hyperschedule/server.py:153-157 | Applying an answer removes the removed keys and adds the added ones. |
| CourseReplay.TrackedView | hyperschedule/server.py:101 | The tracked view keeps every course. |
| CourseReplay.MaterialisedDelivers | hyperschedule/server.py:138-157 | Materialising a summary succeeds. A client holding the base index that applies the answer holds the current index, as far as the tracked attributes go. |
| CourseReplay.DiffSinceDelivers | hyperschedule/server.py:112-157 | compute_diff answers correctly when the retained records cover the client's timestamp. Applying the answer to the index current at since gives the current index in every tracked attribute. |
| CourseStore.Window | hyperschedule/server.py:159-170 | The store keeps min(100, refreshes - 1) update records. |
| CourseStore.Truncate | hyperschedule/server.py:169-170 | The slice keeps the newest 100 records, in order. |
| CourseStore.WindowStep | server.py:178-182 | Appending the new update and truncating gives the window of the longer history. |
| CourseStore.WindowCovers | hyperschedule/server.py:321-323 | Under the corrected test, exactly the records after the client's scrape are newer than its timestamp. |
| CourseStore.WindowSound | hyperschedule/server.py:321-323 | The corrected test is sound: every admitted client is brought up to date in every tracked attribute. |
| CourseStore.AdmittedSound | hyperschedule/server.py:321-323 | The same for every scrape carrying the timestamp since. |
| CourseStore.AsWrittenMissesRemoval | hyperschedule/server.py:321-322 | The test as written admits a client whose removed course stays in its copy; the corrected test refuses that client (see Findings). |
| CourseStore.LongHistoryWindow | hyperschedule/server.py:168-170 | After 102 scrapes the window holds 100 records, starting at the third scrape. |
| CourseStore.RefreshConsistent | hyperschedule/server.py:161-176 | update_course_data keeps the store consistent with the history extended by the new scrape. |
| CourseStore.Store.constructor | hyperschedule/server.py:31-40 | `copy.deepcopy(INITIAL_COURSE_DATA)`: no courses and no history. |
| CourseStore.Store.Refresh | hyperschedule/server.py:161-176 | The first call sets initial_timestamp and appends nothing. Later calls append (timestamp, compute_update(old, new)) and keep the newest 100 records. current, index, timestamp and malformed are replaced, and the store stays consistent with its history. |
| CourseStore.Store.AllCourses | hyperschedule/server.py:287-307 | The catalogue, timestamp and malformed count are served exactly when current is a non-empty list; otherwise 503. |
| CourseStore.Store.CoursesSince | hyperschedule/server.py:309-343 | A timestamp that is not an integer gives 400. With no non-empty catalogue the answer is 503. An admitted since gets the incremental diff, which brings a client at since up to date; otherwise the full catalogue is sent. |
| CourseStore.Store.MalformedCourses | hyperschedule/server.py:350-363 | The malformed list is served exactly when a non-empty catalogue exists; otherwise 503. |
| CourseStore.Store.MalformedCoursesLegacy | server.py:355-363 | Without the availability test, the lookup fails before the first refresh (INITIAL_COURSE_DATA has no "malformed") and succeeds afterwards. |
| JsonDiff.ComputeDiffShape | hyperschedule/api/diff.py:13-25 | A diff of two dicts mentions a key exactly when it was added, changed or dropped. Dropped keys carry "$delete", added keys their new value, and changed ones the recursive diff. |
| JsonDiff.ComputeDiffSelf | hyperschedule/api/diff.py:13-22 | compute_diff(o, o) is {} for a dict. For other values it is the value itself. |
| JsonDiff.RoundTrip | hyperschedule/api/diff.py:8-45 | `apply_diff(o1, compute_diff(o1, o2)) == o2` exactly when the diff never carries a literal "$delete" value. |
| JsonDiff.ApplyPointwise | hyperschedule/api/diff.py:31-45 | apply_diff keeps unmentioned keys and patches mentioned ones. It returns a new value and leaves o untouched. |
| JsonDiff.ApplyNoOp | hyperschedule/api/diff.py:35-40 | Deleting an absent key is a no-op, and so is the empty diff. |
| JsonDiff.MergeUnchanged | hyperschedule/api/diff.py:53-64 | Merging after the empty diff gives the second diff. |
| JsonDiff.LiteralMerge | hyperschedule/api/diff.py:47-64 | Where no "$delete" meets a plain value, merging two dict diffs is applying the second to the first. |
| JsonDiff.MergeSound | hyperschedule/api/diff.py:47-64 | merge_diffs is equivalent to applying both diffs in sequence, on every value satisfying MergeAgrees. |
| JsonDiff.PatchMerge | hyperschedule/api/diff.py:47-64 | The same, for one key's entry. |
| JsonDiff.ChangedTwice | hyperschedule/tests/test_diff.py:9 | The merged diff takes {foo: a} and {foo: b} to {foo: c}. |
| JsonDiff.AddedThenChanged | hyperschedule/tests/test_diff.py:10 | The merged diff takes {} and {foo: b} to {foo: c}. |
| JsonDiff.DroppedThenReadded | hyperschedule/tests/test_diff.py:11 | The merged diff takes {foo: a} and {} to {foo: c}. |
| JsonDiff.AddedThenDropped | hyperschedule/tests/test_diff.py:12 | The merged diff takes {} and {foo: b} to {}. |
| JsonDiff.ObjectThenString | hyperschedule/tests/test_diff.py:13 | The merged diff takes {} and {foo: {bar: b}} to {foo: c}. |
| JsonDiff.StringThenObject | hyperschedule/tests/test_diff.py:14 | The merged diff takes {foo: {bar: a}} and {foo: b} to {foo: {bar: b}}. |
| JsonDiff.StaleKey | hyperschedule/api/diff.py:41-44 | A dict diff applied to a dict keeps keys the diff does not mention. |
| JsonDiff.DeleteThenObject | hyperschedule/api/diff.py:47-52 | Applying in turn reaches {x: {q: 1}}, but the merged diff of "drop x" and "x = {q: 1}" does not. |
| JsonDiff.ValueThenObject | hyperschedule/api/diff.py:47-52 | The same for a value replaced first by a string, then by a dict. |
| JsonDiff.AddedThenEmptied | hyperschedule/api/diff.py:47-52 | The same for a dict added, then emptied: the merge writes a literal "$delete". |
| JsonDiff.NoMergeExists | hyperschedule/api/diff.py:47-52 | No diff at all is equivalent to "drop x" followed by "x = {q: 1}" on every value, so merge_diffs cannot be exact in this format. |
| DiffManagers.KeptSpacing | hyperschedule/api/diff.py:103-115 | Counted from the newest, the kept entries are at least 1, 2, 4, … time units older than the new age. |
| DiffManagers.KeptSubsequence | hyperschedule/api/diff.py:108-115 | Pruning only drops entries, and keeps the rest in order. |
| DiffManagers.AppendLater | hyperschedule/api/diff.py:116-117 | Pushing an entry younger than all the others keeps the ages strictly increasing. |
| DiffManagers.PrunedLogarithmic | hyperschedule/api/diff.py:73-76 | n surviving entries span at least 2^(n-1) time units: memory is logarithmic in the age span. |
| DiffManagers.Prune | hyperschedule/api/diff.py:108-115 | The reversed pop loop with the doubling threshold computes the pruned list. |
| DiffManagers.NextEntries | hyperschedule/api/diff.py:116-122 | After an update, the newest entry is (previous age, compute_diff(old, new)), and every older surviving entry has that diff merged in. |
| DiffManagers.NewestAtMostSpec | hyperschedule/api/diff.py:147-149 | The lookup finds the newest entry whose age is at most since, or reports that none is. |
| DiffManagers.LatestDelivers | hyperschedule/api/diff.py:124-150 | A reader at the previous age gets compute_diff(old, new), which restores the new data unless it must carry a literal "$delete". |
| DiffManagers.NextDelivers | hyperschedule/api/diff.py:98-122 | An update at a later age keeps the docstring's promise for every retained entry: the entry, applied to the data current at its age, gives the present data. This holds whenever the new diff needs no literal "$delete" and each merge is sound on its base. |
| DiffManagers.NextAgesIncreasing | hyperschedule/api/diff.py:103-121 | Pruning, pushing and merging keep the entries in strictly increasing age order. |
| DiffManagers.RetainedDelivers | hyperschedule/api/diff.py:124-150 | A reader whose age is still held is answered incrementally. The diff, applied to the data it holds, gives the present data. |
| DiffManagers.DiffManager.constructor | hyperschedule/api/diff.py:93-94 | A new manager holds no data. |
| DiffManagers.DiffManager.FromState | hyperschedule/api/diff.py:95-96 | A manager built from a state holds that state. |
| DiffManagers.DiffManager.SetCurrentData | hyperschedule/api/diff.py:98-122 | The first call stores no diff. Later calls prune, push (previous age, {}) and merge the new diff into every entry. |
| DiffManagers.DiffManager.GetDiffToPresent | hyperschedule/api/diff.py:124-150 | With since given and no data: (Unset, Unset, Unset). since >= age gives ({}, False, age). Otherwise the newest diff no younger than since, or (data, True, age). |
| TermDatabase.LexTotal | hyperschedule/api/database.py:61-64 | Python's `<` on int lists is total on distinct lists. |
| TermDatabase.MaxIndexSpec | hyperschedule/api/database.py:61-64 | The most recent term has a maximal termSortKey, and every term before it a strictly smaller one: the first maximal term wins ties. |
| TermDatabase.PutSpec | hyperschedule/api/database.py:60 | `terms[s][code] = term` stores the term under its code and keeps the other codes' terms. Codes stay unique. |
| TermDatabase.FindCodes | hyperschedule/api/database.py:105 | A code is found exactly when some term carries it. |
| TermDatabase.Install | hyperschedule/api/database.py:54-64 | set_current_data keeps the dictionaries filled together: every known scraper has a manager for exactly its terms, and its most recent term is their max. Every other manager stays. |
| TermDatabase.Database.constructor | hyperschedule/api/database.py:34-45 | A new database is empty. |
| TermDatabase.Database.Register | hyperschedule/api/database.py:56-64 | The term's manager is the one already there, or a fresh empty one. The term is stored and the most recent term recomputed. |
| TermDatabase.Database.SetCurrentData | hyperschedule/api/database.py:47-65 | After the call, terms[s][code] is the term and its DiffManager has received (timestamp, courses). Every other manager keeps its state, and the invariant holds. |
| TermDatabase.Database.GetDiffManager | hyperschedule/api/database.py:67-75 | An unknown scraper gives "no such scraper" and an unknown term "no such term". Otherwise the result is the stored manager. |
| TermDatabase.Database.GetDiffToPresent | hyperschedule/api/database.py:77-106 | An unknown scraper gives 503 and "no such scraper" is unreachable. The requested term defaults to the most recent one, and an unknown one gives "no such term". A current term other than the requested one discards since, giving full data. |
| ClaremontShared.ParseCourseCodeSpec | hyperschedule/scrapers/claremont/shared.py:23-82 | A parse succeeds exactly on well-formed groups whose section presence matches with_section. The number and any section are then positive, the strings hold no "/", and the section is absent exactly when it is not wanted. |
| ClaremontShared.SectionPresenceError | hyperschedule/scrapers/claremont/shared.py:63-67 | A section whose presence disagrees with with_section gives "section missing" or "section unexpectedly present". |
| ClaremontShared.AgreesWithLibcourse | hyperschedule/scrapers/claremont/shared.py:23-82 | Asked for the section presence the code has, the parse is libcourse's. |
| ClaremontShared.CourseInfoAsString | hyperschedule/scrapers/claremont/shared.py:85-100 | Requires a section. The string is format_course of the same identity. |
| ClaremontShared.CourseInfoAsStringDigits | hyperschedule/scrapers/claremont/shared.py:85-100 | The number is padded to at least 3 digits and the section to at least 2, each reading back as parsed. |
| ClaremontShared.CourseInfoAsList | hyperschedule/scrapers/claremont/shared.py:103-121 | [department, number, suffix, school], plus the section exactly when with_section is set; a section is then required. |
| ClaremontShared.ExclusionKeyInjective | hyperschedule/scrapers/claremont/shared.py:103-121 | The section-less key tells courses apart exactly by department, number, suffix and school. |
| ClaremontShared.SortListMatchesSortKey | hyperschedule/scrapers/claremont/shared.py:103-121 | The list with a section holds libcourse's sort key entries, in order. |
| ClaremontShared.ParseTermCodeSpec | hyperschedule/scrapers/claremont/shared.py:124-139 | Exactly one of fall and spring is set, as the season says. The year is in 2000..2099 and is what the digits read. |
| ClaremontShared.TermKeyOrder | hyperschedule/scrapers/claremont/shared.py:142-147 | Python's `<` on the term_info_as_list key [year, spring], with a bool compared as 0 or 1, puts a later year later and fall before spring within a year. Equal lists are equal terms. |
| ClaremontShared.DisplayNameReadBack | hyperschedule/scrapers/claremont/shared.py:150-156 | "Fall Y" or "Spring Y": the season word, a space, and text reading back as the year. |
| LingkTables.ClassifySpec | hyperschedule/scrapers/claremont/lingk.py:131-146 | An entry is skipped exactly when it has no description or its code is "ABROAD   HM". Otherwise it is refused or gives its code's key with its description, unchanged. |
| LingkTables.Verdicts | hyperschedule/scrapers/claremont/lingk.py:131 | Each entry is judged by its own checks, in order. |
| LingkTables.ApiFoldSpec | hyperschedule/scrapers/claremont/lingk.py:126-153 | The table is built exactly when no entry fails a check and no two entries give one key different descriptions. It then holds every entry's description under its key, and nothing else. |
| LingkTables.ApiFoldStaysFailed | hyperschedule/scrapers/claremont/lingk.py:131-152 | The first raise ends the loop. |
| LingkTables.ApiDuplicates | hyperschedule/liblingk.py:110-113 | A differing duplicate raises. An identical duplicate leaves the table as it was. |
| LingkTables.SkipIrrelevant | hyperschedule/scrapers/claremont/lingk.py:132-144 | A skipped entry or row can be removed without changing the outcome of either loop. |
| LingkTables.ApiLoop | hyperschedule/scrapers/claremont/lingk.py:118-153 | The loop over entries builds the table ApiDescriptions describes. A non-map input or a missing "data" is refused first. |
| LingkTables.IndexOf | hyperschedule/scrapers/claremont/lingk.py:193-194 | `header.index(name)` is the first position holding name. |
| LingkTables.RowVerdicts | hyperschedule/scrapers/claremont/lingk.py:198-217 | Each row is judged by its own checks, in order. |
| LingkTables.CsvFoldSpec | hyperschedule/scrapers/claremont/lingk.py:196-217 | The CSV loop fails exactly on a malformed row. Otherwise each key holds the description of the row that wins it: the last one, or the longest with a later row winning ties. |
| LingkTables.CsvFoldStaysFailed | hyperschedule/scrapers/claremont/lingk.py:203-204 | A malformed row ends the loop. |
| LingkTables.CsvValuesCollapsed | hyperschedule/scrapers/claremont/lingk.py:213 | Every stored description has its whitespace runs collapsed to single spaces. |
| LingkTables.TableValues | hyperschedule/scrapers/claremont/lingk.py:217 | Every stored description is some row's description. |
| LingkTables.CsvFailIsMalformed | hyperschedule/scrapers/claremont/lingk.py:203-204 | The only error a row can raise is a malformed row. |
| LingkTables.CsvHeaderSpec | hyperschedule/scrapers/claremont/lingk.py:190-219 | The header must name both columns. A table that is returned has at least 100 keys. |
| LingkTables.CsvMalformedSpec | hyperschedule/liblingk.py:147-161 | Under a good header, the loop raises "malformed row" exactly when some row is neither blank nor of the header's width. |
| LingkTables.CsvFailsOnBadRow | hyperschedule/scrapers/claremont/lingk.py:198-204 | The row fold fails exactly on a row that is neither blank nor of the header's width. |
| LingkTables.CsvLoop | hyperschedule/liblingk.py:146-182 | The CSV loop and the size check build the table CsvDescriptions describes. |
| LingkTables.ClaremontKeySpec | hyperschedule/scrapers/claremont/lingk.py:145-146 | The key is [department, number, suffix, school] of a code that parsed without a section. |
| LingkTables.IndexKeyReadsBack | hyperschedule/liblingk.py:102-109 | The key is the index key of the parsed code with section 0, and it reads back as that identity. |
| LingkTables.IndexKeySame | liblingk.py:91-98 | Two codes share a key exactly when department, number, suffix and school agree. |
| LingkTables.ClaremontApiDescriptions | hyperschedule/scrapers/claremont/lingk.py:118-153 | The API table keyed by the section-less course list. |
| LingkTables.ClaremontCsvDescriptions | hyperschedule/scrapers/claremont/lingk.py:190-220 | The CSV table in which a later row overwrites an earlier one. |
| LingkTables.HyperscheduleApiDescriptions | hyperschedule/liblingk.py:81-114 | The API table keyed by the section-0 index key. It does not depend on lingk_term. |
| LingkTables.HyperscheduleDriveDescriptions | hyperschedule/liblingk.py:146-182 | The CSV table keeping the longer description, with the newer row winning ties. It does not depend on term. |
| LingkTables.LegacyDescriptions | liblingk.py:70-103 | The same API table as hyperschedule/liblingk.py. It does not depend on lingk_term. |
| Validate.FirstNonPrimitiveSpec | hyperschedule/api/validate.py:28-32 | The scan finds nothing exactly when every item is a bool, int or str. Otherwise it finds the first item that is not. |
| Validate.ScanSortKey | hyperschedule/api/validate.py:28-32 | The loop over termSortKey stops at the first non-primitive item. |
| Validate.CheckSpec | hyperschedule/api/validate.py:7-33 | A payload is accepted exactly when it is well formed. A missing "scraper", "term" or "termSortKey" is a KeyError, and every other refusal a UserError. A refused item is the first non-primitive one. |
| Validate.MissingTermFieldIsUserError | hyperschedule/api/validate.py:19-23 | A missing termCode or termName counts as a non-string: a UserError, not a KeyError. |
| Validate.CoursesIgnored | hyperschedule/api/validate.py:33 | Changing or removing "courses" does not change the outcome. |
| Portal.UniquePreserveOrder | libportal.py:30-38 | The loop builds a new list by appending each item not yet present. |
| Portal.UniqueSpec | libportal.py:30-38 | The result has no duplicates and holds exactly the items of the input. |
| Portal.UniqueOrder | libportal.py:34-38 | Items come out in the order of their first occurrences. |
| Portal.UniqueOfDistinct | libportal.py:30-38 | A list without duplicates is returned as it is. |
| Portal.UniqueIdempotent | libportal.py:30-38 | Applying it twice equals applying it once. |
| Portal.First | libportal.py:36 | The first occurrence of an item in a list. |
| Portal.SortBySpec | libportal.py:292 | The stable sort orders by the key and keeps every item exactly as often as it was there. |
| Portal.SortByStable | libportal.py:292 | The sort is stable: for every item p, the items the order ties with p come out in their input order. |
| Portal.UniqueSorted | libportal.py:292-293 | Deduplicating a sorted list keeps it sorted. |
| Portal.CheckCodeSpec | libportal.py:197-229 | An accepted code has a positive number and section read from its digits and no "/" in its strings. Its index key reads back as its identity. |
| Portal.CheckStatusSpec | libportal.py:248-251 | An accepted status is open, closed or reopened, in lower case. The check ignores letter case. |
| Portal.DayIndexOf | libportal.py:189 | DAYS_OF_WEEK.index gives the position in "MTWRFSU". |
| Portal.NormaliseDaysSpec | libportal.py:260-267 | The days are accepted exactly when there is at least one and all come from MTWRFSU. They come out each once, in Monday-to-Sunday order. |
| Portal.ScheduleSpec | libportal.py:252-291 | The schedule is refused exactly when some slot is. Every slot in it has normalised days and a non-empty collapsed location. |
| Portal.SlotResultGood | libportal.py:256-291 | A slot the loop keeps has normalised days, its times as given and a non-empty collapsed location. |
| Portal.FirstUnknownDaySpec | libportal.py:260-263 | The day check finds no unknown letter exactly when every letter is one of MTWRFSU. Any letter it reports is in the days and is not a day. |
| Portal.SlotLessOrder | libcourse.py:1-2 | The slot order, Python's `<` on the (days, startTime, endTime) keys, is asymmetric and transitive. |
| Portal.ScheduleKeyTies | libcourse.py:1-2 | Two slots are unordered both ways exactly when their schedule_sort_key tuples are equal. The location plays no part, so slots differing only there are ties. |
| Portal.CourseLessOrder | hyperschedule/libcourse.py:79-84 | The order of course_sort_key used by the final sort is asymmetric and transitive. |
| Portal.HalfSemesterWindows | libportal.py:303-319 | firstHalfSemester holds exactly strictly inside (Jan 1, Jan 31) or (Jul 15, Sep 15) of the year. secondHalfSemester holds strictly inside (Apr 1, May 31) or (Dec 1, Dec 31). |
| Portal.ProcessSpec | libportal.py:192-341 | A canonical course has a valid identity and a known status. Its schedule is canonical, sorted by schedule_sort_key and without repeats, and it lies in at least one half-semester window. |
| Portal.CanonicalSchedule | libportal.py:292-293 | Sorting and then deduplicating canonical slots gives canonical slots, each once, in order. |
| Portal.ProcessCourse | libportal.py:192-341 | process_course computes the outcome Process describes. |
| Portal.BuildSchedule | libportal.py:252-291 | The first refused slot refuses the course, and skipped "0:00 - 0:00 AM" slots add nothing. |
| Portal.ScheduleStaysFailed | libportal.py:257-258 | Once a slot is refused, the schedule stays refused. |
| Portal.Outcomes | libportal.py:358-362 | One outcome per raw course, in order. |
| Portal.LatestCourseList | libportal.py:356-364 | Every raw course lands in exactly one list. The courses are the accepted ones, sorted by course_sort_key, and the malformed list names the refused ones. |
| Portal.PartitionSpec | libportal.py:356-362 | The counts of the two lists add up to the raw courses. The courses are the accepted ones and the malformed list names the refused ones, in order. |
| Portal.CourseListSorted | libportal.py:363 | The returned courses are sorted by course_sort_key and hold each accepted course as often as it was accepted. |
| Util.SplitJoin | hyperschedule/libcourse.py:59-72 | Splitting on "/" undoes joining when no part contains "/". |
| Util.IntToStringRoundTrip | hyperschedule/libcourse.py:62-75 | `int(str(i)) == i`. |
| Util.NegativeRoundTrip | hyperschedule/server.py:312-319 | `int("-" + str(n)) == -n`: a negative timestamp parses as itself. |
| Util.FormatPaddedValue | hyperschedule/libcourse.py:88-96 | Zero padding keeps the value. |
| Util.CollapseSpaceSpec | hyperschedule/scrapers/claremont/lingk.py:213 | `" ".join(s.split())` strips the ends, turns every whitespace run into one space, and keeps every other character in order. |

## Left out

- Locking: `thread_lock` and `Database.lock` are not modelled. Each
  operation is atomic.
- Clocks: the wall clock is a parameter (the timestamp of a refresh, and
  of `Database.set_current_data`).
- The refresh driver: the scraper subprocess, timers and backoff of the
  server are not modelled. `Store.Refresh` takes what the driver passes to
  `update_course_data` (hyperschedule/server.py:197-198): the timestamp,
  the courses, `index_courses(courses)` and the malformed courses.
- CourseStore.Store.CoursesSince: its delivery ensures hold only for a
  history whose timestamps strictly increase (`Increasing`) and whose
  index keys read back (`Readable`). The clock and the refresh driver,
  which builds the index with `index_courses`, are trusted to provide
  both.
- HTTP: response writing and the JSON cache file are not modelled, and
  nor are the Dead Man's Snitch calls. Each handler returns what it would
  send.
- The v1 all-courses answer (server.py:284-296) is not modelled. Its
  "last updated" text comes from a date library and the clock.
- The `/experimental/course-data` and `/debug/*` routes are not modelled.
  They are test scaffolding with known defects.
- CourseStore.Store.CoursesSince: it uses the corrected window test
  (`Admits`), not the source's `since >= initial_timestamp`. The test as
  written is `AsWrittenAdmits` (see Findings).
- CourseStore.Store.Refresh: requires that every course carries every
  tracked attribute (`Tracked`). Otherwise `old_course[attr]` raises a
  KeyError, which the model does not reproduce.
- CourseIndex.ComputeUpdate: its result is sets and maps. The source
  builds lists in set-iteration order, which is not modelled.
- CourseReplay.ComputeDiff: its answer is maps keyed by index key. The
  source returns lists in set order.
- Python's `True == 1` in compares is not modelled. JSON booleans and
  integers are distinct values, so an attribute changed from `1` to
  `true` counts as changed in the model.
- JsonDiff.MergeSound: proved only under `MergeAgrees`, not for every
  pair of diffs, because the general claim of the `merge_diffs` docstring
  is false. `DeleteThenObject`, `ValueThenObject`, `AddedThenEmptied` and
  `StaleKey` exhibit it. `NoMergeExists` shows that no diff in this format
  could do better, so it is not a finding with a correction.
- DiffManagers.DiffManager.GetDiffToPresent: the promise of the class
  docstring (hyperschedule/api/diff.py:72-76, 126-131) is that a reader
  at any past age gets a diff that restores the present. This is not
  proved in general. The entries are built with `merge_diffs`, which is
  not always equivalent to applying its two diffs in turn
  (`DeleteThenObject`, `NoMergeExists`). It is proved in two cases: for
  the reader at the previous age (`LatestDelivers`), and for a reader
  whose own age is still retained, across any number of updates that meet
  `StepMergeable` (`NextDelivers`, `RetainedDelivers`). A reader whose
  age was pruned is served an older entry. That case is not proved.
- Serialisation of `DiffManager` state to JSON, and reading and writing
  the database on disk, are not modelled. `from_state` takes a state
  value.
- TermDatabase.Database.SetCurrentData: termSortKey is modelled as a list
  of integers. The mixed str/int/bool lists that `validate.check` allows
  would make Python's `max` raise TypeError on mixed types, and that is
  not modelled.
- Validate.Primitive: floats are not a JSON value in the model, so
  `isinstance(item, int)` on a float is not covered.
- Regular expressions are not modelled: `COURSE_REGEX`, `SCHEDULE_REGEX`
  and the term regex. Their matches are inputs. The `\s+` substitution
  of `format_raw_course` is modelled as `CollapseSpace`. `\s`,
  `str.split()` and `strip()` share one whitespace class, so
  `re.sub(r"\s+", " ", t).strip()` equals `" ".join(t.split())`.
- LingkTables.ApiLoop: a "data" field that is not a list is refused with
  DataNotList. The source would iterate it: a dict's keys, a string's
  characters.
- LingkTables.ApiLoop: a Python TypeError (an entry that is not a map, or
  a code that is not a string) is reported as a modelled error.
- LingkTables.CsvLoop: an empty CSV (Python's unpacking ValueError) is
  reported as NoHeader.
- The Lingk network code is not modelled: the HMAC headers, the retries,
  the CSV download and `get_course_descriptions` with its environment
  switch.
- liblingk.py calls `parse_claremont_course_code`, `course_to_index_key`
  and `format_course`, which the root `libcourse.py` does not define. The
  model uses those of `hyperschedule/libcourse.py`.
- Portal.Process: the course-name check is modelled, but not the faculty
  (libportal.py:233-238), seat-count (239-247) or credit (294-297)
  checks. The model therefore accepts courses that those checks refuse.
- Portal.Process: the start and end times are passed through as already
  formatted. Parsing them with `dateutil` is not modelled, and nor is
  adding AM/PM to the start time.
- Portal.Process: the begin and end dates are given as parsed dates.
- Portal.Lower: `str.lower()` is modelled on ASCII letters only.
- The browser scrape of `libportal.py` is not modelled (Selenium,
  BeautifulSoup, term selection). `get_latest_course_list` starts from
  the raw courses.

## Findings

| source | as written | input that shows it | evidently intended | confidence | as-written member | corrected member |
|---|---|---|---|---|---|---|
| hyperschedule/server.py:321-322 (also server.py:326-327) | The courses-since handler answers incrementally whenever `since >= initial_timestamp`. After more than 100 refreshes, the update records older than the window have been dropped, and their changes are lost. | 102 scrapes at times 0..101: the first holds one course, every later one none. A client at since = 0 is admitted, and the replay of the kept window returns an empty diff, so the removed course stays in the client's copy. | Answer incrementally only when no dropped record is newer than `since` (`since` at least the oldest kept record's timestamp, once records have been dropped), and otherwise send the full catalogue. | not executed | CourseStore.AsWrittenMissesRemoval | CourseStore.WindowSound |
