# airbase record reconciliation, modelled in Dafny

airbase is a Python client for the Airtable REST service. Its core is a
record-reconciliation engine. It takes the records a caller wants in a table
(`{id?, fields}` dicts) and the records the table already holds. It then
decides, record by record, what to post, what to update and what to delete
or flag.

- Matching: a record's key is a tuple of its truthy primary-key values.
  Existing records are indexed by that key, and a later duplicate wins.
- Diffing: `filter_record` keeps only the fields whose value changed.
- Merging: `combine_records` joins lists, strings and numbers.
- Override protection: `override_record` copies fields the user locked on the
  service back into the candidate, so they are never sent.
- Linking: `link_tables` and the older `link_record` turn comma-separated
  text into record ids from another table.
- Orchestration: `Cruder._at_crud`, in a synchronous and an asyncio flavour,
  and the older `crud_table` drive the above. They issue post, update and
  delete calls against the table.

Beside the engine, the model covers:

- batching into chunks of ten (`chunkify`, `_multiple`);
- the retry loop of the HTTP layer;
- query-string building;
- the older archive helpers: a filter-formula builder, field discovery,
  value hints, push/pull field mapping and link-data composition;
- the field-type acceptance table.

The project is organised as follows:

- `values.dfy` (`Values`): Python values and their semantics.
  - `Truthy` is Python truthiness.
  - `PyEq` is `==`, with `True == 1`.
  - `Hashable` and `Canon` give dict-key identity.
  - Records are `Record(id, fields)`.
  - An exception caught by the source is an `Option` or `Attempt` result.
- `text.dfy` (`Text`) and `show.dfy` (`Show`): the string builtins the
  source uses (`split`, `join`, `strip`, ASCII case, `sorted`, `str`,
  `repr`). `str` and `repr` quote and escape strings as Python does for
  ASCII text, switching to double quotes when only a single quote occurs;
  a dict is shown with its keys in ascending order.
- `remote.dfy` (`Remote`): the remote table as a class whose only state is
  the trace of calls made on it. "Deleted exactly once" is a statement about
  that trace.
- `tools.dfy` (`Tools`): `airbase/tools.py`. The functions that mutate their
  argument take a `Tools.Rec` object, whose `fields` they update in place.
  `airbase/archive/tools.py:145-302` holds identical copies of
  `combine_records`, `filter_record`, `override_record`, `compare_records`,
  `graft_fields` and `is_record`; those copies are covered by the same
  members.
- `cruder_sync.dfy` (`CruderSync`) and `cruder_async.dfy` (`CruderAsync`):
  `_fmt_col_names` and `_at_crud`. In the asyncio version,
  `_at_sort_record` appends to three lists held by a `CruderAsync.Buckets`
  object.
- `archive_tools.dfy`, `archive_link.dfy`, `archive_replace.dfy` and
  `archive_crud.dfy`: the named helpers of `airbase/archive/tools.py`.
- `decorators.dfy`, `airtable.dfy`, `session.dfy` and `validations.dfy`: the
  remaining helpers.

Every loop of the source is a method with a loop. The method is
proved equal to a specification function over the prefix its loop has
consumed. The properties the source promises are lemmas about those
functions.

## Model

| member | source | states |
|---|---|---|
| `Tools.IsRecord` | airbase/tools.py:11-22 | A string is a record reference iff it has 17 characters and starts with "rec". A non-empty list is tested by its first element, and anything else is not a reference. |
| `Tools.HashableKeyUndefinedIff` | airbase/tools.py:25-33 | The matching key is None exactly when every primary-key field is missing or falsy. |
| `Tools.KeyPartsComeFromFields` | airbase/tools.py:27-32 | Every part of the key is truthy and is some primary-key field's value, with a list turned into a tuple. |
| `Tools.KeyPartsEmptyIff` | airbase/tools.py:27-33 | No key part is collected iff no primary-key field is truthy. Falsy parts are skipped, not fatal. |
| `Tools.PrimaryKeysAsHashable` | airbase/tools.py:25-33 | The loop returns the key the specification defines. |
| `Tools.GraftFields` | airbase/tools.py:36-48 | The record is updated in place and the same object is returned. The new fields, or the exception that stops the loop, are those of the corrected grafting specification (sorted pieces where the source stores None). |
| `Tools.GraftAsWrittenStoresNone` | airbase/tools.py:41-44 | For every string holding the separator, grafting with sorting as written stores None, while the corrected graft stores a sorted permutation of the comma-separated pieces that join back to the string. |
| `Tools.GraftedEffect` | airbase/tools.py:38-47 | Grafting changes exactly the listed fields that hold truthy values, and keeps every other field. |
| `Tools.GraftedRaisesIff` | airbase/tools.py:39-44 | Grafting raises iff some listed truthy field holds a value that cannot be split, such as a number. |
| `Tools.GraftValueSplitsInOrder` | airbase/tools.py:41-42 | Without sorting, a value containing the separator becomes its ","-pieces in order. The pieces contain no comma and join back to the value. |
| `Tools.GraftValueSorts` | airbase/tools.py:41-44 | With sorting, the corrected graft stores the pieces sorted, as a permutation of the split. |
| `Tools.GraftSortDropsText` | airbase/tools.py:43-44 | As written, grafting "b,a" with sorting stores None. The corrected version stores ["a", "b"]. |
| `Tools.LinkTables` | airbase/tools.py:51-88 | The loop returns the linked table the specification defines, or None for the exception. |
| `Tools.BuildLinkKeyMap` | airbase/tools.py:65-70 | The key map built by the loop equals the specification's map over `table_b`. |
| `Tools.LinkKeyMapLastWins` | airbase/tools.py:66-70 | The key map holds exactly the truthy keys of `table_b`. A key maps to the id of the last record that carries it. |
| `Tools.LinkRecord` | airbase/tools.py:74-87 | Linking one record in a loop equals the specification on its fields. |
| `Tools.LinkRecordFieldsEffect` | airbase/tools.py:74-86 | The linked record has the same field names. Each truthy link field holds the resolved ids of its stripped tokens, and every other field is unchanged. |
| `Tools.LinkRecordFieldsChecks` | airbase/tools.py:76-81 | A successful link means every link field exists and every truthy one is a string; otherwise `KeyError` or `AttributeError` escape. |
| `Tools.LinkAllShape` | airbase/tools.py:72-88 | The new table has the same length and order as `table_a`. Each record keeps its id, and its fields are linked. |
| `Tools.ResolveTokens` | airbase/tools.py:82-86 | Every resolved id is a non-empty string taken from the key map; unknown tokens are dropped. |
| `Tools.Tokens` | airbase/tools.py:81 | The tokens are the ","-pieces of the value, each stripped. |
| `Tools.CombineRecords` | airbase/tools.py:91-128 | The candidate's lists grow in place. The result is a fresh record with `record_b`'s id and the combined fields, or `record_a` itself when anything raises. |
| `Tools.MergeFields` | airbase/tools.py:110-125 | The merging loop equals the combining specification, both on success and on the exception. |
| `Tools.CombiningPerKey` | airbase/tools.py:110-125 | Each key is merged by type. A list gets the other record's missing items appended. Strings are joined with ", ". Ints and tuples are added. Any other value keeps the candidate's. |
| `Tools.CombineListAppendsDictKeys` | airbase/tools.py:111-116 | A list combined with a dict keeps the list as a prefix, then appends each key of the dict not already in it; every key ends up in the result. |
| `Tools.CombiningRaisesIff` | airbase/tools.py:103-128 | Combining falls back to `record_a` iff some key is missing from the candidate or its pair of values cannot be combined. |
| `Tools.AppendMissingUnion` | airbase/tools.py:113-116 | List merging keeps the candidate's list as a prefix. It appends each of the other list's items not yet present, once, so the result holds every item of both. |
| `Tools.KeysOf` | airbase/tools.py:109 | The keys iterated are the candidate's field names, each once. |
| `Tools.Delta` | airbase/tools.py:153-159 | The filtered fields are exactly the candidate keys whose value differs from the existing record's, or that are absent there and truthy. Each carries the candidate's value. |
| `Tools.FilterRecord` | airbase/tools.py:131-160 | The diffing loop returns the specification's result: `record_b`'s id and the delta, or `record_a` when `record_b` has no id. |
| `Tools.DeltaStep` | airbase/tools.py:153-159 | Visiting one more key adds it to the delta iff it changed. |
| `Tools.FilterKeepsOnlyDifference` | airbase/tools.py:143-160 | When the records differ in one field only, the update carries that field alone. |
| `Tools.FilterEmptyIff` | airbase/tools.py:143-160 | The filtered record has no fields iff no candidate field changed. |
| `Tools.FilterNoDrift` | airbase/tools.py:143-160 | After the delta is applied to the existing record, filtering the same candidate again yields no fields. |
| `Tools.OverrideRecord` | airbase/tools.py:163-183 | The candidate's fields are updated in place as the override specification says, and the same object is returned. |
| `Tools.OverriddenEffect` | airbase/tools.py:176-182 | Every field locked by a truthy reference field takes the existing record's value. Every other field is untouched. |
| `Tools.OverriddenRaisesIff` | airbase/tools.py:179-182 | Overriding raises iff a locked field is missing from the existing record. |
| `Tools.OverrideThenFilter` | airbase/tools.py:153-156 | Filtering an overridden candidate gives the delta of its unlocked fields, so locked fields are never sent. |
| `Tools.CompareRecords` | airbase/tools.py:186-217 | The candidate is changed in place and the result returned as the comparison specification says. |
| `Tools.CompareOverwriteSkipsLocked` | airbase/tools.py:204-215 | In "overwrite" mode the result carries `record_b`'s id and the delta of the unlocked fields. |
| `Tools.CompareUnknownMode` | airbase/tools.py:204-217 | For any other mode the result is None iff no override ran or overriding raised. Otherwise it is the overridden candidate. |
| `Tools.ReplaceValues` | airbase/tools.py:220-226 | A non-list value is returned unchanged. An empty list raises (`value[0]`). |
| `Tools.UrlObjectsOfAttachments` | airbase/tools.py:222-223 | A list of dicts becomes `{"url"}`-only dicts, at most one per item. When every item has a url, the urls are kept in order. |
| `CruderSync.FmtColNames` | cruder/cruder_sync.py:20-33 | The formatting loop returns the specification's column name. |
| `CruderSync.FormatPartStyles` | cruder/cruder_sync.py:26-29 | "upper" upper-cases a part, and an abbreviation is upper-cased in any style. Otherwise "title" title-cases the part and "lower" leaves it as it is. |
| `CruderSync.ColumnNameWords` | cruder/cruder_sync.py:22-33 | Without a prefix, splitting the name at spaces gives back the formatted parts. This holds when the style is not camel and every part is a non-empty word. |
| `CruderSync.AppendParts` | cruder/cruder_sync.py:26-32 | The loop appends nothing for camel, else each formatted part followed by one space. |
| `CruderSync.Index` | cruder/cruder_sync.py:232-238 | Every indexed position is a valid index into the existing records. |
| `CruderSync.IndexLastWins` | cruder/cruder_sync.py:232-238 | Every defined key of an existing record is indexed, and it maps to the last position carrying that key. |
| `CruderSync.IndexFailsIff` | cruder/cruder_sync.py:232-238 | Building the index raises iff some existing record's key cannot be hashed. |
| `CruderSync.BuildIndex` | cruder/cruder_sync.py:232-238 | The index loop equals the specification. |
| `CruderSync.ClassifyPostsUnmatched` | cruder/cruder_sync.py:240-277 | A candidate is posted, grafted, iff its key is undefined or not in the index. |
| `CruderSync.ClassifyUpdateIsDelta` | cruder/cruder_sync.py:257-273 | A queued update is non-empty. It carries the matched record's id and the delta of the candidate's unlocked fields. |
| `CruderSync.ClassifyRecord` | cruder/cruder_sync.py:240-277 | Classifying one candidate in code equals the specification. |
| `CruderSync.PlannedAccounts` | cruder/cruder_sync.py:240-277 | Every candidate is either posted or matched. Updates never outnumber matches, matched positions are valid, and every update has fields. |
| `CruderSync.PlanRecords` | cruder/cruder_sync.py:240-277 | The classification loop equals the plan specification. |
| `CruderSync.DeadListSpec` | cruder/cruder_sync.py:284-287 | The dead positions are exactly the existing positions no candidate matched, in ascending order. |
| `CruderSync.DeadIndices` | cruder/cruder_sync.py:284-287 | The loop computes those dead positions. |
| `CruderSync.DeadOpsOverwrite` | cruder/cruder_sync.py:289-311 | In "overwrite" mode each dead record is deleted once, in order, and nothing else is sent. |
| `CruderSync.DeadOpsUpdate` | cruder/cruder_sync.py:312-322 | In "update" mode exactly the dead records whose delete flag is not yet truthy get a `{flag: True}` update, with no more updates than dead records. |
| `CruderSync.DeadOpsUpdateExact` | cruder/cruder_sync.py:312-322 | In "update" mode the calls are one `{flag: True}` update per unflagged dead record, each sent once, in the order of the dead list, and nothing else. |
| `CruderSync.UnflaggedSpec` | cruder/cruder_sync.py:317 | The flagged positions are ascending, and a dead record is among them iff its delete flag is not truthy. |
| `CruderSync.DeadOpsOtherMode` | cruder/cruder_sync.py:289-322 | Any other mode sends nothing for dead records. |
| `CruderSync.IssueDeadOps` | cruder/cruder_sync.py:289-322 | The table's trace grows by exactly the dead-record calls of the specification. |
| `CruderSync.GraftAllEach` | cruder/cruder_sync.py:242-244 | Grafting a list keeps each record's id and grafts its fields. |
| `CruderSync.GraftAllNothing` | cruder/cruder_sync.py:327-330 | Without array fields, grafting changes no record. |
| `CruderSync.LinkAllTables` | cruder/cruder_sync.py:218-224 | Each link in turn replaces the candidate list by `link_tables`' output. |
| `CruderSync.GraftRecords` | cruder/cruder_sync.py:327-330 | The grafting comprehension equals the specification. |
| `CruderSync.SyncEmptyTablePostsAll` | cruder/cruder_sync.py:325-331 | With an empty table, one batch posts every linked, grafted candidate. Nothing is updated or deleted. |
| `CruderSync.SyncOverwriteDeletesDead` | cruder/cruder_sync.py:279-311 | An "overwrite" pass posts, then updates, then deletes each unmatched existing record once. |
| `CruderSync.SyncCrud` | cruder/cruder_sync.py:171-331 | The whole synchronous pass appends exactly the calls of the specification to the table's trace. |
| `CruderSync.SyncMatched` | cruder/cruder_sync.py:228-322 | The pass over a non-empty table appends the specification's calls. |
| `CruderSync.SyncEmptyTable` | cruder/cruder_sync.py:325-331 | The pass over an empty table appends the specification's calls. |
| `CruderAsync.ColumnNameCamel` | cruder/cruder_async.py:22-37 | With the camel style no part is appended, so the name is the stripped prefix whatever the column. |
| `CruderAsync.SortRecord` | cruder/cruder_async.py:212-258 | Sorting one record appends to the buckets what classification says: a post, or a matched index plus an update when the delta is non-empty. On an exception only the matched index may have been appended. |
| `CruderAsync.SortMatched` | cruder/cruder_async.py:238-254 | A matched record records its index, is overridden and filtered, and is queued only with fields. |
| `CruderAsync.SortAll` | cruder/cruder_async.py:333-349 | Sorting every record in turn fills the buckets with the plan of the synchronous pass. |
| `CruderAsync.CheckLinks` | cruder/cruder_async.py:202-209 | Link resolution only decides whether an exception escapes, because its result is discarded. |
| `CruderAsync.DeadBatchMatchesSync` | cruder/cruder_async.py:357-389 | The batch holds the records the synchronous pass would delete, or the flags it would send, in the same order. |
| `CruderAsync.CollectDead` | cruder/cruder_async.py:362-381 | The collecting loop equals the batch specification. |
| `CruderAsync.AsyncWritesFirst` | cruder/cruder_async.py:352-389 | The post and the update batches are sent before any dead-record call, which is at most one more batch. |
| `CruderAsync.MatchRunWritesFirst` | cruder/cruder_async.py:352-389 | The same holds for the pass over a non-empty table. |
| `CruderAsync.AsyncCrud` | cruder/cruder_async.py:261-399 | The whole asyncio pass, run sequentially, appends exactly the calls of the specification. |
| `CruderAsync.AsyncMatched` | cruder/cruder_async.py:319-389 | The pass over a non-empty table appends the specification's calls. |
| `ArchiveTools.ClausesSpec` | airbase/archive/tools.py:39-46 | There is one clause per entry: `{f} = 'v'`, wrapped in `NOT(...)` when the flag is false. |
| `ArchiveTools.FormulaSplitsIntoClauses` | airbase/archive/tools.py:37-49 | The formula is "AND(" + the clauses joined by "," + ")". Splitting its body at commas returns the clauses. |
| `ArchiveTools.FormulaOfEmpty` | airbase/archive/tools.py:37-49 | An empty dict gives "AND()". |
| `ArchiveTools.ComposeFormula` | airbase/archive/tools.py:28-51 | The accumulating loop equals the formula specification, including the swallowed `KeyError`. |
| `ArchiveTools.AppendClause` | airbase/archive/tools.py:45-47 | Each step appends a clause, and a comma before every clause but the last. |
| `ArchiveTools.ComposeTimeFormula` | airbase/archive/tools.py:54-59 | None for an empty field name. Otherwise the DATETIME_DIFF text with the braced field and the interval in place. |
| `ArchiveTools.MethodOrderNamesMethod` | airbase/archive/tools.py:635-643 | Only pull, grab and push have an order. Distinct methods have distinct orders, sorted pull < grab < push. |
| `ArchiveTools.AnalyseValue` | airbase/archive/tools.py:372-407 | `flatten` is true iff the value is a one-element list. The record-id hint is given iff `is_record`. The date hint is given otherwise for a 10-character string whose first four characters parse as an int. |
| `Text.DigitGroupsShape` | airbase/archive/tools.py:396 | Text that `int()` accepts as digits includes every all-digit text, ends in a digit, and has each underscore between two digits. |
| `Text.UnderscoreGroups` | airbase/archive/tools.py:396 | "1_23" is digit text; "1__2", "_123" and "123_" are not. |
| `Text.UnderscoreParses` | airbase/archive/tools.py:396 | `int("1_23")` succeeds. |
| `ArchiveTools.RowsCover` | airbase/archive/tools.py:420-429 | The rows name exactly the field names that occur in the table. |
| `ArchiveTools.RowsDistinct` | airbase/archive/tools.py:420-429 | No field gets two rows. |
| `ArchiveTools.RowsFirstSeen` | airbase/archive/tools.py:420-447 | Every row is built from the first occurrence of its field. |
| `Show.ReprStrPlain` | airbase/archive/tools.py:444 | The "Example" text of a string free of quotes, backslashes and control characters is that string between single quotes. |
| `Show.ReprStrSwitchesQuotes` | airbase/archive/tools.py:444 | A string holding a single quote but no double quote, backslash or control character is shown between double quotes, unescaped. |
| `Show.EscapedQuotes` | airbase/archive/tools.py:444 | Every quote character inside the shown text has a backslash before it. |
| `ArchiveTools.RowsStep` | airbase/archive/tools.py:420-447 | A new field adds a row at the end, and a field already seen adds none. |
| `ArchiveTools.GetFields` | airbase/archive/tools.py:410-451 | The nested loop builds the rows of the specification. |
| `ArchiveTools.ScanRecord` | airbase/archive/tools.py:420-447 | Scanning one record extends the rows and the names seen consistently. |
| `ArchiveTools.DedupSpec` | airbase/archive/tools.py:73 | The filter dict has each match field once. |
| `ArchiveTools.MatchCountSpec` | airbase/archive/tools.py:76-80 | The counter reaches the number of filter keys iff the existing record agrees on all of them. |
| `ArchiveTools.FoundIff` | airbase/archive/tools.py:76-81 | A record is found iff the match fields are distinct and it equals the candidate on every one of them. |
| `ArchiveTools.FirstFoundSpec` | airbase/archive/tools.py:74-82 | The result is the first matching position, or None when no record matches. |
| `ArchiveTools.NoMatchFieldsFindsFirst` | airbase/archive/tools.py:62-82 | An empty match list matches the first record of a non-empty table. |
| `ArchiveTools.CountMatches` | airbase/archive/tools.py:75-80 | The counting loop equals the specification. |
| `ArchiveTools.RecordExists` | airbase/archive/tools.py:62-82 | The search loop equals the specification, including the `KeyError` of a missing match field. |
| `ArchiveTools.FilterData` | airbase/archive/tools.py:73 | The dict comprehension fails exactly when a match field is missing from the candidate; otherwise it holds the candidate's value of each match field, each field once. |
| `ArchiveTools.FirstMatch` | airbase/archive/tools.py:74-82 | The scan returns the first record whose count of equal fields reaches the number of names listed, or nothing. |
| `ArchiveLink.RowIdsAreOwnId` | airbase/archive/tools.py:114-131 | A row contributes only its own id. |
| `ArchiveLink.ThetaScanComplete` | airbase/archive/tools.py:121-128 | A theta hits a well-formed row iff it matches one of the row's compared fields. |
| `ArchiveLink.RowIdsComplete` | airbase/archive/tools.py:118-131 | A row's id is collected iff some theta matches some compared field. |
| `ArchiveLink.LinkIdsFromTable` | airbase/archive/tools.py:114-131 | Every linked id is the id of a table row. |
| `ArchiveLink.LinkIdsMatchRows` | airbase/archive/tools.py:114-131 | Every matching row of a well-formed table is linked. |
| `ArchiveLink.ContainedSpec` | airbase/archive/tools.py:104-110 | With `contains`, the filters become the record's fields whose lower-case name contains a filter's lower-case text. |
| `ArchiveLink.ContainingFields` | airbase/archive/tools.py:104-110 | The nested loop equals that specification. |
| `ArchiveLink.LinkValueSorted` | airbase/archive/tools.py:138-141 | The field gets the sorted ids, a permutation of the collected ones, or None when nothing matched. |
| `ArchiveLink.LinkRecord` | airbase/archive/tools.py:85-142 | A fresh record is returned (the deep copy), linked as the corrected specification says. |
| `ArchiveLink.LinkedKeepsOthers` | airbase/archive/tools.py:113-141 | Only target fields are written; every other field keeps its value. |
| `ArchiveLink.LinkedWritesEachFilter` | airbase/archive/tools.py:134-141 | With no target field or several filters, each filter field receives its own links. |
| `ArchiveLink.LinkedSingleTarget` | airbase/archive/tools.py:134-141 | With one filter and a target field, the links go into the target field. |
| `ArchiveLink.ContainsRetargetsLastField` | airbase/archive/tools.py:104-141 | As written, a `contains` search without a target field writes the links into the record's last field. The corrected model writes them into the matched field. |
| `ArchiveReplace.ReplaceFields` | airbase/archive/tools.py:471-567 | The mapping loop equals the specification. It returns the mapped record, or None when no field was mapped. |
| `ArchiveReplace.ReplacedWritesNamedFields` | airbase/archive/tools.py:485-523 | Every written field is the target (push) or trigger (pull) name of a mapping. |
| `ArchiveReplace.ReplaceFieldsNothingMapped` | airbase/archive/tools.py:566-567 | When no source field is present, the result is None. |
| `ArchiveReplace.PushThenPull` | airbase/archive/tools.py:495-523 | Pushing a non-list field and pulling it back restores it under its own name. |
| `ArchiveReplace.ComposeLinkData` | airbase/archive/tools.py:799-918 | It raises `KeyError` iff the trigger info lacks "table_name", which is read before the loop, and then the link data is unchanged. Otherwise the link data becomes its composed version, and an entry that raises `KeyError` while being completed is popped. |
| `ArchiveReplace.CompleteEntries` | airbase/archive/tools.py:872-903 | The first loop completes each entry or puts its name on the remove list. |
| `ArchiveReplace.PopEntries` | airbase/archive/tools.py:905-906 | Popping removes exactly the listed entries and keeps the others. |
| `ArchiveReplace.ComposedKeeps` | airbase/archive/tools.py:872-906 | Given the trigger's "table_name", an entry survives iff its target info and every key read from it are present. |
| `ArchiveReplace.ComposedEntry` | airbase/archive/tools.py:876-899 | A kept entry holds the trigger's base and table and the record-id field given for its table. It takes the target's base, table and match, time and value fields, and keeps every key not set here. |
| `ArchiveReplace.ComposedWithoutTargets` | airbase/archive/tools.py:874 | Given the trigger's "table_name", without target info every entry is removed. |
| `ArchiveReplace.ComposedIdempotent` | airbase/archive/tools.py:872-906 | Composing twice gives what composing once gives. |
| `ArchiveCrud.CrudTable` | airbase/archive/tools.py:1180-1246 | The table's trace grows by exactly the calls of the crud specification. |
| `ArchiveCrud.CrudRecord` | airbase/archive/tools.py:1210-1231 | One record is posted, updated with its delta, or skipped as the first-match search and the comparison decide. |
| `ArchiveCrud.NoUpdateMatchesNothing` | airbase/archive/tools.py:1216-1218 | With `update` off, no position is recorded and no update is sent. |
| `ArchiveCrud.NoUpdateDeletesAll` | airbase/archive/tools.py:1209-1246 | With `update` off and `delete` on, every existing record is deleted after the new-record calls. |
| `ArchiveCrud.DeletesExactlyUnmatched` | airbase/archive/tools.py:1233-1246 | With both on, the deleted records are exactly those at unmatched positions, in order. |
| `ArchiveCrud.NoDeleteKeepsAll` | airbase/archive/tools.py:1243-1246 | With `delete` off, nothing is deleted. |
| `ArchiveCrud.EmptyTablePostsAll` | airbase/archive/tools.py:1210-1231 | Against an empty table, every record is posted, in order. |
| `Decorators.ChunksConcat` | airbase/decorators.py:15-18 | The chunks concatenate back to the records. |
| `Decorators.ChunkSizes` | airbase/decorators.py:15-18 | There are ceil(n/10) chunks, none when there are no records. All but the last have ten records, and the last has one to ten. |
| `Decorators.Chunkify` | airbase/decorators.py:8-35 | One call per chunk, in order. The unpacked replies equal the specification, and no records means no calls and `[]`. |
| `Decorators.UnpackAllRecords` | airbase/decorators.py:27-33 | Replies that all carry records unpack to those records concatenated. |
| `Decorators.UnpackNoRecords` | airbase/decorators.py:27-33 | Replies without records are kept whole. |
| `Decorators.UnpackReplies` | airbase/decorators.py:27-33 | The unpacking loop equals the specification. |
| `Airtable.IsSuccess` | airbase/airtable.py:47-51 | Success iff there is a response whose status is in 200..299. |
| `Airtable.RequestFromSpec` | airbase/airtable.py:62-85 | The first non-retryable outcome is returned. Attempt j+1 follows a pause of 2^j·0.51 s. |
| `Airtable.RequestGivesUp` | airbase/airtable.py:62-85 | There are at most five pauses, and the result is None iff six attempts in a row were retryable. |
| `Airtable.Request` | airbase/airtable.py:62-85 | The retry loop equals the specification. |
| `Airtable.BasicLogMsgCounts` | airbase/airtable.py:374-386 | The message starts with the record count, one for a non-list, and ends in "s" iff that count exceeds one. |
| `Airtable.AddRecordToUrlRoundTrip` | airbase/airtable.py:388-397 | The record id is the last "/"-piece of the url, and the table url is what precedes it. |
| `Airtable.PrimaryFieldName` | airbase/airtable.py:362-370 | None (Python's) without fields or a primary field id. Otherwise the name of a field with that id, or the exception when none has it. |
| `Airtable.PrimaryKeyValueOrId` | airbase/airtable.py:408-416 | The primary field's value when fields, name and value are truthy, else `record.get("id")`. |
| `Airtable.Multiple` | airbase/airtable.py:418-441 | One call per chunk of ten. The result is True iff every call's result is truthy. |
| `Session.AddUrlParams` | airbase/session/session.py:133-152 | Empty params leave the url alone. Otherwise "?" and the "k=v" pairs joined by "&" are appended. |
| `Session.UrlEncode` | airbase/session/session.py:155-170 | The loop gives the "k=v" pairs joined by "&", with no leading or trailing "&". |
| `Session.EncodedAmpersands` | airbase/session/session.py:163-169 | n plain entries give exactly n-1 "&". |
| `Session.EncodedRoundTrip` | airbase/session/session.py:155-170 | Splitting the encoding at "&" and then "=" recovers each key and `str(value)`, for keys and values free of both characters. |
| `Session.LogErrorText` | airbase/session/session.py:81-105 | A falsy error gives the status code. A dict gives "message" else "type". A list gives its details, or the exception of a malformed item. Any other truthy error, such as the text of a body that is not JSON, gives its `str`. |
| `Session.LogErrorOfScalar` | airbase/session/session.py:91-103 | A non-empty text body is reported as itself, a non-zero number as its digits and True as "True". |
| `Session.LogErrorListJoinsDetails` | airbase/session/session.py:92-95 | A list of `{"detail": d}` errors gives the details joined by ", ". |
| `Validations.IsValueAcceptable` | airbase/validations.py:31-59 | An unknown field type fails the assertion. A string with a text type, or a list or tuple with a multiple type, gives True, and everything else None. |
| `Validations.NumberTypesAcceptNothing` | airbase/validations.py:31-59 | Number, checkbox, date and computed types accept no value. |

## Left out

- HTTP, the service's pagination and request building, sessions, the
  semaphore and logging are not modelled. The remote table is the trace of
  calls in `Remote.Table`; request outcomes in `Airtable.Request` and replies
  in `Decorators.Chunkify` and `Airtable.Multiple` are function parameters.
- `asyncio.gather` and `create_task` are run sequentially, in list order. The
  asyncio pass's interleavings are not modelled.
- pandas, gspread and Snowflake code (`get_csv_data`, `get_snowflake_data`,
  `convert_df`, `convert_to_df`, `_sh_crud`) are outside this model, as are
  the archive functions that fetch from the service or read the clock.
- Floats are not modelled: `combine_records` adds ints and tuples only, and
  the 0.51 s retry factor is kept in hundredths of a second.
- `upper`, `lower` and `title` are ASCII-only; `str.isspace` covers the ASCII
  and separator control characters.
- The async module imports a `tools_async` module that is not part of this
  model; it is taken to behave as `airbase/tools.py`.
- Python dict iteration order is modelled where it matters as an explicit
  sequence (`Items`, the `order` of `ArchiveLink.LinkRecord`, the key order
  of `Tools.CombineRecords`). Model dicts keep no insertion order, so where a
  dict is iterated as a value (extending a list by a dict, `str` of a dict)
  its keys are taken in ascending order. Set iteration over dead indices,
  which Python does in hash-table order, is taken in ascending order.
- The orchestrators treat candidate records as values; the caller-visible
  in-place changes that grafting and overriding make to the caller's dicts
  are modelled only in `Tools.GraftFields`, `Tools.OverrideRecord`,
  `Tools.CombineRecords` and `Tools.CompareRecords`.
- `CruderAsync.CheckLinks`: the asyncio pass drops `link_tables`' result, so
  linking can only raise; the async model posts unlinked records.
- `Tools.GraftFields`: stores the corrected sorted pieces, not the None that
  `value_list.sort()` returns at airbase/tools.py:44; the orchestrators use
  the same corrected graft. The as-written graft is stated by
  `Tools.GraftAsWrittenStoresNone`.
- `Tools.CombineRecords`: a list combined with a dict is extended by the dict's
  keys in ascending order, not in the dict's insertion order.
- `Tools.CombiningPerKey`: the same ascending key order for a list combined
  with a dict.
- `Tools.CombiningRaisesIff`: the same ascending key order for a list combined
  with a dict; which pairs raise is unaffected.
- `Decorators.UnpackReplies`: a reply whose "records" is a dict extends the
  result by its keys in ascending order, not in insertion order.
- `ArchiveTools.RowsFirstSeen`: the "Example" text of a dict value lists its
  keys in ascending order rather than insertion order, and non-ASCII
  characters that Python would escape as non-printable are kept as they are.
- `ArchiveTools.AnalyseValue`: `int()` is modelled on ASCII digits with single
  underscores between them and ASCII surrounding whitespace; non-ASCII
  digits and Unicode whitespace are not.
- `ArchiveLink.LinkRecord`, `ArchiveLink.LinkedSingleTarget`: with `contains`
  set and a record with fields, the source rebinds `field` to the record's
  last key (airbase/archive/tools.py:109) and writes the links there. These
  members state the corrected target; the as-written target is
  `ArchiveLink.LinkedAsWritten`, and the difference is Findings row 2.
- `Airtable.PrimaryFieldName` states that the name belongs to a field with the
  primary field id, not that it is the first such field.
- `Tools.ReplaceValues` states the non-list and empty-list cases; the
  attachment case is stated by `Tools.UrlObjectsOfAttachments`.
- `ArchiveReplace.ReplaceFields` does not model the type-mismatch warning
  (logging only).

## Findings

| source | as written | input that shows it | evidently intended | confidence | as-written member | corrected member |
|---|---|---|---|---|---|---|
| airbase/tools.py:43-44 | `value_list = value_list.sort()` stores the None that `list.sort()` returns (`Tools.GraftValueAsWritten`) | any string holding the separator, e.g. grafting "b,a" with `sort=True`, stores None (also `Tools.GraftSortDropsText`) | store the sorted pieces ["a", "b"] | not executed | `Tools.GraftAsWrittenStoresNone` | `Tools.GraftValueSorts` |
| airbase/archive/tools.py:109-136 | the `contains` loop reuses the name `field`, so the target parameter is overwritten with the record's last field (`ArchiveLink.LinkedAsWritten`) | record {"Project": "A", "X": "b"}, filter "proj", `contains=True`, no target | links written to "Project" | not executed | `ArchiveLink.ContainsRetargetsLastField` | `ArchiveLink.LinkedWritesEachFilter` |
