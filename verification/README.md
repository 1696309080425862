# Client record manager — a Dafny model

This project models the in-memory record-set logic of the client-records
management application's `ClientRecordManager` component. A user uploads JSON
files of `{id, name, email}` records. The first file becomes the record list as
it is; later files are merged into it by email. The user then searches,
pages through, edits inline and deletes records. Every event handler is
modelled as one pure transition over an immutable `State` holding `baseData`,
`originalData`, the selected file name, the error, the search query, the edit
cursor and the current page.

Modules (one concept each):

- `Wrappers`: `Option`, for the component's own state that is `null` or a value (the selected file name, the error message).
- `Text`: ASCII lower-casing, `String.prototype.includes`, and the decimal text of numeric ids.
- `Records`: the record, its id, the `Field` type of a JSON property, and the email sets.
- `Seqs`: `filter`, the id-keyed `map`, and the subsequence relation.
- `Merge`: `mergeData` and its reference characterisation.
- `Pagination`: page size 5, page count, the JavaScript `slice` of a page.
- `Search`: the `filteredData` predicate.
- `Manager`: the component state, the handlers, the view, and the properties that span several handlers.

Modelling choices:

- A record's id, name and email may each be missing from the JSON object (`undefined`), hold `null`, or hold a value. Each is a `Field`: `Missing`, `Null` or `Val`. The two absent forms stay apart because the code compares fields with `===` and collects emails in a `Set`, and both tell `null` from `undefined`.
- An id is a JSON number, modelled as an integer of magnitude at most 2^53, or a JSON string.
- `!item.email` is true for a missing email, a `null` email and `""`. The predicate `HasEmail` is its negation.
- The email set built with `new Set(xs.map(item => item.email))` holds `Missing` and `Null` when records lack an email. This matters for `Save`. If the last upload has a record without an email key, then saving a record without an email key is refused. A `null` email in the last upload does not block a missing one (`Manager.SaveNullIsNotMissing`).
- The upload handler's `!selectedFileName` test is also true for a file named `""`. So a file with an empty name does not count as "a file was selected".
- The edit cursor `editingId` is a `Field<Id>` that starts as `Null`. Edit sets it to the row's id, which may itself be missing or `null`. Save sets it back to `Null`.
- The error is the message text the component shows (`Manager.Message`), or nothing.
- The page slice follows JavaScript `slice` exactly, negative positions included. So page 0, which a delete can produce, shows no rows.
- Row events (Edit, Delete, Save and the two inline inputs) name a row of the displayed page. They act only when the table shows that control: inputs and Save when `editingId === record.id`, Edit and Delete otherwise.

Behaviour of the code that its own interface text does not suggest:

- The search box reads "Search by ID, Name, or Email". A record with no value in any of the three fields matches no query, not even the empty one (`Search.EmptyRecordNeverShown`).
- The message "This email is already in use" suggests a check against the list in use. The code checks only the last uploaded file. Three things follow:
  - Save can create a duplicate email in the live list (`Manager.SaveCanDuplicateLiveEmail`).
  - Save refuses a record of that file with its own unchanged email (`Manager.SaveRejectsOwnEmail`).
  - Only merging uploads keep emails distinct (`Manager.MergedUploadKeepsDistinct`). The first upload is taken without deduplication (`Manager.FirstUploadKeepsDuplicates`).
- Because the edit cursor starts as `null`, a displayed record whose id is `null` shows its inline inputs from the start (`Manager.NullIdRowStartsInEditMode`).

## Model

| member | source | states |
|---|---|---|
| Text.Lower | src/components/ClientRecordManager.js:61 | the lower-cased query has the input's length, holds no upper-case letter, maps each upper-case ASCII letter to its lower-case partner and keeps every other character |
| Text.LowerIdempotent | src/components/ClientRecordManager.js:61 | lower-casing an already lower-cased query changes nothing |
| Text.IncludesIffOccurs | src/components/ClientRecordManager.js:102-104 | the scanning `includes` holds exactly when the query sits at some offset of the text, in both directions |
| Text.IncludesEmpty | src/components/ClientRecordManager.js:102-104 | every field text includes the empty query |
| Text.NatToString | src/components/ClientRecordManager.js:102 | a numeric id's text is a non-empty run of digits; it starts with 0 only when it is exactly "0" |
| Text.NatToStringRoundTrip | src/components/ClientRecordManager.js:102 | reading a numeric id's text back as a decimal gives the id: the rendering loses nothing |
| Text.IntToString | src/components/ClientRecordManager.js:102 | the text of a negative id is a minus sign followed by digits with no leading zero that read back as its magnitude; the text of a non-negative id is digits with no leading zero (or exactly "0") that read back as the id |
| Seqs.Filter | src/components/ClientRecordManager.js:87 | `filter` returns a subsequence of its input whose every element is accepted |
| Seqs.FilterCounts | src/components/ClientRecordManager.js:87 | `filter` keeps every accepted value as often as it occurs and drops every rejected one |
| Seqs.FilterDropsOne | src/components/ClientRecordManager.js:87 | a filter rejecting exactly one position returns the input without it, one shorter |
| Seqs.MapWhere | src/components/ClientRecordManager.js:76-78 | the id-keyed `map` keeps the length, rewrites the selected elements and leaves every other element identical |
| Merge.Appended | src/components/ClientRecordManager.js:18-24 | the records the filter pass keeps form a subsequence of the new file; each has a truthy email outside the starting set; their emails are pairwise distinct |
| Merge.AppendedMatchesSurvivors | src/components/ClientRecordManager.js:18-25 | the running-set filter equals the reference: the records of the new file, in order, whose email is truthy, not in the base and not on an earlier record of the file |
| Merge.AppendedEmails | src/components/ClientRecordManager.js:17-24 | every truthy email of the new file that is not already known ends up among the appended records, and no other email does |
| Merge.AppendedDistinctAll | src/components/ClientRecordManager.js:18-24 | a file of records with distinct, truthy, unknown emails passes the filter whole |
| Merge.MergeData | src/components/ClientRecordManager.js:16-26 | the base is an unchanged prefix of the result; the appended tail is exactly the reference survivors; each appended record has a truthy email absent from the base; appended emails are pairwise distinct; length bounds |
| Merge.MergeEmails | src/components/ClientRecordManager.js:16-26 | after a merge, the email set is the base's emails plus every truthy email of the new file |
| Merge.MergeKeepsDistinct | src/components/ClientRecordManager.js:16-26 | merging into a list without duplicate emails leaves a list without duplicate emails |
| Merge.MergeIntoEmpty | src/components/ClientRecordManager.js:16-26 | merging N records with distinct truthy emails into an empty list yields exactly those N records |
| Pagination.PageCount | src/components/ClientRecordManager.js:204-205 | the page count is the ceiling of n/5: enough pages for n records, one fewer would not do, and zero exactly for no records |
| Pagination.JsSlice | src/components/ClientRecordManager.js:132-136 | `slice` with a non-negative start returns consecutive elements from that start; its length is bounded by the requested span; an end of 0 gives nothing |
| Pagination.PageSlice | src/components/ClientRecordManager.js:132-136 | a page holds at most 5 records, taken in order from position (p-1)*5; page 0 and pages past the count are empty; pages 1 to the count hold 5 records, or on the last page exactly the remaining n-(p-1)*5 |
| Pagination.PageOfIndex | src/components/ClientRecordManager.js:132-136 | record i is shown on page i/5+1, at row i%5, and that page has a button |
| Pagination.SliceMembers | src/components/ClientRecordManager.js:132-136 | every row of any page slice, at any page number, is one of the sliced records |
| Search.Filtered | src/components/ClientRecordManager.js:100-105 | the visible list is a subsequence of the records; it holds every matching record as often as it occurs and no other record |
| Search.FilteredContainsQuery | src/components/ClientRecordManager.js:100-105 | each visible record has the query at some offset of its id text, lower-cased name or lower-cased email |
| Search.EmptyQueryShowsAll | src/components/ClientRecordManager.js:100-105 | the empty query shows every record that has a value (neither missing nor null) in at least one of the three fields |
| Search.EmptyRecordNeverShown | src/components/ClientRecordManager.js:100-105 | a record whose three fields are all missing or null matches no query |
| Manager.OnLoad | src/components/ClientRecordManager.js:33-52 | on an array: it becomes the last upload, and the error is cleared; the first time it replaces the list and records the file name; later it keeps the list as a prefix and appends exactly the reference survivors. On a non-array or a parse failure only the error message changes |
| Manager.Upload | src/components/ClientRecordManager.js:29-57 | a missing file or one not of type application/json changes only the error message; a JSON file goes through the completion callback |
| Manager.SetQuery | src/components/ClientRecordManager.js:60-63 | the stored query is the lower-cased input, so it holds no upper-case letter; the page goes back to 1; nothing else changes |
| Manager.StartEdit | src/components/ClientRecordManager.js:65-67 | the single edit cursor moves to the id; nothing else changes |
| Manager.Save | src/components/ClientRecordManager.js:69-82 | an email in the last upload's email set (null and missing told apart) is refused: only the error message changes. Otherwise the error clears, the cursor returns to null, the length is kept, every record with the id gets the new name and email, and every other record is identical; the other state is unchanged |
| Manager.EditName | src/components/ClientRecordManager.js:145-153 | every record with the id gets the typed name, with its other fields kept; every other record and the rest of the state are unchanged |
| Manager.EditEmail | src/components/ClientRecordManager.js:164-172 | every record with the id gets the typed email, unchecked; every other record and the rest of the state are unchanged |
| Manager.Delete | src/components/ClientRecordManager.js:85-97 | the result is a subsequence of the list holding every record of another id as often as before and none with this id (a null id and a missing one are different ids); the page becomes the smaller of the old page and the new page count; nothing else changes |
| Manager.DisplayedRows | src/components/ClientRecordManager.js:132-136 | at most 5 rows are shown, each a live record matching the query |
| Manager.PageButtons | src/components/ClientRecordManager.js:204-205 | the button count is the ceiling of the visible count over 5, and zero exactly when nothing is visible |
| Manager.GoToPage | src/components/ClientRecordManager.js:207-213 | clicking an existing button selects that page, that page shows at least one row, and nothing else changes |
| Manager.Step | src/components/ClientRecordManager.js:132-213 | every handler keeps the page non-negative and the query free of upper-case letters; an event on a control the table does not show (a row not on the page, Save or an input on a row not in edit mode, Edit or Delete on a row in edit mode, a page button past the count) changes nothing |
| Manager.Run | src/components/ClientRecordManager.js:6-12 | any run of events keeps the page non-negative and the query free of upper-case letters |
| Manager.ReachableStatesValid | src/components/ClientRecordManager.js:6-12 | every state reachable from mount has a non-negative page and a lower-case query |
| Manager.FirstUploadShowsEveryRecord | src/components/ClientRecordManager.js:36-45 | uploading N records (each with some field) into a fresh component makes exactly those N visible, across the ceiling of N/5 pages |
| Manager.FirstUploadKeepsDuplicates | src/components/ClientRecordManager.js:38-40 | the first upload is not deduplicated: two records with one email both stay |
| Manager.MergedUploadKeepsDistinct | src/components/ClientRecordManager.js:41-44 | once a file has been selected, any upload keeps a list without duplicate emails free of duplicates |
| Manager.SaveRejectsOwnEmail | src/components/ClientRecordManager.js:70-73 | a record of the last upload saved with its own email is refused and the list stays as it was |
| Manager.SaveCanDuplicateLiveEmail | src/components/ClientRecordManager.js:70-79 | in a state reached from mount by uploading [a, b] and then [b], save accepts a's email for b, breaking email uniqueness of the live list |
| Manager.DeleteOnlyRowOfLastPage | src/components/ClientRecordManager.js:85-96 | deleting the only record on the last page moves the page back by exactly one |
| Manager.DeleteLastIdGoesToPageZero | src/components/ClientRecordManager.js:85-96 | deleting the id every record carries empties the list, moves to page 0, and shows no rows and no buttons |
| Manager.NoMatchShowsNothing | src/components/ClientRecordManager.js:100-105 | a query no record matches shows no rows and no page buttons |
| Manager.EveryVisibleRecordHasAPage | src/components/ClientRecordManager.js:132-136 | every visible record is shown on some page that has a button |
| Manager.SaveNullIsNotMissing | src/components/ClientRecordManager.js:70-72 | a null email in the last upload does not block saving a record that has no email key, because the email set tells null and undefined apart |
| Manager.DeleteMissingIdKeepsNullIds | src/components/ClientRecordManager.js:87 | deleting by a missing id keeps every record whose id is null, because `!==` tells null and undefined apart |
| Manager.NullIdRowStartsInEditMode | src/components/ClientRecordManager.js:141-186 | after a first upload of a record with a null id, its row shows the inputs and Save button, not Edit and Delete, because the cursor starts as null |

## Left out

- src/components/FileUpload.js: a stateless file input that forwards its change event. The `multiple` attribute has no effect, because the handler reads only the first file.
- The asynchronous `FileReader` read, `JSON.parse` and the browser's MIME detection. These are I/O. A selection is an input value: nothing, or a file with its name, MIME type and parse outcome (`ParsedArray`, `ParsedNonArray` or `SyntaxError`).
- Array elements that are numbers, strings, booleans or arrays. Reading `id`, `name` or `email` on them gives `undefined`, so they behave like a record whose three fields are all `Missing`. A merge drops them from the new file, and the first upload keeps them in the list. They can be written as such records and are not a separate case.
- Array elements that are `null`. Reading `item.email` on `null` throws. During a merge this happens inside the `try`, after `setOriginalData`, so the upload ends with the "Invalid JSON" message. After a first upload the `null` sits in the list and the search filter throws while rendering. The model's array elements are always records.
- Fields beyond `id`, `name` and `email`, which the code passes through untouched.
- Non-string names and emails. `toLowerCase` would throw on them.
- Ids that are not integers or strings.
- Text.IntToString: gives the exact decimal text. JavaScript prints that text for integers of magnitude up to 2^53, so numeric ids are restricted to that range (`Records.SafeInt`). Above 2^53 a JSON number is rounded to a double, and `toString` prints the double's shortest round-trip digits. For example, 2^60 prints as "1152921504606847000". That rounding is not modelled.
- Records.IdText: renders only integer ids; JavaScript's text for fractional or exponent-form numbers is not modelled.
- Text.Lower: lower-cases ASCII letters only, not the full Unicode mapping of `toLowerCase`.
- React rendering, markup, styling, and the batching of state updates. The stale `baseData` and `currentPage` closures in `handleSave` and `handleDelete` are also left out: each handler is one atomic transition over the latest state.
- Manager.Delete: the clamp compares the page with the page count of the whole list, not of the search-filtered list. This is as the code does it, so a filtered view can be left on an empty page.
