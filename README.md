# Record vault store: a Dafny model

This project models the record store of a small command-line "vault". The store keeps
named text records in a MongoDB collection called `records`, and `db/index.js` provides
these operations on it:

- add, update and delete, each announcing the change on an event emitter;
- list, which fills in missing fields defensively;
- case-insensitive keyword search;
- sort by a field, ascending or descending;
- summary statistics;
- a fixed-format text export.

It also models the record shape check in `db/record.js`.

The model treats the collection as a sequence of documents in collection order:

- A document's id is a natural number. A caller-supplied id is either a parsed id or a malformed one.
- Timestamps are natural numbers, and every operation that reads the clock takes the reading as a `now` parameter.
- Every `vaultEvents.emit` call is recorded in a ghost event log.

The modules are:

| module | file | models |
|---|---|---|
| `Wrappers` | wrappers.dfy | `Option` |
| `Text` | text.dfy | JavaScript `trim` (ECMAScript white space and line terminators), ASCII lower-casing, substring containment, decimal rendering |
| `Validator` | validator.dfy | `validateRecord`, on JavaScript values (undefined, null, booleans, numbers, strings, objects) |
| `Records` | records.dfy | documents as stored, records as listed, events, `listRecords` |
| `Queries` | queries.dfy | `searchRecords` as a filter; `sortRecords` as a stable sort on the BSON type order missing < number < string |
| `Statistics` | statistics.dfy | `getStatistics`, as the source's single loop with its invariants |
| `Export` | export.dfy | `getAllRecordsForExport`, as the source's appending loop, proved against a recursive specification of the text |
| `Store` | store.dfy | `addRecord`, `updateRecord`, `deleteRecord`: a class whose methods update the collection, the id counter and the event log |

The store's invariant (`Store.RecordStore.Valid`) has three parts:

- ids are unique;
- every stored id has been issued;
- every issued id lies below the counter, so a new id never repeats an earlier one.

Where the code does something other than the design it documents, the model follows the code:

- `addRecord` and `updateRecord` never call `validateRecord`, because `db/index.js` does not import `db/record.js`. A blank name or value is therefore stored as `""`. `Store.BlankNameStoredByAdd` and `Store.BlankNameStoredByUpdate` state this.
- `searchRecords` lower-cases and trims the keyword and uses the result as the pattern. A blank keyword therefore matches every record with a name or a value, instead of none.
- `updateRecord` and `deleteRecord` answer a malformed id as they answer an unknown one: `new ObjectId(id)` throws and the catch returns `null`.
- Descending order is the reverse of ascending order only when no two documents share a key. With ties, the stable sort keeps tied documents in collection order in both directions.

## Model

| member | source | states |
|---|---|---|
| Text.Trim | db/index.js:19-20 | the result is the input minus a maximal leading and a maximal trailing run of white space (a unique split); it is empty exactly when the input is all white space |
| Text.TrimIdempotent | db/index.js:72-73 | trimming an already trimmed string changes nothing |
| Text.TrimLowerCommute | db/index.js:138 | lower-casing then trimming equals trimming then lower-casing, so the search term is the lower-cased trimmed keyword |
| Validator.ValidateRecord | db/record.js:1-8 | passes exactly when both name and value are strings with a non-white-space character; fails with the name error exactly when the name is missing, falsy, not a string or blank, which takes precedence; fails with the value error exactly when the name is good and the value is not |
| Records.ListRecords | db/index.js:42-59 | one record per document in collection order; a missing name or value becomes `""`, and a missing timestamp becomes the current time |
| Records.ListRecordsLossless | db/index.js:51-57 | for documents with every field present, listing ignores the clock and loses nothing: each listed record maps back to its document |
| Queries.SearchRecords | db/index.js:135-156 | a document is returned exactly when its name or value contains the lower-cased trimmed keyword, ignoring ASCII case; the result keeps collection order (it is a subsequence of the collection) |
| Queries.BlankKeywordMatchesAll | db/index.js:138-146 | a keyword that is empty or all white space returns the whole collection of documents that have a name or value |
| Queries.KeywordInNameIsFound | db/index.js:143 | a document whose name contains the trimmed keyword, in any mix of ASCII case, is returned |
| Queries.KeywordInValueIsFound | db/index.js:144 | a document whose value literally contains the trimmed keyword is returned |
| Queries.KeyLeqTotalOrder | db/index.js:177 | the order on sort keys (missing < number < string, strings lexicographic) is reflexive, transitive, antisymmetric and total |
| Queries.SortRecords | db/index.js:164-186 | the result is a permutation of the collection, ordered by the named field ascending when the order is exactly `"asc"` and descending for any other order |
| Queries.SortedUnique | db/index.js:175-178 | when keys are distinct, only one ascending arrangement of a collection exists |
| Queries.DescendingIsReversedAscending | db/index.js:173 | when no two documents share the key, the descending sort is the reverse of the ascending sort |
| Queries.DescendingByIdIsReversedAscending | db/index.js:173-177 | ids are unique, so sorting by `_id` descending reverses sorting by `_id` ascending |
| Statistics.GetStatistics | db/index.js:194-253 | an empty collection gives `{totalRecords: 0, message: 'No records to analyze'}`; otherwise the summary holds the record count, the first record of maximal name length, the earliest and latest creation times (earliest <= latest), the greatest update time (no earlier than the latest creation when each record was updated no earlier than created), and the number of distinct names in the collection |
| Statistics.DistinctNamesBound | db/index.js:243 | the distinct-name count is at most the number of documents, and at least one when a document has a name |
| Export.GetAllRecordsForExport | db/index.js:264-282 | returns the listed records unchanged and the concatenation, in list order, of each record's seven-line block; an empty collection gives `""` |
| Export.BlockFrame | db/index.js:270-276 | each block begins `Record #i` with its 1-based position and ends with a rule of forty dashes |
| Export.FormatPrefix | db/index.js:269-277 | the export of the first k records is a prefix of the export, and record k's block follows it directly |
| Export.FormatLines | db/index.js:269-277 | when names and values hold no line break, the export has exactly seven lines per record |
| Store.IndexOf | db/index.js:109 | finds the position of the one document with the given id, or reports that no document has it |
| Store.RecordStore.AddRecord | db/index.js:13-35 | appends exactly one document, with the trimmed name and value, both timestamps equal to the one clock reading, and an id never issued before (so no stored document has it); emits `recordAdded` once with it; keeps the store invariant and the ordering of creation before update |
| Store.RecordStore.UpdateRecord | db/index.js:66-100 | for a malformed or unknown id, returns nothing, changes nothing and emits nothing; otherwise sets the trimmed name and value and the new update time on that document only, keeps its id and creation time, emits `recordUpdated` with the result, and keeps creation before update when the clock is not behind |
| Store.RecordStore.DeleteRecord | db/index.js:103-131 | for a malformed or unknown id, returns nothing, changes nothing and emits nothing; otherwise returns the document's exact fields, removes it with the others keeping their order, emits `recordDeleted` with that snapshot, and leaves no document with the id |
| Store.DeleteThenAdd | db/index.js:26-30 | an id freed by a delete is not handed out again by the next insertion |
| Store.BlankNameStoredByAdd | db/index.js:16-24 | a white-space-only name, which `validateRecord` refuses with the name error, is stored by `addRecord` as `""` in the document it appends |
| Store.BlankNameStoredByUpdate | db/index.js:72-73 | a white-space-only name, which `validateRecord` refuses with the name error, becomes `""` on the document `updateRecord` selects; the update happens exactly when the id is well formed and present |

## Left out

- `main.js` (the menu loop, console output, backup and export files) is not part of this model, because it is interactive I/O.
- `db/connection.js` (connecting, closing, the SIGINT handler) is not part of this model, because it manages an external resource.
- `db/file.js` (JSON files) is not part of this model, because it is file I/O that the store does not use.
- Event subscribers (`../events`, the logger) are left out. Only the fact of each `emit` and its payload are recorded, in the ghost log.
- Backend failures are left out, because the model has no failing backend. These are the catch branches that return `[]`, `null`, `'Error retrieving statistics'` or `'Error retrieving records'`, or that rethrow in `addRecord`.
- Non-string arguments are left out: `addRecord` and `updateRecord` take strings. Calling `trim` on anything else throws, and `updateRecord` catches that and returns `null`.
- ObjectId generation and parsing are left out. Ids are naturals, a malformed id is an `IdArg` case, and the export renders an id in decimal instead of as 24 hex digits.
- `Queries.SearchRecords`: the pattern is read as a literal substring, so regular-expression metacharacters in the keyword are not modelled. Case is ignored for ASCII letters only; Unicode case folding is not modelled.
- `Queries.SortRecords`: MongoDB's ordering of tied documents is unspecified, and the model keeps them in collection order. Collation is left out: strings compare by code point.
- `Store.RecordStore.UpdateRecord`: it treats `findOneAndUpdate`'s `result.value` as "the matched document or absent". Newer driver versions return the document directly, and with them the source always answers `null` after applying the update. The model does not capture that behaviour.
- Date formatting is left out: `toISOString`, `toLocaleString` and the date-only truncation of `earliestRecord` and `latestRecord`. Timestamps are naturals, which order the same way as ISO strings of one format. The `'N/A'` fallbacks never apply to listed records.
- `Records.ListRecords`: the source reads the clock once per missing timestamp. The model takes one reading per call. Every document has an id, so the `'unknown'` fallback is not modelled.
- The text of the thrown errors (`'Name is required and must be a non-empty string'` and its value counterpart) is left out; `Validator.ValidationError` says only which of the two is thrown.
- `Validator.ValidateRecord`: a `record` that is itself `undefined` or `null`, where property access throws a `TypeError`, is left out. `NaN` is not among the number values, and objects are never falsy.
- String lengths (`name.length`) count characters of the model's strings, not UTF-16 code units.
- async/await and `console` logging are left out, because the model is sequential.
