# Company upload and results — a Dafny model

A small Next.js application takes an uploaded CSV of companies and cleans it:
it trims every cell, copies each row into a `raw_json` field, sends the rows to
an AI enrichment service, and upserts the result into a `Companies` table keyed
on `(company_name, domain)`. The results page then lists the companies through
two API routes:

- one returns the distinct employee-size buckets in bucket order;
- one returns the companies matching optional country, domain and
  employee-size filters.

The results table also turns column ids into labels and keeps the filter state
in the page's search parameters.

The modules follow the program:

| file | models |
|---|---|
| `wrappers.dfy` | `Option` (JavaScript's `undefined`/`null`, SQL NULL) |
| `js_string.dfy` | the string operations the code relies on: `trim` with the ECMAScript whitespace set, `includes`, `split`/`join` on one character, `replaceAll` of one character, ASCII case mapping |
| `schema.dfy` | CSV cells and rows, the `Companies` row, the natural key, HTTP responses |
| `upload.dfy` | `pages/api/upload.ts`: the ordered chain of checks, the cell trim and the `raw_json` shaping; libraries are opaque services and the outcome carries the trace of services called |
| `company_store.dfy` | the table as a class holding a map from natural key to row, and the upsert's replace-on-conflict policy |
| `employee_sizes.dfy` | `pages/api/employee_sizes.ts`: `Set` deduplication, the stable sort by `sizeOrder.indexOf`, the error mapping |
| `companies.dfy` | `pages/api/companies.ts`: the query built under three `if`s, its evaluation against the table, the error mapping |
| `data_table.dfy` | `app/results/data-table.tsx`: `getColumnLabel`, `updateUrl` over a `URLSearchParams` class, the employee-size select |

Several things are parameters rather than models:

- Library and service results: multipart parsing, file reading, `Papa.parse`,
  the AI call, `JSON.parse` and the store's answers.
- The table's rows.
- The current search parameters.

A function cannot call a method. So `Upload.Handle` takes the upsert's answer
as a service. `CompanyStore.Store.Upsert` states what an accepted upsert does
to the table.

## Model

| member | source | states |
|---|---|---|
| `Upload.Handle` | pages/api/upload.ts:32-180 | A 200 reply is always exactly `{message: "File uploaded successfully"}`. |
| `Upload.MethodNotAllowed` | pages/api/upload.ts:178-180 | Any method but POST gets 405 "Method not allowed", and no service is called. |
| `Upload.FirstFileOfArray` | pages/api/upload.ts:44-44 | An array of files is handled exactly as its first file alone. |
| `Upload.NoFileUploaded` | pages/api/upload.ts:44-47 | No field, or an empty array, gives 400 "No file uploaded" before any read or parse. |
| `Upload.ChosenFile` | pages/api/upload.ts:44-44 | There is no file exactly when the field is missing or an empty array. Otherwise the file is the single one or the array's first. |
| `Upload.TrimCell` | pages/api/upload.ts:53-57 | A string cell becomes the trim of its text (whitespace cut from both ends only, none left at either end); a non-string cell passes unchanged. |
| `Upload.TrimRow` | pages/api/upload.ts:50-57 | The transform keeps the row's header keys. Each string cell becomes the trim of its text and each non-string cell stays non-string. |
| `Upload.TrimCellIdempotent` | pages/api/upload.ts:53-57 | Trimming an already trimmed cell changes nothing. |
| `Upload.ShapeRow` | pages/api/upload.ts:65-72 | The output has the row's fields plus `raw_json`; every other field keeps its cell; `raw_json` holds exactly the row and overrides a column of that name. |
| `Upload.FileData` | pages/api/upload.ts:65-72 | `fileData` has exactly one shaped record per parsed row. Its fields are given by `FileDataFields`. |
| `Upload.RawJsonRecoversRow` | pages/api/upload.ts:65-72 | In each `fileData` record, every column other than `raw_json` equals the `raw_json` copy's cell of that name: the two spreads agree. |
| `Upload.FileDataFields` | pages/api/upload.ts:65-72 | `fileData` has one row per parsed row; each has all the row's columns with trimmed cells, plus `raw_json` equal to the trimmed row. |
| `Upload.ParseErrorsFirst` | pages/api/upload.ts:60-63 | With parse errors the reply is 400 "Failed to parse the CSV file." whatever rows were produced, and only the file read happened. |
| `Upload.EmptyCsvRejected` | pages/api/upload.ts:74-78 | No rows and no errors gives 400 "CSV file is empty or contains no data.", and only the file read happened. |
| `Upload.AiGetsShapedRows` | pages/api/upload.ts:80-93 | Once past the checks, the enrichment call is made with the shaped rows, one per parsed row. |
| `Upload.LaterServicesIrrelevant` | pages/api/upload.ts:32-78 | A request stopped before the AI call gets the same outcome whatever the AI, JSON and store services do; only file reads happened. |
| `Upload.EmptyText` | pages/api/upload.ts:157-157 | `!aiResponse` holds exactly for `undefined` and the empty string. This is a definition; `EmptyAiResponse` states its consequence. |
| `Upload.EmptyAiResponse` | pages/api/upload.ts:155-161 | Absent or empty AI text gives 500 "AI returned an empty response." and no upsert. |
| `Upload.MalformedJsonThrows` | pages/api/upload.ts:163-163 | Text that `JSON.parse` rejects makes the handler throw, with no reply sent and no upsert. |
| `Upload.UpsertDecides` | pages/api/upload.ts:165-177 | After a parsed batch, a store error gives 500 "Error inserting into Supabase - File upload failed" and no error gives 200. The calls made were read, enrich, upsert, in that order. |
| `Upload.SucceedsIff` | pages/api/upload.ts:32-177 | The reply is 200 exactly when every stage passes: a POST, a file that is read, no parse errors, rows present, non-empty AI text, parseable JSON and an upsert without error. |
| `CompanyStore.Upserted` | pages/api/upload.ts:165-170 | The keys afterwards are the old keys plus the batch's keys; rows under other keys are unchanged; every row sits under its own key. |
| `CompanyStore.LastRecordWins` | pages/api/upload.ts:165-170 | A record with no later record of the same key in the batch is the row under its key afterwards. |
| `CompanyStore.DistinctBatchStored` | pages/api/upload.ts:165-170 | With distinct keys, every record of the batch (`ignoreDuplicates: false`) replaces or adds the row under its key. |
| `CompanyStore.UpsertIdempotent` | pages/api/upload.ts:165-170 | Upserting the same batch twice leaves the table as upserting it once. |
| `CompanyStore.LaterBatchWins` | pages/api/upload.ts:165-170 | Across two uploads, a key of the later upload holds that upload's record with that key. A key only in the earlier upload holds the earlier upload's record with that key. |
| `CompanyStore.AcceptedUpsert` | pages/api/upload.ts:165-170 | After an accepted upsert, each batch key maps to its incoming record; every other key is present and unchanged exactly as before. |
| `CompanyStore.Store.Upsert` | pages/api/upload.ts:165-170 | A batch whose records share a key is refused with the database's cardinality error and the table is unchanged; otherwise the table becomes `Upserted(old, batch)`. At most one row per key holds throughout. |
| `CompanyStore.Store.Lookup` | pages/api/upload.ts:168-168 | A key finds a row exactly when the table has one under it. The row found is the stored one and carries that `(company_name, domain)`. |
| `EmployeeSizes.IndexOf` | pages/api/employee_sizes.ts:42-42 | `indexOf` gives the first position of the value, or -1 exactly when it is absent. |
| `EmployeeSizes.Rank` | pages/api/employee_sizes.ts:29-42 | The rank is in -1..7, and a non-negative rank names the bucket the value is. |
| `EmployeeSizes.RankUnknown` | pages/api/employee_sizes.ts:42-42 | A value ranks -1 exactly when it is NULL or outside the bucket list. |
| `EmployeeSizes.BucketRanks` | pages/api/employee_sizes.ts:29-38 | Each bucket ranks at its own position in the list. |
| `EmployeeSizes.Distinct` | pages/api/employee_sizes.ts:40-41 | The spread `Set` has no duplicates and the same values as the data. |
| `EmployeeSizes.DistinctInFirstOccurrenceOrder` | pages/api/employee_sizes.ts:41-41 | The spread `Set` lists values in the order of their first occurrences. |
| `EmployeeSizes.Insert` | pages/api/employee_sizes.ts:42-42 | One insertion step adds exactly one element to the list's multiset. |
| `EmployeeSizes.InsertSorted` | pages/api/employee_sizes.ts:42-42 | Inserting into a list sorted by key leaves it sorted by key. |
| `EmployeeSizes.InsertWithKey` | pages/api/employee_sizes.ts:42-42 | The inserted element goes before all elements of equal key. |
| `EmployeeSizes.SortBy` | pages/api/employee_sizes.ts:42-42 | The comparator sort gives a permutation of its input, non-decreasing by key. |
| `EmployeeSizes.SortByStable` | pages/api/employee_sizes.ts:42-42 | The sort is stable: elements of each key keep their relative order. |
| `EmployeeSizes.InsertNoDuplicates` | pages/api/employee_sizes.ts:42-42 | Inserting a new element into a duplicate-free list leaves it duplicate-free. |
| `EmployeeSizes.SortByNoDuplicates` | pages/api/employee_sizes.ts:40-42 | Sorting a duplicate-free list leaves it duplicate-free. |
| `EmployeeSizes.UniqueSizes` | pages/api/employee_sizes.ts:40-42 | The list has no duplicates, the same values as the data, and is non-decreasing by rank. |
| `EmployeeSizes.KnownSizesInBucketOrder` | pages/api/employee_sizes.ts:29-42 | After a known bucket, later entries have strictly larger rank. |
| `EmployeeSizes.UnknownSizesFirst` | pages/api/employee_sizes.ts:42-42 | NULL and unknown values come before every known bucket. |
| `EmployeeSizes.EqualRanksInFirstOccurrenceOrder` | pages/api/employee_sizes.ts:40-42 | Values of equal rank, the unknown ones in particular, appear in the order of their first occurrence in the data. |
| `EmployeeSizes.SortsExample` | pages/api/employee_sizes.ts:40-42 | `51-200, NULL, 1-10, 51-200` gives `NULL, 1-10, 51-200`. |
| `EmployeeSizes.Handle` | pages/api/employee_sizes.ts:8-51 | A non-GET gets 405 `Method <M> Not Allowed` with `Allow: ["GET"]`. A store error gets 500 "Error fetching from Supabase" with details; a throw gets 500 "Internal Server Error" with details. Otherwise 200 with the deduplicated, rank-sorted values. |
| `EmployeeSizes.EmptyDataEmptyList` | pages/api/employee_sizes.ts:40-44 | No rows give 200 with an empty list. |
| `Companies.Satisfies` | pages/api/companies.ts:21-31 | A row meets an `ilike` constraint when its column is non-NULL and, ASCII-folded, includes the folded needle. It meets an `eq` constraint when its column equals the value. This is a definition; `ILikeMeansContains` restates it as a substring at some offset. |
| `Companies.Wanted` | pages/api/companies.ts:21-31 | The reference filter: each active parameter's condition holds of the row. This is a definition and the partner of `BuildQuery`. |
| `Companies.BuildQuery` | pages/api/companies.ts:16-31 | A row satisfies the built query exactly when it meets each active filter. Country and domain match as case-insensitive substrings, employee size exactly. Only non-empty string parameters are active, and no active filter means no constraint. |
| `Companies.ILikeMeansContains` | pages/api/companies.ts:22-30 | `ilike(column, "%x%")` keeps exactly the rows whose non-NULL column holds `x` ignoring case. |
| `Companies.Select` | pages/api/companies.ts:18-33 | The store returns each matching row as often as the table holds it, and no other row. |
| `Companies.SelectEverything` | pages/api/companies.ts:18-18 | With no constraint, the whole table is returned. |
| `Companies.Handle` | pages/api/companies.ts:8-50 | A non-GET gets 405 `Method <M> Not Allowed` with `Allow: ["GET"]`. Otherwise 200 with exactly the wanted rows, all rows when no filter is set. A store error gets 500 with details; a throw gets 500 "Internal Server Error" with details. |
| `Companies.ArrayParamIsNoFilter` | pages/api/companies.ts:21-31 | A parameter that arrives as an array filters nothing, like an absent one. |
| `Companies.FilterIgnoresCase` | pages/api/companies.ts:22-30 | Parameters differing only in ASCII case select the same rows. |
| `JsString.Trim` | pages/api/upload.ts:55-55 | `trim` gives the string with its whitespace prefix and suffix cut off; the result neither starts nor ends with whitespace. |
| `JsString.TrimOfIsUnique` | pages/api/upload.ts:55-55 | At most one string is the trim of a given string, so `Trim`'s contract determines it. |
| `JsString.TrimIdempotent` | pages/api/upload.ts:55-55 | Trimming twice is trimming once. |
| `JsString.TrimEmptyIffBlank` | pages/api/upload.ts:55-55 | A cell trims to the empty string exactly when it is all whitespace. |
| `JsString.Includes` | pages/api/companies.ts:22-22 | `includes` is true exactly when the needle occurs at some position. |
| `JsString.ReplaceAll` | app/results/data-table.tsx:96-96 | `replaceAll` keeps the length, replaces every `from` by `to`, leaves no `from` when the two differ, and keeps every other character. |
| `JsString.Join` | app/results/data-table.tsx:99-99 | `join` puts the separator between consecutive pieces. This is a definition; `SplitJoin` proves `split` undoes it on separator-free pieces. |
| `JsString.Split` | app/results/data-table.tsx:97-97 | `split` gives at least one piece, no piece contains the separator, and joining the pieces gives the string back. |
| `JsString.SplitJoin` | app/results/data-table.tsx:97-99 | Pieces free of the separator are split back out of their join. |
| `DataTable.SplitCapitalizeJoin` | app/results/data-table.tsx:97-99 | Over a space-separated string: no word is empty exactly when the string is well spaced. Then capitalise-and-join is the character-wise title. |
| `DataTable.GetColumnLabel` | app/results/data-table.tsx:94-100 | `getColumnLabel` returns the character-wise title exactly when every word between separators is non-empty, and throws otherwise. In the title, separators become spaces and each word's first character is upper-cased. |
| `DataTable.ColumnLabelShape` | app/results/data-table.tsx:96-96 | A label contains no `_` and has as many characters as the id. |
| `DataTable.EmployeeSizeLabel` | app/results/data-table.tsx:94-100 | `employee_size` becomes `Employee Size`. |
| `DataTable.LeadingUnderscoreThrows` | app/results/data-table.tsx:98-98 | An id starting with `_` has an empty first word, so `word[0].toUpperCase()` throws. |
| `DataTable.SetEntry` | app/results/data-table.tsx:78-78 | `set` leaves exactly one value under the name. Every other name keeps its values, and the entries of other names keep their order. |
| `DataTable.ValuesOfWithout` | app/results/data-table.tsx:80-80 | `delete` removes every value under the name, and only those. |
| `DataTable.FirstIndex` | app/results/data-table.tsx:78-78 | Finds the first entry with the name `set` replaces, or reports that there is none. |
| `DataTable.LastValue` | app/results/data-table.tsx:76-82 | A name gets a value from the filter object exactly when it is one of its keys. The value is the one in the last pair with that key. |
| `DataTable.Expected` | app/results/data-table.tsx:76-82 | The reference for the loop: the last pair of a filter key decides, a non-empty value becomes the only value, an empty one deletes, and other names keep their current values. This is a definition; `UpdateUrl` is proved against it. |
| `DataTable.SearchParams.constructor` | app/results/data-table.tsx:75-75 | The copy starts with the current parameters. |
| `DataTable.SearchParams.Set` | app/results/data-table.tsx:78-78 | The entries become `SetEntry` of the old entries. |
| `DataTable.SearchParams.Delete` | app/results/data-table.tsx:80-80 | Every entry with the name is removed. |
| `DataTable.UpdateUrl` | app/results/data-table.tsx:74-84 | Afterwards every name has the expected values. A filter key with a value has exactly that value; a filter key with an empty value has none; other names keep theirs. The entries of non-filter names are unchanged, in order. |
| `DataTable.UpdateStepValues` | app/results/data-table.tsx:76-82 | One `set` or `delete` round keeps every name's values in line with the filters seen so far. |
| `DataTable.UpdateStepOthers` | app/results/data-table.tsx:75-82 | One round leaves the entries of names that are not filter keys untouched. |
| `DataTable.OnEmployeeSizeChange` | app/results/data-table.tsx:108-114 | "clear" sets the size filter to the empty string and any other value sets it to that value; domain and country are unchanged. |
| `DataTable.SelectThenUpdate` | app/results/data-table.tsx:108-114 | After a selection, the URL update drops the size parameter for "clear" and carries exactly the chosen size otherwise. The domain and country parameters are as before. |

## Left out

- Multipart parsing and file reading:
  - `formidable` and `fs.readFileSync` are services whose results the handler receives;
  - a rejected form parse and a failed read are uncaught throws (`Threw`), with no message mapped;
  - the `config` export that turns the body parser off is not modelled.
- CSV grammar: `Papa.parse` (quoting, header handling, `skipEmptyLines`) is represented only by its result, rows and an error list. The model applies the cell transform to the rows it returns, as Papa calls it on each value.
- The enrichment call:
  - the prompt text, model name and `responseSchema` are requests to an external service and are not enforced locally;
  - the service is a function from the shaped rows to an answer.
- `JSON.parse` of the AI text is a service returning a batch of company rows or failing. The source passes whatever JSON value it gets to the upsert; JSON values shaped any other way are not modelled.
- The Supabase client, environment variables and the `GEMINI_API_KEY` check are not modelled.
- Upload.Handle: the upsert's outcome is an opaque service, because a function cannot call the store's method. Store errors other than the batch-cardinality error (connection, constraints) exist only as that service's `Some(message)`.
- CompanyStore.Store.Upsert models only the natural-key conflict policy and PostgreSQL's refusal of a batch that hits one key twice. Other table columns (`id`, timestamps) and NULL key columns are not modelled.
- EmployeeSizes.Handle takes the selected `employee_size` values in the order the store returns them. The query's `order("employee_size")` and its collation and NULL placement are not modelled, so "first occurrence" refers to that returned order.
- Companies.Handle returns the matching rows in table order. PostgreSQL promises no order without `ORDER BY`, so only the multiset of rows is what the source guarantees.
- Companies.Select:
  - `ilike` with `%x%` is modelled as a case-insensitive substring test with ASCII case folding;
  - `%` and `_` inside the parameter act as wildcards in SQL, and PostgREST also reads `*` as `%`; all three are literal characters here;
  - the database's own collation and case rules are not modelled.
- JsString.UpperChar and JsString.LowerChar map ASCII letters only. `toUpperCase` and the database's case folding cover all of Unicode.
- DataTable.UpdateUrl:
  - the copy `new URLSearchParams(searchParams?.toString())` is taken to reproduce the current entries;
  - query-string encoding, `toString` and `router.push` are not modelled.
- The 300 ms debounce, the React state hooks, sorting/visibility/pagination state, the other input handlers and all rendering are not modelled.
- `async`/`await`: every handler is straight-line code.
- Logging: the `console.error` calls (pages/api/upload.ts:61,172; pages/api/employee_sizes.ts:22,47; pages/api/companies.ts:36,46) produce no reply and are not modelled.
