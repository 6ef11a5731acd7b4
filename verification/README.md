# Wildberries box-tariff pipeline — a Dafny model

This project models the core of a service with three jobs. It fetches the daily box-tariff
list from the Wildberries API, normalizes it into one row per warehouse, and stores a
snapshot per date in Postgres. It then exports the latest snapshot to Google Sheets.

The project has these modules:

- `Normalize` (normalize.dfy) is the tariff normalizer. It finds the array of row objects
  inside an arbitrary JSON payload by a depth-first search that prefers a `warehouseList`
  field. For each row it picks a warehouse name and a coefficient: first from prioritized
  keys, then from keys that match a case-insensitive pattern. It flattens each payload to
  scalars and sorts the rows with null coefficients last.
- `TariffRepository` (repository.dfy) is the tariff store. The two tables are a class
  holding a map from date to parent record and a sequence of stored rows. Its invariant
  is the schema's foreign key (every row's date has a parent) and its uniqueness of
  (date, warehouse name). The upsert is one transaction: deduplicate, upsert the parent,
  delete the date's rows, insert the new rows. Any statement of it may fail, and a failure
  rolls the whole transaction back. The read query returns the latest date's rows in
  SQL order.
- `WbClient` (client.dfy) is the API client. Its retry loop runs over a given sequence of
  per-attempt outcomes: a transport failure, or an HTTP status with a body. The loop
  returns the result, the list of backoff delays it waited and the number of attempts.
  The module also covers the error-message choice, the envelope check and the diagnostic
  helpers.
- `SheetExport` (sheets.dfy) builds the cell grid for Google Sheets from the latest rows:
  - a header of the fixed fields and the sorted union of payload keys, with Russian
    labels;
  - one line per row;
  - cell stringification and sheet-name quoting.
- `SpreadsheetIds` (spreadsheets.dfy) produces the list of target spreadsheets. It takes
  an identifier from a bare id or a Sheets URL, parses the comma-separated setting, and
  merges the table's ids with the setting's ids, keeping the first occurrence of each.
- Shared modules:
  - `Wrappers` and `JsonValues` (json.dfy): the optional value, JSON values with
    property lookup, and the `Runtime` of JavaScript built-ins whose internals are not
    modelled;
  - `Strings` (strings.dfy): `trim`, `split`, `replace`, decimal rendering,
    case-insensitive search and a total order on strings;
  - `Sorting` (sorting.dfy): a stable sort, proved sorted, a permutation and stable;
  - `Dedup` (dedup.dfy): deduplication by key with the first occurrence kept.

Parts of the source that update state step by step are modelled imperatively:

- the `flattenObject`, `pickWarehouseName` and `pickCoefficient` loops;
- `deduplicateRows`;
- the store's upsert and read;
- the retry loop;
- the `buildRows` loops.

Each of these is a method proved equal to a specification function, and the properties
are proved about those functions. The parts that are expressions become functions.

The built-ins `Number(text)`, `String(number)`, `JSON.stringify` and `JSON.parse` are
fields of a `Runtime` value passed as a parameter, so no result depends on how they are
implemented. Inputs that come from the outside are parameters:

- the database contents;
- the current timestamp;
- the point at which a transaction fails;
- the API's responses;
- the setting `GOOGLE_SPREADSHEET_IDS`.

A non-retryable status and an unexpected envelope are not final failures. The `throw`s
for them (src/services/wb/client.ts:116 and line 121) sit inside the `try`, so the `catch`
at line 125 retries them like transport errors whenever attempts remain.
`WbClient.BadRequestRetried` states this behaviour.

## Model

| member | source | states |
|---|---|---|
| Normalize.RecordsOf | src/services/wb/normalize.ts:9-11 | an array of plain objects read as rows: one row per element, each element being exactly that object |
| Normalize.NumericText | src/services/wb/normalize.ts:19 | the text handed to `Number()`: no whitespace left; if there was a `,`, exactly one `,` became `.`; every other non-space character is kept with its count |
| Normalize.ParseNumeric | src/services/wb/normalize.ts:13-25 | numbers pass through; a non-blank string gives `Number()` of its normalized text; blank strings, booleans, null, arrays and objects give null |
| Normalize.ToStringValue | src/services/wb/normalize.ts:27-37 | a value exists exactly for numbers and non-blank strings; for a string it is the trimmed text, non-empty, with no whitespace at either end; for a number it is `String(n)` |
| Normalize.FlatValue | src/services/wb/normalize.ts:43-53 | always a scalar: null gives "", arrays and objects give their JSON text, scalars are unchanged |
| Normalize.Flattened | src/services/wb/normalize.ts:39-57 | the flattened object has exactly the input's keys (apart from `__proto__`, see Left out) and only scalar values |
| Normalize.FlattenedEntrywise | src/services/wb/normalize.ts:42-54 | for an object with distinct keys, entry i of the output is entry i's key with its flattened value |
| JsonValues.Put | src/services/wb/normalize.ts:44-53 | `output[key] = v`: the key maps to v, other keys keep their values, a new key is appended in the model's entry order and a present key keeps its place; this matches the source's enumeration order when, as here, the keys come from `Object.entries` |
| Normalize.FlattenObject | src/services/wb/normalize.ts:39-57 | the loop that fills `output` computes `Flattened` |
| Normalize.FindInItems | src/services/wb/normalize.ts:65-72 | the search over array elements is empty exactly when every remaining element yields nothing; otherwise it is the result of the first element that yields rows |
| Normalize.FindInValues | src/services/wb/normalize.ts:84-91 | the same first-non-empty search over an object's values, in entry order |
| Normalize.FindRowsPrefersWarehouseList | src/services/wb/normalize.ts:79-82 | an object whose `warehouseList` is an array of objects yields exactly those objects; an empty list yields no rows and sibling fields are not searched |
| Normalize.FindRowsBaseCases | src/services/wb/normalize.ts:60-63 | a non-empty array of objects is the row source itself; null and scalars yield nothing |
| Normalize.FindRowsNonEmptyIffDiscoverable | src/services/wb/normalize.ts:59-92 | the search finds rows exactly when the payload contains a non-empty array of objects or an object whose `warehouseList` is a non-empty array of objects, reachable through arrays and objects |
| Normalize.NameAt | src/services/wb/normalize.ts:98-102 | a name from a prioritized key exists exactly when the key is present and its value reads as a non-empty string, and it is that string |
| Normalize.NameOfEntry | src/services/wb/normalize.ts:106-112 | a name from an entry exists exactly when the key contains `warehouse`, `склад` or `ware` ignoring case and the value reads as a non-empty string, and it is that string |
| Normalize.NameByKeys | src/services/wb/normalize.ts:97-104 | no name exactly when no prioritized key gives one; otherwise the name from the first key that does |
| Normalize.NameByPattern | src/services/wb/normalize.ts:106-113 | no name exactly when no matching entry gives one; otherwise the name from the first entry that does |
| Normalize.WarehouseName | src/services/wb/normalize.ts:94-116 | never empty: the prioritized keys first, then the pattern keys, else `warehouse_` followed by the 1-based row index |
| Normalize.SyntheticNamesDistinct | src/services/wb/normalize.ts:115 | two rows without a usable name get different synthetic names when their indices differ |
| Normalize.PickWarehouseName | src/services/wb/normalize.ts:94-116 | the two loops with early return compute `WarehouseName` |
| Normalize.CoefficientAt | src/services/wb/normalize.ts:128-133 | a coefficient from a prioritized key exists exactly when the key is present and its value parses, and it is the parse of that value |
| Normalize.CoefficientOfEntry | src/services/wb/normalize.ts:136-142 | a coefficient from an entry exists exactly when the key contains `coef`, `coefficient`, `expr` or `коэф` ignoring case and the value parses, and it is the parse of that value |
| Normalize.CoefficientByKeys | src/services/wb/normalize.ts:127-134 | no coefficient exactly when no prioritized key parses; otherwise the first key's that does |
| Normalize.CoefficientByPattern | src/services/wb/normalize.ts:136-143 | no coefficient exactly when no matching entry parses; otherwise the first matching entry's that does |
| Normalize.Coefficient | src/services/wb/normalize.ts:118-146 | the prioritized keys win; only when none of them parses is the pattern search used |
| Normalize.CoefficientFromRow | src/services/wb/normalize.ts:118-146 | a coefficient is always the parse of some value in the row (never a default); it is null exactly when no prioritized key and no matching entry parses |
| Normalize.PickCoefficient | src/services/wb/normalize.ts:118-146 | the two loops with early return compute `Coefficient` |
| Normalize.RowLeNullsByName | src/services/wb/normalize.ts:163-165 | between two rows with null coefficients the order is by warehouse name |
| Normalize.RowLeTotalPreorder | src/services/wb/normalize.ts:162-173 | the comparator is a total preorder, so the sort is well defined |
| Normalize.MapRows | src/services/wb/normalize.ts:151-161 | one output row per discovered row: its name (from the pre-sort index), its coefficient and its flattened payload |
| Normalize.NormalizeBoxTariffs | src/services/wb/normalize.ts:148-174 | total; as many rows as were discovered; a permutation of the mapped rows; sorted by the comparator |
| Normalize.NormalizeOrder | src/services/wb/normalize.ts:162-173 | null coefficients come after all others; non-null coefficients ascend; rows with null coefficients are ordered by name |
| Normalize.NormalizeRowShape | src/services/wb/normalize.ts:151-161 | every output row has a non-empty name and only scalar payload values |
| Normalize.NormalizeStable | src/services/wb/normalize.ts:162-173 | rows that compare equal keep their discovery order (the sort is stable; equal coefficients have no name tie-break) |
| Normalize.NormalizeEmptyWhenNothingDiscoverable | src/services/wb/normalize.ts:148-151 | the result is empty exactly when the payload holds no discoverable row array |
| Dedup.DedupBy | src/services/wb/repository.ts:11-21 | deduplication never lengthens the list, leaves keys pairwise distinct and keeps every key present |
| Dedup.DedupBySnoc | src/services/wb/repository.ts:14-18 | one more element is kept exactly when its key has not been seen |
| Dedup.DedupByFirstOccurrences | src/services/wb/repository.ts:11-21 | the output is a subsequence of the input, and each kept element is the first with its key |
| Dedup.DedupByDistinct | src/services/wb/repository.ts:11-21 | a list whose keys are already distinct is unchanged |
| Dedup.DedupByIdempotent | src/services/wb/repository.ts:11-21 | deduplicating twice is deduplicating once |
| Dedup.DedupByAppend | src/services/spreadsheets/repository.ts:35 | deduplicating a concatenation keeps the first part's deduplication as a prefix, and what follows has keys the first part lacks |
| Dedup.DedupIdentityMembers | src/services/spreadsheets/repository.ts:35 | a `Set` built from a list holds exactly the list's values |
| TariffRepository.RowsOn | src/services/wb/repository.ts:63-65 | the rows of one date are exactly the stored rows with that date |
| TariffRepository.Without | src/services/wb/repository.ts:41 | deleting a date's rows keeps exactly the rows of other dates and keeps keys unique |
| TariffRepository.Tagged | src/services/wb/repository.ts:44-51 | the inserted rows are the deduplicated rows, in order, each tagged with the date |
| TariffRepository.TaggedAppendUnique | src/postgres/migrations/20260219190000_wb_box_tariffs.js:19 | inserting rows with distinct warehouse names under a date that has no rows keeps (date, warehouse name) unique |
| TariffRepository.RowsOnAfterUpsert | src/services/wb/repository.ts:41-52 | after delete-then-insert the date holds exactly the inserted rows; nothing from an earlier snapshot survives |
| TariffRepository.RowsOnOtherDate | src/services/wb/repository.ts:41-52 | the rows of every other date are unchanged by an upsert |
| TariffRepository.RowsOnAppend | src/services/wb/repository.ts:63-65 | selecting a date distributes over concatenation |
| TariffRepository.RowsOnNone | src/services/wb/repository.ts:63-65 | a date no row has selects nothing |
| TariffRepository.RowsOnAll | src/services/wb/repository.ts:63-65 | when every row has the date, selecting it returns all of them in order |
| TariffRepository.RowsOnWithout | src/services/wb/repository.ts:41 | deleting one date's rows does not change another date's selection |
| TariffRepository.SqlLeTotalPreorder | src/services/wb/repository.ts:66-67 | the ORDER BY (nulls last, coefficient ascending, then name) is a total preorder |
| TariffRepository.SqlLeNoTies | src/services/wb/repository.ts:66-67 | rows of different warehouses never tie, so within one date the order is strict |
| TariffRepository.MaxDate | src/services/wb/repository.ts:57 | the maximum is one of the dates and no date is greater |
| TariffRepository.TariffStore.constructor | src/postgres/migrations/20260219190000_wb_box_tariffs.js:6-20 | the empty store satisfies the schema's invariants |
| TariffRepository.TariffStore.DeduplicateRows | src/services/wb/repository.ts:11-21 | the loop that fills the map yields the first row per warehouse in first-occurrence order; names are distinct and none is lost |
| TariffRepository.TariffStore.UpsertDailyTariffs | src/services/wb/repository.ts:23-54 | commits unless a statement fails (an empty insert is skipped, so it cannot fail); on failure nothing changes; on commit the parent holds the new raw response and both timestamps are overwritten, the date's rows are replaced by the deduplicated rows, other dates are untouched, and the foreign-key and uniqueness invariants hold |
| TariffRepository.TariffStore.GetLatestTariffRows | src/services/wb/repository.ts:56-75 | no parent gives []; otherwise the rows of the maximum date in SQL order |
| TariffRepository.LatestRowsOrdered | src/services/wb/repository.ts:63-67 | the latest rows are sorted by the ORDER BY, are a permutation of that date's rows, and all carry that date |
| WbClient.ParseJsonSafely | src/services/wb/client.ts:33-39 | the parsed value, or the original text when parsing fails |
| WbClient.CompactJson | src/services/wb/client.ts:41-50 | strings are returned unchanged; other values give their JSON text |
| WbClient.CompactUnparsedBody | src/services/wb/client.ts:33-50 | a body that is not JSON is logged as its original text |
| WbClient.DescribeToken | src/services/wb/client.ts:52-57 | the description is made only of the token's length and its segment count, the number of dots plus one |
| WbClient.DescribeTokenReveals | src/services/wb/client.ts:52-57 | two tokens get the same description exactly when they have the same length and dot count, so nothing else about the token is revealed |
| WbClient.DetailMessage | src/services/wb/client.ts:86-89 | for a body matching the error schema: `detail`, else `title`, else "WB API error"; for any other body: "WB API error with status n" |
| WbClient.CheckEnvelope | src/services/wb/client.ts:4-8 | the envelope is accepted exactly when the body is an object whose `response` is an object, and `data` is that object's `data` |
| WbClient.RunFrom | src/services/wb/client.ts:67-134 | the loop from a given attempt makes no more attempts than remain |
| WbClient.TryAttempt | src/services/wb/client.ts:73-130 | an attempt backs off exactly for a non-2xx retryable status (429 or 5xx) before the last attempt; it succeeds exactly for a 2xx body passing the envelope check, with that envelope's response; a transport failure is caught as is; the early-return body of the `try` and its `catch` compute `AttemptOutcome`, which the loop's trace is defined by |
| WbClient.FetchBoxTariffs | src/services/wb/client.ts:59-137 | the loop's result, delays and attempt count are those of `Run`; between 1 and retries + 1 attempts, with 3 retries by default |
| WbClient.RunFirstSuccess | src/services/wb/client.ts:67-124 | when attempt k is the first to succeed, its envelope is returned after k + 1 attempts, with delays of 500·2^i ms after each earlier attempt i |
| WbClient.RunAllFail | src/services/wb/client.ts:125-136 | when no attempt succeeds, retries + 1 attempts are made with delays 500·2^i, the final attempt always reaches the `catch`, and the error is the fixed prefix followed by the final attempt's error |
| WbClient.FailureBeforeLastRetried | src/services/wb/client.ts:111-130 | any failure before the last attempt is followed by a wait of 500·2^k ms and another attempt |
| WbClient.RetryScenario | src/services/wb/client.ts:111-124 | responses 503, 503, 200 give the data after three attempts with waits of 500 then 1000 ms |
| WbClient.BadRequestRetried | src/services/wb/client.ts:116-130 | a 400 on the first of several attempts is not final: it waits 500 ms and the loop continues with the status error recorded |
| SheetExport.StringifyCell | src/services/google-sheets/sync.ts:24-38 | absent and null give ""; numbers stay numbers; strings are unchanged; booleans give "true" or "false"; arrays and objects give their JSON text |
| SheetExport.StringifyScalarNeedsNoJson | src/services/google-sheets/sync.ts:25-36 | the cell of a scalar or absent value does not depend on the JSON serializer |
| SheetExport.ToRuHeader | src/services/google-sheets/sync.ts:40-42 | a mapped field gets its Russian label; any other field is returned unchanged |
| SheetExport.FixedHeaderLabels | src/services/google-sheets/sync.ts:7-22 | the fixed columns are labelled "Дата тарифа", "Склад" and "Коэффициент", and `warehouse_name` and `warehouseName` share a label |
| SheetExport.KeysOfPayload | src/services/google-sheets/sync.ts:52 | `Object.keys` lists a payload's keys in entry order |
| SheetExport.AllPayloadKeysMembers | src/services/google-sheets/sync.ts:51-55 | the collected keys are exactly the keys present in some row's payload |
| SheetExport.OrderedPayloadKeysCharacterized | src/services/google-sheets/sync.ts:50-57 | the payload columns are exactly the keys of some row, pairwise distinct and in ascending order |
| SheetExport.Header | src/services/google-sheets/sync.ts:58 | the header is the labels of the three fixed fields followed by the labels of the payload keys |
| SheetExport.DataRow | src/services/google-sheets/sync.ts:62-63 | a line is date, warehouse name, the coefficient or "" when null, then the cell for each payload key (own keys only, see Left out) |
| SheetExport.DataRows | src/services/google-sheets/sync.ts:61-64 | one line per stored row, in order |
| SheetExport.Grid | src/services/google-sheets/sync.ts:44-68 | no rows give the single line of untranslated names `tariff_date`, `warehouse_name`, `coefficient`; otherwise the header followed by one line per row |
| SheetExport.GridRectangular | src/services/google-sheets/sync.ts:44-68 | the grid has one line per row plus the header, and every line has 3 + (number of distinct keys) cells |
| SheetExport.GridMissingKeyBlank | src/services/google-sheets/sync.ts:62 | a key missing from a row's payload gives an empty cell (own keys only, see Left out) |
| SheetExport.AddPayloadKeys | src/services/google-sheets/sync.ts:52-54 | the inner loop adds one payload's keys: the set then holds the distinct keys seen so far followed by this payload's new keys |
| SheetExport.CollectPayloadKeys | src/services/google-sheets/sync.ts:50-55 | the loop that fills the `Set` yields the distinct keys in first-seen order |
| SheetExport.BuildRows | src/services/google-sheets/sync.ts:44-68 | the loops that build `values` compute `Grid` |
| SheetExport.DoubleQuotes | src/services/google-sheets/sync.ts:71 | doubling quotes adds one character per quote |
| SheetExport.QuoteSheetName | src/services/google-sheets/sync.ts:70-72 | the quoted name starts and ends with `'` and has length n + 2 + (number of quotes) |
| SheetExport.QuoteSheetNameRoundTrip | src/services/google-sheets/sync.ts:70-72 | removing the outer quotes and undoubling the inner ones gives back the sheet name |
| SpreadsheetIds.IdRun | src/services/spreadsheets/repository.ts:10 | the greedy `[a-zA-Z0-9-_]+` run: a prefix of identifier characters followed by a non-identifier character or the end |
| SpreadsheetIds.FirstMatch | src/services/spreadsheets/repository.ts:10 | the leftmost position where `/spreadsheets/d/` is followed by an identifier character; none exactly when there is no such position |
| SpreadsheetIds.Captured | src/services/spreadsheets/repository.ts:10-12 | the captured group is non-empty, made of identifier characters, sits right after the marker and is maximal |
| SpreadsheetIds.ExtractSpreadsheetId | src/services/spreadsheets/repository.ts:4-16 | null exactly for blank input; otherwise non-empty with no whitespace at either end |
| SpreadsheetIds.ExtractCases | src/services/spreadsheets/repository.ts:10-15 | identifier characters only when the pattern matched; the trimmed input when it did not |
| SpreadsheetIds.ExtractBareId | src/services/spreadsheets/repository.ts:4-16 | a bare identifier is returned as itself |
| SpreadsheetIds.ExtractIdempotent | src/services/spreadsheets/repository.ts:4-16 | extracting again from an extracted identifier returns the same identifier |
| SpreadsheetIds.ExtractIsSlice | src/services/spreadsheets/repository.ts:4-16 | the identifier is a contiguous piece of the input |
| SpreadsheetIds.ExtractFromUrl | src/services/spreadsheets/repository.ts:10-13 | a Sheets URL such as `https://docs.google.com/spreadsheets/d/<id>/edit` yields exactly `<id>` |
| SpreadsheetIds.IdsOf | src/services/spreadsheets/repository.ts:26-27 | mapping and filtering never lengthens the list and never yields an empty identifier |
| SpreadsheetIds.IdsOfMembers | src/services/spreadsheets/repository.ts:26-27 | an identifier is listed exactly when some value extracts to it |
| SpreadsheetIds.IdsOfAppend | src/services/spreadsheets/repository.ts:32-35 | the ids of a concatenation are the concatenated ids |
| SpreadsheetIds.IdsOfExclude | src/services/spreadsheets/repository.ts:24-27 | a character no value holds appears in no extracted identifier |
| SpreadsheetIds.ParseEnvSpreadsheetIds | src/services/spreadsheets/repository.ts:18-28 | unset or empty gives []; otherwise the entries' identifiers, none empty and none holding a comma |
| SpreadsheetIds.ParseEnvJoinRoundTrip | src/services/spreadsheets/repository.ts:18-28 | identifiers written comma-separated are read back unchanged and in order |
| SpreadsheetIds.GetSpreadsheetIds | src/services/spreadsheets/repository.ts:30-36 | the ids are pairwise distinct and non-empty, and are exactly those from the table or the setting |
| SpreadsheetIds.GetSpreadsheetIdsTableFirst | src/services/spreadsheets/repository.ts:35 | the table's ids come first in their own order; the setting adds only ids the table lacks |
| Strings.Trim | src/services/spreadsheets/repository.ts:5 | the result of `trim()` is empty exactly for blank input and otherwise starts and ends with non-whitespace |
| Strings.TrimSlice | src/services/spreadsheets/repository.ts:5 | `trim()` removes only whitespace, and only at the two ends: the result is a slice with nothing but whitespace before and after it |
| Strings.TrimIdempotent | src/services/spreadsheets/repository.ts:5 | trimming twice is trimming once |
| Strings.ReplaceFirst | src/services/wb/normalize.ts:19 | `replace` with a string pattern changes only the first occurrence |
| Strings.RemoveSpaces | src/services/wb/normalize.ts:19 | the global `\s` replace removes every whitespace character and keeps every other one |
| Strings.Split | src/services/spreadsheets/repository.ts:25 | `split` gives one more piece than there are separators, and no piece holds a separator |
| Strings.JoinSplit | src/services/spreadsheets/repository.ts:25 | joining the pieces gives back the text |
| Strings.SplitJoin | src/services/spreadsheets/repository.ts:25 | splitting joined separator-free pieces gives back the pieces |
| Strings.Decimal | src/services/wb/normalize.ts:115 | the decimal text is non-empty digits without a leading zero |
| Strings.DecimalInjective | src/services/wb/normalize.ts:115 | different numbers render differently |
| Strings.LexLeTotal | src/services/google-sheets/sync.ts:57 | any two strings are comparable |
| Strings.LexLeAntisymmetric | src/services/google-sheets/sync.ts:57 | strings ordered both ways are equal |
| Strings.LexLeTransitive | src/services/google-sheets/sync.ts:57 | the order is transitive |
| Strings.Compare | src/services/wb/normalize.ts:164 | the three-way comparison is zero exactly for equal strings and negative exactly when the first sorts before the second |
| Sorting.SortBySorted | src/services/wb/normalize.ts:162 | sorting by a total preorder gives a sorted list |
| Sorting.SortBy | src/services/wb/normalize.ts:162 | sorting gives a permutation of the input |
| Sorting.SortByStable | src/services/wb/normalize.ts:162 | elements that compare equal keep their relative order |

## Left out

- Network, timers and the log: `fetch`, `AbortController` timeouts, `wait` and the `console.error` diagnostics. Each attempt's outcome is a parameter, and the waits are returned as a list of delays. `compactJson` and `describeToken` are modelled on their own, not as part of the log record.
- The base URL, the request URL and the request timeout setting of the client play no part in the result and are not modelled.
- The Google Sheets API calls `ensureSheetExists` and `syncLatestTariffsToGoogleSheets` are foreign network calls. `buildRows` takes the stored rows as a parameter.
- Knex, SQL text and the database engine. The two tables are a map and a sequence. The serial `id` column of the row table is not modelled. The cascade delete of rows when a parent is deleted is not modelled either, because no operation deletes a parent; the foreign key it protects is part of the store's invariant.
- Postgres `decimal(14,6)` rounding of coefficients and JSONB re-encoding of payloads (key reordering, duplicate keys): stored values come back exactly as written.
- `Number()`, `String(number)`, `JSON.parse` and `JSON.stringify` are given functions. Floating point, NaN, Infinity and exponent syntax are out of scope, so `Number.isFinite` is assumed of every number value.
- `localeCompare`, Postgres text ordering and date ordering are replaced by code-point lexicographic order. It is a total order, and ISO dates order chronologically under it; locale collation rules are not modelled.
- `Array.prototype.sort` in place is modelled as a stable insertion sort on sequences. The source has no sort loop of its own, and the JavaScript sort is stable.
- `toRuHeader` looks labels up in a plain object, which would also find inherited names such as `constructor`; the model uses a map of the fourteen own labels only.
- The case-insensitive patterns fold ASCII and Cyrillic letters only. Case folding for other scripts is not modelled.
- `src/config/env/env.ts`, `src/app.ts`, `src/services/pipeline/run.ts`, `src/utils/service.ts` and `check-wb-api.js` are not part of this model. The settings they read are parameters.
- Normalize.Flattened / FlattenedEntrywise / FlattenObject: a `__proto__` key is dropped by the prototype setter of the plain output object; the model keeps it as an ordinary key.
- WbClient.DescribeToken: lengths are counted in characters, not UTF-16 code units; the two differ only for characters outside the Basic Multilingual Plane.
- SheetExport.DataRow / GridMissingKeyBlank: the cell lookup `row.payload[key]` also finds names inherited from `Object.prototype` (`constructor`, `toString`, `valueOf`, …); for a row lacking such a key as its own, the source's cell is `JSON.stringify` of a function, which is `undefined`, where the model gives "". The model looks up own keys only.
- SpreadsheetIds.ExtractFromUrl: proved for URLs whose text before the marker has each `/` followed by a character other than `s`, and with no surrounding whitespace, which covers Google's URL form but not every text the pattern matches.
