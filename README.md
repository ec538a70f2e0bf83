# Random sheet picker — a Dafny model of its data path

The page script `main.js` loads a published spreadsheet through the
visualization-query endpoint, keeps the parsed header list and row list in
two globals (`HEADERS`, `ROW_DATA`) and in a browser-side cache entry, draws
the table, and on request shows the title, description and link of one row
picked at random. This project models the part of that script with logic in
it:

- `Envelope` — `parseGViz`'s regular expression: the JSON text is taken from
  `google.visualization.Query.setResponse(…);` as everything between the end
  of the first occurrence of the prefix and the last `)` after it. The
  module proves that this scan is exactly the leftmost, greedy match of the
  pattern, that it fails exactly when the pattern matches nowhere, and that
  wrapping any JSON text and extracting it again gives that text back.
- `JsValues` — the JSON scalars a cell carries, JavaScript truthiness, and
  the operators `??` and `||` the script uses as fallbacks.
- `Table` — the parsed response (columns with optional labels; a row list
  that may be missing, with rows that may be null and cell lists that may
  be missing, short or hold nulls; cells with optional `f` and `v`)
  and the extraction of `HEADERS` and `ROW_DATA` from it, which is driven by
  the column list, so every row gets one value per column.
- `Picker` — the field selection of `chooseRandom` and the index
  `Math.floor(Math.random() * n)`, with the random draw as a parameter.
- `App` — the load sequence as a state step (`LoadStep`) over the globals
  and the cache slot, the class `Page` whose `Load` and `ChooseRandom`
  methods change and read that state, and lemmas about cache hits, misses,
  failures and repeated loads.

Behaviours of the script that the model keeps:

- A cell's formatted value is used whenever it is not null, even when it is
  the empty string (`??`, not `||`), and a cell can hold a number or a
  boolean taken from its raw value, not only a string.
- A response without a `table` (an error response) fails at
  `json.table.cols` before anything is assigned (`NoTable`).
- `HEADERS` is assigned (main.js:124) before `ROW_DATA` is built
  (main.js:125-130). A table without a row list, or, when there is at least
  one column, a null row or a row without a cell list, makes the row mapping
  throw after the headers were replaced: the page keeps the new headers with
  the old rows, and nothing is cached (`MalformedRows`).
- The cache is a single entry, stored under the key `"sheet"` in one object
  store (main.js:35, 47).
- A non-success HTTP status is not a failure of its own: `fetch` resolves,
  and the body is then run through the envelope pattern like any other.

## Model

| member | source | states |
|---|---|---|
| Envelope.FindPrefix | main.js:60 | the result is the first index at or after the start where the prefix occurs; no earlier index holds it, and None means it occurs nowhere |
| Envelope.LastIndexFrom | main.js:60 | the result is an index at or after the start holding the character, with no later index holding it; None means no such index |
| Envelope.ExtractPayload | main.js:60-61 | a payload always lies in the text directly after an occurrence of the prefix and directly before a `)`; a text without the prefix gives none (exactly which occurrence and which `)`: `Envelope.ExtractIsRegexMatch`) |
| Envelope.ExtractIsRegexMatch | main.js:60-61 | extraction fails exactly when no prefix is followed by a `)`; otherwise it yields group 1 of the leftmost match with the longest group, i.e. the text between the end of the first prefix and the last `)` after it |
| Envelope.WrapThenExtract | main.js:60 | any JSON text, with `)` inside it or not, placed after a preamble free of the prefix and followed by `)` and a tail without `)` (such as `;` or nothing), is extracted unchanged |
| Envelope.ExtractWrapped | main.js:59-62 | the envelope exactly as the endpoint writes it gives back the JSON text it wraps |
| Table.Label | main.js:124 | a present label is the header; a missing label gives "" |
| Table.CellValue | main.js:127-128 | the value is one the cell itself holds, or ""; a non-null formatted value wins even when it is "", the raw value is used only without a formatted one, and a null cell or a cell with neither gives "" |
| Table.Headers | main.js:124 | one header per declared column, in column order, each the column's label or "" |
| Table.RowValues | main.js:126-129 | one value per declared column, whatever the length of the row's own cell list; value `i` comes from cell `i` or is "" when that cell is missing |
| Table.RowOf | main.js:125-129 | mapping one row throws exactly when there is a column and the row is null or has no cell list; otherwise it gives one value per column, taken from the row's cells |
| Table.RowsOf | main.js:125-130 | the row mapping succeeds exactly when every row's does, and then gives one extracted row per source row, in the same order |
| Table.ExtractRows | main.js:125-130 | the row mapping throws exactly when the table has no row list or, with at least one column, some row is null or has no cell list; otherwise there is one row per source row, in order, each with one value per column taken from that row's cells |
| Table.Extract | main.js:124-130 | extraction fails exactly when the row list is missing or, with at least one column, some row is null or lacks a cell list; otherwise the headers are the columns' labels, there is one row per source row, and every row has one value per header |
| Table.HeaderOfColumn | main.js:124 | a present label is kept verbatim; a missing label gives "" |
| Table.ExtractedCell | main.js:127-128 | an extracted row comes from a present row with a cell list; in it a non-null formatted value wins even when it is ""; else a non-null raw value; else ""; a null cell or a cell past the end of the cell list gives "" |
| Table.ShortRowIsNullPadded | main.js:126-128 | a short cell list extracts the same as that list padded with null cells |
| Table.ExtraCellsIgnored | main.js:126-127 | cells beyond the declared columns do not affect the extracted row |
| Picker.Select | main.js:155-157 | the title is never blank: row[0] when present and truthy, else "No title"; description and link are row[1] and row[2] when present and truthy, else "" |
| Picker.PickIndex | main.js:151 | the index picked for a draw in [0, 1) lies within the row list |
| Picker.PickIndexInterval | main.js:151 | index k is picked exactly for the draws in [k/n, (k+1)/n): every row owns an interval of the same width |
| App.ParseGViz | main.js:59-62 | fails with a malformed envelope exactly when extraction fails, with invalid JSON when the payload does not parse, and otherwise returns the parse of the extracted payload |
| App.FetchTable | main.js:117-124 | fails with a network error exactly when there is no body; reports an envelope or JSON failure with the error `parseGViz` gives; fails with no table exactly when the parsed response has none; otherwise returns the table of the parsed response |
| App.LoadStep | main.js:93-146 | the load is served from the cache exactly when the cache can be read and holds an entry; a failed load keeps the rows and the cache; the cache either keeps its contents or holds exactly what is shown |
| App.CacheHitNoFetch | main.js:95-104 | with a readable cache entry the page shows exactly the cached headers and rows, the cache is unchanged, and the result does not depend on the network or the parser |
| App.MissShowsAndCachesFetched | main.js:117-141 | on a cache miss with mappable rows the page shows exactly the extracted dataset and caches that same dataset when the write succeeds, keeping the old entry when it fails |
| App.FailedFetchChangesNothing | main.js:117-124 | a failed fetch, envelope, parse or missing table leaves the globals and the cache unchanged and reports why |
| App.UnmappableRowsReplaceOnlyHeaders | main.js:124-130 | when the rows cannot be mapped, the headers become the new table's, while the rows and the cache stay as they were |
| App.LoadKeepsConsistent | main.js:93-146 | a load keeps the cache with one value per header in every row, and the shown data too unless the rows could not be mapped |
| App.HeadersOnlyUpdateBreaksConsistency | main.js:124-130 | a page showing an empty row under no headers that receives one column and a null row ends up showing one header over that empty row |
| App.FreshPageLoadConsistent | main.js:11-12 | from the empty globals the page starts with and a well-formed stored entry, every load leaves the page and the cache well formed |
| App.SecondLoadFromCache | main.js:95-141 | after a fetch whose cache write succeeded, the next load is served from the cache and shows the same headers and rows |
| App.LoadWrappedResponse | main.js:117-130 | on a cache miss, a text holding the envelope around a JSON document describing a table, after any prefix-free preamble, shows and caches exactly the extraction of that table, or changes only the headers when its rows cannot be mapped |
| App.Page.constructor | main.js:11-12 | the page starts with empty header and row lists and the cache as stored |
| App.Page.Load | main.js:93-146 | the new globals, cache and outcome are those of the load step; the cache stays well formed, and the shown data too unless the rows could not be mapped |
| App.Page.ChooseRandom | main.js:149-157 | nothing is picked exactly when there are no rows; otherwise the selection shows the three fields of the row at the drawn index |
| App.ExamplePick | main.js:149-157 | for a sheet of two rows `A, d1, http://x` and `B, d2, http://y`, a pick shows one of them verbatim: the first for draws below one half, the second otherwise |

## Left out

- IndexedDB access (`openDB`, `saveToDB`, `loadFromDB`, main.js:15-51): browser storage with callbacks. The cache is a single `Option<Dataset>` slot; a failed read is a miss and a failed write leaves the slot as it was, given as two booleans.
- `fetch`, `response.text()` and the URL built with `URLSearchParams` (main.js:111-120): network I/O. The response body is a parameter, None when `fetch` or `response.text()` rejects.
- `JSON.parse` (main.js:61): a parser outside the model. It is a function parameter from text to an optional parsed response. A table without a row list, null rows and rows without a cell list are represented; other shapes are not: a missing column list or null columns (these throw at main.js:124 before anything is assigned); non-string labels (a truthy one would become a non-string header, a falsy one gives ""); and a cell list or cell that is not an array or an object.
- App.LoadKeepsConsistent: does not promise that the shown data stays well formed when the rows cannot be mapped, because main.js:124 has already replaced the headers and the old rows stay (`App.HeadersOnlyUpdateBreaksConsistency` shows it); from the empty globals of a fresh page it does hold (`App.FreshPageLoadConsistent`).
- App.Page.Load: promises well-formed shown data after the load only when the rows could be mapped, for the same reason.
- `Math.random` (main.js:151): the draw is a real parameter in [0, 1). Floating-point rounding of `r * n` and the uniformity of the generator are not modelled; the model proves only that each index owns an interval of width 1/n.
- NaN: a number cell is a real, so NaN, which is falsy in JavaScript, cannot occur.
- Rendering (`renderCachedTable`, the `innerHTML` markup built in `chooseRandom`), `setProgress`, the `setTimeout` that hides the loading indicator, `style.display` and the event-listener setup (main.js:53-56, 64-90, 159-173, 176-180): DOM side effects. The conversion of a number or boolean to text when a value is displayed, and the unescaped insertion of the link into markup, are part of this and are not modelled.
- Page.ChooseRandom: returns the selection instead of writing it into the page, so it does not state that the previous selection is replaced.
- Strings are sequences of characters; JavaScript's UTF-16 code units and the regular expression's treatment of surrogate pairs are not distinguished.
