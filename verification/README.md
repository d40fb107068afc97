# Order lookup: the record table of `app.py`

The app keeps a table of orders in a shared Google Sheet. Each row has the four columns
`FullOrder`, `FlagNumber`, `TruckID` and `Color`. Warehouse staff type the last digits of an
order and see the card for its truck. An admin uploads photos of the daily list, and an
extractor turns each photo into JSON rows. Those rows are merged into the sheet, last write
winning. The admin can also clear the sheet.

This project models that table logic in Dafny:

- `seqs.dfy` (module `Seqs`): subsequences, used to state "deletes but never reorders".
- `strings.dfy` (module `Strings`): the Python string operations the code relies on. These are
  `str.strip()` with Python's whitespace set, `str.endswith()` and `str.replace(pat, '')`.
- `cells.dfy` (module `Cells`): the row, the cell and what `get_data` makes of them.
  - `astype(str)` is modelled, so a float cell 351.0 is the text "351.0".
  - Then one `\.0$` is removed, with Python's `$`, which also matches before a final newline.
  - Then the text is stripped.
  - An empty sheet reads as an empty table with the four canonical columns.
- `lookup.dfy` (module `Lookup`): the coworker search. A record matches when its `FullOrder`
  ends with the query. The page shows the first match in table order. An empty box searches
  nothing. "Not found" appears only for a 4-character query.
- `dedup.dfy` (module `Dedup`): pandas' `drop_duplicates(subset=[key], keep='last')` as a
  generic function. It is characterised completely: which rows survive, in what order, which keys
  remain, and how it splits over a concatenation.
- `merge.dfy` (module `Merge`): the sync write, `concat` of the table just read and the
  extracted rows, then `drop_duplicates`. It covers the code as written and the corrected key
  (see "Findings").
- `fences.dfy` (module `Fences`): the cleaning of the extractor's reply:
  `strip()`, then every "```json" is removed, then every "```".
- `store.dfy` (module `Store`):
  - the upload loop that accumulates `new_rows` over the files, as a method with a loop;
  - the sheet as a class whose `header` and `rows` fields are replaced wholesale by "Analyze &
    Sync" and by "Clear All Data".

## Model

| member | source | states |
|---|---|---|
| `Strings.Strip` | app.py:48 | `str.strip()`: the result has no whitespace at either end, and it is the contiguous middle of the input with only whitespace removed before and after it |
| `Strings.RemoveAllKeepsOrder` | app.py:99 | `str.replace(pat, '')` only deletes: the result is a subsequence of the input |
| `Strings.RemoveAllDeletesOnly` | app.py:99 | `str.replace(pat, '')` deletes whole occurrences of the pattern and nothing else: the input is the result with copies of the pattern put back at some positions |
| `Cells.Decimal` | app.py:48 | the text `str` gives an integer: non-empty, ending in a digit, with no whitespace at either end and no "." anywhere, so no float suffix is found in it |
| `Cells.DecimalRoundTrip` | app.py:48 | reading the decimal text of n back as a number gives n |
| `Cells.CellText` | app.py:48 | `astype(str)`: a text cell is itself; an integer cell is a text that reads back as the integer and has no "."; a float cell holding n is a text without another "." that ends in ".0" and reads back as n without it |
| `Cells.DropFloatSuffix` | app.py:48 | `re.sub(r'\.0$', '', s)`: a final ".0" is removed; otherwise a ".0" just before a final newline is removed and the newline kept; otherwise the text is unchanged |
| `Cells.NormaliseText` | app.py:48 | the per-cell normalisation never lengthens a cell, and its result has no whitespace at either end |
| `Cells.ReadSheet` | app.py:43-48 | `get_data`: an empty sheet reads as zero records with exactly the four canonical columns, whatever header it holds; otherwise there is one record per row, in order, each cell normalised |
| `Cells.NormaliseDropsOneArtifact` | app.py:48 | a value ending in ".0" loses exactly that suffix and is then stripped |
| `Cells.NormaliseDropsArtifactBeforeNewline` | app.py:48 | `$` also matches before a final newline: "x.0\n" reads as the stripped "x" |
| `Cells.NormaliseNotIdempotent` | app.py:48 | only one ".0" goes per read: "s.0.0" reads as "s.0", and reading again gives "s", so normalising is not idempotent |
| `Cells.NumericCellsReadAsDecimal` | app.py:48 | an integer cell n and a whole-float cell n.0 both read as the decimal text of n |
| `Cells.FloatArtifactExample` | app.py:48 | the float cell 351.0 and the integer cell 351 both read back as "351" |
| `Lookup.Matching` | app.py:62 | `df[df['FullOrder'].str.endswith(q)]`: every record whose FullOrder ends with the query is kept as often as the table holds it, and no other record; the kept records keep table order |
| `Lookup.Search` | app.py:58-75 | the query holds at most 4 characters. An empty query searches nothing. Otherwise the page shows a matching record from the table. "Not found" appears if and only if the query has 4 characters and no record matches. A shorter query without a match shows nothing |
| `Lookup.FirstMatchShown` | app.py:62-72 | `result.iloc[0]`: the record shown is the first matching record in table order |
| `Dedup.LastWins` | app.py:104 | `drop_duplicates(keep='last')`: every survivor comes from the input, and no two survivors share a key |
| `Dedup.LastWinsKeepsExactlyTheLast` | app.py:104 | a row survives if and only if it is the last row of the input with its key |
| `Dedup.LastWinsOrderedByLastOccurrence` | app.py:104 | survivors appear in the order of their last occurrences in the input |
| `Dedup.LastWinsKeepsEveryKey` | app.py:104 | the survivors' keys are exactly the input's keys |
| `Dedup.LastWinsKeepsOrder` | app.py:104 | the survivors form a subsequence of the input |
| `Dedup.LastWinsOfUniqueKeys` | app.py:104 | input without duplicate keys comes through unchanged |
| `Dedup.LastWinsIdempotent` | app.py:104 | dropping duplicates twice is the same as dropping them once |
| `Dedup.LastWinsAppend` | app.py:103-104 | for `a + b`, the result is the survivors of `a` whose key is not in `b`, followed by the survivors of `b` |
| `Merge.Combined` | app.py:103 | `pd.concat(..., ignore_index=True)`: the rows read from the sheet, each as text cells, followed by the extracted rows unchanged |
| `Merge.RawKeysCompareAsPython` | app.py:104 | the key `drop_duplicates` compares: two FullOrder cells are duplicates exactly when both are equal strings, or both are numbers (int or whole float) of equal value |
| `Merge.IntAndFloatAreOneOrder` | app.py:104 | extracted orders 351 and 351.0 in one batch are one order: only the later row is written |
| `Merge.MergeAsWritten` | app.py:103-104 | the write as coded: no two written rows have the same raw FullOrder cell, numbers compared by value, and every written row comes from the concatenation |
| `Merge.MergeRows` | app.py:103-104 | the corrected write: no two written rows show the same FullOrder once read, and every written row comes from the concatenation |
| `Merge.MergedReadHasUniqueOrders` | app.py:102-104 | with the corrected key, reading the sheet after a sync gives pairwise distinct FullOrders |
| `Merge.MergeKeepsEveryOrder` | app.py:103-104 | with the corrected key, every FullOrder of the stored table or of the batch is still present after the write, and no other appears |
| `Merge.MergeSplit` | app.py:103-104 | with the corrected key, the write is the old rows whose order is not in the batch, in their old order, followed by the batch with its own duplicates resolved |
| `Merge.IncomingSupersedes` | app.py:103-104 | with the corrected key, the last row of the batch for an order is written, and it is the only row written with that order; it supersedes stored rows and earlier rows of the batch |
| `Merge.UntouchedRowKept` | app.py:103-104 | with the corrected key, a stored row whose order the batch does not mention, and which is its order's last stored row, is written unchanged |
| `Merge.ReadShowsLatest` | app.py:102-104 | with the corrected key, after the write, a read holds the record of the batch's last row for each of its orders, and no other record with that FullOrder |
| `Merge.ReadOrder` | app.py:48 | the FullOrder a read shows for a written row is the row's order key, the key the corrected merge compares |
| `Merge.StaleRowSurvives` | app.py:103-104 | as coded, stored text "n" and an extracted number n both survive. The next read holds two records with FullOrder "n", and the lookup shows the stale stored one |
| `Merge.UpdateReplacesStaleRow` | app.py:103-104 | with the corrected key, the extracted row replaces the stored one, and the lookup shows the update |
| `Fences.StripFences` | app.py:99 | the cleaned reply contains no "```" anywhere |
| `Fences.CleaningKeepsOrder` | app.py:99 | cleaning only deletes: what is left appears in the reply in the same order |
| `Fences.CleaningDeletesOnlyFences` | app.py:99 | after the strip, the first `replace` deletes only whole "```json" and the second only whole "```"; the second leaves every character other than a backtick in place, in order |
| `Fences.FenceRemovalKeepsOtherCharacters` | app.py:99 | removing every "```" leaves the text without its backticks unchanged |
| `Fences.PlainReplyIsOnlyStripped` | app.py:99 | a reply without backticks is only stripped |
| `Fences.FencedReplyYieldsBody` | app.py:99 | "```json" + body + "```" cleans to exactly the body when the body has no backtick |
| `Fences.FencedReplyWithPreamble` | app.py:99 | a preamble before the code block is kept: pre + "```json" + body + "```" cleans to pre + body when neither has a backtick and pre starts with no whitespace |
| `Fences.CodeBlocksCleanToBody` | app.py:99 | for every body without a backtick, the code block "```json" + body + "```" cleans to the body |
| `Store.Decoder` | app.py:99-100 | a reply is cleaned and then given to `json.loads`: a code block around a body without backticks parses as the body itself |
| `Store.Collect` | app.py:94-100 | the batch fails at a file whose reply does not parse, and every earlier file parses; a batch of rows means every reply parsed |
| `Store.CollectOne` | app.py:96-100 | one reply gives exactly its parsed rows, or fails at file 0 when it does not parse |
| `Store.CollectFailsIffSomeReplyBad` | app.py:96-100 | the batch fails if and only if some reply does not parse |
| `Store.CollectPrefixError` | app.py:96-100 | once a prefix of the files fails, the whole batch fails at the same file: later files change nothing |
| `Store.CollectConcatenates` | app.py:96-100 | `extend` in file order: the rows of two parsing batches together are the first batch's rows followed by the second's |
| `Store.CollectRows` | app.py:94-100 | the loop over the uploaded files returns exactly `Collect` of the replies, stopping at the first reply that does not parse |
| `Store.Sheet.Read` | app.py:43-48 | a read always shows the four canonical columns, and record i is stored row i with each cell normalised |
| `Store.Sheet.SyncAsWritten` | app.py:101-104 | the write as coded: the sheet is replaced by `Merge.MergeAsWritten` of what a read showed and the batch, under the canonical header |
| `Store.Sheet.Sync` | app.py:101-104 | with the corrected key, the sheet is replaced by the merge of what a read showed and the batch, under the canonical header, and reading it back shows no FullOrder twice |
| `Store.Sheet.AnalyzeAndSync` | app.py:93-106 | a reply that does not parse aborts the sync with nothing written; a batch without rows writes nothing; otherwise the merge is written |
| `Store.Sheet.Clear` | app.py:108-109 | after clearing, a read gives zero records with exactly the four canonical columns |

## Left out

- The Streamlit page: CSS, widgets, buttons, `st.rerun`, navigation, success messages and
  balloons. These are user interface. `coworker_mode` is `Lookup.Search` applied to the
  records of `Store.Sheet.Read`.
- The secrets, the admin password and the `auth` flag in the session state. These are
  configuration and session state.
- The Gemini call and `Image.open` are foreign calls. The extractor's reply texts are an input
  of `Store.CollectRows`. An exception raised by either call is not modelled.
- `json.loads` is a parameter `parse`. It either yields a list of four-field rows or fails,
  and a failure ends the sync with nothing written, as the exception does. A JSON value that is
  not a list of such objects is not modelled. For example, `extend` with a lone object would
  append its keys.
- The Google Sheets connection is external I/O. The sheet is a class whose fields a write
  replaces wholesale. Cache time-to-live, network failures and concurrent admins are not
  modelled.
- pandas dtypes:
  - A cell is text, an integer, or a float holding a whole number of magnitude at most 2^53,
    which a double holds exactly.
  - NaN, non-integral floats, floats printed in exponent form, booleans and dates are not
    modelled.
  - Rows with missing or extra keys, and sheets whose header differs from the four canonical
    columns while holding data, are not modelled. The `Store.Sheet.Valid` predicate states this
    assumption.
- `Color.lower()` / `.upper()` for the card's HTML are display formatting.
- `clear_sheet_nightly.py` is credential loading and a worksheet clear: I/O only. The empty
  sheet it leaves, with no header at all, is covered. `Cells.ReadSheet` reads such a sheet as
  the canonical empty table.
- `app.py` does not normalise header aliases, clean the query to digits, fall back to substring
  matching or derive a 4-character order number, and neither does the model.
- `Store.Sheet.Sync` writes the corrected merge `Merge.MergeRows`, not the raw-cell merge of
  app.py:104 (see "Findings"). The merge as coded is `Store.Sheet.SyncAsWritten`.
- `Store.Sheet.AnalyzeAndSync` writes through `Store.Sheet.Sync`, so it too uses the corrected
  key rather than the raw cells of app.py:104.

## Findings

| source | as written | input that shows it | evidently intended | confidence | as-written member | corrected member |
|---|---|---|---|---|---|---|
| app.py:102-104 | `drop_duplicates(subset=['FullOrder'])` compares the raw cells of the concatenated frame. The stored rows were already turned into text by `get_data`, while the extracted JSON keeps numbers as numbers, so the text "351" and the number 351 are not duplicates | the sheet holds order "351"; a photo's reply gives `{"FullOrder": 351, ...}` with a new truck or colour. Both rows are written, the next read shows two records with FullOrder "351", and typing "351" shows the stale stored card | one row per order: the extracted row replaces the stored one, compared on the FullOrder a read shows | not executed | `Merge.StaleRowSurvives` (on `Merge.MergeAsWritten`) | `Merge.UpdateReplacesStaleRow` (on `Merge.MergeRows`, which `Store.Sheet.Sync` uses) |
