# Google Sheets feed storage, modelled in Dafny

This project models `GoogleSheetsFeedStorage`, a Scrapy feed-storage backend.
When a crawl finishes, it writes the CSV feed into one worksheet of a Google
spreadsheet. The model covers the following:

- **URI parsing.** `parse_gsheets_uri` turns `gsheets://{spreadsheet_key}/{worksheet_name}`
  into a spreadsheet key and a worksheet name. It takes the text after the last `//` and
  keeps the first two `/`-separated pieces. Python's `str.split` is modelled as it
  behaves: it scans left to right and cuts at non-overlapping occurrences.
- **Construction.** Credentials are checked, then the URI is parsed, then the spreadsheet
  and worksheet are opened. The options are read with their defaults (`append_mode`,
  `fields`, `format`), and last the format is checked: it must be "csv".
- **Storing.** The header is reconciled with the worksheet's row 1. Every CSV data row is
  zipped with the CSV header into a dict. That dict is projected onto the effective header,
  with `None` for a missing column. The rows are then appended one at a time.

The remote worksheet is an in-memory `Worksheet` object holding `rows: seq<seq<Cell>>`.
It offers `clear` and `append_row`. `row_values` is modelled by the module function
`Sheets.RowValues` over the rows. A `Cell` (declared in `Sheets`) is `Option<string>`:
`None` is the value that `item.get` hands to `append_row` for a missing column, and a
`None` cell reads back as `""`.

Modules:

- `Wrappers`: `Option`, `Result`, `Outcome`.
- `Uri`: `Split`/`Join`, `Tail`, `ParseUri`.
- `Items`: `Zip` (`dict(zip(...))`), `Get`, `Project`, `ItemsOf`.
- `Sheets`: `Cell`, `Row`, `RowValues` and the `Worksheet` class.
- `Exporter`: the `Configure` specification, the spec functions of one store run
  (`InitialHeader`, `EffectiveHeader`, `Stored`), and the class `GoogleSheetsFeedStorage`
  with its factory `New` and its method `Store`, which contains the append loop.

`Store` is proved against `Stored`: on success the worksheet becomes exactly the rows
`Stored` gives; on failure it is untouched. The properties of a run are lemmas about
`Stored`.

Behaviour follows the code of `scrapy_google_sheets_exporter/gsheets_exporter.py`. That
code selects the worksheet by the name in the URI path. It has no `gid` fragment, no
batching and no `overwrite` option, and they are not modelled. One consequence: a URI of the form
`gsheets://docs.google.com/spreadsheets/d/KEY/edit` yields the spreadsheet key
`docs.google.com` and the worksheet name `spreadsheets` in this code. `ParseDocumentedUri`
covers this case.

## Model

| member | source | states |
|---|---|---|
| `Uri.Split` | scrapy_google_sheets_exporter/gsheets_exporter.py:73 | `str.split(sep)` always gives at least one piece |
| `Uri.JoinSplit` | scrapy_google_sheets_exporter/gsheets_exporter.py:73 | joining the pieces of a split with the separator gives back the original text |
| `Uri.JoinLast` | scrapy_google_sheets_exporter/gsheets_exporter.py:73 | the last piece of a split follows the last separator the split cut at |
| `Uri.SplitCount` | scrapy_google_sheets_exporter/gsheets_exporter.py:73-74 | a split has two or more pieces exactly when the separator occurs in the text |
| `Uri.SplitPiecesFree` | scrapy_google_sheets_exporter/gsheets_exporter.py:73 | no piece of a split contains the separator |
| `Uri.SplitWhole` | scrapy_google_sheets_exporter/gsheets_exporter.py:73 | text without the separator splits into itself alone |
| `Uri.SplitAfter` | scrapy_google_sheets_exporter/gsheets_exporter.py:73 | text that cannot start a separator is cut off as the first piece at the separator after it |
| `Uri.SplitLeftmost` | scrapy_google_sheets_exporter/gsheets_exporter.py:73 | `str.split` cuts left to right at leftmost occurrences: no occurrence of the separator starts inside any piece, counting from that piece onward |
| `Uri.LeftmostCutsUnique` | scrapy_google_sheets_exporter/gsheets_exporter.py:73 | any decomposition of the text that joins back to it and cuts at leftmost occurrences is exactly the split |
| `Uri.Tail` | scrapy_google_sheets_exporter/gsheets_exporter.py:73 | `uri.split("//")[-1]` is a suffix of the URI, contains no `//`, is preceded by `//` when shorter than the URI, and is the whole URI when it has no `//` |
| `Uri.TailLeftmost` | scrapy_google_sheets_exporter/gsheets_exporter.py:73 | the tail is the last piece of the unique decomposition of the URI that cuts at leftmost `//` occurrences |
| `Uri.SplitSlash` | scrapy_google_sheets_exporter/gsheets_exporter.py:73-75 | a split on `/` has two pieces exactly when the text has a `/`; the first two pieces are free of `/` and, joined by `/`, form a prefix of the text that is followed by a `/` or by nothing |
| `Uri.ParseUri` | scrapy_google_sheets_exporter/gsheets_exporter.py:72-79 | succeeds exactly when the tail after the last `//` has a `/`, and otherwise raises the invalid-URI exception with its message; on success the key and the name have no `/`, and `key/name` is the start of the tail, with any further segments ignored |
| `Uri.ParseDocumentedUri` | scrapy_google_sheets_exporter/gsheets_exporter.py:72-79 | `scheme://key/name` followed by any further `/`-segments parses to exactly `(key, name)` |
| `Uri.TailAfterScheme` | scrapy_google_sheets_exporter/gsheets_exporter.py:73 | after a scheme without `/`, the tail is everything behind its `//` when that contains no `//` |
| `Uri.SplitKeyName` | scrapy_google_sheets_exporter/gsheets_exporter.py:73-75 | `key/name...` splits on `/` into `key`, `name`, and then the rest |
| `Uri.TailSlashRun` | scrapy_google_sheets_exporter/gsheets_exporter.py:73 | in `a://k///n` the `//` cut falls on the first two slashes of the run, so the tail is `/n` |
| `Uri.ParseSlashRun` | scrapy_google_sheets_exporter/gsheets_exporter.py:72-79 | `a://k///n` parses to the empty spreadsheet key and the worksheet name `n` |
| `Items.ItemsOf` | scrapy_google_sheets_exporter/gsheets_exporter.py:50 | exactly one item per CSV row after the first, in CSV order, each zipped with row 0; none for an empty CSV |
| `Items.Zip` | scrapy_google_sheets_exporter/gsheets_exporter.py:50 | reference definition of `dict(zip(keys, values))`; its contract says every key of the dict names a column the row reaches; `ZipKeys` and `ZipLastWins` state its properties |
| `Items.Get` | scrapy_google_sheets_exporter/gsheets_exporter.py:68 | reference definition of `item.get(key)`: `None` exactly when the key is absent, otherwise the key's value |
| `Items.Project` | scrapy_google_sheets_exporter/gsheets_exporter.py:68 | reference definition of `[item.get(field) for field in header]`; its contract says the row is as wide as the header; `ProjectCell` states the value of each cell |
| `Items.ZipKeys` | scrapy_google_sheets_exporter/gsheets_exporter.py:50 | the keys of `dict(zip(h, row))` are the names of the columns the row reaches (`zip` truncates to the shorter) |
| `Items.ZipLastWins` | scrapy_google_sheets_exporter/gsheets_exporter.py:50 | on a repeated column name, the dict holds the value of its last occurrence |
| `Items.LastIndexOf` | scrapy_google_sheets_exporter/gsheets_exporter.py:50 | the last index holding a name, or -1 exactly when the name is absent |
| `Items.ProjectCell` | scrapy_google_sheets_exporter/gsheets_exporter.py:68 | a projected row is as wide as the header; cell `c` is `ColumnValue`, the row's value in the last reached CSV column named `header[c]`, or `None` when there is none; so other CSV columns are dropped |
| `Items.ProjectReorders` | scrapy_google_sheets_exporter/gsheets_exporter.py:68 | projecting CSV columns `a,b,c` onto header `b,a` puts `b` first, then `a`, and drops `c` |
| `Sheets.HeaderReadBack` | scrapy_google_sheets_exporter/gsheets_exporter.py:55-59 | a header written as row 1 is read back unchanged by `row_values(1)` |
| `Sheets.RowValues` | scrapy_google_sheets_exporter/gsheets_exporter.py:58-59 | reference definition of `row_values(n)`: `[]` past the last row, otherwise as many strings as row `n` has cells; `HeaderReadBack` states what a written header reads back as |
| `Sheets.Worksheet.constructor` | scrapy_google_sheets_exporter/gsheets_exporter.py:23 | the worksheet holds the given rows |
| `Sheets.Worksheet.Clear` | scrapy_google_sheets_exporter/gsheets_exporter.py:54 | `clear()` leaves no rows |
| `Sheets.Worksheet.AppendRow` | scrapy_google_sheets_exporter/gsheets_exporter.py:55 | `append_row` adds exactly one row after the existing ones |
| `Exporter.Configure` | scrapy_google_sheets_exporter/gsheets_exporter.py:13-33 | missing credentials fail first, and only then; a bad URI fails next with the invalid-URI message; for a parsed URI an unknown key fails with `SpreadsheetNotFound`, then an unknown worksheet with `WorksheetNotFound`; once the worksheet is open, construction succeeds exactly when the format (default "csv") is "csv", and any other format raises `NotConfigured` naming it; success carries the parsed key and name, that worksheet, and the defaults (not appending, no fields) for options not given |
| `Exporter.InitialHeader` | scrapy_google_sheets_exporter/gsheets_exporter.py:52 | the declared fields when there are any, else the CSV header; fails with `IndexError` exactly when both are empty |
| `Exporter.EffectiveHeader` | scrapy_google_sheets_exporter/gsheets_exporter.py:52-59 | reference definition of the header the rows are projected onto: it fails exactly when the initial header does; in append mode a non-empty row 1 replaces the initial header, otherwise the initial header is kept; `HeaderAligned` states what it means for the worksheet |
| `Exporter.Kept` | scrapy_google_sheets_exporter/gsheets_exporter.py:53-65 | reference definition of the worksheet after the header step: it has at least one row; in append mode the old rows are a prefix; the header is the last row whenever the step writes it |
| `Exporter.DataRows` | scrapy_google_sheets_exporter/gsheets_exporter.py:67-69 | reference definition of the rows the loop appends: one per CSV data row, each as wide as the header; `DataRowsSpec` states each row's value |
| `Exporter.Stored` | scrapy_google_sheets_exporter/gsheets_exporter.py:44-69 | reference definition of the worksheet after `_store_in_thread`; its contract says a success has more rows than the CSV has data rows and, in append mode, keeps the old rows as a prefix; `OverwriteResult`, `AppendResult`, `StoredFails` and `HeaderAligned` state its properties |
| `Exporter.HeaderAligned` | scrapy_google_sheets_exporter/gsheets_exporter.py:52-69 | the data rows, projected onto the effective header (row 1 in append mode when it is non-empty, else the fields or CSV header), end the worksheet; row 1 then holds that header when not appending, when appending to an empty worksheet, or when row 1 was non-empty |
| `Exporter.DataRowsSpec` | scrapy_google_sheets_exporter/gsheets_exporter.py:67-69 | exactly `len(csv_data) - 1` data rows, in CSV order, each as wide as the header and equal to its CSV row projected onto the header |
| `Exporter.StoredFails` | scrapy_google_sheets_exporter/gsheets_exporter.py:50-52 | a store fails, with `IndexError`, exactly when neither fields nor CSV rows exist; empty CSV with declared fields succeeds |
| `Exporter.OverwriteResult` | scrapy_google_sheets_exporter/gsheets_exporter.py:53-55 | not appending: the worksheet ends as the header followed by the data rows, and the result does not depend on what the worksheet held |
| `Exporter.AppendResult` | scrapy_google_sheets_exporter/gsheets_exporter.py:57-65 | appending: the old rows are an unchanged prefix; with a non-empty row 1 only the data rows follow, projected onto row 1; otherwise the header and then the data rows follow |
| `Exporter.AppendAfterOverwrite` | scrapy_google_sheets_exporter/gsheets_exporter.py:55-59 | an append run after a run that wrote a non-empty header adds only its data rows, projected onto that header, whatever fields or CSV header it has |
| `Exporter.OverwriteExample` | scrapy_google_sheets_exporter/gsheets_exporter.py:44-69 | CSV `name,age / Alice,30 / Bob,25`, not appending, no fields: the worksheet ends with exactly those three rows |
| `Exporter.DistinctColumns` | scrapy_google_sheets_exporter/gsheets_exporter.py:68 | a row under two distinct column names, projected onto those names, keeps its values in place |
| `Exporter.GoogleSheetsFeedStorage.constructor` | scrapy_google_sheets_exporter/gsheets_exporter.py:21-27 | the storage's attributes are the given key, name, worksheet and options |
| `Exporter.GoogleSheetsFeedStorage.New` | scrapy_google_sheets_exporter/gsheets_exporter.py:13-33 | performs the construction steps in source order; it raises what `Configure` raises, or returns a fresh storage whose attributes are `Configure`'s settings |
| `Exporter.GoogleSheetsFeedStorage.Store` | scrapy_google_sheets_exporter/gsheets_exporter.py:44-69 | on failure the worksheet is untouched and the error is `Stored`'s; on success the worksheet becomes exactly `Stored(old rows, append_mode, fields, csv)`, after the header step and the append loop |

## Left out

- The gspread calls are not modelled: `service_account_from_dict`, and the network
  behaviour behind `open_by_key`, `worksheet`, `clear`, `append_row` and `row_values`.
  The service account's reachable spreadsheets are the `Account` parameter (key, then
  worksheet title, to a worksheet). The failures of `open_by_key` and `worksheet` are the
  `SpreadsheetNotFound` and `WorksheetNotFound` errors. Remote failures in the middle of a
  store, which leave earlier rows written, are not modelled.
- `row_values` trims trailing blank cells, and this is not modelled. A row 1 made only of
  blank cells reads as blank strings rather than as `[]`.
- UTF-8 decoding and `csv.reader` parsing (lines 45-48) are not modelled: `Store` takes the
  already parsed rows.
- `from_crawler` / `build_storage`, and the thread offloading of `BlockingFeedStorage`, are
  not modelled. They are framework glue and concurrency.
- The `logger.warning` in append mode is not modelled, because it is observational only.
- Credentials are a dict. An unset setting arrives as `None`. `None` and `{}` are both
  falsy in the source, and both are modelled as the empty map. Only whether the map is
  empty matters here.
- `Exporter.GoogleSheetsFeedStorage.New`: a `fields` or `append_mode` option given as
  `None` is modelled as absent. For `fields`, the source keeps `None` where the model keeps
  `[]`, which changes nothing downstream (`None or csv_data[0]`). For `append_mode`, `not
  None` selects overwrite, the same as the default. Options of other Python types (such as
  `fields` as a dict) are not modelled.
