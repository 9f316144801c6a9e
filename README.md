# Aarhus Pride event preprocessing, modelled in Dafny

`preprocess.py` turns the spreadsheet export of the Aarhus Pride event
programme (`events.csv`) into `events_with_coordinates.csv`, which the map
page reads. It does three things, and this project models each of them and
proves what the code promises about it:

1. **Header cleaning** (`load_data`). Every raw column header goes through
   five text steps:
   - bracketed annotations are deleted with the whitespace around them;
   - the two instruction phrases `- Maks en sætning` and `, skriv linket her`
     are deleted;
   - newlines become spaces;
   - whitespace runs become one space;
   - the ends are stripped.

   Modules `Text` (the string steps, with Python's `\s` and `str.strip`
   whitespace set) and `Headers` (one header, and the loop over all of them).
2. **Schema gate** (`load_data`). The result is the empty table unless the
   four required names `Titel på dit arrangement`, `Arrangør`, `Lokation` and
   `Dato` are all among the cleaned headers. Otherwise a `Dato_dt` column of
   parsed dates is added. The date parser is a parameter. Modules `Frames`
   (the part of a pandas DataFrame the script uses, duplicate column names
   included) and `Loader`.
3. **Geocoding and enrichment** (`fetch_coordinates` and the script body).
   - The two private columns `Mailadresse` and `Kolonne 16` are dropped.
   - For every row, the `Lokation` text is looked up, and `Latitude` and
     `Longitude` are written into the live frame when coordinates come back.
   - Then the frame is saved.
   - The geocoder is a parameter.

   Modules `Geocoding` and `Driver`. In `Driver`, the frame is a class
   `DataFrame` updated in place, and the loop is a method proved against the
   function `Enriched`.

The file that gets written is `Driver.Output`, an `Option<Table>`, where
`None` means nothing is written.

Two behaviours of the script matter here:
- **An exception that is not a geopy service error stops the run.** geopy's
  `RateLimiter` (preprocess.py:18) is used with its defaults. It retries a
  `GeocoderServiceError` twice; `GeocoderTimedOut` is one of these. If the
  error persists, the limiter returns `None`, so that row just gets no
  coordinates. Any other exception reaches the handler at preprocess.py:43-45,
  which calls `st.error`. `st` is never imported in `preprocess.py`, so the
  handler raises `NameError`. The script stops at that row and writes nothing.
  The model reflects this with the outcome `NameErrorRaised`.
- **A failed load still writes a file.** After a read failure or a failed
  schema gate, `load_data` returns an empty table. The loop then has no rows,
  and the empty table is saved (`Driver.EmptyLoadWritesEmpty`,
  `Driver.ReadFailureWritesEmpty`).

Files: `wrappers.dfy` (Option), `text.dfy`, `headers.dfy`, `frames.dfy`,
`loader.dfy`, `geocoding.dfy`, `driver.dfy`.

## Model

| member | source | states |
|---|---|---|
| Text.IsSpace | preprocess.py:66-68 | the whitespace set that Python's `\s` and `str.strip()` share (the characters for which `str.isspace` holds); the lemmas below state its use |
| Text.TrimLeft | preprocess.py:68 | the result is a suffix of the input, everything cut off is whitespace, and it does not start with whitespace |
| Text.TrimRight | preprocess.py:68 | the result is a prefix of the input, everything cut off is whitespace, and it does not end with whitespace |
| Text.Strip | preprocess.py:68 | `str.strip()`; its contract is stated by `Text.StripSlice`, `Text.StripEmptyIffBlank` and `Text.StripKeepsTrimmed` |
| Text.StripSlice | preprocess.py:68 | `strip()` returns a contiguous slice of its input with whitespace only on both sides, and no whitespace at either end of the result |
| Text.StripEmptyIffBlank | preprocess.py:22 | a string strips to the empty string exactly when every character in it is whitespace |
| Text.StripKeepsTrimmed | preprocess.py:68 | text with no whitespace at either end is unchanged by `strip()` |
| Text.BracketMatch | preprocess.py:58 | a match of `\s*\[.*?\]\s*` at the start of the text has a positive length and is followed by the end or by a non-whitespace character (the trailing `\s*` is greedy) |
| Text.BracketGroupLength | preprocess.py:58 | whitespace, `[`, text without `]`, `]` and whitespace form exactly one match: the `[` pairs with the nearest later `]`, on any line |
| Text.RemoveBrackets | preprocess.py:58 | `re.sub(r'\s*\[.*?\]\s*', '', col, flags=re.DOTALL)`, never longer than its input; its value is fixed on every input by `Text.BracketGroupRemoved`, `Text.RemoveBracketsKeepsPrefix` and `Text.RemoveBracketsWithoutClose` |
| Text.BracketGroupRemoved | preprocess.py:58 | such a bracket group is deleted with the whitespace on both sides, and the substitution goes on after it |
| Text.RemoveBracketsLeavesNoPair | preprocess.py:58 | after the substitution no `[` is followed anywhere later by a `]` |
| Text.RemoveBracketsKeepsPrefix | preprocess.py:58 | text without `[` that does not end in whitespace is kept in front of whatever the rest becomes |
| Text.RemoveBracketsWithoutClose | preprocess.py:58 | text with no `]` is unchanged, so an unmatched `[` stays |
| Text.RemoveBracketsWithoutOpen | preprocess.py:58 | text with no `[` is unchanged |
| Text.RemoveAll | preprocess.py:60-61 | `str.replace(phrase, '')`, never longer than its input; its value is fixed on every input by `Text.RemoveAllFirst` and `Text.RemoveAllAbsent` |
| Text.RemoveAllAbsent | preprocess.py:60-61 | `replace(phrase, '')` leaves text in which the phrase does not occur unchanged |
| Text.RemoveAllFirst | preprocess.py:60-61 | `replace(phrase, '')` scans left to right: the text before the first occurrence is kept, that occurrence is deleted, and the scan resumes after it (so the deletions do not overlap) |
| Text.NewlinesToSpaces | preprocess.py:64 | `replace('\n', ' ')`: same length, every newline becomes a space and every other character is kept |
| Text.Collapse | preprocess.py:66 | `re.sub(r'\s+', ' ', s)` leaves no two whitespace characters side by side and only plain spaces as whitespace, is empty exactly when the input is, and starts with whitespace exactly when the input does |
| Text.CollapseRun | preprocess.py:66 | a whitespace run becomes one plain space |
| Text.CollapseKeepsSingleSpaced | preprocess.py:66 | text whose only whitespace is plain spaces, never two side by side, is unchanged (a tab or newline would still become a space) |
| Text.Normalize | preprocess.py:64-68 | steps 3-5 of the cleaning; its contract is stated by `Text.NormalizeIsTidy`, `Text.TidyIsNormal` and `Text.NormalizeIdempotent` |
| Text.NormalizeIsTidy | preprocess.py:64-68 | after steps 3-5 a header has no newline, only plain spaces as whitespace, never two in a row, none at either end, and is no longer than before |
| Text.TidyIsNormal | preprocess.py:64-68 | steps 3-5 leave a header that already has that shape unchanged |
| Text.NormalizeIdempotent | preprocess.py:64-68 | applying steps 3-5 twice gives the same as applying them once |
| Text.RemoveAllKeepsNoPair | preprocess.py:58-61 | deleting a phrase without brackets creates no `[`…`]` pair |
| Text.NormalizeKeepsNoPair | preprocess.py:64-68 | the whitespace steps create no `[`…`]` pair |
| Headers.CleanHeader | preprocess.py:56-68 | the five steps on one raw header, in the order preprocess.py applies them; its contract is stated by `Headers.CleanHeaderShape` and `Headers.CleanHeaderKeepsClean` |
| Headers.CleanAll | preprocess.py:54-69 | the cleaned list has one entry per raw header, in the same order, and each entry is computed from its own raw header only |
| Headers.CleanColumns | preprocess.py:54-71 | the `for`/`append` loop builds exactly that list |
| Headers.CleanHeaderShape | preprocess.py:58-68 | a cleaned header has no whitespace at either end, no newline, no whitespace other than single plain spaces, no `[` before a `]`, and is never longer than the raw header |
| Headers.CleanHeaderKeepsClean | preprocess.py:58-68 | a header already tidy, with no `[` (or no `]`) and neither phrase, is unchanged |
| Headers.LokationUnchanged | preprocess.py:58-68 | the required name `Lokation` cleans to itself |
| Headers.NestedBracketExample | preprocess.py:58 | `[a[b]c]` becomes `c]` |
| Headers.DatoAnnotationExample | preprocess.py:58 | `Dato\n[dd/mm]` becomes `Dato` |
| Headers.UnclosedBracketExample | preprocess.py:58 | `Dato [dd/mm` is kept as it is |
| Headers.CleanHeaderNotIdempotent | preprocess.py:60-68 | `-  Maks en sætning` cleans to `- Maks en sætning`, which a second cleaning turns into the empty string |
| Frames.AssignColumn | preprocess.py:83 | `df[name] = values` gives every column called `name` the new values, or appends one such column, and changes nothing else |
| Frames.SetCell | preprocess.py:111-112 | `df.at[i, name] = v` writes `v` into row `i` of every column called `name`, or appends such a column that is missing everywhere except row `i`; names, order and all other cells are kept |
| Frames.SetCellNames | preprocess.py:111-112 | the column names after `df.at` are the old ones, with `name` appended when it was new |
| Frames.DropColumns | preprocess.py:102 | every kept column is a column of the table whose name is not dropped, and every such column is kept; `Frames.DropKeepsCopies`, `Frames.DropKeepsOrder` and `Frames.DropSplits` fix how many copies and in which order |
| Frames.Drop | preprocess.py:102 | `df.drop(columns=..., errors='ignore')` keeps the row count; its columns are `Frames.DropColumns` of the table's |
| Frames.DropKeepsCopies | preprocess.py:102 | each column whose name is not dropped is kept exactly as many times as the table holds it, and a column with a dropped name not at all |
| Frames.DropKeepsOrder | preprocess.py:102 | the kept columns are in their original order |
| Frames.DropSplits | preprocess.py:102 | the drop goes column by column: dropping from two column lists side by side gives the two results side by side |
| Frames.DropAbsent | preprocess.py:102 | with `errors='ignore'`, dropping names that are not there changes nothing |
| Frames.DropRemovesNames | preprocess.py:102 | no dropped name is left afterwards and the row count is unchanged |
| Loader.MissingColumns | preprocess.py:76 | a name is reported missing exactly when it is required and not among the columns |
| Loader.Rename | preprocess.py:71 | assigning `df.columns` renames the columns in place and keeps their cells |
| Loader.ParsedDato | preprocess.py:83 | with `errors='coerce'` a cell gives a timestamp exactly when it is text the parser accepts with format `%d/%m/%Y %H.%M.%S` (that timestamp), and a missing value otherwise |
| Loader.DatoColumn | preprocess.py:82-85 | the `Dato_dt` values, one per row; `Loader.DatoColumnRows` states what each row holds |
| Loader.Gate | preprocess.py:71-87 | the part of `load_data` after the read; `Loader.GateEmptyIff` and `Loader.GateShape` state its contract |
| Loader.LoadData | preprocess.py:48-96 | `load_data`: a well-formed table; any read failure gives the empty table, and `Loader.EmptyIffRequiredMissing`, `Loader.PassedGateShape` and `Driver.ReadFailureWritesEmpty` state the rest |
| Loader.GateEmptyIff | preprocess.py:75-87 | for any cleaned header list, the result is empty exactly when one of the four required names is absent from it |
| Loader.EmptyIffRequiredMissing | preprocess.py:48-87 | `load_data` of a parsed export is empty exactly when a required name is missing after cleaning |
| Loader.GateShape | preprocess.py:71-87 | a passing gate keeps every row and column under the cleaned names and appends `Dato_dt` |
| Loader.DatoColumnRows | preprocess.py:82-85 | with one `Dato` column, row `k` of `Dato_dt` is the parse of row `k` of `Dato` only; with several, `to_datetime` raises and every row is NaT |
| Loader.PassedGateShape | preprocess.py:48-87 | when the gate passes, the columns are the cleaned headers followed by `Dato_dt`, all rows are kept with their cells, and `Dato_dt` is parsed row by row |
| Geocoding.ValidAddress | preprocess.py:22 | the guard `isinstance(address, str) and address.strip()`; `Geocoding.ValidIffNotBlank` states what it accepts |
| Geocoding.Limited | preprocess.py:18-28 | a call through `RateLimiter` with geopy's defaults never ends in a `GeocoderServiceError` (a timeout included): such an error becomes `None` after the retries, and every other answer, another exception included, is handed on unchanged |
| Geocoding.FetchCoordinates | preprocess.py:20-46 | coordinates come back exactly when the address is a non-blank string and the service found it (its latitude and longitude); a `NameError` escapes exactly when the service raised an exception outside the `GeocoderServiceError` family; otherwise, a timeout and a service error included, the result is `None` |
| Geocoding.ValidIffNotBlank | preprocess.py:22 | the guard accepts exactly the strings that hold a non-whitespace character |
| Geocoding.InvalidNeverAsks | preprocess.py:22-24 | a rejected address gives `None` whatever the geocoder would answer: the geocoder is not consulted |
| Geocoding.ValidDependsOnAnswer | preprocess.py:26-28 | an accepted address depends only on the geocoder's answer for that exact, unstripped text with a ten-second timeout |
| Geocoding.BlankRejected | preprocess.py:22-24 | an empty or whitespace-only string gives `None` |
| Driver.TextIn | preprocess.py:105-106 | what `event.get(name)` hands to the `isinstance(_, str)` test: the text of the row's cell when exactly one column has the name and it holds a string, and no text otherwise; `Driver.TextInAgree` and `Driver.SetCellKeepsText` state its contract |
| Driver.Lookups | preprocess.py:104-106 | one `fetch_coordinates` result per row of the frame the loop starts from |
| Driver.TextInAgree | preprocess.py:105 | two frames read the same text under a name when the second keeps the first's columns and their cells under that name, and adds only columns with other names |
| Driver.SetCellKeepsText | preprocess.py:105-112 | `df.at` under one name leaves what every row reads under any other name |
| Driver.EnrichedKeepsAddress | preprocess.py:104-112 | after any number of rows, the live frame and the `iterrows` snapshot give every row the same `Lokation` address, so reading either is the same |
| Driver.Visit | preprocess.py:107-112 | one loop iteration on the frame; `Driver.VisitRow` and `Driver.EnrichedCell` state its effect |
| Driver.Enriched | preprocess.py:104-112 | the frame after the first `n` iterations; `Driver.EnrichedColumns`, `Driver.EnrichedCell` and `Driver.EnrichedKeepsAddress` state its contract |
| Driver.Halt | preprocess.py:104-106 | the loop stops at the first row whose lookup raised, or after the last row |
| Driver.HaltIs | preprocess.py:104-106 | that stopping row is the only position with those two properties |
| Driver.DataFrame.SetAt | preprocess.py:111-112 | `df.at` on the live frame replaces its value by `SetCell` of the old value |
| Driver.VisitRow | preprocess.py:107-112 | one iteration writes `Latitude` and then `Longitude` when the lookup gave coordinates, and nothing otherwise |
| Driver.EnrichRows | preprocess.py:104-114 | the loop finishes exactly when no lookup raised; the frame afterwards is the frame enriched by every row before the first raising one |
| Driver.Written | preprocess.py:104-117 | the saved table for a kept frame, or nothing; `Driver.WrittenShape` states its contract |
| Driver.Output | preprocess.py:98-117 | what the script saves; `Driver.OutputShape`, `Driver.ExceptionAborts`, `Driver.EmptyLoadWritesEmpty` and `Driver.ReadFailureWritesEmpty` state its contract |
| Driver.Run | preprocess.py:98-117 | the script writes exactly `Output`: load, drop, enrich, and save only if the loop finished |
| Driver.EnrichedColumns | preprocess.py:104-112 | after any number of rows the frame keeps its rows and its columns in place, followed only by `Latitude` and `Longitude`, which exist once a row found coordinates; `Driver.EnrichedNames` fixes the exact list |
| Driver.EnrichedNames | preprocess.py:104-112 | after `n` rows the column names are exactly the starting names, followed, once some row below `n` found coordinates, by `Latitude` if it was absent and then `Longitude` if it was absent; before that they are unchanged |
| Driver.VisitNamesOf | preprocess.py:111-112 | a row with coordinates appends `Latitude` if absent, then `Longitude` if absent, and otherwise keeps the names |
| Driver.VisitNamesAfter | preprocess.py:107-112 | one more row keeps the exact name list of `Driver.EnrichedNames`: a second coordinate row adds no further column |
| Driver.EnrichedCell | preprocess.py:104-112 | after `n` rows, a `Latitude`/`Longitude` cell of a row below `n` with coordinates holds that row's coordinate, and every other cell is what it was, or missing in a new column |
| Driver.EnrichedHasShape | preprocess.py:104-112 | the whole frame after `n` rows: its height, the exact column list of `Driver.EnrichedNames`, and every cell as `Driver.EnrichedCell` says |
| Driver.WrittenShape | preprocess.py:104-117 | a table is saved exactly when no lookup raised; its column names are then exactly the dropped table's, followed by `Latitude` and `Longitude` (each only if absent, and only if some row found coordinates), with exactly the found coordinates filled in |
| Driver.OutputShape | preprocess.py:98-117 | the file is written exactly when no lookup raised; it then has the exact enriched column list and cells of `Driver.WrittenShape` and neither `Mailadresse` nor `Kolonne 16` |
| Driver.ExceptionAborts | preprocess.py:43-46 | one row with a usable address whose lookup raises an exception outside the `GeocoderServiceError` family means nothing is written |
| Driver.EmptyLoadWritesEmpty | preprocess.py:99-117 | an empty load still saves a file: the empty table |
| Driver.ReadFailureWritesEmpty | preprocess.py:89-96 | a missing file, an empty file or any other read error still ends in a saved file holding the empty table |

## Left out

- The network side of geopy is not modelled (preprocess.py:14-18, :26-28): the Nominatim geocoder, the `RateLimiter`'s timing and the network. Nominatim's `geocode` is a function parameter from address and timeout to the answer of one call. There is no one-second spacing and no wait between retries. `get_geocoder` builds a fresh limiter on every call, so its spacing never applies between rows either way.
- Geocoding.Limited: the geocoder is a fixed function, so a repeated request, whether a retry or the same address on another row, always gets the same answer. A retried `GeocoderServiceError` therefore always persists and is swallowed into `None`. A transient error that a retry would cure is not modelled.
- Reading `events.csv` and writing the output CSV (:51, :99, :117) are I/O. The read is an abstract `ReadOutcome`. It carries the table exactly as `read_csv` builds it, so pandas' own renaming of repeated raw headers happens before the model sees them. The write is the `Option<Table>` that `Run` returns.
- `pd.to_datetime`'s digit-width and calendar rules for `%d/%m/%Y %H.%M.%S` (:83) live in a library that is not part of this model. The parser is a parameter applied cell by cell. The only global failure modelled is a repeated `Dato` column, where `df['Dato']` is a table and the handler at :84-85 sets every row to NaT.
- Latitude and longitude are `real` values with no arithmetic; floating point is not modelled. The geopy `Location` returned by the service is taken to be truthy.
- Logging, `print` (:114) and the text of the `st.error` messages are output only and are left out. What `st.error` does, raising `NameError`, is modelled.
- Cells are text, missing, a timestamp or a number. pandas dtypes, NaN-versus-None, and the object identity of Series are not modelled.
- Rows are addressed by position. This matches the default `RangeIndex` that `read_csv` gives, which `df.at[index, ...]` then uses as the label.
- Frames.SetCell and Frames.AssignColumn write every column that has the given name. This is how pandas treats a repeated label with `loc`. The model assumes `df.at` and `df[name] =` do the same, which matters only if the export already has such a repeated name.
- Loader.PassedGateShape and Loader.GateShape state the shape only when no cleaned header is already `Dato_dt`. Otherwise `Frames.AssignColumn`'s contract applies: every existing `Dato_dt` column is overwritten and none is appended.
- `functions.py`, `map.py` and `app.py` are not part of this model. They are the Streamlit copy of the geocoding helper, the map rendering and the page shell.
