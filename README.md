# csv-archive-splitter, modelled in Dafny

`zip-splitter.py` cuts the data rows of a CSV manifest into chunks of at most
`n` rows (`1.csv`, `2.csv`, …) and, for each chunk, builds an archive
(`1.zip`, `2.zip`, …) holding only those members of a source archive whose
names the chunk lists in a chosen column. This project models the two pieces
of logic inside that I/O and proves what they promise:

- **Row chunking** (`main`), module `Chunking` in `chunking.dfy`:
  `num_files = (total_rows + n - 1) // n` and chunk `i` is
  `rows[(i-1)*n : i*n]` with Python's clamping slice. `SplitRows` is the
  `for i in range(1, num_files + 1)` loop; `Chunks` is the sequence it
  builds. Proved: the count is the ceiling, every chunk is non-empty and
  bounded by `n`, all but the last are full, the last holds the remainder,
  concatenating the chunks gives back the rows, and row `p` sits at position
  `p % n` of chunk `p // n + 1`.
- **Filename selection** (`create_filtered_zip`), modules `PyText`
  (`text.dfy`), `Selection` (`selection.dfy`) and `Archive`
  (`archive.dfy`). The CSV arrives parsed as `csv.DictReader` rows (maps
  from column name to field, `None` for a field a short row lacks). The
  archive is its member list; payloads are opaque bytes. `CollectFilenames`
  is the row loop that fills `files_to_extract`; `ReadFilenames` is the
  value it computes. `FilterNames` is the list comprehension over
  `namelist()`. `CopyMembers` is the copy loop with `extracted_count`.
  `ZipWriter` is the output archive that `writestr` appends to.
  `CreateFilteredZip` chains these steps, and `FilteredArchive` is the
  result they produce. Proved: the set holds exactly the non-blank stripped
  column values. The read fails exactly when some row cannot be read, and the
  first such row decides the error. The filtered list is the member list read
  at exactly the positions whose name is in the set, in archive order, with
  each name as often as in the archive. CSV names the archive lacks change
  nothing. The copy count equals the number of filtered names. Every output
  entry is an entry of the source archive and is listed in the CSV.

Python's `str.strip()` is modelled with the whitespace set of
`str.isspace()`. `zipfile`'s `read(name)` returns the last entry of that
name, because its name index lets later entries replace earlier ones.

One might expect a missing column to be rejected up front and the output
archive's member names to be unique. The code does neither, and the model
follows the code:

- A column missing from the CSV header is not checked up front. The
  `KeyError` only arises inside the row loop, so a CSV with a header and no
  data rows gives an empty set and no error (`Selection.ColumnNotInHeader`).
- The output can hold duplicate members. The code filters `namelist()`,
  which keeps duplicate entry names, so a name that occurs twice in the
  source archive is copied twice, each time with the bytes of its last entry
  (`Selection.FilterNamesCounts`, `Archive.LastIndex`).

## Model

| member | source | states |
|---|---|---|
| `PyText.TrimLeftIsSuffix` | zip-splitter.py:45 | stripping the left end keeps the suffix that starts at the first non-whitespace character; everything dropped is whitespace |
| `PyText.TrimRightIsPrefix` | zip-splitter.py:45 | stripping the right end keeps the prefix that ends at the last non-whitespace character; everything dropped is whitespace |
| `PyText.StripIsTrimmedSlice` | zip-splitter.py:45 | `s.strip()` is a contiguous slice of `s`, with only whitespace before and after it, that neither starts nor ends with whitespace |
| `PyText.StripEmptyIffBlank` | zip-splitter.py:45-46 | `s.strip()` is empty exactly when `s` is empty or all whitespace, so `if filename:` rejects exactly the blank values |
| `PyText.StripIdempotent` | zip-splitter.py:45 | stripping a stripped value changes nothing |
| `Chunking.NumFilesIsCeiling` | zip-splitter.py:117-118 | `(total + n - 1) // n` is the ceiling of `total / n`: `k` chunks of `n` cover `total`, `k - 1` do not, and `k` is 0 exactly when there are no rows |
| `Chunking.PySlice` | zip-splitter.py:123 | `rows[lo:hi]` has length `min(hi, len) - lo` (0 when that is not positive) and its element `j` is `rows[lo + j]` |
| `Chunking.ChunkSizes` | zip-splitter.py:120-123 | chunk `i` is the run of rows starting at `(i-1)*n`; it holds between 1 and `n` rows, exactly `n` unless it is the last, and the last holds `total - (num_files-1)*n` |
| `Chunking.ChunkBetween` | zip-splitter.py:121-123 | chunk `i` is the run of rows between the start and end indices, each clamped to the row count |
| `Chunking.FlattenPrefix` | zip-splitter.py:120-123 | the first `j` chunks concatenated are the first `min(j*n, total)` rows |
| `Chunking.FlattenChunks` | zip-splitter.py:120-123 | concatenating all chunks in index order gives exactly the rows: disjoint, ordered, covering |
| `Chunking.RowPlacement` | zip-splitter.py:120-123 | row `p` is element `p % n` of chunk `p // n + 1`, and that chunk exists |
| `Chunking.SplitRows` | zip-splitter.py:117-123 | the chunk loop yields the chunk sequence: `num_files` chunks whose concatenation is the rows |
| `Selection.NamedFilesSnoc` | zip-splitter.py:44-47 | the names of a list of rows are those of all but the last row plus the last row's non-blank stripped value |
| `Selection.ReadFilenamesOk` | zip-splitter.py:39-53 | the row loop succeeds exactly when every row has the column with a value, and the set it builds is exactly the non-blank stripped values; no rows gives the empty set |
| `Selection.ReadFilenamesStopsAtError` | zip-splitter.py:44-53 | once a row fails, the read ends with that error whatever rows follow |
| `Selection.FirstFailingRow` | zip-splitter.py:44-53 | the first unreadable row decides the error: a missing key gives "does not contain column", a `None` field the generic read error |
| `Selection.ColumnNotInHeader` | zip-splitter.py:44-50 | a column no row has gives "does not contain column" if there is a row, and the empty set if there is none |
| `Selection.NamedFilesAreStripped` | zip-splitter.py:45-47 | every name in the set is non-blank and already stripped |
| `Selection.CollectFilenames` | zip-splitter.py:39-53 | the loop that adds to `files_to_extract` gives the read's result: success exactly when every row is readable, then exactly the non-blank stripped values |
| `Selection.FilterNames` | zip-splitter.py:61 | the filtered list is no longer than the member list, and each of its names is in the set and in the member list |
| `Selection.KeptPositionsBounded` | zip-splitter.py:61 | the positions the comprehension keeps are valid member-list positions, in strictly increasing order |
| `Selection.FilterNamesAt` | zip-splitter.py:61 | the k-th filtered name is the member-list name at the k-th kept position |
| `Selection.KeptPositionsComplete` | zip-splitter.py:61 | every member-list position whose name is in the set is kept |
| `Selection.FilterNamesPositions` | zip-splitter.py:59-61 | the filtered list is the member list read at exactly the positions whose name is in the set, in increasing order |
| `Selection.FilterNamesCounts` | zip-splitter.py:61 | a name in the set occurs in the filtered list as often as in the member list; any other name never occurs |
| `Selection.FilterKeepsOnlyListed` | zip-splitter.py:61 | enlarging the set by names absent from the member list leaves the filtered list unchanged |
| `Selection.FilterIgnoresAbsentNames` | zip-splitter.py:59-61 | filtering by the set equals filtering by its part the archive holds: CSV names missing from the archive contribute nothing |
| `Archive.LastIndex` | zip-splitter.py:68 | `read(name)` reads an entry with that name, and no later entry has that name |
| `Archive.ZipWriter.constructor` | zip-splitter.py:57 | the output archive starts empty |
| `Archive.ZipWriter.WriteStr` | zip-splitter.py:69 | `writestr` appends one entry with the given name and bytes |
| `Archive.CopyMembers` | zip-splitter.py:63-71 | after the copy loop `extracted_count` equals the number of filtered names, and the output gained one entry per name, in list order, holding the bytes `read` returns |
| `Archive.FilteredArchiveIsSelection` | zip-splitter.py:56-71 | every output entry is an entry of the source archive, name and bytes, and its name is listed in the CSV column |
| `Archive.AbsentNameIgnored` | zip-splitter.py:59-61 | a name the CSV lists but the archive lacks raises no error and yields no output entry |
| `Archive.FilteredArchiveOrder` | zip-splitter.py:59-71 | the output entries follow exactly the source positions whose name is in the set, in archive order, one per position |
| `Archive.CreateFilteredZip` | zip-splitter.py:39-71 | on a CSV error, no archive is created and the error is returned; otherwise a new archive holds exactly the filtered selection, and the count returned is its number of entries |

## Left out

- Command-line parsing, `sys.exit` and the process exit status (zip-splitter.py:84-110): errors are `Result` values (`CsvError`).
- The file-existence checks (zip-splitter.py:31-37), opening files, the `tqdm` import guard and progress bar, and all printing (zip-splitter.py:8-12, 66, 71, 80-81, 140): I/O without logic to verify.
- CSV tokenising, quoting and encoding by the `csv` module (zip-splitter.py:41-43, 112-115, 128-131): rows arrive parsed. A row too short for the header is modelled only by its `None` field, which makes `.strip()` fail and so gives the generic read error.
- Writing each chunk to `i.csv` under the repeated header, and the call that hands that file to `create_filtered_zip` (zip-splitter.py:125-138): this passes through the `csv` module's writer and `DictReader`, which are not part of this model. The two halves are proved separately.
- Opening, decompressing and deflate-compressing archives, `BadZipFile` and other archive exceptions (zip-splitter.py:56-57, 73-78): the source archive is given as its list of entries and payloads are opaque.
- `n <= 0`: `n == 0` raises `ZeroDivisionError` at zip-splitter.py:118 and a negative `n` gives no chunks when there are two or more data rows; with fewer it gives one or two empty chunks, and a single row is dropped (`(1 + n - 1) // n == 1` and `rows[0:-1] == []` for `n == -1`). The chunk operations require `n > 0`.
