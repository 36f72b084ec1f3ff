# RapidKL chunking and bulk-load core, modelled in Dafny

RapidKL is a small two-stage ETL pair.

- **Pipeline A** (`src/000_split_chunk.py`) splits every `.csv` file of an
  input directory into numbered chunk files. A `BaseFilenameProcessor`
  works on each file in turn:
  - it counts the rows;
  - it picks a chunk size from a tier table, an if-chain that updates the
    processor's `chunk_size` field;
  - it reads the file in pieces of that size, numbered from 1;
  - it names each piece `{base}_{n}.csv`, runs a parquet conversion on it,
    records its row count, and writes it to the output directory.
- **Pipeline B** (`src/003_dst_canperiodhist.py`) loads those chunk files
  into a MySQL table. The table's name and columns come from a schema
  document; the dataset name is its first key. The loader:
  - drops and creates the table;
  - truncates it;
  - issues one `LOAD DATA LOCAL INFILE` per file whose name starts with the
    table name and ends in `.csv`;
  - adds up the row counts the server reports;
  - fails when that total is zero, and otherwise commits once.

The project has five files:

- `wrappers.dfy`: the `Option`, `Result` and `Outcome` datatypes.
- `text.dfy`:
  - `startswith` and `endswith`;
  - `sep.join` and `str.split`, with the round trip between them;
  - `str(n)` for naturals, with its parse-back.
- `paths.dfy`: `os.path.basename`, `os.path.splitext` and `os.path.join`.
  Both POSIX and Windows separators are modelled.
- `split_chunk.dfy`: module `SplitChunk`, which is Pipeline A.
  - The tier table is a function of the row count and the previous chunk
    size.
  - Reading in pieces is `ChunkedRead`, built on the partition `Chunks`.
  - `SplitRun` specifies the chunk loop, and the method `WriteChunks`
    implements it with a loop proved against that specification.
  - The class `BaseFilenameProcessor` holds `chunkSize` as a mutable field.
- `bulk_load.dfy`: module `BulkLoad`, which is Pipeline B.
  - The database is a class with a statement log and a committed flag.
  - The loader is a class whose methods issue statements against that
    database.
  - `ExtractRun` specifies the whole extraction, and the methods are proved
    against it.

The outside world enters only as parameters:

- **Pipeline A**:
  - `contents`: the rows of an input file, or `None` when it cannot be
    read;
  - `convertible(name)`: whether the parquet step finds a CSV at the bare
    chunk file name;
  - `writable(path)`: whether writing a chunk to its path succeeds.
- **Pipeline B**:
  - the directory listing;
  - `fails(statement)`: whether the server raises on a statement;
  - `rowCount(path)`: the row count a LOAD of that path reports.

Observations on the code as written, all modelled as the code behaves:

- **The tier table has a gap.** No branch assigns when
  10,000,000 <= n < 100,000,000, so the field keeps its previous value.
  - A freshly built processor holds 10,000, set from `Config().chunk_size`
    (lines 28 and 75).
  - A processor that has already handled another file keeps that file's
    tier instead, anywhere from 1,000 to 10,000,000. The model therefore
    takes the previous size as a parameter.
  - `SplitChunk.TierMatchesReference` shows two things. Outside the gap the
    table equals an independent rule: the largest power of ten not above n,
    clamped to [1,000, 10,000,000]. Inside the gap that rule would give
    10,000,000.
- **The parquet step comes before the write.** `generate_output_filenames`
  reads `{base}_{n}.csv` relative to the working directory before the chunk
  has been written there.
  - When no such file already exists, the step raises.
  - `process_chunk` then logs the error, and the rest of that file is
    abandoned.
  - This is the `convertible` oracle and `SplitError.ConversionFailed`.
- **A failed chunk write is swallowed.** The handler's body is a bare string
  expression, so nothing is even logged, and the loop goes on with the next
  chunk.
  - `SplitChunk.WriteFailureIsolated` proves that only that chunk is lost.
- **A header-only file still runs chunk 1.** polars counts 0 rows, but
  pandas' chunked reader yields one empty frame on its first read.
  - So the conversion step of chunk 1 is attempted, a count of 0 is
    recorded, and a header-only chunk is written.
  - `SplitChunk.ChunkedRead` and `SplitChunk.HeaderOnlyRun` model this.
- **A file named `.csv` keeps its extension.** `splitext` splits only after
  a non-dot character, so a listed `.csv` or `..csv` has that whole name as
  its base name (`SplitChunk.DotOnlyNamesKeepExtension`).
- **The loader's filter is a plain prefix test.** `{table}xyz_1.csv`
  matches too.
- **The loader's directory ends in two backslashes.** The script builds it
  with a raw f-string, so it is the output directory followed by two
  backslashes.
  - The directory's backslashes are then doubled before the file name is
    joined on.
  - `BulkLoad.MainLoadPath` gives the resulting LOAD path.

## Model

| member | source | states |
|---|---|---|
| Paths.Basename | src/000_split_chunk.py:95 | the basename has no separator, ends the path, and is preceded by a separator unless it is the whole path |
| Paths.SplitExt | src/000_split_chunk.py:95 | root and extension concatenate to the path; a non-empty extension starts with a dot and holds no further dot or separator |
| Paths.JoinPath | src/000_split_chunk.py:99 | `os.path.join` of two components; no contract of its own, `Paths.JoinPathParts` and `Paths.BasenameOfJoin` state what it gives |
| Paths.JoinPathParts | src/000_split_chunk.py:99 | the name always ends the joined path; a relative name follows the directory with at most one separator between |
| Paths.SplitExtSplitsExactly | src/000_split_chunk.py:95 | an extension is split off if and only if the last component holds a dot preceded somewhere by a character other than a dot |
| Paths.BasenameOfJoin | src/000_split_chunk.py:89 | joining a separator-free name onto any directory, the basename gives that name back |
| Paths.SplitExtOf | src/000_split_chunk.py:95 | `stem + ext` splits into exactly `(stem, ext)` when the stem is a separator-free name that is not all dots |
| SplitChunk.TierChunkSize | src/000_split_chunk.py:133-143 | the chunk size after the if-chain is positive whenever the one before it was |
| SplitChunk.TierMatchesReference | src/000_split_chunk.py:133-143 | outside 10,000,000 <= n < 100,000,000 the tier table equals the largest power of ten not above n, clamped to [1,000, 10,000,000]; inside, the previous size survives where that rule gives 10,000,000 |
| SplitChunk.ReferenceChunkSizeMonotone | src/000_split_chunk.py:133-143 | the reference rule never gives a larger file a smaller chunk size |
| SplitChunk.TierMonotone | src/000_split_chunk.py:133-143 | across the tiers that assign, the selected chunk size is nondecreasing in the row count |
| SplitChunk.ChunkCountAtMostTen | src/000_split_chunk.py:134-141 | below 10,000,000 rows, ceil(n / chunk size) is at most 10, whatever the previous size |
| SplitChunk.GapChunkCount | src/000_split_chunk.py:140-143 | in the gap, a processor holding its default of 10,000 (line 75) keeps it, so the file is cut into at least 1,000 chunks |
| SplitChunk.Chunks | src/000_split_chunk.py:146 | the chunked read yields non-empty pieces of at most k rows, all of exactly k rows but the last, which concatenate in order to the file's rows |
| SplitChunk.ChunkedRead | src/000_split_chunk.py:146 | the reader's pieces concatenate to the rows, hold at most k rows each, all but the last exactly k; there is always at least one, so a header-only file yields one empty piece, and a file with rows yields no empty piece |
| SplitChunk.ChunkedReadCount | src/000_split_chunk.py:146 | the reader yields ceil(n / k) pieces, and one for a file without rows |
| SplitChunk.ChunkCount | src/000_split_chunk.py:146 | the number of pieces is ceil(n / k) |
| SplitChunk.RowCounts | src/000_split_chunk.py:124-150 | `csv_row_counts`: one entry per chunk; `SplitChunk.RowCountsStep` and `SplitChunk.SumOfRowCounts` state what the entries are |
| SplitChunk.RowCountsStep | src/000_split_chunk.py:149-150 | one more chunk appends exactly its own length to the row counts |
| SplitChunk.SumOfRowCounts | src/000_split_chunk.py:149-150 | the row counts add up to the number of rows the chunks hold |
| SplitChunk.ListInputFiles | src/000_split_chunk.py:87-92 | no more files than directory entries, each ending in `.csv`; `SplitChunk.ListInputFilesExactly` states which |
| SplitChunk.ListInputFilesAppend | src/000_split_chunk.py:87-92 | the listing keeps directory order: the files of two runs of entries are those of the first run, then those of the second |
| SplitChunk.ListInputFilesExactly | src/000_split_chunk.py:87-92 | a path is listed if and only if it is the input directory joined with an entry ending in `.csv` |
| SplitChunk.BaseFilename | src/000_split_chunk.py:94-95 | the base name has no separator and is a prefix of the file's basename |
| SplitChunk.BaseFilenameOfCsv | src/000_split_chunk.py:94-95 | an input `{stem}.csv` in any directory has base name `stem` |
| SplitChunk.DotOnlyNamesKeepExtension | src/000_split_chunk.py:94-95 | files named `.csv` and `..csv` keep their whole name as base name |
| SplitChunk.KeepsWholeName | src/000_split_chunk.py:94-95 | a separator-free name without an inner dot is its own base name, in any directory |
| SplitChunk.ChunkFileName | src/000_split_chunk.py:98 | the chunk file name starts with `{base}_` and ends with `.csv` |
| SplitChunk.ChunkFileNameNoSep | src/000_split_chunk.py:98 | the chunk file name of a separator-free base has no separator |
| SplitChunk.ChunkNumberRoundTrip | src/000_split_chunk.py:98 | the chunk number can be read back out of `{base}_{n}.csv` |
| SplitChunk.ChunkFileNameInjective | src/000_split_chunk.py:98 | distinct chunk numbers of one file give distinct file names |
| SplitChunk.OutputFilenames | src/000_split_chunk.py:97-99 | the chunk's file name and its path in the output directory; no contract of its own, `SplitChunk.OutputPathNames` states how the two relate |
| SplitChunk.OutputPathNames | src/000_split_chunk.py:97-99 | chunk n's path lies in the output directory under `{base}_{n}.csv`, and its own base name is `{base}_{n}` |
| SplitChunk.Outputs | src/000_split_chunk.py:146-148 | one planned output per chunk, numbered from 1 in read order, carrying that chunk's rows |
| SplitChunk.OutputRows | src/000_split_chunk.py:146-153 | the rows of the outputs, one entry per output |
| SplitChunk.Written | src/000_split_chunk.py:55-58 | never more outputs than planned, and every output kept has a writable path; `SplitChunk.WrittenMembers` states exactly which |
| SplitChunk.WrittenMembers | src/000_split_chunk.py:55-58 | an output reaches the disk if and only if it was planned and its path is writable |
| SplitChunk.WrittenStep | src/000_split_chunk.py:152-153 | a write appends chunk n's output exactly when its path is writable, and changes nothing else |
| SplitChunk.WrittenAll | src/000_split_chunk.py:55-58 | when every write succeeds, every planned output is written |
| SplitChunk.FirstUnconvertible | src/000_split_chunk.py:101-105 | the first chunk number whose parquet step raises: every earlier chunk converts, and this one does not |
| SplitChunk.SplitRun | src/000_split_chunk.py:145-161 | succeeds if and only if every chunk converts, then with one row count per chunk; otherwise fails at a chunk whose conversion raises, with fewer outputs written than its number |
| SplitChunk.SplitRunStopsAt | src/000_split_chunk.py:114-117 | when the conversion of chunk i + 1 raises, the run fails with that chunk number, and only chunks 1..i may have been written |
| SplitChunk.HeaderOnlyRun | src/000_split_chunk.py:145-153 | for a header-only file chunk 1's conversion is attempted; when it goes through the counts are `[0]` and an empty chunk is written if its path is writable |
| SplitChunk.AllConvert | src/000_split_chunk.py:145-161 | when every chunk converts, the run succeeds with one row count per chunk |
| SplitChunk.AllWritten | src/000_split_chunk.py:55-58 | when every chunk path is writable, every planned output is written |
| SplitChunk.SplitRoundTrip | src/000_split_chunk.py:145-161 | with no failure, the outputs are chunks 1..N in order, their row counts sum to the file's row count, and their rows concatenate back to the file |
| SplitChunk.WriteFailureIsolated | src/000_split_chunk.py:55-58 | a failed write loses only its own chunk: among the chunks reached, chunk j is written if and only if its path is writable |
| SplitChunk.WriteChunks | src/000_split_chunk.py:145-161 | the chunk loop yields exactly the specified run (row counts or the failing chunk, and the outputs written); on success the counts sum to the rows consumed |
| SplitChunk.BaseFilenameProcessor.constructor | src/000_split_chunk.py:71-76 | a new processor keeps its directories and starts with chunk size 10,000 |
| SplitChunk.BaseFilenameProcessor.SelectChunkSize | src/000_split_chunk.py:133-143 | the field becomes the tier table's size for the row count, given its old value, and stays positive |
| SplitChunk.BaseFilenameProcessor.ExtractedFromProcessChunk | src/000_split_chunk.py:119-161 | an unreadable file fails before the chunk size changes; otherwise the field gets its tier and the run is the chunk loop over the file's rows under the file's base name |
| SplitChunk.BaseFilenameProcessor.ProcessChunk | src/000_split_chunk.py:109-117 | every error of the file is caught and logged, and the outputs are those written before it |
| BulkLoad.GetDatasetName | src/003_dst_canperiodhist.py:17-18 | the result is some key of the document and exists if and only if the document is non-empty; an empty document fails |
| BulkLoad.SchemaFor | src/003_dst_canperiodhist.py:52 | the lookup succeeds if and only if the name is a key, with that key's columns; otherwise it fails naming the key |
| BulkLoad.DatasetSchema | src/003_dst_canperiodhist.py:50-52 | the dataset name is the first key and always finds that entry's columns |
| BulkLoad.ColumnDefinition | src/003_dst_canperiodhist.py:60 | `name type NOT NULL` for one column; no contract of its own, `BulkLoad.ColumnClauseSplits` and `BulkLoad.LoadColumnsMatchCreate` state how the definitions sit in the CREATE clause |
| BulkLoad.ColumnDefinitions | src/003_dst_canperiodhist.py:60 | one column definition per schema column |
| BulkLoad.ColumnClause | src/003_dst_canperiodhist.py:60 | the CREATE column clause; no contract of its own, `BulkLoad.ColumnClauseSplits` states its shape |
| BulkLoad.ColumnClauseSplits | src/003_dst_canperiodhist.py:60 | splitting the CREATE column clause at `, ` gives back exactly the `name type NOT NULL` definitions, in schema order |
| BulkLoad.LoadColumnList | src/003_dst_canperiodhist.py:93 | the LOAD column list; no contract of its own, `BulkLoad.LoadColumnsMatchCreate` relates it to the CREATE clause |
| BulkLoad.LoadColumnsMatchCreate | src/003_dst_canperiodhist.py:93 | the LOAD column list has as many names as the CREATE clause has definitions, and its i-th name starts the i-th definition |
| BulkLoad.EscapeBackslashes | src/003_dst_canperiodhist.py:91 | every backslash doubled; no contract of its own, `BulkLoad.EscapeRoundTrip` states that it loses nothing |
| BulkLoad.EscapeRoundTrip | src/003_dst_canperiodhist.py:91 | doubling the backslashes loses nothing (reading them back gives the string) and adds one character per backslash |
| BulkLoad.Database.constructor | src/003_dst_canperiodhist.py:38-46 | a fresh connection has issued nothing and committed nothing |
| BulkLoad.Database.Execute | src/003_dst_canperiodhist.py:106-107 | the statement is appended to the log; it fails as the server says; a LOAD that succeeds reports its file's row count; only a successful COMMIT commits |
| BulkLoad.Matches | src/003_dst_canperiodhist.py:88 | the file filter; no contract of its own, `BulkLoad.PrefixAlsoMatchesLongerNames`, `BulkLoad.ChunkFilesMatch` and `BulkLoad.LoadsExactly` state what it accepts |
| BulkLoad.PrefixAlsoMatchesLongerNames | src/003_dst_canperiodhist.py:88 | the filter accepts `accidentxyz_1.csv` for table `accident`, and rejects a non-`.csv` name |
| BulkLoad.ChunkFilesMatch | src/003_dst_canperiodhist.py:88 | every chunk file of an input whose base name starts with the table name passes the filter |
| BulkLoad.LoadPath | src/003_dst_canperiodhist.py:91-92 | the path a LOAD names; no contract of its own, `BulkLoad.LoadPathReadBack` and `BulkLoad.MainLoadPath` state what it spells |
| BulkLoad.LoadPathReadBack | src/003_dst_canperiodhist.py:91-92 | the LOAD path, with its doubled backslashes read back, is the directory joined with the file name |
| BulkLoad.LoadStatement | src/003_dst_canperiodhist.py:94-104 | the LOAD query for one file; no contract of its own, `BulkLoad.LoadsExactly`, `BulkLoad.LoadsAreLoads` and `BulkLoad.MainLoadPath` state its table, columns and path |
| BulkLoad.Loads | src/003_dst_canperiodhist.py:87-104 | one LOAD per matching entry; no contract of its own, `BulkLoad.LoadsExactly` and `BulkLoad.LoadsAppend` state which and in what order |
| BulkLoad.LoadsAppend | src/003_dst_canperiodhist.py:87-88 | LOADs follow listing order: those of two runs of entries are the first run's, then the second's |
| BulkLoad.LoadsExactly | src/003_dst_canperiodhist.py:87-104 | a LOAD is issued for a file if and only if its name matches the filter, and every LOAD targets this table with the schema's column list |
| BulkLoad.LoadsAreLoads | src/003_dst_canperiodhist.py:94-104 | every statement the listing produces is a LOAD into this table |
| BulkLoad.RunStatements | src/003_dst_canperiodhist.py:106-125 | `cursor.execute` on one statement after another, stopping at the first that raises; no contract of its own, `BulkLoad.RunStatementsSpec`, `BulkLoad.RunUntilFailure`, `BulkLoad.RunWithoutFailure` and `BulkLoad.IssuedPrefix` state what it issues and adds up |
| BulkLoad.RunStatementsSpec | src/003_dst_canperiodhist.py:106-125 | issuing stops right after the first failing statement; with no failure every statement is issued and the total is the sum of the row counts |
| BulkLoad.RunUntilFailure | src/003_dst_canperiodhist.py:123-125 | the failing statement is the last one issued, and it is the one reported |
| BulkLoad.RunWithoutFailure | src/003_dst_canperiodhist.py:106-108 | without a failure, every statement is issued and every row count is added |
| BulkLoad.IssuedPrefix | src/003_dst_canperiodhist.py:87-106 | the statements issued are a prefix of those asked for |
| BulkLoad.FirstFailure | src/003_dst_canperiodhist.py:106 | the position of the first failing statement: none before it fails, and it does |
| BulkLoad.Import | src/003_dst_canperiodhist.py:87-112 | the LOAD loop as a function of the listing; no contract of its own, `BulkLoad.ImportIsRunOfLoads` and `BulkLoad.RunStatementsSpec` state what it issues and adds up |
| BulkLoad.ImportIsRunOfLoads | src/003_dst_canperiodhist.py:87-112 | the LOAD loop is exactly the issuing of the listing's matching LOADs, one by one |
| BulkLoad.TotalRows | src/003_dst_canperiodhist.py:85-108 | `total_rows_imported`: the sum of the LOADs' row counts; no contract of its own, `BulkLoad.TotalRowsZero` and `BulkLoad.RunWithoutFailure` state it |
| BulkLoad.TotalRowsZero | src/003_dst_canperiodhist.py:107-115 | the total is zero if and only if every LOAD reports zero rows |
| BulkLoad.ExtractRun | src/003_dst_canperiodhist.py:76-125 | every extraction issues TRUNCATE first; a successful one returns a positive total and ends with COMMIT |
| BulkLoad.Conclusion | src/003_dst_canperiodhist.py:114-119 | succeeds if and only if no LOAD failed, the total is positive and COMMIT goes through, returning the total; COMMIT is issued if and only if no LOAD failed and the total is positive; a failed LOAD is passed on as its own database error, and a zero total is "no data imported" |
| BulkLoad.ExtractCommits | src/003_dst_canperiodhist.py:81-117 | an extraction issues COMMIT if and only if TRUNCATE and every LOAD went through and the LOADs imported at least one row |
| BulkLoad.ExtractOrder | src/003_dst_canperiodhist.py:81-117 | TRUNCATE comes first; then LOADs for this table in listing order, none skipped; then at most one COMMIT, last, and a successful run always ends with it |
| BulkLoad.ExtractResult | src/003_dst_canperiodhist.py:107-117 | success if and only if no statement fails, the total is non-zero and the commit goes through, returning the sum of the per-file counts; "no data imported" if and only if nothing failed and every matching file loaded zero rows |
| BulkLoad.NoMatchingFiles | src/003_dst_canperiodhist.py:114-115 | with no matching file, the run issues only TRUNCATE and fails with "no data imported" |
| BulkLoad.CsvToMySql.constructor | src/003_dst_canperiodhist.py:49-53 | the loader keeps the directory, the table name, its schema and the database |
| BulkLoad.CsvToMySql.CreateTable | src/003_dst_canperiodhist.py:55-74 | DROP, then CREATE with the column clause, for the same table; a database error stops at the failing statement and is passed on; nothing is committed |
| BulkLoad.CsvToMySql.ImportFiles | src/003_dst_canperiodhist.py:87-112 | the loop issues the specified LOADs, reports the first failing one, and returns the sum of the row counts; nothing is committed |
| BulkLoad.CsvToMySql.Conclude | src/003_dst_canperiodhist.py:114-119 | the log grows by exactly what `Conclusion` issues and the result is its result: a failed LOAD is passed on and a zero total fails, both without COMMIT; otherwise exactly one COMMIT, and the database is committed only when it goes through |
| BulkLoad.CsvToMySql.ExtractFromCsv | src/003_dst_canperiodhist.py:76-125 | the database log grows by exactly the specified extraction, the result is its outcome, and the database is committed exactly when the run succeeds |
| BulkLoad.MainCsvDir | src/003_dst_canperiodhist.py:138-139 | the loader's directory is the output directory followed by two backslashes |
| BulkLoad.MainLoadPath | src/003_dst_canperiodhist.py:139-141 | a LOAD path spells the escaped output directory, four backslashes and the file name, and reads back as the output directory, two backslashes and the file name |
| BulkLoad.LoadDataset | src/003_dst_canperiodhist.py:127-143 | empty document: fails before any statement; otherwise DROP and CREATE for the first key, stopping at a failure, then the specified extraction; committed exactly on success |

## Left out

- Configuration is not modelled: `.env` loading, environment variables and directory creation.
- File deletion (`removeExistingFile`) is not modelled.
- Logging, `print` calls and execution-time measurements are not modelled. `ProcessChunk` reports only whether an error was logged.
- The `multiprocessing.Pool` fan-out over input files is not modelled. `pool.starmap` hands the files to the workers in batches. Each batch works on its own copy of the processor, and the files of one batch run one after another on that copy. So the size a gap-sized file keeps is 10,000 when it comes first in its batch, and otherwise whatever size the earlier files of its batch left the processor with. The model processes one file per call on a processor whose current size is that previous value.
- CSV parsing is not modelled. A file is a `seq<Row>`:
  - the polars row count is its length;
  - pandas' chunked read is `ChunkedRead`: the partition `Chunks`, or one empty piece when the file has a header and no rows;
  - any failure of either reader to read the file is `contents == None`, which `process_chunk` catches and logs.
- The parquet output is not modelled. Of the parquet conversion, only whether it raises is modelled, as the `convertible` oracle.
- Drive letters and UNC prefixes in Windows paths are not modelled.
- The MySQL connector is not modelled: connecting, `close`, and connection errors. Server-side DROP/CREATE/TRUNCATE/LOAD semantics are not modelled either; the server is the `fails` and `rowCount` oracles.
- SQL text beyond the table name, the column list and the LOAD path is not modelled (engine, charset, FIELDS/LINES clauses).
- BulkLoad.Database.Execute: the row count is a natural number. DB-API's `-1` "unknown" rowcount is not modelled.
- Reading the schema document from its JSON file, and JSON parse errors, are not modelled. The parsed document is a parameter: its keys in order, each with its columns in order.
- The module-level global `datasetName` is not modelled as a global. It becomes the loader's `tableName`, and `LoadDataset` sets it from the first key.
- Errors raised outside the database are not modelled, for example an unreadable directory in `os.listdir`. The listing is a parameter. The one exception of that kind the code raises itself, "no data imported", is modelled.
