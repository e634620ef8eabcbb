# Access-log bulk loader, modelled in Dafny

`load.py` loads a web-server access log into a MariaDB table `log(ip, dt, url)`. It works in four steps:

1. It cuts the log file into numbered chunk files under a temporary directory.
2. It hands each chunk to a worker. The worker parses every line with one regular expression.
3. The worker turns the bracketed timestamp into a naive UTC `datetime`, and escapes the URL and cuts it to 500 characters.
4. The worker inserts the rows in multi-row `INSERT` statements. A chunk's first statement carries at most `numrows + 1` rows (exactly that many when the chunk has more than `numrows` lines), and each later one at most `numrows`.

The first line of a chunk that cannot be parsed stops that chunk. The error is logged and dropped, and the other chunks carry on.

This project models those steps as pure functions over sequences, strings and integers, and proves what they do.

| file | module | models |
|---|---|---|
| `chunks.dfy` | `Chunks` | `split_to_chunks` and `get_chunk_path`. The loop is written as a tail-recursive function, with a reference layout and a loop method proved equal to it. |
| `line_pattern.dfy` | `LinePattern` | `parse_line`. The pattern is a declarative predicate over cut points (`Fits`). `Preferred` picks the match Python's backtracking reports. `MatchLayout` is a scanner proved to find exactly that match. |
| `timestamps.dfy` | `Timestamps` | `get_datetime`: `strptime` with `%d/%b/%Y:%H:%M:%S %z`, the conversion to UTC, and `str()` of the resulting `datetime`. It rests on proleptic Gregorian day numbers, the same as Python's `toordinal`. |
| `batching.dfy` | `Batching` | The batching loop of `process`, for any per-line conversion, with a reference definition of the batches. |
| `loader.dfy` | `Loader` | `get_url`, the row text, `insert_rows`'s SQL text, and `process` on one chunk. |
| `pipeline.dfy` | `Pipeline` | `main` and `load_chunk`: all chunks loaded one after another, with chunk errors dropped. |
| `blocks.dfy`, `text.dfy`, `arith.dfy`, `wrappers.dfy` | | Fixed-size blocks of a sequence; ASCII classes, decimal text and `join`; Euclidean and Python (floored) remainders; `Option` and `Result`. |

Every step follows the code as written, including its boundary tests:

- **Chunk split.** `split_to_chunks` closes a chunk after writing line `i` whenever `i % chunksize == 0`. That test already fires at `i == 0`, so:
  - chunk 1 always holds the first line alone;
  - every later chunk except the last holds `chunksize` lines;
  - the last chunk holds the remaining `(n - 1) % chunksize` lines and can be empty.
- **Batches.** `process` inserts after appending the row of line `i` when `i != 0 and i % numrows == 0`. So the first batch holds at most `numrows + 1` rows (exactly that many when the chunk has more than `numrows` lines), and every later full batch holds `numrows`. Chunk 1 has one line, so its only statement inserts one row. Five rows with `numrows = 2` give two statements of 3 and 2 rows.
- **Where the code and its own option help disagree.** The command-line help (load.py:23-26) calls `numrows` the "number of rows for INSERT statement" and `chunksize` the "number of lines for chunk file". The loops do not keep to either:
  - chunk 1 has one line whatever `chunksize` is, and a trailing chunk can be empty;
  - a chunk's first statement carries at most `numrows + 1` rows (exactly that many when the chunk has more than `numrows` lines).

  The model follows the loops.
- **Zero and negative sizes.** Python's `%` is floored, so a negative `chunksize` or `numrows` behaves like its absolute value. Zero divides by zero:
  - `chunksize = 0` with a non-empty file ends the run before anything is loaded;
  - `numrows = 0` ends a chunk at its second line.

  Both are modelled as errors, not excluded by preconditions.
- **Invalid timestamps.** A timestamp that `strptime` refuses, or whose UTC conversion leaves years 1..9999, is an error that stops the chunk, like a line the pattern does not match.

## Model

| member | source | states |
|---|---|---|
| Chunks.ChunkPathInjective | load.py:30-31 | `ChunkPath`, the model of `get_chunk_path`, gives different `chunk<fid>.log` paths in the same directory for different chunk numbers. |
| Chunks.SplitShape | load.py:57-73 | Concatenated in order, the chunks are the input lines. An empty file gives one empty chunk. Otherwise, with `g = abs(chunksize)`: chunk 1 is the first line alone, every middle chunk has `g` lines, the last has `(n-1) % g` lines, and there are `2 + (n-1) / g` chunks. |
| Chunks.SplitFromLayout | load.py:64-72 | The split loop, started from the closed and open chunks of the first `i` lines, ends with the reference layout: the first line, then full blocks, then the rest. |
| Chunks.ClosedSnoc | load.py:65-71 | Writing one more line closes the open chunk exactly when the index of that line is a multiple of the chunk size. |
| Chunks.SplitToChunks | load.py:57-73 | The call fails iff `chunksize` is 0 and the file has a line. Otherwise chunk `j` (counting from 0) has id `j+1` and the path `get_chunk_path(tmpdir, j+1)`. For a non-zero size its lines are block `j` of the reference layout: the first line alone, then full blocks of `abs(chunksize)` lines, then the rest. No lines give one empty chunk. |
| Chunks.SplitContentsLayout | load.py:60-72 | For every non-zero size the split gives the reference layout. With no lines it gives one empty chunk, whatever the size. |
| Chunks.SplitToChunksSound | load.py:57-73 | The returned paths are pairwise distinct. Reading the chunks in the returned order gives back every input line once, in input order. |
| Chunks.SplitToChunksLoop | load.py:57-73 | A loop over the lines that builds the chunk records as it goes returns the same chunks as `SplitToChunks`. |
| Chunks.JoinPath | load.py:31 | `os.path.join` ends with the file name, after the directory plus a `/` unless the directory already ends with one. |
| LinePattern.MatchIpExact | load.py:84 | The address scanner returns exactly the cut points of four 1–3 digit groups separated by dots, followed by a non-word character or the end of the line. |
| LinePattern.SearchSound | load.py:84-85 | The lazy gap `.*?` before the bracket ends at the first position where the bracket and request parts match. It never crosses a line feed. |
| LinePattern.SameEndsSameLayout | load.py:84-86 | Two matches with the same `[` position and the same URL end agree on every group boundary. So the preferred match is unique. |
| LinePattern.MatchLayoutSound | load.py:84-86 | When the scanner finds a layout, that layout is a match of the whole pattern, and it is the one with the leftmost `[`, and then the shortest URL. |
| LinePattern.MatchLayoutComplete | load.py:84-86 | If any layout matches the pattern, the scanner finds one. |
| LinePattern.PreferredIsScanned | load.py:84-86 | The preferred match, when there is one, is exactly what the scanner returns. |
| LinePattern.ParseLine | load.py:83-89 | On failure the error message is the fixed prefix followed by the line itself. |
| LinePattern.ParseLineExact | load.py:83-89 | `parse_line` succeeds with groups `g` iff the preferred match has those groups. It fails iff no layout matches the pattern. |
| Timestamps.ParseStamp | load.py:96 | An accepted text has the captured layout and gives a valid date-time with an offset under one day. |
| Timestamps.ParseFormatStamp | load.py:96 | Reading the canonical text of any valid zoned time gives that zoned time back. |
| Timestamps.MonthRoundTrip | load.py:96 | `%b` reads each English month abbreviation as its month number. |
| Timestamps.MonthNumber | load.py:96 | The month found is one whose abbreviation equals the name when both are case-folded. No month means none matches. |
| Timestamps.NextDay | load.py:97 | The next day is a valid date whose day number is one more. It rolls over month and year ends, leap days included. |
| Timestamps.PrevDay | load.py:97 | The previous day is a valid date whose day number is one less. |
| Timestamps.OrdinalInjective | load.py:97 | Distinct valid dates have distinct day numbers. |
| Timestamps.ToUtc | load.py:96-98 | A result is a valid naive date-time that reads, in seconds, exactly the UTC instant the zoned time denotes. Otherwise the error is the year-range overflow. |
| Timestamps.ToUtcDefinedIff | load.py:97 | The conversion succeeds iff the instant lies between 0001-01-01 00:00:00 and 9999-12-31 23:59:59. |
| Timestamps.ToUtcZeroOffset | load.py:96-98 | With a `+0000` offset the wall-clock fields are returned unchanged. |
| Timestamps.ToUtcSameInstant | load.py:96-98 | Two zoned times that denote the same instant give the same result, whatever their offsets. |
| Timestamps.ToUtcRollover | load.py:97 | One hour east on 1 March gives 29 February in 2024 and 28 February in 2023. One hour west on 31 December gives the next year. |
| Timestamps.GetDatetime | load.py:92-98 | Success iff parsing and the UTC conversion both succeed. The result is valid and reads the UTC instant of the parsed text. |
| Timestamps.ExampleUtc | load.py:92-98 | `10/Oct/2023:13:55:36 +0000` gives 2023-10-10 13:55:36. |
| Timestamps.ExampleWest | load.py:92-98 | `10/Oct/2023:08:55:36 -0500` gives the same 2023-10-10 13:55:36. |
| Timestamps.FormatDateTime | load.py:113 | `str(datetime)` is 19 characters `YYYY-MM-DD HH:MM:SS`. Each field reads back as the corresponding value. |
| Loader.GetUrl | load.py:101-102 | The stored URL is the prefix of the escaped URL of length `min(500, len(escaped))`. |
| Loader.ParseRecord | load.py:109-112 | A line gives a record iff `parse_line` matches it and `get_datetime` accepts its time group. The record's address is the address group. Its time is a valid date-time whose seconds are the UTC instant of the time group. Its URL is `get_url` of the URL group, at most 500 characters. A line the pattern rejects reports the `parse_line` message. A refused time is the line's time group, and it always has the timestamp layout. |
| Loader.DtGroupHasShape | load.py:85 | Every time group the pattern captures has the layout `strptime`'s format expects. So `get_datetime` can refuse such a time only through its field checks (a month name it does not know, a value out of range) or through a UTC year outside 1..9999. |
| Loader.RowRoundTrip | load.py:113 | A row text `('ip', 'dt', 'url')`, as `RowText` builds it, reads back as its three values when the address has no quote and the time has 19 characters. |
| Loader.RowOfReadsBack | load.py:109-113 | The row of any parsed line reads back as its address, its UTC time text and its stored URL. |
| Loader.IpHasNoQuote | load.py:84 | The address group holds only digits and dots, so it never contains a quote. |
| Loader.InsertSql | load.py:76-80 | The statement is ``INSERT INTO `log`(ip, dt, url) VALUES ``, then the rows joined by `,`, then `;` and a newline. |
| Loader.InsertSqlLength | load.py:76-80 | A statement is as long as its fixed head and `;\n` tail, plus the row texts, plus one comma between each two rows. |
| Loader.ProcessRows | load.py:105-120 | `Loader.Process` is `process` on one chunk. For non-zero `numrows`:<br>• when every line parses, the batches concatenate to the rows of the lines, in order;<br>• on the first failing line, the chunk inserts exactly the batches flushed before it, and loses at most `abs(numrows)` unflushed rows;<br>• no batch is empty;<br>• no lines issue no statement. |
| Batching.ParseAll | load.py:108-112 | There is at most one row per line. The whole chunk converts iff no error is reported, and then there is one row for every line. |
| Batching.ParseAllRows | load.py:108-112 | Each line before the stopping point converts to its row. The line at the stopping point fails with the reported error. |
| Batching.ParseAllAppend | load.py:108-112 | When a first piece of lines converts entirely, converting it together with what follows gives its rows followed by the rows of the rest. |
| Batching.ParseAllStops | load.py:108-112 | A failure in a first piece of lines hides everything after it. |
| Batching.BatchSnoc | load.py:115-117 | Appending the row of index `i` flushes exactly when `i != 0` and `i` is a multiple of `numrows`. Otherwise the row joins the pending rows. |
| Batching.ProcessFromReference | load.py:105-120 | `Batching.ProcessFrom` is the loop of `process`. The loop, started from the flushed and pending rows of `i` converted lines, ends with the reference batches of all converted rows. When a line fails, it ends with only the flushed ones and that line's error. |
| Batching.ProcessReference | load.py:105-120 | `process` inserts the reference batches of its rows. When a line fails, it inserts only the batches flushed before that line and reports the line's error. |
| Batching.ProcessZeroRows | load.py:115 | With `numrows = 0`, a single line is inserted alone. Reaching a second convertible line raises the division error. Nothing else is inserted. |
| Batching.FlushedShape | load.py:115-117 | The flushed batches followed by the pending rows are the rows in order. The first batch has `numrows+1` rows and later ones `numrows`. At most `numrows` rows are pending. |
| Batching.BatchesShape | load.py:105-120 | When every line converts:<br>• the batches concatenate to the rows;<br>• none is empty, and there are none for no rows;<br>• the first has `min(n, numrows+1)` rows;<br>• every later one has 1..`numrows` rows, and all but the last exactly `numrows`. |
| Batching.FiveRowsTwoPerBatch | load.py:115-120 | Five rows with `numrows = 2` give batches of three and two rows. |
| Batching.ProcessLoop | load.py:105-120 | A loop with an explicit row buffer returns the same outcome as the recursive model of `process`. |
| Pipeline.Run | load.py:123-135 | The run fails before loading anything iff `chunksize` is 0 and the file is not empty. This follows from the division error that `split_to_chunks` reports, not from a test of its own. |
| Pipeline.ChunkIsolation | load.py:34-54 | What chunk `k` inserts is its own `process` outcome. It comes after the batches of earlier chunks and before those of later chunks, whatever errors any chunk meets. |
| Pipeline.LoadAllRows | load.py:129-130 | For non-zero `numrows`, when every line of every chunk parses, the chunks together insert the rows of all their lines, in order. |
| Pipeline.ProcessNonEmpty | load.py:115-120 | For every `numrows`, including 0, one chunk's `process` never issues an `INSERT` with no rows, whether or not a line fails. |
| Pipeline.LoadAllNonEmpty | load.py:115-120 | For every `numrows`, including 0, and whatever errors the chunks meet (the division error of `numrows = 0` among them), every statement of the run inserts at least one row, since `process` flushes only non-empty batches. |
| Pipeline.RunLoadsEveryLine | load.py:123-135 | For non-zero sizes and a file whose every line parses, the run succeeds. No statement inserts an empty batch. The inserted rows are the rows of the file's lines, each once, in file order. |
| Pipeline.RunZeroChunkSize | load.py:64-66 | With `chunksize = 0`, an empty file issues no statement and any other file fails. |
| Arith.PyModZero | load.py:66 | Python's `a % b == 0` holds exactly when `abs(b)` divides `a`, for either sign of `b`. |
| Blocks.Snoc | load.py:115-117 | Appending one element completes a block exactly when the new length is a multiple of the block size. Otherwise the element grows the remainder. |
| Blocks.FullRest | load.py:65-71 | The full blocks followed by the remainder give back the sequence. Every block has the block size, and the remainder is shorter. |
| Text.DecimalRoundTrip | load.py:31 | Reading back the decimal text of a number gives the number. This is what makes chunk paths distinct. |

## Left out

- Command-line parsing (`get_args`) and the defaults it supplies. Sizes are parameters of the model.
- The process pool (`multiprocessing.Pool`, `apply_async`, `close`, `join`). Chunks are loaded one after another, so the model does not cover how statements from different chunks interleave in time. Within a chunk the order is the one proved.
- The temporary directory itself (`tempfile.mkdtemp`, `shutil.rmtree`) and all file I/O. The input file is its sequence of lines, and a chunk file is the sequence of lines written to it. The directory name is a parameter.
- The database: `pymysql.connect`, the credentials read from the environment, `cursor.execute`, and the connection's `close`. The database is the list of statements executed. A statement that the database rejects is not modelled, and every statement is taken to succeed.
- `logging` and the bare `except` in `load_chunk`. A chunk's error is returned with its outcome and then dropped.
- `pymysql.escape_string`. Its source is not part of this model, so it is a parameter `escape: string -> string`.
- Non-ASCII behaviour of `\d`, `\w` and `\s`, and of case folding in `%b`. The model uses the ASCII members of each class (for `\s` these include the separators 0x1C to 0x1F) and ASCII lower-casing.
- `%b` under locales other than English. The month names are the English abbreviations.
- `strptime` leniencies that the captured text cannot reach, such as one-digit days or a `Z` zone. The pattern only lets through the layout described by `Timestamps.StampShape`.
- Lines are `str` values as Python's text-mode file iteration yields them. Decoding and newline translation are not modelled.
- Batching.ParseAll: its own contract counts the rows and gives the error iff. Which rows they are is stated by `Batching.ParseAllRows`. It is kept apart because putting it into the contract makes the proofs about concatenated input too costly for the verifier.
- Timestamps.ParseStamp: states success properties and the round trip from canonical text. It does not state a separate iff for every rejected text, because the rejections are the range checks written in `Accept`.
