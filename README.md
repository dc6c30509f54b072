# extract_fulltext, modelled in Dafny

`extract_fulltext.py` turns a directory of xz-compressed JSON-lines archives
(the CORE full-text dump) into one Parquet file. It works in five steps:

1. It lists the `*.json.xz` archives and sorts them by the first number in
   each name.
2. It streams every line of an archive and projects each decoded object onto
   the seven `DESIRED_KEYS`.
3. It keeps the records whose `fullText` is truthy.
4. It accumulates those records across archives. After every 30 processed
   archives it flushes them to `checkpoint_<k>.parquet`, and it flushes the
   rest to `final_checkpoint.parquet`. A limited mode stops after 3 archives.
5. It concatenates every `.parquet` file of the checkpoint directory into the
   output table.

This project models that pipeline and proves its properties. The modules are:

- `Json`: decoded JSON values and Python truthiness on them.
- `Decimal`: `str(n)` and the sort key `int(re.search(r'(\d+)', name).group())`.
- `Records`: the projection, the `stream_json_xz` stream and `process_file`.
- `Listing`: the choice and order of the archives.
- `Tables`: columnar tables as `save_to_parquet` builds them, reading them
  back, and `pa.concat_tables`.
- `Checkpointing`: `save_to_parquet`, checkpoint file names, the cadence of
  numbered checkpoints, the final checkpoint, and the checkpoint directory
  after a run.
- `Pipeline`: the loop of `process_directory`, and `process_directory` itself.
- `Combining`: `combine_checkpoints`, and what the output table holds after a
  complete run.
- `Outcomes`: `Option`, `Result` and the faults the script can raise, plus
  small sequence lemmas.

The file system is replaced by values:

- an archive is the sequence of its lines after `json.loads`;
- the source directory is its listing plus a map from the names that exist
  to their lines;
- the checkpoint directory is a map from file name to table;
- `os.walk` is a function from that map to the files it meets. It meets every
  file of the directory exactly once, with the table the file holds. Only the
  order is its own;
- every file the run writes is an entry of a log that the methods return.

An exception that the script does not catch ends the run. The model returns
it as a `Fault`:

- a line that decodes to something other than an object (`.get` raises
  `AttributeError`);
- an archive name without digits (`.group()` on `None` raises);
- tables whose columns differ (`pa.concat_tables` raises).

The `elif not process_all and file_counter == 3: break` of the loop (lines
64-65) is kept as written. It changes nothing the run writes: it stops the
loop one check earlier than the test at the head of the next pass would. Its
only effect is to skip the "Processed file" message for the third archive,
and messages are logging, which the model leaves out.

## Model

| member | source | states |
|---|---|---|
| `Records.ProjectSpec` | extract_fulltext.py:15 | The projection has exactly the seven `DESIRED_KEYS`. A present key keeps its value and an absent key becomes null. |
| `Records.ProjectIdempotent` | extract_fulltext.py:15 | Projecting a projected record changes nothing. |
| `Records.ProjectIgnoresOtherKeys` | extract_fulltext.py:15 | A key outside `DESIRED_KEYS` is dropped: changing it leaves the projection unchanged. |
| `Records.ProjectAbsentIsNull` | extract_fulltext.py:15 | An absent key and a key holding null project alike (`dict.get`). |
| `Records.StreamSpec` | extract_fulltext.py:10-18 | The stream fails exactly when a decoded line is not an object. Otherwise it yields at most one record per line, and every record has exactly the seven keys. |
| `Records.StreamAppend` | extract_fulltext.py:12-16 | Streaming is line by line: the stream of `a + b` is that of `a` followed by that of `b`, and the first fault wins. |
| `Records.SkipsMalformed` | extract_fulltext.py:13-18 | A line that fails to decode yields nothing, and the records of the other lines keep their order. |
| `Records.StreamObject` | extract_fulltext.py:14-16 | A line holding an object yields exactly its projection. |
| `Records.KeepFullTextSpec` | extract_fulltext.py:22-24 | A record is kept exactly when it is in the stream and its `fullText` is truthy. |
| `Records.KeepFullTextAppend` | extract_fulltext.py:22-24 | The filter keeps stream order: it distributes over concatenation. |
| `Records.FullTextRecordsSpec` | extract_fulltext.py:20-25 | `process_file` fails exactly when the stream does. Each record it returns is projected and has truthy `fullText`. |
| `Records.ProcessFile` | extract_fulltext.py:20-25 | The loop over the stream returns exactly the records of `FullTextRecords`, the filtered stream. |
| `Decimal.DecimalString` | extract_fulltext.py:60 | `str(k)` is a non-empty digit string without a leading zero that reads back as `k`. |
| `Decimal.DigitRunLength` | extract_fulltext.py:41 | The run of digits `\d+` matches at the start of a string: all digits, and not followed by a digit. |
| `Decimal.FirstNumber` | extract_fulltext.py:41 | The search finds no number exactly when the name has no digit. |
| `Decimal.FirstNumberOfDigits` | extract_fulltext.py:41 | A run of digits inside a name, with no digit before it and none right after it, gives the name's sort key: the run's value as `int` reads it, leading zeros included (`007` is 7). |
| `Decimal.FirstNumberOfEmbedded` | extract_fulltext.py:41 | In particular, `str(n)` embedded that way gives the sort key `n`. |
| `Decimal.DecimalStringInjective` | extract_fulltext.py:60 | Distinct checkpoint numbers have distinct spellings. |
| `Listing.ArchiveNamesSpec` | extract_fulltext.py:40 | Each name occurs in the filtered list as often as in the listing when it ends in `.json.xz`, and not at all otherwise. |
| `Listing.ArchiveNamesAppend` | extract_fulltext.py:40 | The `.json.xz` filter keeps listing order: filtering a concatenation is the concatenation of the filtered parts. |
| `Listing.SortByKeySpec` | extract_fulltext.py:41 | The sort returns a permutation of its input, ordered non-decreasingly by the first number in each name. |
| `Listing.SortIsStable` | extract_fulltext.py:41 | The sort is stable: names with equal keys keep their listing order. |
| `Listing.FirstUnnumbered` | extract_fulltext.py:41 | Finds a name without digits exactly when one exists; it belongs to the list. |
| `Listing.OrderFilesSpec` | extract_fulltext.py:40-41 | The file order fails exactly when an archive name has no digits, and names that name. Otherwise it is a permutation of the `.json.xz` entries, sorted by key. |
| `Listing.OrderFilesMembers` | extract_fulltext.py:40-41 | A name is processed exactly when it is in the listing and ends in `.json.xz`. |
| `Tables.ToTable` | extract_fulltext.py:29-30 | The table built from the data has one column per `DESIRED_KEYS` entry, in order, each `len(data)` long. |
| `Tables.ReadBack` | extract_fulltext.py:29-30 | Reading the rows of that table back gives the projected records again, in order. |
| `Tables.Append` | extract_fulltext.py:85 | Appending two tables with the same columns keeps those columns, and the row count is the sum. |
| `Tables.AppendRecords` | extract_fulltext.py:85 | The rows of an appended table are those of the first table, then those of the second. |
| `Tables.ConcatTables` | extract_fulltext.py:85 | `pa.concat_tables` has the columns of the first table, and its row count is the sum of all row counts. |
| `Tables.ConcatRecords` | extract_fulltext.py:85 | Concatenation keeps every row of every table, table after table, each in its own order. |
| `Checkpointing.SaveSpec` | extract_fulltext.py:27-31 | `save_to_parquet` writes nothing exactly when the data is empty. Otherwise it writes one file to the given target, with the seven columns each `len(data)` long, holding the data. |
| `Checkpointing.FileNamesDistinct` | extract_fulltext.py:60 | Distinct targets have distinct file names, so no checkpoint of a run overwrites another. |
| `Checkpointing.FileNameIsTable` | extract_fulltext.py:60 | Every checkpoint file name ends in `.parquet`, so the combiner picks it up. |
| `Checkpointing.ReadWritesRows` | extract_fulltext.py:29-31 | Reading back files of projected records gives exactly the rows written, file after file. |
| `Checkpointing.Runs` | extract_fulltext.py:58 | After `k` archives, `k / 30` runs of 30 are complete. |
| `Checkpointing.CadenceMod` | extract_fulltext.py:58 | The archive count reaches a multiple of 30 exactly when it completes the current run of 30. |
| `Checkpointing.CheckpointsSpec` | extract_fulltext.py:57-62 | The first `n` runs write at most `n` numbered checkpoints. Their numbers are between 1 and `n` and strictly increase, and none of them is empty (`if data:`). |
| `Checkpointing.CheckpointsAppend` | extract_fulltext.py:57-62 | Archives processed after the first `n` runs do not change those runs' checkpoints. |
| `Checkpointing.CheckpointsRows` | extract_fulltext.py:53-62 | The first `n` checkpoints hold exactly the records of the first `30 n` archives, in processing order. |
| `Checkpointing.CheckpointsSplit` | extract_fulltext.py:57-62 | The checkpoints of `n` runs are those of the first `m` runs followed by later ones, all numbered above `m`. |
| `Checkpointing.Conservation` | extract_fulltext.py:53-71 | No record is lost or duplicated: the numbered checkpoints, then the final one, hold the records of all processed archives in order. |
| `Checkpointing.ReadBackRun` | extract_fulltext.py:53-71 | Reading back every checkpoint file of a run, in the order written, gives the records of all processed archives. |
| `Checkpointing.FilesSave` | extract_fulltext.py:27-31 | Saving empty data leaves every file as it was. Otherwise the target's file holds the data. |
| `Checkpointing.FilesUntouched` | extract_fulltext.py:60-61 | Writes to other targets leave a target's file as it was. |
| `Checkpointing.CheckpointsLeave` | extract_fulltext.py:57-62 | The first `n` runs write no checkpoint numbered above `n`, and not the final checkpoint. |
| `Checkpointing.CheckpointHoldsChunk` | extract_fulltext.py:57-62 | Checkpoint `c + 1` holds exactly the records of the archives `30 c` to `30 c + 29` when they have any, and is absent otherwise. The counter counts archives, not written files. |
| `Checkpointing.FinalCheckpointHoldsLeftover` | extract_fulltext.py:68-71 | The final checkpoint holds exactly the records after the last full run of 30, and is written only when there are any. |
| `Checkpointing.ApplyFiles` | extract_fulltext.py:31 | In the checkpoint directory, a target's file holds the table of the rows last written to it. When none were, it holds what the directory held before. |
| `Checkpointing.RunWrites` | extract_fulltext.py:57-71 | A run writes each checkpoint file at most once, and never an empty one. |
| `Checkpointing.ApplyWritten` | extract_fulltext.py:31 | After writes to distinct files, each written file name holds the table of its write. |
| `Checkpointing.ApplyNames` | extract_fulltext.py:31 | The writes add no file name to the checkpoint directory except their own. |
| `Checkpointing.AllCheckpointsWritten` | extract_fulltext.py:57-62 | When every archive yields records, each of the first `n` runs writes its checkpoint. |
| `Checkpointing.EveryArchiveNonEmpty` | extract_fulltext.py:57-71 | When every archive yields records, `count / 30` numbered checkpoints are written. The final checkpoint is written exactly when the count is not a multiple of 30. |
| `Checkpointing.BatchedCounters` | extract_fulltext.py:55-62 | In the loop, `checkpoint_counter == file_counter / 30`, and `all_data` is empty whenever `file_counter` is a multiple of 30. |
| `Checkpointing.BatchedAppend` | extract_fulltext.py:53-62 | After one more archive, a flush happens exactly when `file_counter % 30 == 0`. It advances the counter and writes the pending records, even when they are empty. Otherwise the records join the pending ones. |
| `Checkpointing.BatchedFinish` | extract_fulltext.py:68-71 | At the end of the loop the writes are the run's numbered checkpoints. Flushing the pending records when there are any adds exactly the final checkpoint. |
| `Pipeline.PresentMembers` | extract_fulltext.py:47-50 | Exactly the listed archives that exist are kept. |
| `Pipeline.SelectedBounds` | extract_fulltext.py:43-50 | In the limited mode at most 3 archives are processed, and a missing archive never is. With `process_all`, exactly the existing archives are processed. |
| `Pipeline.LimitedWrites` | extract_fulltext.py:44-71 | In the limited mode no numbered checkpoint is written. The run writes at most the final checkpoint, and nothing when a fault stops it. |
| `Pipeline.HarvestSpec` | extract_fulltext.py:43-53 | The run gathers the `process_file` results of the selected archives in order, up to the first archive that fails, whose fault it reports. |
| `Pipeline.HarvestDecoded` | extract_fulltext.py:43-53 | When every archive decodes, the run gathers exactly their batches and no fault. |
| `Pipeline.HarvestStopsAtFault` | extract_fulltext.py:53 | A fault ends the run: later archives change nothing. |
| `Pipeline.HarvestKept` | extract_fulltext.py:43-54 | Every record the run gathers is projected onto the seven keys and carries a truthy `fullText`. |
| `Pipeline.FaultEndsRun` | extract_fulltext.py:53 | A fault in the archive just processed ends the run with the batches gathered before it. |
| `Pipeline.LoopStep` | extract_fulltext.py:43-67 | One pass of the loop body: a missing archive is skipped without counting, and a fault ends the run with the checkpoints written so far. Otherwise the archive is counted and flushed by the cadence rule. |
| `Pipeline.LoopDone` | extract_fulltext.py:43-71 | When the loop ends, at the last archive or at the limit, it has processed exactly the selected archives. The final flush completes the writes. |
| `Pipeline.Visit` | extract_fulltext.py:44-67 | The loop body keeps the loop invariant (archives walked, counters, checkpoints written, records pending). On a fault it has written exactly the run's checkpoints up to it. |
| `Pipeline.ProcessArchives` | extract_fulltext.py:33-71 | The loop and final flush write exactly the checkpoints of the selected archives' `process_file` results, up to the first fault, which they report. |
| `Pipeline.ProcessDirectory` | extract_fulltext.py:33-74 | `process_directory` reports a name without digits before writing anything. Otherwise it writes the run's checkpoints and, unless a fault stopped the run, combines the checkpoint directory they leave. When that directory held no `.parquet` file and no fault stopped the run, the output holds exactly the records processed: seven columns, one row per record, each row with a truthy `fullText`, and no output file when there are none. |
| `Combining.ParquetTablesAppend` | extract_fulltext.py:79-82 | The tables are read in walk order: reading distributes over concatenation. |
| `Combining.ParquetTablesSpec` | extract_fulltext.py:79-82 | A table is read exactly when it belongs to a file met whose name ends in `.parquet`. |
| `Combining.DiscoveredEntries` | extract_fulltext.py:78-82 | Across the directories of the walk, the tables read are those of the files met, in walk order. |
| `Combining.CombineCheckpoints` | extract_fulltext.py:76-86 | `combine_checkpoints` reads the `.parquet` files in walk order. It writes nothing for no tables, their concatenation when their columns agree, and reports a fault otherwise. |
| `Combining.CombinedTables` | extract_fulltext.py:78-85 | The rows of the tables read are the rows of the `.parquet` files met. |
| `Combining.CombinedSameTables` | extract_fulltext.py:78-85 | The rows combined do not depend on the walk order: two walks meeting the same `.parquet` files give the same rows. |
| `Combining.WrittenFiles` | extract_fulltext.py:57-71 | Writes to distinct targets leave distinct `.parquet` files, each with the seven columns. |
| `Combining.WalkMeetsWrites` | extract_fulltext.py:74-82 | In a checkpoint directory that held no `.parquet` file, the walk meets as `.parquet` files exactly the files the run wrote. |
| `Combining.WrittenDiscovered` | extract_fulltext.py:76-84 | The tables read then all have the seven columns, and there are some exactly when the run wrote something. |
| `Combining.WrittenRows` | extract_fulltext.py:76-85 | Those tables hold together exactly the rows written, whatever the walk order. |
| `Combining.CombineWrites` | extract_fulltext.py:76-86 | Combining writes that way delivers exactly the rows written, without a fault. |
| `Combining.CombineRun` | extract_fulltext.py:33-86 | After a complete run in a checkpoint directory without `.parquet` files, the output has the seven columns and holds exactly the records processed, each projected and with a truthy `fullText`. There is no output when there are no records. |

## Left out

- LZMA decompression, line iteration and `json.loads` (lines 11-14) are foreign calls. An archive is the sequence of its lines after `json.loads`: a decoded value, or `Malformed` for a line that raised `JSONDecodeError`. A corrupt xz stream (`LZMAError`) is not modelled.
- Floats are JSON values with a `real` field. NaN, infinities and float formatting are not modelled.
- pyarrow and Parquet (lines 29-31, 82-86): a table is its column names, columns and row count. Arrow type inference, type promotion, metadata and the on-disk encoding are not modelled. `pa.concat_tables` fails when the column lists differ; a type mismatch between columns is not modelled.
- `Checkpointing.Save` never fails. In the script, `pa.array` and `pa.table` in `save_to_parquet` (lines 29-30) raise on a column whose values mix JSON types, for example `year` an integer in one record and a string in another. Arrow type inference is not modelled, so the fault-free results of `Combining.CombineRun`, `Combining.CombineWrites` and `Pipeline.ProcessDirectory` rest on `Save` never failing. They rest as well on `pa.concat_tables` (line 85) never meeting a column whose Arrow type differs between checkpoints: a checkpoint whose `relations` are all empty lists (`list<null>`) next to one holding strings (`list<string>`) makes it raise, while the model's `SameSchema` compares column names only.
- `Decimal.FirstNumber`: `\d` is ASCII digits only. Python's `re` also matches other Unicode decimal digits, and `int()` accepts them.
- `os.listdir`, `os.path.exists` and `os.walk` (lines 40, 48, 78) are file-system reads. The listing, the set of existing archives and the walk order are inputs: `os.walk` is a function of the checkpoint directory's contents that meets each of its files once.
- The file system itself: every write is an entry of a returned log. `Apply` turns the log into the checkpoint directory; the output file is the returned table. `os.path.join`, the `/ammar_storage` paths and `os.makedirs` are not modelled.
- `Combining.CombineRun` and `Pipeline.ProcessDirectory` state the output's contents only for a checkpoint directory that held no `.parquet` file. The script also combines any older `.parquet` file it finds there. For such a directory the model promises only what `Combining.CombineCheckpoints` states.
- The interactive prompts and the output-name check (lines 89-104) are the script's user interface, outside `process_directory`.
- `print` messages are logging only.
- Concurrency: nothing else changes the directories during a run.

