# GitHub advisory database to CSV, modelled in Dafny

`get_advisories.py` collects the JSON advisories of the GitHub Advisory
Database and partitions them into one CSV file per severity. It also marks
each advisory with a `KEV` flag, which says whether its first alias appears
in CISA's Known Exploited Vulnerabilities feed. At the end it zips every
CSV file and deletes the original.

This project models the deterministic part of that script:

- **json.dfy** (`Json`): parsed JSON values, and the Python operations the
  script applies to them: truthiness, `d[k]`, `d[k] = v` with insertion
  order kept, and `for x in v`. It also defines the exceptions those
  operations raise.
- **advisory.dfy** (`Advisory`): the record transformer of `add_to_csv`,
  lines 75-83. It adds `withdrawn`, computes `KEV`, and derives the severity
  bucket and the target file. The lemmas state the outcome for every
  input, error cases included.
- **kev.dfy** (`Kev`): `get_cve_list`, the `cveID` of every feed entry, in
  feed order.
- **partition.dfy** (`Partition`): the CSV folder as a `Disk` class. Its
  `csv` and `zips` fields map paths to files. `Append` is lines 87-90 and
  `ClearCsvFolder` is `clear_csv_folder`. The lemmas cover sequences of
  appends: headers, row counts, and which files exist.
- **archiver.dfy** (`Archiver`): `zip_and_delete_csv`. It covers the glob,
  the archive name (the path before the first `.`, plus `.zip`), the
  archive member name, and the deletion of each CSV file.
- **pipeline.dfy** (`Pipeline`): the main block.
  - `SelectMode` chooses the run mode from the flags.
  - `Ingest` is the `try` body: from the mode check through the appends.
  - `Run` is `Ingest` followed by the `finally` clause, which zips the CSV
    folder in use when the run exits.

Everything outside the script is a parameter:

- `acquired` says whether the git clone or pull that the mode asks for went
  ahead. This covers the repository check and the confirmation prompt.
- `rglob` is the directory scan.
- `load` is `json.load` of one file. It gives None when parsing raises.
- `feed` is the parsed HTTP response, or the error the fetch raised.
- `normalize` is `pandas.json_normalize`. Nothing is assumed about it: its
  output is treated as an opaque, ordered column-value row.

Behaviour of the script that is easy to misread, as the model states it:

- A missing `severity` key raises `KeyError`, and that advisory is not
  written. Only a null, empty or otherwise falsy severity goes to
  `undefined`.
- Per-record exceptions are never surfaced. `imap_unordered`'s result
  iterator is never read, so a failing advisory is silently skipped.
- An advisory with a falsy `aliases` gets `cve = None`. Its KEV flag is
  therefore 1 exactly when the feed holds a null `cveID`, not always 0
  (`Advisory.KevIffFirstAliasListed`).
- The archive is named after the CSV path up to its first dot, not after
  the bucket. Two buckets that agree up to a dot therefore share one
  archive, and the later one replaces the earlier
  (`Archiver.DottedBucketsShareArchive`).
- A refused or stopped run still runs the `finally` clause. That clause
  zips whatever CSV files an earlier run left in `csv/` (or in `csv_test/`, for a test run that found no advisories).

## Model

| member | source | states |
|---|---|---|
| Json.GetKey | get_advisories.py:80-82 | `d[k]` succeeds exactly when `d` is a dict holding `k`; otherwise it raises `KeyError(k)` on a dict and `TypeError` on anything else |
| Json.Iterate | get_advisories.py:61 | `for x in v` visits a list's items, a dict's keys (as strings, in order) or a string's one-character strings, one per element; any other value raises `TypeError` |
| Json.LookupFound | get_advisories.py:77 | `"withdrawn" in data` agrees with the key list |
| Json.SetKeyLookup | get_advisories.py:77 | after `d[k] = v`, `k` holds `v` and every other key keeps its value |
| Json.SetKeyKeys | get_advisories.py:81 | `d[k] = v` keeps the key order and appends `k` only when it is new |
| Advisory.LowerCase | get_advisories.py:83 | the lower-cased string has no upper-case letter, turns each upper-case letter into its lower-case partner, keeps every other character, and lower-casing it again changes nothing |
| Advisory.GetKeyPastSets | get_advisories.py:77-82 | the keys read at lines 80 and 82 are untouched by the assignments at lines 77 and 81 |
| Advisory.TransformAliasOutcome | get_advisories.py:77-80 | a non-dict raises `TypeError` at line 77; line 80 reads the same `aliases` as the original advisory |
| Advisory.TransformBucketOutcome | get_advisories.py:81-82 | line 82 reads the same severity as the original advisory |
| Advisory.TransformOutcome | get_advisories.py:75-83 | the exact exception of the first failing line for every input: non-dict, missing `aliases`, a truthy `aliases` without item 0, and each `database_specific`/`severity` failure; otherwise success with the bucket of the original severity |
| Advisory.MissingKeysFail | get_advisories.py:80-82 | a missing `aliases`, `database_specific` or `severity` always fails |
| Advisory.TransformKeys | get_advisories.py:77-81 | `withdrawn` holds the original value or null; `KEV` is 0 or 1; every other key keeps its value; the key list is the original one, then `withdrawn` if it was missing, then `KEV` if it was missing |
| Advisory.KevIffFirstAliasListed | get_advisories.py:80-81 | KEV is 1 exactly when the truthy `aliases` has a first item in the list, or when `aliases` is falsy and the list holds null; for a list of aliases, exactly when item 0 is listed |
| Advisory.NoAliasesNotFlagged | get_advisories.py:80-81 | an empty `aliases` list gets KEV 0 when the list holds no null |
| Advisory.BucketAndFile | get_advisories.py:82-83 | the bucket is the lower-cased severity when it is truthy and `undefined` otherwise; the file is `folder/bucket.csv`; the bucket is non-empty and holds no upper-case letter |
| Kev.GetCveList | get_advisories.py:56-64 | succeeds exactly when every entry has a `cveID`, and then returns one ID per entry, in order; otherwise the error of the first failing entry, or of the `vulnerabilities` lookup |
| Partition.Disk.Append | get_advisories.py:87-90 | the store becomes the pure `Appended` of the old store; archives are unchanged |
| Partition.Disk.ClearCsvFolder | get_advisories.py:46-52 | every file and archive under the folder is removed; nothing else is |
| Partition.AppendedFile | get_advisories.py:87-90 | a first append creates header plus one row; a later one adds one row at the end and keeps the header; other files are untouched |
| Partition.AppendedTotal | get_advisories.py:87-90 | each append adds exactly one row in total |
| Partition.AppendAllTotal | get_advisories.py:87-90 | after any sequence of appends the total row count grows by the number of appends |
| Partition.AppendAllFiles | get_advisories.py:87-90 | from an empty folder, a file exists exactly when some row targeted it; its one header is the columns of the first such row, and its rows are the values of all such rows, in order |
| Partition.AppendAllKeys | get_advisories.py:87-90 | a file exists after the appends exactly when it existed before or was targeted |
| Partition.AppendedInside | get_advisories.py:83-90 | one append into the folder changes only the folder |
| Partition.AppendAllInside | get_advisories.py:83-90 | appends into the folder act on the folder alone and leave everything outside unchanged |
| Partition.ClearedFolder | get_advisories.py:46-52 | a cleared folder is empty; clearing again changes nothing |
| Partition.AppendAllAfterClear | get_advisories.py:195-218 | after clear and appends, the folder holds exactly the created files with one row per append, and the outside is unchanged |
| Archiver.GlobCsv | get_advisories.py:95 | lists each `*.csv` file directly in the folder exactly once, and nothing else |
| Archiver.ZipAndDelete | get_advisories.py:94-100 | exactly the globbed files are deleted; the archives are the result of zipping them in listing order |
| Archiver.ZippedNames | get_advisories.py:96-99 | an archive exists exactly when it existed before or some zipped file maps to its name; other archives are untouched |
| Archiver.ZippedLastWins | get_advisories.py:96-99 | an archive holds the last zipped file mapping to its name, under that file's base name |
| Archiver.ZippedHoldsListed | get_advisories.py:96-99 | an archive that some zipped file maps to holds one of those files, under its base name |
| Archiver.ZippedEach | get_advisories.py:96-99 | without a name clash, every zipped file has its own archive |
| Archiver.BeforeFirstDotAppend | get_advisories.py:97 | `split(".")[0]` passes through a dot-free prefix |
| Archiver.BasenameAfterSlash | get_advisories.py:99 | `basename(dir + "/" + name)` is `name` when `name` has no slash |
| Archiver.CsvPathGlobbed | get_advisories.py:83-95 | every partition path with a slash-free bucket is found by the glob |
| Archiver.CsvPathArchiveName | get_advisories.py:83-97 | the archive of `folder/bucket.csv` is `folder/` plus the bucket file name before its first dot, plus `.zip` |
| Archiver.PartitionArchive | get_advisories.py:83-99 | a partition file is globbed and archived as `folder/bucket.zip` when the bucket has no dot; its member is `bucket.csv` |
| Archiver.ArchiveNameUnder | get_advisories.py:97 | when the folder name has no dot, the archive of a file under the folder is under the folder too |
| Archiver.UndottedBucketsDistinct | get_advisories.py:97-99 | two different dot-free buckets get two different archives |
| Archiver.DottedBucketsShareArchive | get_advisories.py:97-99 | buckets that agree up to their first dot share one archive name |
| Pipeline.SelectMode | get_advisories.py:141-187 | two or more flags are refused; download clones, update pulls; test reads `sample_advisories/` into `csv_test`, otherwise the project's `advisories/` go into `csv` |
| Pipeline.CsvFolderAtExit | get_advisories.py:182-185 | the folder at exit is `csv_test` exactly in an accepted test run; it is the selected mode's folder whenever a mode is selected, and `csv` when the flags are refused |
| Pipeline.StripLeadingSlashes | get_advisories.py:83-90 | the result is a suffix of the bucket that does not start with `/`, and everything dropped is `/`: the file name the OS resolves for `csv//bucket.csv` |
| Pipeline.PrepareOutcome | get_advisories.py:75-90 | a parse failure is `DecodeError`; a transform error propagates; a bucket holding NUL raises `ValueError`; otherwise an advisory is written exactly when its bucket, leading slashes removed, holds no `/` (an over-long file name is not told apart, see Pipeline.Prepare under Left out); it then goes to `folder/bucket.csv` with those slashes collapsed (the computed `csv_file` itself when there were none), as the flattened record, and that file is a `*.csv` directly in the folder |
| Pipeline.PrepareInFolder | get_advisories.py:83-90 | every file an advisory is written to is a `*.csv` file directly in the CSV folder |
| Pipeline.MissingKeysNotWritten | get_advisories.py:80-90 | an advisory missing one of the three keys is never written |
| Pipeline.AddToCsv | get_advisories.py:75-90 | the store changes by exactly one append when the advisory is written, and not at all when it fails |
| Pipeline.SuccessesInFolder | get_advisories.py:83-90 | every written file is a `*.csv` file directly in the CSV folder, and there is at most one append per advisory |
| Pipeline.AppendCorpus | get_advisories.py:215-218 | the store is the old one with the successful advisories appended, in order; archives are unchanged |
| Pipeline.Ingest | get_advisories.py:140-218 | a refused mode, a stopped acquisition or an empty corpus leave the disk unchanged and do not depend on the feed; otherwise the folder is cleared first; an unreadable feed ends the run there; otherwise the folder holds exactly the created files, one row per written advisory, indexed by the feed's IDs |
| Pipeline.ZipEmptiesFolder | get_advisories.py:95-100 | zipping a folder holding only `*.csv` files empties it and touches nothing outside |
| Pipeline.ZipArchivesEach | get_advisories.py:96-99 | every partition gets an archive, each holding its own file when no names clash |
| Pipeline.ZipArchiveNames | get_advisories.py:95-99 | when the folder started with no archives, the folder's archives after zipping are exactly the archive names of its partitions |
| Pipeline.ZipArchiveContents | get_advisories.py:96-99 | from a folder with no archives, each archive in the folder holds, under its base name, a partition whose archive name it is |
| Pipeline.ZipOutsideUntouched | get_advisories.py:95-100 | zipping the folder leaves every archive outside it unchanged |
| Pipeline.ZipNothing | get_advisories.py:95-100 | a folder holding no file lists nothing, and zipping it changes neither the files nor the archives |
| Pipeline.ZipAfterIngest | get_advisories.py:223-224 | after a completed run the folder holds no CSV, the files and archives outside it are those before the run, every partition has its archive, and the folder's archives are exactly the partitions' archive names, each holding one of its partitions |
| Pipeline.ZipAfterFeedFailed | get_advisories.py:195-224 | after a feed failure the cleared folder is zipped with nothing archived, so the disk is the old one with the folder cleared |
| Pipeline.Run | get_advisories.py:140-224 | no CSV file is left in the folder in use at exit; an early stop still zips the CSV files already there; a feed failure leaves the old disk with the folder cleared and archives nothing; a completed run leaves the outside of the folder (files and archives) as before the run, and in the folder no CSV file and exactly one archive per partition archive name, each holding one of the partitions of that name, and its own partition when no names clash |

## Left out

- Git clone and pull, `advisories_exist` and the confirmation prompt (lines 25-26, 147-180) are external. They are reduced to the boolean `acquired`.
- The HTTP fetch of the feed (line 56) is network I/O. The parsed response, or its error, is an input.
- `Path.rglob`, `shutil.rmtree` and `mkdir` (lines 40-52) are filesystem I/O. The scan is the function `rglob`, and the clear is the map update of `ClearCsvFolder`.
- `json.load` is the function `load`. A parse failure is None, which becomes `DecodeError`.
- `pandas.json_normalize` and the `to_csv` format (lines 85-90) are library code. The flattening is the opaque function `normalize`. A file is its header and rows of values, with no quoting or layout.
- ZIP compression (line 99) is left out. An archive is its member name and the CSV content.
- The thread pool, `task_lock`, `thread_task_map`, KeyboardInterrupt and `terminate` (lines 67-73, 138, 215-222) are left out; the model is sequential. Advisories are processed in corpus order, so the row order inside a file is one of the orders the pool can produce.
- The race between `Path(csv_file).exists()` and the write is not modelled. Under two workers it could write a second header or lose rows.
- Progress bars, colours, logging and timing are left out. They do not change the data.
- Pipeline.Prepare: leading slashes of a bucket collapse into the folder's separator, and any other `/` is a failed write. The model does not resolve `.` or `..` components (`./high`, `../csv/high`), which the OS could map to an existing directory and so to a successful write. Nor does it model the file system's limit on the length of a name (255 bytes per path component on Linux): a bucket of 252 or more bytes makes `exists()` at line 87 or `to_csv` at line 90 raise `OSError`, so the script skips that advisory, while the model writes it.
- Advisory.Lower: it lower-cases ASCII letters only, not the full Unicode mapping of `str.lower()`.
- Partition.Disk: the keys of the maps are taken as normalised paths. A key such as `csv//old.csv` or `csv/./old.csv` names a file the glob would find as `csv/old.csv`, but `IsCsvIn` does not match it, so `Run`'s promise that no CSV file is left in the folder covers normalised keys only.
- Json: an object is a list of key-value pairs, and duplicate keys are not excluded. A dictionary built by `json.load` has distinct keys; every object the script reads comes from `load`, and `Lookup` and `SetKey` act on the first pair with the key.
- Json: numbers are integers. Floats, and Python's `True == 1` in the `in` test, are not modelled. The test `cve in cve_list` is structural equality on JSON values, which compares objects pair by pair in order; Python's `==` on dicts ignores key order, so a dict alias that matches a listed dict up to key order is flagged by the script but not by the model.
- Pipeline.SelectMode: it names the acquisition. Whether that acquisition went ahead is the input `acquired`.
