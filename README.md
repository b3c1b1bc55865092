# uzip, modelled in Dafny

`uzip.py` is a command-line archive extractor. `unzip_file` looks at the
archive path's extension, case-sensitively, and calls one of four
extractors: ZIP, RAR, 7z, or TAR (`.tar`, `.tar.gz`, `.tgz`, `.tar.bz2`).
For any other extension it prints "Unsupported file format.".

The ZIP, RAR and TAR extractors size a progress bar by summing declared
member sizes. TAR counts regular files only; ZIP and RAR count every listed
name. Each member is then copied through the loop
`while chunk := src.read(CHUNK_SIZE)`: the chunk is written to a file opened
with `"wb"`, and the bar advances by the chunk's length. `CHUNK_SIZE` is
1 MiB.

The 7z extractor extracts the whole archive at once. Its bar's total is the
size of the archive file itself. Afterwards, one corrective update sets the
counter to the size measured on disk.

`main` reports a missing archive and stops. Otherwise it extracts, then
reports completion.

The project has seven modules:

- `Archive` (archive.dfy): bytes, archive entries, and the sums over them.
- `Formats` (formats.dfy): the suffix classifier, proved equal to an
  independent "has this suffix" definition.
- `Streams` (streams.dfy): a read cursor (`Stream`), and `Chunks`, the
  chunk sequence that repeated reads deliver.
- `Progress` (progress.dfy): the bar (`ProgressBar`), with a ghost history
  of its counter, and `CounterTrace`, which specifies that history.
- `Disk` (disk.dfy): the destination as a map from path to bytes
  (`FileSystem`), and `Written`, what writing a run of members leaves there.
- `Extract` (extract.dfy): the copy loop, the four extractors and their
  progress totals.
- `Uzip` (uzip.dfy): `unzip_file` and `main`.

The extractors are methods over these classes. Each is proved against the
specification functions, and the functions' properties are proved as
lemmas.

## Model

| member | source | states |
|---|---|---|
| Formats.ClassifyCorrect | uzip.py:72-82 | The format is ZIP, RAR, 7z or TAR exactly when the path has that extension and no earlier branch's extension. It is Unsupported exactly when the path has none of them. Each direction is proved against a separate "exists a prefix" definition of having a suffix. |
| Formats.Classify | uzip.py:73-82 | No contract of its own: the first-match `endswith` chain, ZIP, then RAR, then 7z, then the tar tuple, else Unsupported. `ClassifyCorrect` states what it means. |
| Formats.EndsWith | uzip.py:73 | No contract of its own: Python's `str.endswith` for one suffix, as a slice comparison. `EndsWithIsHasSuffix` relates it to the prefix definition. |
| Formats.EndsWithAny | uzip.py:79 | No contract of its own: `endswith` on a tuple, true when any of its suffixes ends the path. |
| Uzip.Calls | uzip.py:72-82 | No contract of its own: the extractors `unzip_file` calls for a format, one for a supported format and none otherwise. |
| Uzip.Selected | uzip.py:72-80 | No contract of its own: the members the chosen extractor writes. That is every entry for ZIP and RAR, the regular files for TAR and 7z, and none for an unsupported path. |
| Uzip.Extraction | uzip.py:72-80 | No contract of its own: the destination files after the chosen extractor has written its members. |
| Archive.FileEntries | uzip.py:17-18 | No contract of its own: the members with `isfile()`, in archive order. `FileEntriesMembers` states what it keeps. |
| Archive.SizeSum | uzip.py:15 | No contract of its own: the sum of the declared sizes. |
| Archive.ContentSum | uzip.py:23-25 | No contract of its own: the sum of the members' actual content lengths, which is what the counter accumulates. |
| Archive.Names | uzip.py:60 | `getnames()`: one name per member, the i-th being the i-th member's name. |
| Extract.TarTotal | uzip.py:15 | No contract of its own: the TAR bar's total, the declared sizes of the `isfile()` members. |
| Extract.NamedTotal | uzip.py:30 | No contract of its own: the ZIP bar's total, the declared sizes of every listed name. The RAR bar uses the same sum (uzip.py:45). |
| Extract.SizeOnDisk | uzip.py:69 | No contract of its own: the size on disk of one listed name, its file's length if a file exists at the joined path and nothing otherwise. |
| Extract.ExtractedSize | uzip.py:69 | No contract of its own: `extracted_size`, the sum of `SizeOnDisk` over the listed names. `ExtractedSizeUpdate` and `SevenZCounterIsContent` state what it comes to. |
| Disk.Join | uzip.py:19 | No contract of its own: `os.path.join` for a relative name, one `/` between the parts unless the directory is empty or already ends in `/`. `JoinInjective` states its use. |
| Disk.Written | uzip.py:17-25 | No contract of its own: the files after each member, in order, has been written whole at its joined path. A later member replaces an earlier one at the same path. Its properties are `WrittenIsOverlay`, `WrittenKeys`, `WrittenContent` and `WrittenIdempotent`. |
| Streams.FirstRead | uzip.py:23 | No contract of its own: the result of one `read(k)`, the first `min(k, remaining)` bytes. |
| Streams.Chunks | uzip.py:23 | No contract of its own: the chunks that `read(k)` delivers until the first empty read. `ChunksFlatten`, `ChunksSizes` and `ChunksUnique` state what it is. `CopyStream` uses it with `k` = `Extract.CHUNK_SIZE`, the constant `1024 * 1024` of uzip.py:10. |
| Progress.CounterTrace | uzip.py:23-25 | The counter after each `update(len(chunk))` from a starting value, one value per chunk. `CounterTraceStep` and `CounterTraceMonotone` state what it is. |
| Formats.ZipExclusive | uzip.py:73-80 | A path ending in `.zip` ends in no other recognised extension. |
| Formats.RarExclusive | uzip.py:75-80 | A path ending in `.rar` ends in neither `.7z` nor any tar extension. |
| Formats.SevenZExclusive | uzip.py:77-80 | A path ending in `.7z` ends in no tar extension. |
| Formats.NotTar | uzip.py:79 | A path whose last character is not `r`, `z` or `2` matches none of the four tar extensions. |
| Formats.EndsWithIsHasSuffix | uzip.py:73 | The slice-based `endswith` check holds exactly when some prefix followed by the suffix gives the path. |
| Uzip.UnzipFile | uzip.py:72-82 | At most one extractor is called, and it is the one `Classify` selects. The message is printed only when the format is unsupported. The destination ends up as that format's extraction. |
| Uzip.DispatchCallsOne | uzip.py:72-82 | At most one extractor runs. None runs exactly when the path has none of the extensions. A path with `.zip`, `.rar`, `.7z` or a tar extension runs ZIP, RAR, 7z or TAR respectively. |
| Uzip.Run | uzip.py:95-100 | A missing archive prints "Error: File not found", leaves the files unchanged and calls no extractor. Otherwise it calls exactly what `unzip_file` would, extracts, and prints "Extraction complete: " followed by the destination, also when the format was unsupported. |
| Uzip.ExtractionIdempotent | uzip.py:72-80 | Extracting the same archive twice into the same destination leaves the same files as extracting it once. |
| Uzip.ExtractionContents | uzip.py:72-80 | With distinct member names, every member the selected extractor handles holds exactly its bytes at its joined path. Every other existing path keeps its bytes. |
| Formats.NotClassified | uzip.py:73-82 | A path whose last character is the last character of no extension is Unsupported. |
| Formats.ClassifyUnsupportedExamples | uzip.py:79-82 | `.txt`, upper-case `.ZIP` and `.zip.bak` are all Unsupported, whatever comes before them. |
| Uzip.SampleZipExtraction | uzip.py:27-39 | `sample.zip` holding `a.txt` ("hello") and an empty `b/c.txt`, extracted into `out/`, leaves exactly `out/a.txt` and `out/b/c.txt` with those contents. |
| Streams.Stream.constructor | uzip.py:22 | Opening a member's stream: it holds exactly the member's bytes, and nothing has been read yet. This stands for `tar.extractfile(member)` here, `zip_ref.open(name)` at uzip.py:36 and `archive.open(name)` at uzip.py:51. |
| Streams.Stream.Read | uzip.py:23 | A read returns the next `min(size, remaining)` bytes, advances the cursor past them, and leaves the rest of the stream to be read. |
| Streams.ChunksFlatten | uzip.py:23-24 | Joined in order, the chunks of successive reads are the whole stream. |
| Streams.ChunksSizes | uzip.py:23 | No chunk is empty or longer than `CHUNK_SIZE`, and every chunk except the last is exactly `CHUNK_SIZE`. |
| Streams.ChunksUnique | uzip.py:23 | Any split of the stream into non-empty pieces of at most `k` bytes, all but the last exactly `k`, is the chunking. |
| Streams.FlattenConcat | uzip.py:24 | Joining two runs of chunks is joining each run and concatenating the results. |
| Progress.ProgressBar.constructor | uzip.py:16 | A new bar has the given total and a counter of 0. |
| Progress.ProgressBar.Update | uzip.py:25 | `update(delta)` adds `delta` to the counter and changes nothing else. |
| Progress.CounterTraceStep | uzip.py:23-25 | Each update raises the counter by exactly the length of its chunk. |
| Progress.CounterTraceMonotone | uzip.py:23-25 | The counter never drops below its starting value, never decreases, and ends at its start plus every byte delivered. |
| Progress.CounterTraceAt | uzip.py:23-25 | After the i-th update, the counter equals its start plus the bytes of the first i+1 chunks. |
| Progress.CounterTraceConcat | uzip.py:17-25 | The counter history over two runs of chunks is the first run's history, then the second's, started where the first ended. |
| Disk.FileSystem.OpenWrite | uzip.py:22 | Opening with `"wb"` creates the file empty, or truncates it, and changes no other path. |
| Disk.FileSystem.Append | uzip.py:24 | A write appends the chunk to the open file and changes no other path. |
| Disk.JoinInjective | uzip.py:19 | Distinct member names joined to one destination give distinct paths. |
| Disk.WrittenIsOverlay | uzip.py:17-25 | Writing members lays their files over the old ones. A path no member writes keeps its bytes. |
| Disk.WrittenIdempotent | uzip.py:22 | Because `"wb"` truncates, writing the same members a second time changes nothing. |
| Disk.WrittenKeys | uzip.py:17-25 | The paths present afterwards are the old paths plus the members' joined paths, and no others. |
| Disk.WrittenContent | uzip.py:17-25 | A member that no later member shadows leaves exactly its own bytes at its path. |
| Disk.WrittenAllContent | uzip.py:17-25 | With distinct names, every member's bytes are found at its joined path. |
| Archive.FileEntriesMembers | uzip.py:17-18 | The TAR selection keeps exactly the members that are regular files. |
| Archive.FileEntriesDistinct | uzip.py:17-18 | Keeping only regular files keeps the names distinct. |
| Archive.SizeSumIsContentSum | uzip.py:15 | When every header's size is its content length, the declared total is the total content. |
| Extract.CopyStream | uzip.py:23-25 | The loop ends with the stream exhausted. The file holds its old bytes followed by the whole stream, in order. The chunks written are the stream's `Chunks`. The counter rises by the stream's length, one chunk length per update. |
| Extract.CopyEntry | uzip.py:19-25 | One member: its joined path holds exactly its bytes, no other path changes, and the counter rises by its length, chunk by chunk. |
| Extract.StreamChunksLength | uzip.py:17-25 | The chunks of all copied members hold, together, every byte of their content. |
| Extract.CopiedStep | uzip.py:17-25 | Copying one more member extends the counter and its history. It starts where the previous members left the counter. |
| Extract.ExtractTar | uzip.py:12-25 | The bar's total is the declared size of the regular files. Exactly the regular files are written, in archive order. The counter ends at their total content, and its history is the per-chunk trace over all of them. |
| Extract.ExtractNamed | uzip.py:27-39 | The bar's total is the declared size of every listed name. Every name is written, in order. The counter ends at their total content, and its history is the per-chunk trace. |
| Extract.ExtractZip | uzip.py:27-39 | `extract_zip` has the shared ZIP/RAR behaviour of `ExtractNamed`. |
| Extract.ExtractRar | uzip.py:42-54 | `extract_rar` has the shared ZIP/RAR behaviour of `ExtractNamed`. |
| Extract.TarCounterReachesTotal | uzip.py:15-25 | With truthful headers, the TAR counter ends exactly at the bar's total. |
| Extract.NamedCounterReachesTotal | uzip.py:30-39 | With truthful headers, the ZIP and RAR counters end exactly at the bar's total. |
| Extract.ExtractAll | uzip.py:66 | The bulk extraction writes every regular-file member at its joined path. |
| Extract.ExtractSevenZ | uzip.py:56-70 | The bar's total is the archive file's size. After the bulk extraction, a single update sets the counter to the size on disk of the listed names that exist. That value is unrelated to the total. |
| Extract.ExtractedSizeUpdate | uzip.py:69 | Rewriting a path that no listed name joins to leaves the measured size unchanged. |
| Extract.SevenZFileStep | uzip.py:69 | A regular file whose name no earlier member carries adds exactly its length to the measured size. |
| Extract.SevenZDirStep | uzip.py:69 | A directory member whose path holds no file adds nothing to the measured size. |
| Extract.SevenZCounterIsContent | uzip.py:66-70 | With distinct names, and no file already at a directory member's path, the corrected counter is the total content of the regular files. |

## Left out

- Archive decoding: zipfile, tarfile, rarfile and py7zr are foreign libraries. The entries they enumerate are a parameter, `seq<Entry>`, and so is the archive size that `os.path.getsize` reports for 7z. Corrupt archives and the exceptions the libraries raise are not modelled.
- Progress rendering: tqdm's percentages, rates and redraws are not modelled. Only `total` and the counter `n` are kept, plus a ghost history of `n`.
- Threading: `threaded_extraction` starts a thread and joins it at once, so `Run` calls `UnzipFile` directly. The two differ when the extraction raises: the exception ends only the worker thread, and `main` still prints "Extraction complete". Exceptions are not modelled, so the model does not show this.
- Command line: argparse is not modelled. `Run` receives the two positional arguments.
- Output: printed lines are returned as a sequence of strings.
- Directories: `os.makedirs` is not modelled, and directories are not entries of the file map.
- Uzip.Run: `os.path.exists` is modelled as "the archive path is a file in the map". A directory given as the archive therefore counts as missing.
- Extract.ExtractedSize: `os.path.getsize` of an existing directory member counts 0, because directories are absent from the map.
- Disk.Join: follows POSIX `os.path.join` for relative names only. Absolute member names and `..` components are not modelled. The file map is keyed by path strings, so spellings that reach one file on a real file system are different keys here: `a` and `./a`, `a//b` and `a/b`, or `A.txt` and `a.txt` on a case-insensitive file system. `DistinctNames` in `ExtractionContents` and `WrittenAllContent` is therefore a condition on the name strings, not on the files they resolve to.
- Extract.ExtractNamed: every listed name is copied as a file, even a directory entry such as `b/`, where the real `open(..., "wb")` raises an error. That exception ends `extract_zip` or `extract_rar` at that name, inside the worker thread (uzip.py:84-87). No later name is written and the counter stops there, while `ExtractNamed` goes on to write every later name. For ZIP and RAR the entry sequence stands for `getinfo(namelist()[i])` at each position i. A name listed twice therefore appears twice as the entry that `getinfo` and `open` resolve it to, and the total, counter and history are exact for it.
- Extract.ExtractAll: py7zr's bulk extraction is modelled as writing every regular-file member's bytes at its joined path, in archive order.
- Extract.CopyStream: opening with `"wb"` (`FileSystem.OpenWrite`, called from `CopyEntry`), each write and each counter update are modelled. The file handle object and its close are not, so the bytes are visible in the map as they are appended.
