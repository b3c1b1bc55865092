/** The per-format extractors: the chunked copy loop shared by TAR, ZIP
    and RAR, the totals each one gives its progress bar, and the 7z
    extractor's single corrective update. */
module Extract {
  import opened Archive
  import opened Streams
  import opened Progress
  import opened Disk

  /** Bytes per `read` (1 MiB). */
  const CHUNK_SIZE: nat := 1024 * 1024

  /** The TAR bar's total: declared sizes of the regular-file members only. */
  function TarTotal(members: seq<Entry>): nat
  {
    SizeSum(FileEntries(members))
  }

  /** The ZIP and RAR bars' total: declared sizes of every listed name.
      The same sum as `SizeSum`, named for the role it plays here. */
  function NamedTotal(entries: seq<Entry>): nat
  {
    SizeSum(entries)
  }

  /** All chunks the copy loops deliver for `es`, member after member. */
  function StreamChunks(es: seq<Entry>): seq<seq<byte>>
  {
    if es == [] then []
    else StreamChunks(es[..|es| - 1]) + Chunks(es[|es| - 1].content, CHUNK_SIZE)
  }

  lemma StreamChunksAppend(es: seq<Entry>, e: Entry)
    ensures StreamChunks(es + [e]) == StreamChunks(es) + Chunks(e.content, CHUNK_SIZE)
  {
    assert (es + [e])[..|es|] == es;
  }

  /** The chunks of all members are, joined, all their bytes. */
  lemma {:induction false} StreamChunksLength(es: seq<Entry>)
    ensures |Flatten(StreamChunks(es))| == ContentSum(es)
  {
    if es != [] {
      var init := es[..|es| - 1];
      StreamChunksLength(init);
      ChunksFlatten(es[|es| - 1].content, CHUNK_SIZE);
      FlattenConcat(StreamChunks(init), Chunks(es[|es| - 1].content, CHUNK_SIZE));
    }
  }

  /** What the copy loop knows about its values at the top of each turn:
      `written` has gone out, `rest` is still to be read, `chunk` is the read
      just made, `chunks` are the chunks written and `trace` the counter
      value after each of them. */
  ghost predicate CopyFacts(s: seq<byte>, n0: int, chunks: seq<seq<byte>>, written: seq<byte>,
                            rest: seq<byte>, chunk: seq<byte>, trace: seq<int>)
  {
    && written + rest == s
    && chunk == FirstRead(rest, CHUNK_SIZE)
    && Flatten(chunks) == written
    && Chunks(s, CHUNK_SIZE) == chunks + Chunks(rest, CHUNK_SIZE)
    && trace == CounterTrace(n0, chunks)
  }

  lemma StepSplit(s: seq<byte>, written: seq<byte>, rest: seq<byte>, chunk: seq<byte>)
    requires written + rest == s && chunk == FirstRead(rest, CHUNK_SIZE)
    ensures rest == chunk + rest[|chunk|..]
    ensures (written + chunk) + rest[|chunk|..] == s
  {
  }

  lemma StepChunks(s: seq<byte>, chunks: seq<seq<byte>>, rest: seq<byte>, chunk: seq<byte>)
    requires chunk == FirstRead(rest, CHUNK_SIZE) && chunk != []
    requires Chunks(s, CHUNK_SIZE) == chunks + Chunks(rest, CHUNK_SIZE)
    ensures Chunks(s, CHUNK_SIZE) == (chunks + [chunk]) + Chunks(rest[|chunk|..], CHUNK_SIZE)
  {
    ChunksStep(rest, CHUNK_SIZE);
  }

  lemma StepFlatten(chunks: seq<seq<byte>>, written: seq<byte>, chunk: seq<byte>)
    requires Flatten(chunks) == written
    ensures Flatten(chunks + [chunk]) == written + chunk
  {
    FlattenConcat(chunks, [chunk]);
    assert Flatten([chunk]) == chunk + Flatten([]);
  }

  /** One turn of the copy loop keeps those facts. */
  lemma CopyStep(s: seq<byte>, n0: int, chunks: seq<seq<byte>>, written: seq<byte>,
                 rest: seq<byte>, chunk: seq<byte>, trace: seq<int>)
    requires CopyFacts(s, n0, chunks, written, rest, chunk, trace) && chunk != []
    ensures |rest[|chunk|..]| < |rest|
    ensures CopyFacts(s, n0, chunks + [chunk], written + chunk, rest[|chunk|..],
                      FirstRead(rest[|chunk|..], CHUNK_SIZE), trace + [n0 + |written| + |chunk|])
  {
    StepSplit(s, written, rest, chunk);
    StepChunks(s, chunks, rest, chunk);
    StepFlatten(chunks, written, chunk);
    CounterTraceConcat(n0, chunks, [chunk]);
  }

  /** When the read comes back empty, everything has been written. */
  lemma CopyDone(s: seq<byte>, n0: int, chunks: seq<seq<byte>>, written: seq<byte>,
                 rest: seq<byte>, trace: seq<int>)
    requires CopyFacts(s, n0, chunks, written, rest, [], trace)
    ensures rest == [] && written == s && chunks == Chunks(s, CHUNK_SIZE)
  {
  }

  /** The `while chunk := src.read(CHUNK_SIZE)` loop: write each chunk to
      `dest`, then advance the bar by its length, until the first empty
      read. The ghost result is the sequence of chunks written. */
  method CopyStream(src: Stream, fs: FileSystem, dest: string, pbar: ProgressBar)
    returns (ghost chunks: seq<seq<byte>>)
    requires src.Valid() && dest in fs.files
    modifies src, fs, pbar
    ensures src.Valid() && src.Remaining() == []
    ensures chunks == Chunks(old(src.Remaining()), CHUNK_SIZE)
    ensures fs.files == old(fs.files)[dest := old(fs.files[dest]) + old(src.Remaining())]
    ensures pbar.n == old(pbar.n) + |old(src.Remaining())|
    ensures pbar.history == old(pbar.history) + CounterTrace(old(pbar.n), chunks)
  {
    ghost var s, before, n0, h0 := src.Remaining(), fs.files, pbar.n, pbar.history;
    ghost var f0 := fs.files[dest];
    ghost var written: seq<byte>, rest, trace := [], s, [];
    chunks := [];
    assert before[dest := f0 + written] == before by { assert f0 + written == f0; }
    var chunk := src.Read(CHUNK_SIZE);
    while chunk != []
      invariant CopyFacts(s, n0, chunks, written, rest, chunk, trace)
      invariant src.Valid() && src.Remaining() == rest[|chunk|..]
      invariant fs.files == before[dest := f0 + written]
      invariant pbar.n == n0 + |written| && pbar.history == h0 + trace
      decreases |rest|
    {
      CopyStep(s, n0, chunks, written, rest, chunk, trace);
      assert (f0 + written) + chunk == f0 + (written + chunk);
      fs.Append(dest, chunk);
      pbar.Update(|chunk|);
      chunks, written, rest, trace := chunks + [chunk], written + chunk, rest[|chunk|..], trace + [pbar.n];
      chunk := src.Read(CHUNK_SIZE);
    }
    CopyDone(s, n0, chunks, written, rest, trace);
  }

  /** One member: open its stream and `open(file_dest, "wb")`, then copy. */
  method CopyEntry(fs: FileSystem, pbar: ProgressBar, outputPath: string, e: Entry)
    modifies fs, pbar
    ensures fs.files == old(fs.files)[Join(outputPath, e.name) := e.content]
    ensures pbar.n == old(pbar.n) + |e.content|
    ensures pbar.history == old(pbar.history) + CounterTrace(old(pbar.n), Chunks(e.content, CHUNK_SIZE))
  {
    var fileDest := Join(outputPath, e.name);
    var src := new Stream(e.content);
    fs.OpenWrite(fileDest);
    ghost var _ := CopyStream(src, fs, fileDest, pbar);
    assert [] + e.content == e.content;
  }

  /** Progress after copying `es` on a fresh bar: the counter and its history. */
  ghost predicate CopiedAll(pbar: ProgressBar, es: seq<Entry>)
    reads pbar
  {
    pbar.n == ContentSum(es) && pbar.history == CounterTrace(0, StreamChunks(es))
  }

  /** Copying one more member extends the progress of the ones before it. */
  lemma CopiedStep(es: seq<Entry>, e: Entry)
    ensures ContentSum(es + [e]) == ContentSum(es) + |e.content|
    ensures CounterTrace(0, StreamChunks(es + [e])) ==
      CounterTrace(0, StreamChunks(es)) + CounterTrace(ContentSum(es), Chunks(e.content, CHUNK_SIZE))
  {
    ContentSumAppend(es, e);
    StreamChunksAppend(es, e);
    StreamChunksLength(es);
    CounterTraceConcat(0, StreamChunks(es), Chunks(e.content, CHUNK_SIZE));
  }

  /** `extract_tar`: a bar sized by the regular-file members, then each
      regular-file member copied to its joined path, in archive order. */
  method ExtractTar(fs: FileSystem, members: seq<Entry>, outputPath: string)
    returns (pbar: ProgressBar)
    modifies fs
    ensures fresh(pbar) && pbar.total == TarTotal(members)
    ensures fs.files == Written(old(fs.files), outputPath, FileEntries(members))
    ensures CopiedAll(pbar, FileEntries(members))
  {
    var totalSize := TarTotal(members);
    pbar := new ProgressBar(totalSize);
    for i := 0 to |members|
      invariant fs.files == Written(old(fs.files), outputPath, FileEntries(members[..i]))
      invariant CopiedAll(pbar, FileEntries(members[..i]))
    {
      var member := members[i];
      assert members[..i + 1] == members[..i] + [member];
      FileEntriesAppend(members[..i], member);
      if member.isFile {
        CopiedStep(FileEntries(members[..i]), member);
        WrittenAppend(old(fs.files), outputPath, FileEntries(members[..i]), member);
        CopyEntry(fs, pbar, outputPath, member);
      } else {
        assert FileEntries(members[..i + 1]) == FileEntries(members[..i]);
      }
    }
    assert members[..|members|] == members;
  }

  /** The body shared by `extract_zip` and `extract_rar`: a bar sized by
      every listed name, then every name copied to its joined path.
      `entries[i]` is `getinfo(namelist()[i])`, the entry that both
      `getinfo` and `open` resolve the i-th listed name to; for a name listed
      twice that is its last entry both times. */
  method ExtractNamed(fs: FileSystem, entries: seq<Entry>, outputPath: string)
    returns (pbar: ProgressBar)
    modifies fs
    ensures fresh(pbar) && pbar.total == NamedTotal(entries)
    ensures fs.files == Written(old(fs.files), outputPath, entries)
    ensures CopiedAll(pbar, entries)
  {
    var totalSize := NamedTotal(entries);
    pbar := new ProgressBar(totalSize);
    for i := 0 to |entries|
      invariant fs.files == Written(old(fs.files), outputPath, entries[..i])
      invariant CopiedAll(pbar, entries[..i])
    {
      var entry := entries[i];
      assert entries[..i + 1] == entries[..i] + [entry];
      CopiedStep(entries[..i], entry);
      WrittenAppend(old(fs.files), outputPath, entries[..i], entry);
      CopyEntry(fs, pbar, outputPath, entry);
    }
    assert entries[..|entries|] == entries;
  }

  /** `extract_zip`, with `entries[i]` standing for `getinfo(namelist()[i])`. */
  method ExtractZip(fs: FileSystem, entries: seq<Entry>, outputPath: string)
    returns (pbar: ProgressBar)
    modifies fs
    ensures fresh(pbar) && pbar.total == NamedTotal(entries)
    ensures fs.files == Written(old(fs.files), outputPath, entries)
    ensures CopiedAll(pbar, entries)
  {
    pbar := ExtractNamed(fs, entries, outputPath);
  }

  /** `extract_rar`, with `entries[i]` standing for `getinfo(namelist()[i])`. */
  method ExtractRar(fs: FileSystem, entries: seq<Entry>, outputPath: string)
    returns (pbar: ProgressBar)
    modifies fs
    ensures fresh(pbar) && pbar.total == NamedTotal(entries)
    ensures fs.files == Written(old(fs.files), outputPath, entries)
    ensures CopiedAll(pbar, entries)
  {
    pbar := ExtractNamed(fs, entries, outputPath);
  }

  /** The size found on disk for one listed name: its file's length if a
      file exists at the joined path, nothing otherwise. */
  function SizeOnDisk(files: Files, outputPath: string, name: string): nat
  {
    var p := Join(outputPath, name);
    if p in files then |files[p]| else 0
  }

  /** `extracted_size`: the sizes on disk of every listed name. */
  function ExtractedSize(files: Files, outputPath: string, names: seq<string>): nat
  {
    if names == [] then 0
    else ExtractedSize(files, outputPath, names[..|names| - 1]) + SizeOnDisk(files, outputPath, names[|names| - 1])
  }

  /** The library's whole-archive `extract`: every regular file written. */
  method ExtractAll(fs: FileSystem, entries: seq<Entry>, outputPath: string)
    modifies fs
    ensures fs.files == Written(old(fs.files), outputPath, FileEntries(entries))
  {
    fs.files := Written(fs.files, outputPath, FileEntries(entries));
  }

  /** `extract_7z`: the bar's total is the archive file's own size; after the
      bulk extraction one update brings the counter to the size found on
      disk, whatever the total was. */
  method ExtractSevenZ(fs: FileSystem, entries: seq<Entry>, outputPath: string, archiveSize: nat)
    returns (pbar: ProgressBar)
    modifies fs
    ensures fresh(pbar) && pbar.total == archiveSize
    ensures fs.files == Written(old(fs.files), outputPath, FileEntries(entries))
    ensures pbar.n == ExtractedSize(fs.files, outputPath, Names(entries))
    ensures pbar.history == [pbar.n]
  {
    var fileList := Names(entries);
    var totalSize := archiveSize;
    pbar := new ProgressBar(totalSize);
    ExtractAll(fs, entries, outputPath);
    var extractedSize := ExtractedSize(fs.files, outputPath, fileList);
    pbar.Update(extractedSize - pbar.n);
  }

  /** TAR: with truthful headers the counter ends exactly at the total. */
  lemma TarCounterReachesTotal(members: seq<Entry>)
    requires SizesMatch(members)
    ensures ContentSum(FileEntries(members)) == TarTotal(members)
  {
    var fe := FileEntries(members);
    FileEntriesMembers(members);
    forall i | 0 <= i < |fe| ensures fe[i].size == |fe[i].content| {
      assert fe[i] in members;
    }
    SizeSumIsContentSum(fe);
  }

  /** ZIP and RAR: with truthful headers the counter ends exactly at the total. */
  lemma NamedCounterReachesTotal(entries: seq<Entry>)
    requires SizesMatch(entries)
    ensures ContentSum(entries) == NamedTotal(entries)
  {
    SizeSumIsContentSum(entries);
  }

  /** Rewriting a path no listed name joins to leaves the size found on disk
      unchanged. */
  lemma {:induction false} ExtractedSizeUpdate(files: Files, outputPath: string, names: seq<string>, p: string, c: seq<byte>)
    requires forall k :: 0 <= k < |names| ==> Join(outputPath, names[k]) != p
    ensures ExtractedSize(files[p := c], outputPath, names) == ExtractedSize(files, outputPath, names)
  {
    if names != [] {
      ExtractedSizeUpdate(files, outputPath, names[..|names| - 1], p, c);
    }
  }

  /** A name that no member carries is carried by no regular-file member
      either, so no regular file is written at its path. */
  lemma FileNamesAvoid(es: seq<Entry>, outputPath: string, name: string)
    requires forall k :: 0 <= k < |es| ==> es[k].name != name
    ensures forall i :: 0 <= i < |FileEntries(es)| ==>
      Join(outputPath, FileEntries(es)[i].name) != Join(outputPath, name)
  {
    FileEntriesMembers(es);
    forall i | 0 <= i < |FileEntries(es)|
      ensures Join(outputPath, FileEntries(es)[i].name) != Join(outputPath, name)
    {
      var e := FileEntries(es)[i];
      assert e in es;
      JoinInjective(outputPath, e.name, name);
    }
  }

  /** Dropping the last member keeps the names distinct, and the last
      name is not among the others. */
  lemma DistinctSplit(init: seq<Entry>, last: Entry)
    requires DistinctNames(init + [last])
    ensures DistinctNames(init)
    ensures forall k :: 0 <= k < |init| ==> init[k].name != last.name
  {
    var es := init + [last];
    forall k | 0 <= k < |init| ensures init[k].name != last.name {
      assert es[k] == init[k] && es[|init|] == last;
    }
    forall i, j | 0 <= i < j < |init| ensures init[i].name != init[j].name {
      assert es[i] == init[i] && es[j] == init[j];
    }
  }

  /** A regular file whose name no earlier member carries adds exactly its
      own length to the size found on disk. */
  lemma SevenZFileStep(before: Files, outputPath: string, init: seq<Entry>, last: Entry)
    requires forall k :: 0 <= k < |init| ==> init[k].name != last.name
    ensures ExtractedSize(before[Join(outputPath, last.name) := last.content], outputPath, Names(init) + [last.name]) ==
      ExtractedSize(before, outputPath, Names(init)) + |last.content|
  {
    var p := Join(outputPath, last.name);
    var names := Names(init) + [last.name];
    assert names[..|names| - 1] == Names(init);
    forall k | 0 <= k < |Names(init)| ensures Join(outputPath, Names(init)[k]) != p {
      JoinInjective(outputPath, init[k].name, last.name);
    }
    ExtractedSizeUpdate(before, outputPath, Names(init), p, last.content);
  }

  /** A directory member whose path holds no file adds nothing to the size
      found on disk. */
  lemma SevenZDirStep(files: Files, outputPath: string, init: seq<Entry>, last: Entry)
    requires forall k :: 0 <= k < |init| ==> init[k].name != last.name
    requires Join(outputPath, last.name) !in files
    ensures ExtractedSize(Written(files, outputPath, FileEntries(init)), outputPath, Names(init) + [last.name]) ==
      ExtractedSize(Written(files, outputPath, FileEntries(init)), outputPath, Names(init))
  {
    var names := Names(init) + [last.name];
    assert names[..|names| - 1] == Names(init);
    FileNamesAvoid(init, outputPath, last.name);
    WrittenKeys(files, outputPath, FileEntries(init));
  }

  /** 7z: when member names are distinct and no directory member's path
      already holds a file, the corrected counter is the total content of
      the regular files, not the archive size the bar was created with. */
  lemma {:induction false} SevenZCounterIsContent(files: Files, outputPath: string, entries: seq<Entry>)
    requires DistinctNames(entries)
    requires forall i :: 0 <= i < |entries| && !entries[i].isFile ==> Join(outputPath, entries[i].name) !in files
    ensures ExtractedSize(Written(files, outputPath, FileEntries(entries)), outputPath, Names(entries)) ==
      ContentSum(FileEntries(entries))
  {
    if entries != [] {
      var init := entries[..|entries| - 1];
      var last := entries[|entries| - 1];
      assert entries == init + [last];
      assert Names(entries) == Names(init) + [last.name];
      DistinctSplit(init, last);
      FileEntriesAppend(init, last);
      SevenZCounterIsContent(files, outputPath, init);
      var fileInit := FileEntries(init);
      if last.isFile {
        WrittenAppend(files, outputPath, fileInit, last);
        ContentSumAppend(fileInit, last);
        SevenZFileStep(Written(files, outputPath, fileInit), outputPath, init, last);
      } else {
        assert FileEntries(entries) == fileInit;
        SevenZDirStep(files, outputPath, init, last);
      }
    }
  }
}
