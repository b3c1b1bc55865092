/** The program's entry points: `unzip_file`, which picks one extractor by
    the path's extension, and `main`, which guards it with an existence
    check and reports completion. */
module Uzip {
  import opened Archive
  import opened Formats
  import opened Disk
  import opened Extract

  const UnsupportedMessage: string := "Unsupported file format."
  const NotFoundMessage: string := "Error: File not found"
  const CompletePrefix: string := "Extraction complete: "

  /** The members an extractor of the given format writes: every listed
      name for ZIP and RAR, only regular files for TAR and 7z, none when
      the format is unsupported. */
  function Selected(format: Format, archive: seq<Entry>): seq<Entry>
  {
    match format
    case Zip => archive
    case Rar => archive
    case SevenZ => FileEntries(archive)
    case Tar => FileEntries(archive)
    case Unsupported => []
  }

  /** The destination files after extracting `archive` as `format`. */
  function Extraction(format: Format, files: Files, outputPath: string, archive: seq<Entry>): Files
  {
    Written(files, outputPath, Selected(format, archive))
  }

  /** The extractors `unzip_file` calls: one for a supported format, none
      otherwise. */
  function Calls(format: Format): seq<Format>
  {
    if format == Unsupported then [] else [format]
  }

  /** `unzip_file`: `archive` is what the format's library enumerates and
      `archiveSize` what `os.path.getsize` reports for the archive. The
      results are the extractors called, in order, and the lines printed. */
  method UnzipFile(fs: FileSystem, filePath: string, outputPath: string, archive: seq<Entry>, archiveSize: nat)
    returns (invoked: seq<Format>, output: seq<string>)
    modifies fs
    ensures invoked == Calls(Classify(filePath))
    ensures output == if Classify(filePath) == Unsupported then [UnsupportedMessage] else []
    ensures fs.files == Extraction(Classify(filePath), old(fs.files), outputPath, archive)
  {
    output := [];
    ZipExclusive(filePath);
    RarExclusive(filePath);
    SevenZExclusive(filePath);
    if EndsWith(filePath, ZipSuffix) {
      assert Classify(filePath) == Zip;
      var _ := ExtractZip(fs, archive, outputPath);
      invoked := [Zip];
    } else if EndsWith(filePath, RarSuffix) {
      assert Classify(filePath) == Rar;
      var _ := ExtractRar(fs, archive, outputPath);
      invoked := [Rar];
    } else if EndsWith(filePath, SevenZSuffix) {
      assert Classify(filePath) == SevenZ;
      var _ := ExtractSevenZ(fs, archive, outputPath, archiveSize);
      invoked := [SevenZ];
    } else if EndsWithAny(filePath, TarSuffixes) {
      assert Classify(filePath) == Tar;
      var _ := ExtractTar(fs, archive, outputPath);
      invoked := [Tar];
    } else {
      invoked := [];
      output := [UnsupportedMessage];
    }
  }

  /** `main` after argument parsing: a missing archive is reported and
      nothing is extracted; otherwise the archive is extracted and
      completion is reported, even when the format was unsupported. */
  method Run(fs: FileSystem, file: string, dest: string, archive: seq<Entry>)
    returns (invoked: seq<Format>, output: seq<string>)
    modifies fs
    ensures file !in old(fs.files) ==>
      invoked == [] && output == [NotFoundMessage] && fs.files == old(fs.files)
    ensures file in old(fs.files) ==>
      && invoked == Calls(Classify(file))
      && output == (if Classify(file) == Unsupported then [UnsupportedMessage] else []) + [CompletePrefix + dest]
      && fs.files == Extraction(Classify(file), old(fs.files), dest, archive)
  {
    if file !in fs.files {
      invoked, output := [], [NotFoundMessage];
      return;
    }
    var archiveSize := |fs.files[file]|;
    var printed;
    invoked, printed := UnzipFile(fs, file, dest, archive, archiveSize);
    output := printed + [CompletePrefix + dest];
  }

  /** Exactly one extractor runs for a supported extension and none for
      any other, and the one that runs is the one its extension names. */
  lemma DispatchCallsOne(path: string)
    ensures |Calls(Classify(path))| <= 1
    ensures Calls(Classify(path)) == [] <==>
      !HasSuffix(path, ZipSuffix) && !HasSuffix(path, RarSuffix) && !HasSuffix(path, SevenZSuffix) &&
      forall i :: 0 <= i < |TarSuffixes| ==> !HasSuffix(path, TarSuffixes[i])
    ensures HasSuffix(path, ZipSuffix) ==> Calls(Classify(path)) == [Zip]
    ensures HasSuffix(path, RarSuffix) ==> Calls(Classify(path)) == [Rar]
    ensures HasSuffix(path, SevenZSuffix) ==> Calls(Classify(path)) == [SevenZ]
    ensures (exists i :: 0 <= i < |TarSuffixes| && HasSuffix(path, TarSuffixes[i])) ==> Calls(Classify(path)) == [Tar]
  {
    ClassifyCorrect(path);
  }

  /** Extracting the same archive a second time into the same destination
      leaves the same files as extracting it once. */
  lemma ExtractionIdempotent(format: Format, files: Files, outputPath: string, archive: seq<Entry>)
    ensures Extraction(format, Extraction(format, files, outputPath, archive), outputPath, archive) ==
      Extraction(format, files, outputPath, archive)
  {
    WrittenIdempotent(files, outputPath, Selected(format, archive));
  }

  /** When the archive's member names are distinct, each member the
      format's extractor handles ends up at its joined path with exactly
      its bytes, and every other path keeps what it held. */
  lemma ExtractionContents(format: Format, files: Files, outputPath: string, archive: seq<Entry>)
    requires DistinctNames(archive)
    ensures forall e :: e in Selected(format, archive) ==>
      Join(outputPath, e.name) in Extraction(format, files, outputPath, archive) &&
      Extraction(format, files, outputPath, archive)[Join(outputPath, e.name)] == e.content
    ensures forall p :: p in files && (forall e :: e in Selected(format, archive) ==> p != Join(outputPath, e.name)) ==>
      p in Extraction(format, files, outputPath, archive) && Extraction(format, files, outputPath, archive)[p] == files[p]
  {
    var sel := Selected(format, archive);
    FileEntriesMembers(archive);
    assert DistinctNames(sel) by {
      if format == Tar || format == SevenZ {
        FileEntriesDistinct(archive);
      }
    }
    WrittenAllContent(files, outputPath, sel);
    WrittenIsOverlay(files, outputPath, sel);
    WrittenKeys(map[], outputPath, sel);
    forall e | e in sel
      ensures Join(outputPath, e.name) in Extraction(format, files, outputPath, archive)
      ensures Extraction(format, files, outputPath, archive)[Join(outputPath, e.name)] == e.content
    {
      var i :| 0 <= i < |sel| && sel[i] == e;
    }
  }

  /** `sample.zip` holding `a.txt` ("hello") and an empty `b/c.txt`,
      extracted into `out/`, leaves exactly those two files there. */
  lemma SampleZipExtraction()
    ensures var hello: seq<byte> := [104, 101, 108, 108, 111];
      var archive := [Entry("a.txt", true, 5, hello), Entry("b/c.txt", true, 0, [])];
      Extraction(Classify("sample.zip"), map[], "out/", archive) == map["out/a.txt" := hello, "out/b/c.txt" := []]
  {
    var hello: seq<byte> := [104, 101, 108, 108, 111];
    var a, c := Entry("a.txt", true, 5, hello), Entry("b/c.txt", true, 0, []);
    ClassifyCorrect("sample.zip");
    assert "sample" + ZipSuffix == "sample.zip";
    assert Join("out/", a.name) == "out/a.txt";
    assert Join("out/", c.name) == "out/b/c.txt";
    WrittenAppend(map[], "out/", [], a);
    WrittenAppend(map[], "out/", [a], c);
  }
}
