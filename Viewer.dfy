/**
 * The viewer's handlers for DRK packages: `read-package-info` (whether a file
 * is a full or delta package), `extract-package-documents` (the header, size,
 * manifest, path and extension checks, and the document list) and
 * `extract-pdf-file` (the raw data-section slice of one entry).
 * Files are read from a map from path to bytes; a missing file makes
 * `readFileSync` throw.
 */
module Viewer {
  import opened Wrappers
  import opened Bytes
  import opened DrkFormat
  import opened DrkBuilder
  import DrkApplier
  import Js
  import Seqs

  /** 500 MiB */
  const MaxPackageSize: nat := 500 * 1024 * 1024
  /** 10 MiB */
  const MaxManifestSize: nat := 10 * 1024 * 1024
  const MaxEntries: nat := 10000
  const AllowedExtensions: seq<string> := [".pdf", ".txt", ".md", ".json"]

  datatype ViewerError =
    | ReadFailed
    | InvalidHeader
    | PackageTooLarge
    | Truncated
    | ManifestOversized
    | ManifestUnparsable
    | InvalidManifest
    | TooManyEntries
    | DangerousPath(path: string)
    | EntryNotFound(path: string)

  // ---------------------------------------------------------------------------
  // read-package-info
  // ---------------------------------------------------------------------------

  datatype PackageInfo = PackageInfo(name: string, size: nat, kind: string, lastModified: int, path: string)

  /**
   * `read-package-info`: null for a path that does not exist; the type is
   * decided by the extension alone. `existsSync` and `statSync` accept a
   * directory too: `dirs` gives the size `stat` reports for each directory,
   * and `mtime` the modification time of every path.
   */
  function ReadPackageInfo(files: map<string, Bytes>, dirs: map<string, nat>, mtime: string -> int, filePath: string)
    : (r: Option<PackageInfo>)
    ensures r.Some? <==> filePath in files || filePath in dirs
    ensures r.Some? ==> && r.value.path == filePath && r.value.name == Js.Basename(filePath)
                        && r.value.kind == (if Js.Extname(filePath) == ".drkpack" then "full" else "delta")
                        && r.value.lastModified == mtime(filePath)
    ensures filePath in files ==> r.Some? && r.value.size == |files[filePath]|
    ensures filePath !in files && filePath in dirs ==> r.Some? && r.value.size == dirs[filePath]
  {
    if filePath !in files && filePath !in dirs then None
    else
      var ext := Js.Extname(filePath);
      var size := if filePath in files then |files[filePath]| else dirs[filePath];
      Some(PackageInfo(Js.Basename(filePath), size, if ext == ".drkpack" then "full" else "delta", mtime(filePath), filePath))
  }

  // ---------------------------------------------------------------------------
  // extract-package-documents
  // ---------------------------------------------------------------------------

  /**
   * A path is refused when two dots stand next to each other anywhere in it
   * (not only as a whole segment), when it holds a backslash, or when it
   * starts with "/".
   */
  predicate Dangerous(p: string)
    ensures Dangerous(p) <==>
              (exists i :: 0 <= i < |p| - 1 && p[i] == '.' && p[i + 1] == '.') ||
              (exists i :: 0 <= i < |p| && p[i] == '\\') ||
              (|p| > 0 && p[0] == '/')
  {
    DangerousChars(p);
    Js.Includes(p, "..") || Js.Includes(p, "\\") || Js.IsAbsolute(p)
  }

  /** `includes` of a one- or two-character needle, character by character. */
  lemma DangerousChars(p: string)
    ensures Js.Includes(p, "..") <==> exists i :: 0 <= i < |p| - 1 && p[i] == '.' && p[i + 1] == '.'
    ensures Js.Includes(p, "\\") <==> exists i :: 0 <= i < |p| && p[i] == '\\'
  {
    IncludesPair(p, '.', '.');
    IncludesChar(p, '\\');
  }

  lemma IncludesPair(p: string, a: char, b: char)
    ensures Js.Includes(p, [a, b]) <==> exists i :: 0 <= i < |p| - 1 && p[i] == a && p[i + 1] == b
  {
    if Js.Includes(p, [a, b]) {
      var i :| Js.OccursAt(p, [a, b], i);
      PairAt(p, a, b, i);
    }
    if i :| 0 <= i < |p| - 1 && p[i] == a && p[i + 1] == b {
      PairAt(p, a, b, i);
    }
  }

  /** The two characters occur at position i exactly when they stand at i and i + 1. */
  lemma PairAt(p: string, a: char, b: char, i: int)
    ensures Js.OccursAt(p, [a, b], i) <==> 0 <= i < |p| - 1 && p[i] == a && p[i + 1] == b
  {
    if 0 <= i < |p| - 1 {
      assert p[i..i + 2][0] == p[i] && p[i..i + 2][1] == p[i + 1];
      if p[i] == a && p[i + 1] == b {
        assert p[i..i + 2] == [a, b];
      }
    }
  }

  lemma IncludesChar(p: string, a: char)
    ensures Js.Includes(p, [a]) <==> exists i :: 0 <= i < |p| && p[i] == a
  {
    if Js.Includes(p, [a]) {
      var i :| Js.OccursAt(p, [a], i);
      assert p[i..i + 1][0] == p[i];
    }
    if i :| 0 <= i < |p| && p[i] == a {
      assert p[i..i + 1] == [a];
      assert Js.OccursAt(p, [a], i);
    }
  }

  /**
   * The extension, lower-cased, is one of the four allowed: the base name then
   * ends with a dot and two to four more characters, in any case.
   */
  predicate Allowed(p: string)
    ensures Allowed(p) ==> 3 <= |Js.Extname(p)| <= 5 && Js.Extname(p)[0] == '.'
                           && Js.EndsWith(Js.Basename(p), Js.Extname(p))
  {
    var ext := Js.Extname(p);
    if Js.AsciiLower(ext) in AllowedExtensions then LowerExtension(ext); true else false
  }

  /** An extension that lower-cases to an allowed one is a dot and two to four more characters. */
  lemma LowerExtension(ext: string)
    requires Js.AsciiLower(ext) in AllowedExtensions
    ensures 3 <= |ext| <= 5 && ext[0] == '.'
  {
    var x := Js.AsciiLower(ext);
    assert x == ".pdf" || x == ".txt" || x == ".md" || x == ".json";
    assert x[0] == '.' && x[0] == Js.LowerChar(ext[0]);
  }

  datatype DocType = MM | PR | I | F | DOC

  /** The document type, by the first of four words found in the path. */
  function Classify(p: string): (r: DocType)
    ensures r == MM <==> Js.Includes(p, "Main Manual")
    ensures r == PR <==> !Js.Includes(p, "Main Manual") && Js.Includes(p, "Procedure")
    ensures r == I <==> !Js.Includes(p, "Main Manual") && !Js.Includes(p, "Procedure") && Js.Includes(p, "Instruction")
    ensures r == F <==> !Js.Includes(p, "Main Manual") && !Js.Includes(p, "Procedure") && !Js.Includes(p, "Instruction")
                        && Js.Includes(p, "Form")
  {
    if Js.Includes(p, "Main Manual") then MM
    else if Js.Includes(p, "Procedure") then PR
    else if Js.Includes(p, "Instruction") then I
    else if Js.Includes(p, "Form") then F
    else DOC
  }

  datatype Document = Document(id: string, title: string, docType: DocType, path: string, size: int, hash: string)

  /** The document made of entry `index`; the title is the base name with its first ".pdf" removed. */
  function ToDocument(e: FileEntry, index: nat): (d: Document)
    ensures d.id == "doc-" + Js.Decimal(index) && d.path == e.path && d.size == e.size && d.hash == e.hash
    ensures d.docType == Classify(e.path)
  {
    Document("doc-" + Js.Decimal(index), Js.ReplaceFirst(Js.Basename(e.path), ".pdf", ""), Classify(e.path), e.path, e.size, e.hash)
  }

  /** Whether an entry's document is listed. */
  predicate Listed(e: FileEntry) {
    Allowed(e.path)
  }

  /** `file_entries.map(...).filter(Boolean)` over entries that passed the path check. */
  function Documents(entries: seq<FileEntry>): (r: seq<Document>)
    ensures |r| <= |entries|
  {
    Seqs.Collect(entries, Listed, ToDocument)
  }

  /** The positions of the entries whose extension is allowed, ascending. */
  function Kept(entries: seq<FileEntry>): (r: seq<nat>)
    ensures forall k :: 0 <= k < |r| ==> r[k] < |entries|
  {
    Seqs.Positions(entries, Listed)
  }

  /**
   * The document list: one document per entry with an allowed extension, in
   * entry order, each carrying its entry's original position in its id, and
   * every allowed entry listed.
   */
  lemma DocumentsAreKept(entries: seq<FileEntry>)
    ensures |Documents(entries)| == |Kept(entries)|
    ensures forall k :: 0 <= k < |Kept(entries)| ==>
              Allowed(entries[Kept(entries)[k]].path) &&
              Documents(entries)[k] == ToDocument(entries[Kept(entries)[k]], Kept(entries)[k])
    ensures forall k, l :: 0 <= k < l < |Kept(entries)| ==> Kept(entries)[k] < Kept(entries)[l]
    ensures forall i :: 0 <= i < |entries| && Allowed(entries[i].path) ==> i in Kept(entries)
  {
    Seqs.CollectMeaning(entries, Listed, ToDocument);
    Seqs.PositionsMeaning(entries, Listed);
  }

  /** The position of the first entry with a dangerous path, or -1. */
  function FirstDangerous(entries: seq<FileEntry>): (r: int)
    ensures -1 <= r < |entries|
    ensures r >= 0 ==> Dangerous(entries[r].path)
    ensures forall i :: 0 <= i < |entries| && (r == -1 || i < r) ==> !Dangerous(entries[i].path)
  {
    if entries == [] then -1
    else if Dangerous(entries[0].path) then 0
    else
      var k := FirstDangerous(entries[1..]);
      if k < 0 then -1 else k + 1
  }

  datatype Extracted = Extracted(manifest: Manifest, documents: seq<Document>)

  /** `extract-package-documents(packagePath)` */
  function ExtractPackageDocuments(lib: Library, files: map<string, Bytes>, packagePath: string): (r: Result<Extracted, ViewerError>)
    ensures r.Ok? ==> packagePath in files && HasMagic(files[packagePath]) && 8 <= |files[packagePath]| <= MaxPackageSize
    ensures r.Ok? ==> ReadU32LE(files[packagePath], 4) <= MaxManifestSize
    ensures r.Ok? ==> Some(r.value.manifest) == lib.parse(Split(files[packagePath]).value.manifestJson)
    ensures r.Ok? ==> r.value.manifest.kind != "" && r.value.manifest.fileEntries.Some?
                      && |r.value.manifest.fileEntries.value| <= MaxEntries
                      && (forall e :: e in r.value.manifest.fileEntries.value ==> !Dangerous(e.path))
                      && r.value.documents == Documents(r.value.manifest.fileEntries.value)
  {
    if packagePath !in files then Err(ReadFailed)
    else
      var packageData := files[packagePath];
      if !HasMagic(packageData) then Err(InvalidHeader)
      else if |packageData| > MaxPackageSize then Err(PackageTooLarge)
      else if |packageData| < 8 then Err(Truncated)
      else if ReadU32LE(packageData, 4) > MaxManifestSize then Err(ManifestOversized)
      else match lib.parse(Split(packageData).value.manifestJson)
        case None => Err(ManifestUnparsable)
        case Some(manifest) =>
          if manifest.kind == "" || manifest.fileEntries.None? then Err(InvalidManifest)
          else if |manifest.fileEntries.value| > MaxEntries then Err(TooManyEntries)
          else
            var entries := manifest.fileEntries.value;
            var bad := FirstDangerous(entries);
            if bad >= 0 then Err(DangerousPath(entries[bad].path))
            else Ok(Extracted(manifest, Documents(entries)))
  }

  /**
   * The checks in their order: the header first, then the package size, the
   * length word, the manifest size, the JSON, the two required fields, the
   * entry count, and the first dangerous path, whatever its extension.
   */
  lemma ExtractPackageDocumentsGates(lib: Library, files: map<string, Bytes>, packagePath: string)
    requires packagePath in files
    ensures var d := files[packagePath];
            var r := ExtractPackageDocuments(lib, files, packagePath);
            && (!HasMagic(d) ==> r == Err(InvalidHeader))
            && (HasMagic(d) && |d| > MaxPackageSize ==> r == Err(PackageTooLarge))
            && (HasMagic(d) && |d| <= MaxPackageSize && |d| < 8 ==> r == Err(Truncated))
            && (HasMagic(d) && 8 <= |d| <= MaxPackageSize && ReadU32LE(d, 4) > MaxManifestSize ==> r == Err(ManifestOversized))
            && (HasMagic(d) && 8 <= |d| <= MaxPackageSize && ReadU32LE(d, 4) <= MaxManifestSize
                && lib.parse(Split(d).value.manifestJson).Some? ==>
                  var m := lib.parse(Split(d).value.manifestJson).value;
                  && (m.kind == "" || m.fileEntries.None? ==> r == Err(InvalidManifest))
                  && (m.kind != "" && m.fileEntries.Some? && |m.fileEntries.value| > MaxEntries ==> r == Err(TooManyEntries))
                  && (m.kind != "" && m.fileEntries.Some? && |m.fileEntries.value| <= MaxEntries
                      && (exists e :: e in m.fileEntries.value && Dangerous(e.path)) ==>
                        r.Err? && r.error.DangerousPath? && Dangerous(r.error.path)))
  {
    var d := files[packagePath];
    if HasMagic(d) && 8 <= |d| <= MaxPackageSize && ReadU32LE(d, 4) <= MaxManifestSize
       && lib.parse(Split(d).value.manifestJson).Some? {
      var m := lib.parse(Split(d).value.manifestJson).value;
      if m.kind != "" && m.fileEntries.Some? && |m.fileEntries.value| <= MaxEntries
         && (exists e :: e in m.fileEntries.value && Dangerous(e.path)) {
        var e :| e in m.fileEntries.value && Dangerous(e.path);
        var i :| 0 <= i < |m.fileEntries.value| && m.fileEntries.value[i] == e;
        assert FirstDangerous(m.fileEntries.value) >= 0;
      }
    }
  }

  // ---------------------------------------------------------------------------
  // extract-pdf-file
  // ---------------------------------------------------------------------------

  /** `file_entries.find(e => e.path === filePath)` as a position, or -1. */
  function FindEntry(entries: seq<FileEntry>, filePath: string): (r: int)
    ensures -1 <= r < |entries|
    ensures r >= 0 ==> entries[r].path == filePath
    ensures forall i :: 0 <= i < |entries| && (r == -1 || i < r) ==> entries[i].path != filePath
  {
    if entries == [] then -1
    else if entries[0].path == filePath then 0
    else
      var k := FindEntry(entries[1..], filePath);
      if k < 0 then -1 else k + 1
  }

  /** The temporary file extract-pdf-file writes, and its bytes. */
  datatype Written = Written(path: string, data: Bytes)

  /** `data.subarray(entry.offset || 0, (entry.offset || 0) + (entry.compressedSize || 0))` */
  function EntrySlice(data: Bytes, e: FileEntry): Bytes {
    Js.Slice(data, OrZero(e.offset), OrZero(e.offset) + OrZero(e.compressedSize))
  }

  /** `path.join(app.getPath('temp'), \`drk_${Date.now()}_${path.basename(filePath)}\`)` */
  function TempFile(tempDir: string, now: nat, filePath: string): string {
    Js.Join(tempDir, "drk_" + Js.Decimal(now) + "_" + Js.Basename(filePath))
  }

  /**
   * `extract-pdf-file(packagePath, filePath)`, with `tempDir` the application's
   * temporary directory and `now` the clock reading. There is no header check,
   * and the slice is written as it is, without decompression.
   */
  function ExtractPdfFile(lib: Library, files: map<string, Bytes>, packagePath: string, filePath: string, tempDir: string, now: nat)
    : (r: Result<Written, ViewerError>)
    ensures r.Ok? ==> packagePath in files && |files[packagePath]| >= 8
    ensures r.Ok? ==> r.value.path == TempFile(tempDir, now, filePath)
    ensures r.Ok? ==>
              var s := Split(files[packagePath]).value;
              var m := lib.parse(s.manifestJson);
              && m.Some? && m.value.fileEntries.Some?
              && var i := FindEntry(m.value.fileEntries.value, filePath);
                 && i >= 0
                 && var e := m.value.fileEntries.value[i];
                    r.value.data == EntrySlice(s.data, e)
  {
    if packagePath !in files then Err(ReadFailed)
    else
      var packageData := files[packagePath];
      if |packageData| < 8 then Err(Truncated)
      else
        var sections := Split(packageData).value;
        match lib.parse(sections.manifestJson)
        case None => Err(ManifestUnparsable)
        case Some(manifest) =>
          if manifest.fileEntries.None? then Err(InvalidManifest)
          else
            var i := FindEntry(manifest.fileEntries.value, filePath);
            if i < 0 then Err(EntryNotFound(filePath))
            else
              var e := manifest.fileEntries.value[i];
              var compressedData := EntrySlice(sections.data, e);
              Ok(Written(TempFile(tempDir, now, filePath), compressedData))
  }

  /** The call fails with not-found exactly when the manifest's entries hold no entry with the path. */
  lemma ExtractPdfFileNotFound(lib: Library, files: map<string, Bytes>, packagePath: string, filePath: string, tempDir: string, now: nat)
    ensures ExtractPdfFile(lib, files, packagePath, filePath, tempDir, now) == Err(EntryNotFound(filePath)) <==>
              && packagePath in files && |files[packagePath]| >= 8
              && var m := lib.parse(Split(files[packagePath]).value.manifestJson);
                 m.Some? && m.value.fileEntries.Some? && forall e :: e in m.value.fileEntries.value ==> e.path != filePath
  {
    if packagePath in files && |files[packagePath]| >= 8 {
      var m := lib.parse(Split(files[packagePath]).value.manifestJson);
      if m.Some? && m.value.fileEntries.Some? {
        var es := m.value.fileEntries.value;
        var i := FindEntry(es, filePath);
        if i >= 0 {
          assert es[i] in es;
        } else {
          forall e | e in es ensures e.path != filePath {
            var j :| 0 <= j < |es| && es[j] == e;
          }
        }
      }
    }
  }

  /**
   * On a package createFullPackage wrote, extract-pdf-file yields, for each
   * ".pdf" file of the source, the compressed bytes of that file, not the file.
   */
  lemma PdfFileIsCompressedBlob(lib: Library, keys: KeyPair, source: seq<Node>, metadata: map<string, string>, createdAt: string,
                                files: map<string, Bytes>, packagePath: string, k: nat, tempDir: string, now: nat)
    requires Sound(lib, keys) && UniquePaths(Files(source, ""))
    requires FullPackage(lib, keys, source, metadata, createdAt).Ok?
    requires packagePath in files && files[packagePath] == FullPackage(lib, keys, source, metadata, createdAt).value
    requires k < |PdfFiles(Files(source, ""))|
    ensures var f := PdfFiles(Files(source, ""))[k];
            var r := ExtractPdfFile(lib, files, packagePath, f.path, tempDir, now);
            r.Ok? && r.value.data == lib.compress(f.content)
  {
    var ps := PdfFiles(Files(source, ""));
    var entries := Collected(lib, source, "");
    FullPackageReadsBack(lib, keys, source, metadata, createdAt);
    var blobs := Blobs(lib, entries, source).value;
    DrkApplier.FullBuildDescribes(lib, source);
    DescribedExtract(lib, files, packagePath, tempDir, now, ps, entries, blobs, AddHashes(map[], entries), k);
  }

  /** From a package whose manifest places a described build over its data section, extract-pdf-file returns blob k. */
  lemma DescribedExtract(lib: Library, files: map<string, Bytes>, packagePath: string, tempDir: string, now: nat,
                         ps: seq<FileRec>, entries: seq<FileEntry>, blobs: seq<Bytes>, tree: map<string, string>, k: nat)
    requires DrkApplier.Describes(lib, ps, entries, blobs, tree) && k < |ps|
    requires packagePath in files && Split(files[packagePath]).Some?
    requires var s := Split(files[packagePath]).value;
             && s.data == Concat(blobs) && lib.parse(s.manifestJson).Some?
             && lib.parse(s.manifestJson).value.fileEntries == Some(Placed(entries, blobs))
    ensures var r := ExtractPdfFile(lib, files, packagePath, ps[k].path, tempDir, now);
            r.Ok? && r.value.data == lib.compress(ps[k].content)
  {
    var s := Split(files[packagePath]).value;
    DescribedSlot(lib, ps, entries, blobs, tree, k, lib.parse(s.manifestJson).value.fileEntries.value, s.data);
    ExtractPdfAt(lib, files, packagePath, ps[k].path, tempDir, now, k, lib.compress(ps[k].content));
  }

  /** Entry k of a described build is found by its path, and its slice of the data section is blob k. */
  lemma DescribedSlot(lib: Library, ps: seq<FileRec>, entries: seq<FileEntry>, blobs: seq<Bytes>, tree: map<string, string>, k: nat,
                      placed: seq<FileEntry>, data: Bytes)
    requires DrkApplier.Describes(lib, ps, entries, blobs, tree) && k < |ps|
    requires placed == Placed(entries, blobs) && data == Concat(blobs)
    ensures && k < |placed|
            && FindEntry(placed, ps[k].path) == k
            && Js.Slice(data, OrZero(placed[k].offset), OrZero(placed[k].offset) + OrZero(placed[k].compressedSize))
               == lib.compress(ps[k].content)
  {
    DrkApplier.DescribedPathsUnique(lib, ps, entries, blobs, tree);
    PlacedBlob(entries, blobs, k, data, placed[k]);
    assert entries[k] == EntryOf(lib, ps[k]);
    PlacedPathsUnique(entries, blobs);
    FindUnique(placed, k);
  }

  /** Placing entries keeps their paths, so distinct paths stay distinct. */
  lemma PlacedPathsUnique(entries: seq<FileEntry>, blobs: seq<Bytes>)
    requires |entries| == |blobs|
    requires forall i, j :: 0 <= i < j < |entries| ==> entries[i].path != entries[j].path
    ensures forall i, j :: 0 <= i < j < |entries| ==> Placed(entries, blobs)[i].path != Placed(entries, blobs)[j].path
  {
    var placed := Placed(entries, blobs);
    forall i, j | 0 <= i < j < |placed| ensures placed[i].path != placed[j].path {
      PlacedAt(entries, blobs, i);
      PlacedAt(entries, blobs, j);
    }
  }

  /** extract-pdf-file succeeds on a framed package whose manifest lists the path at position i, with that entry's slice. */
  lemma ExtractPdfAt(lib: Library, files: map<string, Bytes>, packagePath: string, filePath: string, tempDir: string, now: nat,
                     i: nat, blob: Bytes)
    requires packagePath in files && Split(files[packagePath]).Some?
    requires var s := Split(files[packagePath]).value;
             var m := lib.parse(s.manifestJson);
             && m.Some? && m.value.fileEntries.Some? && i < |m.value.fileEntries.value|
             && FindEntry(m.value.fileEntries.value, filePath) == i
             && var e := m.value.fileEntries.value[i];
                Js.Slice(s.data, OrZero(e.offset), OrZero(e.offset) + OrZero(e.compressedSize)) == blob
    ensures var r := ExtractPdfFile(lib, files, packagePath, filePath, tempDir, now);
            r.Ok? && r.value.data == blob
  {
  }

  lemma FindUnique(entries: seq<FileEntry>, k: nat)
    requires k < |entries|
    requires forall i, j :: 0 <= i < j < |entries| ==> entries[i].path != entries[j].path
    ensures FindEntry(entries, entries[k].path) == k
  {
  }
}
