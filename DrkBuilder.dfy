/**
 * Building a package: walking the source directory for PDF files (collectFiles),
 * selecting the files a delta carries (collectChangedFiles), compressing and
 * laying out the data section (buildPackage), signing it (signPackage), and the
 * manifests of full and delta packages (createFullPackage, createDeltaPackage).
 */
module DrkBuilder {
  import opened Wrappers
  import opened Bytes
  import opened DrkFormat
  import Js

  /** One directory entry as `readdir(..., { withFileTypes: true })` lists it; `Other` is anything that is neither a file nor a directory. */
  datatype Node = File(name: string, content: Bytes) | Directory(name: string, children: seq<Node>) | Other(name: string)

  /** A regular file of the walked tree, with its path relative to the walk's root. */
  datatype FileRec = FileRec(path: string, content: Bytes)

  /** Every regular file below `nodes`, depth first in listing order, paths joined onto `rel`. */
  function Files(nodes: seq<Node>, rel: string): seq<FileRec>
    decreases nodes
  {
    if nodes == [] then []
    else
      Files(nodes[..|nodes| - 1], rel) +
      match nodes[|nodes| - 1]
      case File(name, content) => [FileRec(Js.Join(rel, name), content)]
      case Directory(name, children) => Files(children, Js.Join(rel, name))
      case Other(_) => []
  }

  /** No two files of the walk share a path (true of a real directory tree, whose entry names are unique and contain no '/'). */
  predicate UniquePaths(recs: seq<FileRec>) {
    forall i, j :: 0 <= i < j < |recs| ==> recs[i].path != recs[j].path
  }

  /** No file of the walk lies inside another one (true of a real directory tree, where a name is a file or a directory, not both). */
  predicate NoFileAbove(recs: seq<FileRec>) {
    forall f, g :: f in recs && g in recs ==> !Js.Under(f.path, g.path)
  }

  /** Every name in the tree is one `readdir` can return. */
  predicate WellNamed(nodes: seq<Node>)
    decreases nodes
  {
    forall k :: 0 <= k < |nodes| ==> Js.ValidName(nodes[k].name) && (nodes[k].Directory? ==> WellNamed(nodes[k].children))
  }

  /** The paths the walk joins from readdir names are normal relative paths. */
  lemma {:induction false} FilesNormal(nodes: seq<Node>, rel: string)
    requires WellNamed(nodes) && (rel == "" || Js.NormalPath(rel))
    ensures forall f :: f in Files(nodes, rel) ==> Js.NormalPath(f.path)
    decreases nodes
  {
    if nodes != [] {
      var init := nodes[..|nodes| - 1];
      var last := nodes[|nodes| - 1];
      assert WellNamed(init) by {
        forall k | 0 <= k < |init| ensures Js.ValidName(init[k].name) && (init[k].Directory? ==> WellNamed(init[k].children)) {
          assert init[k] == nodes[k];
        }
      }
      FilesNormal(init, rel);
      Js.JoinNormal(rel, last.name);
      if last.Directory? {
        FilesNormal(last.children, Js.Join(rel, last.name));
      }
    }
  }

  /** `fs.promises.readFile(path.join(sourceDir, p))`: the first file of the tree at path `p`. */
  function Lookup(recs: seq<FileRec>, p: string): (r: Option<Bytes>)
    ensures r.Some? <==> exists k :: 0 <= k < |recs| && recs[k].path == p
  {
    if recs == [] then None
    else if recs[0].path == p then Some(recs[0].content)
    else
      var r := Lookup(recs[1..], p);
      assert forall k :: 1 <= k < |recs| ==> recs[k] == recs[1..][k - 1];
      r
  }

  lemma {:induction false} LookupUnique(recs: seq<FileRec>, k: int)
    requires UniquePaths(recs) && 0 <= k < |recs|
    ensures Lookup(recs, recs[k].path) == Some(recs[k].content)
  {
    if k > 0 {
      assert UniquePaths(recs[1..]) by {
        forall i, j | 0 <= i < j < |recs| - 1 ensures recs[1..][i].path != recs[1..][j].path {
          assert recs[1..][i] == recs[i + 1] && recs[1..][j] == recs[j + 1];
        }
      }
      assert recs[1..][k - 1] == recs[k];
      LookupUnique(recs[1..], k - 1);
    }
  }

  /** The file `sourceDir/p` of the source tree. */
  function ReadSource(source: seq<Node>, p: string): Option<Bytes> {
    Lookup(Files(source, ""), p)
  }

  // ---------------------------------------------------------------------------
  // collectFiles
  // ---------------------------------------------------------------------------

  const PdfSuffix: string := ".pdf"

  /** The entry pushed for a collected file: its size, its SHA-256, not yet compressed. */
  function EntryOf(lib: Library, f: FileRec): (e: FileEntry)
    ensures e.path == f.path && e.size == |f.content| && e.hash == lib.sha256(f.content)
    ensures !e.compressed && e.offset.None? && e.compressedSize.None?
  {
    FileEntry(f.path, |f.content|, lib.sha256(f.content), false, None, None)
  }

  /** The entries of the files whose path ends in ".pdf", in order. */
  function PdfEntries(lib: Library, recs: seq<FileRec>): seq<FileEntry> {
    if recs == [] then []
    else
      var last := recs[|recs| - 1];
      PdfEntries(lib, recs[..|recs| - 1]) + (if Js.EndsWith(last.path, PdfSuffix) then [EntryOf(lib, last)] else [])
  }

  /** What collectFiles appends for the tree `nodes` below `rel`. */
  function Collected(lib: Library, nodes: seq<Node>, rel: string): (r: seq<FileEntry>)
    ensures |r| == |PdfFiles(Files(nodes, rel))|
    ensures forall k :: 0 <= k < |r| ==> r[k] == EntryOf(lib, PdfFiles(Files(nodes, rel))[k])
  {
    PdfEntriesAsFiles(lib, Files(nodes, rel));
    PdfEntries(lib, Files(nodes, rel))
  }

  /** `hashTree[e.path] = e.hash` for each entry in turn. */
  function AddHashes(tree: map<string, string>, entries: seq<FileEntry>): (r: map<string, string>)
    ensures r.Keys == tree.Keys + set e | e in entries :: e.path
  {
    if entries == [] then tree
    else
      var last := entries[|entries| - 1];
      var r := AddHashes(tree, entries[..|entries| - 1])[last.path := last.hash];
      assert entries == entries[..|entries| - 1] + [last];
      r
  }

  lemma {:induction false} PdfEntriesAppend(lib: Library, a: seq<FileRec>, b: seq<FileRec>)
    ensures PdfEntries(lib, a + b) == PdfEntries(lib, a) + PdfEntries(lib, b)
    decreases |b|
  {
    if b != [] {
      assert (a + b)[..|a + b| - 1] == a + b[..|b| - 1];
      PdfEntriesAppend(lib, a, b[..|b| - 1]);
    } else {
      assert a + b == a;
    }
  }

  lemma {:induction false} AddHashesAppend(tree: map<string, string>, a: seq<FileEntry>, b: seq<FileEntry>)
    ensures AddHashes(tree, a + b) == AddHashes(AddHashes(tree, a), b)
    decreases |b|
  {
    if b != [] {
      assert (a + b)[..|a + b| - 1] == a + b[..|b| - 1];
      AddHashesAppend(tree, a, b[..|b| - 1]);
    } else {
      assert a + b == a;
    }
  }

  /** A path and the base name joined onto it end in ".pdf" together, because the separator is not part of ".pdf". */
  lemma JoinEndsWithPdf(rel: string, name: string)
    ensures Js.EndsWith(Js.Join(rel, name), PdfSuffix) <==> Js.EndsWith(name, PdfSuffix)
  {
    var p := Js.Join(rel, name);
    if rel != "" && |name| < 4 && |p| >= 4 {
      assert p[|p| - 1 - |name|] == '/';
      assert p[|p| - 4..][3 - |name|] == '/';
    }
    if |name| >= 4 {
      assert p[|p| - 4..] == name[|name| - 4..];
    }
  }

  /** Collecting one more listed entry appends what that entry contributes. */
  lemma CollectedStep(lib: Library, nodes: seq<Node>, i: nat, rel: string)
    requires i < |nodes|
    ensures Collected(lib, nodes[..i + 1], rel) == Collected(lib, nodes[..i], rel) + Collected(lib, [nodes[i]], rel)
  {
    assert nodes[..i + 1][..i] == nodes[..i];
    assert [nodes[i]][..0] == [];
    assert Files(nodes[..i + 1], rel) == Files(nodes[..i], rel) + Files([nodes[i]], rel);
    PdfEntriesAppend(lib, Files(nodes[..i], rel), Files([nodes[i]], rel));
  }

  /** What a single directory entry contributes: a directory its subtree, a ".pdf" file its entry, anything else nothing. */
  lemma CollectedOne(lib: Library, node: Node, rel: string)
    ensures node.Directory? ==> Collected(lib, [node], rel) == Collected(lib, node.children, Js.Join(rel, node.name))
    ensures node.File? && Js.EndsWith(node.name, PdfSuffix) ==>
      Collected(lib, [node], rel) == [FileEntry(Js.Join(rel, node.name), |node.content|, lib.sha256(node.content), false, None, None)]
    ensures node.File? && !Js.EndsWith(node.name, PdfSuffix) ==> Collected(lib, [node], rel) == []
    ensures node.Other? ==> Collected(lib, [node], rel) == []
  {
    assert [node][..0] == [];
    match node
    case File(name, content) =>
      var f := FileRec(Js.Join(rel, name), content);
      assert Files([node], rel) == [f];
      assert PdfEntries(lib, [f]) == PdfEntries(lib, []) + (if Js.EndsWith(f.path, PdfSuffix) then [EntryOf(lib, f)] else []);
      JoinEndsWithPdf(rel, name);
    case Directory(name, children) =>
      assert Files([node], rel) == Files(children, Js.Join(rel, name));
    case Other(_) =>
      assert Files([node], rel) == [];
  }

  /** The state collectFiles reaches after one more listed entry, given what that entry contributed. */
  lemma CollectedAdvance(lib: Library, nodes: seq<Node>, i: nat, rel: string, files: seq<FileEntry>, tree: map<string, string>,
                         added: seq<FileEntry>, before: seq<FileEntry>, after: seq<FileEntry>)
    requires i < |nodes| && added == Collected(lib, [nodes[i]], rel)
    requires before == Collected(lib, nodes[..i], rel) && after == Collected(lib, nodes[..i + 1], rel)
    ensures files + before + added == files + after
    ensures AddHashes(AddHashes(tree, before), added) == AddHashes(tree, after)
  {
    CollectedStep(lib, nodes, i, rel);
    AddHashesAppend(tree, before, added);
    AppendBatch(files, before, added, after);
  }

  /** Appending a batch in two parts or at once gives the same list. */
  lemma AppendBatch(files: seq<FileEntry>, before: seq<FileEntry>, added: seq<FileEntry>, after: seq<FileEntry>)
    requires after == before + added
    ensures files + before + added == files + after
  {
    assert files + before + added == files + (before + added);
  }

  /**
   * collectFiles(dir, relativePath, files, hashTree): walks `nodes` in listing
   * order, recursing into directories, and appends an entry and a hash for every
   * regular file whose name ends in ".pdf".
   */
  method CollectFiles(lib: Library, nodes: seq<Node>, rel: string, files: seq<FileEntry>, hashTree: map<string, string>)
    returns (files': seq<FileEntry>, hashTree': map<string, string>)
    ensures files' == files + Collected(lib, nodes, rel)
    ensures hashTree' == AddHashes(hashTree, Collected(lib, nodes, rel))
    decreases nodes
  {
    files', hashTree' := files, hashTree;
    for i := 0 to |nodes|
      invariant files' == files + Collected(lib, nodes[..i], rel)
      invariant hashTree' == AddHashes(hashTree, Collected(lib, nodes[..i], rel))
    {
      CollectedOne(lib, nodes[i], rel);
      ghost var added: seq<FileEntry> := [];
      match nodes[i] {
        case Directory(name, children) =>
          var relPath := Js.Join(rel, name);
          files', hashTree' := CollectFiles(lib, children, relPath, files', hashTree');
          added := Collected(lib, children, relPath);
        case File(name, content) =>
          if Js.EndsWith(name, PdfSuffix) {
            var relPath := Js.Join(rel, name);
            var hash := lib.sha256(content);
            var entry := FileEntry(relPath, |content|, hash, false, None, None);
            files' := files' + [entry];
            hashTree' := hashTree'[relPath := hash];
            added := [entry];
          }
        case Other(_) =>
      }
      CollectedAdvance(lib, nodes, i, rel, files, hashTree, added, Collected(lib, nodes[..i], rel), Collected(lib, nodes[..i + 1], rel));
    }
    assert nodes[..|nodes|] == nodes;
  }

  /** The hash tree of a list of entries with distinct paths maps each entry's path to its hash. */
  lemma {:induction false} AddHashesUnique(tree: map<string, string>, entries: seq<FileEntry>, k: int)
    requires forall i, j :: 0 <= i < j < |entries| ==> entries[i].path != entries[j].path
    requires 0 <= k < |entries|
    ensures AddHashes(tree, entries)[entries[k].path] == entries[k].hash
    decreases |entries|
  {
    if k < |entries| - 1 {
      var init := entries[..|entries| - 1];
      assert init[k] == entries[k];
      AddHashesUnique(tree, init, k);
    }
  }

  /** The ".pdf" files of the walk, in order. */
  function PdfFiles(recs: seq<FileRec>): seq<FileRec> {
    if recs == [] then []
    else
      var last := recs[|recs| - 1];
      PdfFiles(recs[..|recs| - 1]) + (if Js.EndsWith(last.path, PdfSuffix) then [last] else [])
  }

  /** A file is collected exactly when it is a file of the walk whose path ends in ".pdf". */
  lemma {:induction false} PdfFilesMembers(recs: seq<FileRec>, f: FileRec)
    ensures f in PdfFiles(recs) <==> f in recs && Js.EndsWith(f.path, PdfSuffix)
    decreases |recs|
  {
    if recs != [] {
      PdfFilesMembers(recs[..|recs| - 1], f);
      assert recs == recs[..|recs| - 1] + [recs[|recs| - 1]];
    }
  }

  lemma {:induction false} PdfFilesUnique(recs: seq<FileRec>)
    requires UniquePaths(recs)
    ensures UniquePaths(PdfFiles(recs))
    decreases |recs|
  {
    if recs != [] {
      var init := recs[..|recs| - 1];
      var last := recs[|recs| - 1];
      assert UniquePaths(init) by {
        forall i, j | 0 <= i < j < |init| ensures init[i].path != init[j].path {
          assert init[i] == recs[i] && init[j] == recs[j];
        }
      }
      PdfFilesUnique(init);
      var ps := PdfFiles(init);
      forall i | 0 <= i < |ps| ensures ps[i].path != last.path {
        PdfFilesMembers(init, ps[i]);
        var j :| 0 <= j < |init| && init[j] == ps[i];
        assert init[j] == recs[j];
      }
    }
  }

  /** The collected entries are the entries of the ".pdf" files, one for one. */
  lemma {:induction false} PdfEntriesAsFiles(lib: Library, recs: seq<FileRec>)
    ensures |PdfEntries(lib, recs)| == |PdfFiles(recs)|
    ensures forall k :: 0 <= k < |PdfFiles(recs)| ==> PdfEntries(lib, recs)[k] == EntryOf(lib, PdfFiles(recs)[k])
    decreases |recs|
  {
    if recs != [] {
      PdfEntriesAsFiles(lib, recs[..|recs| - 1]);
    }
  }

  // ---------------------------------------------------------------------------
  // collectChangedFiles
  // ---------------------------------------------------------------------------

  /** The filter of collectChangedFiles: the base has no hash for the path (or an empty one), or a different one. */
  predicate Changed(e: FileEntry, base: map<string, string>)
    ensures !Changed(e, base) <==> e.path in base && base[e.path] != "" && base[e.path] == e.hash
  {
    e.path !in base || base[e.path] == "" || base[e.path] != e.hash
  }

  function ChangedOnly(files: seq<FileEntry>, base: map<string, string>): (r: seq<FileEntry>)
    ensures |r| <= |files|
  {
    if files == [] then []
    else
      var last := files[|files| - 1];
      ChangedOnly(files[..|files| - 1], base) + (if Changed(last, base) then [last] else [])
  }

  /** A delta carries exactly the collected files that changed with respect to the base. */
  lemma {:induction false} ChangedOnlyMembers(files: seq<FileEntry>, base: map<string, string>, e: FileEntry)
    ensures e in ChangedOnly(files, base) <==> e in files && Changed(e, base)
    decreases |files|
  {
    if files != [] {
      var init := files[..|files| - 1];
      ChangedOnlyMembers(init, base, e);
      assert files == init + [files[|files| - 1]];
    }
  }

  datatype BuildError = Unreadable(path: string) | NoBaseHashTree | ManifestTooLarge

  /** The files and hash tree collectChangedFiles leaves behind: only changed files, but the hash tree of every collected file. */
  datatype Collection = Collection(files: seq<FileEntry>, hashTree: map<string, string>)

  /**
   * collectChangedFiles: collects the whole tree, then keeps the changed files.
   * Looking up `baseManifest.hash_tree[path]` throws when the base has no hash
   * tree and there is at least one file to look up.
   */
  method CollectChangedFiles(lib: Library, source: seq<Node>, base: Manifest) returns (r: Result<Collection, BuildError>)
    ensures var all := Collected(lib, source, "");
            r == if base.hashTree.None? && all != [] then Err(NoBaseHashTree)
                 else Ok(Collection(ChangedOnly(all, base.hashTree.GetOr(map[])), AddHashes(map[], all)))
  {
    var files, hashTree := CollectFiles(lib, source, "", [], map[]);
    assert files == Collected(lib, source, "");
    if base.hashTree.None? && files != [] {
      return Err(NoBaseHashTree);
    }
    r := Ok(Collection(ChangedOnly(files, base.hashTree.GetOr(map[])), hashTree));
  }

  // ---------------------------------------------------------------------------
  // buildPackage
  // ---------------------------------------------------------------------------

  /** `Buffer.concat(chunks)` */
  function Concat(blobs: seq<Bytes>): Bytes {
    if blobs == [] then [] else Concat(blobs[..|blobs| - 1]) + blobs[|blobs| - 1]
  }

  /** The entry after buildPackage set its flag, offset and compressed size. */
  function Place(e: FileEntry, offset: nat, blob: Bytes): (r: FileEntry)
    ensures r.path == e.path && r.size == e.size && r.hash == e.hash
    ensures r.compressed && r.offset == Some(offset) && r.compressedSize == Some(|blob|)
  {
    e.(compressed := true, offset := Some(offset), compressedSize := Some(|blob|))
  }

  /** Every entry placed at the running offset of the compressed blobs before it. */
  function Placed(files: seq<FileEntry>, blobs: seq<Bytes>): (r: seq<FileEntry>)
    requires |files| == |blobs|
    ensures |r| == |files|
  {
    if files == [] then []
    else
      var n := |files| - 1;
      Placed(files[..n], blobs[..n]) + [Place(files[n], |Concat(blobs[..n])|, blobs[n])]
  }

  /** The compressed contents of `files` read from the source tree, or the first path that cannot be read. */
  function Blobs(lib: Library, files: seq<FileEntry>, source: seq<Node>): (r: Result<seq<Bytes>, BuildError>)
    ensures r.Ok? ==> |r.value| == |files|
  {
    if files == [] then Ok([])
    else
      var n := |files| - 1;
      match Blobs(lib, files[..n], source)
      case Err(e) => Err(e)
      case Ok(init) =>
        match ReadSource(source, files[n].path)
        case None => Err(Unreadable(files[n].path))
        case Some(content) => Ok(init + [lib.compress(content)])
  }

  /** The build reads every file: blob k is file k compressed, and the build fails only on a path the tree does not have. */
  lemma {:induction false} BlobsMeaning(lib: Library, files: seq<FileEntry>, source: seq<Node>)
    ensures var r := Blobs(lib, files, source);
            r.Ok? ==> forall k :: 0 <= k < |files| ==>
              ReadSource(source, files[k].path).Some? && r.value[k] == lib.compress(ReadSource(source, files[k].path).value)
    ensures var r := Blobs(lib, files, source);
            r.Err? ==> (r.error.Unreadable? && ReadSource(source, r.error.path).None? &&
                        exists k :: 0 <= k < |files| && files[k].path == r.error.path)
    ensures (forall k :: 0 <= k < |files| ==> ReadSource(source, files[k].path).Some?) ==> Blobs(lib, files, source).Ok?
    decreases |files|
  {
    if files != [] {
      var n := |files| - 1;
      BlobsMeaning(lib, files[..n], source);
      assert forall k :: 0 <= k < n ==> files[..n][k] == files[k];
    }
  }

  lemma {:induction false} BlobsErrExtends(lib: Library, files: seq<FileEntry>, source: seq<Node>, i: nat)
    requires i <= |files| && Blobs(lib, files[..i], source).Err?
    ensures Blobs(lib, files, source) == Blobs(lib, files[..i], source)
    decreases |files| - i
  {
    if i < |files| {
      assert files[..i + 1][..i] == files[..i];
      BlobsErrExtends(lib, files, source, i + 1);
    } else {
      assert files[..i] == files;
    }
  }

  /** The data section and the entries describing it. */
  datatype Built = Built(entries: seq<FileEntry>, data: Bytes)

  function Build(lib: Library, files: seq<FileEntry>, source: seq<Node>): (r: Result<Built, BuildError>)
    ensures r.Ok? <==> Blobs(lib, files, source).Ok?
    ensures r.Err? ==> r.error == Blobs(lib, files, source).error
    ensures r.Ok? ==> |r.value.entries| == |files|
    ensures r.Ok? ==> var blobs := Blobs(lib, files, source).value;
              forall k :: 0 <= k < |files| ==> r.value.entries[k] == Place(files[k], |Concat(blobs[..k])|, blobs[k])
  {
    match Blobs(lib, files, source)
    case Err(e) => Err(e)
    case Ok(blobs) =>
      PlacedEvery(files, blobs);
      Ok(Built(Placed(files, blobs), Concat(blobs)))
  }

  /** The state of buildPackage's loop after the first i files: their blobs, their entries and the next offset. */
  predicate BuiltUpTo(lib: Library, files: seq<FileEntry>, source: seq<Node>, i: nat,
                      chunks: seq<Bytes>, entries: seq<FileEntry>, offset: int)
  {
    && i <= |files| && |chunks| == i
    && Blobs(lib, files[..i], source) == Ok(chunks)
    && entries == Placed(files[..i], chunks)
    && offset == |Concat(chunks)|
  }

  /** Reading and compressing one more file extends the blobs, the placed entries and the data section by that file. */
  lemma BuildStep(lib: Library, files: seq<FileEntry>, source: seq<Node>, i: nat, chunks: seq<Bytes>, content: Bytes,
                  entries: seq<FileEntry>, offset: int, c: Bytes)
    requires i < |files| && BuiltUpTo(lib, files, source, i, chunks, entries, offset)
    requires ReadSource(source, files[i].path) == Some(content) && c == lib.compress(content)
    ensures offset >= 0
    ensures BuiltUpTo(lib, files, source, i + 1, chunks + [c], entries + [Place(files[i], offset, c)], offset + |c|)
  {
    var next := chunks + [c];
    assert files[..i + 1][..i] == files[..i];
    assert next[..i] == chunks;
  }

  /**
   * buildPackage(files, manifest, sourceDir): reads and compresses each file in
   * turn, records where its blob starts and how long it is, and concatenates
   * the blobs; a file that cannot be read aborts the build.
   */
  method BuildPackage(lib: Library, files: seq<FileEntry>, source: seq<Node>) returns (r: Result<Built, BuildError>)
    ensures r == Build(lib, files, source)
  {
    var entries: seq<FileEntry> := [];
    var chunks: seq<Bytes> := [];
    var offset := 0;
    var i := 0;
    while i < |files|
      invariant BuiltUpTo(lib, files, source, i, chunks, entries, offset)
    {
      var fileData := ReadSource(source, files[i].path);
      if fileData.None? {
        assert files[..i + 1][..i] == files[..i];
        BlobsErrExtends(lib, files, source, i + 1);
        return Err(Unreadable(files[i].path));
      }
      var compressed := lib.compress(fileData.value);
      BuildStep(lib, files, source, i, chunks, fileData.value, entries, offset, compressed);
      entries := entries + [Place(files[i], offset, compressed)];
      chunks := chunks + [compressed];
      offset := offset + |compressed|;
      i := i + 1;
    }
    assert files[..i] == files;
    r := Ok(Built(entries, Concat(chunks)));
  }

  lemma {:induction false} ConcatPrefix(blobs: seq<Bytes>, k: nat)
    requires k <= |blobs|
    ensures |Concat(blobs[..k])| <= |Concat(blobs)|
    ensures Concat(blobs)[..|Concat(blobs[..k])|] == Concat(blobs[..k])
    decreases |blobs| - k
  {
    if k == |blobs| {
      assert blobs[..k] == blobs;
    } else {
      var n := |blobs| - 1;
      ConcatPrefix(blobs[..n], k);
      assert blobs[..n][..k] == blobs[..k];
    }
  }

  /** Entry k is placed at the total length of the blobs before it. */
  lemma {:induction false} PlacedAt(files: seq<FileEntry>, blobs: seq<Bytes>, k: int)
    requires |files| == |blobs| && 0 <= k < |files|
    ensures Placed(files, blobs)[k] == Place(files[k], |Concat(blobs[..k])|, blobs[k])
    decreases |files|
  {
    var n := |files| - 1;
    if k < n {
      PlacedAt(files[..n], blobs[..n], k);
      assert files[..n][k] == files[k] && blobs[..n][k] == blobs[k] && blobs[..n][..k] == blobs[..k];
    }
  }

  lemma PlacedEvery(files: seq<FileEntry>, blobs: seq<Bytes>)
    requires |files| == |blobs|
    ensures forall k :: 0 <= k < |files| ==> Placed(files, blobs)[k] == Place(files[k], |Concat(blobs[..k])|, blobs[k])
  {
    forall k | 0 <= k < |files| ensures Placed(files, blobs)[k] == Place(files[k], |Concat(blobs[..k])|, blobs[k]) {
      PlacedAt(files, blobs, k);
    }
  }

  /** Blob k sits in the concatenation right after the blobs before it. */
  lemma ConcatSlice(blobs: seq<Bytes>, k: int)
    requires 0 <= k < |blobs|
    ensures |Concat(blobs[..k])| + |blobs[k]| <= |Concat(blobs)|
    ensures Js.Slice(Concat(blobs), |Concat(blobs[..k])|, |Concat(blobs[..k])| + |blobs[k]|) == blobs[k]
  {
    ConcatPrefix(blobs, k + 1);
    var upto := blobs[..k + 1];
    assert upto[..|upto| - 1] == blobs[..k] && upto[|upto| - 1] == blobs[k];
    var pre := Concat(blobs[..k]);
    assert Concat(upto) == pre + blobs[k];
    SliceAfterPrefix(Concat(blobs), pre, blobs[k]);
  }

  /** When `pre + blob` starts `whole`, the slice after `pre` of `blob`'s length is `blob`. */
  lemma SliceAfterPrefix(whole: Bytes, pre: Bytes, blob: Bytes)
    requires |pre| + |blob| <= |whole| && whole[..|pre| + |blob|] == pre + blob
    ensures Js.Slice(whole, |pre|, |pre| + |blob|) == blob
  {
    assert whole[|pre|..|pre| + |blob|] == (pre + blob)[|pre|..];
    assert (pre + blob)[|pre|..] == blob;
  }

  /** The slice an entry's offset and size select, once they are known. */
  lemma SliceAt(data: Bytes, e: FileEntry, off: nat, blob: Bytes)
    requires e.offset == Some(off) && e.compressedSize == Some(|blob|)
    requires Js.Slice(data, off, off + |blob|) == blob
    ensures Js.Slice(data, OrZero(e.offset), OrZero(e.offset) + OrZero(e.compressedSize)) == blob
  {
  }

  /** The blob of file k sits in the data section exactly where its entry says. */
  lemma PlacedBlob(files: seq<FileEntry>, blobs: seq<Bytes>, k: int, data: Bytes, e: FileEntry)
    requires |files| == |blobs| && 0 <= k < |files|
    requires data == Concat(blobs) && e == Placed(files, blobs)[k]
    ensures e.path == files[k].path
    ensures Js.Slice(data, OrZero(e.offset), OrZero(e.offset) + OrZero(e.compressedSize)) == blobs[k]
  {
    var off := |Concat(blobs[..k])|;
    PlacedAt(files, blobs, k);
    assert OrZero(e.offset) == off && OrZero(e.compressedSize) == |blobs[k]|;
    ConcatSlice(blobs, k);
  }

  // ---------------------------------------------------------------------------
  // Manifests
  // ---------------------------------------------------------------------------

  /** `VERSION` */
  const FormatVersion: string := "1.0.0"

  /** `files.reduce((sum, f) => sum + f.size, 0)` */
  function TotalSize(files: seq<FileEntry>): int {
    if files == [] then 0 else TotalSize(files[..|files| - 1]) + files[|files| - 1].size
  }

  /** signPackage(data): the detached Ed25519 signature of the data section, as hex. */
  function SignPackage(lib: Library, keys: KeyPair, data: Bytes): (sig: string)
    ensures |sig| == 2 * |lib.sign(data, keys.secretKey)|
    ensures Sound(lib, keys) ==> lib.verify(data, HexDecode(sig), keys.publicKey)
  {
    HexRoundTrip(lib.sign(data, keys.secretKey));
    HexEncode(lib.sign(data, keys.secretKey))
  }

  /** The manifest savePackage writes, after buildPackage and signPackage filled in what they compute. */
  function PackageManifest(lib: Library, keys: KeyPair, kind: string, createdAt: string, c: Collection, b: Built, metadata: map<string, string>)
    : (m: Manifest)
    ensures m.version == FormatVersion && m.kind == kind && m.createdAt == createdAt && m.metadata == metadata
    ensures m.fileCount == |c.files| && m.totalSize == TotalSize(c.files) && m.compressedSize == |b.data|
    ensures m.hashTree == Some(c.hashTree) && m.fileEntries == Some(b.entries)
    ensures m.signature.Some? && (Sound(lib, keys) ==> lib.verify(b.data, HexDecode(m.signature.value), keys.publicKey))
  {
    Manifest(FormatVersion, kind, createdAt, TotalSize(c.files), |b.data|, |c.files|,
             Some(SignPackage(lib, keys, b.data)), Some(c.hashTree), Some(b.entries), metadata)
  }

  /** `{ company: 'DORIKO', ...metadata }`: the caller's keys win. */
  function FullMetadata(metadata: map<string, string>): map<string, string> {
    map["company" := "DORIKO"] + metadata
  }

  /** `{ company: 'DORIKO', base_version: baseManifest.created_at, ...metadata }` */
  function DeltaMetadata(base: Manifest, metadata: map<string, string>): map<string, string> {
    map["company" := "DORIKO", "base_version" := base.createdAt] + metadata
  }

  /** The bytes createFullPackage writes: every PDF of the tree, compressed, signed and framed. */
  function FullPackage(lib: Library, keys: KeyPair, source: seq<Node>, metadata: map<string, string>, createdAt: string)
    : (r: Result<Bytes, BuildError>)
    ensures Build(lib, Collected(lib, source, ""), source).Err? ==> r.Err? && r.error.Unreadable?
    ensures Build(lib, Collected(lib, source, ""), source).Err? ==> r == Err(Build(lib, Collected(lib, source, ""), source).error)
    ensures r.Ok? ==> && Build(lib, Collected(lib, source, ""), source).Ok?
                      && HasMagic(r.value) && Split(r.value).Some?
                      && Split(r.value).value.data == Build(lib, Collected(lib, source, ""), source).value.data
  {
    var files := Collected(lib, source, "");
    var c := Collection(files, AddHashes(map[], files));
    BlobsMeaning(lib, files, source);
    match Build(lib, files, source)
    case Err(e) => Err(e)
    case Ok(b) =>
      var json := lib.stringify(PackageManifest(lib, keys, "full", createdAt, c, b, FullMetadata(metadata)));
      match Frame(json, b.data)
      case None => Err(ManifestTooLarge)
      case Some(out) =>
        FrameSplitRoundTrip(json, b.data);
        Ok(out)
  }

  /** The bytes createDeltaPackage writes, or None when no file changed and nothing is written. */
  function DeltaPackage(lib: Library, keys: KeyPair, base: Manifest, source: seq<Node>, metadata: map<string, string>, createdAt: string)
    : (r: Result<Option<Bytes>, BuildError>)
    ensures base.hashTree.None? && Collected(lib, source, "") != [] ==> r == Err(NoBaseHashTree)
    ensures r.Ok? && r.value.None? ==> ChangedOnly(Collected(lib, source, ""), base.hashTree.GetOr(map[])) == []
    ensures (!(base.hashTree.None? && Collected(lib, source, "") != [])
             && ChangedOnly(Collected(lib, source, ""), base.hashTree.GetOr(map[])) == []) ==> r == Ok(None)
    ensures var files := ChangedOnly(Collected(lib, source, ""), base.hashTree.GetOr(map[]));
            (!(base.hashTree.None? && Collected(lib, source, "") != []) && files != [] && Build(lib, files, source).Err?) ==>
              r == Err(Build(lib, files, source).error)
    ensures r.Ok? && r.value.Some? ==>
              var files := ChangedOnly(Collected(lib, source, ""), base.hashTree.GetOr(map[]));
              && files != [] && Build(lib, files, source).Ok?
              && HasMagic(r.value.value) && Split(r.value.value).Some?
              && Split(r.value.value).value.data == Build(lib, files, source).value.data
  {
    var all := Collected(lib, source, "");
    if base.hashTree.None? && all != [] then Err(NoBaseHashTree)
    else
      var c := Collection(ChangedOnly(all, base.hashTree.GetOr(map[])), AddHashes(map[], all));
      if c.files == [] then Ok(None)
      else
        match Build(lib, c.files, source)
        case Err(e) => Err(e)
        case Ok(b) =>
          var json := lib.stringify(PackageManifest(lib, keys, "delta", createdAt, c, b, DeltaMetadata(base, metadata)));
          match Frame(json, b.data)
          case None => Err(ManifestTooLarge)
          case Some(out) =>
            FrameSplitRoundTrip(json, b.data);
            Ok(Some(out))
  }

  /**
   * Reading a full package back gives the manifest it was written with: the
   * format version, type "full", the count and total size of the collected
   * files, the data section's length as compressed size, the entries placed
   * over that data section, and the hash tree of all collected files.
   */
  lemma FullPackageReadsBack(lib: Library, keys: KeyPair, source: seq<Node>, metadata: map<string, string>, createdAt: string)
    requires Sound(lib, keys) && FullPackage(lib, keys, source, metadata, createdAt).Ok?
    ensures Blobs(lib, Collected(lib, source, ""), source).Ok?
    ensures var files := Collected(lib, source, "");
            var blobs := Blobs(lib, files, source).value;
            var s := Split(FullPackage(lib, keys, source, metadata, createdAt).value);
            && s.Some? && s.value.data == Concat(blobs) && lib.parse(s.value.manifestJson).Some?
            && var m := lib.parse(s.value.manifestJson).value;
               && m.version == FormatVersion && m.kind == "full" && m.metadata == FullMetadata(metadata)
               && m.fileCount == |files| && m.totalSize == TotalSize(files) && m.compressedSize == |Concat(blobs)|
               && m.fileEntries == Some(Placed(files, blobs)) && m.hashTree == Some(AddHashes(map[], files))
  {
    var files := Collected(lib, source, "");
    var c := Collection(files, AddHashes(map[], files));
    var b := Build(lib, files, source).value;
    var m := PackageManifest(lib, keys, "full", createdAt, c, b, FullMetadata(metadata));
    FrameSplitRoundTrip(lib.stringify(m), b.data);
  }
}
