/**
 * applyPackage and the steps it is made of: extractPackage, createBackup,
 * atomicSwap and rollback, as transitions of the directory map. The clock
 * readings `Date.now()` that name the backup and extraction directories are
 * parameters.
 */
module DrkApplier {
  import opened Wrappers
  import opened Bytes
  import opened DrkFormat
  import opened DrkDisk
  import opened DrkBuilder
  import opened DrkVerifier
  import Js

  datatype ApplyError =
    | VerificationFailed
    | Fs(fsError: FsError)
    | PackageUnreadable
    | Truncated
    | BadManifest
    | NoFileEntries
    | DecompressFailed(path: string)
    | NoHashTree
    | HashMismatch(path: string)
    | WriteFailed(path: string)

  /** The state after an operation, and whether it completed or threw. */
  datatype Step = Step(outcome: Outcome<ApplyError>, dirs: map<string, Tree>)

  // ---------------------------------------------------------------------------
  // Directory names
  // ---------------------------------------------------------------------------

  function BackupDir(target: string, now: nat): string {
    target + "_backup_" + Js.Decimal(now)
  }

  function ExtractDir(target: string, now: nat): string {
    target + "_extract_" + Js.Decimal(now)
  }

  function SwapDir(target: string): string {
    target + "_temp"
  }

  /** The target and the three directories derived from it are four different directories. */
  lemma DirNamesDistinct(target: string, now1: nat, now2: nat)
    ensures target != BackupDir(target, now1) && target != ExtractDir(target, now2) && target != SwapDir(target)
    ensures BackupDir(target, now1) != ExtractDir(target, now2) && BackupDir(target, now1) != SwapDir(target)
    ensures ExtractDir(target, now2) != SwapDir(target)
  {
    var n := |target|;
    assert BackupDir(target, now1)[n + 1] == 'b';
    assert ExtractDir(target, now2)[n + 1] == 'e';
    assert SwapDir(target)[n + 1] == 't';
  }

  // ---------------------------------------------------------------------------
  // extractPackage
  // ---------------------------------------------------------------------------

  /**
   * `mkdir(dirname(outputPath), { recursive: true })` and
   * `writeFile(outputPath, content)` with `outputPath = path.join(tempDir, p)`,
   * seen from the extraction directory `t`. The file lands on the resolved
   * path; a path ending in '/', one resolving to the directory itself and one
   * blocked by a file or directory already there make the write throw; a path
   * climbing out of the directory leaves it unchanged.
   */
  function WriteEntry(t: Tree, p: string, content: Bytes): (r: Result<Tree, ApplyError>)
    ensures r.Ok? ==> t.Keys <= r.value.Keys && forall q :: q in r.value && q !in t ==> Js.NormalPath(q)
    ensures r.Ok? ==> forall q :: q in t ==> r.value[q] == t[q] || Js.NormalPath(q)
  {
    if Js.EndsWith(p, "/") then Err(WriteFailed(p))
    else
      match Js.Resolve(p)
      case None => Ok(t)
      case Some(segs) =>
        var key := Js.JoinSegments(segs);
        if segs == [] || Blocked(t, key) then Err(WriteFailed(p))
        else
          Js.ResolvedIsNormal(segs);
          Ok(t[key := content])
  }

  /**
   * One iteration of the extraction loop: slice the blob at `offset || 0` of
   * length `compressedSize || 0`, decompress it, write it, and compare its hash
   * with `hash_tree[path]`; an absent hash counts as a mismatch.
   */
  function ExtractEntry(lib: Library, hashTree: Option<map<string, string>>, data: Bytes, e: FileEntry, t: Tree): (r: Result<Tree, ApplyError>)
    ensures r.Ok? ==> hashTree.Some? && e.path in hashTree.value
    ensures r.Ok? ==> t.Keys <= r.value.Keys && forall q :: q in r.value && q !in t ==> Js.NormalPath(q)
  {
    var blob := Js.Slice(data, OrZero(e.offset), OrZero(e.offset) + OrZero(e.compressedSize));
    match lib.decompress(blob)
    case None => Err(DecompressFailed(e.path))
    case Some(content) =>
      match WriteEntry(t, e.path, content)
      case Err(err) => Err(err)
      case Ok(written) =>
        if hashTree.None? then Err(NoHashTree)
        else if e.path !in hashTree.value || hashTree.value[e.path] != lib.sha256(content) then Err(HashMismatch(e.path))
        else Ok(written)
  }

  /** The extraction loop over `file_entries`, stopping at the first entry that fails. */
  function Unpack(lib: Library, hashTree: Option<map<string, string>>, data: Bytes, entries: seq<FileEntry>, t0: Tree)
    : (r: Result<Tree, ApplyError>)
    ensures r.Ok? ==> t0.Keys <= r.value.Keys
    ensures r.Ok? ==> forall k :: 0 <= k < |entries| ==> hashTree.Some? && entries[k].path in hashTree.value
  {
    if entries == [] then Ok(t0)
    else
      var init := entries[..|entries| - 1];
      match Unpack(lib, hashTree, data, init, t0)
      case Err(e) => Err(e)
      case Ok(t) =>
        assert forall k :: 0 <= k < |init| ==> init[k] == entries[k];
        ExtractEntry(lib, hashTree, data, entries[|entries| - 1], t)
  }

  /** Once an entry fails, the loop's outcome is that failure. */
  lemma {:induction false} UnpackErrExtends(lib: Library, hashTree: Option<map<string, string>>, data: Bytes, entries: seq<FileEntry>, t0: Tree, i: nat)
    requires i <= |entries| && Unpack(lib, hashTree, data, entries[..i], t0).Err?
    ensures Unpack(lib, hashTree, data, entries, t0) == Unpack(lib, hashTree, data, entries[..i], t0)
    decreases |entries| - i
  {
    if i < |entries| {
      assert entries[..i + 1][..i] == entries[..i];
      UnpackErrExtends(lib, hashTree, data, entries, t0, i + 1);
    } else {
      assert entries[..i] == entries;
    }
  }

  /** One more iteration of the loop: its outcome, which is the final outcome when it fails. */
  lemma UnpackNext(lib: Library, hashTree: Option<map<string, string>>, data: Bytes, entries: seq<FileEntry>, t0: Tree, i: nat, t: Tree)
    requires i < |entries| && Unpack(lib, hashTree, data, entries[..i], t0) == Ok(t)
    ensures Unpack(lib, hashTree, data, entries[..i + 1], t0) == ExtractEntry(lib, hashTree, data, entries[i], t)
    ensures ExtractEntry(lib, hashTree, data, entries[i], t).Err? ==>
              Unpack(lib, hashTree, data, entries, t0) == ExtractEntry(lib, hashTree, data, entries[i], t)
  {
    assert entries[..i + 1][..i] == entries[..i];
    if ExtractEntry(lib, hashTree, data, entries[i], t).Err? {
      UnpackErrExtends(lib, hashTree, data, entries, t0, i + 1);
    }
  }

  /** A path that climbs out of the extraction directory adds nothing to it: the file is written elsewhere. */
  lemma EscapingWriteAddsNothing(t: Tree, p: string, content: Bytes)
    requires Js.Resolve(p).None? && !Js.EndsWith(p, "/")
    ensures WriteEntry(t, p, content) == Ok(t)
  {
  }

  /** Whatever the entries say, extraction only adds normal relative paths to the directory and drops none. */
  lemma {:induction false} UnpackNormal(lib: Library, hashTree: Option<map<string, string>>, data: Bytes, entries: seq<FileEntry>, t0: Tree)
    ensures var u := Unpack(lib, hashTree, data, entries, t0);
            u.Ok? ==> t0.Keys <= u.value.Keys && forall q :: q in u.value && q !in t0 ==> Js.NormalPath(q)
  {
    if entries != [] {
      UnpackNormal(lib, hashTree, data, entries[..|entries| - 1], t0);
    }
  }

  datatype Opened = Opened(manifest: Manifest, data: Bytes)

  /** `readUInt32LE(4)`, the manifest slice and `JSON.parse`, as extractPackage does them (no magic check). */
  function Open(lib: Library, pkg: Bytes): Result<Opened, ApplyError> {
    match Split(pkg)
    case None => Err(Truncated)
    case Some(s) =>
      match lib.parse(s.manifestJson)
      case None => Err(BadManifest)
      case Some(m) => Ok(Opened(m, s.data))
  }

  /** The directories outside `touched` are exactly as they were: none appears, none goes, none changes. */
  predicate Untouched(before: map<string, Tree>, after: map<string, Tree>, touched: set<string>) {
    && (forall k :: k !in touched && k in after ==> k in before)
    && (forall k :: k !in touched && k in before ==> k in after && after[k] == before[k])
  }

  lemma UntouchedChain(a: map<string, Tree>, b: map<string, Tree>, c: map<string, Tree>, s: set<string>, t: set<string>, u: set<string>)
    requires Untouched(a, b, s) && Untouched(b, c, t) && s <= u && t <= u
    ensures Untouched(a, c, u)
  {
  }

  /** What the extraction directory holds after the loop, starting from `t0`. */
  function Contents(lib: Library, o: Opened, t0: Tree): Result<Tree, ApplyError> {
    if o.manifest.fileEntries.None? then Err(NoFileEntries)
    else Unpack(lib, o.manifest.hashTree, o.data, o.manifest.fileEntries.value, t0)
  }

  /** What a package installs: its entries extracted into an empty directory. */
  function PackageTree(lib: Library, pkg: Bytes): Result<Tree, ApplyError> {
    match Open(lib, pkg)
    case Err(e) => Err(e)
    case Ok(o) => Contents(lib, o, map[])
  }

  /** Any package, signed or not, installs only normal relative paths: no "..", ".", empty segment or leading '/'. */
  lemma PackageTreeNormal(lib: Library, pkg: Bytes)
    ensures PackageTree(lib, pkg).Ok? ==> forall q :: q in PackageTree(lib, pkg).value ==> Js.NormalPath(q)
  {
    if Open(lib, pkg).Ok? {
      var m := Open(lib, pkg).value.manifest;
      if m.fileEntries.Some? {
        UnpackNormal(lib, m.hashTree, Open(lib, pkg).value.data, m.fileEntries.value, map[]);
      }
    }
  }

  /**
   * extractPackage(packagePath, targetDir): read and open the package, then
   * extract it through the directory `ExtractDir(target, now)`; `reached` is
   * what the final `cp` comes to before a clash (see `CopyAborted`).
   */
  function Extract(lib: Library, files: map<string, Bytes>, dirs: map<string, Tree>, pkgPath: string, target: string, now: nat,
                   reached: set<string>): (r: Step)
    ensures Untouched(dirs, r.dirs, {target, ExtractDir(target, now)})
    ensures ExtractDir(target, now) !in dirs ==> ExtractDir(target, now) !in r.dirs
    ensures pkgPath !in files ==> r == Step(Fail(PackageUnreadable), dirs)
  {
    if pkgPath !in files then Step(Fail(PackageUnreadable), dirs)
    else
      match Open(lib, files[pkgPath])
      case Err(e) => Step(Fail(e), dirs)
      case Ok(o) => ExtractVia(lib, o, dirs, ExtractDir(target, now), target, reached)
  }

  /**
   * The rest of extractPackage: extract into `temp`, merge it into the target,
   * and remove `temp` whether or not the loop succeeded.
   */
  function ExtractVia(lib: Library, o: Opened, dirs: map<string, Tree>, temp: string, target: string, reached: set<string>): (r: Step)
    ensures Untouched(dirs, r.dirs, {target, temp})
    ensures temp !in r.dirs
  {
    var d1 := MakeDir(dirs, temp);
    match Contents(lib, o, d1[temp])
    case Err(e) => Step(Fail(e), d1 - {temp})
    case Ok(t) =>
      var d2 := d1[temp := t];
      match CopyDir(d2, temp, target)
      case Err(e) => Step(Fail(Fs(e)), CopyAborted(d2, temp, target, reached) - {temp})
      case Ok(d3) => Step(Pass, d3 - {temp})
  }

  /**
   * createBackup(targetDir, backupDir). It can fail part-way only into an
   * existing backup directory; the files copied by then stay there.
   */
  function Backup(dirs: map<string, Tree>, target: string, backup: string, reached: set<string>): (r: Step)
    ensures r.outcome.Pass? <==> target in dirs && !(backup in dirs && Clashes(dirs[backup], dirs[target]))
    ensures r.outcome.Fail? ==> r.dirs.Keys == dirs.Keys
    ensures r.outcome.Fail? && (target !in dirs || reached == {}) ==> r.dirs == dirs
    ensures Untouched(dirs, r.dirs, {backup})
  {
    match CopyDir(dirs, target, backup)
    case Err(e) => Step(Fail(Fs(e)), CopyAborted(dirs, target, backup, reached))
    case Ok(d) => Step(Pass, d)
  }

  /** atomicSwap(targetDir, backupDir): the target moves aside, the backup takes its place, the moved target is removed. */
  function Swap(dirs: map<string, Tree>, target: string, backup: string): (r: Step)
    ensures Untouched(dirs, r.dirs, {target, backup, SwapDir(target)})
    ensures target !in dirs ==> r == Step(Fail(Fs(NotFound(target))), dirs)
  {
    var aside := SwapDir(target);
    match RenameDir(dirs, target, aside)
    case Err(e) => Step(Fail(Fs(e)), dirs)
    case Ok(d1) =>
      match RenameDir(d1, backup, target)
      case Err(e) => Step(Fail(Fs(e)), d1)
      case Ok(d2) =>
        match RemoveDir(d2, aside)
        case Err(e) => Step(Fail(Fs(e)), d2)
        case Ok(d3) => Step(Pass, d3)
  }

  /** rollback(targetDir, backupDir): when the backup exists, the target is removed and the backup renamed to it. */
  function Rollback(dirs: map<string, Tree>, target: string, backup: string): (r: Step)
    ensures backup !in dirs ==> r == Step(Pass, dirs)
    ensures backup in dirs && target !in dirs ==> r == Step(Fail(Fs(NotFound(target))), dirs)
    ensures Untouched(dirs, r.dirs, {target, backup})
  {
    if backup !in dirs then Step(Pass, dirs)
    else
      match RemoveDir(dirs, target)
      case Err(e) => Step(Fail(Fs(e)), dirs)
      case Ok(d1) =>
        match RenameDir(d1, backup, target)
        case Err(e) => Step(Fail(Fs(e)), d1)
        case Ok(d2) => Step(Pass, d2)
  }

  /** The catch block of applyPackage: roll back, and rethrow the original error unless the rollback threw its own. */
  function Recover(failed: Step, target: string, backup: string): (r: Step)
    requires failed.outcome.Fail?
    ensures r.outcome.Fail?
    ensures Untouched(failed.dirs, r.dirs, {target, backup})
  {
    var rb := Rollback(failed.dirs, target, backup);
    Step(if rb.outcome.Fail? then rb.outcome else failed.outcome, rb.dirs)
  }

  /** The try block of applyPackage after the backup, as written: extract, swap, and recover from whichever throws. */
  function Finish(x: Step, target: string, backup: string): (r: Step)
    ensures x.outcome.Fail? ==> r.outcome.Fail?
    ensures Untouched(x.dirs, r.dirs, {target, backup, SwapDir(target)})
  {
    if x.outcome.Fail? then Recover(x, target, backup)
    else
      var s := Swap(x.dirs, target, backup);
      if s.outcome.Fail? then
        var r := Recover(s, target, backup);
        UntouchedChain(x.dirs, s.dirs, r.dirs, {target, backup, SwapDir(target)}, {target, backup}, {target, backup, SwapDir(target)});
        r
      else s
  }

  /** applyPackage(packagePath, targetDir) as written. */
  function Apply(lib: Library, publicKey: Bytes, files: map<string, Bytes>, dirs: map<string, Tree>,
                 pkgPath: string, target: string, now1: nat, now2: nat,
                 reached1: set<string>, reached2: set<string>): (r: Step)
    ensures Untouched(dirs, r.dirs, {target, BackupDir(target, now1), ExtractDir(target, now2), SwapDir(target)})
  {
    if !VerifyFile(lib, publicKey, files, pkgPath) then Step(Fail(VerificationFailed), dirs)
    else
      var backup := BackupDir(target, now1);
      var b := Backup(dirs, target, backup, reached1);
      if b.outcome.Fail? then b
      else
        var x := Extract(lib, files, b.dirs, pkgPath, target, now2, reached2);
        var r := Finish(x, target, backup);
        var all := {target, backup, ExtractDir(target, now2), SwapDir(target)};
        UntouchedChain(dirs, b.dirs, x.dirs, {backup}, {target, ExtractDir(target, now2)}, all);
        UntouchedChain(dirs, x.dirs, r.dirs, all, {target, backup, SwapDir(target)}, all);
        r
  }

  /** The evidently intended end of the try block: once extraction succeeded the backup is discarded and the target kept. */
  function FinishCorrected(x: Step, target: string, backup: string): (r: Step)
    ensures x.outcome.Fail? ==> r.outcome.Fail?
    ensures Untouched(x.dirs, r.dirs, {target, backup})
  {
    if x.outcome.Fail? then Recover(x, target, backup)
    else
      match RemoveDir(x.dirs, backup)
      case Err(e) => Recover(Step(Fail(Fs(e)), x.dirs), target, backup)
      case Ok(d) => Step(Pass, d)
  }

  /** applyPackage with the corrected swap. */
  function ApplyCorrected(lib: Library, publicKey: Bytes, files: map<string, Bytes>, dirs: map<string, Tree>,
                          pkgPath: string, target: string, now1: nat, now2: nat,
                          reached1: set<string>, reached2: set<string>): (r: Step)
    ensures Untouched(dirs, r.dirs, {target, BackupDir(target, now1), ExtractDir(target, now2)})
  {
    if !VerifyFile(lib, publicKey, files, pkgPath) then Step(Fail(VerificationFailed), dirs)
    else
      var backup := BackupDir(target, now1);
      var b := Backup(dirs, target, backup, reached1);
      if b.outcome.Fail? then b
      else
        var x := Extract(lib, files, b.dirs, pkgPath, target, now2, reached2);
        var r := FinishCorrected(x, target, backup);
        var all := {target, backup, ExtractDir(target, now2)};
        UntouchedChain(dirs, b.dirs, x.dirs, {backup}, {target, ExtractDir(target, now2)}, all);
        UntouchedChain(dirs, x.dirs, r.dirs, all, {target, backup}, all);
        r
  }

  // ---------------------------------------------------------------------------
  // Properties
  // ---------------------------------------------------------------------------

  /** A package that does not verify is never applied: the call fails and nothing changes. */
  lemma ApplyRequiresVerification(lib: Library, publicKey: Bytes, files: map<string, Bytes>, dirs: map<string, Tree>,
                                  pkgPath: string, target: string, now1: nat, now2: nat,
    reached1: set<string>, reached2: set<string>)
    requires !VerifyFile(lib, publicKey, files, pkgPath)
    ensures Apply(lib, publicKey, files, dirs, pkgPath, target, now1, now2, reached1, reached2) == Step(Fail(VerificationFailed), dirs)
    ensures ApplyCorrected(lib, publicKey, files, dirs, pkgPath, target, now1, now2, reached1, reached2) == Step(Fail(VerificationFailed), dirs)
  {
  }

  /** The effect of a successful extraction: the extraction directory is gone and the extracted files are merged into the target. */
  lemma ExtractPass(lib: Library, files: map<string, Bytes>, dirs: map<string, Tree>, pkgPath: string, target: string, now: nat,
    reached: set<string>)
    requires target in dirs && ExtractDir(target, now) !in dirs
    requires Extract(lib, files, dirs, pkgPath, target, now, reached).outcome.Pass?
    ensures pkgPath in files && PackageTree(lib, files[pkgPath]).Ok?
    ensures Extract(lib, files, dirs, pkgPath, target, now, reached).dirs == dirs[target := dirs[target] + PackageTree(lib, files[pkgPath]).value]
    ensures !Clashes(dirs[target], PackageTree(lib, files[pkgPath]).value)
    ensures forall q :: q in PackageTree(lib, files[pkgPath]).value ==> Js.NormalPath(q)
  {
    DirNamesDistinct(target, 0, now);
    PackageTreeNormal(lib, files[pkgPath]);
    ExtractPassSteps(lib, files, dirs, pkgPath, target, now, reached);
    MergeFresh(dirs, ExtractDir(target, now), target, PackageTree(lib, files[pkgPath]).value);
  }

  /** Copying a fresh directory into an existing one and removing it again merges it in, and the copy was free of clashes. */
  lemma MergeFresh(dirs: map<string, Tree>, temp: string, target: string, t: Tree)
    requires target in dirs && temp !in dirs && temp != target
    requires CopyDir(dirs[temp := t], temp, target).Ok?
    ensures CopyDir(dirs[temp := t], temp, target).value - {temp} == dirs[target := dirs[target] + t]
    ensures !Clashes(dirs[target], t)
  {
    var d2 := dirs[temp := t];
    assert d2[target] == dirs[target] && d2[temp] == t;
    var d3 := d2[target := dirs[target] + t];
    assert CopyDir(d2, temp, target).value == d3;
    assert d3 - {temp} == dirs[target := dirs[target] + t];
  }

  /** A passing extraction opened the package, filled the fresh extraction directory, and copied it to the target. */
  lemma ExtractPassSteps(lib: Library, files: map<string, Bytes>, dirs: map<string, Tree>, pkgPath: string, target: string, now: nat,
    reached: set<string>)
    requires ExtractDir(target, now) !in dirs
    requires Extract(lib, files, dirs, pkgPath, target, now, reached).outcome.Pass?
    ensures pkgPath in files && PackageTree(lib, files[pkgPath]).Ok?
    ensures var d2 := dirs[ExtractDir(target, now) := PackageTree(lib, files[pkgPath]).value];
            && CopyDir(d2, ExtractDir(target, now), target).Ok?
            && Extract(lib, files, dirs, pkgPath, target, now, reached).dirs == CopyDir(d2, ExtractDir(target, now), target).value - {ExtractDir(target, now)}
  {
    var temp := ExtractDir(target, now);
    ExtractOpens(lib, files, dirs, pkgPath, target, now, reached);
    var o := Open(lib, files[pkgPath]).value;
    ViaPassed(lib, o, dirs, temp, target, reached);
    MakeFresh(dirs, temp);
    FreshFilled(dirs, temp, Contents(lib, o, map[]).value);
  }

  /** An extraction that did not fail read and opened the package. */
  lemma ExtractOpens(lib: Library, files: map<string, Bytes>, dirs: map<string, Tree>, pkgPath: string, target: string, now: nat,
    reached: set<string>)
    requires Extract(lib, files, dirs, pkgPath, target, now, reached).outcome.Pass?
    ensures pkgPath in files && Open(lib, files[pkgPath]).Ok?
    ensures Extract(lib, files, dirs, pkgPath, target, now, reached) == ExtractVia(lib, Open(lib, files[pkgPath]).value, dirs, ExtractDir(target, now), target, reached)
  {
  }

  /** What a passing run of the extraction steps did. */
  lemma ViaPassed(lib: Library, o: Opened, dirs: map<string, Tree>, temp: string, target: string, reached: set<string>)
    requires ExtractVia(lib, o, dirs, temp, target, reached).outcome.Pass?
    ensures var d1 := MakeDir(dirs, temp);
            && Contents(lib, o, d1[temp]).Ok?
            && var d2 := d1[temp := Contents(lib, o, d1[temp]).value];
               && CopyDir(d2, temp, target).Ok?
               && ExtractVia(lib, o, dirs, temp, target, reached).dirs == CopyDir(d2, temp, target).value - {temp}
  {
  }

  /**
   * A failed extraction changes no directory but the target. An unreadable
   * package, a bad manifest or a failing entry change nothing; a `cp` that
   * clashes leaves in the target the package files it reached before the
   * clash, written over the old ones.
   */
  lemma ExtractFail(lib: Library, files: map<string, Bytes>, dirs: map<string, Tree>, pkgPath: string, target: string, now: nat,
    reached: set<string>)
    requires ExtractDir(target, now) !in dirs
    requires Extract(lib, files, dirs, pkgPath, target, now, reached).outcome.Fail?
    ensures !(pkgPath in files && PackageTree(lib, files[pkgPath]).Ok?) ==> Extract(lib, files, dirs, pkgPath, target, now, reached).dirs == dirs
    ensures pkgPath in files && PackageTree(lib, files[pkgPath]).Ok? ==>
              var t := PackageTree(lib, files[pkgPath]).value;
              && target in dirs && Clashes(dirs[target], t)
              && Extract(lib, files, dirs, pkgPath, target, now, reached).dirs == dirs[target := dirs[target] + CopiedBefore(dirs[target], t, reached)]
  {
    DirNamesDistinct(target, 0, now);
    var temp := ExtractDir(target, now);
    if pkgPath in files && Open(lib, files[pkgPath]).Ok? {
      var o := Open(lib, files[pkgPath]).value;
      assert PackageTree(lib, files[pkgPath]) == Contents(lib, o, map[]);
      assert Extract(lib, files, dirs, pkgPath, target, now, reached) == ExtractVia(lib, o, dirs, temp, target, reached);
      if Contents(lib, o, map[]).Ok? {
        CopyFailed(lib, o, dirs, temp, target, reached);
      } else {
        LoopFailed(lib, o, dirs, temp, target, reached);
      }
    }
  }

  /** A failing loop over the entries leaves the directories as they were. */
  lemma LoopFailed(lib: Library, o: Opened, dirs: map<string, Tree>, temp: string, target: string, reached: set<string>)
    requires temp !in dirs
    requires Contents(lib, o, map[]).Err?
    ensures ExtractVia(lib, o, dirs, temp, target, reached) == Step(Fail(Contents(lib, o, map[]).error), dirs)
  {
    MakeFresh(dirs, temp);
  }

  /** A failing `cp` of the filled extraction directory leaves the reached files in the target. */
  lemma CopyFailed(lib: Library, o: Opened, dirs: map<string, Tree>, temp: string, target: string, reached: set<string>)
    requires temp !in dirs && temp != target
    requires Contents(lib, o, map[]).Ok?
    requires ExtractVia(lib, o, dirs, temp, target, reached).outcome.Fail?
    ensures var t := Contents(lib, o, map[]).value;
            && target in dirs && Clashes(dirs[target], t)
            && ExtractVia(lib, o, dirs, temp, target, reached).dirs == dirs[target := dirs[target] + CopiedBefore(dirs[target], t, reached)]
  {
    CopyFailedSteps(lib, o, dirs, temp, target, reached);
    AbortFresh(dirs, temp, target, Contents(lib, o, map[]).value, reached);
  }

  /** When the entries unpack into a fresh directory, a failed extraction is a failed `cp` of that directory, which is then removed. */
  lemma CopyFailedSteps(lib: Library, o: Opened, dirs: map<string, Tree>, temp: string, target: string, reached: set<string>)
    requires temp !in dirs
    requires Contents(lib, o, map[]).Ok?
    requires ExtractVia(lib, o, dirs, temp, target, reached).outcome.Fail?
    ensures var d2 := dirs[temp := Contents(lib, o, map[]).value];
            && CopyDir(d2, temp, target).Err?
            && ExtractVia(lib, o, dirs, temp, target, reached).dirs == CopyAborted(d2, temp, target, reached) - {temp}
  {
    ViaFailed(lib, o, dirs, temp, target, reached);
    MakeFresh(dirs, temp);
    var t := Contents(lib, o, map[]).value;
    FreshFilled(dirs, temp, t);
  }

  /** Filling a directory just made fresh is adding it filled. */
  lemma FreshFilled(dirs: map<string, Tree>, temp: string, t: Tree)
    requires temp !in dirs
    ensures MakeDir(dirs, temp)[temp := t] == dirs[temp := t]
  {
  }

  /** Making a fresh directory adds it empty, and removing it again gives back the directories. */
  lemma MakeFresh(dirs: map<string, Tree>, temp: string)
    requires temp !in dirs
    ensures MakeDir(dirs, temp) == dirs[temp := map[]]
    ensures MakeDir(dirs, temp)[temp] == map[]
    ensures MakeDir(dirs, temp) - {temp} == dirs
  {
  }

  /** What a failing run of the extraction steps did: the loop failed, or the `cp` did. */
  lemma ViaFailed(lib: Library, o: Opened, dirs: map<string, Tree>, temp: string, target: string, reached: set<string>)
    requires ExtractVia(lib, o, dirs, temp, target, reached).outcome.Fail?
    ensures var d1 := MakeDir(dirs, temp);
            Contents(lib, o, d1[temp]).Err? ==> ExtractVia(lib, o, dirs, temp, target, reached).dirs == d1 - {temp}
    ensures var d1 := MakeDir(dirs, temp);
            Contents(lib, o, d1[temp]).Ok? ==>
              var d2 := d1[temp := Contents(lib, o, d1[temp]).value];
              && CopyDir(d2, temp, target).Err?
              && ExtractVia(lib, o, dirs, temp, target, reached).dirs == CopyAborted(d2, temp, target, reached) - {temp}
  {
  }

  /** A `cp` from a fresh directory that clashes, followed by the directory's removal, leaves the reached files in the target. */
  lemma AbortFresh(dirs: map<string, Tree>, temp: string, target: string, t: Tree, reached: set<string>)
    requires temp !in dirs && temp != target
    requires CopyDir(dirs[temp := t], temp, target).Err?
    ensures target in dirs && Clashes(dirs[target], t)
    ensures CopyAborted(dirs[temp := t], temp, target, reached) - {temp} == dirs[target := dirs[target] + CopiedBefore(dirs[target], t, reached)]
  {
    var d2 := dirs[temp := t];
    assert d2[temp] == t && d2[target] == dirs[target];
    var c := CopiedBefore(dirs[target], t, reached);
    if reached == {} {
      assert dirs[target] + c == dirs[target];
    }
    assert CopyAborted(d2, temp, target, reached) == d2[target := dirs[target] + c];
  }

  /** A backup of a fresh name holds a copy of the target and nothing else changes. */
  lemma BackupFresh(dirs: map<string, Tree>, target: string, backup: string, reached: set<string>)
    requires target in dirs && backup !in dirs
    ensures Backup(dirs, target, backup, reached) == Step(Pass, dirs[backup := dirs[target]])
  {
    assert map[] + dirs[target] == dirs[target];
  }

  /** The swap as written puts the backup in the target's place; it can only fail at its first rename, and then changes nothing. */
  lemma SwapEffect(d: map<string, Tree>, target: string, backup: string)
    requires target in d && backup in d
    requires target != backup && SwapDir(target) != backup && SwapDir(target) != target
    ensures Swap(d, target, backup).outcome.Pass? ==>
              var after := Swap(d, target, backup).dirs;
              target in after && after[target] == d[backup] && backup !in after
    ensures Swap(d, target, backup).outcome.Fail? ==> Swap(d, target, backup).dirs == d
  {
  }

  /** Rolling back with a backup of the target in place restores the target and removes the backup. */
  lemma RollbackRestores(dirs: map<string, Tree>, target: string, backup: string, saved: Tree)
    requires target != backup && backup in dirs && dirs[backup] == saved
    requires target in dirs
    ensures Rollback(dirs, target, backup) == Step(Pass, (dirs - {backup})[target := saved])
  {
  }

  /**
   * Finding: applyPackage as written reports success but leaves the target
   * exactly as it was before the call: the swap puts the backup, taken before
   * extraction, back in the target's place and deletes the extracted result.
   */
  lemma ApplyDiscardsPackage(lib: Library, publicKey: Bytes, files: map<string, Bytes>, dirs: map<string, Tree>,
                             pkgPath: string, target: string, now1: nat, now2: nat,
    reached1: set<string>, reached2: set<string>)
    requires BackupDir(target, now1) !in dirs && ExtractDir(target, now2) !in dirs
    requires Apply(lib, publicKey, files, dirs, pkgPath, target, now1, now2, reached1, reached2).outcome.Pass?
    ensures var after := Apply(lib, publicKey, files, dirs, pkgPath, target, now1, now2, reached1, reached2).dirs;
            target in after && after[target] == dirs[target] && BackupDir(target, now1) !in after
  {
    DirNamesDistinct(target, now1, now2);
    var backup := BackupDir(target, now1);
    BackupFresh(dirs, target, backup, reached1);
    var d1 := dirs[backup := dirs[target]];
    var x := Extract(lib, files, d1, pkgPath, target, now2, reached2);
    ExtractPass(lib, files, d1, pkgPath, target, now2, reached2);
    SwapEffect(x.dirs, target, backup);
  }

  /** The same package under the corrected apply: the target gains every file the package carries, and the backup is removed. */
  lemma ApplyCorrectedInstalls(lib: Library, publicKey: Bytes, files: map<string, Bytes>, dirs: map<string, Tree>,
                               pkgPath: string, target: string, now1: nat, now2: nat,
    reached1: set<string>, reached2: set<string>)
    requires BackupDir(target, now1) !in dirs && ExtractDir(target, now2) !in dirs
    requires ApplyCorrected(lib, publicKey, files, dirs, pkgPath, target, now1, now2, reached1, reached2).outcome.Pass?
    ensures pkgPath in files && PackageTree(lib, files[pkgPath]).Ok?
    ensures ApplyCorrected(lib, publicKey, files, dirs, pkgPath, target, now1, now2, reached1, reached2).dirs
            == dirs[target := dirs[target] + PackageTree(lib, files[pkgPath]).value]
  {
    DirNamesDistinct(target, now1, now2);
    var backup := BackupDir(target, now1);
    BackupFresh(dirs, target, backup, reached1);
    var d1 := dirs[backup := dirs[target]];
    var x := Extract(lib, files, d1, pkgPath, target, now2, reached2);
    assert ApplyCorrected(lib, publicKey, files, dirs, pkgPath, target, now1, now2, reached1, reached2) == FinishCorrected(x, target, backup);
    FinishCorrectedPass(x, target, backup);
    ExtractPass(lib, files, d1, pkgPath, target, now2, reached2);
    var t := PackageTree(lib, files[pkgPath]).value;
    assert x.dirs == d1[target := dirs[target] + t];
    DropFresh(dirs, target, dirs[target] + t, backup, dirs[target]);
  }

  /** Adding a fresh directory, changing another, then removing the fresh one is only the change. */
  lemma DropFresh(dirs: map<string, Tree>, k: string, v: Tree, spare: string, w: Tree)
    requires spare !in dirs && spare != k
    ensures dirs[spare := w][k := v] - {spare} == dirs[k := v]
  {
  }

  /** The corrected end of the try block passes only after a passing extraction, and then only drops the backup. */
  lemma FinishCorrectedPass(x: Step, target: string, backup: string)
    ensures FinishCorrected(x, target, backup).outcome.Pass? ==>
              x.outcome.Pass? && backup in x.dirs && FinishCorrected(x, target, backup) == Step(Pass, x.dirs - {backup})
  {
  }

  /** After a failure, applyPackage leaves the target as it found it, whichever step failed. */
  lemma ApplyFailureRestores(lib: Library, publicKey: Bytes, files: map<string, Bytes>, dirs: map<string, Tree>,
                             pkgPath: string, target: string, now1: nat, now2: nat,
    reached1: set<string>, reached2: set<string>)
    requires BackupDir(target, now1) !in dirs && ExtractDir(target, now2) !in dirs
    requires Apply(lib, publicKey, files, dirs, pkgPath, target, now1, now2, reached1, reached2).outcome.Fail?
    ensures var after := Apply(lib, publicKey, files, dirs, pkgPath, target, now1, now2, reached1, reached2).dirs;
            (target in after <==> target in dirs) && (target in dirs ==> after[target] == dirs[target])
  {
    DirNamesDistinct(target, now1, now2);
    var backup := BackupDir(target, now1);
    if VerifyFile(lib, publicKey, files, pkgPath) && target in dirs {
      BackupFresh(dirs, target, backup, reached1);
      var d1 := dirs[backup := dirs[target]];
      var x := Extract(lib, files, d1, pkgPath, target, now2, reached2);
      if x.outcome.Fail? {
        ExtractFail(lib, files, d1, pkgPath, target, now2, reached2);
        RollbackRestores(x.dirs, target, backup, dirs[target]);
      } else {
        ExtractPass(lib, files, d1, pkgPath, target, now2, reached2);
        SwapEffect(x.dirs, target, backup);
        RollbackRestores(x.dirs, target, backup, dirs[target]);
      }
    }
  }

  /** The corrected apply restores the target on failure too. */
  lemma ApplyCorrectedFailureRestores(lib: Library, publicKey: Bytes, files: map<string, Bytes>, dirs: map<string, Tree>,
                                      pkgPath: string, target: string, now1: nat, now2: nat,
    reached1: set<string>, reached2: set<string>)
    requires BackupDir(target, now1) !in dirs && ExtractDir(target, now2) !in dirs
    requires ApplyCorrected(lib, publicKey, files, dirs, pkgPath, target, now1, now2, reached1, reached2).outcome.Fail?
    ensures var after := ApplyCorrected(lib, publicKey, files, dirs, pkgPath, target, now1, now2, reached1, reached2).dirs;
            (target in after <==> target in dirs) && (target in dirs ==> after[target] == dirs[target])
  {
    DirNamesDistinct(target, now1, now2);
    var backup := BackupDir(target, now1);
    if VerifyFile(lib, publicKey, files, pkgPath) && target in dirs {
      BackupFresh(dirs, target, backup, reached1);
      var d1 := dirs[backup := dirs[target]];
      var x := Extract(lib, files, d1, pkgPath, target, now2, reached2);
      if x.outcome.Fail? {
        ExtractFail(lib, files, d1, pkgPath, target, now2, reached2);
        RollbackRestores(x.dirs, target, backup, dirs[target]);
      } else {
        ExtractPass(lib, files, d1, pkgPath, target, now2, reached2);
      }
    }
  }

  // ---------------------------------------------------------------------------
  // Round trip: building then extracting
  // ---------------------------------------------------------------------------

  /** Writing the files of `recs` one after another into `t0`. */
  function Install(t0: Tree, recs: seq<FileRec>): (t: Tree)
    ensures t.Keys == t0.Keys + set f | f in recs :: f.path
  {
    if recs == [] then t0
    else
      var last := recs[|recs| - 1];
      var t := Install(t0, recs[..|recs| - 1])[last.path := last.content];
      assert recs == recs[..|recs| - 1] + [last];
      t
  }

  /** With distinct paths every file ends up with its own content. */
  lemma {:induction false} InstallAt(t0: Tree, recs: seq<FileRec>, k: int)
    requires UniquePaths(recs) && 0 <= k < |recs|
    ensures Install(t0, recs)[recs[k].path] == recs[k].content
    decreases |recs|
  {
    if k < |recs| - 1 {
      var init := recs[..|recs| - 1];
      assert init[k] == recs[k];
      assert UniquePaths(init) by {
        forall i, j | 0 <= i < j < |init| ensures init[i].path != init[j].path {
          assert init[i] == recs[i] && init[j] == recs[j];
        }
      }
      InstallAt(t0, init, k);
    }
  }

  /** Hypotheses of the round trip: entry k describes file k, blob k is file k compressed, the hash tree is the entries'. */
  ghost predicate Describes(lib: Library, ps: seq<FileRec>, entries: seq<FileEntry>, blobs: seq<Bytes>, tree: map<string, string>) {
    && |entries| == |ps| && |blobs| == |ps|
    && UniquePaths(ps)
    && (forall k :: 0 <= k < |ps| ==> entries[k] == EntryOf(lib, ps[k]))
    && (forall k :: 0 <= k < |ps| ==> blobs[k] == lib.compress(ps[k].content))
    && tree == AddHashes(map[], entries)
  }

  /** Files that can be written one after the other into a directory: normal paths, none inside another. */
  predicate Installable(ps: seq<FileRec>) {
    (forall f :: f in ps ==> Js.NormalPath(f.path)) && NoFileAbove(ps)
  }

  lemma DescribedPathsUnique(lib: Library, ps: seq<FileRec>, entries: seq<FileEntry>, blobs: seq<Bytes>, tree: map<string, string>)
    requires Describes(lib, ps, entries, blobs, tree)
    ensures forall i, j :: 0 <= i < j < |entries| ==> entries[i].path != entries[j].path
  {
    forall i, j | 0 <= i < j < |entries| ensures entries[i].path != entries[j].path {
      assert entries[i].path == ps[i].path && entries[j].path == ps[j].path;
    }
  }

  /** A normal path that nothing blocks is written where it says. */
  lemma WriteNormal(t: Tree, p: string, content: Bytes)
    requires Js.NormalPath(p) && !Blocked(t, p)
    ensures WriteEntry(t, p, content) == Ok(t[p := content])
  {
    Js.ResolveNormal(p);
  }

  /** An entry with a normal, unblocked path whose blob decompresses to content with the recorded hash is written to its path. */
  lemma ExtractAt(lib: Library, tree: map<string, string>, data: Bytes, e: FileEntry, blob: Bytes, t: Tree, content: Bytes)
    requires Js.Slice(data, OrZero(e.offset), OrZero(e.offset) + OrZero(e.compressedSize)) == blob
    requires lib.decompress(blob) == Some(content)
    requires e.path in tree && tree[e.path] == lib.sha256(content)
    requires Js.NormalPath(e.path) && !Blocked(t, e.path)
    ensures ExtractEntry(lib, Some(tree), data, e, t) == Ok(t[e.path := content])
  {
    WriteNormal(t, e.path, content);
  }

  /** Placed entry k, whose blob decompresses to content with the recorded hash, is written to its path. */
  lemma ExtractOne(lib: Library, tree: map<string, string>, entries: seq<FileEntry>, blobs: seq<Bytes>, k: nat, t: Tree, content: Bytes,
                   data: Bytes, e: FileEntry)
    requires |entries| == |blobs| && k < |entries|
    requires data == Concat(blobs) && e == Placed(entries, blobs)[k]
    requires lib.decompress(blobs[k]) == Some(content)
    requires entries[k].path in tree && tree[entries[k].path] == lib.sha256(content)
    requires Js.NormalPath(entries[k].path) && !Blocked(t, entries[k].path)
    ensures ExtractEntry(lib, Some(tree), data, e, t) == Ok(t[entries[k].path := content])
  {
    PlacedBlob(entries, blobs, k, data, e);
    ExtractAt(lib, tree, data, e, blobs[k], t, content);
  }

  /** Entry k of a built package extracts to file k, when nothing in the directory blocks its path. */
  lemma ExtractPlaced(lib: Library, keys: KeyPair, ps: seq<FileRec>, entries: seq<FileEntry>, blobs: seq<Bytes>,
                      tree: map<string, string>, k: nat, t: Tree)
    requires Sound(lib, keys) && Describes(lib, ps, entries, blobs, tree) && k < |ps|
    requires Js.NormalPath(ps[k].path) && !Blocked(t, ps[k].path)
    ensures ExtractEntry(lib, Some(tree), Concat(blobs), Placed(entries, blobs)[k], t) == Ok(t[ps[k].path := ps[k].content])
  {
    var content := ps[k].content;
    assert entries[k] == EntryOf(lib, ps[k]) && blobs[k] == lib.compress(content);
    assert lib.decompress(blobs[k]) == Some(content);
    DescribedPathsUnique(lib, ps, entries, blobs, tree);
    AddHashesUnique(map[], entries, k);
    assert entries[k] in entries;
    ExtractOne(lib, tree, entries, blobs, k, t, content, Concat(blobs), Placed(entries, blobs)[k]);
  }

  /** Installing one more file is writing it over the installation of the ones before. */
  lemma InstallStep(t0: Tree, recs: seq<FileRec>, n: nat)
    requires 0 < n <= |recs|
    ensures Install(t0, recs[..n]) == Install(t0, recs[..n - 1])[recs[n - 1].path := recs[n - 1].content]
  {
    assert recs[..n][..n - 1] == recs[..n - 1];
  }

  /** No file installed so far blocks the next one, nor does anything the directory held before. */
  lemma InstallUnblocked(t0: Tree, ps: seq<FileRec>, k: nat)
    requires k < |ps| && NoFileAbove(ps) && !Blocked(t0, ps[k].path)
    ensures !Blocked(Install(t0, ps[..k]), ps[k].path)
  {
    var t := Install(t0, ps[..k]);
    var p := ps[k].path;
    forall q | q in t && q !in t0 ensures !Js.Under(p, q) && !Js.Under(q, p) {
      var f :| f in ps[..k] && f.path == q;
      assert f in ps && ps[k] in ps;
    }
  }

  lemma {:induction false} UnpackPlaced(lib: Library, keys: KeyPair, ps: seq<FileRec>, entries: seq<FileEntry>, blobs: seq<Bytes>,
                                        tree: map<string, string>, t0: Tree, n: nat)
    requires Sound(lib, keys) && Describes(lib, ps, entries, blobs, tree) && Installable(ps) && n <= |ps|
    requires forall f :: f in ps ==> !Blocked(t0, f.path)
    ensures Unpack(lib, Some(tree), Concat(blobs), Placed(entries, blobs)[..n], t0) == Ok(Install(t0, ps[..n]))
    decreases n
  {
    var placed := Placed(entries, blobs);
    if n == 0 {
      assert placed[..0] == [] && ps[..0] == [];
    } else {
      var k := n - 1;
      UnpackPlaced(lib, keys, ps, entries, blobs, tree, t0, k);
      var prev := Install(t0, ps[..k]);
      UnpackNext(lib, Some(tree), Concat(blobs), placed, t0, k, prev);
      assert ps[k] in ps;
      InstallUnblocked(t0, ps, k);
      ExtractPlaced(lib, keys, ps, entries, blobs, tree, k, prev);
      InstallStep(t0, ps, n);
    }
  }

  /** The build of a full package satisfies the round trip's hypotheses. */
  lemma FullBuildDescribes(lib: Library, source: seq<Node>)
    requires UniquePaths(Files(source, "")) && Blobs(lib, Collected(lib, source, ""), source).Ok?
    ensures var entries := Collected(lib, source, "");
            Describes(lib, PdfFiles(Files(source, "")), entries, Blobs(lib, entries, source).value, AddHashes(map[], entries))
  {
    var recs := Files(source, "");
    var ps := PdfFiles(recs);
    var entries := Collected(lib, source, "");
    PdfEntriesAsFiles(lib, recs);
    PdfFilesUnique(recs);
    var blobs := Blobs(lib, entries, source).value;
    BlobsMeaning(lib, entries, source);
    forall k | 0 <= k < |ps| ensures blobs[k] == lib.compress(ps[k].content) {
      PdfFilesMembers(recs, ps[k]);
      var j :| 0 <= j < |recs| && recs[j] == ps[k];
      LookupUnique(recs, j);
    }
  }

  /**
   * Building then extracting round-trips: when the walked tree is a real one
   * (readdir names, distinct paths, no file inside a file), the package
   * createFullPackage writes extracts, into any starting directory that
   * blocks none of its paths, to exactly the source's ".pdf" files with their
   * contents.
   */
  lemma FullPackageExtracts(lib: Library, keys: KeyPair, source: seq<Node>, metadata: map<string, string>, createdAt: string, t0: Tree)
    requires Sound(lib, keys) && UniquePaths(Files(source, "")) && WellNamed(source) && NoFileAbove(Files(source, ""))
    requires forall f :: f in Files(source, "") ==> !Blocked(t0, f.path)
    requires FullPackage(lib, keys, source, metadata, createdAt).Ok?
    ensures var pkg := FullPackage(lib, keys, source, metadata, createdAt).value;
            Open(lib, pkg).Ok? && Contents(lib, Open(lib, pkg).value, t0) == Ok(Install(t0, PdfFiles(Files(source, ""))))
  {
    var ps := PdfFiles(Files(source, ""));
    var entries := Collected(lib, source, "");
    var c := Collection(entries, AddHashes(map[], entries));
    var blobs := Blobs(lib, entries, source).value;
    FullBuildDescribes(lib, source);
    var b := Build(lib, entries, source).value;
    var m := PackageManifest(lib, keys, "full", createdAt, c, b, FullMetadata(metadata));
    FrameSplitRoundTrip(lib.stringify(m), b.data);
    FilesNormal(source, "");
    forall f | f in ps ensures f in Files(source, "") {
      PdfFilesMembers(Files(source, ""), f);
    }
    UnpackPlaced(lib, keys, ps, entries, blobs, c.hashTree, t0, |ps|);
    assert Placed(entries, blobs)[..|ps|] == Placed(entries, blobs);
    assert ps[..|ps|] == ps;
  }
}
