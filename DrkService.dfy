/**
 * DRKPackageService: the signing key pair it holds, and its operations as
 * methods over the file system. Each method is tied to the function of the
 * builder, verifier or applier that states what it does.
 */
module DrkService {
  import opened Wrappers
  import opened Bytes
  import opened DrkFormat
  import opened DrkDisk
  import opened DrkBuilder
  import opened DrkVerifier
  import opened DrkApplier
  import Js

  class DrkPackageService {
    const lib: Library
    /** The Ed25519 key pair generated when the service starts. */
    const keyPair: KeyPair
    const disk: Disk

    constructor (lib: Library, keyPair: KeyPair, disk: Disk)
      ensures this.lib == lib && this.keyPair == keyPair && this.disk == disk
    {
      this.lib := lib;
      this.keyPair := keyPair;
      this.disk := disk;
    }

    /** savePackage(outputPath, packageData, manifest) */
    method SavePackage(outputPath: string, data: Bytes, manifest: Manifest) returns (r: Outcome<BuildError>)
      modifies disk
      ensures Frame(lib.stringify(manifest), data).Some? ==>
                r == Pass && disk.files == old(disk.files)[outputPath := Frame(lib.stringify(manifest), data).value]
      ensures Frame(lib.stringify(manifest), data).None? ==> r == Fail(ManifestTooLarge) && disk.files == old(disk.files)
      ensures disk.dirs == old(disk.dirs)
    {
      var manifestBuffer := lib.stringify(manifest);
      if |manifestBuffer| >= U32Limit {
        return Fail(ManifestTooLarge);
      }
      var output := Magic + LE32(|manifestBuffer|) + manifestBuffer + data;
      disk.WriteFile(outputPath, output);
      r := Pass;
    }

    /** createFullPackage(sourceDir, outputPath, metadata) */
    method CreateFullPackage(source: seq<Node>, outputPath: string, metadata: map<string, string>, createdAt: string)
      returns (r: Outcome<BuildError>)
      modifies disk
      ensures FullPackage(lib, keyPair, source, metadata, createdAt).Ok? ==>
                r == Pass && disk.files == old(disk.files)[outputPath := FullPackage(lib, keyPair, source, metadata, createdAt).value]
      ensures FullPackage(lib, keyPair, source, metadata, createdAt).Err? ==>
                r == Fail(FullPackage(lib, keyPair, source, metadata, createdAt).error) && disk.files == old(disk.files)
      ensures disk.dirs == old(disk.dirs)
    {
      var files, hashTree := CollectFiles(lib, source, "", [], map[]);
      assert files == Collected(lib, source, "");
      var built := BuildPackage(lib, files, source);
      if built.Err? {
        return Fail(built.error);
      }
      var manifest := PackageManifest(lib, keyPair, "full", createdAt, Collection(files, hashTree), built.value, FullMetadata(metadata));
      r := SavePackage(outputPath, built.value.data, manifest);
    }

    /** createDeltaPackage(baseManifest, sourceDir, outputPath, metadata); nothing is written when no file changed. */
    method CreateDeltaPackage(base: Manifest, source: seq<Node>, outputPath: string, metadata: map<string, string>, createdAt: string)
      returns (r: Outcome<BuildError>)
      modifies disk
      ensures var spec := DeltaPackage(lib, keyPair, base, source, metadata, createdAt);
              (spec.Ok? && spec.value.Some? ==> r == Pass && disk.files == old(disk.files)[outputPath := spec.value.value])
              && (spec.Ok? && spec.value.None? ==> r == Pass && disk.files == old(disk.files))
              && (spec.Err? ==> r == Fail(spec.error) && disk.files == old(disk.files))
      ensures disk.dirs == old(disk.dirs)
    {
      var collection := CollectChangedFiles(lib, source, base);
      if collection.Err? {
        return Fail(collection.error);
      }
      var c := collection.value;
      if |c.files| == 0 {
        return Pass;
      }
      var built := BuildPackage(lib, c.files, source);
      if built.Err? {
        return Fail(built.error);
      }
      var manifest := PackageManifest(lib, keyPair, "delta", createdAt, c, built.value, DeltaMetadata(base, metadata));
      r := SavePackage(outputPath, built.value.data, manifest);
    }

    /** verifyPackage(packagePath) */
    method VerifyPackage(packagePath: string) returns (ok: bool)
      ensures ok == VerifyFile(lib, keyPair.publicKey, disk.files, packagePath)
    {
      var packageData := disk.ReadFile(packagePath);
      if packageData.None? {
        return false;
      }
      ok := VerifyBytes(lib, keyPair.publicKey, packageData.value);
    }

    /** One turn of extractPackage's loop: decompress the entry's slice, write it, check its hash. */
    method ExtractEntryStep(tempDir: string, manifest: Manifest, dataSection: Bytes, fileEntry: FileEntry) returns (r: Outcome<ApplyError>)
      requires tempDir in disk.dirs
      modifies disk
      ensures tempDir in disk.dirs && disk.dirs == old(disk.dirs)[tempDir := disk.dirs[tempDir]]
      ensures disk.files == old(disk.files)
      ensures var x := ExtractEntry(lib, manifest.hashTree, dataSection, fileEntry, old(disk.dirs)[tempDir]);
              (x.Ok? ==> r == Pass && disk.dirs[tempDir] == x.value) && (x.Err? ==> r == Fail(x.error))
    {
      var compressedData := Js.Slice(dataSection, OrZero(fileEntry.offset), OrZero(fileEntry.offset) + OrZero(fileEntry.compressedSize));
      var decompressed := lib.decompress(compressedData);
      if decompressed.None? {
        return Fail(DecompressFailed(fileEntry.path));
      }
      // outputPath = path.join(tempDir, fileEntry.path), then mkdir of its directory and writeFile
      if Js.EndsWith(fileEntry.path, "/") {
        return Fail(WriteFailed(fileEntry.path));
      }
      var resolved := Js.Resolve(fileEntry.path);
      var actualHash;
      if resolved.Some? {
        var key := Js.JoinSegments(resolved.value);
        if resolved.value == [] || Blocked(disk.dirs[tempDir], key) {
          return Fail(WriteFailed(fileEntry.path));
        }
        disk.WriteInto(tempDir, key, decompressed.value);
        actualHash := lib.sha256(disk.dirs[tempDir][key]);
      } else {
        // the file went outside the extraction directory and is read back from there
        actualHash := lib.sha256(decompressed.value);
      }
      if manifest.hashTree.None? {
        r := Fail(NoHashTree);
      } else if fileEntry.path !in manifest.hashTree.value || actualHash != manifest.hashTree.value[fileEntry.path] {
        r := Fail(HashMismatch(fileEntry.path));
      } else {
        r := Pass;
      }
    }

    /** The loop of extractPackage over `file_entries`, stopping at the first failure. */
    method ExtractEntries(tempDir: string, manifest: Manifest, dataSection: Bytes, entries: seq<FileEntry>) returns (r: Outcome<ApplyError>)
      requires tempDir in disk.dirs
      modifies disk
      ensures tempDir in disk.dirs && disk.dirs == old(disk.dirs)[tempDir := disk.dirs[tempDir]]
      ensures disk.files == old(disk.files)
      ensures var u := Unpack(lib, manifest.hashTree, dataSection, entries, old(disk.dirs)[tempDir]);
              (u.Ok? ==> r == Pass && disk.dirs[tempDir] == u.value) && (u.Err? ==> r == Fail(u.error))
    {
      ghost var t0 := disk.dirs[tempDir];
      r := Pass;
      var i := 0;
      while i < |entries| && r.Pass?
        invariant 0 <= i <= |entries|
        invariant tempDir in disk.dirs && disk.dirs == old(disk.dirs)[tempDir := disk.dirs[tempDir]]
        invariant disk.files == old(disk.files)
        invariant r.Pass? ==> Unpack(lib, manifest.hashTree, dataSection, entries[..i], t0) == Ok(disk.dirs[tempDir])
        invariant r.Fail? ==> Unpack(lib, manifest.hashTree, dataSection, entries, t0) == Err(r.error)
        decreases |entries| - i, if r.Pass? then 1 else 0
      {
        ghost var before := disk.dirs[tempDir];
        ghost var dirs := disk.dirs;
        UnpackNext(lib, manifest.hashTree, dataSection, entries, t0, i, before);
        r := ExtractEntryStep(tempDir, manifest, dataSection, entries[i]);
        UpdateTwice(old(disk.dirs), dirs, disk.dirs, tempDir);
        if r.Pass? {
          i := i + 1;
        }
      }
      if r.Pass? {
        assert entries[..i] == entries;
      }
    }

    /**
     * extractPackage(packagePath, targetDir), with `now` the clock reading that
     * names the extraction directory and `reached` what the final `cp` comes
     * to before a clash.
     */
    method ExtractPackage(packagePath: string, targetDir: string, now: nat, reached: set<string>) returns (r: Outcome<ApplyError>)
      modifies disk
      ensures Step(r, disk.dirs) == Extract(lib, old(disk.files), old(disk.dirs), packagePath, targetDir, now, reached)
      ensures disk.files == old(disk.files)
    {
      var packageData := disk.ReadFile(packagePath);
      if packageData.None? {
        return Fail(PackageUnreadable);
      }
      var parsed := Open(lib, packageData.value);
      if parsed.Err? {
        return Fail(parsed.error);
      }
      var manifest, dataSection := parsed.value.manifest, parsed.value.data;
      var tempDir := ExtractDir(targetDir, now);
      disk.MakeDirectory(tempDir);
      ghost var d1 := disk.dirs;
      ghost var copyFailed := false;
      if manifest.fileEntries.None? {
        r := Fail(NoFileEntries);
      } else {
        r := ExtractEntries(tempDir, manifest, dataSection, manifest.fileEntries.value);
        if r.Pass? {
          var copied := disk.Copy(tempDir, targetDir, reached);
          if copied.Fail? {
            copyFailed := true;
            r := Fail(Fs(copied.error));
          }
        }
      }
      // The finally block: the extraction directory exists at this point.
      if disk.DirExists(tempDir) {
        var removed := disk.Remove(tempDir);
      }
      if r.Fail? && !copyFailed {
        assert disk.dirs == d1 - {tempDir};
      }
    }

    /** createBackup(sourceDir, backupDir) */
    method CreateBackup(sourceDir: string, backupDir: string, reached: set<string>) returns (r: Outcome<ApplyError>)
      modifies disk
      ensures Step(r, disk.dirs) == Backup(old(disk.dirs), sourceDir, backupDir, reached)
      ensures disk.files == old(disk.files)
    {
      var copied := disk.Copy(sourceDir, backupDir, reached);
      r := if copied.Fail? then Fail(Fs(copied.error)) else Pass;
    }

    /** atomicSwap(targetDir, backupDir) */
    method AtomicSwap(targetDir: string, backupDir: string) returns (r: Outcome<ApplyError>)
      modifies disk
      ensures Step(r, disk.dirs) == Swap(old(disk.dirs), targetDir, backupDir)
      ensures disk.files == old(disk.files)
    {
      var tempDir := SwapDir(targetDir);
      var first := disk.Rename(targetDir, tempDir);
      if first.Fail? {
        return Fail(Fs(first.error));
      }
      var second := disk.Rename(backupDir, targetDir);
      if second.Fail? {
        return Fail(Fs(second.error));
      }
      var removed := disk.Remove(tempDir);
      r := if removed.Fail? then Fail(Fs(removed.error)) else Pass;
    }

    /** rollback(targetDir, backupDir) */
    method Rollback(targetDir: string, backupDir: string) returns (r: Outcome<ApplyError>)
      modifies disk
      ensures Step(r, disk.dirs) == DrkApplier.Rollback(old(disk.dirs), targetDir, backupDir)
      ensures disk.files == old(disk.files)
    {
      if !disk.DirExists(backupDir) {
        return Pass;
      }
      var removed := disk.Remove(targetDir);
      if removed.Fail? {
        return Fail(Fs(removed.error));
      }
      var renamed := disk.Rename(backupDir, targetDir);
      r := if renamed.Fail? then Fail(Fs(renamed.error)) else Pass;
    }

    /**
     * applyPackage(packagePath, targetDir), with `now1` and `now2` the clock
     * readings that name the backup and extraction directories, and
     * `reached1` and `reached2` what the two `cp` calls come to before a clash.
     */
    method ApplyPackage(packagePath: string, targetDir: string, now1: nat, now2: nat, reached1: set<string>, reached2: set<string>)
      returns (r: Outcome<ApplyError>)
      modifies disk
      ensures Step(r, disk.dirs) == Apply(lib, keyPair.publicKey, old(disk.files), old(disk.dirs), packagePath, targetDir, now1, now2, reached1, reached2)
      ensures disk.files == old(disk.files)
    {
      var verified := VerifyPackage(packagePath);
      if !verified {
        return Fail(VerificationFailed);
      }
      var backupDir := BackupDir(targetDir, now1);
      r := CreateBackup(targetDir, backupDir, reached1);
      if r.Fail? {
        return;
      }
      r := ExtractPackage(packagePath, targetDir, now2, reached2);
      if r.Pass? {
        r := AtomicSwap(targetDir, backupDir);
      }
      if r.Fail? {
        var rolledBack := Rollback(targetDir, backupDir);
        if rolledBack.Fail? {
          r := rolledBack;
        }
      }
    }
  }
}
