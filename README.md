# DRK document distribution: a verified model of its core

The repository distributes ship manuals as **DRK packages**. This project models its core in Dafny and proves properties of the model.

A DRK package is laid out as follows:

- the magic header `"DRK\0"`;
- a little-endian 32-bit manifest length;
- the manifest as JSON;
- a data section of Zstandard-compressed files placed back to back.

The detached Ed25519 signature in the manifest covers the data section only.

The back-end builds, verifies and applies these packages (`DRKPackageService`). It also keeps a store of package versions and chooses update paths (`VersionManagementService`). The Electron viewer validates a package before listing its documents. There are three smaller services:

- a collaboration session store for annotating documents together;
- vessel and certificate rules with fleet aggregates;
- a mock search over a fixed document list.

How the model is organised:

- **Library primitives.** SHA-256, Zstandard, Ed25519 (via tweetnacl) and JSON are fields of a `DrkFormat.Library` value that is passed in. What the code relies on them for is the ghost predicate `DrkFormat.Sound`. It says that decompression inverts compression, that a manifest survives `JSON.stringify`/`JSON.parse`, that signatures made with the service's key pair verify, and that a digest has 64 characters. Every lemma that needs these facts takes `Sound` as a hypothesis.
- **Disk.** The file system is a `DrkDisk.Disk` object. It has a map of files, for package files, and a map of directories, each a map from relative path to bytes. The service methods update it in place.
- **Stateful services.** Version management, collaboration and fleet become classes whose methods modify their fields. Each method is specified against a pure function of the old state, and the properties are proved about those functions.
- **Pure code.** The viewer checks, the entity getters and search stay functions.
- **Inputs from the environment.** Time, generated ids and the results of file-system calls that may fail are parameters.

Modules, in dependency order:

| module | models |
|---|---|
| `Wrappers`, `Seqs`, `Js`, `JsMaps`, `Bytes` | Option/Result; JavaScript's `filter`, `slice`, `includes`, `trim`, string comparison and `path` helpers; insertion-ordered `Map`; little-endian integers and `Buffer` hex |
| `DrkFormat` | manifest, file entry, the library's primitives, framing (`savePackage`/`verifyPackage` header) |
| `DrkBuilder` | `collectFiles`, `collectChangedFiles`, `buildPackage`, `createFullPackage`, `createDeltaPackage` |
| `DrkVerifier` | `verifyPackage` |
| `DrkDisk` | directory copy, rename, remove, mkdir |
| `DrkApplier` | `extractPackage`, `createBackup`, `atomicSwap`, `rollback`, `applyPackage` as functions over directory states |
| `DrkService` | the class `DRKPackageService` over a `Disk` |
| `Semver`, `VersionManagement` | SemVer 2.0.0 precedence (section 11), `VersionManagementService` |
| `Viewer` | the IPC handlers `read-package-info`, `extract-package-documents`, `extract-pdf-file` |
| `Collaboration` | `CollaborationService` |
| `FleetEntities`, `Fleet` | certificate and vessel getters, `FleetService` |
| `Search` | `SearchService` (mock) |

## Model

| member | source | states |
|---|---|---|
| Bytes.LE32 | api/src/packages/drk-package.service.ts:333-334 | `writeUInt32LE` yields exactly four bytes for a length below 2^32 |
| Bytes.ReadU32LE | api/src/packages/drk-package.service.ts:164 | `readUInt32LE(4)` yields a value below 2^32 |
| Bytes.LE32RoundTrip | api/src/packages/drk-package.service.ts:164 | reading back a written length gives the length (also lines 333-334) |
| Bytes.LE32OfRead | api/src/packages/drk-package.service.ts:164 | writing the value read from four bytes gives back those four bytes, so framing is injective (also lines 333-334) |
| Bytes.DivModUnique | api/src/packages/drk-package.service.ts:333-334 | the base-256 digits of a number are unique, which the two round-trips rest on |
| Bytes.HexValue | api/src/packages/drk-package.service.ts:169 | a hex character denotes a value below 16 |
| Bytes.HexValueOfDigit | api/src/packages/drk-package.service.ts:169 | decoding the character for a digit gives the digit (also line 317) |
| Bytes.HexEncode | api/src/packages/drk-package.service.ts:317 | `toString('hex')` writes two characters per byte |
| Bytes.HexDecode | api/src/packages/drk-package.service.ts:169 | `Buffer.from(s, 'hex')` yields at most one byte per two characters |
| Bytes.HexRoundTrip | api/src/packages/drk-package.service.ts:169 | a signature written as hex by `signPackage` decodes to the same bytes in `verifyPackage` (also line 317) |
| DrkFormat.Frame | api/src/packages/drk-package.service.ts:320-340 | `savePackage` framing succeeds exactly when the manifest length fits 32 bits, and the output is 8 bytes longer than manifest and data together |
| DrkFormat.HasMagic | api/src/packages/drk-package.service.ts:158 | the header check holds exactly when the buffer has at least four bytes and they are `DRK\0` |
| DrkFormat.Split | api/src/packages/drk-package.service.ts:164-170 | parsing succeeds exactly when the length field can be read (8 bytes or more); the manifest is at most the recorded length, and header, manifest and data put back together are the whole buffer |
| DrkFormat.FrameSplitRoundTrip | api/src/packages/drk-package.service.ts:164-170 | parsing a framed package (length at 4, manifest at [8, 8+len), data after) recovers exactly the manifest bytes and the data, and the header is present (also lines 328-337) |
| DrkFormat.SplitFrameInverse | api/src/packages/drk-package.service.ts:158-170 | every package with the header and a length that fits is the framing of the parts it parses into (also lines 328-337) |
| DrkFormat.FrameOfParts | api/src/packages/drk-package.service.ts:158-170 | a buffer starting with the magic and the encoded length `len`, and at least `8 + len` long, is the framing of its manifest slice and the rest |
| DrkBuilder.Lookup | api/src/packages/drk-package.service.ts:296-297 | reading a path from the source tree finds bytes exactly when some collected file has that path |
| DrkBuilder.LookupUnique | api/src/packages/drk-package.service.ts:296-297 | with unique paths, reading a collected file's path gives that file's bytes |
| DrkBuilder.EntryOf | api/src/packages/drk-package.service.ts:246-254 | a collected entry records the path, the byte size and the SHA-256 digest of the content, uncompressed, without offset |
| DrkBuilder.AddHashes | api/src/packages/drk-package.service.ts:256 | `hashTree[relPath] = hash` adds exactly the collected paths to the tree's keys |
| DrkBuilder.PdfEntriesAppend | api/src/packages/drk-package.service.ts:239-258 | collecting from two file lists one after the other gives the two results concatenated |
| DrkBuilder.AddHashesAppend | api/src/packages/drk-package.service.ts:256 | recording two batches of hashes equals recording them one batch after the other |
| DrkBuilder.JoinEndsWithPdf | api/src/packages/drk-package.service.ts:241-245 | a joined path ends in `.pdf` exactly when the file name does |
| DrkBuilder.CollectedStep | api/src/packages/drk-package.service.ts:239-258 | walking one more directory entry appends what that entry contributes |
| DrkBuilder.CollectedOne | api/src/packages/drk-package.service.ts:243-257 | a directory contributes its subtree under the joined path; a `.pdf` file contributes one entry; any other file or node contributes nothing |
| DrkBuilder.CollectedAdvance | api/src/packages/drk-package.service.ts:239-258 | after each directory entry the pushed list and the hash tree are those of the prefix walked so far |
| DrkBuilder.AppendBatch | api/src/packages/drk-package.service.ts:239-258 | pushing a walked batch after the earlier ones gives the list of the whole prefix |
| DrkBuilder.CollectFiles | api/src/packages/drk-package.service.ts:231-259 | the recursive walk appends exactly the collected entries to `files` and records their hashes in `hashTree` |
| DrkBuilder.AddHashesUnique | api/src/packages/drk-package.service.ts:256 | with distinct paths, the hash tree maps each collected path to its entry's hash |
| DrkBuilder.PdfFilesMembers | api/src/packages/drk-package.service.ts:245 | a file is packaged exactly when it is in the tree and its path ends in `.pdf` |
| DrkBuilder.PdfFilesUnique | api/src/packages/drk-package.service.ts:245 | keeping the `.pdf` files keeps paths unique |
| DrkBuilder.PdfEntriesAsFiles | api/src/packages/drk-package.service.ts:245-254 | the k-th collected entry describes the k-th `.pdf` file of the tree |
| DrkBuilder.Collected | api/src/packages/drk-package.service.ts:239-258 | the walk collects one entry per `.pdf` file of the tree, in walk order, each describing that file |
| DrkBuilder.FilesNormal | api/src/packages/drk-package.service.ts:240-241 | in a tree whose names are plain directory entries, every joined relative path is already normalised |
| DrkBuilder.ChangedOnly | api/src/packages/drk-package.service.ts:270-273 | delta selection never lengthens the list |
| DrkBuilder.Changed | api/src/packages/drk-package.service.ts:271-272 | an entry is unchanged exactly when the base `hash_tree` has its path with a non-empty hash equal to the entry's |
| DrkBuilder.ChangedOnlyMembers | api/src/packages/drk-package.service.ts:270-273 | an entry is kept exactly when it was collected and its path is missing from the base `hash_tree` or has a different hash |
| DrkBuilder.CollectChangedFiles | api/src/packages/drk-package.service.ts:261-277 | the result is the changed entries in collection order, with the full new hash tree; a base without `hash_tree` fails once any file is to be compared |
| DrkBuilder.Place | api/src/packages/drk-package.service.ts:302-304 | placing an entry marks it compressed with the given offset and the blob's length, and keeps path, size and hash |
| DrkBuilder.Placed | api/src/packages/drk-package.service.ts:295-308 | placing keeps one entry per file |
| DrkBuilder.Blobs | api/src/packages/drk-package.service.ts:295-300 | on success there is one compressed blob per entry |
| DrkBuilder.BlobsMeaning | api/src/packages/drk-package.service.ts:295-300 | blob k is the compression of file k's bytes; the build fails exactly when some entry's file cannot be read, and it names that path |
| DrkBuilder.BlobsErrExtends | api/src/packages/drk-package.service.ts:295-300 | once a read fails, later files do not change the outcome |
| DrkBuilder.BuildStep | api/src/packages/drk-package.service.ts:295-308 | each loop iteration extends the built prefix: the offset is the total length of the blobs so far |
| DrkBuilder.BuildPackage | api/src/packages/drk-package.service.ts:286-313 | the loop yields the placed entries and the concatenated blobs, or the first unreadable file |
| DrkBuilder.Build | api/src/packages/drk-package.service.ts:286-313 | the build succeeds exactly when every file can be read, and otherwise reports the same error; entry k is file k placed at the total length of the earlier blobs, with blob k's length |
| DrkBuilder.PlacedEvery | api/src/packages/drk-package.service.ts:302-307 | every placed entry sits at the total length of the blobs before it |
| DrkBuilder.ConcatPrefix | api/src/packages/drk-package.service.ts:306-312 | the blobs placed so far are a prefix of the data section |
| DrkBuilder.PlacedAt | api/src/packages/drk-package.service.ts:302-307 | entry k's offset is the sum of the earlier compressed sizes |
| DrkBuilder.ConcatSlice | api/src/packages/drk-package.service.ts:302-312 | entry k's `[offset, offset + compressedSize)` lies inside the data section and slices out exactly blob k |
| DrkBuilder.SliceAfterPrefix | api/src/packages/drk-package.service.ts:302-312 | a blob written right after a prefix of the data section is what the slice at that offset and length gives back |
| DrkBuilder.SliceAt | api/src/packages/drk-package.service.ts:363-366 | the slice the extractor takes with `offset \|\| 0` and `compressedSize \|\| 0` is the placed blob |
| DrkBuilder.PlacedBlob | api/src/packages/drk-package.service.ts:363-366 | the extractor's slice of placed entry k is blob k, and the entry keeps file k's path (also lines 302-307) |
| DrkBuilder.FullPackageReadsBack | api/src/packages/drk-package.service.ts:53-93 | a full package parses back to its data section and a manifest of type `full` with version 1.0.0, the given metadata over `company`, `file_count`, `total_size` as the sum of sizes, `compressed_size` as the data length, the placed entries and the hash tree |
| DrkBuilder.SignPackage | api/src/packages/drk-package.service.ts:315-318 | the hex signature has two characters per signature byte and, under the library's laws, decodes to a signature that verifies over the data section |
| DrkBuilder.PackageManifest | api/src/packages/drk-package.service.ts:67-87 | the manifest carries version 1.0.0, the kind, the file count, the sum of sizes, the data length as `compressed_size`, the hash tree, the placed entries and a signature that verifies over the data section |
| DrkBuilder.FullPackage | api/src/packages/drk-package.service.ts:53-93 | an unreadable file makes creation fail with exactly the build's error; a created package has the header and parses into a manifest and exactly the built data section |
| DrkBuilder.DeltaPackage | api/src/packages/drk-package.service.ts:98-145 | a base without `hash_tree` fails once any file is collected; otherwise nothing is written exactly when no file changed, and a build error of the changed files is reported as it is; a written package has the header and the data section of the changed files |
| DrkVerifier.VerifyBytes | api/src/packages/drk-package.service.ts:150-196 | a missing header or a buffer under 8 bytes gives false, as does an unparsable manifest or one without `signature` or `hash_tree` (never an exception); true implies the manifest's own signature verifies over the bytes after the manifest |
| DrkVerifier.VerifyFile | api/src/packages/drk-package.service.ts:155 | an unreadable file does not verify (also lines 192-195) |
| DrkVerifier.FramedVerifies | api/src/packages/drk-package.service.ts:158-188 | a framed manifest with `signature` and `hash_tree` verifies exactly when the signature verifies over the data section |
| DrkVerifier.FullPackageVerifies | api/src/packages/drk-package.service.ts:150-196 | every full package the service builds verifies (also lines 53-93) |
| DrkVerifier.DeltaPackageVerifies | api/src/packages/drk-package.service.ts:150-196 | every delta package the service writes verifies (also lines 98-145) |
| DrkVerifier.ManifestNotSigned | api/src/packages/drk-package.service.ts:169-188 | replacing the manifest of a verified package by any manifest with the same signature and some hash tree still verifies, so the manifest is not covered |
| DrkDisk.UpdateTwice | api/src/packages/drk-package.service.ts:359-393 | two writes into the same directory are one update of that directory |
| DrkDisk.CopyDir | api/src/packages/drk-package.service.ts:396 | recursive `cp` fails exactly on a missing source or when a source file would land on a file's directory or on a directory of the destination; on success it adds the destination, merges the source's files over it, keeps the destination's other files and leaves other directories alone (what a failed `cp` leaves is `CopyAborted`; also lines 406-409) |
| DrkDisk.CopiedBefore | api/src/packages/drk-package.service.ts:396 | the files a `cp` wrote before its clash are exactly the source files it reached that no file or directory of the destination blocks, with the source's bytes; none when it reached nothing |
| DrkDisk.CopyAborted | api/src/packages/drk-package.service.ts:396 | a `cp` that threw keeps the set of directories and every directory but the destination; a missing source, or a clash met before any file was reached, changes nothing (also lines 406-409) |
| DrkDisk.CopyAbortedFiles | api/src/packages/drk-package.service.ts:396 | after a `cp` that threw at a clash, the destination holds every reached unblocked source file with the source's bytes, keeps every other file it had, gains nothing else, and is unchanged wherever a file met a directory (also lines 406-409) |
| DrkDisk.RenameDir | api/src/packages/drk-package.service.ts:414-422 | `rename` fails on a missing source or a non-empty distinct destination; otherwise the source's tree moves to the destination and other directories stay |
| DrkDisk.RemoveDir | api/src/packages/drk-package.service.ts:400-421 | `rm -r` fails exactly on a missing directory and removes only that one |
| DrkDisk.MakeDir | api/src/packages/drk-package.service.ts:355 | `mkdir -p` adds an empty directory if it was missing and otherwise changes nothing |
| DrkDisk.Disk.ReadFile | api/src/packages/drk-package.service.ts:155 | reading yields the file's bytes exactly when it exists (also line 343) |
| DrkDisk.Disk.WriteFile | api/src/packages/drk-package.service.ts:339 | writing a file replaces that file and nothing else |
| DrkDisk.Disk.WriteInto | api/src/packages/drk-package.service.ts:373-377 | writing into a directory replaces that one path of that directory |
| DrkDisk.Disk.Copy | api/src/packages/drk-package.service.ts:396 | the disk's directories become `CopyDir` of the old ones; when `cp` throws they become `CopyAborted` of them, keeping the files written before the clash (also lines 406-409) |
| DrkDisk.Disk.Rename | api/src/packages/drk-package.service.ts:414-422 | the disk's directories become `RenameDir` of the old ones, or stay on failure |
| DrkDisk.Disk.Remove | api/src/packages/drk-package.service.ts:400-421 | the disk's directories become `RemoveDir` of the old ones, or stay on failure |
| DrkDisk.Disk.MakeDirectory | api/src/packages/drk-package.service.ts:355 | the disk's directories become `MakeDir` of the old ones |
| DrkApplier.DirNamesDistinct | api/src/packages/drk-package.service.ts:210 | target, backup (`_backup_<t>`), extraction (`_extract_<t>`) and swap (`_temp`) directories are pairwise different, for any two times (also lines 354, 413) |
| DrkApplier.ExtractEntry | api/src/packages/drk-package.service.ts:359-392 | a successful entry extraction needs a `hash_tree` with the entry's path; the temp tree only grows, and every path it gains is normalised, so nothing is added outside the directory |
| DrkApplier.WriteEntry | api/src/packages/drk-package.service.ts:373-377 | `path.join` then `writeFile`: the tree only grows, every path added or changed is normalised, and a write that leaves the directory adds nothing |
| DrkApplier.WriteNormal | api/src/packages/drk-package.service.ts:373-377 | writing a normalised path that no file blocks stores exactly that file |
| DrkApplier.EscapingWriteAddsNothing | api/src/packages/drk-package.service.ts:373-377 | a path such as `../x` that `path.join` resolves above the temp directory leaves the temp tree unchanged |
| DrkApplier.Unpack | api/src/packages/drk-package.service.ts:359-393 | a successful loop keeps every earlier file and implies the manifest has a `hash_tree` with every entry's path |
| DrkApplier.UnpackNormal | api/src/packages/drk-package.service.ts:359-393 | every path the loop adds to the temp tree is normalised |
| DrkApplier.PackageTreeNormal | api/src/packages/drk-package.service.ts:342-393 | the tree a package unpacks to holds only normalised paths |
| DrkApplier.UnpackErrExtends | api/src/packages/drk-package.service.ts:359-392 | after the first failing entry no later entry is written and the error stands |
| DrkApplier.UnpackNext | api/src/packages/drk-package.service.ts:359-392 | each loop iteration extracts one more entry into the tree so far, and an entry's failure is the whole loop's failure |
| DrkApplier.ApplyRequiresVerification | api/src/packages/drk-package.service.ts:205-207 | an unverified package fails before any backup: no directory changes |
| DrkApplier.ExtractPass | api/src/packages/drk-package.service.ts:342-404 | a successful extraction into a fresh temp directory merges the package's normalised files over the target, with no clash, and removes the temp directory |
| DrkApplier.ExtractFail | api/src/packages/drk-package.service.ts:380-403 | with a fresh temp directory, a failed extraction that did not reach the `cp` (unreadable package, bad manifest, failing entry) leaves every recorded directory as it was; one whose `cp` clashed leaves the target with the reached package files merged over it, the clash being real, and every other recorded directory as it was |
| DrkApplier.ViaFailed | api/src/packages/drk-package.service.ts:355-403 | a failed extraction either failed in the loop, and then only the new temp directory came and went, or failed in the `cp`, and then the temp directory was removed from what `cp` left |
| DrkApplier.LoopFailed | api/src/packages/drk-package.service.ts:359-392 | with a fresh temp directory, a failing loop fails with its error and leaves the recorded directories as they were (also lines 398-403) |
| DrkApplier.CopyFailed | api/src/packages/drk-package.service.ts:396-403 | with a fresh temp directory, a failing `cp` had a real clash with the target, and the target keeps the package files reached before it |
| DrkApplier.CopyFailedSteps | api/src/packages/drk-package.service.ts:355-403 | when the entries unpack into a fresh temp directory, a failed extraction is a failed `cp` of that directory followed by its removal |
| DrkApplier.AbortFresh | api/src/packages/drk-package.service.ts:396-403 | a clashing `cp` from a fresh directory, followed by its removal, changes only the target, by the reached files |
| DrkApplier.MakeFresh | api/src/packages/drk-package.service.ts:355 | `mkdir` of a fresh directory adds it empty, and removing it again gives back the directories (also lines 398-403) |
| DrkApplier.FreshFilled | api/src/packages/drk-package.service.ts:355-377 | filling a directory `mkdir` just made is adding it with its contents |
| DrkApplier.Extract | api/src/packages/drk-package.service.ts:342-404 | of the directories the model records, only the target and the temp directory can change; an unreadable package fails with nothing changed; a temp directory that was absent is absent afterwards |
| DrkApplier.ExtractVia | api/src/packages/drk-package.service.ts:354-403 | after `mkdir`, unpacking and `cp`, only the target and the temp directory can have changed among the recorded directories, and the temp directory is gone |
| DrkApplier.ExtractOpens | api/src/packages/drk-package.service.ts:343-351 | a successful extraction read the package and parsed its manifest |
| DrkApplier.ViaPassed | api/src/packages/drk-package.service.ts:355-403 | a successful extraction unpacked into the new temp directory and copied it over the target, then removed it |
| DrkApplier.ExtractPassSteps | api/src/packages/drk-package.service.ts:355-403 | a successful extraction is the `cp` of the package's tree, placed in the fresh temp directory, onto the target, then the temp directory's removal |
| DrkApplier.MergeFresh | api/src/packages/drk-package.service.ts:396 | copying a fresh directory onto the target and removing it merges its files over the target, without clash |
| DrkApplier.Backup | api/src/packages/drk-package.service.ts:406-409 | the backup succeeds exactly when the target exists and its files can be merged into any existing backup directory; a failed backup keeps the set of directories, and changes nothing when the target is missing or the `cp` reached nothing; only the backup can change |
| DrkApplier.Swap | api/src/packages/drk-package.service.ts:411-417 | only the target, the backup and the `_temp` directory can change; a missing target fails with nothing changed |
| DrkApplier.Rollback | api/src/packages/drk-package.service.ts:419-424 | without a backup, rollback does nothing and succeeds; with a backup but no target it fails with nothing changed; only the target and the backup can change |
| DrkApplier.Recover | api/src/packages/drk-package.service.ts:221-226 | after a failure the rollback leaves apply failed and changes only the target and the backup |
| DrkApplier.Finish | api/src/packages/drk-package.service.ts:217-226 | a failed extraction stays failed; only the target, the backup and the `_temp` directory can change |
| DrkApplier.Apply | api/src/packages/drk-package.service.ts:201-227 | of the directories the model records, apply changes at most the target, its backup, its extraction and its `_temp` directories |
| DrkApplier.Untouched | api/src/packages/drk-package.service.ts:201-227 | the frame: directories outside the touched set neither appear, disappear nor change |
| DrkApplier.UntouchedChain | api/src/packages/drk-package.service.ts:201-227 | two steps that each change only a subset of the touched set together change only that set |
| DrkApplier.BackupFresh | api/src/packages/drk-package.service.ts:406-409 | the backup is a copy of the target under the backup name |
| DrkApplier.SwapEffect | api/src/packages/drk-package.service.ts:411-417 | a successful swap leaves in the target what the backup held and removes the backup; a failed swap changes nothing |
| DrkApplier.RollbackRestores | api/src/packages/drk-package.service.ts:419-424 | rollback puts the backup's tree back in the target and removes the backup |
| DrkApplier.ApplyDiscardsPackage | api/src/packages/drk-package.service.ts:201-227 | a successful apply leaves the target with exactly its pre-apply contents and no backup (finding below) (also lines 411-417) |
| DrkApplier.ApplyCorrectedInstalls | api/src/packages/drk-package.service.ts:201-227 | with the swap read as "discard the backup", a successful apply leaves the target with the package's files merged over its old contents |
| DrkApplier.DropFresh | api/src/packages/drk-package.service.ts:210-218 | adding a fresh directory and removing it again is no change |
| DrkApplier.FinishCorrectedPass | api/src/packages/drk-package.service.ts:218 | the corrected finishing step succeeds only by removing the backup |
| DrkApplier.FinishCorrected | api/src/packages/drk-package.service.ts:218 | the corrected finishing step keeps a failure a failure and changes only the target and the backup |
| DrkApplier.ApplyCorrected | api/src/packages/drk-package.service.ts:201-227 | of the directories the model records, the corrected apply changes at most the target, its backup and its extraction directory |
| DrkApplier.ApplyFailureRestores | api/src/packages/drk-package.service.ts:221-226 | when apply fails, the target ends with exactly its pre-apply contents (also lines 419-424) |
| DrkApplier.ApplyCorrectedFailureRestores | api/src/packages/drk-package.service.ts:221-226 | the same holds for the corrected apply (also lines 419-424) |
| DrkApplier.Install | api/src/packages/drk-package.service.ts:373-377 | installing files adds exactly their paths |
| DrkApplier.InstallAt | api/src/packages/drk-package.service.ts:373-377 | with unique paths, each installed path holds its file's bytes |
| DrkApplier.InstallUnblocked | api/src/packages/drk-package.service.ts:373-377 | when no file path is a directory of another, installing earlier files never blocks a later one |
| DrkApplier.Installable | api/src/packages/drk-package.service.ts:373-377 | the files can be written one after the other: their paths are normalised and none is a directory of another |
| DrkApplier.DescribedPathsUnique | api/src/packages/drk-package.service.ts:249-256 | entries built from files with unique paths have unique paths |
| DrkApplier.ExtractAt | api/src/packages/drk-package.service.ts:363-385 | an entry whose slice decompresses to bytes with the recorded hash is written with those bytes |
| DrkApplier.ExtractOne | api/src/packages/drk-package.service.ts:363-385 | placed entry k extracts to its file's bytes when blob k decompresses to them and the hash matches (also lines 302-307) |
| DrkApplier.ExtractPlaced | api/src/packages/drk-package.service.ts:363-385 | under the library's laws, every entry the builder placed extracts to the original file bytes (also lines 295-307) |
| DrkApplier.InstallStep | api/src/packages/drk-package.service.ts:373-377 | installing one more file is one more write |
| DrkApplier.UnpackPlaced | api/src/packages/drk-package.service.ts:359-393 | for installable files, extracting the first n placed entries installs the first n source files |
| DrkApplier.FullBuildDescribes | api/src/packages/drk-package.service.ts:64 | a full build's entries, blobs and hash tree describe the source's `.pdf` files (also line 84) |
| DrkApplier.FullPackageExtracts | api/src/packages/drk-package.service.ts:342-393 | every full package opens, and extracting it reproduces exactly the source's `.pdf` files (build then extract round-trip); their paths are normalised, so none leaves the directory |
| DrkService.DrkPackageService.constructor | api/src/packages/drk-package.service.ts:44-48 | the service holds the library, the key pair and the disk it is given |
| DrkService.DrkPackageService.SavePackage | api/src/packages/drk-package.service.ts:320-340 | the output file becomes the framed package; other files and all directories stay |
| DrkService.DrkPackageService.CreateFullPackage | api/src/packages/drk-package.service.ts:53-93 | the output file becomes the full package, or nothing is written and the build error is reported |
| DrkService.DrkPackageService.CreateDeltaPackage | api/src/packages/drk-package.service.ts:98-145 | the output file becomes the delta package; with no changed files nothing is written; on error nothing is written |
| DrkService.DrkPackageService.VerifyPackage | api/src/packages/drk-package.service.ts:150-196 | the answer is `verifyPackage` on the file's bytes, and the disk is only read |
| DrkService.DrkPackageService.ExtractEntryStep | api/src/packages/drk-package.service.ts:360-392 | one loop body writes exactly one entry into the temp directory or fails with its error |
| DrkService.DrkPackageService.ExtractEntries | api/src/packages/drk-package.service.ts:359-393 | the loop fills the temp directory with the unpacked tree or stops at the first failing entry |
| DrkService.DrkPackageService.ExtractPackage | api/src/packages/drk-package.service.ts:342-404 | the directories end as the extraction specification says, with the temp directory removed in every case and a clashing `cp` leaving what it wrote before the clash |
| DrkService.DrkPackageService.CreateBackup | api/src/packages/drk-package.service.ts:406-409 | the directories end as a `cp` of the source into the backup, a failed `cp` included |
| DrkService.DrkPackageService.AtomicSwap | api/src/packages/drk-package.service.ts:411-417 | the directories end as the three renames and the removal say |
| DrkService.DrkPackageService.Rollback | api/src/packages/drk-package.service.ts:419-424 | the directories end as the rollback specification says |
| DrkService.DrkPackageService.ApplyPackage | api/src/packages/drk-package.service.ts:201-227 | the outcome and the recorded directories are those of verify, backup, extract and swap, with rollback on failure |
| Semver.CompareNat | api/src/packages/version-management.service.ts:287 | numeric comparison is a three-way sign |
| Semver.CompareIdentifier | api/src/packages/version-management.service.ts:287 | prerelease identifier comparison is a three-way sign |
| Semver.CompareIdentifiers | api/src/packages/version-management.service.ts:287 | identifier lists compare as a three-way sign |
| Semver.ComparePrerelease | api/src/packages/version-management.service.ts:287 | a release ranks above any prerelease of the same triple |
| Semver.Compare | api/src/packages/version-management.service.ts:283-300 | the major version decides when it differs |
| Semver.IdentifierLaws | api/src/packages/version-management.service.ts:287 | identifier comparison is antisymmetric and zero only on equal identifiers |
| Semver.IdentifierTransitive | api/src/packages/version-management.service.ts:287 | identifier comparison is transitive |
| Semver.IdentifiersLaws | api/src/packages/version-management.service.ts:287 | identifier-list comparison is antisymmetric and zero only on equal lists |
| Semver.IdentifiersTransitive | api/src/packages/version-management.service.ts:287 | identifier-list comparison is transitive |
| Semver.CompareLaws | api/src/packages/version-management.service.ts:283-300 | precedence is antisymmetric and zero only on equal versions |
| Semver.CompareTransitive | api/src/packages/version-management.service.ts:283-300 | precedence is transitive |
| Semver.IsNewerVersion | api/src/packages/version-management.service.ts:283-292 | an empty or missing second version makes any version newer; two valid versions compare by precedence; otherwise JavaScript string order decides |
| Semver.IsVersionCompatible | api/src/packages/version-management.service.ts:294-300 | two valid versions are compatible when current ≥ parent by precedence; otherwise when the string is not smaller |
| Semver.NewerIrreflexive | api/src/packages/version-management.service.ts:283-300 | no version is newer than itself, and every version is compatible with itself |
| Semver.NewerAsymmetric | api/src/packages/version-management.service.ts:283-292 | two versions are never each newer than the other |
| Semver.NewerIsCompatible | api/src/packages/version-management.service.ts:283-300 | a newer version is compatible with the older one as parent |
| VersionManagement.IndexOfVersion | api/src/packages/version-management.service.ts:161-166 | `findIndex` gives the first record for the package and version, or -1 when there is none |
| VersionManagement.ExtractManifest | api/src/packages/version-management.service.ts:268-281 | a missing header gives no manifest; otherwise the manifest is the JSON between bytes 8 and 8 + length |
| VersionManagement.ExtractFramedManifest | api/src/packages/version-management.service.ts:268-281 | the manifest of a framed package reads back exactly |
| VersionManagement.Advance | api/src/packages/version-management.service.ts:106-112 | `currentVersion` changes only for a full version newer than it, and then becomes that version; `latestStableVersion` changes only when the new version is also published |
| VersionManagement.Publish | api/src/packages/version-management.service.ts:130-134 | publishing changes only `latestStableVersion`, and only to a full version newer than it |
| VersionManagement.AdvanceNeverLowers | api/src/packages/version-management.service.ts:106-112 | with valid versions, creation never lowers `currentVersion` |
| VersionManagement.FirstFullVersionBecomesCurrent | api/src/packages/version-management.service.ts:106-112 | the first full version of a package becomes current, and latest stable too when published (also line 284) |
| VersionManagement.VersionHistory | api/src/packages/version-management.service.ts:152-158 | the package's versions, newest first |
| VersionManagement.Summaries | api/src/packages/version-management.service.ts:175-183 | one summary per version, in order |
| VersionManagement.CompareVersions | api/src/packages/version-management.service.ts:160-184 | fails exactly when either version is missing for the package |
| VersionManagement.SameFirstMatch | api/src/packages/version-management.service.ts:161-169 | searching all records or only the package's records finds the same versions |
| VersionManagement.CompareVersionsIsBetween | api/src/packages/version-management.service.ts:166-173 | the result is the run of the package's records between the two found indices |
| VersionManagement.CompareVersionsSymmetric | api/src/packages/version-management.service.ts:166-173 | swapping `from` and `to` gives the same result |
| VersionManagement.CompareVersionsShape | api/src/packages/version-management.service.ts:166-183 | the result is a contiguous creation-ordered slice whose two ends are the two requested versions |
| VersionManagement.ApplicableDeltasMembers | api/src/packages/version-management.service.ts:186-193 | a delta applies exactly when it belongs to the package, targets the version and its parent is compatible with the current version (also lines 206-209) |
| VersionManagement.ApplicableDeltasAppend | api/src/packages/version-management.service.ts:186-193 | applicable deltas keep creation order (also lines 206-209) |
| VersionManagement.DeltaChain | api/src/packages/version-management.service.ts:186-193 | the chain holds exactly the package's delta records with that target version, and no more records than the store |
| VersionManagement.ApplicableDeltas | api/src/packages/version-management.service.ts:206-209 | no more applicable deltas than the chain has |
| VersionManagement.DirectUpdate | api/src/packages/version-management.service.ts:201-203 | a direct update is a full record of the target version, and none exists when the result is empty |
| VersionManagement.OptimalUpdatePath | api/src/packages/version-management.service.ts:195-231 | the only failure is "no update path" |
| VersionManagement.OptimalUpdatePathChoice | api/src/packages/version-management.service.ts:211-230 | not found iff there is no full version and no applicable delta; `direct` means the path is the full version and it is no larger than the deltas (or there are none); `incremental` means the path is the applicable deltas and their total is smaller than the full size (a missing or zero-sized full counts as infinite) |
| VersionManagement.Incremented | api/src/packages/version-management.service.ts:233-239 | exactly the matching records gain one download and nothing else changes |
| VersionManagement.ToDelete | api/src/packages/version-management.service.ts:247 | at most max(0, deprecated count − keepCount) records are selected |
| VersionManagement.Without | api/src/packages/version-management.service.ts:258 | removing a record drops exactly the rows with its id |
| VersionManagement.Attempts | api/src/packages/version-management.service.ts:250-263 | the loop counts at most one deletion per attempted record and never adds rows |
| VersionManagement.Attempt | api/src/packages/version-management.service.ts:251-262 | files only disappear, and the record's file is gone unless `unlinkSync` threw; the count rises by one exactly when the unlink did not throw and the removal succeeded, and then exactly the rows with that id are gone; otherwise rows and count stay |
| VersionManagement.AttemptCount | api/src/packages/version-management.service.ts:251-262 | one turn keeps ids unique and counts a deletion exactly when a row was removed |
| VersionManagement.AttemptsUpToAll | api/src/packages/version-management.service.ts:250-263 | the loop's state after k records is the specification on the first k |
| VersionManagement.AttemptsKeep | api/src/packages/version-management.service.ts:250-263 | rows and files that no attempted record names survive |
| VersionManagement.AttemptsUniqueIds | api/src/packages/version-management.service.ts:250-263 | the loop keeps ids unique |
| VersionManagement.FilterUniqueIds | api/src/packages/version-management.service.ts:243-246 | a query keeps ids unique |
| VersionManagement.WithoutOne | api/src/packages/version-management.service.ts:258 | removing a present record with a unique id removes exactly one row |
| VersionManagement.AttemptsCount | api/src/packages/version-management.service.ts:250-263 | `deletedCount` equals the number of rows actually removed |
| VersionManagement.ReverseUniqueIds | api/src/packages/version-management.service.ts:243-246 | newest-first order keeps ids unique |
| VersionManagement.DeprecatedFacts | api/src/packages/version-management.service.ts:242-246 | the query returns exactly the package's deprecated records, with unique ids |
| VersionManagement.SameIdSameRow | api/src/packages/version-management.service.ts:258 | with unique ids, one id names one row |
| VersionManagement.ToDeleteFacts | api/src/packages/version-management.service.ts:242-247 | the records to delete are the deprecated ones after the first `keepCount` in newest-first order (`slice` semantics, negative counts included) |
| VersionManagement.SliceToEnd | api/src/packages/version-management.service.ts:247 | `slice(k)` is the suffix from the clamped index |
| VersionManagement.SuffixFacts | api/src/packages/version-management.service.ts:247 | a suffix keeps unique ids and only has rows of the list |
| VersionManagement.CleanupKeeps | api/src/packages/version-management.service.ts:241-266 | non-deprecated records, other packages' records and the newest `keepCount` deprecated records survive cleanup |
| VersionManagement.SparedRows | api/src/packages/version-management.service.ts:242-247 | the spared rows' ids are not among those deleted |
| VersionManagement.CleanupCount | api/src/packages/version-management.service.ts:241-266 | the returned count is the number of rows removed and at most max(0, deprecated − keepCount) |
| VersionManagement.FreshRowKeepsUnique | api/src/packages/version-management.service.ts:95-103 | a new row with a fresh id keeps ids unique |
| VersionManagement.VersionManagementService.constructor | api/src/packages/version-management.service.ts:33-38 | the service starts with the given packages and files and no versions |
| VersionManagement.VersionManagementService.CreateVersion | api/src/packages/version-management.service.ts:40-115 | rejects, in order, an unknown package, a duplicate version, a missing file, a delta without parent or target, and a delta whose parent is missing; on success it appends the new record (manifest optional) and advances the package as `Advance` says; on failure nothing changes |
| VersionManagement.VersionManagementService.PublishVersion | api/src/packages/version-management.service.ts:117-137 | a missing version fails and changes nothing; otherwise the first matching record becomes published and the package is updated as `Publish` says |
| VersionManagement.VersionManagementService.DeprecateVersion | api/src/packages/version-management.service.ts:139-150 | a missing version fails; otherwise only that record's `isDeprecated` is set |
| VersionManagement.VersionManagementService.RecordDownload | api/src/packages/version-management.service.ts:233-239 | only the matching records' `downloadCount` rises by one |
| VersionManagement.VersionManagementService.CleanupOldVersions | api/src/packages/version-management.service.ts:241-266 | files, rows and the returned count are those of attempting removal on the selected deprecated records, one at a time, where a failed unlink or remove skips the record |
| Viewer.ReadPackageInfo | viewer/src/main.ts:106-126 | null exactly when the path is neither a file nor a directory; otherwise the given path, its basename, the type `full` iff the extension is exactly `.drkpack`, the `stat` size (a file's length) and `lastModified` as its modification time |
| Viewer.Classify | viewer/src/main.ts:196-199 | Main Manual → MM, then Procedure → PR, then Instruction → I, then Form → F, each only when the earlier keywords are absent |
| Viewer.ToDocument | viewer/src/main.ts:201-208 | a document keeps the entry's path, size and hash, gets id `doc-<index>` and the classified type |
| Viewer.Documents | viewer/src/main.ts:181-209 | the document list is no longer than the entry list |
| Viewer.Kept | viewer/src/main.ts:188-193 | kept positions are positions of the entry list (also line 209) |
| Viewer.DocumentsAreKept | viewer/src/main.ts:181-209 | document k comes from the k-th entry with an allowed extension and keeps that entry's original index; the order is preserved and every allowed entry appears |
| Viewer.FirstDangerous | viewer/src/main.ts:181-185 | finds the first entry whose path contains `..` or a backslash, or is absolute, or -1 |
| Viewer.Dangerous | viewer/src/main.ts:183-185 | a path is refused exactly when two dots stand next to each other anywhere in it, it holds a backslash, or it starts with `/` |
| Viewer.DangerousChars | viewer/src/main.ts:183 | `includes("..")` and `includes("\\")` hold exactly when the characters occur at some position |
| Viewer.IncludesPair | viewer/src/main.ts:183 | `includes` of a two-character string holds exactly when the two characters stand next to each other somewhere |
| Viewer.PairAt | viewer/src/main.ts:183 | a two-character string occurs at position i exactly when its characters stand at i and i + 1 |
| Viewer.IncludesChar | viewer/src/main.ts:183 | `includes` of one character holds exactly when it occurs somewhere |
| Viewer.Allowed | viewer/src/main.ts:187-190 | an allowed path's extension, in the base name, is a dot and two to four more characters |
| Viewer.LowerExtension | viewer/src/main.ts:187-190 | an extension whose lower-case form is allowed starts with a dot and is three to five characters long |
| Viewer.ExtractPackageDocuments | viewer/src/main.ts:129-219 | success implies the header, both size limits, a parsed manifest with `type` and `file_entries`, at most 10000 entries, no dangerous path, and documents equal to the filtered list |
| Viewer.ExtractPackageDocumentsGates | viewer/src/main.ts:137-185 | the gates fail in order: header, 500 MiB package, a truncated length field, 10 MiB manifest, missing fields, more than 10000 entries, and a dangerous path even in an entry whose extension would be filtered |
| Viewer.FindEntry | viewer/src/main.ts:234-235 | `find` gives the first entry with exactly that path, or -1 |
| Viewer.ExtractPdfFile | viewer/src/main.ts:222-256 | success writes to `<temp>/drk_<now>_<basename>` the raw data-section slice `[offset, offset + compressedSize)` of the found entry |
| Viewer.ExtractPdfFileNotFound | viewer/src/main.ts:234-237 | fails with "not found" exactly when the manifest parses and no entry has the path |
| Viewer.PdfFileIsCompressedBlob | viewer/src/main.ts:240-251 | for a package the builder made, the written bytes are the compressed file, not the file itself |
| Viewer.DescribedExtract | viewer/src/main.ts:234-251 | every described file is found and written as its compressed blob |
| Viewer.DescribedSlot | viewer/src/main.ts:234-244 | the described file's entry is found at its own index and its slice is its blob |
| Viewer.PlacedPathsUnique | viewer/src/main.ts:234-235 | placing entries keeps their paths distinct |
| Viewer.ExtractPdfAt | viewer/src/main.ts:234-251 | the written bytes are exactly the found entry's slice |
| Viewer.FindUnique | viewer/src/main.ts:234-235 | with distinct paths, `find` returns the entry's own index |
| Collaboration.NewSession | api/src/collaboration/collaboration.service.ts:75-101 | a new session's only participant is the host, as an active admin, with no annotations and no cursors |
| Collaboration.Joined | api/src/collaboration/collaboration.service.ts:114-121 | joining inserts or replaces only that participant and refreshes activity |
| Collaboration.Departed | api/src/collaboration/collaboration.service.ts:136-140 | leaving removes the participant and their cursor and no one else |
| Collaboration.LeaveEffect | api/src/collaboration/collaboration.service.ts:132-154 | an unknown session or participant changes nothing; the session is deleted exactly when its last participant leaves; other sessions stay (also lines 354-365) |
| Collaboration.Leave | api/src/collaboration/collaboration.service.ts:132-154 | other sessions are unchanged, an unknown session or participant changes nothing, and a surviving session no longer has the participant |
| Collaboration.WithCursor | api/src/collaboration/collaboration.service.ts:156-171 | only that participant's cursor is set |
| Collaboration.ActiveParticipantsMembers | api/src/collaboration/collaboration.service.ts:283-288 | the list holds exactly the session's active participants |
| Collaboration.FindAnnotation | api/src/collaboration/collaboration.service.ts:199 | `findIndex` gives the first annotation with the id, or -1 (also lines 221, 246) |
| Collaboration.NewAnnotation | api/src/collaboration/collaboration.service.ts:177-184 | a new annotation is active with an empty thread and the draft's fields |
| Collaboration.LiveAnnotations | api/src/collaboration/collaboration.service.ts:290-295 | the annotations shown are exactly the active ones |
| Collaboration.AnnotatedEffect | api/src/collaboration/collaboration.service.ts:173-193 | adding appends one annotation, which becomes the last shown one |
| Collaboration.Annotated | api/src/collaboration/collaboration.service.ts:186-187 | the annotation list grows by exactly the new annotation at its end, the earlier ones kept; participants and cursors stay and activity is refreshed |
| Collaboration.Rewritten | api/src/collaboration/collaboration.service.ts:209-210 | only the annotation at the index is replaced; participants and cursors stay and activity is refreshed |
| Collaboration.Patched | api/src/collaboration/collaboration.service.ts:202-207 | an update always refreshes `updatedAt` |
| Collaboration.PatchedFields | api/src/collaboration/collaboration.service.ts:202-207 | the given fields are overwritten by the update and the others kept |
| Collaboration.WithReply | api/src/collaboration/collaboration.service.ts:224-231 | a reply is appended to the thread and nothing else but `updatedAt` changes |
| Collaboration.SoftDeleted | api/src/collaboration/collaboration.service.ts:257-258 | deletion only sets status `deleted` and `updatedAt` |
| Collaboration.SoftDeleteEffect | api/src/collaboration/collaboration.service.ts:242-267 | a soft delete keeps the list's length and other annotations, and the deleted annotation is no longer shown (also lines 290-295) |
| Collaboration.MayDelete | api/src/collaboration/collaboration.service.ts:252-255 | the author may always delete; another deleter may exactly when they are an admin participant, and never when they are not in the session |
| Collaboration.Sweep | api/src/collaboration/collaboration.service.ts:298-313 | exactly the sessions idle for more than 30 minutes are removed |
| Collaboration.Idle | api/src/collaboration/collaboration.service.ts:304-306 | a session whose last activity is not in the past is never idle |
| Collaboration.SweepEffect | api/src/collaboration/collaboration.service.ts:298-313 | the remaining sessions are the non-idle ones, unchanged, and the map shrinks by the number removed |
| Collaboration.SweepNext | api/src/collaboration/collaboration.service.ts:303-310 | each loop iteration deletes the current session if it is idle and counts it |
| Collaboration.SweepSize | api/src/collaboration/collaboration.service.ts:303-310 | the map's size drops by the number of idle sessions removed |
| Collaboration.SweepSizeStep | api/src/collaboration/collaboration.service.ts:303-310 | one iteration lowers the size and raises the count by the same amount |
| Collaboration.SizeStep | api/src/collaboration/collaboration.service.ts:306-308 | deleting a present session lowers the size by one (also line 363) |
| Collaboration.Tally | api/src/collaboration/collaboration.service.ts:316-340 | `totalSessions` counts the sessions |
| Collaboration.TallyBounds | api/src/collaboration/collaboration.service.ts:322-339 | active sessions are at most all sessions and at most all participants, and equal all sessions exactly when none is empty |
| Collaboration.SocketOwner | api/src/collaboration/collaboration.service.ts:393-399 | finds a participant with the socket id, or none has it |
| Collaboration.SocketSession | api/src/collaboration/collaboration.service.ts:391-401 | finds the first session with a participant on the socket, or no session has one |
| Collaboration.MarkedInactiveValid | api/src/collaboration/collaboration.service.ts:395 | marking a participant inactive keeps the store well formed |
| Collaboration.MarkedInactive | api/src/collaboration/collaboration.service.ts:395 | only that participant becomes inactive; other participants, the cursors, the annotations and other sessions stay |
| Collaboration.MarkThenLeave | api/src/collaboration/collaboration.service.ts:395-398 | marking inactive before leaving has no lasting effect |
| Collaboration.ActiveParticipantsAreActive | api/src/collaboration/collaboration.service.ts:283-288 | every listed participant is active |
| Collaboration.CollaborationService.constructor | api/src/collaboration/collaboration.service.ts:68 | the service starts with no sessions |
| Collaboration.CollaborationService.CreateSession | api/src/collaboration/collaboration.service.ts:75-101 | stores the new session under its id |
| Collaboration.CollaborationService.JoinSession | api/src/collaboration/collaboration.service.ts:103-130 | fails exactly for an unknown session and then changes nothing; otherwise stores the joined session |
| Collaboration.CollaborationService.LeaveSession | api/src/collaboration/collaboration.service.ts:132-154 | the sessions become `Leave` of the old ones |
| Collaboration.CollaborationService.UpdateCursor | api/src/collaboration/collaboration.service.ts:156-171 | an unknown session changes nothing; otherwise only that cursor changes |
| Collaboration.CollaborationService.AddAnnotation | api/src/collaboration/collaboration.service.ts:173-193 | null and no change iff the session is unknown; otherwise the new annotation is appended |
| Collaboration.CollaborationService.UpdateAnnotation | api/src/collaboration/collaboration.service.ts:195-215 | null and no change iff the session or annotation is missing; otherwise the first match is replaced by the patched annotation |
| Collaboration.CollaborationService.AddAnnotationReply | api/src/collaboration/collaboration.service.ts:217-240 | null and no change iff the session or annotation is missing; otherwise exactly one reply is appended to the first match |
| Collaboration.CollaborationService.DeleteAnnotation | api/src/collaboration/collaboration.service.ts:242-267 | true iff the annotation exists and the deleter is its author or an admin participant; then it is soft-deleted in place, otherwise nothing changes |
| Collaboration.CollaborationService.SyncDocumentState | api/src/collaboration/collaboration.service.ts:269-277 | an unknown session changes nothing; otherwise only the session's document state and activity change |
| Collaboration.CollaborationService.GetSessionInfo | api/src/collaboration/collaboration.service.ts:279-281 | a session is returned exactly when it exists, and it has the requested id |
| Collaboration.CollaborationService.GetActiveParticipants | api/src/collaboration/collaboration.service.ts:283-288 | an unknown session gives an empty list; every returned participant is active |
| Collaboration.CollaborationService.GetSessionAnnotations | api/src/collaboration/collaboration.service.ts:290-295 | an unknown session gives an empty list; deleted and resolved annotations are omitted |
| Collaboration.CollaborationService.CleanupInactiveSessions | api/src/collaboration/collaboration.service.ts:298-313 | the sessions become the sweep of the idle ones and the count is the number removed |
| Collaboration.CollaborationService.GetSessionStats | api/src/collaboration/collaboration.service.ts:316-340 | the statistics are the tally over all sessions, and the total is the map's size |
| Collaboration.CollaborationService.UpdateParticipantSocket | api/src/collaboration/collaboration.service.ts:380-389 | an existing participant gets the new socket id and becomes active; otherwise nothing changes |
| Collaboration.Reconnected | api/src/collaboration/collaboration.service.ts:384-388 | the participant gets the socket id and becomes active; others, cursors, annotations and activity stay, and the session stays well formed with the same size |
| Collaboration.CollaborationService.HandleParticipantDisconnect | api/src/collaboration/collaboration.service.ts:391-401 | the participant on the socket leaves their session; with none nothing changes |
| JsMaps.Empty | api/src/collaboration/collaboration.service.ts:68 | an empty `Map` has no keys |
| JsMaps.Set | api/src/collaboration/collaboration.service.ts:99 | `Map.set` binds the key, keeps the others and the insertion order, and grows only for a new key (also line 120) |
| JsMaps.Delete | api/src/collaboration/collaboration.service.ts:138-139 | `Map.delete` unbinds only the key and shrinks only if it was present (also line 363) |
| JsMaps.DropFacts | api/src/collaboration/collaboration.service.ts:363 | deleting a key keeps the key order duplicate-free and shortens it by one if present |
| JsMaps.DropOne | api/src/collaboration/collaboration.service.ts:363 | removing a key from distinct keys shortens them by one if present |
| JsMaps.Values | api/src/collaboration/collaboration.service.ts:287 | `values()` lists one value per key, in insertion order (also line 326) |
| JsMaps.ValuesMembers | api/src/collaboration/collaboration.service.ts:287 | a value is listed exactly when some key maps to it |
| Js.RelIndex | api/src/packages/version-management.service.ts:247 | `slice` index clamping, negative indices counted from the end |
| Js.Slice | api/src/packages/drk-package.service.ts:363-366 | `slice`/`subarray` clamp both ends to the buffer and take the elements in between |
| Js.Includes | viewer/src/main.ts:183 | `includes` holds exactly when the needle occurs at some position (also lines 196-199) |
| Js.IndexOf | viewer/src/main.ts:205 | the first occurrence, or -1 |
| Js.ReplaceFirst | viewer/src/main.ts:205 | `replace` with a string replaces only the first occurrence |
| Js.StrLessIrreflexive | api/src/packages/version-management.service.ts:290 | JavaScript string order is irreflexive |
| Js.StrLessTrichotomy | api/src/packages/version-management.service.ts:283-300 | JavaScript string order is total and asymmetric |
| Js.StrLessTransitive | api/src/packages/version-management.service.ts:283-300 | JavaScript string order is transitive |
| Js.Trim | api/src/search/search.service.simple.ts:83-84 | `trim` removes exactly the leading and trailing whitespace, and is empty iff the text is all whitespace |
| Js.AsciiLower | viewer/src/main.ts:189 | `toLowerCase` on ASCII letters, character by character |
| Js.Basename | viewer/src/main.ts:200 | `path.basename` contains no slash |
| Js.Extname | viewer/src/main.ts:112 | `path.extname` is empty or a dot-suffix of the basename (also line 189) |
| Js.Segments | api/src/packages/drk-package.service.ts:373 | splitting at `/` gives at least one segment and no segment holds `/` |
| Js.SegmentsPlain | api/src/packages/drk-package.service.ts:373 | a name without `/` is one segment |
| Js.SegmentsSnoc | api/src/packages/drk-package.service.ts:373 | appending `/name` appends one segment |
| Js.JoinSegmentsOfSegments | api/src/packages/drk-package.service.ts:373 | joining the segments with `/` gives the path back |
| Js.SegmentsOfJoin | api/src/packages/drk-package.service.ts:373 | the segments of joined plain names are those names |
| Js.ResolveStep | api/src/packages/drk-package.service.ts:373 | one step of `path.normalize` keeps the resolved segments plain names |
| Js.ResolveSegments | api/src/packages/drk-package.service.ts:373 | `path.normalize` of a relative path yields only plain names, or leaves the directory |
| Js.ResolveSnoc | api/src/packages/drk-package.service.ts:373 | resolving one more segment is one more step |
| Js.ResolveDropsDots | api/src/packages/drk-package.service.ts:373 | `.` and empty segments are dropped and `..` cancels the previous segment |
| Js.ResolveEscapes | api/src/packages/drk-package.service.ts:373 | `../x` climbs above the directory |
| Js.ResolveNormalSegments | api/src/packages/drk-package.service.ts:373 | plain names resolve to themselves |
| Js.ResolveNormal | api/src/packages/drk-package.service.ts:373 | a normalised path resolves to its own segments and does not end in `/` |
| Js.ResolvedIsNormal | api/src/packages/drk-package.service.ts:373 | joining resolved segments gives a normalised path |
| Js.JoinNormal | api/src/packages/drk-package.service.ts:240-241 | `path.join(relativePath, entry.name)` of a normalised directory and a plain name is normalised |
| FleetEntities.CeilDiv | api/src/fleet/entities/vessel-certificate.entity.ts:232-236 | `Math.ceil` of a quotient by a positive divisor |
| FleetEntities.FloorDiv | api/src/fleet/entities/vessel-certificate.entity.ts:255-260 | `Math.floor` of a quotient by a positive divisor |
| FleetEntities.DaysUntilExpiry | api/src/fleet/entities/vessel-certificate.entity.ts:232-236 | the days left are the ceiling of (expiry − now) / one day |
| FleetEntities.IsExpired | api/src/fleet/entities/vessel-certificate.entity.ts:239-242 | an expired certificate has no days left, and one not expired has none below zero |
| FleetEntities.IsExpiringSoon | api/src/fleet/entities/vessel-certificate.entity.ts:244-246 | expiring soon implies the expiry is still ahead and the alert window is at least a day |
| FleetEntities.PriorityLevel | api/src/fleet/entities/vessel-certificate.entity.ts:248-253 | an expired certificate is HIGH; HIGH exactly when the expiry is at most 30 days ahead, LOW exactly when it is more than 90 days ahead |
| FleetEntities.CertificateAge | api/src/fleet/entities/vessel-certificate.entity.ts:255-260 | the age in days is the floor of (now − issue) / one day |
| FleetEntities.IsCritical | api/src/fleet/entities/vessel-certificate.entity.ts:263-274 | a critical certificate has a type of the enumeration |
| FleetEntities.ExpiredIsNotExpiringSoon | api/src/fleet/entities/vessel-certificate.entity.ts:232-246 | an expired certificate has no days left and is not expiring soon |
| FleetEntities.ExpiringSoonWindow | api/src/fleet/entities/vessel-certificate.entity.ts:244-246 | expiring soon implies 0 < days left ≤ `alertDaysBefore` and not expired |
| FleetEntities.PriorityByDays | api/src/fleet/entities/vessel-certificate.entity.ts:248-253 | HIGH iff at most 30 days are left (every expired certificate included), MEDIUM iff 30 < days ≤ 90, LOW otherwise |
| FleetEntities.AgeNonNegative | api/src/fleet/entities/vessel-certificate.entity.ts:255-260 | a certificate issued in the past has a non-negative age |
| FleetEntities.AgeInYears | api/src/fleet/entities/vessel.entity.ts:245-250 | a vessel built in the current calendar year, or at this instant, is zero years old |
| FleetEntities.CriticalTypesAreTypes | api/src/fleet/entities/vessel-certificate.entity.ts:263-274 | the seven critical types are distinct known types; a critical certificate has a known type, and radio safety, CSR, P&I and "other" are not critical (also lines 4-60) |
| FleetEntities.AgeInYearsNonNegative | api/src/fleet/entities/vessel.entity.ts:245-250 | a vessel built in the past has a non-negative age in years |
| FleetEntities.ExpiryDates | api/src/fleet/entities/vessel.entity.ts:257-265 | a vessel has five tracked expiry dates |
| FleetEntities.AnyDueBy | api/src/fleet/entities/vessel.entity.ts:257-265 | `some` holds iff some date is at or before the limit |
| FleetEntities.ExpiringSoonMeaning | api/src/fleet/entities/vessel.entity.ts:252-266 | expiring soon iff at least one of the five dates is at most 90 days away, expired dates included |
| FleetEntities.IsCertificateExpiringSoon | api/src/fleet/entities/vessel.entity.ts:252-266 | expiring soon iff some of the five dates is at most 90 days ahead; a P&I date within the window always sets it |
| FleetEntities.ExpiringSoonMonotone | api/src/fleet/entities/vessel.entity.ts:257-265 | making any date earlier never turns expiring soon into not expiring soon |
| Fleet.CountBy | api/src/fleet/fleet.service.ts:355-363 | one count per listed key, in order, each the number of vessels with that key |
| Fleet.CountByTotal | api/src/fleet/fleet.service.ts:355-363 | the group counts sum to the number of vessels whose key is listed |
| Fleet.Statistics | api/src/fleet/fleet.service.ts:337-401 | no more active vessels than vessels and no more maintenance vessels than active ones, one count per listed type and status, and the three certificate counts together and the critical alerts at most the certificates |
| Fleet.StatisticsPartition | api/src/fleet/fleet.service.ts:376-380 | expired + expiring + valid = the number of active certificates |
| Fleet.VesselKeysDistinct | api/src/fleet/fleet.service.ts:352-353 | the fixed type and status lists have no duplicates |
| Fleet.StatisticsGroupTotals | api/src/fleet/fleet.service.ts:349-363 | the type and status counts each sum to at most `totalVessels`, with equality when every active vessel's value is listed |
| Fleet.MaintenanceDueIsStatusEntry | api/src/fleet/fleet.service.ts:386 | `maintenanceDue` is the MAINTENANCE entry of `vesselsByStatus` (also lines 360-363) |
| Fleet.CriticalAlertsWithin30Days | api/src/fleet/fleet.service.ts:382-384 | `criticalAlerts` counts the critical active certificates expiring within 30 days; the "already expired" disjunct adds nothing |
| Fleet.CertificatesOf | api/src/fleet/fleet.service.ts:466 | a vessel's certificates are exactly its active ones |
| Fleet.Round | api/src/fleet/fleet.service.ts:497 | `Math.round` gives the integer within half of the value, ties upward |
| Fleet.Score | api/src/fleet/fleet.service.ts:483-490 | the raw score lies in [0, 100] and is 100 without certificates |
| Fleet.Compliance | api/src/fleet/fleet.service.ts:465-499 | a row belongs to its vessel and counts the vessel's active certificates |
| Fleet.Partition | api/src/fleet/fleet.service.ts:471-476 | valid, expired and expiring soon partition any list of certificates |
| Fleet.RoundedScoreBounds | api/src/fleet/fleet.service.ts:483-497 | the rounded score is in [0, 100] and is 100 without certificates or problems |
| Fleet.ComplianceRowFacts | api/src/fleet/fleet.service.ts:465-499 | valid + expired + expiring soon = total, critical issues ≤ total, score in [0, 100], and 100 without certificates or problems |
| Fleet.ComplianceReport | api/src/fleet/fleet.service.ts:451-502 | one row per active vessel, in order |
| Fleet.ComplianceReportVessels | api/src/fleet/fleet.service.ts:460-464 | a vessel has a row exactly when it is stored and active |
| Fleet.FleetService.GetFleetStatistics | api/src/fleet/fleet.service.ts:337-401 | the statistics of the current repositories: expired + expiring + valid is exactly the number of active certificates, and the vessel counts are bounded by the repository |
| Fleet.FleetService.GetComplianceReport | api/src/fleet/fleet.service.ts:451-502 | the current repositories' report: at most one row per stored vessel, and a row for exactly the stored active vessels |
| Fleet.NewVessel | api/src/fleet/fleet.service.ts:106-107 | a new vessel has the next id and input's IMO number, is ACTIVE and active |
| Fleet.NewCertificate | api/src/fleet/fleet.service.ts:201-202 | a new certificate keeps the input, is VALID, active, with a 90-day alert window |
| Fleet.ImoTaken | api/src/fleet/fleet.service.ts:98-104 | an IMO number is taken iff some stored vessel, soft-deleted or not, has it |
| Fleet.NumberTaken | api/src/fleet/fleet.service.ts:193-199 | a certificate number is taken iff some stored certificate has it |
| Fleet.FindVessel | api/src/fleet/fleet.service.ts:119-122 | finds the first active vessel with the id, or none exists |
| Fleet.LookupVessel | api/src/fleet/fleet.service.ts:118-129 | `getVesselById` succeeds exactly for a stored active vessel and otherwise throws not-found |
| Fleet.DeleteHidesVessel | api/src/fleet/fleet.service.ts:153-161 | after the soft delete the vessel is not found, other lookups and IMO uniqueness are unchanged, and no record is removed |
| Fleet.Deactivated | api/src/fleet/fleet.service.ts:157-159 | the soft delete keeps every row, makes only that vessel inactive with the new update time, keeps its id, IMO number and name, and never activates a row |
| Fleet.SameFind | api/src/fleet/fleet.service.ts:119-122 | changing only another id's records does not change a lookup |
| Fleet.FleetService.constructor | api/src/fleet/fleet.service.ts:88-94 | the service starts with no vessels and no certificates |
| Fleet.FleetService.CreateVessel | api/src/fleet/fleet.service.ts:96-108 | a duplicate IMO fails even when the old vessel is soft-deleted; otherwise exactly the new vessel is appended |
| Fleet.FleetService.DeleteVessel | api/src/fleet/fleet.service.ts:153-161 | not found changes nothing; otherwise the vessel is deactivated in place; afterwards it cannot be looked up |
| Fleet.FleetService.CreateCertificate | api/src/fleet/fleet.service.ts:188-203 | fails for a missing or inactive vessel, then for a duplicate certificate number; otherwise exactly the new certificate is appended |
| Search.SearchDocuments | api/src/search/search.service.simple.ts:68-100 | `total` is the number of filtered documents and the buckets are the fixed ones |
| Search.SearchKeepsSection | api/src/search/search.service.simple.ts:78-80 | with a section, every returned document is in it |
| Search.SearchMatchesQuery | api/src/search/search.service.simple.ts:83-91 | with a non-blank query, every returned document contains the trimmed, lowercased query in a title, the code or the content |
| Search.FilteredMeaning | api/src/search/search.service.simple.ts:75-91 | a document passes exactly when it is in the list, in the section if given, and matches the query if non-blank |
| Search.Filtered | api/src/search/search.service.simple.ts:75-91 | the filtered list is no longer than the list and holds only its documents; with no section and a blank query it is the whole list |
| Search.Matches | api/src/search/search.service.simple.ts:85-90 | an empty term matches every document |
| Search.PageFromFiltered | api/src/search/search.service.simple.ts:94 | the page holds only filtered documents |
| Search.SliceMembers | api/src/search/search.service.simple.ts:94 | a slice holds only elements of the list |
| Search.BlankQueryKeepsAll | api/src/search/search.service.simple.ts:78-91 | a blank query applies no text filter |
| Search.SearchPaging | api/src/search/search.service.simple.ts:73-98 | the page is `filtered.slice(from, from + size)` with defaults 20 and 0, at most `size` long, and `total` does not depend on `from` or `size` |
| Search.SliceAtMost | api/src/search/search.service.simple.ts:94 | a slice of width `size` has at most `size` elements (also line 113) |
| Search.Suggest | api/src/search/search.service.simple.ts:110-117 | the suggestions are the Korean titles of the first `size` matching documents |
| Search.SuggestFacts | api/src/search/search.service.simple.ts:110-117 | at most `size` titles, in the documents' order, each of a document whose lowercased title contains the lowercased query |
| Seqs.Filter | viewer/src/main.ts:209 | `filter` never lengthens a list |
| Seqs.FilterMembers | api/src/search/search.service.simple.ts:79 | `filter` keeps exactly the elements satisfying the predicate |
| Seqs.FilterAppend | api/src/packages/drk-package.service.ts:270-273 | `filter` commutes with concatenation, so order is preserved |
| Seqs.FilterDistinct | api/src/packages/version-management.service.ts:242-246 | `filter` keeps distinct elements distinct |
| Seqs.FilterUnionCount | api/src/fleet/fleet.service.ts:376-380 | filters for disjoint conditions count as much together as the filter for either |
| Seqs.FilterEquiv | api/src/fleet/fleet.service.ts:382-384 | filters agreeing on every element agree |
| Seqs.Reverse | api/src/packages/version-management.service.ts:155 | newest-first order is the creation order reversed |
| Seqs.PositionsMeaning | viewer/src/main.ts:181-209 | the kept positions are exactly, and in ascending order, those whose element passes |
| Seqs.CollectMeaning | viewer/src/main.ts:181-209 | `map` then `filter(Boolean)` yields f of each kept element and its original index |

## Left out

- Cryptography, compression and JSON: SHA-256, Zstandard, tweetnacl and JSON are the `Library` parameter. Their laws are the hypothesis `Sound`, not proved facts. The ephemeral key pair made in the constructor (api/src/packages/drk-package.service.ts:44-48) is a constructor argument.
- `JSON.stringify(manifest, null, 2)` formatting, and a manifest with fields of the wrong JSON type, are behind `stringify`/`parse`. A `type` that is present is modelled as the non-empty `kind`. A non-array `file_entries` counts as missing.
- Directory reads: the source tree is an ordered `Node` list, in `readdir` order. `readdir`, `stat` and `readFile` errors other than a missing file are not modelled. Neither is `fs.existsSync` racing with `unlinkSync`.
- File removal in `cleanupOldVersions` is given as the parameters `unlinkOk` and `removeOk`. They say which records' unlink and database removal succeed.
- DrkApplier.WriteEntry: a write that `path.join` resolves above the temp directory (an entry path such as `../x`) is modelled as adding nothing. The real `writeFile` creates that file outside the temp directory, possibly inside another directory of the disk, and `cp` and `rm` never see it. The model does not record such stray files.
- DrkApplier.ExtractPass: the package tree merged into the target holds only the entries that stay inside the temp directory. A file the source writes above the temp directory is neither in that tree nor recorded anywhere else.
- DrkApplier.ExtractFail: "as it was" covers the directories the model records. A stray file written above the temp directory before a later entry fails stays on the real disk.
- DrkService.DrkPackageService.ExtractPackage: follows `DrkApplier.Extract`, so escaping entries add nothing to the temp directory and land nowhere in the model, neither in the target nor beside it.
- DrkApplier.Extract: the frame covers the directories the model records. An entry that `path.join` resolves above the temp directory makes the real `writeFile` create a file beside the target; the frame says nothing about it.
- DrkApplier.ExtractVia: the same frame, with the same gap for entries that climb out of the temp directory.
- DrkApplier.Apply: "at most the target, its backup, its extraction and its `_temp` directories" covers the recorded directories. The manifest is not signed, so a package that verifies can still carry a path such as `../other/x`, and applying it leaves that file on the real disk.
- DrkApplier.ApplyCorrected: the same frame and the same gap as `DrkApplier.Apply`.
- DrkService.DrkPackageService.ApplyPackage: equal to `DrkApplier.Apply`, so the stray files of climbing entry paths are not recorded here either.
- DrkDisk.CopyAborted: which files `cp` reaches before a clash depends on the `readdir` order. It is the parameter `reached`, one per `cp` call (`reached1` for the backup, `reached2` for the extraction). Any set is allowed, including sets no depth-first walk produces. The `mkdir` of intermediate directories before the clash is not recorded, since trees hold only files.
- Viewer.ExtractPdfFile: the temp directory is taken as already normalised (no trailing `/`, no `.` or `..` segments), as the output path is `temp + "/" + name`. The normalisation that `path.join` would apply to it is not modelled.
- DrkApplier.WriteEntry: a path that climbs out and back in through the temp directory's own name (`../<temp name>/x`) counts as leaving, because directory names are opaque strings in the model.
- The atomicity of `rename` across devices, and concurrent access to the disk or to the services, are not modelled.
- Logging, `console.*`, socket broadcasts (api/src/collaboration/collaboration.service.ts:342-352) and the gateway emits do nothing in the model.
- Time, `Date.now()`, `new Date().toISOString()` and the generated session, annotation and reply ids are parameters. Each getter uses a single `now`.
- The repositories are in-memory sequences in creation order. `ORDER BY vesselName` in the compliance report is not modelled: rows follow creation order. `relations` loading, the TypeORM `save` timestamps and the query builders are left out. This covers the alert queries, `searchVessels`, the age and tonnage ranges (api/src/fleet/fleet.service.ts:246-334, 404-448), `getAllVessels`, the `getVesselsBy*` finders, `getVesselByImo` and `getCertificatesByVessel`.
- `updateVessel`, `updateCertificate` and `deleteCertificate` (api/src/fleet/fleet.service.ts:144-151, 214-244): `Object.assign` patches over untyped DTOs, with no rule beyond what `getVesselById` already states.
- `averageAge` and its rounding (api/src/fleet/fleet.service.ts:365-367, 392) are floating point. Decimal columns (deadweight, tonnage) and cursor coordinates are exact reals.
- `Fleet.Statistics`: `totalDeadweight` and `totalGrossTonnage` are exact sums, not IEEE-754 sums.
- The `dwt` and `gt` getters of the vessel entity (api/src/fleet/entities/vessel.entity.ts:268-274) only rename `deadweight` and `grossTonnage`, and no code of the core calls them; the fleet statistics add up the fields directly.
- Calendar years (`getFullYear`) are the parameter `yearOf`.
- Dates are millisecond instants (`int`). The `date` columns (api/src/fleet/entities/vessel-certificate.entity.ts:113-117, api/src/fleet/entities/vessel.entity.ts:85-86 and 147-174) may reach the code as strings or as day-granular values. The comparisons with `now` in the fleet service (api/src/fleet/fleet.service.ts:376-384 and 472-480) are then string or midnight comparisons. Neither form is modelled: every comparison is between two instants.
- Parsing semver strings is the parameter `parse`. The model compares the parsed versions by SemVer 2.0.0 precedence (section 11), including prerelease identifiers. Build metadata is dropped by `parse`.
- Semver.IsVersionCompatible: a delta without a parent version is incompatible. In JavaScript the fallback `current >= null` can hold for a numeric-looking current version. The model does not follow that coercion.
- Strings are sequences of UTF-16 code units read as `char`. `toLowerCase` in the viewer is ASCII-only (`Js.AsciiLower`). In search it is the parameter `lower`. `path.isAbsolute` is the POSIX rule (a leading `/`).
- DrkVerifier.VerifyBytes: the per-file loop over `hash_tree` (api/src/packages/drk-package.service.ts:185-188) checks nothing. The model checks only that `hash_tree` is present, since `Object.entries` throws otherwise.
- Collaboration: a session is a value inside the `sessions` map. Aliasing of a session object that a caller keeps is not modelled. `Map` iteration order is the insertion order of `JsMaps.JsMap`.
- The mock search's fixed documents are the constant `Search.MockDocuments`. `indexDocument`, `bulkIndex`, `deleteDocument` and `clearIndex` only log.
- The HTTP controllers, the WebSocket gateway, Electron window setup, the admin portal and all UI are outside the core.

## Findings

| source | as written | input that shows it | evidently intended | confidence | as-written member | corrected member |
|---|---|---|---|---|---|---|
| api/src/packages/drk-package.service.ts:210-218, 411-417 | `applyPackage` copies the target to a backup, extracts the package into the target, then calls `atomicSwap(targetDir, backupDir)`. That renames the target away, renames the *backup* into the target and deletes the renamed copy. | Any package that verifies, applied to an existing target directory: the target ends with exactly its old contents | A successful apply leaves the package's files in the target and discards the backup | not executed | DrkApplier.ApplyDiscardsPackage (with DrkApplier.Apply) | DrkApplier.ApplyCorrectedInstalls (with DrkApplier.ApplyCorrected) |
