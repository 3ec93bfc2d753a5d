/**
 * VersionManagementService: the package and version records, the rules that
 * admit a new version and advance a package's current and latest stable
 * version, the read-only queries (history, comparison, delta chain, optimal
 * update path) and the retention cleanup of deprecated versions.
 *
 * The repositories are in memory: `packages` by id, and `versions` in creation
 * order, so that ordering by `createdAt` ascending is the order of the
 * sequence. The package files are a map from path to bytes.
 */
module VersionManagement {
  import opened Wrappers
  import opened Bytes
  import opened DrkFormat
  import opened Semver
  import opened Seqs
  import Js

  datatype VersionType = Full | Delta

  /** The `packages` columns the service reads or writes. */
  datatype Package = Package(id: nat, name: string, currentVersion: Option<string>, latestStableVersion: Option<string>)

  /** A `package_versions` row. */
  datatype PackageVersion = PackageVersion(
    id: nat,
    packageId: nat,
    version: string,
    vtype: VersionType,
    description: Option<string>,
    filePath: string,
    fileSize: int,
    fileHash: string,
    manifest: Option<Manifest>,
    changeLog: Option<string>,
    isPublished: bool,
    isDeprecated: bool,
    parentVersion: Option<string>,
    targetVersion: Option<string>,
    downloadCount: int,
    createdAt: int)

  /**
   * CreateVersionDto. `isPublished` is not part of the declared interface but
   * is spread into the new row when the request carries it; it is false (the
   * column's default) otherwise.
   */
  datatype CreateVersionDto = CreateVersionDto(
    packageId: nat,
    version: string,
    vtype: VersionType,
    description: Option<string>,
    filePath: string,
    parentVersion: Option<string>,
    targetVersion: Option<string>,
    changeLog: Option<string>,
    isPublished: bool)

  datatype VersionError =
    | PackageNotFound
    | VersionExists
    | FileNotFound
    | DeltaNeedsParentAndTarget
    | ParentNotFound
    | VersionNotFound
    | CompareTargetNotFound
    | NoUpdatePath

  // ---------------------------------------------------------------------------
  // Lookups
  // ---------------------------------------------------------------------------

  predicate Matches(v: PackageVersion, packageId: nat, version: string) {
    v.packageId == packageId && v.version == version
  }

  /** `findOne({ where: { packageId, version } })` as a position: the first matching row, or -1. */
  function IndexOfVersion(vs: seq<PackageVersion>, packageId: nat, version: string): (r: int)
    ensures -1 <= r < |vs|
    ensures r >= 0 ==> Matches(vs[r], packageId, version)
    ensures forall j :: 0 <= j < |vs| && (r == -1 || j < r) ==> !Matches(vs[j], packageId, version)
  {
    if vs == [] then -1
    else if Matches(vs[0], packageId, version) then 0
    else
      var k := IndexOfVersion(vs[1..], packageId, version);
      if k < 0 then -1 else k + 1
  }

  predicate HasVersion(vs: seq<PackageVersion>, packageId: nat, version: string) {
    IndexOfVersion(vs, packageId, version) >= 0
  }

  /** The rows of one package, in creation order. */
  function OfPackage(vs: seq<PackageVersion>, packageId: nat): seq<PackageVersion> {
    Filter(vs, (v: PackageVersion) => v.packageId == packageId)
  }

  predicate UniqueIds(vs: seq<PackageVersion>) {
    forall i, j :: 0 <= i < j < |vs| ==> vs[i].id != vs[j].id
  }

  // ---------------------------------------------------------------------------
  // extractManifest, isNewerVersion and the version advancement rules
  // ---------------------------------------------------------------------------

  /**
   * `extractManifest(filePath)` with its exception caught by createVersion:
   * None for a wrong header, a file too short to hold the length word, or a
   * manifest that does not parse.
   */
  function ExtractManifest(lib: Library, packageData: Bytes): (r: Option<Manifest>)
    ensures !HasMagic(packageData) ==> r.None?
    ensures HasMagic(packageData) && |packageData| >= 8 ==> r == lib.parse(Split(packageData).value.manifestJson)
  {
    if !HasMagic(packageData) then None
    else match Split(packageData)
      case None => None
      case Some(s) => lib.parse(s.manifestJson)
  }

  /** A framed package's own manifest is what createVersion stores with it. */
  lemma ExtractFramedManifest(lib: Library, keys: KeyPair, m: Manifest, data: Bytes)
    requires Sound(lib, keys) && |lib.stringify(m)| < U32Limit
    ensures ExtractManifest(lib, Frame(lib.stringify(m), data).value) == Some(m)
  {
    FrameSplitRoundTrip(lib.stringify(m), data);
  }

  /** The package after a version is saved: a full version newer than the current one becomes current, and latest stable too when published. */
  function Advance(parse: Parser, pkg: Package, vtype: VersionType, version: string, published: bool): (r: Package)
    ensures r.id == pkg.id && r.name == pkg.name
    ensures r.currentVersion != pkg.currentVersion ==> vtype == Full && IsNewerVersion(parse, version, pkg.currentVersion)
    ensures vtype == Full && IsNewerVersion(parse, version, pkg.currentVersion) ==> r.currentVersion == Some(version)
    ensures r.latestStableVersion != pkg.latestStableVersion ==>
              vtype == Full && published && IsNewerVersion(parse, version, pkg.currentVersion) && r.latestStableVersion == Some(version)
  {
    if vtype == Full && IsNewerVersion(parse, version, pkg.currentVersion) then
      pkg.(currentVersion := Some(version), latestStableVersion := if published then Some(version) else pkg.latestStableVersion)
    else pkg
  }

  /** The package after publishVersion: a full version newer than the latest stable one becomes latest stable. */
  function Publish(parse: Parser, pkg: Package, v: PackageVersion): (r: Package)
    ensures r.(latestStableVersion := pkg.latestStableVersion) == pkg
    ensures r.latestStableVersion != pkg.latestStableVersion ==> v.vtype == Full && IsNewerVersion(parse, v.version, pkg.latestStableVersion)
    ensures v.vtype == Full && IsNewerVersion(parse, v.version, pkg.latestStableVersion) ==> r.latestStableVersion == Some(v.version)
  {
    if v.vtype == Full && IsNewerVersion(parse, v.version, pkg.latestStableVersion) then
      pkg.(latestStableVersion := Some(v.version))
    else pkg
  }

  /** Between versions that parse, the current version never goes down. */
  lemma AdvanceNeverLowers(parse: Parser, pkg: Package, vtype: VersionType, version: string, published: bool)
    requires pkg.currentVersion.Some? && pkg.currentVersion.value != ""
    requires parse(pkg.currentVersion.value).Some? && parse(version).Some?
    ensures var r := Advance(parse, pkg, vtype, version, published);
            r.currentVersion.Some? && Compare(parse(r.currentVersion.value).value, parse(pkg.currentVersion.value).value) >= 0
  {
    CompareLaws(parse(pkg.currentVersion.value).value, parse(pkg.currentVersion.value).value);
  }

  /** A package with no current version takes the first full version saved for it. */
  lemma FirstFullVersionBecomesCurrent(parse: Parser, pkg: Package, version: string, published: bool)
    requires Falsy(pkg.currentVersion)
    ensures Advance(parse, pkg, Full, version, published).currentVersion == Some(version)
    ensures published ==> Advance(parse, pkg, Full, version, published).latestStableVersion == Some(version)
  {
  }

  /** The row createVersion saves. */
  function NewRecord(dto: CreateVersionDto, id: nat, content: Bytes, hash: string, manifest: Option<Manifest>, now: int): PackageVersion {
    PackageVersion(id, dto.packageId, dto.version, dto.vtype, dto.description, dto.filePath, |content|, hash, manifest,
                   dto.changeLog, dto.isPublished, false, dto.parentVersion, dto.targetVersion, 0, now)
  }

  // ---------------------------------------------------------------------------
  // Queries
  // ---------------------------------------------------------------------------

  /** `getVersionHistory(packageId)`: the package's versions, newest first. */
  function VersionHistory(vs: seq<PackageVersion>, packageId: nat): (r: seq<PackageVersion>)
    ensures |r| == |OfPackage(vs, packageId)|
    ensures forall i :: 0 <= i < |r| ==> r[i] == OfPackage(vs, packageId)[|r| - 1 - i]
  {
    Reverse(OfPackage(vs, packageId))
  }

  /** One element of the array compareVersions returns. */
  datatype VersionComparison = VersionComparison(
    version: string, vtype: VersionType, size: int, createdAt: int, isPublished: bool, downloadCount: int, changes: Option<string>)

  function Summary(v: PackageVersion): VersionComparison {
    VersionComparison(v.version, v.vtype, v.fileSize, v.createdAt, v.isPublished, v.downloadCount, v.changeLog)
  }

  function Summaries(vs: seq<PackageVersion>): (r: seq<VersionComparison>)
    ensures |r| == |vs|
    ensures forall i :: 0 <= i < |vs| ==> r[i] == Summary(vs[i])
  {
    if vs == [] then [] else [Summary(vs[0])] + Summaries(vs[1..])
  }

  /**
   * `compareVersions(packageId, fromVersion, toVersion)`: the creation-ordered
   * run of the package's versions from the earlier of the two to the later,
   * both included.
   */
  function CompareVersions(vs: seq<PackageVersion>, packageId: nat, fromVersion: string, toVersion: string): (r: Result<seq<VersionComparison>, VersionError>)
    ensures r.Err? <==> !HasVersion(vs, packageId, fromVersion) || !HasVersion(vs, packageId, toVersion)
    ensures r.Err? ==> r.error == CompareTargetNotFound
  {
    var versions := OfPackage(vs, packageId);
    FilterMembers(vs, (v: PackageVersion) => v.packageId == packageId);
    var fromIndex := IndexOfVersion(versions, packageId, fromVersion);
    var toIndex := IndexOfVersion(versions, packageId, toVersion);
    assert fromIndex == -1 <==> !HasVersion(vs, packageId, fromVersion) by {
      SameFirstMatch(vs, packageId, fromVersion);
    }
    assert toIndex == -1 <==> !HasVersion(vs, packageId, toVersion) by {
      SameFirstMatch(vs, packageId, toVersion);
    }
    if fromIndex == -1 || toIndex == -1 then Err(CompareTargetNotFound)
    else
      Ok(Between(versions, fromIndex, toIndex))
  }

  /** A version of the package exists in the whole store exactly when it exists among the package's own rows. */
  lemma SameFirstMatch(vs: seq<PackageVersion>, packageId: nat, version: string)
    ensures HasVersion(vs, packageId, version) <==> HasVersion(OfPackage(vs, packageId), packageId, version)
  {
    FilterMembers(vs, (v: PackageVersion) => v.packageId == packageId);
    var ps := OfPackage(vs, packageId);
    if HasVersion(vs, packageId, version) {
      var i := IndexOfVersion(vs, packageId, version);
      assert vs[i] in ps;
      var j :| 0 <= j < |ps| && ps[j] == vs[i];
      assert Matches(ps[j], packageId, version);
    }
    if HasVersion(ps, packageId, version) {
      var j := IndexOfVersion(ps, packageId, version);
      assert ps[j] in vs;
      var i :| 0 <= i < |vs| && vs[i] == ps[j];
      assert Matches(vs[i], packageId, version);
    }
  }

  /** The earlier-to-later run of `ps` between positions i and j, whichever order they come in. */
  function Between(ps: seq<PackageVersion>, i: nat, j: nat): seq<VersionComparison>
    requires i < |ps| && j < |ps|
  {
    if i < j then Summaries(ps[i..j + 1]) else Summaries(ps[j..i + 1])
  }

  lemma CompareVersionsIsBetween(vs: seq<PackageVersion>, packageId: nat, fromVersion: string, toVersion: string)
    requires CompareVersions(vs, packageId, fromVersion, toVersion).Ok?
    ensures var ps := OfPackage(vs, packageId);
            var f := IndexOfVersion(ps, packageId, fromVersion);
            var t := IndexOfVersion(ps, packageId, toVersion);
            0 <= f && 0 <= t && CompareVersions(vs, packageId, fromVersion, toVersion).value == Between(ps, f, t)
  {
    SameFirstMatch(vs, packageId, fromVersion);
    SameFirstMatch(vs, packageId, toVersion);
  }

  /** Giving the two versions in the other order gives the same result. */
  lemma CompareVersionsSymmetric(vs: seq<PackageVersion>, packageId: nat, fromVersion: string, toVersion: string)
    ensures CompareVersions(vs, packageId, fromVersion, toVersion) == CompareVersions(vs, packageId, toVersion, fromVersion)
  {
    if CompareVersions(vs, packageId, fromVersion, toVersion).Ok? {
      CompareVersionsIsBetween(vs, packageId, fromVersion, toVersion);
      CompareVersionsIsBetween(vs, packageId, toVersion, fromVersion);
    }
  }

  /** The result is a contiguous run of the package's versions whose two ends are the two versions asked for. */
  lemma CompareVersionsShape(vs: seq<PackageVersion>, packageId: nat, fromVersion: string, toVersion: string)
    requires CompareVersions(vs, packageId, fromVersion, toVersion).Ok?
    ensures var ps := OfPackage(vs, packageId);
            var r := CompareVersions(vs, packageId, fromVersion, toVersion).value;
            exists lo, hi :: 0 <= lo <= hi < |ps| && r == Summaries(ps[lo..hi + 1])
              && {ps[lo].version, ps[hi].version} == {fromVersion, toVersion}
  {
    CompareVersionsIsBetween(vs, packageId, fromVersion, toVersion);
    var ps := OfPackage(vs, packageId);
    var f := IndexOfVersion(ps, packageId, fromVersion);
    var t := IndexOfVersion(ps, packageId, toVersion);
    var lo := if f < t then f else t;
    var hi := if f < t then t else f;
    assert {ps[lo].version, ps[hi].version} == {fromVersion, toVersion};
  }

  /** `getDeltaChain(packageId, targetVersion)`: the package's delta versions to the target, in creation order. */
  function DeltaChain(vs: seq<PackageVersion>, packageId: nat, targetVersion: string): (r: seq<PackageVersion>)
    ensures |r| <= |vs|
    ensures forall v :: v in r <==> v in vs && v.packageId == packageId && v.vtype == Delta && v.targetVersion == Some(targetVersion)
  {
    FilterMembers(vs, (v: PackageVersion) => v.packageId == packageId && v.vtype == Delta && v.targetVersion == Some(targetVersion));
    Filter(vs, (v: PackageVersion) => v.packageId == packageId && v.vtype == Delta && v.targetVersion == Some(targetVersion))
  }

  /** The deltas of the chain whose parent the current version is compatible with. */
  function ApplicableDeltas(parse: Parser, vs: seq<PackageVersion>, packageId: nat, currentVersion: string, targetVersion: string)
    : (r: seq<PackageVersion>)
    ensures |r| <= |DeltaChain(vs, packageId, targetVersion)|
  {
    Filter(DeltaChain(vs, packageId, targetVersion), (d: PackageVersion) => IsVersionCompatible(parse, currentVersion, d.parentVersion))
  }

  /** A delta is applicable exactly when it belongs to the package, leads to the target, and its parent is compatible with the current version. */
  lemma ApplicableDeltasMembers(parse: Parser, vs: seq<PackageVersion>, packageId: nat, currentVersion: string, targetVersion: string)
    ensures forall d :: d in ApplicableDeltas(parse, vs, packageId, currentVersion, targetVersion) <==>
              d in vs && d.packageId == packageId && d.vtype == Delta && d.targetVersion == Some(targetVersion)
              && IsVersionCompatible(parse, currentVersion, d.parentVersion)
  {
    FilterMembers(DeltaChain(vs, packageId, targetVersion), (d: PackageVersion) => IsVersionCompatible(parse, currentVersion, d.parentVersion));
  }

  /** Rows added later can only extend the list of applicable deltas at its end: earlier deltas keep their order. */
  lemma ApplicableDeltasAppend(parse: Parser, vs: seq<PackageVersion>, more: seq<PackageVersion>, packageId: nat, currentVersion: string, targetVersion: string)
    ensures ApplicableDeltas(parse, vs + more, packageId, currentVersion, targetVersion)
            == ApplicableDeltas(parse, vs, packageId, currentVersion, targetVersion) + ApplicableDeltas(parse, more, packageId, currentVersion, targetVersion)
  {
    FilterAppend(vs, more, (v: PackageVersion) => v.packageId == packageId && v.vtype == Delta && v.targetVersion == Some(targetVersion));
    FilterAppend(DeltaChain(vs, packageId, targetVersion), DeltaChain(more, packageId, targetVersion),
                 (d: PackageVersion) => IsVersionCompatible(parse, currentVersion, d.parentVersion));
  }

  /** `findOne({ where: { packageId, version: targetVersion, type: 'full' } })` */
  function DirectUpdate(vs: seq<PackageVersion>, packageId: nat, targetVersion: string): (r: Option<PackageVersion>)
    ensures r.Some? ==> r.value in vs && Matches(r.value, packageId, targetVersion) && r.value.vtype == Full
    ensures r.None? ==> forall v :: v in vs && Matches(v, packageId, targetVersion) ==> v.vtype != Full
  {
    if vs == [] then None
    else if Matches(vs[0], packageId, targetVersion) && vs[0].vtype == Full then Some(vs[0])
    else DirectUpdate(vs[1..], packageId, targetVersion)
  }

  /** A size or JavaScript's `Infinity`. */
  datatype Size = Finite(n: int) | Infinity

  predicate AtMost(a: Size, n: int) {
    a.Finite? && a.n <= n
  }

  datatype Strategy = Direct | Incremental
  datatype UpdatePath = UpdatePath(path: seq<PackageVersion>, totalSize: Size, strategy: Strategy)

  /** `deltas.reduce((sum, d) => sum + d.fileSize, 0)` */
  function SumSizes(ds: seq<PackageVersion>): int {
    if ds == [] then 0 else SumSizes(ds[..|ds| - 1]) + ds[|ds| - 1].fileSize
  }

  /** `directUpdate?.fileSize || Infinity`: a missing full version, and one of size 0, count as infinitely large. */
  function DirectSize(direct: Option<PackageVersion>): Size {
    if direct.Some? && direct.value.fileSize != 0 then Finite(direct.value.fileSize) else Infinity
  }

  /** `getOptimalUpdatePath(packageId, currentVersion, targetVersion)` */
  function OptimalUpdatePath(parse: Parser, vs: seq<PackageVersion>, packageId: nat, currentVersion: string, targetVersion: string): (r: Result<UpdatePath, VersionError>)
    ensures r.Err? ==> r.error == NoUpdatePath
  {
    var direct := DirectUpdate(vs, packageId, targetVersion);
    var deltas := ApplicableDeltas(parse, vs, packageId, currentVersion, targetVersion);
    if direct.None? && |deltas| == 0 then Err(NoUpdatePath)
    else
      var directSize := DirectSize(direct);
      var incrementalSize := SumSizes(deltas);
      if AtMost(directSize, incrementalSize) || |deltas| == 0 then
        Ok(UpdatePath(if direct.Some? then [direct.value] else [], directSize, Direct))
      else
        Ok(UpdatePath(deltas, Finite(incrementalSize), Incremental))
  }

  /**
   * There is no update path exactly when the target has no full version and no
   * delta to the target is applicable; the direct strategy always uses the full
   * version; the incremental one uses all applicable deltas, in creation order,
   * and is chosen only when they are strictly smaller in total than the full
   * version, or there is none.
   */
  lemma OptimalUpdatePathChoice(parse: Parser, vs: seq<PackageVersion>, packageId: nat, currentVersion: string, targetVersion: string)
    ensures var r := OptimalUpdatePath(parse, vs, packageId, currentVersion, targetVersion);
            var deltas := ApplicableDeltas(parse, vs, packageId, currentVersion, targetVersion);
            && (r.Err? <==> (forall v :: v in vs && Matches(v, packageId, targetVersion) ==> v.vtype != Full) && deltas == [])
            && (r.Ok? && r.value.strategy == Direct ==>
                  exists full :: full in vs && Matches(full, packageId, targetVersion) && full.vtype == Full
                    && r.value.path == [full] && r.value.totalSize == DirectSize(Some(full))
                    && (deltas == [] || AtMost(DirectSize(Some(full)), SumSizes(deltas))))
            && (r.Ok? && r.value.strategy == Incremental ==>
                  deltas != [] && r.value.path == deltas && r.value.totalSize == Finite(SumSizes(deltas))
                  && !AtMost(DirectSize(DirectUpdate(vs, packageId, targetVersion)), SumSizes(deltas)))
  {
    var direct := DirectUpdate(vs, packageId, targetVersion);
    if direct.None? {
      var deltas := ApplicableDeltas(parse, vs, packageId, currentVersion, targetVersion);
      if deltas != [] {
        assert !AtMost(DirectSize(direct), SumSizes(deltas));
      }
    }
  }

  // ---------------------------------------------------------------------------
  // recordDownload and cleanupOldVersions
  // ---------------------------------------------------------------------------

  /** `increment({ packageId, version }, 'downloadCount', 1)` over the rows. */
  function Incremented(vs: seq<PackageVersion>, packageId: nat, version: string): (r: seq<PackageVersion>)
    ensures |r| == |vs|
    ensures forall i :: 0 <= i < |vs| ==>
              r[i] == if Matches(vs[i], packageId, version) then vs[i].(downloadCount := vs[i].downloadCount + 1) else vs[i]
  {
    if vs == [] then []
    else
      Incremented(vs[..|vs| - 1], packageId, version)
      + [if Matches(vs[|vs| - 1], packageId, version) then vs[|vs| - 1].(downloadCount := vs[|vs| - 1].downloadCount + 1) else vs[|vs| - 1]]
  }

  /** The deprecated versions of a package, newest first. */
  function DeprecatedNewestFirst(vs: seq<PackageVersion>, packageId: nat): seq<PackageVersion> {
    Reverse(Filter(vs, (v: PackageVersion) => v.packageId == packageId && v.isDeprecated))
  }

  /** `versions.slice(keepCount)`: the deprecated versions cleanupOldVersions tries to delete. */
  function ToDelete(vs: seq<PackageVersion>, packageId: nat, keepCount: int): (r: seq<PackageVersion>)
    ensures |r| <= if keepCount < |DeprecatedNewestFirst(vs, packageId)| then |DeprecatedNewestFirst(vs, packageId)| - keepCount else 0
  {
    Js.Slice(DeprecatedNewestFirst(vs, packageId), keepCount, |DeprecatedNewestFirst(vs, packageId)|)
  }

  /** The state cleanupOldVersions works on: the package files, the rows and `deletedCount`. */
  datatype Cleanup = Cleanup(files: map<string, Bytes>, versions: seq<PackageVersion>, deleted: nat)

  function Without(vs: seq<PackageVersion>, id: nat): (r: seq<PackageVersion>)
    ensures forall v :: v in r <==> v in vs && v.id != id
  {
    FilterMembers(vs, (v: PackageVersion) => v.id != id);
    Filter(vs, (v: PackageVersion) => v.id != id)
  }

  /**
   * One turn of the loop. `unlinkOk(v)` and `removeOk(v)` say whether
   * `fs.unlinkSync` and `versionRepository.remove` succeed for v; a failure is
   * caught and logged, and skips the rest of the turn.
   */
  function Attempt(st: Cleanup, v: PackageVersion, unlinkOk: PackageVersion -> bool, removeOk: PackageVersion -> bool): (r: Cleanup)
    ensures r.files.Keys <= st.files.Keys && forall p :: p in r.files ==> r.files[p] == st.files[p]
    ensures (v.filePath !in st.files || unlinkOk(v)) ==> v.filePath !in r.files
    ensures r.deleted == st.deleted + 1 <==> (v.filePath !in st.files || unlinkOk(v)) && removeOk(v)
    ensures r.deleted == st.deleted + 1 ==> forall x :: x in r.versions <==> x in st.versions && x.id != v.id
    ensures r.deleted != st.deleted + 1 ==> r.deleted == st.deleted && r.versions == st.versions
  {
    if v.filePath in st.files && !unlinkOk(v) then st
    else if !removeOk(v) then st.(files := st.files - {v.filePath})
    else Cleanup(st.files - {v.filePath}, Without(st.versions, v.id), st.deleted + 1)
  }

  /** The loop over `toDelete`. */
  function Attempts(st: Cleanup, vs: seq<PackageVersion>, unlinkOk: PackageVersion -> bool, removeOk: PackageVersion -> bool): (r: Cleanup)
    ensures st.deleted <= r.deleted <= st.deleted + |vs|
    ensures forall x :: x in r.versions ==> x in st.versions
  {
    if vs == [] then st
    else Attempt(Attempts(st, vs[..|vs| - 1], unlinkOk, removeOk), vs[|vs| - 1], unlinkOk, removeOk)
  }

  /** The state after the first k turns of the loop. */
  function AttemptsUpTo(st: Cleanup, vs: seq<PackageVersion>, k: nat, unlinkOk: PackageVersion -> bool, removeOk: PackageVersion -> bool): Cleanup
    requires k <= |vs|
  {
    if k == 0 then st else Attempt(AttemptsUpTo(st, vs, k - 1, unlinkOk, removeOk), vs[k - 1], unlinkOk, removeOk)
  }

  /** The first k turns are the loop over the first k rows. */
  lemma {:induction false} AttemptsUpToAll(st: Cleanup, vs: seq<PackageVersion>, k: nat, unlinkOk: PackageVersion -> bool, removeOk: PackageVersion -> bool)
    requires k <= |vs|
    ensures AttemptsUpTo(st, vs, k, unlinkOk, removeOk) == Attempts(st, vs[..k], unlinkOk, removeOk)
  {
    if k > 0 {
      AttemptsUpToAll(st, vs, k - 1, unlinkOk, removeOk);
      assert vs[..k][..k - 1] == vs[..k - 1];
    }
  }

  /** A row or file that no attempt names survives the loop unchanged. */
  lemma {:induction false} AttemptsKeep(st: Cleanup, vs: seq<PackageVersion>, unlinkOk: PackageVersion -> bool, removeOk: PackageVersion -> bool)
    ensures var r := Attempts(st, vs, unlinkOk, removeOk);
            && (forall x :: x in st.versions && (forall d :: d in vs ==> d.id != x.id) ==> x in r.versions)
            && (forall p :: p in st.files && (forall d :: d in vs ==> d.filePath != p) ==> p in r.files && r.files[p] == st.files[p])
  {
    if vs != [] {
      var v := vs[|vs| - 1];
      AttemptsKeep(st, vs[..|vs| - 1], unlinkOk, removeOk);
      var mid := Attempts(st, vs[..|vs| - 1], unlinkOk, removeOk);
      FilterMembers(mid.versions, (x: PackageVersion) => x.id != v.id);
    }
  }

  /** The loop keeps row ids distinct. */
  lemma {:induction false} AttemptsUniqueIds(st: Cleanup, vs: seq<PackageVersion>, unlinkOk: PackageVersion -> bool, removeOk: PackageVersion -> bool)
    requires UniqueIds(st.versions)
    ensures UniqueIds(Attempts(st, vs, unlinkOk, removeOk).versions)
  {
    if vs != [] {
      AttemptsUniqueIds(st, vs[..|vs| - 1], unlinkOk, removeOk);
      FilterUniqueIds(Attempts(st, vs[..|vs| - 1], unlinkOk, removeOk).versions, (x: PackageVersion) => x.id != vs[|vs| - 1].id);
    }
  }

  lemma {:induction false} FilterUniqueIds(vs: seq<PackageVersion>, p: PackageVersion -> bool)
    requires UniqueIds(vs)
    ensures UniqueIds(Filter(vs, p))
  {
    if vs != [] {
      var init := vs[..|vs| - 1];
      FilterUniqueIds(init, p);
      var last := vs[|vs| - 1];
      forall x | x in Filter(init, p) ensures x.id != last.id {
        FilterIndex(init, p, x);
        var i :| 0 <= i < |init| && init[i] == x;
        assert vs[i] == x;
      }
    }
  }

  /** Removing the one row with a given id shortens the rows by one. */
  lemma {:induction false} WithoutOne(vs: seq<PackageVersion>, x: PackageVersion)
    requires UniqueIds(vs) && x in vs
    ensures |Without(vs, x.id)| == |vs| - 1
  {
    var init := vs[..|vs| - 1];
    var last := vs[|vs| - 1];
    assert vs == init + [last];
    if last.id == x.id {
      forall y | y in init ensures y.id != x.id {
        var i :| 0 <= i < |init| && init[i] == y;
        assert vs[i] == y;
      }
      FilterAll(init, (v: PackageVersion) => v.id != x.id);
    } else {
      assert x in init;
      WithoutOne(init, x);
    }
  }

  /**
   * When the rows have distinct ids and the loop runs over distinct rows of
   * the store, `deletedCount` is the number of rows the loop removed.
   */
  lemma {:induction false} AttemptsCount(st: Cleanup, vs: seq<PackageVersion>, unlinkOk: PackageVersion -> bool, removeOk: PackageVersion -> bool)
    requires UniqueIds(st.versions) && UniqueIds(vs)
    requires forall d :: d in vs ==> d in st.versions
    ensures var r := Attempts(st, vs, unlinkOk, removeOk);
            UniqueIds(r.versions) && r.deleted - st.deleted == |st.versions| - |r.versions|
  {
    if vs != [] {
      var init := vs[..|vs| - 1];
      var v := vs[|vs| - 1];
      AttemptsCount(st, init, unlinkOk, removeOk);
      var mid := Attempts(st, init, unlinkOk, removeOk);
      if (v.filePath !in mid.files || unlinkOk(v)) && removeOk(v) {
        AttemptsKeep(st, init, unlinkOk, removeOk);
        forall d | d in init ensures d.id != v.id {
          var i :| 0 <= i < |init| && init[i] == d;
          assert vs[i] == d;
        }
      }
      AttemptCount(mid, v, unlinkOk, removeOk);
    }
  }

  /** One turn keeps the ids distinct and counts the row it removes, if it removes one. */
  lemma AttemptCount(mid: Cleanup, v: PackageVersion, unlinkOk: PackageVersion -> bool, removeOk: PackageVersion -> bool)
    requires UniqueIds(mid.versions)
    requires (v.filePath !in mid.files || unlinkOk(v)) && removeOk(v) ==> v in mid.versions
    ensures var r := Attempt(mid, v, unlinkOk, removeOk);
            UniqueIds(r.versions) && r.deleted - mid.deleted == |mid.versions| - |r.versions|
  {
    FilterUniqueIds(mid.versions, (x: PackageVersion) => x.id != v.id);
    if (v.filePath !in mid.files || unlinkOk(v)) && removeOk(v) {
      WithoutOne(mid.versions, v);
    }
  }

  lemma ReverseUniqueIds(vs: seq<PackageVersion>)
    requires UniqueIds(vs)
    ensures UniqueIds(Reverse(vs))
  {
    var r := Reverse(vs);
    forall i, j | 0 <= i < j < |r| ensures r[i].id != r[j].id {
      assert r[i] == vs[|vs| - 1 - i] && r[j] == vs[|vs| - 1 - j];
    }
  }

  /** Facts about the list cleanupOldVersions deletes from: its rows are deprecated rows of the package, with distinct ids. */
  lemma DeprecatedFacts(vs: seq<PackageVersion>, packageId: nat)
    requires UniqueIds(vs)
    ensures UniqueIds(DeprecatedNewestFirst(vs, packageId))
    ensures forall d :: d in DeprecatedNewestFirst(vs, packageId) <==> d in vs && d.packageId == packageId && d.isDeprecated
  {
    var p := (v: PackageVersion) => v.packageId == packageId && v.isDeprecated;
    FilterUniqueIds(vs, p);
    ReverseUniqueIds(Filter(vs, p));
    FilterMembers(vs, p);
    ReverseMembers(Filter(vs, p));
  }

  /** Two rows of a store with distinct ids that share an id are the same row. */
  lemma SameIdSameRow(vs: seq<PackageVersion>, x: PackageVersion, y: PackageVersion)
    requires UniqueIds(vs) && x in vs && y in vs && x.id == y.id
    ensures x == y
  {
    var i :| 0 <= i < |vs| && vs[i] == x;
    var j :| 0 <= j < |vs| && vs[j] == y;
  }

  /** The rows cleanupOldVersions tries to delete: the deprecated rows of the package from position `keepCount` of the newest-first list on, with distinct ids. */
  lemma ToDeleteFacts(vs: seq<PackageVersion>, packageId: nat, keepCount: int)
    requires UniqueIds(vs)
    ensures var dep := DeprecatedNewestFirst(vs, packageId);
            var start := Js.RelIndex(keepCount, |dep|);
            && ToDelete(vs, packageId, keepCount) == dep[start..]
            && UniqueIds(ToDelete(vs, packageId, keepCount))
            && (forall d :: d in ToDelete(vs, packageId, keepCount) ==> d in vs && d.packageId == packageId && d.isDeprecated)
  {
    var dep := DeprecatedNewestFirst(vs, packageId);
    var start := Js.RelIndex(keepCount, |dep|);
    DeprecatedFacts(vs, packageId);
    SliceToEnd(dep, keepCount);
    SuffixFacts(dep, start);
  }

  /** Slicing from a position to the length is the suffix at that position. */
  lemma SliceToEnd(s: seq<PackageVersion>, start: int)
    ensures Js.Slice(s, start, |s|) == s[Js.RelIndex(start, |s|)..]
  {
  }

  /** A suffix keeps distinct ids distinct and holds only rows of the whole. */
  lemma SuffixFacts(s: seq<PackageVersion>, start: nat)
    requires UniqueIds(s) && start <= |s|
    ensures UniqueIds(s[start..])
    ensures forall d :: d in s[start..] ==> d in s
  {
    var t := s[start..];
    forall i, j | 0 <= i < j < |t| ensures t[i].id != t[j].id {
      assert t[i] == s[start + i] && t[j] == s[start + j];
    }
  }

  /** cleanupOldVersions leaves every row that is not a deprecated version of the package, and the `keepCount` newest deprecated ones. */
  lemma CleanupKeeps(vs: seq<PackageVersion>, files: map<string, Bytes>, packageId: nat, keepCount: int,
                     unlinkOk: PackageVersion -> bool, removeOk: PackageVersion -> bool)
    requires UniqueIds(vs)
    ensures var dep := DeprecatedNewestFirst(vs, packageId);
            var r := Attempts(Cleanup(files, vs, 0), ToDelete(vs, packageId, keepCount), unlinkOk, removeOk);
            && (forall x :: x in vs && (x.packageId != packageId || !x.isDeprecated) ==> x in r.versions)
            && (forall i :: 0 <= i < keepCount && i < |dep| ==> dep[i] in r.versions)
  {
    var dep := DeprecatedNewestFirst(vs, packageId);
    var del := ToDelete(vs, packageId, keepCount);
    ToDeleteFacts(vs, packageId, keepCount);
    DeprecatedFacts(vs, packageId);
    SparedRows(vs, packageId, keepCount, dep, del);
    AttemptsKeep(Cleanup(files, vs, 0), del, unlinkOk, removeOk);
  }

  /** No row cleanupOldVersions deletes shares its id with another package's row, a live row, or one of the `keepCount` newest deprecated rows. */
  lemma SparedRows(vs: seq<PackageVersion>, packageId: nat, keepCount: int, dep: seq<PackageVersion>, del: seq<PackageVersion>)
    requires UniqueIds(vs) && UniqueIds(dep)
    requires forall d :: d in dep <==> d in vs && d.packageId == packageId && d.isDeprecated
    requires del == dep[Js.RelIndex(keepCount, |dep|)..]
    ensures forall x :: x in vs && (x.packageId != packageId || !x.isDeprecated) ==> forall d :: d in del ==> d.id != x.id
    ensures forall i :: 0 <= i < keepCount && i < |dep| ==> dep[i] in vs && forall d :: d in del ==> d.id != dep[i].id
  {
    var start := Js.RelIndex(keepCount, |dep|);
    forall x | x in vs && (x.packageId != packageId || !x.isDeprecated)
      ensures forall d :: d in del ==> d.id != x.id
    {
      forall d | d in del ensures d.id != x.id {
        assert d in dep;
        if d.id == x.id {
          SameIdSameRow(vs, x, d);
        }
      }
    }
    forall i | 0 <= i < keepCount && i < |dep|
      ensures dep[i] in vs && forall d :: d in del ==> d.id != dep[i].id
    {
      assert dep[i] in dep;
      forall d | d in del ensures d.id != dep[i].id {
        var k :| 0 <= k < |del| && del[k] == d;
        assert d == dep[start + k];
      }
    }
  }

  /** The count cleanupOldVersions returns is the number of rows it removed, and at most the number of deprecated versions beyond the first `keepCount`. */
  lemma CleanupCount(vs: seq<PackageVersion>, files: map<string, Bytes>, packageId: nat, keepCount: int,
                     unlinkOk: PackageVersion -> bool, removeOk: PackageVersion -> bool)
    requires UniqueIds(vs)
    ensures var dep := DeprecatedNewestFirst(vs, packageId);
            var r := Attempts(Cleanup(files, vs, 0), ToDelete(vs, packageId, keepCount), unlinkOk, removeOk);
            && r.deleted == |vs| - |r.versions|
            && r.deleted <= if keepCount < |dep| then |dep| - keepCount else 0
  {
    ToDeleteFacts(vs, packageId, keepCount);
    AttemptsCount(Cleanup(files, vs, 0), ToDelete(vs, packageId, keepCount), unlinkOk, removeOk);
  }

  /** A row whose id is beyond every stored id keeps the ids distinct. */
  lemma FreshRowKeepsUnique(vs: seq<PackageVersion>, v: PackageVersion, nextId: nat)
    requires UniqueIds(vs) && (forall x :: x in vs ==> x.id < nextId) && v.id == nextId
    ensures UniqueIds(vs + [v])
    ensures forall x :: x in vs + [v] ==> x == v || x in vs
  {
    var ws := vs + [v];
    forall i, j | 0 <= i < j < |ws| ensures ws[i].id != ws[j].id {
      if j == |vs| {
        assert ws[i] in vs;
      } else {
        assert ws[i] == vs[i] && ws[j] == vs[j];
      }
    }
  }

  // ---------------------------------------------------------------------------
  // The service
  // ---------------------------------------------------------------------------

  class VersionManagementService {
    const lib: Library
    const parse: Parser
    var packages: map<nat, Package>
    var versions: seq<PackageVersion>
    var files: map<string, Bytes>
    /** The next value of the `id` column's sequence. */
    var nextId: nat

    /** Every row belongs to a stored package (the foreign key), and rows have distinct ids below `nextId`. */
    predicate Valid()
      reads this
    {
      && (forall v :: v in versions ==> v.packageId in packages && v.id < nextId)
      && UniqueIds(versions)
    }

    constructor (lib: Library, parse: Parser, packages: map<nat, Package>, files: map<string, Bytes>)
      ensures Valid()
      ensures this.lib == lib && this.parse == parse && this.packages == packages && this.files == files
      ensures versions == [] && nextId == 0
    {
      this.lib := lib;
      this.parse := parse;
      this.packages := packages;
      this.files := files;
      versions := [];
      nextId := 0;
    }

    /**
     * `createVersion(dto)`, at time `now`. The checks run in the order of the
     * ensures clauses below; a manifest that cannot be extracted is stored as
     * null and rejects nothing.
     */
    method CreateVersion(dto: CreateVersionDto, now: int) returns (r: Result<PackageVersion, VersionError>)
      requires Valid()
      modifies this
      ensures Valid() && files == old(files)
      ensures dto.packageId !in old(packages) ==> r == Err(PackageNotFound)
      ensures dto.packageId in old(packages) && HasVersion(old(versions), dto.packageId, dto.version) ==> r == Err(VersionExists)
      ensures dto.packageId in old(packages) && !HasVersion(old(versions), dto.packageId, dto.version) && dto.filePath !in files ==>
                r == Err(FileNotFound)
      ensures dto.packageId in old(packages) && !HasVersion(old(versions), dto.packageId, dto.version) && dto.filePath in files
              && dto.vtype == Delta && (Falsy(dto.parentVersion) || Falsy(dto.targetVersion)) ==>
                r == Err(DeltaNeedsParentAndTarget)
      ensures dto.packageId in old(packages) && !HasVersion(old(versions), dto.packageId, dto.version) && dto.filePath in files
              && dto.vtype == Delta && !Falsy(dto.parentVersion) && !Falsy(dto.targetVersion)
              && !HasVersion(old(versions), dto.packageId, dto.parentVersion.value) ==>
                r == Err(ParentNotFound)
      ensures r.Err? ==> packages == old(packages) && versions == old(versions) && nextId == old(nextId)
      ensures r.Ok? ==> dto.packageId in old(packages) && !HasVersion(old(versions), dto.packageId, dto.version) && dto.filePath in files
                        && (dto.vtype == Delta ==> !Falsy(dto.parentVersion) && !Falsy(dto.targetVersion)
                                                   && HasVersion(old(versions), dto.packageId, dto.parentVersion.value))
      ensures r.Ok? ==>
                var content := files[dto.filePath];
                && r.value == NewRecord(dto, old(nextId), content, lib.sha256(content), ExtractManifest(lib, content), now)
                && versions == old(versions) + [r.value]
                && nextId == old(nextId) + 1
                && packages == old(packages)[dto.packageId := Advance(parse, old(packages)[dto.packageId], dto.vtype, dto.version, dto.isPublished)]
    {
      if dto.packageId !in packages {
        return Err(PackageNotFound);
      }
      var pkg := packages[dto.packageId];
      if IndexOfVersion(versions, dto.packageId, dto.version) >= 0 {
        return Err(VersionExists);
      }
      if dto.filePath !in files {
        return Err(FileNotFound);
      }
      var fileBuffer := files[dto.filePath];
      var fileHash := lib.sha256(fileBuffer);
      var manifest := ExtractManifest(lib, fileBuffer);
      if dto.vtype == Delta {
        if Falsy(dto.parentVersion) || Falsy(dto.targetVersion) {
          return Err(DeltaNeedsParentAndTarget);
        }
        if IndexOfVersion(versions, dto.packageId, dto.parentVersion.value) < 0 {
          return Err(ParentNotFound);
        }
      }
      var saved := NewRecord(dto, nextId, fileBuffer, fileHash, manifest, now);
      FreshRowKeepsUnique(versions, saved, nextId);
      versions := versions + [saved];
      nextId := nextId + 1;
      if dto.vtype == Full && IsNewerVersion(parse, dto.version, pkg.currentVersion) {
        pkg := pkg.(currentVersion := Some(dto.version));
        if saved.isPublished {
          pkg := pkg.(latestStableVersion := Some(dto.version));
        }
        packages := packages[dto.packageId := pkg];
      }
      r := Ok(saved);
    }

    /** `publishVersion(packageId, version)` */
    method PublishVersion(packageId: nat, version: string) returns (r: Result<PackageVersion, VersionError>)
      requires Valid()
      modifies this
      ensures Valid() && files == old(files) && nextId == old(nextId)
      ensures !HasVersion(old(versions), packageId, version) ==>
                r == Err(VersionNotFound) && versions == old(versions) && packages == old(packages)
      ensures HasVersion(old(versions), packageId, version) ==>
                var i := IndexOfVersion(old(versions), packageId, version);
                && r == Ok(old(versions)[i].(isPublished := true))
                && versions == old(versions)[i := r.value]
                && packages == old(packages)[packageId := Publish(parse, old(packages)[packageId], old(versions)[i])]
    {
      var i := IndexOfVersion(versions, packageId, version);
      if i < 0 {
        return Err(VersionNotFound);
      }
      assert versions[i] in versions;
      var packageVersion := versions[i].(isPublished := true);
      var pkg := packages[packageId];
      if packageVersion.vtype == Full && IsNewerVersion(parse, version, pkg.latestStableVersion) {
        packages := packages[packageId := pkg.(latestStableVersion := Some(version))];
      }
      versions := versions[i := packageVersion];
      r := Ok(packageVersion);
    }

    /** `deprecateVersion(packageId, version)`: sets `isDeprecated` on the row and touches nothing else. */
    method DeprecateVersion(packageId: nat, version: string) returns (r: Result<PackageVersion, VersionError>)
      requires Valid()
      modifies this
      ensures Valid() && files == old(files) && nextId == old(nextId) && packages == old(packages)
      ensures !HasVersion(old(versions), packageId, version) ==> r == Err(VersionNotFound) && versions == old(versions)
      ensures HasVersion(old(versions), packageId, version) ==>
                var i := IndexOfVersion(old(versions), packageId, version);
                r == Ok(old(versions)[i].(isDeprecated := true)) && versions == old(versions)[i := r.value]
    {
      var i := IndexOfVersion(versions, packageId, version);
      if i < 0 {
        return Err(VersionNotFound);
      }
      assert versions[i] in versions;
      var packageVersion := versions[i].(isDeprecated := true);
      versions := versions[i := packageVersion];
      r := Ok(packageVersion);
    }

    /** `recordDownload(packageId, version)`: every matching row's `downloadCount` goes up by one. */
    method RecordDownload(packageId: nat, version: string)
      requires Valid()
      modifies this
      ensures Valid() && files == old(files) && nextId == old(nextId) && packages == old(packages)
      ensures versions == Incremented(old(versions), packageId, version)
    {
      versions := Incremented(versions, packageId, version);
      assert forall i :: 0 <= i < |versions| ==> versions[i].id == old(versions)[i].id && versions[i].packageId == old(versions)[i].packageId;
    }

    /**
     * `cleanupOldVersions(packageId, keepCount)`, with `unlinkOk` and
     * `removeOk` saying which file deletions and row deletions succeed.
     */
    method CleanupOldVersions(packageId: nat, keepCount: int, unlinkOk: PackageVersion -> bool, removeOk: PackageVersion -> bool)
      returns (deletedCount: nat)
      requires Valid()
      modifies this
      ensures Valid() && nextId == old(nextId) && packages == old(packages)
      ensures Cleanup(files, versions, deletedCount)
              == Attempts(Cleanup(old(files), old(versions), 0), ToDelete(old(versions), packageId, keepCount), unlinkOk, removeOk)
    {
      var toDelete := ToDelete(versions, packageId, keepCount);
      ghost var st0 := Cleanup(files, versions, 0);
      ghost var st := st0;
      deletedCount := 0;
      for i := 0 to |toDelete|
        invariant st == AttemptsUpTo(st0, toDelete, i, unlinkOk, removeOk)
        invariant files == st.files && versions == st.versions && deletedCount == st.deleted
        invariant nextId == old(nextId) && packages == old(packages)
      {
        var version := toDelete[i];
        if version.filePath in files && !unlinkOk(version) {
          // fs.unlinkSync threw: the error is logged and the row is kept.
        } else {
          files := files - {version.filePath};
          if removeOk(version) {
            versions := Without(versions, version.id);
            deletedCount := deletedCount + 1;
          }
        }
        st := Attempt(st, version, unlinkOk, removeOk);
      }
      AttemptsUpToAll(st0, toDelete, |toDelete|, unlinkOk, removeOk);
      assert toDelete[..|toDelete|] == toDelete;
      AttemptsUniqueIds(st0, toDelete, unlinkOk, removeOk);
    }
  }
}
