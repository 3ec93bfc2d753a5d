/**
 * verifyPackage: the magic header, the manifest, the Ed25519 signature over the
 * data section, and the presence of a hash tree. Every exception the steps can
 * raise is caught and reported as `false`.
 */
module DrkVerifier {
  import opened Wrappers
  import opened Bytes
  import opened DrkFormat
  import opened DrkBuilder

  /** verifyPackage on the bytes of a package file. */
  function VerifyBytes(lib: Library, publicKey: Bytes, pkg: Bytes): (ok: bool)
    ensures !HasMagic(pkg) || |pkg| < 8 ==> !ok
    ensures HasMagic(pkg) && Split(pkg).Some? && lib.parse(Split(pkg).value.manifestJson).None? ==> !ok
    ensures ok ==> var m := lib.parse(Split(pkg).value.manifestJson).value;
                   && m.signature.Some? && m.hashTree.Some?
                   && lib.verify(Split(pkg).value.data, HexDecode(m.signature.value), publicKey)
    ensures HasMagic(pkg) && Split(pkg).Some? && lib.parse(Split(pkg).value.manifestJson).Some? ==>
              var m := lib.parse(Split(pkg).value.manifestJson).value;
              (m.signature.None? || m.hashTree.None?) ==> !ok
  {
    if !HasMagic(pkg) then false
    else
      match Split(pkg)
      case None => false
      case Some(s) =>
        match lib.parse(s.manifestJson)
        case None => false
        case Some(m) =>
          && m.signature.Some?
          && lib.verify(s.data, HexDecode(m.signature.value), publicKey)
          && m.hashTree.Some?
  }

  /** verifyPackage(packagePath): a file that cannot be read does not verify. */
  function VerifyFile(lib: Library, publicKey: Bytes, files: map<string, Bytes>, path: string): (ok: bool)
    ensures ok <==> path in files && VerifyBytes(lib, publicKey, files[path])
  {
    path in files && VerifyBytes(lib, publicKey, files[path])
  }

  /** A framed package with a well-formed manifest verifies exactly when its signature does. */
  lemma FramedVerifies(lib: Library, keys: KeyPair, m: Manifest, data: Bytes)
    requires Sound(lib, keys) && |lib.stringify(m)| < U32Limit
    requires m.signature.Some? && m.hashTree.Some?
    ensures VerifyBytes(lib, keys.publicKey, Frame(lib.stringify(m), data).value)
            <==> lib.verify(data, HexDecode(m.signature.value), keys.publicKey)
  {
    FrameSplitRoundTrip(lib.stringify(m), data);
  }

  /** A full package as createFullPackage writes it passes verifyPackage under the service's own key. */
  lemma FullPackageVerifies(lib: Library, keys: KeyPair, source: seq<Node>, metadata: map<string, string>, createdAt: string)
    requires Sound(lib, keys)
    requires FullPackage(lib, keys, source, metadata, createdAt).Ok?
    ensures VerifyBytes(lib, keys.publicKey, FullPackage(lib, keys, source, metadata, createdAt).value)
  {
    var files := Collected(lib, source, "");
    var c := Collection(files, AddHashes(map[], files));
    var b := Build(lib, files, source).value;
    var m := PackageManifest(lib, keys, "full", createdAt, c, b, FullMetadata(metadata));
    HexRoundTrip(lib.sign(b.data, keys.secretKey));
    FramedVerifies(lib, keys, m, b.data);
  }

  /** Likewise every delta package createDeltaPackage writes. */
  lemma DeltaPackageVerifies(lib: Library, keys: KeyPair, base: Manifest, source: seq<Node>, metadata: map<string, string>, createdAt: string)
    requires Sound(lib, keys)
    requires DeltaPackage(lib, keys, base, source, metadata, createdAt).Ok?
    requires DeltaPackage(lib, keys, base, source, metadata, createdAt).value.Some?
    ensures VerifyBytes(lib, keys.publicKey, DeltaPackage(lib, keys, base, source, metadata, createdAt).value.value)
  {
    var all := Collected(lib, source, "");
    var c := Collection(ChangedOnly(all, base.hashTree.GetOr(map[])), AddHashes(map[], all));
    var b := Build(lib, c.files, source).value;
    var m := PackageManifest(lib, keys, "delta", createdAt, c, b, DeltaMetadata(base, metadata));
    HexRoundTrip(lib.sign(b.data, keys.secretKey));
    FramedVerifies(lib, keys, m, b.data);
  }

  /**
   * The signature covers the data section only: replacing the manifest of a
   * package that verifies by any other manifest that keeps its signature and has
   * a hash tree gives a package that still verifies.
   */
  lemma ManifestNotSigned(lib: Library, keys: KeyPair, pkg: Bytes, forged: Manifest)
    requires Sound(lib, keys)
    requires VerifyBytes(lib, keys.publicKey, pkg)
    requires forged.signature == lib.parse(Split(pkg).value.manifestJson).value.signature
    requires forged.hashTree.Some? && |lib.stringify(forged)| < U32Limit
    ensures VerifyBytes(lib, keys.publicKey, Frame(lib.stringify(forged), Split(pkg).value.data).value)
  {
    FramedVerifies(lib, keys, forged, Split(pkg).value.data);
  }
}
