/**
 * The DRK container: its manifest, the foreign primitives it is built from, and
 * its binary framing `"DRK\0" | manifest length (uint32 LE) | manifest JSON | data`.
 */
module DrkFormat {
  import opened Wrappers
  import opened Bytes
  import Js

  /** One element of the manifest's `file_entries`. `offset` and `compressedSize` are absent until the data section is built. */
  datatype FileEntry = FileEntry(
    path: string,
    size: int,
    hash: string,
    compressed: bool,
    offset: Option<int>,
    compressedSize: Option<int>)

  /** `x || 0` on an optional number. */
  function OrZero(n: Option<int>): int {
    n.GetOr(0)
  }

  /**
   * The manifest as `JSON.parse` yields it. `kind` is the JSON key `type`
   * ("" when absent); the fields whose absence changes what the code does are
   * optional.
   */
  datatype Manifest = Manifest(
    version: string,
    kind: string,
    createdAt: string,
    totalSize: int,
    compressedSize: int,
    fileCount: int,
    signature: Option<string>,
    hashTree: Option<map<string, string>>,
    fileEntries: Option<seq<FileEntry>>,
    metadata: map<string, string>)

  datatype KeyPair = KeyPair(publicKey: Bytes, secretKey: Bytes)

  /**
   * The library calls the container is made of: SHA-256 as a lower-case hex
   * digest (FIPS 180-4), Zstandard compression (RFC 8878; `decompress` is None
   * when it throws), Ed25519 detached signatures via tweetnacl (RFC 8032; `verify`
   * is false also where tweetnacl throws on a malformed signature), and the JSON
   * text of a manifest (`parse` is None on a syntax error).
   */
  datatype Library = Library(
    sha256: Bytes -> string,
    compress: Bytes -> Bytes,
    decompress: Bytes -> Option<Bytes>,
    sign: (Bytes, Bytes) -> Bytes,
    verify: (Bytes, Bytes, Bytes) -> bool,
    stringify: Manifest -> Bytes,
    parse: Bytes -> Option<Manifest>)

  /**
   * What the model takes as given of the library: a digest is 64 hex characters,
   * compression is lossless, a manifest survives JSON, and signatures made with
   * `keys` verify.
   */
  ghost predicate Sound(lib: Library, keys: KeyPair) {
    && (forall x :: |lib.sha256(x)| == 64)
    && (forall x :: lib.decompress(lib.compress(x)) == Some(x))
    && (forall m :: lib.parse(lib.stringify(m)) == Some(m))
    && (forall msg :: lib.verify(msg, lib.sign(msg, keys.secretKey), keys.publicKey))
  }

  /** `MAGIC_HEADER`, the bytes of "DRK\0". */
  const Magic: Bytes := [0x44, 0x52, 0x4B, 0x00]

  /** The first four bytes equal the magic header (`subarray(0, 4).equals(MAGIC_HEADER)`). */
  predicate HasMagic(pkg: Bytes)
    ensures HasMagic(pkg) <==> |pkg| >= 4 && pkg[..4] == Magic
  {
    Js.Slice(pkg, 0, 4) == Magic
  }

  /**
   * The buffer `savePackage` writes: magic, the manifest length, the manifest
   * JSON, the data section. None when `writeUInt32LE` rejects the length.
   */
  function Frame(manifestJson: Bytes, data: Bytes): (r: Option<Bytes>)
    ensures r.Some? <==> |manifestJson| < U32Limit
    ensures r.Some? ==> |r.value| == 8 + |manifestJson| + |data|
  {
    if |manifestJson| < U32Limit then Some(Magic + LE32(|manifestJson|) + manifestJson + data) else None
  }

  datatype Sections = Sections(manifestJson: Bytes, data: Bytes)

  /**
   * How every reader takes a package apart: `readUInt32LE(4)` (None when it
   * throws), then `subarray(8, 8 + len)` and `subarray(8 + len)`, both clamped.
   */
  function Split(pkg: Bytes): (r: Option<Sections>)
    ensures r.Some? <==> |pkg| >= 8
    ensures r.Some? ==> |r.value.manifestJson| <= ReadU32LE(pkg, 4)
    ensures r.Some? ==> pkg == pkg[..8] + r.value.manifestJson + r.value.data
  {
    if |pkg| < 8 then None
    else
      var len := ReadU32LE(pkg, 4);
      var r := Some(Sections(Js.Slice(pkg, 8, 8 + len), Js.Slice(pkg, 8 + len, |pkg|)));
      assert pkg == pkg[..8] + r.value.manifestJson + r.value.data by {
        if 8 + len <= |pkg| {
          assert pkg == pkg[..8] + pkg[8..8 + len] + pkg[8 + len..];
        } else {
          assert pkg == pkg[..8] + pkg[8..];
        }
      }
      r
  }

  /** Reading a framed package back yields exactly the manifest JSON and data it was framed from. */
  lemma FrameSplitRoundTrip(manifestJson: Bytes, data: Bytes)
    requires |manifestJson| < U32Limit
    ensures Frame(manifestJson, data).Some?
    ensures HasMagic(Frame(manifestJson, data).value)
    ensures Split(Frame(manifestJson, data).value) == Some(Sections(manifestJson, data))
  {
    var out := Frame(manifestJson, data).value;
    var n := |manifestJson|;
    assert out[..4] == Magic;
    assert out[4..8] == LE32(n);
    LE32RoundTrip(n);
    assert ReadU32LE(out, 4) == ReadU32LE(LE32(n), 0);
    assert out[8..8 + n] == manifestJson;
    assert out[8 + n..] == data;
  }

  /** Conversely, a package whose declared manifest fits in it is the frame of its two sections. */
  lemma SplitFrameInverse(pkg: Bytes)
    requires HasMagic(pkg) && |pkg| >= 8 && 8 + ReadU32LE(pkg, 4) <= |pkg|
    ensures Split(pkg).Some?
    ensures Frame(Split(pkg).value.manifestJson, Split(pkg).value.data) == Some(pkg)
  {
    var len := ReadU32LE(pkg, 4);
    var s := Split(pkg).value;
    assert s.manifestJson == pkg[8..8 + len];
    assert s.data == pkg[8 + len..];
    LE32OfRead(pkg, 4);
    FrameOfParts(pkg, len);
  }

  /** A buffer that starts with the magic and the length `len`, and holds at least that much, is the frame of what follows. */
  lemma FrameOfParts(pkg: Bytes, len: nat)
    requires len < U32Limit && 8 + len <= |pkg|
    requires pkg[..4] == Magic && pkg[4..8] == LE32(len)
    ensures Frame(pkg[8..8 + len], pkg[8 + len..]) == Some(pkg)
  {
    assert |pkg[8..8 + len]| == len;
    assert pkg == pkg[..4] + pkg[4..8] + pkg[8..8 + len] + pkg[8 + len..];
  }
}
