/** Value types shared by the package-manager test helpers: bytes, an optional
    value, and the records the package library fills in (package info, file
    info, component info, zip codec parameters). Only the fields the helpers
    read or write are modelled. */
module PkgTypes {

  /** An unsigned 8-bit value, as stored in a `uint8_t` buffer. */
  type byte = b: int | 0 <= b < 256

  datatype Option<+T> = None | Some(value: T)

  /** Status code returned by the library and by stream callbacks on success. */
  const PkgSuccess: int := 0

  /** `PKG_COMPRESS_METHOD_*` */
  datatype PackMethod = CompressNone | CompressZip | CompressGzip | CompressLz4

  /** `PKG_DIGEST_TYPE_*` */
  datatype DigestMethod = DigestNone | DigestCrc | DigestSha256

  /** `PKG_SIGN_METHOD_*` */
  datatype SignMethod = SignNone | SignRsa

  /** `PKG_PACK_TYPE_*` */
  datatype PackType = PackUpgrade | PackZip | PackGzip | PackLz4

  /** Per-component file description (`FileInfo`). */
  datatype FileInfo = FileInfo(
    identity: string,
    unpackedSize: nat,
    packedSize: nat,
    packMethod: PackMethod,
    digestMethod: DigestMethod)

  /** Zip and gzip codec parameters (`ZipFileInfo`). */
  datatype ZipFileInfo = ZipFileInfo(
    fileInfo: FileInfo,
    zipMethod: int,
    level: int,
    memLevel: int,
    windowBits: int,
    strategy: int)

  /** Package-wide header fields (`PkgInfo`). */
  datatype PkgInfo = PkgInfo(
    entryCount: nat,
    digestMethod: DigestMethod,
    signMethod: SignMethod,
    pkgType: PackType)

  /** Upgrade-package header: the package info plus free-form metadata. */
  datatype UpgradePkgInfo = UpgradePkgInfo(
    pkgInfo: PkgInfo,
    softwareVersion: string,
    date: string,
    time: string,
    productUpdateId: string,
    updateFileVersion: nat)

  /** One component descriptor of an upgrade package (`ComponentInfo`). */
  datatype ComponentInfo = ComponentInfo(
    fileInfo: FileInfo,
    digest: seq<byte>,
    version: string,
    id: nat,
    resType: nat,
    componentType: nat,
    originalSize: nat,
    compFlags: nat)

  /** An entry of the list handed to `CreatePackage`: source path and descriptor. */
  datatype FileEntry = FileEntry(path: string, component: ComponentInfo)
}
