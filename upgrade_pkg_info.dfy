/** The upgrade-package description the packing tests build before calling
    `CreatePackage`: the package header and one component descriptor per test
    file, each stored uncompressed (pack method none) with a SHA-256 digest. */
module UpgradePkgInfoBuilder {
  import opened PkgTypes

  const SoftwareVersion: string := "100.100.100.100"
  const BuildDate: string := "2021-02-02"
  const BuildTime: string := "21:23:49"
  const ProductUpdateId: string := "555.555.100.555"
  const TestFileVersion: nat := 1000
  const ComponentVersion: string := "2.2.2.2"
  const ComponentInfoId: nat := 100

  /** Index of the first NUL character of `s` at or after `from`, or `|s|`. */
  function NulIndex(s: string, from: nat): (r: nat)
    requires from <= |s|
    ensures from <= r <= |s|
    ensures forall k :: from <= k < r ==> s[k] != '\0'
    ensures r == |s| || s[r] == '\0'
    decreases |s| - from
  {
    if from == |s| || s[from] == '\0' then from else NulIndex(s, from + 1)
  }

  /** The characters a `c_str()` view of `s` shows: those before the first NUL. */
  function CStr(s: string): (p: string)
    ensures |p| <= |s| && p == s[..|p|]
    ensures forall k :: 0 <= k < |p| ==> p[k] != '\0'
    ensures |p| == |s| || s[|p|] == '\0'
  {
    s[..NulIndex(s, 0)]
  }

  lemma {:induction false} NulIndexOfTerminated(s: string, rest: string, from: nat)
    requires from <= |s|
    requires forall k :: 0 <= k < |s| ==> s[k] != '\0'
    ensures NulIndex(s + ['\0'] + rest, from) == |s|
    decreases |s| - from
  {
    if from < |s| {
      NulIndexOfTerminated(s, rest, from + 1);
    }
  }

  /** A name with no NUL is seen whole; one with a NUL is cut just before it. */
  lemma CStrOfTerminated(s: string, rest: string)
    requires forall k :: 0 <= k < |s| ==> s[k] != '\0'
    ensures CStr(s) == s
    ensures CStr(s + ['\0'] + rest) == s
  {
    NulIndexOfTerminated(s, rest, 0);
    assert (s + ['\0'] + rest)[..|s|] == s;
  }

  /** `e` is the descriptor of the test file `name`: its identity is the whole
      name, its path is `pathFrom` followed by the name up to its first NUL (the
      `c_str()` append), and its size and digest are what the filesystem
      reports for that path. */
  ghost predicate DescribesFile(e: FileEntry, pathFrom: string, name: string,
                                fileSize: string -> nat, fileDigest: string -> seq<byte>)
  {
    && e.path == pathFrom + CStr(name)
    && e.component.fileInfo.identity == name
    && e.component.fileInfo.unpackedSize == fileSize(e.path)
    && e.component.fileInfo.packedSize == fileSize(e.path)
    && e.component.fileInfo.packMethod == CompressNone
    && e.component.fileInfo.digestMethod == DigestSha256
    && e.component.digest == fileDigest(e.path)
    && e.component.version == ComponentVersion
    && e.component.id == ComponentInfoId
    && e.component.resType == 0
    && e.component.componentType == 0
    && e.component.originalSize == fileSize(e.path)
    && e.component.compFlags == 0
  }

  /** A stored (uncompressed) component occupies exactly its own size. */
  predicate StoredSizesAgree(c: ComponentInfo) {
    c.fileInfo.packMethod == CompressNone ==>
      c.fileInfo.packedSize == c.fileInfo.unpackedSize == c.originalSize
  }

  /** The header counts exactly the descriptors of the table, and every stored
      component's sizes agree. */
  predicate TableConsistent(info: PkgInfo, files: seq<FileEntry>) {
    && info.entryCount == |files|
    && forall i :: 0 <= i < |files| ==> StoredSizesAgree(files[i].component)
  }

  function Identities(files: seq<FileEntry>): (ids: seq<string>)
    ensures |ids| == |files|
    ensures forall i :: 0 <= i < |files| ==> ids[i] == files[i].component.fileInfo.identity
  {
    if files == [] then [] else [files[0].component.fileInfo.identity] + Identities(files[1..])
  }

  predicate Distinct(names: seq<string>) {
    forall i, j :: 0 <= i < j < |names| ==> names[i] != names[j]
  }

  /** Fills the upgrade-package header and one descriptor per test file.
      `fileSize` and `fileDigest` stand for the size query and the SHA-256
      digest the test computes from each file. */
  method GetUpgradePkgInfo(testFileNames: seq<string>, pathFrom: string,
                           fileSize: string -> nat, fileDigest: string -> seq<byte>)
    returns (pkgInfo: UpgradePkgInfo, files: seq<FileEntry>)
    ensures pkgInfo.softwareVersion == SoftwareVersion && pkgInfo.date == BuildDate
    ensures pkgInfo.time == BuildTime && pkgInfo.productUpdateId == ProductUpdateId
    ensures pkgInfo.updateFileVersion == TestFileVersion
    ensures pkgInfo.pkgInfo.entryCount == |testFileNames| == |files|
    ensures pkgInfo.pkgInfo.digestMethod == DigestSha256 && pkgInfo.pkgInfo.signMethod == SignRsa
    ensures pkgInfo.pkgInfo.pkgType == PackUpgrade
    ensures forall i :: 0 <= i < |files| ==> DescribesFile(files[i], pathFrom, testFileNames[i], fileSize, fileDigest)
  {
    pkgInfo := UpgradePkgInfo(
      PkgInfo(|testFileNames|, DigestSha256, SignRsa, PackUpgrade),
      SoftwareVersion, BuildDate, BuildTime, ProductUpdateId, TestFileVersion);
    var componentInfoId := ComponentInfoId;
    var table := new FileEntry[|testFileNames|];
    for i := 0 to |testFileNames|
      invariant forall k :: 0 <= k < i ==> DescribesFile(table[k], pathFrom, testFileNames[k], fileSize, fileDigest)
    {
      var filePath := pathFrom + CStr(testFileNames[i]);
      var info := table[i].component;
      info := info.(digest := fileDigest(filePath));
      info := info.(fileInfo := info.fileInfo.(identity := testFileNames[i]));
      info := info.(fileInfo := info.fileInfo.(unpackedSize := fileSize(filePath)));
      info := info.(fileInfo := info.fileInfo.(packedSize := info.fileInfo.unpackedSize));
      info := info.(fileInfo := info.fileInfo.(packMethod := CompressNone));
      info := info.(fileInfo := info.fileInfo.(digestMethod := DigestSha256));
      info := info.(version := ComponentVersion, id := componentInfoId, resType := 0, componentType := 0);
      info := info.(originalSize := info.fileInfo.unpackedSize, compFlags := 0);
      table[i] := FileEntry(filePath, info);
    }
    files := table[..];
  }

  /** A table built this way is consistent: one descriptor per file counted in
      the header, and sizes that agree for every stored component. */
  lemma DescribedTableIsConsistent(info: PkgInfo, names: seq<string>, files: seq<FileEntry>, pathFrom: string,
                                   fileSize: string -> nat, fileDigest: string -> seq<byte>)
    requires info.entryCount == |names| == |files|
    requires forall i :: 0 <= i < |files| ==> DescribesFile(files[i], pathFrom, names[i], fileSize, fileDigest)
    ensures TableConsistent(info, files)
  {
    forall i | 0 <= i < |files|
      ensures StoredSizesAgree(files[i].component)
    {
      assert DescribesFile(files[i], pathFrom, names[i], fileSize, fileDigest);
    }
  }

  /** The identities of the table are the test file names in order, so they are
      unique exactly when the names are. */
  lemma IdentitiesAreTheNames(names: seq<string>, files: seq<FileEntry>, pathFrom: string,
                              fileSize: string -> nat, fileDigest: string -> seq<byte>)
    requires |names| == |files|
    requires forall i :: 0 <= i < |files| ==> DescribesFile(files[i], pathFrom, names[i], fileSize, fileDigest)
    ensures Identities(files) == names
    ensures Distinct(Identities(files)) <==> Distinct(names)
  {
    var ids := Identities(files);
    forall i | 0 <= i < |names|
      ensures ids[i] == names[i]
    {
      assert DescribesFile(files[i], pathFrom, names[i], fileSize, fileDigest);
    }
  }
}
