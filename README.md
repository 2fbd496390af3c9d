# Package-manager test helpers, modelled in Dafny

The package-manager unit tests of the updater exercise a container library
that packs, loads, extracts, compresses and decompresses update packages. Most
of the tests call the library directly. Besides those calls, the test file
contains three self-contained helpers. This project models those three helpers
and proves what they promise:

- **Gzip optional-header skipper** (`gzip_header.dfy`, module `GzipHeader`).
  Before handing a `.gz` file to the gzip decompressor, the test starts at the
  end of the fixed 10-byte gzip header and advances an offset past the
  optional FEXTRA, FNAME, FCOMMENT and FHCRC fields, in that order and with the
  encodings of section 2.3.1 of RFC 1952. It also fills in the zip codec
  parameters (deflate, level 4, memory level 8, raw window of -15 bits,
  default strategy). `InitGzipFile` is the step-by-step skipper.
  `OptionalFieldsEnd` is its pure specification. An RFC 1952 encoder of the
  optional fields (`EncodeOptional`, `MemberHeader`) is the partner: skipping
  any encoded header lands exactly on the payload.
- **Growing write-at-offset sink** (`chunk_sink.dfy`, module `ChunkSink`).
  This is the callback the decompression tests attach to a callback-backed
  stream. It receives `(buffer, size, start)`. When `start + size` passes the
  end of the destination vector, it grows the vector to
  `oldSize * ((start + size) / oldSize + 1)`. It then copies the chunk to
  `[start, start + size)` and returns success. `GrowingBuffer` is a class whose
  `data` array is replaced by a larger copy when it grows. `WriteAt`
  specifies one delivery and `WriteSequence` a run of consecutive deliveries.
- **Upgrade-package descriptor table** (`upgrade_pkg_info.dfy`, module
  `UpgradePkgInfoBuilder`). `GetUpgradePkgInfo` fills the package header and,
  in a loop, one component descriptor per test file. The descriptor's identity
  is the whole file name. Its path is the source directory followed by the name
  up to its first NUL character, because the name is appended through
  `c_str()`. Each descriptor is
  stored uncompressed with a SHA-256 digest, so its packed, unpacked and
  original sizes all equal the file size.

`pkg_types.dfy` (module `PkgTypes`) holds the records these helpers fill in
(`FileInfo`, `ZipFileInfo`, `PkgInfo`, `UpgradePkgInfo`, `ComponentInfo`), the
method enumerations, bytes and an option type. It models only the fields the
helpers touch.

The gzip header flags are an input to the skipper. `PayloadFollowsHeader`
places them where RFC 1952 puts them, at byte 3 (FLG) of the fixed header.
The mapped file is a `seq<byte>` whose length is the file size.

## Model

| member | source | states |
|---|---|---|
| `GzipHeader.ReadLE16` | test/unittest/package/pkg_manager_unittest.cpp:583 | XLEN is the little-endian 16-bit value of the two bytes at the offset: below 65536, low byte first, high byte second |
| `GzipHeader.EncodeLE16` | test/unittest/package/pkg_manager_unittest.cpp:583 | the two-byte little-endian encoding of any 16-bit value reads back as that value |
| `GzipHeader.CString` | test/unittest/package/pkg_manager_unittest.cpp:588-594 | a string read from a bounded buffer is a prefix of it, holds no zero byte, and is followed by a zero byte or by the end of the buffer |
| `GzipHeader.CStringOfTerminated` | test/unittest/package/pkg_manager_unittest.cpp:586-595 | a zero-free name or comment followed by its terminator reads back as exactly that string |
| `GzipHeader.OptionalFieldsEnd` | test/unittest/package/pkg_manager_unittest.cpp:582-598 | the offset after the optional fields is never before the starting offset |
| `GzipHeader.AdvancesByFlags` | test/unittest/package/pkg_manager_unittest.cpp:582-598 | with none of FEXTRA, FNAME, FCOMMENT, FHCRC set the offset is unchanged, and only then; each set flag advances it by at least its field's minimal size (2, 1, 1, 2) |
| `GzipHeader.IgnoresOtherFlagBits` | test/unittest/package/pkg_manager_unittest.cpp:582-598 | flag bits other than 0x02, 0x04, 0x08 and 0x10 do not affect the offset |
| `GzipHeader.InitGzipFile` | test/unittest/package/pkg_manager_unittest.cpp:565-600 | the step-by-step skipper ends at the offset the specification gives, and the codec parameters are set to gzip identity, gzip packing, no digest, deflate method 8, level 4, memory level 8, window bits -15 and default strategy; sizes are kept |
| `GzipHeader.SkipExtraStep` | test/unittest/package/pkg_manager_unittest.cpp:582-585 | when FEXTRA is set, the offset moves past the two XLEN bytes and then XLEN more bytes; otherwise it stays |
| `GzipHeader.SkipStringStep` | test/unittest/package/pkg_manager_unittest.cpp:586-595 | FNAME and FCOMMENT each move the offset past the string read at the offset reached so far and past its single terminator |
| `GzipHeader.NameOnwardSkipped` | test/unittest/package/pkg_manager_unittest.cpp:586-598 | name, comment and header CRC are skipped in that order, each from where the previous field ended |
| `GzipHeader.EncodedSize` | test/unittest/package/pkg_manager_unittest.cpp:582-598 | the optional fields take (FEXTRA ? 2 + XLEN : 0) + (FNAME ? name length + 1 : 0) + (FCOMMENT ? comment length + 1 : 0) + (FHCRC ? 2 : 0) bytes |
| `GzipHeader.SkipsEncodedFields` | test/unittest/package/pkg_manager_unittest.cpp:582-598 | skipping any RFC 1952 encoding of the optional fields, wherever it sits in the file, ends exactly on the first byte after it |
| `GzipHeader.PayloadFollowsHeader` | test/unittest/package/pkg_manager_unittest.cpp:637-642 | starting at offset 10 with the flags read from the FLG byte of a gzip member header, the skipper stops exactly where the compressed payload begins |
| `ChunkSink.GrownLengthIsNextMultiple` | test/unittest/package/pkg_manager_unittest.cpp:529-532 | the destination keeps its length when the chunk fits; otherwise the new length is a multiple of the old one, strictly greater than `start + size`, and the least such multiple |
| `ChunkSink.WriteAt` | test/unittest/package/pkg_manager_unittest.cpp:529-533 | after a delivery the destination is at least `start + size` long; bytes in `[start, start + size)` are the chunk's, earlier bytes outside it are unchanged, and bytes added by growth are zero |
| `ChunkSink.WriteAtPlacesChunk` | test/unittest/package/pkg_manager_unittest.cpp:529-533 | the chunk occupies `[start, start + size)`, pre-existing bytes outside it keep their values, and the length is unchanged exactly when `start + size` does not pass the old end |
| `ChunkSink.RedeliveryIsHarmless` | test/unittest/package/pkg_manager_unittest.cpp:529-533 | delivering the same chunk twice at the same offset gives the same destination as delivering it once |
| `ChunkSink.SequentialChunksAssemble` | test/unittest/package/pkg_manager_unittest.cpp:523-535 | chunks delivered one after another, each starting where the previous one ended, leave their concatenation at `[start, start + total)`, and nothing before `start` changes; the first chunk may start past the end of the destination, which then grows and is zero-filled |
| `ChunkSink.GrowingBuffer.constructor` | test/unittest/package/pkg_manager_unittest.cpp:519-520 | the destination starts as the requested number of zero bytes (1024 in the tests) |
| `ChunkSink.GrowingBuffer.Process` | test/unittest/package/pkg_manager_unittest.cpp:523-535 | the callback always returns success, its destination stays non-empty, and its new contents are `WriteAt` of the old contents and the first `size` bytes of the buffer at `start`; the same lambda appears again at lines 614-626 |
| `UpgradePkgInfoBuilder.CStr` | test/unittest/package/pkg_manager_unittest.cpp:111 | the `c_str()` view of a name is a prefix of it, holds no NUL, and is followed by a NUL or by the end of the name |
| `UpgradePkgInfoBuilder.CStrOfTerminated` | test/unittest/package/pkg_manager_unittest.cpp:110-111 | a NUL-free name is appended whole; a name with an embedded NUL is appended only up to that NUL |
| `UpgradePkgInfoBuilder.GetUpgradePkgInfo` | test/unittest/package/pkg_manager_unittest.cpp:95-129 | the header carries the fixed version, date, time, product id and file version, SHA-256 digests, RSA signing and the upgrade type, with `entryCount` equal to the number of test files; there is exactly one descriptor per file, in order; its identity is the whole file name, its path is the source directory followed by the name up to its first NUL, stores it uncompressed with packed, unpacked and original sizes all equal to the file size, and carries the file's digest, version 2.2.2.2, id 100 and zero tags and flags |
| `UpgradePkgInfoBuilder.DescribedTableIsConsistent` | test/unittest/package/pkg_manager_unittest.cpp:101-127 | such a table satisfies the package invariant: `entryCount` equals the number of descriptors and every stored component has packed size = unpacked size = original size |
| `UpgradePkgInfoBuilder.IdentitiesAreTheNames` | test/unittest/package/pkg_manager_unittest.cpp:108-116 | the identities of the table are the test file names in order, so they are unique exactly when the names are |

## Left out

- The package library's operations are not part of this model: `CreatePackage`, `LoadPackage`, `GetFileInfo`, `CreatePkgStream`, `ExtractFile`, `CompressBuffer`, `DecompressBuffer` and `ClosePkgStream`. Their implementations are not in the modelled file, and the tests only compare their status codes on real files.
- Filesystem I/O is left out: `open`, `mmap`, `munmap`, `close`, `CheckFile` and `GetCurrPath`. `GetFileSize` and `BuildFileDigest` become the function parameters `fileSize` and `fileDigest` of `GetUpgradePkgInfo`. The mapped gzip file becomes the byte sequence `data`.
- SHA-256 (`SHA256_Init`, `SHA256_Update`, `SHA256_Final`) is a foreign cryptographic library. It is represented only by the digest parameter.
- The compression-level and LZ4 block-id retry loops are left out. Their outcome depends entirely on the compressor, which is not part of this model.
- The `TestPkgStream` overrides are left out. They are stubs that return success or forward to the stream base class.
- `ReadLE64` in the read test is left out; its result is discarded.
- Logging and the test framework's `EXPECT_*` assertions are left out. These record failures but do not change control flow. This covers the assertions on `BuildFileDigest` and `memcpy_s` results.
- `ReadLE16` and `PkgFile::ConvertBufferToString` are not part of this model. They are modelled as a little-endian 16-bit decode and as "the bytes before the first zero byte, or the whole bounded buffer when it holds none".
- The layout of `GZipHeader` is not part of this model, so `InitGzipFile` takes the flag byte as a parameter.
- GzipHeader.InitGzipFile: inputs on which the test would read outside the mapped file are excluded by its precondition. The test does no bounds checking, so on such input it has undefined behaviour. These inputs are: XLEN at fewer than two bytes from the end, or a name or comment starting past the end (`fileSize - offset` would wrap).
- ChunkSink.GrowingBuffer.Process: `start + size` and the new vector length are unbounded integers, so `size_t` wrap-around is not modelled. A `memcpy_s` failure is not modelled either. The unused `isFinish` and `context` arguments have no effect.
- UpgradePkgInfoBuilder.GetUpgradePkgInfo: `entryCount`, the loop counter and the component id are unbounded integers. The `uint32_t` and `uint16_t` widths are not modelled; they matter only with 2^32 or more test files. The digest is whatever `fileDigest` returns; the 32-byte buffer size is not modelled.
