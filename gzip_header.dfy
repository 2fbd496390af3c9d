/** Skipping the optional part of a gzip member header before the DEFLATE
    payload (section 2.3.1 of RFC 1952), as the gzip decompression test sets up
    its input: the fixed 10-byte header is followed, in this order, by FEXTRA
    (a little-endian XLEN and XLEN bytes), FNAME and FCOMMENT (zero-terminated
    strings) and FHCRC (two bytes), each present only when its flag bit is set. */
module GzipHeader {
  import opened PkgTypes

  const HeaderCrc: bv8 := 0x02
  const ExtraField: bv8 := 0x04
  const OrigName: bv8 := 0x08
  const Comment: bv8 := 0x10
  /** The four flag bits the skipper looks at. */
  const OptionalFlags: bv8 := 0x1E

  /** Size of the fixed gzip header: ID1 ID2 CM FLG MTIME(4) XFL OS. */
  const FixedHeaderSize: nat := 10
  /** Size of the FHCRC field, which is skipped without being checked. */
  const HeaderCrcSize: nat := 2

  /** Codec parameters the test hands to the gzip decompressor. */
  const ZipMethodDeflate: int := 8
  const ZipLevel: int := 4
  const MemLevel: int := 8
  const RawWindowBits: int := -15
  const DefaultStrategy: int := 0

  predicate HasFlag(flags: bv8, mask: bv8) {
    flags & mask != 0
  }

  /** Little-endian 16-bit value of the two bytes at `at`. */
  function ReadLE16(data: seq<byte>, at: nat): (v: nat)
    requires at + 2 <= |data|
    ensures v < 0x1_0000
    ensures v % 256 == data[at] && v / 256 == data[at + 1]
  {
    data[at] as int + 256 * data[at + 1] as int
  }

  function EncodeLE16(v: nat): (bs: seq<byte>)
    requires v < 0x1_0000
    ensures |bs| == 2 && ReadLE16(bs, 0) == v
  {
    [v % 256, v / 256]
  }

  predicate NoZero(s: seq<byte>) {
    forall k :: 0 <= k < |s| ==> s[k] != 0
  }

  /** Index of the first zero byte of `buffer` at or after `from`, or the
      buffer's length when there is none. */
  function ZeroIndex(buffer: seq<byte>, from: nat): (r: nat)
    requires from <= |buffer|
    ensures from <= r <= |buffer|
    ensures forall k :: from <= k < r ==> buffer[k] != 0
    ensures r == |buffer| || buffer[r] == 0
    decreases |buffer| - from
  {
    if from == |buffer| || buffer[from] == 0 then from else ZeroIndex(buffer, from + 1)
  }

  /** The string read from a bounded buffer: the bytes before the first zero
      byte, or the whole buffer when it holds no zero byte. */
  function CString(buffer: seq<byte>): (s: seq<byte>)
    ensures |s| <= |buffer| && s == buffer[..|s|]
    ensures NoZero(s)
    ensures |s| == |buffer| || buffer[|s|] == 0
  {
    buffer[..ZeroIndex(buffer, 0)]
  }

  lemma {:induction false} ZeroIndexOfTerminated(s: seq<byte>, rest: seq<byte>, from: nat)
    requires NoZero(s) && from <= |s|
    ensures ZeroIndex(s + [0] + rest, from) == |s|
    decreases |s| - from
  {
    var buffer := s + [0] + rest;
    if from == |s| {
      assert buffer[from] == 0;
    } else {
      assert buffer[from] == s[from] != 0;
      ZeroIndexOfTerminated(s, rest, from + 1);
    }
  }

  /** A zero-free string followed by its terminator reads back as itself. */
  lemma CStringOfTerminated(s: seq<byte>, rest: seq<byte>)
    requires NoZero(s)
    ensures CString(s + [0] + rest) == s
  {
    ZeroIndexOfTerminated(s, rest, 0);
    assert (s + [0] + rest)[..|s|] == s;
  }

  // ---------------------------------------------------------------------------
  // Specification of the skipper. `None` marks an input on which the source
  // reads outside the mapped file.

  function SkipExtra(data: seq<byte>, flags: bv8, at: nat): Option<nat> {
    if !HasFlag(flags, ExtraField) then Some(at)
    else if at + 2 <= |data| then Some(at + 2 + ReadLE16(data, at))
    else None
  }

  function SkipString(data: seq<byte>, present: bool, at: nat): Option<nat> {
    if !present then Some(at)
    else if at <= |data| then Some(at + |CString(data[at..])| + 1)
    else None
  }

  function SkipCrc(flags: bv8, at: nat): nat {
    if HasFlag(flags, HeaderCrc) then at + HeaderCrcSize else at
  }

  /** Offset reached after the comment and the header CRC, from `at` on. */
  function AfterComment(data: seq<byte>, flags: bv8, at: nat): Option<nat> {
    match SkipString(data, HasFlag(flags, Comment), at)
    case None => None
    case Some(afterComment) => Some(SkipCrc(flags, afterComment))
  }

  /** Offset reached after the name, the comment and the header CRC, from `at` on. */
  function AfterName(data: seq<byte>, flags: bv8, at: nat): Option<nat> {
    match SkipString(data, HasFlag(flags, OrigName), at)
    case None => None
    case Some(afterName) => AfterComment(data, flags, afterName)
  }

  /** Offset reached after skipping the optional fields that `flags` announces,
      starting at `start`. */
  function OptionalFieldsEnd(data: seq<byte>, flags: bv8, start: nat): (r: Option<nat>)
    ensures r.Some? ==> r.value >= start
  {
    match SkipExtra(data, flags, start)
    case None => None
    case Some(afterExtra) => AfterName(data, flags, afterExtra)
  }

  /** The smallest number of bytes the announced fields can occupy. */
  function MinFieldsSize(flags: bv8): nat {
    (if HasFlag(flags, ExtraField) then 2 else 0)
    + (if HasFlag(flags, OrigName) then 1 else 0)
    + (if HasFlag(flags, Comment) then 1 else 0)
    + (if HasFlag(flags, HeaderCrc) then HeaderCrcSize else 0)
  }

  /** With no optional flag set the offset does not move; every set flag moves
      it forward by at least the minimal size of its field. */
  lemma AdvancesByFlags(data: seq<byte>, flags: bv8, start: nat)
    requires OptionalFieldsEnd(data, flags, start).Some?
    ensures OptionalFieldsEnd(data, flags, start).value >= start + MinFieldsSize(flags)
    ensures OptionalFieldsEnd(data, flags, start).value == start <==> flags & OptionalFlags == 0
  {
    assert flags & OptionalFlags == 0 <==>
      !HasFlag(flags, ExtraField) && !HasFlag(flags, OrigName)
      && !HasFlag(flags, Comment) && !HasFlag(flags, HeaderCrc);
  }

  /** Bits outside FEXTRA, FNAME, FCOMMENT and FHCRC (FTEXT, reserved) do not
      influence the skipper. */
  lemma IgnoresOtherFlagBits(data: seq<byte>, flags: bv8, start: nat)
    ensures OptionalFieldsEnd(data, flags, start) == OptionalFieldsEnd(data, flags & OptionalFlags, start)
  {
    var masked := flags & OptionalFlags;
    assert HasFlag(masked, ExtraField) == HasFlag(flags, ExtraField);
    assert HasFlag(masked, OrigName) == HasFlag(flags, OrigName);
    assert HasFlag(masked, Comment) == HasFlag(flags, Comment);
    assert HasFlag(masked, HeaderCrc) == HasFlag(flags, HeaderCrc);
  }

  // ---------------------------------------------------------------------------
  // The imperative skipper of the test.

  /** Sets the gzip codec parameters in `zipInfo` and advances `offset` past the
      optional header fields of the mapped file `data`, whose flag byte is
      `flags`. */
  method InitGzipFile(zipInfo: ZipFileInfo, offset: nat, data: seq<byte>, flags: bv8)
    returns (info: ZipFileInfo, newOffset: nat)
    requires OptionalFieldsEnd(data, flags, offset).Some?
    ensures newOffset == OptionalFieldsEnd(data, flags, offset).value
    ensures info.fileInfo.identity == "gzip"
    ensures info.fileInfo.packMethod == CompressGzip
    ensures info.fileInfo.digestMethod == DigestNone
    ensures info.fileInfo.unpackedSize == zipInfo.fileInfo.unpackedSize
    ensures info.fileInfo.packedSize == zipInfo.fileInfo.packedSize
    ensures info.zipMethod == ZipMethodDeflate && info.level == ZipLevel
    ensures info.memLevel == MemLevel && info.windowBits == RawWindowBits
    ensures info.strategy == DefaultStrategy
  {
    info := zipInfo.(
      fileInfo := zipInfo.fileInfo.(identity := "gzip", packMethod := CompressGzip, digestMethod := DigestNone),
      zipMethod := ZipMethodDeflate,
      level := ZipLevel,
      memLevel := MemLevel,
      windowBits := RawWindowBits,
      strategy := DefaultStrategy);

    newOffset := offset;
    if HasFlag(flags, ExtraField) {
      var extLen := ReadLE16(data, newOffset);
      newOffset := newOffset + 2 + extLen;
    }
    assert SkipExtra(data, flags, offset) == Some(newOffset);
    ghost var afterExtra := newOffset;
    if HasFlag(flags, OrigName) {
      var fileName := CString(data[newOffset..]);
      newOffset := newOffset + |fileName| + 1;
    }
    assert SkipString(data, HasFlag(flags, OrigName), afterExtra) == Some(newOffset);
    ghost var afterName := newOffset;
    if HasFlag(flags, Comment) {
      var comment := CString(data[newOffset..]);
      newOffset := newOffset + |comment| + 1;
    }
    assert SkipString(data, HasFlag(flags, Comment), afterName) == Some(newOffset);
    assert AfterComment(data, flags, afterName) == Some(SkipCrc(flags, newOffset));
    if HasFlag(flags, HeaderCrc) {
      newOffset := newOffset + HeaderCrcSize;
    }
  }

  // ---------------------------------------------------------------------------
  // Partner: the encoding of the optional fields that section 2.3.1 of
  // RFC 1952 prescribes.

  datatype OptionalFields = OptionalFields(
    extra: Option<seq<byte>>,
    name: Option<seq<byte>>,
    comment: Option<seq<byte>>,
    headerCrc: Option<nat>)

  /** Fields an encoder can write: XLEN and the CRC16 fit 16 bits, and the name
      and the comment carry no zero byte of their own. */
  predicate Encodable(f: OptionalFields) {
    && (f.extra.Some? ==> |f.extra.value| < 0x1_0000)
    && (f.name.Some? ==> NoZero(f.name.value))
    && (f.comment.Some? ==> NoZero(f.comment.value))
    && (f.headerCrc.Some? ==> f.headerCrc.value < 0x1_0000)
  }

  function FlagsOf(f: OptionalFields): bv8 {
    (if f.extra.Some? then ExtraField else 0)
    | (if f.name.Some? then OrigName else 0)
    | (if f.comment.Some? then Comment else 0)
    | (if f.headerCrc.Some? then HeaderCrc else 0)
  }

  function ExtraBytes(extra: Option<seq<byte>>): seq<byte>
    requires extra.Some? ==> |extra.value| < 0x1_0000
  {
    if extra.Some? then EncodeLE16(|extra.value|) + extra.value else []
  }

  function StringBytes(s: Option<seq<byte>>): seq<byte> {
    if s.Some? then s.value + [0] else []
  }

  function CrcBytes(crc: Option<nat>): seq<byte>
    requires crc.Some? ==> crc.value < 0x1_0000
  {
    if crc.Some? then EncodeLE16(crc.value) else []
  }

  function EncodeOptional(f: OptionalFields): seq<byte>
    requires Encodable(f)
  {
    ExtraBytes(f.extra) + StringBytes(f.name) + StringBytes(f.comment) + CrcBytes(f.headerCrc)
  }

  lemma FlagsOfBits(f: OptionalFields)
    ensures HasFlag(FlagsOf(f), ExtraField) == f.extra.Some?
    ensures HasFlag(FlagsOf(f), OrigName) == f.name.Some?
    ensures HasFlag(FlagsOf(f), Comment) == f.comment.Some?
    ensures HasFlag(FlagsOf(f), HeaderCrc) == f.headerCrc.Some?
  {
  }

  lemma SkipExtraStep(data: seq<byte>, flags: bv8, at: nat, extra: Option<seq<byte>>, rest: seq<byte>)
    requires extra.Some? ==> |extra.value| < 0x1_0000
    requires HasFlag(flags, ExtraField) == extra.Some?
    requires at <= |data| && data[at..] == ExtraBytes(extra) + rest
    ensures SkipExtra(data, flags, at) == Some(at + |ExtraBytes(extra)|)
    ensures data[at + |ExtraBytes(extra)|..] == rest
  {
    if extra.Some? {
      var len := EncodeLE16(|extra.value|);
      assert data[at..][..2] == len;
      assert data[at] == len[0] && data[at + 1] == len[1];
      assert ReadLE16(data, at) == ReadLE16(len, 0);
    }
    assert data[at + |ExtraBytes(extra)|..] == data[at..][|ExtraBytes(extra)|..];
  }

  lemma SkipStringStep(data: seq<byte>, present: bool, at: nat, s: Option<seq<byte>>, rest: seq<byte>)
    requires s.Some? ==> NoZero(s.value)
    requires present == s.Some?
    requires at <= |data| && data[at..] == StringBytes(s) + rest
    ensures SkipString(data, present, at) == Some(at + |StringBytes(s)|)
    ensures data[at + |StringBytes(s)|..] == rest
  {
    if s.Some? {
      CStringOfTerminated(s.value, rest);
    }
    assert data[at + |StringBytes(s)|..] == data[at..][|StringBytes(s)|..];
  }

  /** The length of the encoding: 2 + XLEN for FEXTRA, the string length + 1
      for FNAME and for FCOMMENT, 2 for FHCRC. */
  lemma EncodedSize(f: OptionalFields)
    requires Encodable(f)
    ensures |EncodeOptional(f)| ==
      (if f.extra.Some? then 2 + |f.extra.value| else 0)
      + (if f.name.Some? then |f.name.value| + 1 else 0)
      + (if f.comment.Some? then |f.comment.value| + 1 else 0)
      + (if f.headerCrc.Some? then HeaderCrcSize else 0)
  {
  }

  lemma SuffixAfterPrefix(prefix: seq<byte>, x: seq<byte>, n: seq<byte>, c: seq<byte>, h: seq<byte>, payload: seq<byte>)
    ensures (prefix + (x + n + c + h) + payload)[|prefix|..] == x + (n + (c + (h + payload)))
  {
    assert prefix + (x + n + c + h) + payload == prefix + (x + (n + (c + (h + payload))));
  }

  lemma CommentOnwardSkipped(data: seq<byte>, flags: bv8, at: nat,
                              comment: Option<seq<byte>>, crc: Option<nat>, payload: seq<byte>)
    requires comment.Some? ==> NoZero(comment.value)
    requires crc.Some? ==> crc.value < 0x1_0000
    requires HasFlag(flags, Comment) == comment.Some? && HasFlag(flags, HeaderCrc) == crc.Some?
    requires at <= |data| && data[at..] == StringBytes(comment) + (CrcBytes(crc) + payload)
    ensures AfterComment(data, flags, at) == Some(at + |StringBytes(comment)| + |CrcBytes(crc)|)
  {
    SkipStringStep(data, HasFlag(flags, Comment), at, comment, CrcBytes(crc) + payload);
  }

  lemma NameOnwardSkipped(data: seq<byte>, flags: bv8, at: nat, name: Option<seq<byte>>,
                           comment: Option<seq<byte>>, crc: Option<nat>, payload: seq<byte>)
    requires name.Some? ==> NoZero(name.value)
    requires comment.Some? ==> NoZero(comment.value)
    requires crc.Some? ==> crc.value < 0x1_0000
    requires HasFlag(flags, OrigName) == name.Some?
    requires HasFlag(flags, Comment) == comment.Some? && HasFlag(flags, HeaderCrc) == crc.Some?
    requires at <= |data|
    requires data[at..] == StringBytes(name) + (StringBytes(comment) + (CrcBytes(crc) + payload))
    ensures AfterName(data, flags, at) ==
      Some(at + |StringBytes(name)| + |StringBytes(comment)| + |CrcBytes(crc)|)
  {
    SkipStringStep(data, HasFlag(flags, OrigName), at, name, StringBytes(comment) + (CrcBytes(crc) + payload));
    CommentOnwardSkipped(data, flags, at + |StringBytes(name)|, comment, crc, payload);
  }

  /** Given the fields one by one, with their encoding (extra, name, comment,
      header CRC) at `data[at..]` and the flags announcing exactly the present
      ones, the skipper started at `at` stops right after the encoding. */
  lemma AllFieldsSkipped(data: seq<byte>, flags: bv8, at: nat, extra: Option<seq<byte>>, name: Option<seq<byte>>,
                          comment: Option<seq<byte>>, crc: Option<nat>, payload: seq<byte>)
    requires extra.Some? ==> |extra.value| < 0x1_0000
    requires name.Some? ==> NoZero(name.value)
    requires comment.Some? ==> NoZero(comment.value)
    requires crc.Some? ==> crc.value < 0x1_0000
    requires HasFlag(flags, ExtraField) == extra.Some? && HasFlag(flags, OrigName) == name.Some?
    requires HasFlag(flags, Comment) == comment.Some? && HasFlag(flags, HeaderCrc) == crc.Some?
    requires at <= |data|
    requires data[at..] == ExtraBytes(extra) + (StringBytes(name) + (StringBytes(comment) + (CrcBytes(crc) + payload)))
    ensures OptionalFieldsEnd(data, flags, at) ==
      Some(at + |ExtraBytes(extra)| + |StringBytes(name)| + |StringBytes(comment)| + |CrcBytes(crc)|)
  {
    SkipExtraStep(data, flags, at, extra, StringBytes(name) + (StringBytes(comment) + (CrcBytes(crc) + payload)));
    NameOnwardSkipped(data, flags, at + |ExtraBytes(extra)|, name, comment, crc, payload);
  }

  /** Skipping the encoding of any encodable set of fields, placed anywhere in
      a buffer, lands exactly on the first byte after it. */
  lemma {:induction false} SkipsEncodedFields(f: OptionalFields, prefix: seq<byte>, payload: seq<byte>)
    requires Encodable(f)
    ensures OptionalFieldsEnd(prefix + EncodeOptional(f) + payload, FlagsOf(f), |prefix|)
            == Some(|prefix| + |EncodeOptional(f)|)
  {
    FlagsOfBits(f);
    var x, n, c, h := ExtraBytes(f.extra), StringBytes(f.name), StringBytes(f.comment), CrcBytes(f.headerCrc);
    SuffixAfterPrefix(prefix, x, n, c, h, payload);
    AllFieldsSkipped(prefix + (x + n + c + h) + payload, FlagsOf(f), |prefix|,
                     f.extra, f.name, f.comment, f.headerCrc, payload);
  }

  /** A complete gzip member header: the fixed part with FLG at byte 3,
      followed by the optional fields. */
  function MemberHeader(f: OptionalFields, mtime: seq<byte>, xfl: byte, os: byte): (h: seq<byte>)
    requires Encodable(f) && |mtime| == 4
  {
    [0x1f, 0x8b, ZipMethodDeflate, FlagsOf(f) as int] + mtime + [xfl, os] + EncodeOptional(f)
  }

  /** Starting at the end of the fixed header and reading the flags from its
      FLG byte, the skipper stops exactly where the compressed payload begins. */
  lemma PayloadFollowsHeader(f: OptionalFields, mtime: seq<byte>, xfl: byte, os: byte, payload: seq<byte>)
    requires Encodable(f) && |mtime| == 4
    ensures var data := MemberHeader(f, mtime, xfl, os) + payload;
      && |data| >= FixedHeaderSize
      && OptionalFieldsEnd(data, data[3] as bv8, FixedHeaderSize) == Some(|MemberHeader(f, mtime, xfl, os)|)
      && data[|MemberHeader(f, mtime, xfl, os)|..] == payload
  {
    var fixed := [0x1f, 0x8b, ZipMethodDeflate, FlagsOf(f) as int] + mtime + [xfl, os];
    var data := MemberHeader(f, mtime, xfl, os) + payload;
    assert data == fixed + EncodeOptional(f) + payload;
    assert data[3] as bv8 == FlagsOf(f);
    SkipsEncodedFields(f, fixed, payload);
  }
}
