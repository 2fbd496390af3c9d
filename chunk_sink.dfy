/** The write-at-offset sink the decompression tests hand to a callback-backed
    package stream. Each call delivers a chunk (buffer, size, start): the
    destination vector grows to the next multiple of its current length when
    the chunk ends past it, the chunk is copied to [start, start + size), and
    the callback reports success. */
module ChunkSink {
  import opened PkgTypes

  /** Length the tests give the destination before decompressing. */
  const InitialSize: nat := 1024

  function Zeros(n: nat): (z: seq<byte>)
    ensures |z| == n && forall k :: 0 <= k < n ==> z[k] == 0
  {
    seq(n, _ => 0)
  }

  /** Length of the destination after a chunk ending at `end` arrives at a
      destination of length `oldLen`. */
  function GrownLength(oldLen: nat, end: nat): nat
    requires oldLen > 0
  {
    if end > oldLen then oldLen * (end / oldLen + 1) else oldLen
  }

  lemma {:induction false} ProductAtLeast(d: nat, m: nat)
    ensures d >= 1 ==> d * m >= m
  {
    if d > 1 {
      ProductAtLeast(d - 1, m);
      assert d * m == (d - 1) * m + m;
    }
  }

  lemma MultipleHasNoRemainder(k: nat, m: nat)
    requires m > 0
    ensures (k * m) % m == 0
  {
    var a := k * m;
    var q, r := a / m, a % m;
    assert a == q * m + r;
    var d := k - q;
    assert r == d * m;
    ProductAtLeast(if d >= 0 then d else -d, m);
    assert d < 0 ==> d * m == -((-d) * m);
  }

  /** The destination keeps its length when the chunk fits; otherwise it grows
      to the least multiple of its old length that is strictly greater than
      the end of the chunk. */
  lemma GrownLengthIsNextMultiple(oldLen: nat, end: nat)
    requires oldLen > 0
    ensures GrownLength(oldLen, end) >= oldLen
    ensures end <= oldLen ==> GrownLength(oldLen, end) == oldLen
    ensures end > oldLen ==>
      && GrownLength(oldLen, end) % oldLen == 0
      && GrownLength(oldLen, end) > end
      && GrownLength(oldLen, end) - oldLen <= end
  {
    if end > oldLen {
      var q := end / oldLen;
      var n := GrownLength(oldLen, end);
      assert end == q * oldLen + end % oldLen;
      assert n == oldLen * (q + 1);
      assert n == q * oldLen + oldLen;
      MultipleHasNoRemainder(q + 1, oldLen);
      assert (q + 1) * oldLen == n;
    }
  }

  /** The destination after writing `chunk` at `start`: resized (zero-filled)
      to `GrownLength`, then the chunk spliced in. */
  function WriteAt(s: seq<byte>, chunk: seq<byte>, start: nat): (r: seq<byte>)
    requires |s| > 0
    ensures |r| == GrownLength(|s|, start + |chunk|) && start + |chunk| <= |r| && |s| <= |r|
    ensures forall k :: 0 <= k < |r| ==>
      r[k] == if start <= k < start + |chunk| then chunk[k - start]
              else if k < |s| then s[k] else 0
  {
    GrownLengthIsNextMultiple(|s|, start + |chunk|);
    var resized := s + Zeros(GrownLength(|s|, start + |chunk|) - |s|);
    resized[..start] + chunk + resized[start + |chunk|..]
  }

  /** The bytes of the chunk are exactly at [start, start + |chunk|), and every
      byte that existed before and lies outside that range keeps its value. */
  lemma WriteAtPlacesChunk(s: seq<byte>, chunk: seq<byte>, start: nat)
    requires |s| > 0
    ensures WriteAt(s, chunk, start)[start..start + |chunk|] == chunk
    ensures forall k :: 0 <= k < |s| && !(start <= k < start + |chunk|) ==> WriteAt(s, chunk, start)[k] == s[k]
    ensures |WriteAt(s, chunk, start)| == |s| <==> start + |chunk| <= |s|
  {
    var r := WriteAt(s, chunk, start);
    assert forall k :: 0 <= k < |chunk| ==> r[start..start + |chunk|][k] == r[start + k] == chunk[k];
    GrownLengthIsNextMultiple(|s|, start + |chunk|);
  }

  /** Delivering the same chunk twice leaves the destination as one delivery does. */
  lemma RedeliveryIsHarmless(s: seq<byte>, chunk: seq<byte>, start: nat)
    requires |s| > 0
    ensures WriteAt(WriteAt(s, chunk, start), chunk, start) == WriteAt(s, chunk, start)
  {
    var once := WriteAt(s, chunk, start);
    var twice := WriteAt(once, chunk, start);
    assert |twice| == |once|;
    assert forall k :: 0 <= k < |twice| ==> twice[k] == once[k];
  }

  function Concat(chunks: seq<seq<byte>>): seq<byte> {
    if chunks == [] then [] else chunks[0] + Concat(chunks[1..])
  }

  /** Chunks delivered one after another, each starting where the previous ended. */
  function WriteSequence(s: seq<byte>, chunks: seq<seq<byte>>, start: nat): (r: seq<byte>)
    requires |s| > 0
    ensures |r| >= |s|
    decreases |chunks|
  {
    if chunks == [] then s
    else WriteSequence(WriteAt(s, chunks[0], start), chunks[1..], start + |chunks[0]|)
  }

  /** Deliveries at or after `start` never touch the bytes before it. */
  lemma {:induction false} WriteSequenceKeepsPrefix(s: seq<byte>, chunks: seq<seq<byte>>, start: nat)
    requires |s| > 0
    ensures forall k :: 0 <= k < start && k < |s| ==> WriteSequence(s, chunks, start)[k] == s[k]
    decreases |chunks|
  {
    if chunks != [] {
      var s1 := WriteAt(s, chunks[0], start);
      WriteSequenceKeepsPrefix(s1, chunks[1..], start + |chunks[0]|);
    }
  }

  /** The first chunk of a run survives the deliveries that follow it. */
  lemma HeadChunkKept(s: seq<byte>, c: seq<byte>, rest: seq<seq<byte>>, start: nat)
    requires |s| > 0
    ensures var r := WriteSequence(WriteAt(s, c, start), rest, start + |c|);
      start + |c| <= |r| && r[start..start + |c|] == c
  {
    var s1 := WriteAt(s, c, start);
    var r := WriteSequence(s1, rest, start + |c|);
    WriteSequenceKeepsPrefix(s1, rest, start + |c|);
    forall k | 0 <= k < |c|
      ensures r[start..start + |c|][k] == c[k]
    {
      assert r[start + k] == s1[start + k];
    }
  }

  lemma AdjacentSlices(r: seq<byte>, start: nat, a: seq<byte>, b: seq<byte>)
    requires start + |a| + |b| <= |r|
    requires r[start..start + |a|] == a && r[start + |a|..start + |a| + |b|] == b
    ensures r[start..start + |a| + |b|] == a + b
  {
    assert r[start..start + |a| + |b|] == r[start..start + |a|] + r[start + |a|..start + |a| + |b|];
  }

  /** A producer that pushes consecutive chunks leaves their concatenation at
      [start, start + total size), and nothing before `start` is touched. */
  lemma {:induction false} SequentialChunksAssemble(s: seq<byte>, chunks: seq<seq<byte>>, start: nat)
    requires |s| > 0 && (start <= |s| || chunks != [])
    ensures var r := WriteSequence(s, chunks, start);
      && start + |Concat(chunks)| <= |r|
      && r[start..start + |Concat(chunks)|] == Concat(chunks)
      && forall k :: 0 <= k < start && k < |s| ==> r[k] == s[k]
    decreases |chunks|
  {
    WriteSequenceKeepsPrefix(s, chunks, start);
    if chunks != [] {
      var c, rest := chunks[0], chunks[1..];
      var s1 := WriteAt(s, c, start);
      var r := WriteSequence(s1, rest, start + |c|);
      assert WriteSequence(s, chunks, start) == r;
      SequentialChunksAssemble(s1, rest, start + |c|);
      HeadChunkKept(s, c, rest, start);
      assert Concat(chunks) == c + Concat(rest);
      AdjacentSlices(r, start, c, Concat(rest));
    }
  }

  /** The destination vector the callback captures. Its length never drops to
      zero, so the growth rule never divides by zero. */
  class GrowingBuffer {
    var data: array<byte>

    ghost predicate Valid()
      reads this
    {
      data.Length > 0
    }

    function Contents(): seq<byte>
      reads this, data
    {
      data[..]
    }

    /** A destination of `size` zero bytes. */
    constructor (size: nat)
      requires size > 0
      ensures Valid() && fresh(data)
      ensures Contents() == Zeros(size)
    {
      var zeroed := new byte[size];
      var i := 0;
      while i < size
        invariant 0 <= i <= size
        invariant forall k :: 0 <= k < i ==> zeroed[k] == 0
      {
        zeroed[i] := 0;
        i := i + 1;
      }
      data := zeroed;
    }

    /** The callback: deliver `size` bytes of `buffer` at offset `start`. */
    method Process(buffer: seq<byte>, size: nat, start: nat, isFinish: bool) returns (status: int)
      requires Valid() && size <= |buffer|
      modifies this, data
      ensures Valid() && (data == old(data) || fresh(data))
      ensures status == PkgSuccess
      ensures Contents() == WriteAt(old(Contents()), buffer[..size], start)
    {
      ghost var before := data[..];
      var oldSize := data.Length;
      if start + size > oldSize {
        var newSize := oldSize * ((start + size) / oldSize + 1);
        assert newSize == GrownLength(oldSize, start + size);
        GrownLengthIsNextMultiple(oldSize, start + size);
        var grown := new byte[newSize];
        var i := 0;
        while i < grown.Length
          modifies grown
          invariant 0 <= i <= grown.Length
          invariant forall k :: 0 <= k < i ==> grown[k] == if k < oldSize then before[k] else 0
        {
          grown[i] := if i < oldSize then data[i] else 0;
          i := i + 1;
        }
        data := grown;
      }
      var j := 0;
      while j < size
        modifies data
        invariant 0 <= j <= size
        invariant data.Length == GrownLength(oldSize, start + size) >= start + size
        invariant forall k :: 0 <= k < data.Length ==>
          data[k] == if start <= k < start + j then buffer[k - start]
                     else if k < oldSize then before[k] else 0
      {
        data[start + j] := buffer[j];
        j := j + 1;
      }
      status := PkgSuccess;
      ghost var expected := WriteAt(before, buffer[..size], start);
      assert forall k :: 0 <= k < data.Length ==> data[..][k] == expected[k];
      assert data[..] == expected;
    }
  }
}
