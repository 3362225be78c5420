/**
 The data compressor: it cuts a buffer into chunks, lets a codec work on each, and
 reassembles them. Any codec that restores single chunks restores whole buffers.
 */
module DataCompressor {
  import opened Arithmetic
  import opened Bytes

  function Min(a: nat, b: nat): nat {
    if a < b then a else b
  }

  /**
   A chunk codec. Compressing may depend on the chunk's number, so that every chunk can
   meet its own uninitialised memory; decompressing fills a buffer of the given size.
   */
  datatype Codec = Codec(enc: (nat, seq<byte>) -> seq<byte>, dec: (seq<byte>, nat) -> seq<byte>) {
    ghost predicate Fills() {
      forall s, n :: |dec(s, n)| == n
    }
  }

  // ---------- Chunks ----------

  /** Where chunk `i` starts. */
  function Offset(i: nat, size: pos): nat {
    i * size
  }

  lemma {:induction false} OffsetStep(i: nat, size: pos)
    ensures Offset(0, size) == 0 && Offset(i + 1, size) == Offset(i, size) + size
  {
  }

  function CompressFrom(k: Codec, size: pos, data: seq<byte>, i: nat): seq<seq<byte>>
    decreases |data|
  {
    if data == [] then []
    else
      var n := Min(size, |data|);
      [k.enc(i, data[..n])] + CompressFrom(k, size, data[n..], i + 1)
  }

  /** The chunks that `compress` leaves: one for the whole buffer, or one per `size` bytes with OpenMP. */
  function Compressed(k: Codec, openMP: bool, size: pos, data: seq<byte>): seq<seq<byte>> {
    if openMP then CompressFrom(k, size, data, 0) else [k.enc(0, data)]
  }

  function RestoreFrom(k: Codec, size: pos, inputs: seq<seq<byte>>, n: nat): seq<byte> {
    if inputs == [] then []
    else
      var m := Min(size, n);
      k.dec(inputs[0], m) + RestoreFrom(k, size, inputs[1..], n - m)
  }

  /** The test before reassembling several chunks; when it fails, `decompress` throws. */
  predicate Consistent(size: pos, inputs: nat, n: nat) {
    inputs <= 1 || n / size == inputs || n / size + 1 == inputs
  }

  /** The bytes that `decompress` stores at the start of a buffer of `n` bytes. */
  function Restored(k: Codec, size: pos, inputs: seq<seq<byte>>, n: nat): seq<byte> {
    if inputs == [] then []
    else if |inputs| == 1 then k.dec(inputs[0], n)
    else RestoreFrom(k, size, inputs, n)
  }

  /** The chunks are as many as the size rounded up to whole chunks. */
  lemma {:induction false} ChunkCount(k: Codec, size: pos, data: seq<byte>, i: nat)
    ensures |CompressFrom(k, size, data, i)| == (|data| + size - 1) / size
    decreases |data|
  {
    if data == [] {
      DivideUnique(size - 1, size, 0, size - 1);
    } else if |data| <= size {
      DivideUnique(|data| + size - 1, size, 1, |data| - 1);
      assert CompressFrom(k, size, data[|data|..], i + 1) == [];
    } else {
      ChunkCount(k, size, data[size..], i + 1);
      DivideStep(|data| - size + size - 1, size);
    }
  }

  /** Chunk `j` holds the bytes from its offset on, as many as there are of `size`. */
  lemma {:induction false} ChunkIs(k: Codec, size: pos, data: seq<byte>, i: nat, j: nat)
    requires j < |CompressFrom(k, size, data, i)|
    ensures var start := Offset(j, size);
            start < |data| && CompressFrom(k, size, data, i)[j] == k.enc(i + j, data[start..Min(start + size, |data|)])
    decreases j
  {
    hide Offset;
    OffsetStep(if j > 0 then j - 1 else 0, size);
    if j > 0 {
      var rest := data[Min(size, |data|)..];
      assert CompressFrom(k, size, data, i)[j] == CompressFrom(k, size, rest, i + 1)[j - 1];
      hide CompressFrom;
      ChunkIs(k, size, rest, i + 1, j - 1);
      SliceOfRest(data, size, Offset(j - 1, size), Min(Offset(j - 1, size) + size, |rest|));
    }
  }

  lemma {:induction false} SliceOfRest(data: seq<byte>, n: nat, start: nat, end: nat)
    requires n <= |data| && start <= end <= |data| - n
    ensures data[n..][start..end] == data[start + n..end + n]
  {
  }

  lemma {:induction false} CeilingOrFloor(n: nat, size: pos)
    ensures var c := (n + size - 1) / size; c == n / size || c == n / size + 1
  {
    DivideMonotone(n, n + size - 1, size);
    DivideMonotone(n + size - 1, n + size, size);
    DivideStep(n, size);
  }

  /** Decompressing never throws on what compressing left. */
  lemma {:induction false} CompressedIsConsistent(k: Codec, openMP: bool, size: pos, data: seq<byte>)
    ensures Consistent(size, |Compressed(k, openMP, size, data)|, |data|)
  {
    ChunkCount(k, size, data, 0);
    CeilingOrFloor(|data|, size);
  }

  /** A property of the chunks from chunk `i` on. */
  predicate Each(p: (nat, seq<byte>) -> bool, size: pos, data: seq<byte>, i: nat)
    decreases |data|
  {
    data == [] || (p(i, data[..Min(size, |data|)]) && Each(p, size, data[Min(size, |data|)..], i + 1))
  }

  /** A property of the chunks that a buffer is compressed in. */
  predicate EachChunk(p: (nat, seq<byte>) -> bool, openMP: bool, size: pos, data: seq<byte>) {
    if openMP then Each(p, size, data, 0) else p(0, data)
  }

  /** The codec restores chunk `i` if that is `c`. */
  function ChunkRestored(k: Codec): (nat, seq<byte>) -> bool {
    (i: nat, c: seq<byte>) => k.dec(k.enc(i, c), |c|) == c
  }

  lemma {:induction false} ConcatEqual(a: seq<byte>, b: seq<byte>, data: seq<byte>, n: nat)
    requires |a| == n <= |data|
    ensures a + b == data <==> a == data[..n] && b == data[n..]
  {
    assert data == data[..n] + data[n..];
    assert (a + b)[..n] == a && (a + b)[n..] == b;
  }

  lemma {:induction false} RestoreStep(k: Codec, size: pos, data: seq<byte>, i: nat)
    requires data != []
    ensures var n := Min(size, |data|);
            var c, rest := data[..n], data[n..];
            RestoreFrom(k, size, CompressFrom(k, size, data, i), |data|)
            == k.dec(k.enc(i, c), n) + RestoreFrom(k, size, CompressFrom(k, size, rest, i + 1), |rest|)
  {
    var n := Min(size, |data|);
    var chunks := CompressFrom(k, size, data[n..], i + 1);
    assert CompressFrom(k, size, data, i) == [k.enc(i, data[..n])] + chunks;
    assert ([k.enc(i, data[..n])] + chunks)[1..] == chunks;
  }

  /** The chunks from any one on give the rest of the buffer back exactly if each of them is restored. */
  lemma {:induction false} ChunksAreRestored(k: Codec, size: pos, data: seq<byte>, i: nat)
    requires k.Fills()
    ensures RestoreFrom(k, size, CompressFrom(k, size, data, i), |data|) == data
       <==> Each(ChunkRestored(k), size, data, i)
    decreases |data|
  {
    if data != [] {
      hide CompressFrom, RestoreFrom;
      var n := Min(size, |data|);
      var c, rest := data[..n], data[n..];
      RestoreStep(k, size, data, i);
      ChunksAreRestored(k, size, rest, i + 1);
      ConcatEqual(k.dec(k.enc(i, c), n), RestoreFrom(k, size, CompressFrom(k, size, rest, i + 1), |rest|), data, n);
    }
  }

  /**
   Compressing and decompressing a buffer restores it, for any chunk size, with and
   without OpenMP, if and only if the codec restores each single chunk.
   */
  lemma {:induction false} BufferRoundTrip(k: Codec, openMP: bool, size: pos, data: seq<byte>)
    requires k.Fills()
    ensures Restored(k, size, Compressed(k, openMP, size, data), |data|) == data
       <==> EachChunk(ChunkRestored(k), openMP, size, data)
  {
    if openMP {
      var chunks := CompressFrom(k, size, data, 0);
      ChunksAreRestored(k, size, data, 0);
      ChunkCount(k, size, data, 0);
      if |chunks| == 1 {
        OnlyChunk(k, size, data);
        assert data[..|data|] == data && data[|data|..] == [];
      }
    }
  }

  /** A property of all chunks that implies another one. */
  lemma {:induction false} EachImplies(p: (nat, seq<byte>) -> bool, q: (nat, seq<byte>) -> bool, size: pos,
                                       data: seq<byte>, i: nat)
    requires Each(p, size, data, i) && forall j, c :: 0 < |c| <= Min(size, |data|) && p(j, c) ==> q(j, c)
    ensures Each(q, size, data, i)
    decreases |data|
  {
    if data != [] {
      EachImplies(p, q, size, data[Min(size, |data|)..], i + 1);
    }
  }

  /** A property of every chunk there can be. */
  lemma {:induction false} EachAlways(p: (nat, seq<byte>) -> bool, size: pos, data: seq<byte>, i: nat)
    requires forall j, c :: 0 < |c| <= Min(size, |data|) ==> p(j, c)
    ensures Each(p, size, data, i)
    decreases |data|
  {
    if data != [] {
      EachAlways(p, size, data[Min(size, |data|)..], i + 1);
    }
  }

  /** A chunk that does not have the property. */
  lemma {:induction false} EachFails(p: (nat, seq<byte>) -> bool, size: pos, data: seq<byte>, i: nat)
    returns (j: nat, c: seq<byte>)
    requires !Each(p, size, data, i)
    ensures 0 < |c| <= Min(size, |data|) && !p(j, c)
    ensures forall q: (nat, seq<byte>) -> bool :: !q(j, c) ==> !Each(q, size, data, i)
    decreases |data|
  {
    var n := Min(size, |data|);
    if !p(i, data[..n]) {
      j, c := i, data[..n];
    } else {
      j, c := EachFails(p, size, data[n..], i + 1);
    }
  }

  /** A single chunk is the whole buffer. */
  lemma {:induction false} OnlyChunk(k: Codec, size: pos, data: seq<byte>)
    requires |CompressFrom(k, size, data, 0)| == 1
    ensures |data| <= size && CompressFrom(k, size, data, 0) == [k.enc(0, data)]
  {
    var n := Min(size, |data|);
    assert CompressFrom(k, size, data[n..], 1) == [];
    assert data[n..] == [] && data[..n] == data;
  }

  /**
   The test accepts several chunks exactly when they are the size rounded up to whole
   chunks, or one fewer and a rest of the size is not covered, or one more and there is no rest.
   */
  lemma {:induction false} ConsistentIff(size: pos, m: nat, n: nat)
    requires m > 1
    ensures var ceiling := (n + size - 1) / size;
            Consistent(size, m, n)
            <==> m == ceiling || (m + 1 == ceiling && n % size != 0) || (m == ceiling + 1 && n % size == 0)
  {
    var q, r := n / size, n % size;
    if r == 0 {
      DivideUnique(n + size - 1, size, q, size - 1);
    } else {
      assert size * (q + 1) == size * q + size;
      DivideUnique(n + size - 1, size, q + 1, r - 1);
    }
  }

  lemma {:induction false} RestoredSize(k: Codec, size: pos, inputs: seq<seq<byte>>, n: nat)
    requires k.Fills()
    ensures |RestoreFrom(k, size, inputs, n)| == Min(Offset(|inputs|, size), n)
    decreases |inputs|
  {
    OffsetStep(0, size);
    if inputs != [] {
      OffsetStep(|inputs| - 1, size);
      RestoredSize(k, size, inputs[1..], n - Min(size, n));
    }
  }

  /** One chunk too few passes the test all the same, and the bytes of the rest are not among those restored. */
  lemma {:induction false} RestIsNotRestored(k: Codec, size: pos, inputs: seq<seq<byte>>, n: nat)
    requires k.Fills() && |inputs| > 1 && |inputs| == n / size && n % size != 0
    ensures Consistent(size, |inputs|, n) && |Restored(k, size, inputs, n)| == n - n % size < n
  {
    RestoredSize(k, size, inputs, n);
    assert n == size * (n / size) + n % size;
  }

  function TotalSize(chunks: seq<seq<byte>>): nat {
    if chunks == [] then 0 else TotalSize(chunks[..|chunks| - 1]) + |chunks[|chunks| - 1]|
  }

  // ---------- The class ----------

  class Compressor {
    const codec: Codec
    const openMP: bool
    const chunkSize: pos
    var compressed: seq<seq<byte>>
    var bytesIn: nat
    var bytesOut: nat

    constructor (codec: Codec, openMP: bool, chunkSize: pos)
      ensures this.codec == codec && this.openMP == openMP && this.chunkSize == chunkSize
      ensures compressed == [] && bytesIn == 0 && bytesOut == 0
    {
      this.codec, this.openMP, this.chunkSize := codec, openMP, chunkSize;
      compressed, bytesIn, bytesOut := [], 0, 0;
    }

    method Compress(data: seq<byte>)
      modifies this
      ensures compressed == Compressed(codec, openMP, chunkSize, data)
      ensures bytesIn == old(bytesIn) + |data| && bytesOut == old(bytesOut) + TotalSize(compressed)
    {
      if openMP {
        compressed := CompressChunks(data);
      } else {
        compressed := [codec.enc(0, data)];
      }
      bytesIn := bytesIn + |data|;
      var total := DataSize(compressed);
      bytesOut := bytesOut + total;
    }

    method CompressChunks(data: seq<byte>) returns (chunks: seq<seq<byte>>)
      ensures chunks == CompressFrom(codec, chunkSize, data, 0)
    {
      hide CompressFrom, Offset;
      var nChunks := (|data| + chunkSize - 1) / chunkSize;
      ghost var whole := CompressFrom(codec, chunkSize, data, 0);
      ChunkCount(codec, chunkSize, data, 0);
      chunks := [];
      var i := 0;
      OffsetStep(0, chunkSize);
      assert data[0..] == data && [] + whole == whole;
      while i < nChunks
        invariant 0 <= i <= nChunks && |chunks| == i
        invariant chunks + CompressFrom(codec, chunkSize, data[Min(Offset(i, chunkSize), |data|)..], i) == whole
      {
        var start := Offset(i, chunkSize);
        var end := Min(Offset(i + 1, chunkSize), |data|);
        OffsetStep(i, chunkSize);
        CompressNext(data, start, i, chunks, whole);
        chunks := chunks + [codec.enc(i, data[start..end])];
        i := i + 1;
      }
      AllChunks(data, Offset(i, chunkSize), i, chunks, whole);
    }

    lemma {:induction false} CompressNext(data: seq<byte>, start: nat, i: nat, so_far: seq<seq<byte>>,
                          whole: seq<seq<byte>>)
      requires |so_far| == i < |whole|
      requires so_far + CompressFrom(codec, chunkSize, data[Min(start, |data|)..], i) == whole
      ensures start < |data|
      ensures var end := Min(start + chunkSize, |data|);
              so_far + [codec.enc(i, data[start..end])] + CompressFrom(codec, chunkSize, data[end..], i + 1) == whole
    {
      var rest := data[Min(start, |data|)..];
      assert CompressFrom(codec, chunkSize, rest, i) != [];
      var n := Min(chunkSize, |rest|);
      assert rest[..n] == data[start..start + n] && rest[n..] == data[start + n..];
    }

    lemma {:induction false} AllChunks(data: seq<byte>, start: nat, i: nat, so_far: seq<seq<byte>>,
                          whole: seq<seq<byte>>)
      requires |so_far| == i == |whole|
      requires so_far + CompressFrom(codec, chunkSize, data[Min(start, |data|)..], i) == whole
      ensures so_far == whole
    {
    }

    method DataSize(chunks: seq<seq<byte>>) returns (size: nat)
      ensures size == TotalSize(chunks)
    {
      size := 0;
      var i := 0;
      while i < |chunks|
        invariant 0 <= i <= |chunks| && size == TotalSize(chunks[..i])
      {
        assert chunks[..i + 1][..i] == chunks[..i];
        size := size + |chunks[i]|;
        i := i + 1;
      }
      assert chunks[..i] == chunks;
    }

    /** False stands for the exception thrown on an inconsistent number of chunks. */
    method Decompress(inputs: seq<seq<byte>>, data: array<byte>) returns (ok: bool)
      requires codec.Fills()
      modifies this, data
      ensures ok == Consistent(chunkSize, |inputs|, data.Length)
      ensures !ok ==> data[..] == old(data[..])
      ensures ok ==> var r := Restored(codec, chunkSize, inputs, data.Length);
                     |r| <= data.Length && data[..] == r + old(data[..])[|r|..]
      ensures bytesIn == old(bytesIn) + (if inputs == [] then 0 else data.Length)
      ensures bytesOut == old(bytesOut) + TotalSize(inputs) && compressed == old(compressed)
    {
      if |inputs| == 0 { return true; }
      bytesIn := bytesIn + data.Length;
      var total := DataSize(inputs);
      bytesOut := bytesOut + total;
      if |inputs| == 1 {
        Store(codec.dec(inputs[0], data.Length), data, 0);
        return true;
      }
      if data.Length / chunkSize != |inputs| && data.Length / chunkSize + 1 != |inputs| {
        return false;
      }
      DecompressChunks(inputs, data);
      return true;
    }

    method Store(bytes: seq<byte>, data: array<byte>, start: nat)
      requires start + |bytes| <= data.Length
      modifies data
      ensures data[..] == old(data[..start]) + bytes + old(data[start + |bytes|..])
    {
      forall i | 0 <= i < |bytes| { data[start + i] := bytes[i]; }
    }

    /** Stores the next chunk behind those already `done`; the rest of the buffer is as `before`. */
    method StoreNext(bytes: seq<byte>, data: array<byte>, ghost done: seq<byte>, ghost before: seq<byte>, start: nat)
      requires start == |done| && start + |bytes| <= data.Length == |before|
      requires data[..] == done + before[|done|..]
      modifies data
      ensures data[..] == (done + bytes) + before[|done + bytes|..]
    {
      assert data[..start] == done;
      assert data[start + |bytes|..] == before[start + |bytes|..];
      Store(bytes, data, start);
    }

    method DecompressChunks(inputs: seq<seq<byte>>, data: array<byte>)
      requires codec.Fills() && |inputs| > 1 && Consistent(chunkSize, |inputs|, data.Length)
      modifies data
      ensures var r := RestoreFrom(codec, chunkSize, inputs, data.Length);
              |r| <= data.Length && data[..] == r + old(data[..])[|r|..]
    {
      hide RestoreFrom, Offset, Consistent;
      ghost var before, whole, done := data[..], RestoreFrom(codec, chunkSize, inputs, data.Length), [];
      var i := 0;
      OffsetStep(0, chunkSize);
      assert inputs[0..] == inputs && [] + whole == whole && [] + before[0..] == before;
      while i < |inputs|
        invariant 0 <= i <= |inputs|
        invariant |done| == Min(Offset(i, chunkSize), data.Length)
        invariant data[..] == done + before[|done|..]
        invariant done + RestoreFrom(codec, chunkSize, inputs[i..], data.Length - |done|) == whole
      {
        StartsInside(|inputs|, i, data.Length);
        OffsetStep(i, chunkSize);
        var start := Offset(i, chunkSize);
        var end := Min(Offset(i + 1, chunkSize), data.Length);
        var bytes := codec.dec(inputs[i], end - start);
        RestoreNext(inputs, i, data.Length - |done|, done, whole);
        StoreNext(bytes, data, done, before, start);
        done := done + bytes;
        i := i + 1;
      }
      RestoreNothing(inputs[i..], data.Length - |done|);
      assert done + [] == done;
    }

    lemma {:induction false} RestoreNothing(inputs: seq<seq<byte>>, left: nat)
      requires inputs == []
      ensures RestoreFrom(codec, chunkSize, inputs, left) == []
    {
    }

    /** No chunk of a consistent number starts past the end of the buffer. */
    lemma {:induction false} StartsInside(inputs: nat, i: nat, n: nat)
      requires i < inputs && inputs > 1 && Consistent(chunkSize, inputs, n)
      ensures Offset(i, chunkSize) <= n
    {
      MulMonotone(chunkSize, i, n / chunkSize);
      assert n == chunkSize * (n / chunkSize) + n % chunkSize;
    }

    lemma {:induction false} RestoreNext(inputs: seq<seq<byte>>, i: nat, left: nat, done: seq<byte>, whole: seq<byte>)
      requires i < |inputs| && done + RestoreFrom(codec, chunkSize, inputs[i..], left) == whole
      ensures var m := Min(chunkSize, left);
              done + codec.dec(inputs[i], m) + RestoreFrom(codec, chunkSize, inputs[i + 1..], left - m) == whole
    {
      assert inputs[i..][1..] == inputs[i + 1..];
    }
  }
}
