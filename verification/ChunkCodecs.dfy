/**
 The three codecs of this repository under the data compressor: a buffer is restored if
 and only if the sizes of each of its chunks stay within what the codec can handle. What
 a rejected chunk leaves in the buffer is arbitrary, and so is what a chunk holds after a
 write behind its reserved size.
 */
module ChunkCodecs {
  import opened Arithmetic
  import opened Bytes
  import opened DataCompressor
  import LzFormat
  import LzSearch
  import FastLzCompress
  import FastLz
  import LzfCompress
  import Lzf
  import RleData

  /** A buffer of `n` bytes after a decoder yielded `out`, or all `left` where it was rejected. */
  function Filled(out: Option<seq<byte>>, n: nat, left: byte): (r: seq<byte>)
    ensures |r| == n
    ensures out.Some? && |out.value| == n ==> r == out.value
  {
    if out.Some? && |out.value| == n then out.value else seq(n, _ => left)
  }

  lemma {:induction false} FilledIs(out: Option<seq<byte>>, c: seq<byte>, left: byte)
    requires c != [] && left != c[0]
    ensures Filled(out, |c|, left) == c <==> out == Some(c)
  {
    if out.None? || |out.value| != |c| {
      assert Filled(out, |c|, left)[0] == left;
    }
  }

  /** The largest chunk that is handed to the codec, which takes its size as a C integer. */
  function LargestChunk(openMP: bool, size: pos, data: seq<byte>): nat {
    if openMP then Min(size, |data|) else |data|
  }

  /** Whatever a rejected chunk leaves, the buffer comes back. */
  ghost predicate AlwaysRestored(codec: byte -> Codec, openMP: bool, size: pos, data: seq<byte>) {
    forall left: byte :: Restored(codec(left), size, Compressed(codec(left), openMP, size, data), |data|) == data
  }

  /** The codec restores every chunk with property `p`, whatever a rejected chunk leaves. */
  ghost predicate Restores(codec: byte -> Codec, p: (nat, seq<byte>) -> bool, limit: nat) {
    forall left, i, c :: 0 < |c| <= limit && p(i, c) ==> codec(left).Fills() && ChunkRestored(codec(left))(i, c)
  }

  /** It restores no other chunk, unless what was left happens to look like it. */
  ghost predicate Rejects(codec: byte -> Codec, p: (nat, seq<byte>) -> bool, limit: nat) {
    forall left, i, c :: 0 < |c| <= limit && !p(i, c) && left != c[0] ==> !ChunkRestored(codec(left))(i, c)
  }

  ghost predicate Fills(codec: byte -> Codec) {
    forall left :: codec(left).Fills()
  }

  lemma {:induction false} RestoredIf(codec: byte -> Codec, p: (nat, seq<byte>) -> bool, openMP: bool, size: pos,
                                      data: seq<byte>)
    requires Fills(codec) && Restores(codec, p, LargestChunk(openMP, size, data))
    requires EachChunk(p, openMP, size, data)
    ensures AlwaysRestored(codec, openMP, size, data)
  {
    forall left: byte
      ensures Restored(codec(left), size, Compressed(codec(left), openMP, size, data), |data|) == data
    {
      BufferRoundTrip(codec(left), openMP, size, data);
      if openMP {
        EachImplies(p, ChunkRestored(codec(left)), size, data, 0);
      }
    }
  }

  lemma {:induction false} RestoredOnlyIf(codec: byte -> Codec, p: (nat, seq<byte>) -> bool, openMP: bool, size: pos,
                                          data: seq<byte>)
    requires p(0, []) && Fills(codec) && Rejects(codec, p, LargestChunk(openMP, size, data))
    requires !EachChunk(p, openMP, size, data)
    ensures !AlwaysRestored(codec, openMP, size, data)
  {
    var j, c := 0, data;
    if openMP {
      j, c := EachFails(p, size, data, 0);
    }
    var left: byte := if c[0] == 0 then 1 else 0;
    BufferRoundTrip(codec(left), openMP, size, data);
  }

  // ---------- Run-length coding ----------

  /** The compressed chunk stays within its reserved size. */
  function RleKept(): (nat, seq<byte>) -> bool {
    (i: nat, c: seq<byte>) => |RleData.CompressChunk(c)| <= RleData.CompressBound(|c|)
  }

  /** `after`: what the chunk is taken for when it was written behind its reserved size. */
  function RleCodec(after: seq<byte>): byte -> Codec {
    (left: byte) =>
      Codec((i, c) => if RleKept()(i, c) then RleData.CompressChunk(c) else after,
            (s, n) => Filled(RleData.DecompressChunk(s, n), n, left))
  }

  lemma {:induction false} RleRestores(after: seq<byte>, limit: nat)
    ensures Fills(RleCodec(after)) && Restores(RleCodec(after), RleKept(), limit)
    ensures RleKept()(0, []) && Rejects(RleCodec([]), RleKept(), limit)
  {
    hide RleData.CompressChunk, RleData.DecompressChunk;
    forall left: byte, i: nat, c: seq<byte> | 0 < |c| <= limit
      ensures RleKept()(i, c) ==> ChunkRestored(RleCodec(after)(left))(i, c)
      ensures !RleKept()(i, c) && left != c[0] ==> !ChunkRestored(RleCodec([])(left))(i, c)
    {
      RleData.ChunkRoundTrip(c);
      NothingHeld(|c|);
    }
    NoBytes();
  }

  lemma {:induction false} NothingHeld(n: nat)
    requires n > 0
    ensures RleData.DecompressChunk([], n) == None
  {
  }

  lemma {:induction false} NoBytes()
    ensures RleKept()(0, [])
  {
  }

  /**
   Whole buffers under run-length coding come back, whatever lies in memory, if and only if
   every chunk stays within its reserved size; `RleData.BoundIsKept` says which do.
   */
  lemma {:induction false} RleBuffers(openMP: bool, size: pos, data: seq<byte>)
    ensures forall after, left :: Consistent(size, |Compressed(RleCodec(after)(left), openMP, size, data)|, |data|)
    ensures (forall after :: AlwaysRestored(RleCodec(after), openMP, size, data))
       <==> EachChunk(RleKept(), openMP, size, data)
  {
    hide RleKept, RleCodec, AlwaysRestored, Consistent, Restores, Rejects, Fills;
    var limit := LargestChunk(openMP, size, data);
    forall after, left ensures Consistent(size, |Compressed(RleCodec(after)(left), openMP, size, data)|, |data|) {
      CompressedIsConsistent(RleCodec(after)(left), openMP, size, data);
    }
    if EachChunk(RleKept(), openMP, size, data) {
      forall after ensures AlwaysRestored(RleCodec(after), openMP, size, data) {
        RleRestores(after, limit);
        RestoredIf(RleCodec(after), RleKept(), openMP, size, data);
      }
    } else {
      RleRestores([], limit);
      RestoredOnlyIf(RleCodec([]), RleKept(), openMP, size, data);
    }
  }

  // ---------- FastLZ ----------

  /** Every chunk has hash values of its own. */
  function FastLzStream(hash: nat -> nat -> nat, i: nat, c: seq<byte>): seq<byte>
    requires |c| < 0x8000_0000
  {
    FastLzCompress.Compressed(FastLz.LevelFor(|c|), c, hash(i))
  }

  /** The sizes of the chunk and of its stream are C integers. */
  function FastLzKept(hash: nat -> nat -> nat): (nat, seq<byte>) -> bool {
    (i: nat, c: seq<byte>) => |c| < 0x8000_0000 && |FastLzStream(hash, i, c)| < 0x8000_0000
  }

  /** `after`: the stream that is stored for a chunk whose size is passed as a negative one. */
  function FastLzCodec(hash: nat -> nat -> nat, after: seq<byte>): byte -> Codec {
    (left: byte) =>
      Codec((i, c) => if |c| < 0x8000_0000 then FastLzStream(hash, i, c) else after,
            (s, n) => Filled(FastLz.SizedDecoded(s, n), n, left))
  }

  lemma {:induction false} FastLzRestores(hash: nat -> nat -> nat, after: seq<byte>, limit: nat)
    requires limit < LzFormat.U32
    ensures Fills(FastLzCodec(hash, after)) && Restores(FastLzCodec(hash, after), FastLzKept(hash), limit)
    ensures FastLzKept(hash)(0, []) && Rejects(FastLzCodec(hash, after), FastLzKept(hash), limit)
  {
    hide FastLzStream, FastLz.Decoded, FastLz.Counts;
    var k := FastLzCodec(hash, after);
    forall left: byte, i: nat, c: seq<byte> | 0 < |c| <= limit
      ensures FastLzKept(hash)(i, c) ==> ChunkRestored(k(left))(i, c)
      ensures !FastLzKept(hash)(i, c) && left != c[0] ==> !ChunkRestored(k(left))(i, c)
    {
      if left != c[0] {
        FilledIs(FastLz.SizedDecoded(k(left).enc(i, c), |c|), c, left);
      }
      if |c| < 0x8000_0000 {
        FastLzChunk(hash, i, c);
      } else {
        NotCounted(|c|);
      }
    }
    EmptyStream(hash);
  }

  lemma {:induction false} NotCounted(n: nat)
    requires n >= 0x8000_0000
    ensures n < LzFormat.U32 ==> !FastLz.Counts(n)
  {
  }

  lemma {:induction false} FastLzChunk(hash: nat -> nat -> nat, i: nat, c: seq<byte>)
    requires 0 < |c| < 0x8000_0000
    ensures FastLz.SizedDecoded(FastLzStream(hash, i, c), |c|) == if FastLzKept(hash)(i, c) then Some(c) else None
  {
    hide FastLzCompress.Compressed, FastLz.Decoded;
    FastLz.RoundTrip(FastLz.LevelFor(|c|), c, hash(i));
    FastLz.SizeFitsInt(FastLz.LevelFor(|c|), c, hash(i));
  }

  lemma {:induction false} EmptyStream(hash: nat -> nat -> nat)
    ensures FastLzKept(hash)(0, [])
  {
  }

  /**
   Whole buffers under FastLZ come back, whatever the hash values are and whatever lies in
   memory, if and only if chunks and streams have sizes below 2^31. Chunks of up to
   2082408384 bytes always do.
   */
  lemma {:induction false} FastLzBuffers(hash: nat -> nat -> nat, after: seq<byte>, openMP: bool, size: pos,
                                         data: seq<byte>)
    requires LargestChunk(openMP, size, data) < LzFormat.U32
    ensures forall left :: Consistent(size, |Compressed(FastLzCodec(hash, after)(left), openMP, size, data)|, |data|)
    ensures AlwaysRestored(FastLzCodec(hash, after), openMP, size, data)
       <==> EachChunk(FastLzKept(hash), openMP, size, data)
    ensures LargestChunk(openMP, size, data) <= 2082408384 ==> EachChunk(FastLzKept(hash), openMP, size, data)
  {
    hide FastLzKept, FastLzCodec, AlwaysRestored, Consistent, Restores, Rejects, Fills;
    var k, p, limit := FastLzCodec(hash, after), FastLzKept(hash), LargestChunk(openMP, size, data);
    forall left ensures Consistent(size, |Compressed(k(left), openMP, size, data)|, |data|) {
      CompressedIsConsistent(k(left), openMP, size, data);
    }
    FastLzRestores(hash, after, limit);
    if EachChunk(p, openMP, size, data) {
      RestoredIf(k, p, openMP, size, data);
    } else {
      RestoredOnlyIf(k, p, openMP, size, data);
    }
    if limit <= 2082408384 {
      FastLzAlwaysKept(hash, openMP, size, data);
    }
  }

  lemma {:induction false} FastLzAlwaysKept(hash: nat -> nat -> nat, openMP: bool, size: pos, data: seq<byte>)
    requires LargestChunk(openMP, size, data) <= 2082408384
    ensures EachChunk(FastLzKept(hash), openMP, size, data)
  {
    hide FastLzCompress.Compressed;
    forall i: nat, c: seq<byte> | |c| <= LargestChunk(openMP, size, data) ensures FastLzKept(hash)(i, c) {
      FastLz.SizeFitsInt(FastLz.LevelFor(|c|), c, hash(i));
    }
    if openMP {
      EachAlways(FastLzKept(hash), size, data, 0);
    }
  }

  // ---------- LZF ----------

  /** The encoder does not give up on the chunk, with the capacity that reaches it. */
  function LzfKept(hash: nat -> nat -> nat, tab: nat -> LzSearch.Table, product: nat -> nat): (nat, seq<byte>) -> bool {
    (i: nat, c: seq<byte>) => c == [] || Lzf.ChunkFits(c, hash(i), tab(i), Lzf.ReservedCapacity(product(|c|)))
  }

  function LzfDecoded(s: seq<byte>, n: nat): Option<seq<byte>> {
    match LzFormat.Decode(LzFormat.Short, s, [], n)
    case Done(out) => Some(out)
    case _ => None
  }

  /** Every chunk has hash values and an uninitialised table of its own; `product` is the rounded 1.1 * n. */
  function LzfCodec(hash: nat -> nat -> nat, tab: nat -> LzSearch.Table, product: nat -> nat): byte -> Codec {
    (left: byte) =>
      Codec((i, c) => LzfCompress.Compressed(c, hash(i), tab(i), Lzf.ReservedCapacity(product(|c|))),
            (s, n) => Filled(LzfDecoded(s, n), n, left))
  }

  ghost predicate Rounds(product: nat -> nat) {
    forall n :: IsFloatProduct(n, product(n))
  }

  lemma {:induction false} LzfRestores(hash: nat -> nat -> nat, tab: nat -> LzSearch.Table, product: nat -> nat,
                                       limit: nat)
    requires limit < LzFormat.U32
    ensures Fills(LzfCodec(hash, tab, product))
    ensures Restores(LzfCodec(hash, tab, product), LzfKept(hash, tab, product), limit)
    ensures Rejects(LzfCodec(hash, tab, product), LzfKept(hash, tab, product), limit)
  {
    hide LzfCompress.Compressed, LzFormat.Decode, Lzf.ChunkFits, Lzf.ReservedCapacity;
    var k, p := LzfCodec(hash, tab, product), LzfKept(hash, tab, product);
    forall left: byte, s, n: nat ensures |k(left).dec(s, n)| == n {
      assert k(left).dec(s, n) == Filled(LzfDecoded(s, n), n, left);
    }
    forall left: byte, i: nat, c: seq<byte> | 0 < |c| <= limit
      ensures p(i, c) ==> ChunkRestored(k(left))(i, c)
      ensures !p(i, c) && left != c[0] ==> !ChunkRestored(k(left))(i, c)
    {
      Lzf.ChunkRoundTrip(c, hash(i), tab(i), Lzf.ReservedCapacity(product(|c|)));
      if left != c[0] {
        FilledIs(LzfDecoded(k(left).enc(i, c), |c|), c, left);
      }
    }
  }

  /**
   Whole buffers under LZF come back, whatever the hash values are and whatever lies in
   memory, if and only if the encoder gives up on no chunk. It never does on chunks of up to
   3.9e9 bytes, however the reserved bound is rounded.
   */
  lemma {:induction false} LzfBuffers(hash: nat -> nat -> nat, tab: nat -> LzSearch.Table, product: nat -> nat,
                                      openMP: bool, size: pos, data: seq<byte>)
    requires LargestChunk(openMP, size, data) < LzFormat.U32 && Rounds(product)
    ensures forall left ::
              Consistent(size, |Compressed(LzfCodec(hash, tab, product)(left), openMP, size, data)|, |data|)
    ensures AlwaysRestored(LzfCodec(hash, tab, product), openMP, size, data)
       <==> EachChunk(LzfKept(hash, tab, product), openMP, size, data)
    ensures LargestChunk(openMP, size, data) <= 3_900_000_000 ==>
              EachChunk(LzfKept(hash, tab, product), openMP, size, data)
  {
    hide LzfCodec, AlwaysRestored, Consistent, Restores, Rejects, Fills, Lzf.ChunkFits, Lzf.ReservedCapacity;
    var k, p, limit := LzfCodec(hash, tab, product), LzfKept(hash, tab, product), LargestChunk(openMP, size, data);
    forall left ensures Consistent(size, |Compressed(k(left), openMP, size, data)|, |data|) {
      CompressedIsConsistent(k(left), openMP, size, data);
    }
    LzfRestores(hash, tab, product, limit);
    if EachChunk(p, openMP, size, data) {
      RestoredIf(k, p, openMP, size, data);
    } else {
      RestoredOnlyIf(k, p, openMP, size, data);
    }
    if limit <= 3_900_000_000 {
      LzfAlwaysKept(hash, tab, product, openMP, size, data);
    }
  }

  lemma {:induction false} LzfAlwaysKept(hash: nat -> nat -> nat, tab: nat -> LzSearch.Table, product: nat -> nat,
                                         openMP: bool, size: pos, data: seq<byte>)
    requires LargestChunk(openMP, size, data) <= 3_900_000_000 && Rounds(product)
    ensures EachChunk(LzfKept(hash, tab, product), openMP, size, data)
  {
    hide Lzf.ChunkFits, Lzf.ReservedCapacity;
    var p := LzfKept(hash, tab, product);
    forall i: nat, c: seq<byte> | |c| <= LargestChunk(openMP, size, data) ensures p(i, c) {
      if c != [] {
        Lzf.ReserveSuffices(c, hash(i), tab(i), product(|c|));
      }
    }
    if openMP {
      EachAlways(p, size, data, 0);
    }
  }
}
