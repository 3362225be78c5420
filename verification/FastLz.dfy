/** FastLZ's entry points, its round trip and its output bound, and the chunk codec built on it. */
module FastLz {
  import opened Arithmetic
  import opened Bytes
  import opened LzFormat
  import opened LzSearch
  import opened FastLzCompress
  import opened FastLzDecompress

  // ---------- Level selection ----------

  /** `fastlz_compress`: short blocks use level 1. */
  function LevelFor(n: nat): Policy {
    if n < 65536 then FastLz1 else FastLz2
  }

  /** The decoder that the first byte of a stream selects. */
  function FormatOf(s: seq<byte>): Option<Format>
    requires s != []
  {
    var level := s[0] / 32 + 1;
    if level == 1 then Some(Short) else if level == 2 then Some(Extended) else None
  }

  /** What `fastlz_decompress` makes of a stream; an unknown level is an error as any other. */
  function Decoded(s: seq<byte>, cap: nat): Option<seq<byte>>
    requires s != []
  {
    match FormatOf(s)
    case None => None
    case Some(fmt) =>
      match Meaning(fmt, s, cap)
      case Done(out) => Some(out)
      case _ => None
  }

  /** The first byte and the operands of every back reference that the decoder reaches lie inside the stream. */
  predicate ReadsInside(s: seq<byte>, cap: nat) {
    s != [] && (FormatOf(s).Some? ==> !Meaning(FormatOf(s).value, s, cap).ShortOperands?)
  }

  /** The size is returned as an `int`. */
  method CompressLevel(level: int, x: seq<byte>, hash: nat -> nat, output: array<byte>) returns (n: int)
    requires |x| < 0x8000_0000 && output.Length >= |x| + |x| / 32 + 1
    modifies output
    ensures level == 1 ==> Holds(output[..], n, Compressed(FastLz1, x, hash))
    ensures level == 2 ==> Holds(output[..], n, Compressed(FastLz2, x, hash))
    ensures level != 1 && level != 2 ==> n == 0
  {
    var size := 0;
    if level == 1 {
      size := FastLzCompress.Compress(FastLz1, x, hash, output);
    } else if level == 2 {
      size := FastLzCompress.Compress(FastLz2, x, hash, output);
    }
    n := AsInt(size);
  }

  /** The buffer begins with the stream `s`, and `n` is its size as far as an `int` can tell. */
  predicate Holds(buffer: seq<byte>, n: int, s: seq<byte>) {
    s <= buffer && n == AsInt(|s|)
  }

  method Compress(x: seq<byte>, hash: nat -> nat, output: array<byte>) returns (n: int)
    requires |x| < 0x8000_0000 && output.Length >= |x| + |x| / 32 + 1
    modifies output
    ensures Holds(output[..], n, Compressed(LevelFor(|x|), x, hash))
    ensures |x| < 65536 ==> Holds(output[..], n, Compressed(FastLz1, x, hash))
    ensures |x| >= 65536 ==> Holds(output[..], n, Compressed(FastLz2, x, hash))
    ensures x != [] ==> output[0] / 32 == if |x| < 65536 then 0 else 1
  {
    hide Compressed;
    LevelShows(x, hash);
    var size;
    if |x| < 65536 {
      size := FastLzCompress.Compress(FastLz1, x, hash, output);
    } else {
      size := FastLzCompress.Compress(FastLz2, x, hash, output);
    }
    n := AsInt(size);
  }

  /** `None` stands for a read behind the stream, see `ReadsInside`. */
  method Decompress(strictAlign: bool, s: seq<byte>, output: array<byte>) returns (r: Option<nat>)
    modifies output
    ensures r == None <==> !ReadsInside(s, output.Length)
    ensures s != [] && s[0] >= 64 ==> r == Some(0)
    ensures r.Some? ==>
              match Decoded(s, output.Length)
              case Some(out) => r.value == |out| <= output.Length && output[..r.value] == out
              case None => r.value == 0
  {
    if s == [] { return None; }
    var level := s[0] / 32 + 1;
    if level == 1 {
      r := FastLzDecompress.Decompress(strictAlign, Short, s, output);
    } else if level == 2 {
      r := FastLzDecompress.Decompress(strictAlign, Extended, s, output);
    } else {
      r := Some(0);
    }
  }

  // ---------- When every read stays inside the stream ----------

  /**
   A walk over the stream that follows only how much output there is: `n` bytes so far, and
   room for `cap`. It ends well at the end of the stream, at a literal run or a reference
   that the decoder's own tests reject, and badly at an operand that is missing.
   */
  predicate OperandsInside(fmt: Format, s: seq<byte>, n: nat, cap: nat)
    decreases |s|
  {
    if s == [] then true
    else if s[0] < MAX_RUN then
      var run := s[0] as int + 1;
      n + run > cap || 1 + run > |s| || OperandsInside(fmt, s[1 + run..], n + run, cap)
    else
      match ReadCopy(fmt, s)
      case None => false
      case Some(ref) =>
        n + ref.len > cap || ref.dist > n || OperandsInside(fmt, s[ref.size..], n + ref.len, cap)
  }

  /** The same walk without a limit on the output. */
  predicate AlwaysInside(fmt: Format, s: seq<byte>, n: nat)
    decreases |s|
  {
    if s == [] then true
    else if s[0] < MAX_RUN then
      var run := s[0] as int + 1;
      1 + run > |s| || AlwaysInside(fmt, s[1 + run..], n + run)
    else
      match ReadCopy(fmt, s)
      case None => false
      case Some(ref) => ref.dist > n || AlwaysInside(fmt, s[ref.size..], n + ref.len)
  }

  /** The walk decides whether the decoder reads an operand from behind the stream. */
  lemma {:induction false} WalkDecides(fmt: Format, s: seq<byte>, out: seq<byte>, cap: nat)
    ensures OperandsInside(fmt, s, |out|, cap) <==> !Decode(fmt, s, out, cap).ShortOperands?
    decreases |s|
  {
    hide ReadCopy, CopyBack;
    if s != [] {
      if s[0] < MAX_RUN {
        var run := s[0] as int + 1;
        if |out| + run <= cap && 1 + run <= |s| {
          var more := out + s[1..1 + run];
          WalkDecides(fmt, s[1 + run..], more, cap);
        }
      } else if ReadCopy(fmt, s).Some? {
        var ref := ReadCopy(fmt, s).value;
        if |out| + ref.len <= cap && ref.dist <= |out| {
          var more := CopyBack(out, ref.dist, ref.len);
          WalkDecides(fmt, s[ref.size..], more, cap);
        }
      }
    }
  }

  /** With room enough the limited walk is the unlimited one. */
  lemma {:induction false} WalkWithRoom(fmt: Format, s: seq<byte>, n: nat) returns (room: nat)
    ensures AlwaysInside(fmt, s, n) <==> OperandsInside(fmt, s, n, room)
    ensures forall cap :: AlwaysInside(fmt, s, n) ==> OperandsInside(fmt, s, n, cap)
    ensures n <= room && forall cap :: cap >= room ==> OperandsInside(fmt, s, n, cap) == AlwaysInside(fmt, s, n)
    decreases |s|
  {
    hide ReadCopy;
    room := n;
    if s != [] {
      if s[0] < MAX_RUN {
        var run := s[0] as int + 1;
        if 1 + run <= |s| {
          room := WalkWithRoom(fmt, s[1 + run..], n + run);
        } else {
          room := n + run;
        }
      } else if ReadCopy(fmt, s).Some? {
        var ref := ReadCopy(fmt, s).value;
        if ref.dist <= n {
          room := WalkWithRoom(fmt, s[ref.size..], n + ref.len);
        }
      }
    }
  }

  /** For a buffer of a given size: the check a caller can make before decompressing. */
  lemma {:induction false} ReadsInsideIff(s: seq<byte>, cap: nat)
    requires s != []
    ensures ReadsInside(s, cap)
       <==> FormatOf(s) == None || OperandsInside(FormatOf(s).value, Unmark(s), 0, cap)
  {
    hide Decode, OperandsInside;
    if FormatOf(s).Some? {
      WalkDecides(FormatOf(s).value, Unmark(s), [], cap);
    }
  }

  /** Whatever the size of the buffer, decompression reads inside the stream if and only if the walk ends well. */
  lemma {:induction false} MemorySafeIff(s: seq<byte>)
    ensures (forall cap: nat :: ReadsInside(s, cap))
       <==> s != [] && (FormatOf(s) == None || AlwaysInside(FormatOf(s).value, Unmark(s), 0))
  {
    if s == [] {
      assert !ReadsInside(s, 0);
      return;
    }
    hide ReadsInside, OperandsInside, AlwaysInside;
    if FormatOf(s).Some? {
      var room := WalkWithRoom(FormatOf(s).value, Unmark(s), 0);
      ReadsInsideIff(s, room);
    }
    forall cap: nat
      ensures ReadsInside(s, cap) <==> FormatOf(s) == None || OperandsInside(FormatOf(s).value, Unmark(s), 0, cap)
    {
      ReadsInsideIff(s, cap);
    }
  }

  /** A literal and then a control byte without its operand: the decoder reads behind these three bytes. */
  lemma {:induction false} ReadsOutside(cap: nat)
    requires cap >= 1
    ensures !ReadsInside([0, 65, 0x20], cap)
  {
    var s: seq<byte> := [0, 65, 0x20];
    assert Unmark(s) == s && s[2..] == [0x20] && [] + s[1..2] == [65];
    assert ReadCopy(Short, [0x20]) == None;
    assert Decode(Short, [0x20], [65], cap) == ShortOperands;
  }

  // ---------- Round trip ----------

  lemma {:induction false} MarkReadsBack(s: seq<byte>)
    requires s != [] && s[0] < 32
    ensures Mark(s) != [] && FormatOf(s) == Some(Short) && FormatOf(Mark(s)) == Some(Extended)
    ensures Unmark(s) == s && Unmark(Mark(s)) == s
  {
    assert s == [s[0]] + s[1..];
  }

  /** Level 2 marks its streams, level 1 leaves the bits clear, and unmarking gives the stream back. */
  lemma {:induction false} LevelIsKept(pol: Policy, x: seq<byte>, hash: nat -> nat)
    requires IsFastLz(pol) && |x| >= 4
    ensures var s := Compressed(pol, x, hash);
            s != [] && FormatOf(s) == Some(Wire(pol)) && Unmark(s) == Unmarked(pol, x, hash)
  {
    hide Unmarked, Mark, Unmark, FormatOf;
    StartEmits(pol, x, hash);
    MarkReadsBack(Unmarked(pol, x, hash));
  }

  /** The first byte of a stream shows the level, which the size of the input decides. */
  lemma {:induction false} LevelShows(x: seq<byte>, hash: nat -> nat)
    requires |x| < 0x8000_0000
    ensures LevelFor(|x|) == if |x| < 65536 then FastLz1 else FastLz2
    ensures var s := Compressed(LevelFor(|x|), x, hash);
            x != [] ==> s != [] && s[0] / 32 == if |x| < 65536 then 0 else 1
  {
    hide Compressed;
    if 0 < |x| < 4 {
      ShortEmits(FastLz1, x, hash);
    } else if x != [] {
      LevelIsKept(LevelFor(|x|), x, hash);
    }
  }

  /**
   Decompressing what either level produced, whatever the hash values were, selects
   the right decoder and gives the input back in a buffer of exactly its size.
   */
  lemma {:induction false} StreamRoundTrip(pol: Policy, x: seq<byte>, hash: nat -> nat)
    requires IsFastLz(pol) && 1 <= |x| < 0x8000_0000
    ensures var s := Compressed(pol, x, hash);
            s != [] && Decoded(s, |x|) == Some(x) && ReadsInside(s, |x|)
  {
    hide Decode, Emit, Tokens;
    if |x| < 4 {
      ShortEmits(pol, x, hash);
      var s := [|x| - 1] + x;
      assert Unmark(s) == RunBytes(x) + [];
      RunDecodes(Short, x, [], [], |x|);
      assert [] + x == x;
    } else {
      LevelIsKept(pol, x, hash);
      TokensDescribe(pol, x, hash, EmptyTable());
      EmitDecodes(Wire(pol), x, 0, [], Tokens(pol, x, hash, EmptyTable()), |x|);
      assert x[..0] == [];
    }
  }

  /**
   The same for the sizes that are passed as `int`: the input comes back if and only if the
   stream is shorter than 2^31 bytes, as it is for inputs of up to 2082408384 bytes.
   */
  lemma {:induction false} RoundTrip(pol: Policy, x: seq<byte>, hash: nat -> nat)
    requires IsFastLz(pol) && 1 <= |x| < 0x8000_0000
    ensures var s := Compressed(pol, x, hash);
            && s != [] && Decoded(s, |x|) == Some(x) && SizedInside(s, |x|)
            && (SizedDecoded(s, |x|) == Some(x) <==> |s| < 0x8000_0000)
            && (|x| <= 2082408384 ==> |s| < 0x8000_0000)
  {
    hide Compressed, Decoded, ReadsInside;
    StreamRoundTrip(pol, x, hash);
    SizeFitsInt(pol, x, hash);
  }

  // ---------- Size ----------

  /** At most one byte more than the input for every started group of 32 bytes. */
  lemma {:induction false} CompressedSize(pol: Policy, x: seq<byte>, hash: nat -> nat)
    requires IsFastLz(pol) && |x| < 0x8000_0000
    ensures |Compressed(pol, x, hash)| <= |x| + (|x| + 31) / 32
  {
    hide Emit, Tokens;
    if x != [] {
      TokensDescribe(pol, x, hash, EmptyTable());
      EmitSize(Wire(pol), x, 0, [], Tokens(pol, x, hash, EmptyTable()));
    }
  }

  /** Input in which no match is found reaches the bound exactly. */
  lemma {:induction false} LiteralsSize(fmt: Format, x: seq<byte>, p: nat, run: seq<byte>)
    requires |run| < MAX_RUN && p <= |x|
    ensures var m := |run| + |x| - p; |Emit(fmt, run, Literals(x, p))| == m + (m + 31) / 32
    decreases |x| - p
  {
    if p < |x| {
      LiteralsSize(fmt, x, p + 1, if |run| + 1 == MAX_RUN then [] else run + [x[p]]);
      AdvanceEmits(fmt, [], run, x[p], Literals(x, p + 1));
    }
  }

  // ---------- The chunk codec ----------

  /**
   The bound of the chunk codec, 66 more than the product however it is rounded, and the
   size the documentation asks for are enough for the encoder.
   */
  lemma {:induction false} BoundSuffices(n: nat)
    ensures forall product: nat :: IsFloatProduct(n, product) ==> product + 66 >= n + n / 32 + 1
    ensures forall room: nat :: room >= 66 && 100 * room >= 105 * n ==> room >= n + n / 32 + 1
  {
    forall room: nat | room >= 66 && 100 * room >= 105 * n
      ensures room >= n + n / 32 + 1
    {
    }
  }

  /** Converting the size to an `int` does not change it. */
  predicate Counts(n: nat) {
    AsInt(n) == n
  }

  /** Up to 2082408384 bytes the size of the stream is always an `int`. */
  lemma {:induction false} SizeFitsInt(pol: Policy, x: seq<byte>, hash: nat -> nat)
    requires IsFastLz(pol) && |x| < 0x8000_0000
    ensures Counts(|Compressed(pol, x, hash)|) <==> |Compressed(pol, x, hash)| < 0x8000_0000
    ensures |x| <= 2082408384 ==> Counts(|Compressed(pol, x, hash)|)
  {
    hide Compressed;
    CompressedSize(pol, x, hash);
  }

  /** Compresses a chunk. `None` stands for a negative size, which the source takes for an enormous one. */
  method CompressChunk(data: seq<byte>, hash: nat -> nat, product: nat) returns (result: Option<seq<byte>>)
    requires |data| < 0x8000_0000 && IsFloatProduct(|data|, product)
    ensures var s := Compressed(LevelFor(|data|), data, hash);
            result == if Counts(|s|) then Some(s) else None
  {
    hide Compressed;
    BoundSuffices(|data|);
    SizeFitsInt(LevelFor(|data|), data, hash);
    CompressedSize(LevelFor(|data|), data, hash);
    var output := new byte[product + 66];
    var n := Compress(data, hash, output);
    ghost var s := Compressed(LevelFor(|data|), data, hash);
    assert |s| < U32 && output[..][..|s|] == s && (n >= 0 ==> n == |s|);
    assert n >= 0 ==> output[..][..n] == output[..n];
    result := if n < 0 then None else Some(output[..n]);
  }

  /**
   `fastlz_decompress` on sizes converted to `int`. A negative one makes the first tests
   fail, on whatever run the first byte begins, so the result is zero.
   */
  function SizedDecoded(s: seq<byte>, cap: nat): Option<seq<byte>> {
    if s != [] && Counts(|s|) && Counts(cap) then Decoded(s, cap) else None
  }

  predicate SizedInside(s: seq<byte>, cap: nat) {
    if Counts(|s|) && Counts(cap) then ReadsInside(s, cap) else s != []
  }

  method DecompressSized(strictAlign: bool, s: seq<byte>, output: array<byte>) returns (r: Option<nat>)
    requires |s| < U32 && output.Length < U32
    modifies output
    ensures r == None <==> !SizedInside(s, output.Length)
    ensures r.Some? ==>
              match SizedDecoded(s, output.Length)
              case Some(out) => r.value == |out| <= output.Length && output[..r.value] == out
              case None => r.value == 0
  {
    if s == [] { return None; }
    if AsInt(|s|) < 0 || AsInt(output.Length) < 0 { return Some(0); }
    r := Decompress(strictAlign, s, output);
  }

  /** `None` stands for a read behind the chunk. The size returned by the decoder is not looked at. */
  method DecompressChunk(strictAlign: bool, input: seq<byte>, size: nat) returns (data: Option<seq<byte>>)
    requires |input| < U32 && size < U32
    ensures data == None <==> !SizedInside(input, size)
    ensures data.Some? ==> |data.value| == size
    ensures data.Some? && SizedDecoded(input, size).Some? ==> SizedDecoded(input, size).value <= data.value
  {
    var buffer := new byte[size];
    var n := DecompressSized(strictAlign, input, buffer);
    data := if n == None then None else Some(buffer[..]);
  }
}
