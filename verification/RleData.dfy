/**
 The run-length chunk codec: a chunk is taken as tokens of the widest size that divides
 it, in the byte order of a little-endian machine.
 */
module RleData {
  import opened Arithmetic
  import opened Bytes
  import opened Rle
  import RleCanonical
  import RleCodec

  type Width = w: nat | w == 1 || w == 2 || w == 4 || w == 8 witness 1

  function WidthFor(size: nat): Width {
    if size % 8 == 0 then 8 else if size % 4 == 0 then 4 else if size % 2 == 0 then 2 else 1
  }

  function MaxOf(w: Width): nat {
    if w == 1 then 0xff else if w == 2 then 0xffff else if w == 4 then 0xffff_ffff else 0xffff_ffff_ffff_ffff
  }

  function AlphabetOf(w: Width): (a: Alphabet)
    ensures a.Valid()
  {
    Alphabet(MaxOf(w), 0x42)
  }

  // ---------- Tokens in memory ----------

  function Value(b: seq<byte>): nat {
    if b == [] then 0 else b[0] + 256 * Value(b[1..])
  }

  function Store(v: nat, w: nat): (b: seq<byte>)
    ensures |b| == w
  {
    if w == 0 then [] else [v % 256] + Store(v / 256, w - 1)
  }

  /** The tokens that fit into `data`, reading it as an array of `w`-byte integers. */
  function TokensOf(w: Width, data: seq<byte>): seq<nat>
    decreases |data|
  {
    if |data| < w then [] else [Value(data[..w])] + TokensOf(w, data[w..])
  }

  function BytesOf(w: Width, toks: seq<nat>): seq<byte> {
    if toks == [] then [] else Store(toks[0], w) + BytesOf(w, toks[1..])
  }

  lemma {:induction false} StoreValue(b: seq<byte>)
    ensures Store(Value(b), |b|) == b
  {
    if b != [] {
      StoreValue(b[1..]);
      LowestDigit(b[0], Value(b[1..]));
      assert b == [b[0]] + b[1..];
    }
  }

  lemma {:induction false} LowestDigit(b: byte, v: nat)
    ensures (b + 256 * v) % 256 == b && (b + 256 * v) / 256 == v
  {
  }

  function Power256(w: nat): pos {
    if w == 0 then 1 else 256 * Power256(w - 1)
  }

  lemma {:induction false} ValueStore(v: nat, w: nat)
    requires v < Power256(w)
    ensures Value(Store(v, w)) == v
  {
    if w > 0 {
      ValueStore(v / 256, w - 1);
      assert Store(v, w)[1..] == Store(v / 256, w - 1);
    }
  }

  lemma {:induction false} MaxIsPower(w: Width)
    ensures MaxOf(w) + 1 == Power256(w)
  {
    assert Power256(2) == 65536;
    assert Power256(4) == 256 * (256 * Power256(2));
    assert Power256(8) == 256 * (256 * (256 * (256 * Power256(4))));
  }

  lemma {:induction false} ValueBounded(b: seq<byte>)
    ensures Value(b) < Power256(|b|)
  {
    if b != [] {
      ValueBounded(b[1..]);
    }
  }

  lemma {:induction false} TokensWithin(w: Width, data: seq<byte>)
    ensures Within(AlphabetOf(w), TokensOf(w, data))
    decreases |data|
  {
    if |data| >= w {
      ValueBounded(data[..w]);
      MaxIsPower(w);
      TokensWithin(w, data[w..]);
    }
  }

  predicate Divides(w: Width, n: nat) {
    n == 0 || (n >= w && Divides(w, n - w))
  }

  lemma {:induction false} WidthDivides(w: Width, n: nat)
    requires n % w == 0
    ensures Divides(w, n)
    decreases n
  {
    if n > 0 {
      WidthDivides(w, n - w);
    }
  }

  /** Reading memory as tokens and storing the tokens gives the memory back. */
  lemma {:induction false} BytesOfTokens(w: Width, data: seq<byte>)
    requires Divides(w, |data|)
    ensures BytesOf(w, TokensOf(w, data)) == data
    decreases |data|
  {
    if data != [] {
      StoreValue(data[..w]);
      BytesOfTokens(w, data[w..]);
      assert data == data[..w] + data[w..];
    }
  }

  /** Storing well-formed tokens and reading the memory gives the tokens back. */
  lemma {:induction false} TokensOfBytes(w: Width, toks: seq<nat>)
    requires Within(AlphabetOf(w), toks)
    ensures TokensOf(w, BytesOf(w, toks)) == toks
  {
    if toks != [] {
      MaxIsPower(w);
      ValueStore(toks[0], w);
      TokensOfBytes(w, toks[1..]);
      var s := BytesOf(w, toks);
      assert s[..w] == Store(toks[0], w) && s[w..] == BytesOf(w, toks[1..]);
    }
  }

  lemma {:induction false} TokenCount(w: Width, data: seq<byte>)
    ensures |TokensOf(w, data)| == |data| / w
    decreases |data|
  {
    if |data| >= w {
      TokenCount(w, data[w..]);
    }
  }

  lemma {:induction false} ByteCount(w: Width, toks: seq<nat>)
    ensures |BytesOf(w, toks)| == w * |toks|
  {
    if toks != [] {
      ByteCount(w, toks[1..]);
    }
  }

  lemma {:induction false} EscapedWithin(a: Alphabet, s: seq<nat>)
    requires a.Valid() && Escaped(a, s)
    ensures Within(a, s)
    decreases |s|
  {
    if s != [] {
      if s[0] != a.marker {
        EscapedWithin(a, s[1..]);
        assert s == [s[0]] + s[1..];
      } else {
        EscapedWithin(a, s[3..]);
        assert s == [s[0], s[1], s[2]] + s[3..];
      }
    }
  }

  // ---------- Chunks ----------

  function CompressChunk(data: seq<byte>): seq<byte> {
    var w := WidthFor(|data|);
    BytesOf(w, Rle.Compress(AlphabetOf(w), TokensOf(w, data)))
  }

  /** None when the compressed chunk ends too early. */
  function DecompressChunk(input: seq<byte>, size: nat): Option<seq<byte>> {
    var w := WidthFor(size);
    match Decode(AlphabetOf(w), Reader(0, 0, TokensOf(w, input)), size / w)
    case None => None
    case Some((xs, _)) => Some(BytesOf(w, xs))
  }

  /** What is stored in the compressed chunk reads back as the tokens that were compressed. */
  lemma {:induction false} CompressedTokens(data: seq<byte>)
    ensures var w := WidthFor(|data|);
            TokensOf(w, CompressChunk(data)) == Rle.Compress(AlphabetOf(w), TokensOf(w, data))
  {
    var w := WidthFor(|data|);
    var a, xs := AlphabetOf(w), TokensOf(w, data);
    TokensWithin(w, data);
    if xs != [] {
      EncodeEscapes(a, xs[0], 1, xs[1..]);
      EscapedWithin(a, Rle.Compress(a, xs));
    }
    TokensOfBytes(w, Rle.Compress(a, xs));
  }

  /** Both sides derive the same token width from the size alone, so any chunk is restored. */
  lemma {:induction false} ChunkRoundTrip(data: seq<byte>)
    ensures DecompressChunk(CompressChunk(data), |data|) == Some(data)
  {
    hide Rle.Compress, Decode, TokensOf, BytesOf;
    var w := WidthFor(|data|);
    var a, xs := AlphabetOf(w), TokensOf(w, data);
    CompressedTokens(data);
    RoundTrip(a, xs, []);
    assert Rle.Compress(a, xs) + [] == Rle.Compress(a, xs);
    TokenCount(w, data);
    WidthDivides(w, |data|);
    BytesOfTokens(w, data);
  }

  // ---------- Runs in memory ----------

  function Copies(b: seq<byte>, n: nat): (s: seq<byte>)
    ensures |s| == |b| * n
  {
    if n == 0 then [] else b + Copies(b, n - 1)
  }

  /** A small number in `w` bytes of memory. */
  function Small(v: byte, w: Width): seq<byte> {
    [v] + seq(w - 1, _ => 0)
  }

  lemma {:induction false} SmallIs(v: byte, w: Width)
    ensures Store(v, w) == Small(v, w)
  {
    assert Store(v, 1) == [v];
    assert Store(0, 1) == [0] && Store(0, 2) == [0, 0] && Store(0, 3) == [0, 0, 0] && Store(0, 4) == [0, 0, 0, 0];
    assert Store(0, 7) == [0, 0, 0] + Store(0, 4);
  }

  lemma {:induction false} CopiesTokens(w: Width, b: seq<byte>, n: nat)
    requires |b| == w
    ensures TokensOf(w, Copies(b, n)) == Repeat(Value(b), n)
  {
    if n > 0 {
      var s := Copies(b, n);
      assert s[..w] == b && s[w..] == Copies(b, n - 1);
      CopiesTokens(w, b, n - 1);
    }
  }

  lemma {:induction false} WidthOfCopies(w: Width, n: nat)
    requires w == 8 || n % 2 == 1
    ensures WidthFor(w * n) == w
  {
    match w
    case 8 => DivideUnique(8 * n, 8, n, 0);
    case 4 => FourTimesOdd(n, n / 2);
    case 2 => TwiceOdd(n, n / 2);
    case _ =>
  }

  lemma {:induction false} FourTimesOdd(n: nat, k: nat)
    requires n == 2 * k + 1
    ensures WidthFor(4 * n) == 4
  {
    DivideUnique(4 * n, 8, k, 4);
    DivideUnique(4 * n, 4, n, 0);
  }

  lemma {:induction false} TwiceOdd(n: nat, k: nat)
    requires n == 2 * k + 1
    ensures WidthFor(2 * n) == 2
  {
    DivideUnique(2 * n, 4, k, 2);
    DivideUnique(2 * n, 2, n, 0);
    DivideUnique(2 * n, 8, k / 2, if k % 2 == 0 then 2 else 6);
  }

  /** A chunk of equal integers, at each width: the marker 0x42, the integer and their number. */
  lemma {:induction false} ChunkOfRun(b: seq<byte>, n: nat)
    requires |b| == 1 || |b| == 2 || |b| == 4 || |b| == 8
    requires 3 <= n <= 255 && (|b| == 8 || n % 2 == 1)
    ensures CompressChunk(Copies(b, n)) == Small(0x42, |b|) + b + Small(n, |b|)
  {
    hide Store, Small, Rle.Compress, Value, Copies, TokensOf, BytesOf, WidthFor;
    var w: Width := |b|;
    WidthOfCopies(w, n);
    CopiesTokens(w, b, n);
    RleCanonical.SingleRun(AlphabetOf(w), Value(b), n);
    StoreValue(b);
    SmallIs(0x42, w);
    SmallIs(n, w);
    ThreeTokens(w, 0x42, Value(b), n);
  }

  lemma {:induction false} ThreeTokens(w: Width, one: nat, two: nat, three: nat)
    ensures BytesOf(w, [one, two, three]) == Store(one, w) + Store(two, w) + Store(three, w)
  {
    hide Store;
    assert [one, two, three][1..] == [two, three] && [two, three][1..] == [three] && [three][1..] == [];
    assert BytesOf(w, [three]) == Store(three, w) && BytesOf(w, [two, three]) == Store(two, w) + Store(three, w);
  }

  /** The counter of bytes ends at 255: two bytes more are a run of their own. */
  lemma {:induction false} ChunkOfLongRun(b: byte)
    requires b != 0x42
    ensures CompressChunk(Copies([b], 257)) == [0x42, b, 255, b, b]
  {
    hide Store, Rle.Compress, Value, Copies;
    var a, t := AlphabetOf(1), Value([b]);
    assert t == b by { OneByte(b); }
    WidthOfCopies(1, 257);
    CopiesTokens(1, [b], 257);
    RleCanonical.RepeatSum(t, 255, 2);
    RleCanonical.CompressRun(a, t, 255, Repeat(t, 2));
    RleCanonical.SingleRun(a, t, 2);
    assert Repeat(t, 2) == [t, t];
    assert Rle.Compress(a, Repeat(t, 257)) == [0x42, t, 255] + [t, t] == [0x42, b, 255, b, b];
    OneByteEach([0x42, b, 255, b, b]);
  }

  lemma {:induction false} OneByte(b: byte)
    ensures Value([b]) == b && Store(b, 1) == [b]
  {
  }

  lemma {:induction false} OneByteEach(s: seq<byte>)
    ensures BytesOf(1, s) == s
  {
    if s != [] {
      OneByte(s[0]);
      OneByteEach(s[1..]);
      assert s == [s[0]] + s[1..];
    }
  }

  // ---------- The reserved size ----------

  /** `getCompressBound`. */
  function CompressBound(size: nat): nat {
    2 * size
  }

  /**
   The reserved bound is kept except by an odd number of tokens in which markers and
   other tokens alternate, beginning with a marker; those need one token more.
   */
  lemma {:induction false} BoundIsKept(data: seq<byte>)
    ensures var w := WidthFor(|data|);
            var xs := TokensOf(w, data);
            |CompressChunk(data)| <= CompressBound(|data|)
            <==> !(|xs| % 2 == 1 && Alternates(AlphabetOf(w), xs, true))
    ensures |CompressChunk(data)| <= CompressBound(|data|) + WidthFor(|data|)
  {
    hide Rle.Compress, TokensOf, BytesOf;
    var w := WidthFor(|data|);
    var a, xs := AlphabetOf(w), TokensOf(w, data);
    TwiceIsExceeded(a, xs);
    CompressSize(a, xs);
    TokenCount(w, data);
    ByteCount(w, Rle.Compress(a, xs));
  }

  /**
   Compresses a chunk into a buffer of the reserved size. `None` stands for a write behind
   it; `BoundIsKept` says when that is.
   */
  method CompressChunkTo(data: seq<byte>) returns (result: Option<seq<byte>>)
    ensures result == if |CompressChunk(data)| <= CompressBound(|data|) then Some(CompressChunk(data)) else None
  {
    hide Rle.Compress, TokensOf, BytesOf;
    var w := WidthFor(|data|);
    var xs := TokensOf(w, data);
    TokenCount(w, data);
    ByteCount(w, Rle.Compress(AlphabetOf(w), xs));
    var out := new nat[CompressBound(|data|) / w];
    BoundInTokens(w, |Rle.Compress(AlphabetOf(w), xs)|, |data|);
    var n := RleCodec.Compress(AlphabetOf(w), xs, out);
    result := if n == None then None else Some(BytesOf(w, out[..n.value]));
  }

  lemma {:induction false} BoundInTokens(w: Width, n: nat, size: nat)
    requires w == WidthFor(size)
    ensures w * n <= CompressBound(size) <==> n <= CompressBound(size) / w
  {
  }

  /** Decompresses a chunk; `None` stands for a read behind it. */
  method DecompressChunkTo(input: seq<byte>, size: nat) returns (data: Option<seq<byte>>)
    ensures data == DecompressChunk(input, size)
  {
    hide Decode, TokensOf, BytesOf;
    var w := WidthFor(size);
    var n := size / w;
    var out := new nat[n];
    var pos := RleCodec.Decompress(AlphabetOf(w), TokensOf(w, input), out, n);
    data := if pos == None then None else Some(BytesOf(w, out[..n]));
  }
}
