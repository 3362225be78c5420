/**
 Image compression: every pixel is split into four components, each component stream is
 run-length coded, and the image is cut into groups of chunks that are coded apart.
 */
module PlanarRle {
  import opened Arithmetic
  import opened Bytes
  import opened Rle
  import opened RleCodec
  import Float32

  datatype Quad = Quad(one: nat, two: nat, three: nat, four: nat)

  /**
   A pixel format: its component alphabet, whether the fourth component is coded, and how
   pixels of type `P` are split and joined. Without alpha, `join` ignores the fourth component.
   */
  datatype PixelFormat<!P> = PixelFormat(alphabet: Alphabet, alpha: bool, split: P -> Quad, join: Quad -> P)

  // ---------- One chunk ----------

  function Component(q: Quad, c: nat): nat {
    if c == 0 then q.one else if c == 1 then q.two else if c == 2 then q.three else q.four
  }

  function Plane<P>(f: PixelFormat<P>, px: seq<P>, c: nat): (r: seq<nat>)
    ensures |r| == |px|
  {
    seq<nat>(|px|, i requires 0 <= i < |px| => Component(f.split(px[i]), c))
  }

  /** The tokens coded in channel `c`; without alpha the last channel is a single zero. */
  function Channel<P>(f: PixelFormat<P>, px: seq<P>, c: nat): seq<nat> {
    if px == [] then [] else if c == 3 && !f.alpha then [0] else Plane(f, px, c)
  }

  function CompressChunk<P>(f: PixelFormat<P>, px: seq<P>): (r: seq<seq<nat>>)
    ensures |r| == 4
  {
    seq(4, c requires 0 <= c < 4 => Rle.Compress(f.alphabet, Channel(f, px, c)))
  }

  function ReadChannel(a: Alphabet, s: seq<nat>, m: nat): (d: Option<seq<nat>>)
    ensures d.Some? ==> |d.value| == m
  {
    match Decode(a, Reader(0, 0, s), m)
    case None => None
    case Some((xs, _)) => Some(xs)
  }

  /** The channels a decoder reads: the fourth one only with alpha. */
  function Channels<P>(f: PixelFormat<P>): nat {
    if f.alpha then 4 else 3
  }

  predicate Readable<P>(f: PixelFormat<P>, s: seq<seq<nat>>, m: nat)
    requires |s| == 4
  {
    forall c :: 0 <= c < Channels(f) ==> ReadChannel(f.alphabet, s[c], m).Some?
  }

  function Token<P>(f: PixelFormat<P>, s: seq<seq<nat>>, m: nat, c: nat, i: nat): nat
    requires |s| == 4 && c < 4 && i < m && Readable(f, s, m)
  {
    if c < Channels(f) then ReadChannel(f.alphabet, s[c], m).value[i] else 0
  }

  function DecompressChunk<P>(f: PixelFormat<P>, s: seq<seq<nat>>, m: nat): (r: Option<seq<P>>)
    requires |s| == 4
    ensures r.Some? ==> |r.value| == m
  {
    if !Readable(f, s, m) then None
    else Some(seq(m, i requires 0 <= i < m =>
                f.join(Quad(Token(f, s, m, 0, i), Token(f, s, m, 1, i), Token(f, s, m, 2, i), Token(f, s, m, 3, i)))))
  }

  /** What is left of a pixel after splitting, dropping an uncoded component, and joining. */
  function View<P>(f: PixelFormat<P>, p: P): P {
    var q := f.split(p);
    f.join(if f.alpha then q else q.(four := 0))
  }

  function ViewAll<P>(f: PixelFormat<P>, px: seq<P>): (r: seq<P>)
    ensures |r| == |px|
  {
    seq(|px|, i requires 0 <= i < |px| => View(f, px[i]))
  }

  lemma {:induction false} ChannelRoundTrip<P>(f: PixelFormat<P>, px: seq<P>, c: nat)
    requires c < Channels(f)
    ensures ReadChannel(f.alphabet, CompressChunk(f, px)[c], |px|) == Some(Plane(f, px, c))
  {
    RoundTrip(f.alphabet, Channel(f, px, c), []);
    assert CompressChunk(f, px)[c] + [] == CompressChunk(f, px)[c];
    if px == [] {
      assert Plane(f, px, c) == [];
    }
  }

  lemma {:induction false} ChunkRoundTrip<P>(f: PixelFormat<P>, px: seq<P>)
    ensures DecompressChunk(f, CompressChunk(f, px), |px|) == Some(ViewAll(f, px))
  {
    hide ReadChannel, CompressChunk;
    var s := CompressChunk(f, px);
    forall c: nat | c < Channels(f)
      ensures ReadChannel(f.alphabet, s[c], |px|) == Some(Plane(f, px, c))
    {
      ChannelRoundTrip(f, px, c);
    }
    var out := DecompressChunk(f, s, |px|).value;
    forall i | 0 <= i < |px| ensures out[i] == ViewAll(f, px)[i] {
      var q := f.split(px[i]);
      assert Token(f, s, |px|, 0, i) == q.one && Token(f, s, |px|, 1, i) == q.two && Token(f, s, |px|, 2, i) == q.three;
      assert Token(f, s, |px|, 3, i) == if f.alpha then q.four else 0;
      assert Quad(q.one, q.two, q.three, q.four) == q;
    }
    assert out == ViewAll(f, px);
  }

  // ---------- The chunks of an image ----------

  predicate Rises(cut: nat -> nat, g: nat, n: nat) {
    cut(g) <= cut(g + 1) <= n
  }

  /** Positions that cut an image of `n` pixels into `k` groups: from 0 on, never back, and not past its end. */
  ghost predicate Cuts(cut: nat -> nat, k: nat, n: nat) {
    k > 0 && cut(0) == 0 && forall g: nat :: g < k ==> Rises(cut, g, n)
  }

  lemma {:induction false} CutsOrdered(cut: nat -> nat, k: nat, n: nat, g: nat)
    requires Cuts(cut, k, n) && g <= k
    ensures cut(g) <= cut(k) <= n
    decreases k - g
  {
    if g < k {
      assert Rises(cut, g, n);
      CutsOrdered(cut, k, n, g + 1);
    } else {
      assert Rises(cut, k - 1, n);
    }
  }

  /** The cuts that the source computes: multiples of a width in single precision. */
  function FloatCut(n: nat, k: nat): nat -> nat
    requires k > 0
  {
    g => Float32.Cut(n, k, g)
  }

  /** Those are cuts of the image if and only if the last one is not behind its end. */
  lemma {:induction false} FloatCutsIff(n: nat, k: nat)
    requires k > 0
    ensures Cuts(FloatCut(n, k), k, n) <==> Float32.Cut(n, k, k) <= n
  {
    hide Float32.Cut;
    Float32.CutsRise(n, k, 0);
    if Float32.Cut(n, k, k) <= n {
      forall g: nat | g < k ensures Rises(FloatCut(n, k), g, n) {
        Float32.CutsRise(n, k, g);
        Float32.CutsRiseTo(n, k, g + 1, k);
      }
    } else {
      assert !Rises(FloatCut(n, k), k - 1, n);
    }
  }

  /** So they are below 2^23 pixels, and the last one is the end of the image or one pixel before it. */
  lemma {:induction false} FloatCutsTile(n: nat, k: nat)
    requires n < 0x80_0000 && 0 < k <= 0x100_0000
    ensures Cuts(FloatCut(n, k), k, n) && n - 1 <= FloatCut(n, k)(k) <= n
  {
    hide Float32.Cut, Cuts;
    Float32.CutsEnd(n, k);
    FloatCutsIff(n, k);
  }

  /** With one group, as without OpenMP, they take in the whole image up to 2^24 pixels. */
  lemma {:induction false} SingleFloatCut(n: nat)
    requires n <= 0x100_0000
    ensures Cuts(FloatCut(n, 1), 1, n) && FloatCut(n, 1)(1) == n
  {
    hide Float32.Cut, Cuts;
    Float32.SingleCut(n);
    FloatCutsIff(n, 1);
  }

  /** Not so for 16777219 pixels, the only group of which ends one pixel behind the image. */
  lemma {:induction false} GroupBehindImage()
    ensures FloatCut(16777219, 1)(1) == 16777220 && !Cuts(FloatCut(16777219, 1), 1, 16777219)
  {
    hide Float32.Cut, Cuts;
    Float32.CutIsBehind();
    FloatCutsIff(16777219, 1);
  }

  /** The pixels of group `g`. */
  function Group<P>(px: seq<P>, cut: nat -> nat, k: nat, g: nat): (r: seq<P>)
    requires Cuts(cut, k, |px|) && g < k
    ensures |r| == cut(g + 1) - cut(g)
  {
    assert Rises(cut, g, |px|);
    px[cut(g)..cut(g + 1)]
  }

  /** All channels of the groups from `g` on, four per group. */
  function CompressFrom<P>(f: PixelFormat<P>, px: seq<P>, cut: nat -> nat, k: nat, g: nat): (r: seq<seq<nat>>)
    requires Cuts(cut, k, |px|) && g <= k
    ensures |r| == 4 * (k - g)
    decreases k - g
  {
    if g == k then []
    else CompressChunk(f, Group(px, cut, k, g)) + CompressFrom(f, px, cut, k, g + 1)
  }

  /** The pixels of the groups from `g` on. */
  function DecompressFrom<P>(f: PixelFormat<P>, inputs: seq<seq<nat>>, cut: nat -> nat, n: nat, k: nat, g: nat)
    : Option<seq<P>>
    requires Cuts(cut, k, n) && g <= k && |inputs| == 4 * (k - g)
    decreases k - g
  {
    if g == k then Some([])
    else
      assert Rises(cut, g, n);
      match DecompressChunk(f, inputs[..4], cut(g + 1) - cut(g))
      case None => None
      case Some(chunk) =>
        match DecompressFrom(f, inputs[4..], cut, n, k, g + 1)
        case None => None
        case Some(rest) => Some(chunk + rest)
  }

  /** From any group on, every pixel up to the last cut comes back as what its format keeps of it. */
  lemma {:induction false} ImageRoundTripFrom<P>(f: PixelFormat<P>, px: seq<P>, cut: nat -> nat, k: nat, g: nat)
    requires Cuts(cut, k, |px|) && g <= k
    ensures cut(g) <= cut(k) <= |px|
    ensures DecompressFrom(f, CompressFrom(f, px, cut, k, g), cut, |px|, k, g) == Some(ViewAll(f, px)[cut(g)..cut(k)])
    decreases k - g
  {
    hide CompressChunk, DecompressChunk;
    CutsOrdered(cut, k, |px|, g);
    if g < k {
      CutsOrdered(cut, k, |px|, g + 1);
      assert Rises(cut, g, |px|);
      var all, from, to := ViewAll(f, px), cut(g), cut(g + 1);
      var group := Group(px, cut, k, g);
      var chunk, rest := CompressChunk(f, group), CompressFrom(f, px, cut, k, g + 1);
      var inputs := CompressFrom(f, px, cut, k, g);
      assert inputs == chunk + rest && inputs[..4] == chunk && inputs[4..] == rest;
      ChunkRoundTrip(f, group);
      ImageRoundTripFrom(f, px, cut, k, g + 1);
      assert ViewAll(f, group) == all[from..to];
      assert all[from..cut(k)] == all[from..to] + all[to..cut(k)];
    } else {
      assert ViewAll(f, px)[cut(g)..cut(k)] == [];
    }
  }

  /** The whole image comes back, as what its format keeps of it, exactly if the last group ends with the image. */
  lemma {:induction false} ImageRoundTrip<P>(f: PixelFormat<P>, px: seq<P>, cut: nat -> nat, k: nat)
    requires Cuts(cut, k, |px|)
    ensures cut(k) <= |px|
    ensures DecompressFrom(f, CompressFrom(f, px, cut, k, 0), cut, |px|, k, 0) == Some(ViewAll(f, px)[..cut(k)])
    ensures DecompressFrom(f, CompressFrom(f, px, cut, k, 0), cut, |px|, k, 0) == Some(ViewAll(f, px))
       <==> cut(k) == |px|
  {
    hide DecompressFrom, CompressFrom;
    ImageRoundTripFrom(f, px, cut, k, 0);
    var all := ViewAll(f, px);
    assert all[0..cut(k)] == all[..cut(k)] && all[..|all|] == all;
    assert |all[..cut(k)]| == cut(k);
  }

  /** The reader of every coded channel ends exactly at the end of its stream. */
  lemma {:induction false} ChannelIsConsumed<P>(f: PixelFormat<P>, px: seq<P>, c: nat)
    requires c < Channels(f)
    ensures var d := Decode(f.alphabet, Reader(0, 0, CompressChunk(f, px)[c]), |px|);
            d.Some? && d.value.1.rest == []
  {
    RoundTrip(f.alphabet, Channel(f, px, c), []);
    assert CompressChunk(f, px)[c] + [] == CompressChunk(f, px)[c];
  }

  /** Streams of components that fit their width hold well-formed tokens of that width. */
  lemma {:induction false} ChannelsEscape<P>(f: PixelFormat<P>, px: seq<P>, c: nat)
    requires f.alphabet.Valid() && c < 4
    requires forall i :: 0 <= i < |px| ==> Component(f.split(px[i]), c) <= f.alphabet.max
    ensures Escaped(f.alphabet, CompressChunk(f, px)[c])
  {
    var ch := Channel(f, px, c);
    if ch != [] {
      EncodeEscapes(f.alphabet, ch[0], 1, ch[1..]);
    }
  }

  // ---------- Reserved sizes ----------

  /** `_setupResults` with `procs` processors, or without OpenMP when `procs` is None: the number of chunks. */
  function ChunkCount(nChannels: nat, inSize: nat, procs: Option<nat>): nat {
    match procs
    case None => nChannels
    case Some(p) =>
      var cpuChunks, sizeChunks := nChannels * p, inSize / 4096 * nChannels;
      var minChunks := if nChannels > sizeChunks then nChannels else sizeChunks;
      if minChunks < cpuChunks then minChunks else cpuChunks
  }

  function Reserve(inSize: nat, nChunks: nat): nat
    requires nChunks > 0
  {
    (inSize / nChunks + 1) * 2
  }

  /** The reserved size of one channel of `n` pixels in `k` groups, in components of `bytes` bytes. */
  function ReservedTokens(n: nat, k: nat, bytes: nat): nat
    requires k > 0 && bytes > 0
  {
    Reserve(n * 4 * bytes, 4 * k) / bytes
  }

  /** A channel fits in tokens if and only if it fits in bytes. */
  lemma {:induction false} ReservedInBytes(n: nat, k: nat, bytes: nat, x: nat)
    requires k > 0 && (bytes == 1 || bytes == 2)
    ensures x <= ReservedTokens(n, k, bytes) <==> bytes * x <= Reserve(n * 4 * bytes, 4 * k)
  {
    hide Reserve;
  }

  /**
   The number of chunks is a multiple of the four channels. With OpenMP there are as many
   groups as there are processors, or fewer so that each of several has 4096 bytes.
   */
  lemma {:induction false} ChunksComeInFours(inSize: nat, procs: Option<nat>)
    requires procs.Some? ==> procs.value > 0
    ensures ChunkCount(4, inSize, procs) % 4 == 0 && ChunkCount(4, inSize, procs) >= 4
    ensures procs == None ==> ChunkCount(4, inSize, procs) == 4
    ensures procs.Some? ==>
              var k := ChunkCount(4, inSize, procs) / 4;
              && k <= procs.value && (k > 1 ==> 4096 * k <= inSize)
              && (k < procs.value ==> inSize < 4096 * (k + 1))
  {
  }

  /** The size reserved for components of one or two bytes, in bytes. */
  lemma {:induction false} ReserveIs(n: nat, k: nat, bytes: nat)
    requires k > 0 && (bytes == 1 || bytes == 2)
    ensures bytes == 1 ==> Reserve(n * 4 * bytes, 4 * k) == 2 * (n / k) + 2
    ensures bytes == 2 ==>
              Reserve(n * 4 * bytes, 4 * k) == 4 * (n / k) + if 2 * (n % k) >= k then 4 else 2
  {
    var q, r := n / k, n % k;
    var p := k * q;
    assert n == p + r;
    FourTimes(k, q);
    if bytes == 1 {
      DivideUnique(n * 4 * bytes, 4 * k, q, 4 * r);
    } else if 2 * r < k {
      DivideUnique(n * 4 * bytes, 4 * k, 2 * q, 8 * r);
    } else {
      DivideUnique(n * 4 * bytes, 4 * k, 2 * q + 1, 8 * r - 4 * k);
    }
  }

  lemma {:induction false} FourTimes(k: nat, q: nat)
    ensures (4 * k) * q == 4 * (k * q) && (4 * k) * (2 * q) == 8 * (k * q)
    ensures (4 * k) * (2 * q + 1) == 8 * (k * q) + 4 * k
  {
  }

  /** Twice the quotient of pixels and groups, and two tokens or, where the remainder gains nothing, one. */
  function Room(n: nat, k: nat, bytes: nat): nat
    requires k > 0
  {
    2 * (n / k) + if bytes == 1 || 2 * (n % k) >= k then 2 else 1
  }

  lemma {:induction false} ReservedTokensAre(n: nat, k: nat, bytes: nat)
    requires k > 0 && (bytes == 1 || bytes == 2)
    ensures ReservedTokens(n, k, bytes) == Room(n, k, bytes)
  {
    hide Reserve;
    ReserveIs(n, k, bytes);
  }

  /**
   When a channel of a group of an image of `n` pixels does not fit the size reserved for it,
   however wide the group is: when its maximal runs of equal tokens cost more than that.
   */
  lemma {:induction false} GroupExceedsReserve<P>(f: PixelFormat<P>, group: seq<P>, n: nat, k: nat, c: nat, bytes: nat)
    requires f.alphabet.Valid() && (bytes == 1 || bytes == 2) && k > 0 && c < 4
    ensures bytes * |CompressChunk(f, group)[c]| > Reserve(n * 4 * bytes, 4 * k)
       <==> Cost(f.alphabet, Channel(f, group, c)) > Room(n, k, bytes)
  {
    hide Rle.Compress, Reserve, Cost, ReservedTokens;
    CompressCost(f.alphabet, Channel(f, group, c));
    ReservedTokensAre(n, k, bytes);
    ReservedInBytes(n, k, bytes, |CompressChunk(f, group)[c]|);
  }

  /**
   The tokens that do not fit what is reserved for a group that is one wider than the
   quotient. For components of two bytes the reserve depends on the remainder of pixels
   and groups: the quotient of their bytes may or may not gain from it.
   */
  predicate TooMuch(a: Alphabet, xs: seq<nat>, n: nat, k: nat, bytes: nat)
    requires k > 0
  {
    if bytes == 1 || 2 * (n % k) >= k then |xs| % 2 == 1 && Alternates(a, xs, true)
    else Separated(a, xs) && 2 * Markers(a, xs) >= |xs|
  }

  /** Tokens of at most that many pixels exceed the reserved size if and only if they are that many and too much. */
  lemma {:induction false} ReserveExceeded(a: Alphabet, xs: seq<nat>, n: nat, k: nat, bytes: nat)
    requires a.Valid() && k > 0 && (bytes == 1 || bytes == 2) && |xs| <= n / k + 1
    ensures bytes * |Rle.Compress(a, xs)| > Reserve(n * 4 * bytes, 4 * k)
       <==> |xs| == n / k + 1 && TooMuch(a, xs, n, k, bytes)
  {
    hide Rle.Compress, Alternates, Separated, Reserve;
    ReserveIs(n, k, bytes);
    CompressSize(a, xs);
    TwiceIsExceeded(a, xs);
    TwiceIsReached(a, xs);
  }

  /** A group that is not wider than the quotient always fits; with one chunk per channel there is only such a group. */
  lemma {:induction false} ReserveSuffices<P>(f: PixelFormat<P>, group: seq<P>, n: nat, k: nat, c: nat, bytes: nat)
    requires f.alphabet.Valid() && (bytes == 1 || bytes == 2) && k > 0 && c < 4 && |group| <= n / k
    ensures bytes * |CompressChunk(f, group)[c]| <= Reserve(n * 4 * bytes, 4 * k)
  {
    hide Rle.Compress, Reserve, TooMuch;
    ReserveExceeded(f.alphabet, Channel(f, group, c), n, k, bytes);
    assert |Channel(f, group, c)| <= n / k;
  }

  // ---------- The loops ----------

  /** One channel of a chunk being written: its buffer and position, the open run and its counter. */
  class ChannelWriter {
    const out: array<nat>
    var pos: nat
    var last: nat
    var same: nat

    ghost predicate Valid(a: Alphabet, rest: seq<nat>, whole: seq<nat>)
      reads this, out
    {
      Running(a, out, pos, last, same, rest, whole)
    }

    constructor (a: Alphabet, capacity: nat, first: nat, ghost rest: seq<nat>)
      ensures fresh(out) && out.Length == capacity && Valid(a, rest, Encode(a, first, 1, rest))
    {
      out := new nat[capacity];
      pos, last, same := 0, first, 1;
      new;
      assert out[..0] + Encode(a, first, 1, rest) == Encode(a, first, 1, rest);
    }

    /** One token more; not `ok` only if the whole channel is larger than the buffer. */
    method Push(a: Alphabet, token: nat, ghost rest: seq<nat>, ghost whole: seq<nat>) returns (ok: bool)
      requires Valid(a, [token] + rest, whole)
      modifies this, out
      ensures if ok then Valid(a, rest, whole) else |whole| > out.Length
    {
      ok, last, same, pos := CompressToken(a, token, last, same, out, pos, rest, whole);
    }

    method Finish(a: Alphabet, ghost whole: seq<nat>) returns (ok: bool, result: seq<nat>)
      requires Valid(a, [], whole)
      modifies this, out
      ensures ok == (|whole| <= out.Length) && (ok ==> result == whole)
    {
      ok, pos := FinishRun(a, last, same, out, pos, whole);
      result := if ok then out[..pos] else [];
    }
  }

  ghost predicate Apart(one: ChannelWriter, two: ChannelWriter, three: ChannelWriter, four: ChannelWriter) {
    && one != two && one != three && one != four && two != three && two != four && three != four
    && one.out != two.out && one.out != three.out && one.out != four.out
    && two.out != three.out && two.out != four.out && three.out != four.out
  }

  lemma {:induction false} ChannelHead<P>(f: PixelFormat<P>, px: seq<P>, c: nat)
    requires px != [] && c < 4
    ensures var ch := Channel(f, px, c);
            ch != [] && ch[0] == (if c < Channels(f) then Component(f.split(px[0]), c) else 0)
            && CompressChunk(f, px)[c] == Encode(f.alphabet, ch[0], 1, ch[1..])
    ensures c >= Channels(f) ==> Channel(f, px, c)[1..] == []
  {
  }

  lemma {:induction false} ChannelNext<P>(f: PixelFormat<P>, px: seq<P>, c: nat, i: nat)
    requires c < Channels(f) && i < |px|
    ensures |Channel(f, px, c)| == |px|
    ensures Channel(f, px, c)[i..] == [Component(f.split(px[i]), c)] + Channel(f, px, c)[i + 1..]
  {
  }

  /** What channel `c` still has to code from pixel `i` on. */
  ghost function Ahead<P>(f: PixelFormat<P>, px: seq<P>, c: nat, i: nat): seq<nat>
    requires 1 <= i <= |px| && c < 4
  {
    if c < Channels(f) then Channel(f, px, c)[i..] else []
  }

  lemma {:induction false} AheadStep<P>(f: PixelFormat<P>, px: seq<P>, c: nat, i: nat)
    requires 1 <= i <= |px| && c < 4
    ensures i < |px| && c < Channels(f) ==>
              Ahead(f, px, c, i) == [Component(f.split(px[i]), c)] + Ahead(f, px, c, i + 1)
    ensures i < |px| && c >= Channels(f) ==> Ahead(f, px, c, i) == Ahead(f, px, c, i + 1)
    ensures i == |px| ==> Ahead(f, px, c, i) == []
  {
    if c < Channels(f) && i < |px| {
      ChannelNext(f, px, c, i);
    }
  }

  /** Buffers of `capacity` tokens hold all four channels. */
  predicate Fits<P>(f: PixelFormat<P>, px: seq<P>, capacity: nat) {
    forall c :: 0 <= c < 4 ==> |CompressChunk(f, px)[c]| <= capacity
  }

  method StartChannel<P>(f: PixelFormat<P>, px: seq<P>, c: nat, capacity: nat) returns (w: ChannelWriter)
    requires px != [] && c < 4
    ensures fresh(w) && fresh(w.out) && w.out.Length == capacity
    ensures w.Valid(f.alphabet, Ahead(f, px, c, 1), CompressChunk(f, px)[c])
  {
    hide CompressChunk, Channel, Encode;
    ChannelHead(f, px, c);
    var first := if c < Channels(f) then Component(f.split(px[0]), c) else 0;
    w := new ChannelWriter(f.alphabet, capacity, first, Ahead(f, px, c, 1));
  }

  /** All four channels have coded the pixels before `i`. */
  ghost predicate Coding<P>(f: PixelFormat<P>, px: seq<P>, i: nat, capacity: nat,
                            one: ChannelWriter, two: ChannelWriter, three: ChannelWriter, four: ChannelWriter)
    requires 1 <= i <= |px|
    reads one, two, three, four, one.out, two.out, three.out, four.out
  {
    var whole, a := CompressChunk(f, px), f.alphabet;
    && Apart(one, two, three, four)
    && one.out.Length == two.out.Length == three.out.Length == four.out.Length == capacity
    && one.Valid(a, Ahead(f, px, 0, i), whole[0]) && two.Valid(a, Ahead(f, px, 1, i), whole[1])
    && three.Valid(a, Ahead(f, px, 2, i), whole[2]) && four.Valid(a, Ahead(f, px, 3, i), whole[3])
  }

  method PushPixel<P>(f: PixelFormat<P>, px: seq<P>, i: nat, ghost capacity: nat,
                      one: ChannelWriter, two: ChannelWriter, three: ChannelWriter, four: ChannelWriter)
    returns (ok: bool)
    requires 1 <= i < |px| && Coding(f, px, i, capacity, one, two, three, four)
    modifies one, two, three, four, one.out, two.out, three.out, four.out
    ensures if ok then Coding(f, px, i + 1, capacity, one, two, three, four) else !Fits(f, px, capacity)
  {
    hide CompressChunk, Ahead, Running;
    AheadStep(f, px, 0, i);
    AheadStep(f, px, 1, i);
    AheadStep(f, px, 2, i);
    AheadStep(f, px, 3, i);
    ghost var whole := CompressChunk(f, px);
    var a, q := f.alphabet, f.split(px[i]);
    ok := one.Push(a, q.one, Ahead(f, px, 0, i + 1), whole[0]);
    if !ok { return; }
    ok := two.Push(a, q.two, Ahead(f, px, 1, i + 1), whole[1]);
    if !ok { return; }
    ok := three.Push(a, q.three, Ahead(f, px, 2, i + 1), whole[2]);
    if !ok { return; }
    if f.alpha {
      ok := four.Push(a, q.four, Ahead(f, px, 3, i + 1), whole[3]);
    }
  }

  /** Splits the pixels of one chunk and codes all channels side by side; `None` when a buffer is too small. */
  method CompressChunkTo<P>(f: PixelFormat<P>, px: seq<P>, capacity: nat) returns (results: Option<seq<seq<nat>>>)
    ensures results == if Fits(f, px, capacity) then Some(CompressChunk(f, px)) else None
  {
    if |px| == 0 {
      results := Some([[], [], [], []]);
      assert forall c :: 0 <= c < 4 ==> CompressChunk(f, px)[c] == [];
      assert CompressChunk(f, px) == [[], [], [], []];
      return;
    }
    var one := StartChannel(f, px, 0, capacity);
    var two := StartChannel(f, px, 1, capacity);
    var three := StartChannel(f, px, 2, capacity);
    var four := StartChannel(f, px, 3, capacity);
    assert Coding(f, px, 1, capacity, one, two, three, four);
    results := CompressPixels(f, px, capacity, one, two, three, four);
  }

  method CompressPixels<P>(f: PixelFormat<P>, px: seq<P>, ghost capacity: nat,
                           one: ChannelWriter, two: ChannelWriter, three: ChannelWriter, four: ChannelWriter)
    returns (results: Option<seq<seq<nat>>>)
    requires px != [] && Coding(f, px, 1, capacity, one, two, three, four)
    modifies one, two, three, four, one.out, two.out, three.out, four.out
    ensures results == if Fits(f, px, capacity) then Some(CompressChunk(f, px)) else None
  {
    hide CompressChunk, Ahead, Running;
    var i := 1;
    while i < |px|
      invariant 1 <= i <= |px| && Coding(f, px, i, capacity, one, two, three, four)
    {
      var ok := PushPixel(f, px, i, capacity, one, two, three, four);
      if !ok { return None; }
      i := i + 1;
    }
    AheadStep(f, px, 0, i);
    AheadStep(f, px, 1, i);
    AheadStep(f, px, 2, i);
    AheadStep(f, px, 3, i);
    ghost var whole := CompressChunk(f, px);
    var ok1, r1 := one.Finish(f.alphabet, whole[0]);
    var ok2, r2 := two.Finish(f.alphabet, whole[1]);
    var ok3, r3 := three.Finish(f.alphabet, whole[2]);
    var ok4, r4 := four.Finish(f.alphabet, whole[3]);
    results := if ok1 && ok2 && ok3 && ok4 then Some([r1, r2, r3, r4]) else None;
    assert whole == [whole[0], whole[1], whole[2], whole[3]];
  }

  /** All groups from `g` on fit buffers of `capacity` tokens. */
  predicate AllFit<P>(f: PixelFormat<P>, px: seq<P>, cut: nat -> nat, k: nat, g: nat, capacity: nat)
    requires Cuts(cut, k, |px|) && g <= k
    decreases k - g
  {
    g == k || (Fits(f, Group(px, cut, k, g), capacity) && AllFit(f, px, cut, k, g + 1, capacity))
  }

  /**
   All chunk groups of an image, each into buffers of the size that is reserved for
   components of `bytes` bytes. `None` stands for a write behind one of them;
   `GroupExceedsReserve` says when that is.
   */
  method CompressImage<P>(f: PixelFormat<P>, px: seq<P>, cut: nat -> nat, k: nat, bytes: nat)
    returns (results: Option<seq<seq<nat>>>)
    requires Cuts(cut, k, |px|) && (bytes == 1 || bytes == 2)
    ensures results == if AllFit(f, px, cut, k, 0, ReservedTokens(|px|, k, bytes))
                       then Some(CompressFrom(f, px, cut, k, 0)) else None
  {
    hide CompressChunk, Fits, ReservedTokens;
    var capacity := ReservedTokens(|px|, k, bytes);
    var g := 0;
    var all := [];
    while g < k
      invariant 0 <= g <= k
      invariant all + CompressFrom(f, px, cut, k, g) == CompressFrom(f, px, cut, k, 0)
      invariant AllFit(f, px, cut, k, 0, capacity) == AllFit(f, px, cut, k, g, capacity)
    {
      var r := CompressChunkTo(f, Group(px, cut, k, g), capacity);
      if r == None { return None; }
      ghost var rest := CompressFrom(f, px, cut, k, g + 1);
      assert all + (r.value + rest) == (all + r.value) + rest;
      all := all + r.value;
      g := g + 1;
    }
    assert all + [] == all;
    return Some(all);
  }

  /** What an image comes back as, `None` when some channel does not fit its buffer. */
  function Image<P>(f: PixelFormat<P>, px: seq<P>, cut: nat -> nat, k: nat, bytes: nat): Option<seq<P>>
    requires Cuts(cut, k, |px|) && bytes > 0
  {
    if AllFit(f, px, cut, k, 0, ReservedTokens(|px|, k, bytes)) then
      DecompressFrom(f, CompressFrom(f, px, cut, k, 0), cut, |px|, k, 0)
    else None
  }

  /** No channel of group `g` costs more than what is reserved for it. */
  predicate Affordable<P>(f: PixelFormat<P>, px: seq<P>, cut: nat -> nat, k: nat, bytes: nat, g: nat)
    requires Cuts(cut, k, |px|) && g < k && f.alphabet.Valid()
  {
    forall c :: 0 <= c < 4 ==> Cost(f.alphabet, Channel(f, Group(px, cut, k, g), c)) <= Room(|px|, k, bytes)
  }

  lemma {:induction false} FitsIff<P>(f: PixelFormat<P>, px: seq<P>, cut: nat -> nat, k: nat, bytes: nat, g: nat)
    requires Cuts(cut, k, |px|) && g < k && f.alphabet.Valid() && (bytes == 1 || bytes == 2)
    ensures Fits(f, Group(px, cut, k, g), ReservedTokens(|px|, k, bytes)) <==> Affordable(f, px, cut, k, bytes, g)
  {
    hide ReservedTokens, CompressChunk, Channel, Cost, Reserve;
    var group := Group(px, cut, k, g);
    forall c | 0 <= c < 4
      ensures |CompressChunk(f, group)[c]| <= ReservedTokens(|px|, k, bytes)
         <==> Cost(f.alphabet, Channel(f, group, c)) <= Room(|px|, k, bytes)
    {
      GroupExceedsReserve(f, group, |px|, k, c, bytes);
      ReservedInBytes(|px|, k, bytes, |CompressChunk(f, group)[c]|);
    }
  }

  /** All groups fit if and only if each one is affordable. */
  lemma {:induction false} AllFitIff<P>(f: PixelFormat<P>, px: seq<P>, cut: nat -> nat, k: nat, bytes: nat, g: nat)
    requires Cuts(cut, k, |px|) && g <= k && f.alphabet.Valid() && (bytes == 1 || bytes == 2)
    ensures AllFit(f, px, cut, k, g, ReservedTokens(|px|, k, bytes))
       <==> forall h :: g <= h < k ==> Affordable(f, px, cut, k, bytes, h)
    decreases k - g
  {
    hide ReservedTokens, Fits, Affordable;
    if g < k {
      FitsIff(f, px, cut, k, bytes, g);
      AllFitIff(f, px, cut, k, bytes, g + 1);
    }
  }

  /** With a single chunk per channel the image is always compressed into the reserved buffers. */
  lemma {:induction false} SingleGroupFits<P>(f: PixelFormat<P>, px: seq<P>, cut: nat -> nat, bytes: nat)
    requires f.alphabet.Valid() && (bytes == 1 || bytes == 2) && Cuts(cut, 1, |px|)
    ensures AllFit(f, px, cut, 1, 0, ReservedTokens(|px|, 1, bytes))
  {
    hide Reserve, CompressChunk, ReservedTokens;
    var group := Group(px, cut, 1, 0);
    CutsOrdered(cut, 1, |px|, 0);
    forall c | 0 <= c < 4 ensures |CompressChunk(f, group)[c]| <= ReservedTokens(|px|, 1, bytes) {
      ReserveSuffices(f, group, |px|, 1, c, bytes);
      ReservedInBytes(|px|, 1, bytes, |CompressChunk(f, group)[c]|);
    }
    assert Fits(f, group, ReservedTokens(|px|, 1, bytes));
  }

  /** No component of the pixel is the marker. */
  predicate Unmarked<P>(f: PixelFormat<P>, p: P) {
    forall c :: 0 <= c < 4 ==> Component(f.split(p), c) != f.alphabet.marker
  }

  lemma {:induction false} UnmarkedChannel<P>(f: PixelFormat<P>, group: seq<P>, c: nat)
    requires f.alphabet.Valid() && f.alphabet.marker != 0 && c < 4
    requires forall i :: 0 <= i < |group| ==> Unmarked(f, group[i])
    ensures |CompressChunk(f, group)[c]| <= |group|
  {
    var a, xs := f.alphabet, Channel(f, group, c);
    if xs != [] {
      assert a.marker !in xs;
      EncodeWithoutMarkers(a, xs[0], 1, xs[1..]);
    }
  }

  /** Below 2^23 pixels, and with at least one for each group, an image without markers always fits. */
  lemma {:induction false} UnmarkedFits<P>(f: PixelFormat<P>, px: seq<P>, k: nat, bytes: nat, g: nat)
    requires f.alphabet.Valid() && f.alphabet.marker != 0 && (bytes == 1 || bytes == 2)
    requires 0 < k <= |px| < 0x80_0000 && g <= k && Cuts(FloatCut(|px|, k), k, |px|)
    requires forall i :: 0 <= i < |px| ==> Unmarked(f, px[i])
    ensures AllFit(f, px, FloatCut(|px|, k), k, g, ReservedTokens(|px|, k, bytes))
    decreases k - g
  {
    hide Unmarked, CompressChunk, ReservedTokens, Float32.Cut;
    if g < k {
      var n, cut := |px|, FloatCut(|px|, k);
      UnmarkedFits(f, px, k, bytes, g + 1);
      Float32.GroupWidth(n, k, g);
      ReservedTokensAre(n, k, bytes);
      AtLeastOne(n, k);
      assert Rises(cut, g, n);
      var group := Group(px, cut, k, g);
      forall c | 0 <= c < 4 ensures |CompressChunk(f, group)[c]| <= ReservedTokens(n, k, bytes) {
        UnmarkedChannel(f, group, c);
      }
    }
  }

  lemma {:induction false} AtLeastOne(n: nat, k: nat)
    requires 0 < k <= n
    ensures n / k >= 1
  {
  }

  // ---------- Decoding in place ----------

  /** A channel of `m` tokens of which `xs` have been read. */
  ghost predicate Reading(a: Alphabet, s: seq<nat>, pos: nat, token: nat, left: nat, xs: seq<nat>, m: nat) {
    && pos <= |s| && |xs| <= m
    && DecodeOn(a, Reader(token, left, s[pos..]), m - |xs|, xs) == Decode(a, Reader(0, 0, s), m)
  }

  /** The next token of a channel; not `ok` only if the stream does not hold all tokens of the channel. */
  method NextToken(a: Alphabet, s: seq<nat>, start: nat, token: nat, left: nat, ghost xs: seq<nat>, ghost m: nat)
    returns (ok: bool, token': nat, left': nat, pos: nat)
    requires |xs| < m && Reading(a, s, start, token, left, xs, m)
    ensures if ok then Reading(a, s, pos, token', left', xs + [token'], m) else ReadChannel(a, s, m) == None
  {
    hide Decode, Read;
    DecodeStep(a, Reader(token, left, s[start..]), m - |xs|, xs);
    ok, token', left', pos := ReadToken(a, s, start, token, left);
  }

  lemma {:induction false} ReadingStarts(a: Alphabet, s: seq<nat>, m: nat)
    ensures Reading(a, s, 0, 0, 0, [], m)
  {
    assert s[0..] == s;
    var d := Decode(a, Reader(0, 0, s), m);
    if d.Some? {
      assert [] + d.value.0 == d.value.0;
    }
  }

  lemma {:induction false} ReadingEnds(a: Alphabet, s: seq<nat>, pos: nat, token: nat, left: nat, xs: seq<nat>, m: nat)
    requires Reading(a, s, pos, token, left, xs, m) && |xs| == m
    ensures ReadChannel(a, s, m) == Some(xs)
  {
    assert xs + [] == xs;
  }

  /** The tokens read so far in the four channels. */
  datatype Columns = Columns(one: seq<nat>, two: seq<nat>, three: seq<nat>, four: seq<nat>)

  ghost predicate Long<P>(f: PixelFormat<P>, x: Columns, j: nat) {
    |x.one| == |x.two| == |x.three| == j && (f.alpha ==> |x.four| == j)
  }

  ghost function PixelAt<P>(f: PixelFormat<P>, x: Columns, j: nat, i: nat): P
    requires Long(f, x, j) && i < j
  {
    f.join(Quad(x.one[i], x.two[i], x.three[i], if f.alpha then x.four[i] else 0))
  }

  ghost function PixelsOf<P>(f: PixelFormat<P>, x: Columns, j: nat): (r: seq<P>)
    requires Long(f, x, j)
    ensures |r| == j
  {
    seq(j, i requires 0 <= i < j => PixelAt(f, x, j, i))
  }

  lemma {:induction false} PixelsGrow<P>(f: PixelFormat<P>, x: Columns, j: nat, q: Quad)
    requires Long(f, x, j)
    ensures var y := Columns(x.one + [q.one], x.two + [q.two], x.three + [q.three],
                             if f.alpha then x.four + [q.four] else x.four);
            Long(f, y, j + 1)
            && PixelsOf(f, y, j + 1)
               == PixelsOf(f, x, j) + [f.join(Quad(q.one, q.two, q.three, if f.alpha then q.four else 0))]
  {
  }

  lemma {:induction false} ColumnsGiveChunk<P>(f: PixelFormat<P>, s: seq<seq<nat>>, x: Columns, m: nat)
    requires |s| == 4 && Long(f, x, m)
    requires ReadChannel(f.alphabet, s[0], m) == Some(x.one) && ReadChannel(f.alphabet, s[1], m) == Some(x.two)
    requires ReadChannel(f.alphabet, s[2], m) == Some(x.three)
    requires f.alpha ==> ReadChannel(f.alphabet, s[3], m) == Some(x.four)
    ensures DecompressChunk(f, s, m) == Some(PixelsOf(f, x, m))
  {
    hide ReadChannel;
    var r, px := DecompressChunk(f, s, m), PixelsOf(f, x, m);
    assert r.Some?;
    forall i | 0 <= i < m ensures r.value[i] == px[i] {
      assert Token(f, s, m, 0, i) == x.one[i] && Token(f, s, m, 1, i) == x.two[i];
      assert Token(f, s, m, 2, i) == x.three[i] && Token(f, s, m, 3, i) == if f.alpha then x.four[i] else 0;
    }
    assert r.value == px;
  }

  lemma {:induction false} UnreadableChunk<P>(f: PixelFormat<P>, s: seq<seq<nat>>, m: nat, c: nat)
    requires |s| == 4 && c < Channels(f) && ReadChannel(f.alphabet, s[c], m) == None
    ensures DecompressChunk(f, s, m) == None
  {
  }

  /**
   One chunk group is read and its pixels are stored from position `from` on. Not `ok`
   exactly when a coded channel does not hold them, where the source only asserts.
   */
  method DecompressChunkTo<P>(f: PixelFormat<P>, s: seq<seq<nat>>, out: array<P>, from: nat, m: nat) returns (ok: bool)
    requires |s| == 4 && from + m <= out.Length
    modifies out
    ensures ok == DecompressChunk(f, s, m).Some?
    ensures ok ==> out[..from + m] == old(out[..from]) + DecompressChunk(f, s, m).value
    ensures out[..from] == old(out[..from]) && out[from + m..] == old(out[from + m..])
  {
    hide Decode, ReadChannel, Reading, PixelsOf, DecompressChunk;
    ghost var before, after := out[..from], out[from + m..];
    ghost var x := Columns([], [], [], []);
    var a := f.alphabet;
    var one: nat, two: nat, three: nat, four: nat := 0, 0, 0, 0;
    var oneLeft: nat, twoLeft: nat, threeLeft: nat, fourLeft: nat := 0, 0, 0, 0;
    var oneIn: nat, twoIn: nat, threeIn: nat, fourIn: nat := 0, 0, 0, 0;
    ReadingStarts(a, s[0], m);
    ReadingStarts(a, s[1], m);
    ReadingStarts(a, s[2], m);
    ReadingStarts(a, s[3], m);
    ok := true;
    var j := 0;
    assert PixelsOf(f, x, 0) == [];
    while j < m
      invariant 0 <= j <= m && Long(f, x, j)
      invariant Reading(a, s[0], oneIn, one, oneLeft, x.one, m) && Reading(a, s[1], twoIn, two, twoLeft, x.two, m)
      invariant Reading(a, s[2], threeIn, three, threeLeft, x.three, m)
      invariant f.alpha ==> Reading(a, s[3], fourIn, four, fourLeft, x.four, m)
      invariant out[..from + j] == before + PixelsOf(f, x, j) && out[from + m..] == after
    {
      PrefixKept(out[..from + j], before, PixelsOf(f, x, j));
      ok, one, oneLeft, oneIn := NextToken(a, s[0], oneIn, one, oneLeft, x.one, m);
      if !ok { UnreadableChunk(f, s, m, 0); return; }
      ok, two, twoLeft, twoIn := NextToken(a, s[1], twoIn, two, twoLeft, x.two, m);
      if !ok { UnreadableChunk(f, s, m, 1); return; }
      ok, three, threeLeft, threeIn := NextToken(a, s[2], threeIn, three, threeLeft, x.three, m);
      if !ok { UnreadableChunk(f, s, m, 2); return; }
      if f.alpha {
        ok, four, fourLeft, fourIn := NextToken(a, s[3], fourIn, four, fourLeft, x.four, m);
        if !ok { UnreadableChunk(f, s, m, 3); return; }
      }
      PixelsGrow(f, x, j, Quad(one, two, three, four));
      x := Columns(x.one + [one], x.two + [two], x.three + [three], if f.alpha then x.four + [four] else x.four);
      ghost var stored := out[..from + j];
      out[from + j] := f.join(Quad(one, two, three, if f.alpha then four else 0));
      assert out[..from + j + 1] == stored + [out[from + j]];
      j := j + 1;
    }
    PrefixKept(out[..from + j], before, PixelsOf(f, x, j));
    ReadingEnds(a, s[0], oneIn, one, oneLeft, x.one, m);
    ReadingEnds(a, s[1], twoIn, two, twoLeft, x.two, m);
    ReadingEnds(a, s[2], threeIn, three, threeLeft, x.three, m);
    if f.alpha {
      ReadingEnds(a, s[3], fourIn, four, fourLeft, x.four, m);
    }
    ColumnsGiveChunk(f, s, x, m);
  }

  lemma {:induction false} PrefixKept<T>(s: seq<T>, a: seq<T>, b: seq<T>)
    requires s == a + b
    ensures s[..|a|] == a
  {
  }

  /** The pixels of the groups from `g` on, behind those already stored. */
  ghost function DecompressOn<P>(f: PixelFormat<P>, inputs: seq<seq<nat>>, cut: nat -> nat, n: nat, k: nat, g: nat,
                                 done: seq<P>): Option<seq<P>>
    requires Cuts(cut, k, n) && g <= k && |inputs| == 4 * (k - g)
  {
    match DecompressFrom(f, inputs, cut, n, k, g)
    case None => None
    case Some(rest) => Some(done + rest)
  }

  lemma {:induction false} DecompressStep<P>(f: PixelFormat<P>, inputs: seq<seq<nat>>, cut: nat -> nat, n: nat, k: nat,
                                             g: nat, done: seq<P>)
    requires Cuts(cut, k, n) && g < k && |inputs| == 4 * k
    ensures cut(g) <= cut(g + 1) <= n
    ensures DecompressOn(f, inputs[4 * g..], cut, n, k, g, done) ==
            match DecompressChunk(f, inputs[4 * g..4 * g + 4], cut(g + 1) - cut(g))
            case None => None
            case Some(chunk) => DecompressOn(f, inputs[4 * (g + 1)..], cut, n, k, g + 1, done + chunk)
  {
    hide DecompressChunk;
    assert Rises(cut, g, n);
    var s := inputs[4 * g..4 * g + 4];
    assert inputs[4 * g..][..4] == s && inputs[4 * g..][4..] == inputs[4 * (g + 1)..];
    var chunk := DecompressChunk(f, s, cut(g + 1) - cut(g));
    var rest := DecompressFrom(f, inputs[4 * (g + 1)..], cut, n, k, g + 1);
    if chunk.Some? && rest.Some? {
      assert done + (chunk.value + rest.value) == (done + chunk.value) + rest.value;
    }
  }

  /** All chunk groups are decoded into their places; every pixel up to the last cut is written once, no other one. */
  method DecompressImage<P>(f: PixelFormat<P>, inputs: seq<seq<nat>>, out: array<P>, cut: nat -> nat, k: nat)
    returns (ok: bool)
    requires Cuts(cut, k, out.Length) && |inputs| == 4 * k
    modifies out
    ensures ok == DecompressFrom(f, inputs, cut, out.Length, k, 0).Some?
    ensures cut(k) <= out.Length && out[cut(k)..] == old(out[cut(k)..])
    ensures ok ==> out[..cut(k)] == DecompressFrom(f, inputs, cut, out.Length, k, 0).value
  {
    hide DecompressChunk, DecompressFrom;
    var n, g := out.Length, 0;
    ghost var all := DecompressFrom(f, inputs, cut, n, k, 0);
    CutsOrdered(cut, k, n, 0);
    ghost var behind := out[cut(k)..];
    assert inputs[4 * 0..] == inputs && out[..0] == [];
    assert all.Some? ==> [] + all.value == all.value;
    while g < k
      invariant 0 <= g <= k && cut(g) <= cut(k)
      invariant out[cut(k)..] == behind
      invariant DecompressOn(f, inputs[4 * g..], cut, n, k, g, out[..cut(g)]) == all
    {
      DecompressStep(f, inputs, cut, n, k, g, out[..cut(g)]);
      CutsOrdered(cut, k, n, g + 1);
      var startIndex, nextIndex := cut(g), cut(g + 1);
      ghost var before := out[nextIndex..];
      ok := DecompressChunkTo(f, inputs[4 * g..4 * g + 4], out, startIndex, nextIndex - startIndex);
      assert before[cut(k) - nextIndex..] == behind && out[nextIndex..][cut(k) - nextIndex..] == out[cut(k)..];
      if !ok { return; }
      g := g + 1;
    }
    DecompressEnd(f, inputs[4 * g..], cut, n, k, out[..cut(k)]);
    ok := true;
  }

  lemma {:induction false} DecompressEnd<P>(f: PixelFormat<P>, inputs: seq<seq<nat>>, cut: nat -> nat, n: nat, k: nat,
                                            done: seq<P>)
    requires Cuts(cut, k, n) && inputs == []
    ensures DecompressOn(f, inputs, cut, n, k, k, done) == Some(done)
  {
    assert done + [] == done;
  }
}
