/**
 The pixel formats: how each splits a pixel into four components and joins them again,
 and what an image compressed in it comes back as.
 */
module PixelFormats {
  import opened Bytes
  import opened Rle
  import opened PlanarRle
  import RleCanonical
  import Float32

  // ---------- Components as tokens ----------

  datatype Four8 = Four8(one: bv8, two: bv8, three: bv8, four: bv8)
  datatype Four16 = Four16(one: bv16, two: bv16, three: bv16, four: bv16)

  function Tokens8(c: Four8): Quad {
    Quad(c.one as nat, c.two as nat, c.three as nat, c.four as nat)
  }

  function Tokens16(c: Four16): Quad {
    Quad(c.one as nat, c.two as nat, c.three as nat, c.four as nat)
  }

  // Tokens of a byte stream are below 256, those of a half-float stream below 65536.
  function Byte(n: nat): bv8 {
    if n < 0x100 then n as bv8 else 0
  }

  function Half(n: nat): bv16 {
    if n < 0x1_0000 then n as bv16 else 0
  }

  function Components8(q: Quad): Four8 {
    Four8(Byte(q.one), Byte(q.two), Byte(q.three), Byte(q.four))
  }

  function Components16(q: Quad): Four16 {
    Four16(Half(q.one), Half(q.two), Half(q.three), Half(q.four))
  }

  // ---------- 32-bit pixels, components as they lie ----------

  function Split32(x: bv32): Four8 {
    Four8((x & 0xff) as bv8, ((x & 0xff00) >> 8) as bv8, ((x & 0xff0000) >> 16) as bv8, ((x & 0xff000000) >> 24) as bv8)
  }

  function Join32(c: Four8): bv32 {
    (c.one as bv32) + ((c.two as bv32) << 8) + ((c.three as bv32) << 16) + ((c.four as bv32) << 24)
  }

  function Low24(x: bv32): bv32 {
    x & 0xffffff
  }

  lemma {:induction false} Join32Inverts(x: bv32)
    ensures Join32(Split32(x)) == x
    ensures Join32(Split32(x).(four := 0)) == Low24(x)
  {
  }

  // ---------- 32-bit pixels, bits regrouped by significance ----------

  function Mix32(x: bv32): bv32 {
    (x & 0xc0300c03) | ((x & 0xc0) << 18) | ((x & 0xc03000) << 6) | ((x & 0xc03c) << 12)
    | ((x & 0xf000000) >> 18) | ((x & 0x30000) >> 12) | ((x & 0x300c0300) >> 6)
  }

  function Unmix32(x: bv32): bv32 {
    (x & 0xc0300c03) | ((x & 0x3000000) >> 18) | ((x & 0x300c0000) >> 6) | ((x & 0xc03c000) >> 12)
    | ((x & 0x3c0) << 18) | ((x & 0x30) << 12) | ((x & 0xc0300c) << 6)
  }

  lemma {:induction false} Unmix32Inverts(x: bv32)
    ensures Unmix32(Mix32(x)) == x
  {
  }

  function Mix24(x: bv32): bv32 {
    (x & 0xe01807) | ((x & 0xe000) << 5) | ((x & 0x700) >> 5) | ((x & 0xf8) << 10) | ((x & 0x1f0000) >> 10)
  }

  function Unmix24(x: bv32): bv32 {
    (x & 0xe01807) | ((x & 0x1c0000) >> 5) | ((x & 0x38) << 5) | ((x & 0x3e000) >> 10) | ((x & 0x7c0) << 10)
  }

  lemma {:induction false} Unmix24Inverts(x: bv32)
    ensures Unmix24(Low24(Mix24(x))) == Low24(x)
  {
  }

  // ---------- 10-bit colours with 2-bit alpha ----------

  function Split10A2(x: bv32): Four8 {
    Four8(((x & 0xf) | ((x & 0x3000) >> 8) | ((x & 0xc00000) >> 16)) as bv8,
          (((x & 0x3000000) >> 24) | (x & 0x30) | ((x & 0xc000) >> 12) | ((x & 0xc00) >> 4)) as bv8,
          (((x & 0xc000000) >> 22) | ((x & 0x30000) >> 14) | (x & 0xc0) | ((x & 0x300000) >> 20)) as bv8,
          (((x & 0xf0000000) >> 24) | ((x & 0xc0000) >> 16) | ((x & 0x300) >> 8)) as bv8)
  }

  function Join10A2(c: Four8): bv32 {
    var one, two, three, four := c.one as bv32, c.two as bv32, c.three as bv32, c.four as bv32;
    (one & 0xf) | ((one & 0x30) << 8) | ((one & 0xc0) << 16)
    | ((two & 0x3) << 24) | ((two & 0xc) << 12) | (two & 0x30) | ((two & 0xc0) << 4)
    | (three & 0xc0) | ((three & 0x30) << 22) | ((three & 0xc) << 14) | ((three & 0x3) << 20)
    | ((four & 0xf0) << 24) | ((four & 0xc) << 16) | ((four & 0x3) << 8)
  }

  lemma {:induction false} Join10A2Inverts(x: bv32)
    ensures Join10A2(Split10A2(x)) == x
  {
  }

  // ---------- 64-bit pixels of four half floats ----------

  function Split64(x: bv64): Four16 {
    Four16((x & 0xffff) as bv16, ((x & 0xffff0000) >> 16) as bv16,
           ((x & 0xffff00000000) >> 32) as bv16, ((x & 0xffff000000000000) >> 48) as bv16)
  }

  function Join64(c: Four16): bv64 {
    (c.one as bv64) + ((c.two as bv64) << 16) + ((c.three as bv64) << 32) + ((c.four as bv64) << 48)
  }

  function Low48(x: bv64): bv64 {
    x & 0xffffffffffff
  }

  lemma {:induction false} Join64Inverts(x: bv64)
    ensures Join64(Split64(x)) == x
    ensures Join64(Split64(x).(four := 0)) == Low48(x)
  {
  }

  function Mix64(x: bv64): bv64 {
    (x & 0xffc0000007c0001f) | ((x & 0x3f0000) >> 11) | ((x & 0x7ff00000000) >> 21) | ((x & 0xc0003fe0) << 22)
    | ((x & 0x38000000) << 9) | ((x & 0x3f000000000000) >> 9) | ((x & 0xf80000000000) << 2) | ((x & 0xc000) << 36)
  }

  function Unmix64(x: bv64): bv64 {
    (x & 0xffc0000007c0001f) | ((x & 0x7e0) << 11) | ((x & 0x3ff800) << 21) | ((x & 0x30000ff8000000) >> 22)
    | ((x & 0x7000000000) >> 9) | ((x & 0x1f8000000000) << 9) | ((x & 0x3e00000000000) >> 2)
    | ((x & 0xc000000000000) >> 36)
  }

  lemma {:induction false} Unmix64Inverts(x: bv64)
    ensures Unmix64(Mix64(x)) == x
  {
  }

  function Mix48(x: bv64): bv64 {
    (x & 0xc073070c380) | ((x & 0x3c000000000) >> 38) | ((x & 0x3800000) >> 19) | ((x & 0xc00000000000) >> 36)
    | ((x & 0x3000c0000000) >> 18) | ((x & 0x78) << 13) | ((x & 0x3800000000) >> 12) | ((x & 0xc00) << 36)
    | ((x & 0x7) << 39) | ((x & 0xc003000) << 18) | ((x & 0xf0000) << 19)
  }

  function Unmix48(x: bv64): bv64 {
    (x & 0xc073070c380) | ((x & 0xf) << 38) | ((x & 0x70) << 19) | ((x & 0xc00) << 36) | ((x & 0xc003000) << 18)
    | ((x & 0xf0000) >> 13) | ((x & 0x3800000) << 12) | ((x & 0xc00000000000) >> 36) | ((x & 0x38000000000) >> 39)
    | ((x & 0x3000c0000000) >> 18) | ((x & 0x7800000000) >> 19)
  }

  lemma {:induction false} Unmix48Inverts(x: bv64)
    ensures Unmix48(Low48(Mix48(x))) == Low48(x)
  {
  }

  // ---------- 565 colours, with loss ----------

  function Pack565A(x: bv32): bv32 {
    ((x & 0x38) >> 3) | ((x & 0x3800) >> 8) | ((x & 0xc0) << 5) | ((x & 0xf80000) >> 13) | ((x & 0xc000) >> 1)
    | ((x & 0x80000000) >> 16)
  }

  function Unpack565A(x: bv32): bv32 {
    ((x & 0x7) << 3) | ((x & 0x38) << 8) | ((x & 0x1800) >> 5) | ((x & 0x7c0) << 13) | ((x & 0x6000) << 1)
    | ((x & 0x8000) << 16) | 0x3f040404
  }

  function Pack565(x: bv32): bv32 {
    ((x & 0x38) >> 3) | ((x & 0x1c00) >> 7) | ((x & 0xc0) << 5) | ((x & 0xf80000) >> 13) | (x & 0xe000)
  }

  function Unpack565(x: bv32): bv32 {
    ((((x & 0x7) << 3) | ((x & 0x38) << 7) | ((x & 0x1800) >> 5) | ((x & 0x7c0) << 13) | (x & 0xe000)) & 0xf8fcf8)
    | 0x020202
  }

  /** What is left of a pixel with alpha: five bits of each colour, one of alpha, the rest set halfway. */
  function Coarse565A(x: bv32): bv32 {
    (x & 0x80f8f8f8) | 0x3f040404
  }

  /** What is left of a pixel without alpha: five, six and five bits of the colours. */
  function Coarse565(x: bv32): bv32 {
    (x & 0xf8fcf8) | 0x020202
  }

  lemma {:induction false} Unpack565AKeeps(x: bv32)
    ensures Unpack565A(Pack565A(x)) == Coarse565A(x)
  {
  }

  lemma {:induction false} Unpack565Keeps(x: bv32)
    ensures Unpack565(Low24(Pack565(x))) == Coarse565(x)
  {
  }

  function Distance(a: bv8, b: bv8): bv8 {
    if a <= b then b - a else a - b
  }

  lemma {:induction false} ByteLoss(c: bv8)
    ensures Distance(c, (c & 0xf8) | 4) <= 4 && Distance(c, (c & 0x80) | 0x3f) <= 64
    ensures Distance(c, (c & 0xf8) | 2) <= 5 && Distance(c, (c & 0xfc) | 2) <= 2
  {
  }

  lemma {:induction false} CoarseBytes(x: bv32)
    ensures var c := Split32(x);
            && Split32(Coarse565A(x))
               == Four8((c.one & 0xf8) | 4, (c.two & 0xf8) | 4, (c.three & 0xf8) | 4, (c.four & 0x80) | 0x3f)
            && Split32(Coarse565(x)) == Four8((c.one & 0xf8) | 2, (c.two & 0xfc) | 2, (c.three & 0xf8) | 2, 0)
  {
  }

  /** How far the lossy codec moves each byte of a pixel: with alpha, then without. */
  lemma {:induction false} LossIsSmall(x: bv32)
    ensures var c, d := Split32(x), Split32(Coarse565A(x));
            && Distance(c.one, d.one) <= 4 && Distance(c.two, d.two) <= 4 && Distance(c.three, d.three) <= 4
            && Distance(c.four, d.four) <= 64
    ensures var c, d := Split32(x), Split32(Coarse565(x));
            Distance(c.one, d.one) <= 5 && Distance(c.two, d.two) <= 2 && Distance(c.three, d.three) <= 5
  {
    hide Split32, Coarse565A, Coarse565, Distance;
    CoarseBytes(x);
    var c := Split32(x);
    ByteLoss(c.one);
    ByteLoss(c.two);
    ByteLoss(c.three);
    ByteLoss(c.four);
  }

  // ---------- Where the bits go ----------

  /** Each component of a mixed pixel holds two bits of all four: the lowest in the first, the highest in the last. */
  lemma {:induction false} Mix32Fields(x: bv32)
    ensures var c, d := Split32(x), Split32(Mix32(x));
            && d.one == ((c.four & 0x3) << 6) | ((c.three & 0x3) << 4) | ((c.two & 0x3) << 2) | (c.one & 0x3)
            && d.two == ((c.one & 0xc) << 4) | ((c.three & 0xc) << 2) | (c.two & 0xc) | ((c.four & 0xc) >> 2)
            && d.three == ((c.four & 0x30) << 2) | (c.three & 0x30) | ((c.two & 0x30) >> 2) | ((c.one & 0x30) >> 4)
            && d.four == (c.four & 0xc0) | ((c.three & 0xc0) >> 2) | ((c.two & 0xc0) >> 4) | ((c.one & 0xc0) >> 6)
  {
  }

  /** Without alpha three, three and two bits of each colour. */
  lemma {:induction false} Mix24Fields(x: bv32)
    ensures var c, d := Split32(x), Split32(Mix24(x));
            && d.one == ((c.three & 0x3) << 6) | ((c.two & 0x7) << 3) | (c.one & 0x7)
            && d.two == ((c.one & 0x38) << 2) | (c.two & 0x18) | ((c.three & 0x1c) >> 2)
            && d.three == (c.three & 0xe0) | ((c.two & 0xe0) >> 3) | ((c.one & 0xc0) >> 6)
            && d.four == 0
  {
  }

  /** Two components hold five, five and five bits of the colours and the highest one of alpha. */
  lemma {:induction false} Pack565AFields(x: bv32)
    ensures var c, d := Split32(x), Split32(Pack565A(x));
            && d.one == ((c.three & 0x18) << 3) | (c.two & 0x38) | ((c.one & 0x38) >> 3)
            && d.two == (c.four & 0x80) | ((c.two & 0xc0) >> 1) | ((c.one & 0xc0) >> 3) | ((c.three & 0xe0) >> 5)
            && d.three == 0
            && d.four == 0
  {
  }

  /** Without alpha they hold five, six and five bits. */
  lemma {:induction false} Pack565Fields(x: bv32)
    ensures var c, d := Split32(x), Split32(Pack565(x));
            && d.one == ((c.three & 0x18) << 3) | ((c.two & 0x1c) << 1) | ((c.one & 0x38) >> 3)
            && d.two == (c.two & 0xe0) | ((c.one & 0xc0) >> 3) | ((c.three & 0xe0) >> 5)
            && d.three == 0
            && d.four == 0
  {
  }

  function Half64(x: bv64, shift: bv7): bv64
    requires shift <= 48
  {
    (x >> shift) & 0xffff
  }

  /** Half floats: alpha and the highest bits of the colours in the last component. */
  lemma {:induction false} Mix64Fields(x: bv64)
    ensures var one, two, three, four := Half64(x, 0), Half64(x, 16), Half64(x, 32), Half64(x, 48);
            var y := Mix64(x);
            && Half64(y, 0) == ((three & 0x1f) << 11) | ((two & 0x3f) << 5) | (one & 0x1f)
            && Half64(y, 16) == ((one & 0x3e0) << 6) | (two & 0x7c0) | ((three & 0x7e0) >> 5)
            && Half64(y, 32) == ((three & 0x3800) << 2) | ((four & 0x3f) << 7) | ((two & 0x3800) >> 7)
                        | ((one & 0x3c00) >> 10)
            && Half64(y, 48) == (four & 0xffc0) | ((two & 0xc000) >> 10) | ((one & 0xc000) >> 12)
                        | ((three & 0xc000) >> 14)
  {
  }

  /** Without alpha the highest bits of the colours come first. */
  lemma {:induction false} Mix48Fields(x: bv64)
    ensures var one, two, three, four := Half64(x, 0), Half64(x, 16), Half64(x, 32), Half64(x, 48);
            var y := Mix48(x);
            && Half64(y, 0) == (one & 0xc000) | ((two & 0xc000) >> 2) | ((three & 0xc000) >> 4) | (one & 0x380)
                        | ((two & 0x380) >> 3) | ((three & 0x3c0) >> 6)
            && Half64(y, 16) == ((one & 0x3000) << 2) | (two & 0x3000) | ((three & 0x3000) >> 2)
                        | ((three & 0x38) << 4) | (two & 0x70) | ((one & 0x78) >> 3)
            && Half64(y, 32) == ((one & 0xc00) << 4) | ((two & 0xc00) << 2) | (three & 0xc00)
                        | ((one & 0x7) << 7) | ((two & 0xf) << 3) | (three & 0x7)
            && Half64(y, 48) == 0
  {
  }

  /** Ten bits of each colour and two of alpha: the lowest in the first component, the highest in the last. */
  lemma {:induction false} Split10A2Fields(x: bv32)
    ensures var r, g, b, a := x & 0x3ff, (x >> 10) & 0x3ff, (x >> 20) & 0x3ff, (x >> 30) & 0x3;
            var c := Split10A2(x);
            && c.one as bv32 == ((b & 0xc) << 4) | ((g & 0xc) << 2) | (r & 0xf)
            && c.two as bv32 == ((g & 0x3) << 6) | (r & 0x30) | ((g & 0x30) >> 2) | ((b & 0x30) >> 4)
            && c.three as bv32 == (r & 0xc0) | ((b & 0xc0) >> 2) | ((g & 0xc0) >> 4) | (b & 0x3)
            && c.four as bv32 == (a << 6) | ((b & 0x300) >> 4) | ((g & 0x300) >> 6) | ((r & 0x300) >> 8)
  {
  }

  // ---------- The engines ----------

  /** The engines on 32-bit pixels: `alpha` says whether the fourth component is coded. */
  datatype Engine32 = Rle4B(alpha: bool) | DiffRle4B(alpha: bool) | Rle10A2 | Rle565(alpha: bool)

  /** The engines on 64-bit pixels. */
  datatype Engine64 = Rle4HF(alpha: bool) | DiffRle4HF(alpha: bool)

  function Mixed32(e: Engine32, x: bv32): bv32 {
    match e
    case Rle4B(_) => x
    case DiffRle4B(alpha) => if alpha then Mix32(x) else Mix24(x)
    case Rle10A2 => x
    case Rle565(alpha) => if alpha then Pack565A(x) else Pack565(x)
  }

  function Unmixed32(e: Engine32, x: bv32): bv32 {
    match e
    case Rle4B(_) => x
    case DiffRle4B(alpha) => if alpha then Unmix32(x) else Unmix24(x)
    case Rle10A2 => x
    case Rle565(alpha) => if alpha then Unpack565A(x) else Unpack565(x)
  }

  function Split(e: Engine32, x: bv32): Four8 {
    if e.Rle10A2? then Split10A2(x) else Split32(Mixed32(e, x))
  }

  function Join(e: Engine32, c: Four8): bv32 {
    if e.Rle10A2? then Join10A2(c) else Unmixed32(e, Join32(c))
  }

  function UsesAlpha(e: Engine32): bool {
    e.Rle10A2? || e.alpha
  }

  function Format32(e: Engine32): PixelFormat<bv32> {
    PixelFormat(Alphabet(0xff, if e.Rle565? then 0x17 else 0x42), UsesAlpha(e),
                (x: bv32) => Tokens8(Split(e, x)), (q: Quad) => Join(e, Components8(q)))
  }

  function Format64(e: Engine64): PixelFormat<bv64> {
    PixelFormat(Alphabet(0xffff, 0xffff), e.alpha,
                (x: bv64) => Tokens16(Split64(if e.Rle4HF? then x else if e.alpha then Mix64(x) else Mix48(x))),
                (q: Quad) =>
                  var y := Join64(Components16(q));
                  if e.Rle4HF? then y else if e.alpha then Unmix64(y) else Unmix48(y))
  }

  // ---------- What a run of pixels is written as ----------

  lemma {:induction false} UniformChannel<P>(f: PixelFormat<P>, x: P, n: nat, c: nat)
    requires c < Channels(f) && n > 0
    ensures Channel(f, seq(n, _ => x), c) == Repeat(Component(f.split(x), c), n)
  {
    ConstantIsRepeat(Component(f.split(x), c), n);
    assert Plane(f, seq(n, _ => x), c) == seq(n, _ => Component(f.split(x), c));
  }

  lemma {:induction false} ConstantIsRepeat(t: nat, n: nat)
    ensures seq(n, _ => t) == Repeat(t, n)
  {
    if n > 0 {
      ConstantIsRepeat(t, n - 1);
      assert seq(n, _ => t) == [t] + seq(n - 1, _ => t);
    }
  }

  lemma {:induction false} UniformRuns<P>(f: PixelFormat<P>, x: P, n: nat, c: nat)
    requires c < Channels(f) && 3 <= n <= f.alphabet.max
    ensures CompressChunk(f, seq(n, _ => x))[c] == [f.alphabet.marker, Component(f.split(x), c), n]
  {
    hide Component, Rle.Compress, Channel;
    UniformChannel(f, x, n, c);
    RleCanonical.SingleRun(f.alphabet, Component(f.split(x), c), n);
  }

  lemma {:induction false} UniformOverflows<P>(f: PixelFormat<P>, x: P, c: nat)
    requires c < Channels(f) && f.alphabet.Valid() && Component(f.split(x), c) != f.alphabet.marker
    ensures var t := Component(f.split(x), c);
            CompressChunk(f, seq(f.alphabet.max + 1, _ => x))[c] == [f.alphabet.marker, t, f.alphabet.max, t]
  {
    hide Component, Rle.Compress, Channel;
    var a, t := f.alphabet, Component(f.split(x), c);
    UniformChannel(f, x, a.max + 1, c);
    RleCanonical.RepeatSum(t, a.max, 1);
    RleCanonical.CompressRun(a, t, a.max, Repeat(t, 1));
    RleCanonical.SingleRun(a, t, 1);
    assert Repeat(t, 1) == [t];
  }

  /** Without alpha the last channel is a single zero, and no channel of an empty group has any token. */
  lemma {:induction false} UncodedChannel<P>(f: PixelFormat<P>, px: seq<P>, c: nat)
    requires c < 4 && f.alphabet.Valid() && f.alphabet.marker != 0
    ensures px == [] ==> CompressChunk(f, px)[c] == []
    ensures px != [] && !f.alpha ==> CompressChunk(f, px)[3] == [0]
  {
    RleCanonical.SingleRun(f.alphabet, 0, 1);
    assert Repeat(0, 1) == [0];
  }

  /** Equal pixels in every engine: its marker, the component, and their number, which ends at 255. */
  lemma {:induction false} EqualPixels32(e: Engine32, x: bv32, n: nat, c: nat)
    requires c < (if UsesAlpha(e) then 4 else 3)
    ensures var f, t, m := Format32(e), Component(Tokens8(Split(e, x)), c), if e.Rle565? then 0x17 else 0x42;
            && (3 <= n <= 255 ==> CompressChunk(f, seq(n, _ => x))[c] == [m, t, n])
            && (t != m ==> CompressChunk(f, seq(256, _ => x))[c] == [m, t, 255, t])
  {
    hide Component, CompressChunk, Split, Join;
    var f, t := Format32(e), Component(Tokens8(Split(e, x)), c);
    if 3 <= n <= 255 {
      UniformRuns(f, x, n, c);
    }
    if t != f.alphabet.marker {
      UniformOverflows(f, x, c);
    }
  }

  /** Half-float components have the marker 0xffff and runs of up to 65535. */
  lemma {:induction false} EqualPixels64(e: Engine64, x: bv64, n: nat, c: nat)
    requires c < (if e.alpha then 4 else 3)
    ensures var f := Format64(e);
            var t := Component(f.split(x), c);
            && (3 <= n <= 65535 ==> CompressChunk(f, seq(n, _ => x))[c] == [0xffff, t, n])
            && (t != 0xffff ==> CompressChunk(f, seq(65536, _ => x))[c] == [0xffff, t, 65535, t])
  {
    hide Component, CompressChunk, Split64, Join64, Mix64, Mix48;
    var f := Format64(e);
    if 3 <= n <= 65535 {
      UniformRuns(f, x, n, c);
    }
    if Component(f.split(x), c) != f.alphabet.marker {
      UniformOverflows(f, x, c);
    }
  }

  // ---------- What an image comes back as ----------

  /** What the engine keeps of a pixel. */
  function Kept32(e: Engine32, x: bv32): bv32 {
    match e
    case Rle10A2 => x
    case Rle565(alpha) => if alpha then Coarse565A(x) else Coarse565(x)
    case _ => if e.alpha then x else Low24(x)
  }

  function Kept64(e: Engine64, x: bv64): bv64 {
    if e.alpha then x else Low48(x)
  }

  lemma {:induction false} UnmixedOfMixed(e: Engine32, x: bv32)
    requires !e.Rle10A2?
    ensures e.alpha ==> Unmixed32(e, Mixed32(e, x)) == Kept32(e, x)
    ensures !e.alpha ==> Unmixed32(e, Low24(Mixed32(e, x))) == Kept32(e, x)
  {
    hide Mix32, Unmix32, Mix24, Unmix24, Pack565A, Unpack565A, Pack565, Unpack565, Low24, Coarse565A, Coarse565;
    match e
    case Rle4B(_) =>
    case DiffRle4B(_) =>
      Unmix32Inverts(x);
      Unmix24Inverts(x);
    case Rle565(_) =>
      Unpack565AKeeps(x);
      Unpack565Keeps(x);
  }

  lemma {:induction false} JoinOfSplit(e: Engine32, x: bv32)
    ensures UsesAlpha(e) ==> Join(e, Split(e, x)) == Kept32(e, x)
    ensures !UsesAlpha(e) ==> Join(e, Split(e, x).(four := 0)) == Kept32(e, x)
  {
    hide Split32, Join32, Mixed32, Unmixed32, Split10A2, Join10A2, Low24;
    if e.Rle10A2? {
      Join10A2Inverts(x);
    } else {
      hide Kept32;
      Join32Inverts(Mixed32(e, x));
      UnmixedOfMixed(e, x);
    }
  }

  lemma {:induction false} View32(e: Engine32, x: bv32)
    ensures View(Format32(e), x) == Kept32(e, x)
  {
    hide Split, Join, Tokens8, Components8, Kept32;
    JoinOfSplit(e, x);
    var c := Split(e, x);
    ComponentsOfTokens8(c, Tokens8(c));
    ComponentsOfTokens8(c, Tokens8(c).(four := 0));
  }

  lemma {:induction false} ComponentsOfTokens8(c: Four8, q: Quad)
    ensures q == Tokens8(c) ==> Components8(q) == c
    ensures q == Tokens8(c).(four := 0) ==> Components8(q) == c.(four := 0)
  {
  }

  lemma {:induction false} ComponentsOfTokens16(c: Four16, q: Quad)
    ensures q == Tokens16(c) ==> Components16(q) == c
    ensures q == Tokens16(c).(four := 0) ==> Components16(q) == c.(four := 0)
  {
  }

  lemma {:induction false} View64(e: Engine64, x: bv64)
    ensures View(Format64(e), x) == Kept64(e, x)
  {
    hide Split64, Join64, Mix64, Unmix64, Mix48, Unmix48, Tokens16, Components16, Low48;
    var y := if e.Rle4HF? then x else if e.alpha then Mix64(x) else Mix48(x);
    var c := Split64(y);
    ComponentsOfTokens16(c, Tokens16(c));
    ComponentsOfTokens16(c, Tokens16(c).(four := 0));
    Join64Inverts(y);
    Unmix64Inverts(x);
    Unmix48Inverts(x);
  }

  /** What an image comes back as in `k` groups, `None` when some channel does not fit its buffer. */
  function Image32(e: Engine32, px: seq<bv32>, cut: nat -> nat, k: nat): Option<seq<bv32>>
    requires Cuts(cut, k, |px|)
  {
    Image(Format32(e), px, cut, k, 1)
  }

  function Image64(e: Engine64, px: seq<bv64>, cut: nat -> nat, k: nat): Option<seq<bv64>>
    requires Cuts(cut, k, |px|)
  {
    Image(Format64(e), px, cut, k, 2)
  }

  /** No channel of any group costs more than what is reserved for it. */
  predicate Affordable32(e: Engine32, px: seq<bv32>, cut: nat -> nat, k: nat)
    requires Cuts(cut, k, |px|)
  {
    forall g :: 0 <= g < k ==> Affordable(Format32(e), px, cut, k, 1, g)
  }

  predicate Affordable64(e: Engine64, px: seq<bv64>, cut: nat -> nat, k: nat)
    requires Cuts(cut, k, |px|)
  {
    forall g :: 0 <= g < k ==> Affordable(Format64(e), px, cut, k, 2, g)
  }

  function AllKept32(e: Engine32, px: seq<bv32>): (r: seq<bv32>)
    ensures |r| == |px|
  {
    seq(|px|, i requires 0 <= i < |px| => Kept32(e, px[i]))
  }

  function AllKept64(e: Engine64, px: seq<bv64>): (r: seq<bv64>)
    ensures |r| == |px|
  {
    seq(|px|, i requires 0 <= i < |px| => Kept64(e, px[i]))
  }

  /**
   The engines keep what they keep of every pixel up to the last cut, so of the whole image
   if that is its end, exactly when no channel costs more than what is reserved for it.
   */
  lemma {:induction false} Image32Kept(e: Engine32, px: seq<bv32>, cut: nat -> nat, k: nat)
    requires Cuts(cut, k, |px|)
    ensures cut(k) <= |px|
    ensures Image32(e, px, cut, k) == if Affordable32(e, px, cut, k) then Some(AllKept32(e, px)[..cut(k)]) else None
    ensures Image32(e, px, cut, k) == Some(AllKept32(e, px)) <==> Affordable32(e, px, cut, k) && cut(k) == |px|
  {
    hide Kept32, Format32, DecompressFrom, CompressFrom, AllFit, ReservedTokens, Affordable;
    FormatsAreValid(e, Rle4HF(true));
    AllFitIff(Format32(e), px, cut, k, 1, 0);
    ImageRoundTrip(Format32(e), px, cut, k);
    forall x: bv32 ensures View(Format32(e), x) == Kept32(e, x) {
      View32(e, x);
    }
    assert ViewAll(Format32(e), px) == AllKept32(e, px);
  }

  lemma {:induction false} Image64Kept(e: Engine64, px: seq<bv64>, cut: nat -> nat, k: nat)
    requires Cuts(cut, k, |px|)
    ensures cut(k) <= |px|
    ensures Image64(e, px, cut, k) == if Affordable64(e, px, cut, k) then Some(AllKept64(e, px)[..cut(k)]) else None
    ensures Image64(e, px, cut, k) == Some(AllKept64(e, px)) <==> Affordable64(e, px, cut, k) && cut(k) == |px|
  {
    hide Kept64, Format64, DecompressFrom, CompressFrom, AllFit, ReservedTokens, Affordable;
    FormatsAreValid(Rle10A2, e);
    AllFitIff(Format64(e), px, cut, k, 2, 0);
    ImageRoundTrip(Format64(e), px, cut, k);
    forall x: bv64 ensures View(Format64(e), x) == Kept64(e, x) {
      View64(e, x);
    }
    assert ViewAll(Format64(e), px) == AllKept64(e, px);
  }

  /** Without OpenMP every image of up to 2^24 pixels fits and is kept as a whole, the width being rounded as it is. */
  lemma {:induction false} SingleGroupIsKept(e: Engine32, px: seq<bv32>, e': Engine64, px': seq<bv64>)
    requires |px| <= 0x100_0000 && |px'| <= 0x100_0000
    ensures Cuts(FloatCut(|px|, 1), 1, |px|) && Cuts(FloatCut(|px'|, 1), 1, |px'|)
    ensures Image32(e, px, FloatCut(|px|, 1), 1) == Some(AllKept32(e, px))
    ensures Image64(e', px', FloatCut(|px'|, 1), 1) == Some(AllKept64(e', px'))
  {
    hide FloatCut, AllKept32, AllKept64, Cuts, Format32, Format64, Affordable, AllFit, ReservedTokens;
    hide CompressFrom, DecompressFrom;
    SingleFloatCut(|px|);
    SingleFloatCut(|px'|);
    FormatsAreValid(e, e');
    SingleGroupFits(Format32(e), px, FloatCut(|px|, 1), 1);
    SingleGroupFits(Format64(e'), px', FloatCut(|px'|, 1), 2);
    AllFitIff(Format32(e), px, FloatCut(|px|, 1), 1, 1, 0);
    AllFitIff(Format64(e'), px', FloatCut(|px'|, 1), 1, 2, 0);
    Image32Kept(e, px, FloatCut(|px|, 1), 1);
    Image64Kept(e', px', FloatCut(|px'|, 1), 1);
  }

  /**
   With OpenMP, in any number of groups that stay inside the image, it is kept up to the last
   product if every channel fits. Below 2^23 pixels that is the whole image or all but its
   last pixel: the whole exactly if the product is not rounded below the number of pixels.
   */
  lemma {:induction false} GroupsAreKept(e: Engine32, px: seq<bv32>, k: nat)
    requires k > 0
    ensures var n, cut := |px|, FloatCut(|px|, k);
            && (Cuts(cut, k, n) <==> Float32.Cut(n, k, k) <= n)
            && (Cuts(cut, k, n) ==>
                  Image32(e, px, cut, k)
                  == if Affordable32(e, px, cut, k) then Some(AllKept32(e, px)[..Float32.Cut(n, k, k)]) else None)
            && (k <= 0x100_0000 && n < 0x80_0000 ==> n - 1 <= Float32.Cut(n, k, k) <= n)
  {
    hide Image32, AllKept32, Cuts, Float32.Cut, Affordable32;
    FloatCutsIff(|px|, k);
    if Cuts(FloatCut(|px|, k), k, |px|) {
      Image32Kept(e, px, FloatCut(|px|, k), k);
    }
    if k <= 0x100_0000 && |px| < 0x80_0000 {
      FloatCutsTile(|px|, k);
    }
  }

  lemma {:induction false} HalfFloatGroupsAreKept(e: Engine64, px: seq<bv64>, k: nat)
    requires k > 0
    ensures var n, cut := |px|, FloatCut(|px|, k);
            && (Cuts(cut, k, n) <==> Float32.Cut(n, k, k) <= n)
            && (Cuts(cut, k, n) ==>
                  Image64(e, px, cut, k)
                  == if Affordable64(e, px, cut, k) then Some(AllKept64(e, px)[..Float32.Cut(n, k, k)]) else None)
            && (k <= 0x100_0000 && n < 0x80_0000 ==> n - 1 <= Float32.Cut(n, k, k) <= n)
  {
    hide Image64, AllKept64, Cuts, Float32.Cut, Affordable64;
    FloatCutsIff(|px|, k);
    if Cuts(FloatCut(|px|, k), k, |px|) {
      Image64Kept(e, px, FloatCut(|px|, k), k);
    }
    if k <= 0x100_0000 && |px| < 0x80_0000 {
      FloatCutsTile(|px|, k);
    }
  }

  /**
   7173 pixels on seven processors: the last one is neither compressed nor decompressed,
   as in an image without markers, which fits.
   */
  lemma {:induction false} LastPixelIsLost(e: Engine32, px: seq<bv32>)
    requires |px| == 7173
    ensures ChunkCount(4, 7173 * 4, Some(7)) == 4 * 7 && Cuts(FloatCut(7173, 7), 7, 7173)
    ensures Image32(e, px, FloatCut(7173, 7), 7) in {None, Some(AllKept32(e, px)[..7172])}
    ensures (forall i :: 0 <= i < 7173 ==> Unmarked(Format32(e), px[i])) ==>
              Image32(e, px, FloatCut(7173, 7), 7) == Some(AllKept32(e, px)[..7172])
  {
    hide AllKept32, Cuts, Float32.Cut, FloatCut, Unmarked, Format32, Affordable, AllFit, ReservedTokens;
    hide CompressFrom, DecompressFrom;
    var cut := FloatCut(7173, 7);
    FloatCutsTile(7173, 7);
    LastCut();
    Image32Kept(e, px, cut, 7);
    FormatsAreValid(e, Rle4HF(true));
    if forall i :: 0 <= i < 7173 ==> Unmarked(Format32(e), px[i]) {
      UnmarkedFits(Format32(e), px, 7, 1, 0);
      AllFitIff(Format32(e), px, cut, 7, 1, 0);
    }
  }

  lemma {:induction false} LastCut()
    ensures FloatCut(7173, 7)(7) == 7172
  {
    hide Float32.Cut;
    Float32.LastPixelIsCut();
  }

  // ---------- A second pass ----------

  lemma {:induction false} MixedKept(e: Engine32, x: bv32)
    requires !e.Rle10A2?
    ensures Mixed32(e, Kept32(e, x)) == (if e.alpha || !e.Rle4B? then Mixed32(e, x) else Low24(x))
  {
    hide Mix32, Mix24, Pack565A, Pack565, Low24, Coarse565A, Coarse565;
    Mix24Low(x);
    Pack565Coarse(x);
  }

  lemma {:induction false} Mix24Low(x: bv32)
    ensures Mix24(Low24(x)) == Mix24(x)
  {
  }

  lemma {:induction false} Pack565Coarse(x: bv32)
    ensures Pack565A(Coarse565A(x)) == Pack565A(x) && Pack565(Coarse565(x)) == Pack565(x)
  {
  }

  lemma {:induction false} SplitLow(x: bv32)
    ensures Split32(Low24(x)) == Split32(x).(four := 0)
  {
  }

  /** What is kept of a pixel is split into the same coded components. */
  lemma {:induction false} SplitKept(e: Engine32, x: bv32)
    ensures var one, two := Split(e, Kept32(e, x)), Split(e, x);
            one.(four := 0) == two.(four := 0) && (UsesAlpha(e) ==> one == two)
  {
    hide Split32, Mixed32, Split10A2, Low24;
    if !e.Rle10A2? {
      MixedKept(e, x);
      SplitLow(x);
      MixedRle4B(e, x);
    }
  }

  lemma {:induction false} MixedRle4B(e: Engine32, x: bv32)
    ensures e.Rle4B? ==> Mixed32(e, x) == x
  {
  }

  lemma {:induction false} ChannelKept(e: Engine32, group: seq<bv32>, c: nat)
    requires c < 4
    ensures Channel(Format32(e), AllKept32(e, group), c) == Channel(Format32(e), group, c)
  {
    hide Split, Kept32, UsesAlpha;
    var once := AllKept32(e, group);
    forall i | 0 <= i < |group|
      ensures var q, q' := Tokens8(Split(e, group[i])), Tokens8(Split(e, once[i]));
              q.one == q'.one && q.two == q'.two && q.three == q'.three && (UsesAlpha(e) ==> q.four == q'.four)
    {
      SplitKept(e, group[i]);
    }
  }

  lemma {:induction false} CompressKept(e: Engine32, group: seq<bv32>)
    ensures CompressChunk(Format32(e), AllKept32(e, group)) == CompressChunk(Format32(e), group)
  {
    hide Format32, Channel, Rle.Compress;
    var f, once := Format32(e), AllKept32(e, group);
    forall c | 0 <= c < 4 ensures CompressChunk(f, once)[c] == CompressChunk(f, group)[c] {
      ChannelKept(e, group, c);
    }
  }

  lemma {:induction false} SecondPassFrom(e: Engine32, px: seq<bv32>, cut: nat -> nat, k: nat, g: nat, room: nat)
    requires Cuts(cut, k, |px|) && g <= k
    ensures var f, once := Format32(e), AllKept32(e, px);
            && CompressFrom(f, once, cut, k, g) == CompressFrom(f, px, cut, k, g)
            && AllFit(f, once, cut, k, g, room) == AllFit(f, px, cut, k, g, room)
    decreases k - g
  {
    hide Format32, CompressChunk, Kept32;
    if g < k {
      SecondPassFrom(e, px, cut, k, g + 1, room);
      assert Rises(cut, g, |px|);
      var group := Group(px, cut, k, g);
      assert Group(AllKept32(e, px), cut, k, g) == AllKept32(e, group);
      CompressKept(e, group);
    }
  }

  /**
   An image and what is kept of it are compressed to the same streams, in any groups and in
   the lossy engine too. So a second pass gives what the first one gave.
   */
  lemma {:induction false} SecondPass(e: Engine32, px: seq<bv32>, cut: nat -> nat, k: nat)
    requires Cuts(cut, k, |px|)
    ensures CompressFrom(Format32(e), AllKept32(e, px), cut, k, 0) == CompressFrom(Format32(e), px, cut, k, 0)
    ensures Image32(e, AllKept32(e, px), cut, k) == Image32(e, px, cut, k)
  {
    hide Format32, CompressFrom, DecompressFrom, AllFit, ReservedTokens, AllKept32;
    SecondPassFrom(e, px, cut, k, 0, ReservedTokens(|px|, k, 1));
  }

  // ---------- Images that exceed what is reserved ----------

  /** Every other pixel `marker`, from the first or the second on, the others `other`. */
  function Striped<P>(n: nat, first: nat, marker: P, other: P): (r: seq<P>)
    ensures |r| == n
  {
    seq(n, i => if i % 2 == first then marker else other)
  }

  /** A black image with every other pixel a marker in its first component. */
  function Striped32(n: nat, first: nat): (r: seq<bv32>)
    ensures |r| == n
  {
    Striped(n, first, 0x42, 0)
  }

  function Striped64(n: nat): (r: seq<bv64>)
    ensures |r| == n
  {
    Striped(n, 0, 0xffff, 0)
  }

  lemma {:induction false} StripesAlternate<P>(f: PixelFormat<P>, n: nat, first: nat, marker: P, other: P,
                                               from: nat, to: nat)
    requires Component(f.split(marker), 0) == f.alphabet.marker != Component(f.split(other), 0)
    requires from <= to <= n && from % 2 == 0 && first < 2
    ensures var xs := Channel(f, Striped(n, first, marker, other)[from..to], 0);
            |xs| == to - from && Alternates(f.alphabet, xs, first == 0)
  {
    var all := Striped(n, first, marker, other);
    var px := all[from..to];
    forall i | 0 <= i < |px| ensures px[i] == if i % 2 == first then marker else other {
      SameParity(from, i);
      assert px[i] == all[from + i];
    }
    assert px != [] ==> Channel(f, px, 0) == Plane(f, px, 0);
  }

  lemma {:induction false} Stripes32(n: nat, first: nat, from: nat, to: nat)
    requires from <= to <= n && from % 2 == 0 && first < 2
    ensures var xs := Channel(Format32(Rle4B(true)), Striped32(n, first)[from..to], 0);
            |xs| == to - from && Alternates(Format32(Rle4B(true)).alphabet, xs, first == 0)
  {
    StripeTokens();
    hide Format32, Channel, Component, Striped;
    StripesAlternate(Format32(Rle4B(true)), n, first, 0x42, 0, from, to);
  }

  lemma {:induction false} Stripes64(n: nat, from: nat, to: nat)
    requires from <= to <= n && from % 2 == 0
    ensures var xs := Channel(Format64(Rle4HF(true)), Striped64(n)[from..to], 0);
            |xs| == to - from && Alternates(Format64(Rle4HF(true)).alphabet, xs, true)
  {
    StripeTokens();
    hide Format64, Channel, Component, Striped;
    StripesAlternate(Format64(Rle4HF(true)), n, 0, 0xffff, 0, from, to);
  }

  lemma {:induction false} SameParity(from: nat, i: nat)
    requires from % 2 == 0
    ensures (from + i) % 2 == i % 2
  {
  }

  lemma {:induction false} StripeTokens()
    ensures Component(Format32(Rle4B(true)).split(0x42), 0) == 0x42
    ensures Component(Format32(Rle4B(true)).split(0), 0) == 0
    ensures Component(Format64(Rle4HF(true)).split(0xffff), 0) == 0xffff
    ensures Component(Format64(Rle4HF(true)).split(0), 0) == 0
    ensures Format32(Rle4B(true)).alphabet.marker == 0x42 && Format64(Rle4HF(true)).alphabet.marker == 0xffff
  {
    assert Split32(0x42).one == 0x42 && Split32(0).one == 0;
    assert Split64(0xffff).one == 0xffff && Split64(0).one == 0;
    assert Format64(Rle4HF(true)).split(0xffff) == Tokens16(Split64(0xffff));
    assert Format64(Rle4HF(true)).split(0) == Tokens16(Split64(0));
    assert (0xffff as bv16) as nat == 0xffff && (0 as bv16) as nat == 0;
  }

  lemma {:induction false} FormatsAreValid(e: Engine32, e': Engine64)
    ensures Format32(e).alphabet.Valid() && Format64(e').alphabet.Valid()
    ensures Format32(e).alphabet.marker != 0 && Format64(e').alphabet.marker != 0
  {
  }

  /** 2049 striped pixels on two processors: the second group is too much for its first channel. */
  lemma {:induction false} StripesExceedReserve()
    ensures ChunkCount(4, 2049 * 4, Some(2)) == 4 * 2 && Cuts(FloatCut(2049, 2), 2, 2049)
    ensures var group := Group(Striped32(2049, 0), FloatCut(2049, 2), 2, 1);
            |CompressChunk(Format32(Rle4B(true)), group)[0]| > Reserve(2049 * 4, 4 * 2)
  {
    hide Rle.Compress, Format32, Reserve, Float32.Cut, Cuts, Channel, Striped32, Striped64;
    var f, px := Format32(Rle4B(true)), Striped32(2049, 0);
    FloatCutsTile(2049, 2);
    Float32.TwoCuts();
    FormatsAreValid(Rle4B(true), Rle4HF(true));
    Stripes32(2049, 0, 1024, 2049);
    var group := Group(px, FloatCut(2049, 2), 2, 1);
    assert group == px[1024..2049];
    ReserveExceeded(f.alphabet, Channel(f, group, 0), 2049, 2, 1);
  }

  /**
   6588238 striped pixels on thirty processors: a group that is two pixels wider than the
   quotient, because the width is rounded, and does not fit although its channel needs less
   than twice the input.
   */
  lemma {:induction false} WideStripesExceedReserve()
    ensures ChunkCount(4, 6588238 * 4, Some(30)) == 4 * 30 && Cuts(FloatCut(6588238, 30), 30, 6588238)
    ensures var group := Group(Striped32(6588238, 1), FloatCut(6588238, 30), 30, 19);
            && |group| == 6588238 / 30 + 2
            && Reserve(6588238 * 4, 4 * 30) < |CompressChunk(Format32(Rle4B(true)), group)[0]| < 2 * |group|
  {
    hide Rle.Compress, Format32, Float32.Cut, Cuts, Channel, Striped32, Striped64;
    var f, px := Format32(Rle4B(true)), Striped32(6588238, 1);
    FloatCutsTile(6588238, 30);
    Float32.WideCuts();
    FormatsAreValid(Rle4B(true), Rle4HF(true));
    Stripes32(6588238, 1, 4172550, 4392159);
    var group := Group(px, FloatCut(6588238, 30), 30, 19);
    assert group == px[4172550..4392159];
    AlternatesSize(f.alphabet, Channel(f, group, 0), false);
  }

  /**
   1540 striped half-float pixels on three processors: a group of even width, where two
   bytes are missing although no more than twice the input is needed.
   */
  lemma {:induction false} HalfFloatStripesExceedReserve()
    ensures ChunkCount(4, 1540 * 8, Some(3)) == 4 * 3 && Cuts(FloatCut(1540, 3), 3, 1540)
    ensures var group := Group(Striped64(1540), FloatCut(1540, 3), 3, 2);
            2 * |CompressChunk(Format64(Rle4HF(true)), group)[0]| > Reserve(1540 * 8, 4 * 3)
  {
    hide Rle.Compress, Format64, Reserve, Float32.Cut, Cuts, Channel, Striped32, Striped64;
    var f, px := Format64(Rle4HF(true)), Striped64(1540);
    FloatCutsTile(1540, 3);
    Float32.ThreeCuts();
    FormatsAreValid(Rle4B(true), Rle4HF(true));
    Stripes64(1540, 1026, 1540);
    var group := Group(px, FloatCut(1540, 3), 3, 2);
    assert group == px[1026..1540];
    AlternatesMarkers(f.alphabet, Channel(f, group, 0), true);
    ReserveExceeded(f.alphabet, Channel(f, group, 0), 1540, 3, 2);
  }
}
