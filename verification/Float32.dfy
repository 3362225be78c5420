/**
 Rounding to single precision, and the pixel positions at which the image codecs cut an
 image into groups: multiples of a width that is rounded, each product rounded again and
 then truncated. Positive numbers only, so that exponents never run out.
 */
module Float32 {

  const TOP := 16777216.0
  const HALF := 8388608.0

  // ---------- Rounding ----------

  /** The nearest integer, the even one of two that are equally near. */
  function Nearest(x: real): real
    requires x >= 0.0
  {
    var m := x.Floor;
    var rest := x - m as real;
    if rest < 0.5 || (rest == 0.5 && m % 2 == 0) then m as real else (m + 1) as real
  }

  lemma {:induction false} NearestIs(x: real)
    requires x >= 0.0
    ensures x - 0.5 <= Nearest(x) <= x + 0.5 && Nearest(x) >= 0.0
    ensures x.Floor as real == x ==> Nearest(x) == x
  {
  }

  /** Of two integers that are equally near the even one. */
  lemma {:induction false} NearestTies(m: nat)
    ensures Nearest(m as real + 0.5) == (if m % 2 == 0 then m else m + 1) as real
  {
    assert (m as real + 0.5).Floor == m;
  }

  lemma {:induction false} NearestMonotone(x: real, y: real)
    requires 0.0 <= x <= y
    ensures Nearest(x) <= Nearest(y)
  {
    if x.Floor < y.Floor {
      assert Nearest(x) <= (x.Floor + 1) as real;
    }
  }

  /** The doublings or halvings that bring `x` between 2^23 and 2^24. */
  function Steps(x: real): int
    requires x > 0.0
  {
    if x >= TOP then x.Floor else if x < HALF then (HALF / x).Floor else 0
  }

  lemma {:induction false} StepsShrink(x: real)
    requires x > 0.0
    ensures Steps(x) >= 0
    ensures x >= TOP ==> Steps(x / 2.0) < Steps(x)
    ensures x < HALF ==> Steps(2.0 * x) < Steps(x)
  {
    if x < HALF {
      var v := HALF / x;
      assert v * x == HALF;
      QuotientOver(x, v);
      assert HALF / (2.0 * x) == v / 2.0;
    }
  }

  lemma {:induction false} QuotientOver(x: real, v: real)
    requires 0.0 < x < HALF && v * x == HALF
    ensures v > 1.0 && HALF / (2.0 * x) == v / 2.0
  {
    assert (v - 1.0) * x == HALF - x;
    assert (v / 2.0) * (2.0 * x) == HALF;
  }

  /** `x` rounded to 24 significant bits. */
  function Fl(x: real): real
    requires x >= 0.0
    decreases if x > 0.0 then (StepsShrink(x); Steps(x)) else 0
  {
    if x == 0.0 then 0.0
    else
      StepsShrink(x);
      if x >= TOP then 2.0 * Fl(x / 2.0)
      else if x < HALF then Fl(2.0 * x) / 2.0
      else Nearest(x)
  }

  /** Rounding moves a number by at most one part in 2^24. */
  lemma {:induction false} FlError(x: real)
    requires x >= 0.0
    ensures x - x / TOP <= Fl(x) <= x + x / TOP
    decreases if x > 0.0 then (StepsShrink(x); Steps(x)) else 0
  {
    if x > 0.0 {
      StepsShrink(x);
      if x >= TOP {
        FlError(x / 2.0);
      } else if x < HALF {
        FlError(2.0 * x);
      } else {
        NearestIs(x);
      }
    }
  }

  /** Below 2^24 that is at most one half, and below 2^23 at most a quarter. */
  lemma {:induction false} FlNear(x: real)
    requires 0.0 <= x < TOP
    ensures x - 0.5 <= Fl(x) <= x + 0.5
    ensures x < HALF ==> x - 0.25 <= Fl(x) <= x + 0.25
    decreases if x > 0.0 then (StepsShrink(x); Steps(x)) else 0
  {
    if x > 0.0 {
      StepsShrink(x);
      if x < HALF {
        FlNear(2.0 * x);
      } else {
        NearestIs(x);
      }
    }
  }

  /** Whole numbers up to 2^24 are not changed. */
  lemma {:induction false} FlExact(n: nat)
    requires n <= 0x100_0000
    ensures Fl(n as real) == n as real
  {
    if n == 0x100_0000 {
      assert Fl(TOP / 2.0) == Nearest(HALF);
      NearestIs(HALF);
    } else {
      FlWhole(n as real, n);
    }
  }

  lemma {:induction false} FlWhole(x: real, n: nat)
    requires x == n as real < TOP
    ensures Fl(x) == x
    decreases 0x100_0000 - n
  {
    if 0.0 < x < HALF {
      FlWhole(2.0 * x, 2 * n);
    } else if x > 0.0 {
      NearestIs(x);
    }
  }

  /** Nor are multiples of four up to 2^26. */
  lemma {:induction false} FlFourfold(n: nat)
    requires n <= 0x100_0000
    ensures Fl((4 * n) as real) == (4 * n) as real
  {
    if 4 * n <= 0x100_0000 {
      FlExact(4 * n);
    } else if 2 * n <= 0x100_0000 {
      FlExact(2 * n);
      assert (4 * n) as real / 2.0 == (2 * n) as real;
    } else {
      FlExact(n);
      assert (4 * n) as real / 2.0 == (2 * n) as real && (2 * n) as real / 2.0 == n as real;
      assert Fl((2 * n) as real) == 2.0 * Fl(n as real);
    }
  }

  lemma {:induction false} FlRange(x: real)
    requires x >= 0.0
    ensures Fl(x) >= 0.0
    ensures x <= HALF ==> Fl(x) <= HALF
    ensures x >= HALF ==> Fl(x) >= HALF
    ensures x < TOP ==> Fl(x) <= TOP
    ensures x >= TOP ==> Fl(x) >= TOP
    decreases if x > 0.0 then (StepsShrink(x); Steps(x)) else 0
  {
    if x > 0.0 {
      StepsShrink(x);
      if x >= TOP {
        FlRange(x / 2.0);
      } else if x < HALF {
        FlRange(2.0 * x);
      } else {
        NearestIs(x);
        NearestIs(HALF);
        NearestIs(TOP);
        NearestMonotone(HALF, x);
        NearestMonotone(x, TOP);
      }
    }
  }

  /** Rounding keeps the order. */
  lemma {:induction false} FlMonotone(x: real, y: real)
    requires 0.0 <= x <= y
    ensures Fl(x) <= Fl(y)
    decreases if y > 0.0 then (StepsShrink(y); Steps(y)) else 0
  {
    FlRange(x);
    FlRange(y);
    if x > 0.0 {
      StepsShrink(y);
      if x >= TOP {
        FlMonotone(x / 2.0, y / 2.0);
      } else if y < HALF {
        FlMonotone(2.0 * x, 2.0 * y);
      } else if HALF <= x && y < TOP {
        NearestMonotone(x, y);
      }
    }
  }

  // ---------- Cuts ----------

  /** The pixels per group of an image of `n` pixels in `k` groups. */
  function Width(n: nat, k: nat): (w: real)
    requires k > 0
    ensures w >= 0.0
  {
    FlRange((4 * n) as real);
    FlRange((4 * k) as real);
    FlPositive((4 * k) as real);
    QuotientNotNegative(Fl((4 * n) as real), Fl((4 * k) as real));
    FlRange(Fl((4 * n) as real) / Fl((4 * k) as real));
    Fl(Fl((4 * n) as real) / Fl((4 * k) as real))
  }

  lemma {:induction false} FlPositive(x: real)
    requires x >= 1.0
    ensures Fl(x) > 0.0
  {
    FlError(x);
  }

  lemma {:induction false} QuotientNotNegative(a: real, b: real)
    requires a >= 0.0 && b > 0.0
    ensures a / b >= 0.0
  {
    assert (a / b) * b == a;
  }

  /** `g` times the width, before that is rounded. */
  function Position(n: nat, k: nat, g: nat): (y: real)
    requires k > 0
    ensures y >= 0.0
  {
    FlRange(g as real);
    ProductNotNegative(Fl(g as real), Width(n, k));
    Fl(g as real) * Width(n, k)
  }

  /** The first pixel of group `g`. */
  function Cut(n: nat, k: nat, g: nat): (c: nat)
    requires k > 0
  {
    FlRange(Position(n, k, g));
    Fl(Position(n, k, g)).Floor
  }

  lemma {:induction false} CutIs(n: nat, k: nat, g: nat, y: real)
    requires k > 0 && y == Fl(g as real) * Width(n, k)
    ensures y >= 0.0 && Cut(n, k, g) == Fl(y).Floor
  {
    hide Fl, Width;
    assert Position(n, k, g) == y;
  }

  lemma {:induction false} ProductNotNegative(a: real, b: real)
    requires a >= 0.0 && b >= 0.0
    ensures a * b >= 0.0
  {
  }

  /** The cuts begin with the image and never go back. */
  lemma {:induction false} CutsRise(n: nat, k: nat, g: nat)
    requires k > 0
    ensures Cut(n, k, 0) == 0 && Cut(n, k, g) <= Cut(n, k, g + 1)
  {
    hide Fl, Width, Cut;
    var w, a, b := Width(n, k), Fl(g as real), Fl((g + 1) as real);
    FlExact(0);
    assert 0.0 * w == 0.0;
    FlMonotone(g as real, (g + 1) as real);
    FlRange(g as real);
    ProductMonotone(a, b, w);
    ProductNotNegative(a, w);
    FlMonotone(a * w, b * w);
    FloorMonotone(Fl(a * w), Fl(b * w));
    CutIs(n, k, 0, 0.0);
    CutIs(n, k, g, a * w);
    CutIs(n, k, g + 1, b * w);
  }

  lemma {:induction false} ProductMonotone(a: real, b: real, w: real)
    requires a <= b && w >= 0.0
    ensures a * w <= b * w
  {
  }

  lemma {:induction false} FloorMonotone(x: real, y: real)
    requires x <= y
    ensures x.Floor <= y.Floor
  {
  }

  lemma {:induction false} CutsRiseTo(n: nat, k: nat, g: nat, h: nat)
    requires k > 0 && g <= h
    ensures Cut(n, k, g) <= Cut(n, k, h)
    decreases h - g
  {
    if g < h {
      CutsRiseTo(n, k, g, h - 1);
      CutsRise(n, k, h - 1);
    }
  }

  lemma {:induction false} WidthError(n: nat, k: nat)
    requires 0 < k <= 0x100_0000 && n <= 0x100_0000
    ensures var y := k as real * Width(n, k);
            n as real - n as real / TOP <= y <= n as real + n as real / TOP
  {
    var x, d := n as real, k as real;
    FlFourfold(n);
    FlFourfold(k);
    var q := (4 * n) as real / (4 * k) as real;
    Quotient(x, d, q);
    FlError(q);
    ScaledError(d, q, Width(n, k), x);
  }

  lemma {:induction false} Quotient(x: real, d: real, q: real)
    requires d > 0.0 && x >= 0.0 && q == (4.0 * x) / (4.0 * d)
    ensures q >= 0.0 && d * q == x
  {
    assert q * (4.0 * d) == 4.0 * x;
    QuotientNotNegative(4.0 * x, 4.0 * d);
  }

  lemma {:induction false} ScaledError(d: real, q: real, w: real, x: real)
    requires d > 0.0 && d * q == x && q - q / TOP <= w <= q + q / TOP
    ensures x - x / TOP <= d * w <= x + x / TOP
  {
    var e := q / TOP;
    assert d * e == x / TOP;
    ProductNotNegative(d, w - (q - e));
    ProductNotNegative(d, (q + e) - w);
    assert d * (w - (q - e)) == d * w - (x - x / TOP);
    assert d * ((q + e) - w) == (x + x / TOP) - d * w;
  }

  /** Below 2^23 pixels the last group ends with the image, or one pixel before that. */
  lemma {:induction false} CutsEnd(n: nat, k: nat)
    requires 0 < k <= 0x100_0000 && n < 0x80_0000
    ensures n - 1 <= Cut(n, k, k) <= n
  {
    hide Fl, Width, Cut;
    var x, y := n as real, k as real * Width(n, k);
    WidthError(n, k);
    FlExact(k);
    ProductNotNegative(k as real, Width(n, k));
    FlError(y);
    assert x <= 8388607.0;
    assert x - 1.0 < Fl(y) < x + 1.0;
    FloorBetween(Fl(y), n);
    CutIs(n, k, k, y);
  }

  /** Below 2^23 pixels the width is off by at most a quarter, and so is every product. */
  lemma {:induction false} WidthNear(n: nat, k: nat, q: real)
    requires 0 < k <= 0x100_0000 && n < 0x80_0000 && k as real * q == n as real
    ensures q >= 0.0 && q - 0.25 <= Width(n, k) <= q + 0.25
  {
    FlFourfold(n);
    FlFourfold(k);
    QuotientIs(n as real, k as real, q);
    FlNear(q);
  }

  lemma {:induction false} QuotientIs(x: real, d: real, q: real)
    requires d >= 1.0 && x >= 0.0 && d * q == x
    ensures 0.0 <= q <= x && (4.0 * x) / (4.0 * d) == q
  {
    assert q * (4.0 * d) == 4.0 * x;
    if q < 0.0 {
      ProductMonotone(1.0, d, 0.0 - q);
    } else {
      ProductMonotone(1.0, d, q);
    }
  }

  lemma {:induction false} PositionNear(n: nat, k: nat, g: nat, y: real)
    requires 0 < k <= 0x100_0000 && n < 0x80_0000 && g <= k && y == g as real * Width(n, k)
    ensures y >= 0.0 && Cut(n, k, g) == Fl(y).Floor && y - 0.25 <= Fl(y) <= y + 0.25
  {
    hide Fl, Width, Cut;
    var x, d, w := g as real, k as real, Width(n, k);
    FlExact(g);
    ProductNotNegative(x, w);
    ProductMonotone(x, d, w);
    WidthError(n, k);
    assert n as real <= 8388607.0;
    assert y <= d * w < HALF;
    FlNear(y);
    CutIs(n, k, g, y);
  }

  /**
   Below 2^23 pixels a group is at most two pixels wider than the quotient of pixels and
   groups, and at most one if the remainder is at most a quarter of the number of groups.
   */
  lemma {:induction false} GroupWidth(n: nat, k: nat, g: nat)
    requires 0 < k <= 0x100_0000 && n < 0x80_0000 && g < k
    ensures Cut(n, k, g + 1) - Cut(n, k, g) <= n / k + 2
    ensures 4 * (n % k) <= k ==> Cut(n, k, g + 1) - Cut(n, k, g) <= n / k + 1
  {
    hide Fl, Width, Cut;
    var q, w := n as real / k as real, Width(n, k);
    var a, b := g as real * w, (g + 1) as real * w;
    ProductStep(g as real, w, a, b);
    WidthNear(n, k, q);
    PositionNear(n, k, g, a);
    PositionNear(n, k, g + 1, b);
    QuotientBelow(n, k, q);
    FloorsApart(Fl(a), Fl(b), n / k, 2);
    if 4 * (n % k) <= k {
      FloorsApart(Fl(a), Fl(b), n / k, 1);
    }
  }

  lemma {:induction false} ProductStep(x: real, w: real, a: real, b: real)
    requires a == x * w && b == (x + 1.0) * w
    ensures b - a == w
  {
  }

  lemma {:induction false} QuotientBelow(n: nat, k: nat, q: real)
    requires k > 0 && k as real * q == n as real
    ensures q < (n / k) as real + 1.0
    ensures 4 * (n % k) <= k ==> q <= (n / k) as real + 0.25
  {
    var m, r := n / k, n % k;
    ProductAsReal(k, m);
    RestBelow(k as real, q, m as real, r as real);
    assert 4 * r <= k ==> (4 * r) as real <= k as real;
    assert (4 * r) as real == 4.0 * r as real;
  }

  lemma {:induction false} RestBelow(d: real, q: real, m: real, r: real)
    requires d > 0.0 && 0.0 <= r < d && d * q == d * m + r
    ensures q < m + 1.0 && (4.0 * r <= d ==> q <= m + 0.25)
  {
    var rest := q - m;
    assert rest * d == r;
    if rest >= 1.0 {
      ProductMonotone(1.0, rest, d);
    } else if rest > 0.25 {
      StrictProduct(0.25, rest, d);
    }
  }

  lemma {:induction false} ProductAsReal(k: nat, m: nat)
    ensures (k * m) as real == k as real * m as real
  {
    if m > 0 {
      ProductAsReal(k, m - 1);
      assert k * m == k * (m - 1) + k;
      assert k as real * m as real == k as real * (m - 1) as real + k as real;
    }
  }

  lemma {:induction false} StrictProduct(a: real, b: real, d: real)
    requires a < b && d > 0.0
    ensures a * d < b * d
  {
  }

  lemma {:induction false} FloorsApart(a: real, b: real, m: int, j: int)
    requires b - a <= (m + j) as real
    ensures b.Floor - a.Floor <= m + j
  {
  }

  lemma {:induction false} FloorBetween(z: real, n: int)
    requires (n - 1) as real < z < (n + 1) as real
    ensures n - 1 <= z.Floor <= n
  {
  }

  /** A single group is the whole image, up to 2^24 pixels. */
  lemma {:induction false} SingleCut(n: nat)
    requires n <= 0x100_0000
    ensures Cut(n, 1, 1) == n
  {
    hide Fl, Cut;
    FlFourfold(n);
    FlFourfold(1);
    assert (4 * n) as real / (4 * 1) as real == n as real;
    FlExact(n);
    FlExact(1);
    assert Width(n, 1) == n as real;
    assert 1.0 * n as real == n as real;
    CutIs(n, 1, 1, n as real);
  }

  function Power2(j: nat): real {
    if j == 0 then 1.0 else 2.0 * Power2(j - 1)
  }

  /** Rounding a number below 2^23, with the scale `p` at hand. */
  lemma {:induction false} FlScaled(x: real, y: real, j: nat, p: real)
    requires x > 0.0 && p == Power2(j) && y == x * p && HALF <= y < TOP
    ensures Fl(x) * p == Nearest(y)
    decreases j
  {
    hide Nearest;
    if j > 0 {
      var half := Power2(j - 1);
      Power2AtLeastOne(j - 1);
      assert y == (2.0 * x) * half;
      ProductMonotone(1.0, half, 2.0 * x);
      FlScaled(2.0 * x, y, j - 1, half);
      assert Fl(x) == Fl(2.0 * x) / 2.0;
      Halves(Fl(2.0 * x), half);
    }
  }

  lemma {:induction false} Power2AtLeastOne(j: nat)
    ensures Power2(j) >= 1.0
  {
    if j > 0 {
      Power2AtLeastOne(j - 1);
    }
  }

  lemma {:induction false} Halves(a: real, p: real)
    ensures (a / 2.0) * (2.0 * p) == a * p
  {
  }

  /** 7173 pixels in seven groups: the last group ends one pixel before the image. */
  lemma {:induction false} LastPixelIsCut()
    ensures Cut(7173, 7, 7) == 7172
  {
    FlFourfold(7173);
    FlFourfold(7);
    FlExact(7);
    PowersOfTwo();
    var q := 28692.0 / 28.0;
    FlScaled(q, 58761216.0 / 7.0, 13, 8192.0);
    assert Width(7173, 7) == 8394459.0 / 8192.0;
    var y := 7.0 * (8394459.0 / 8192.0);
    FlScaled(y, 58761213.0 / 4.0, 11, 2048.0);
    assert Fl(y) == 14690303.0 / 2048.0;
  }

  /** 6588238 pixels in thirty groups: one group is two pixels wider than the quotient. */
  lemma {:induction false} WideCuts()
    ensures Cut(6588238, 30, 19) == 4172550 && Cut(6588238, 30, 20) == 4392159
    ensures 4392159 - 4172550 == 6588238 / 30 + 2
  {
    FlFourfold(6588238);
    FlFourfold(30);
    FlExact(19);
    FlExact(20);
    PowersOfTwo();
    var q := 26352952.0 / 120.0;
    FlScaled(q, q * 64.0, 6, 64.0);
    var w := 14054908.0 / 64.0;
    assert Width(6588238, 30) == w;
    FlScaled(19.0 * w, 16690203.25, 2, 4.0);
    CutIs(6588238, 30, 19, 19.0 * w);
    FlScaled(20.0 * w, 8784317.5, 1, 2.0);
    CutIs(6588238, 30, 20, 20.0 * w);
  }

  /** 16777219 pixels in a single group: it ends behind the image. */
  lemma {:induction false} CutIsBehind()
    ensures Cut(16777219, 1, 1) == 16777220
  {
    hide Width;
    assert Nearest(67108876.0 / 8.0) == 8388610.0;
    FlHalves(67108876.0);
    FlHalves(67108876.0 / 2.0);
    FlHalves(67108876.0 / 4.0);
    FlHalves(16777220.0);
    NearestIs(8388610.0);
    FlFourfold(1);
    FlExact(1);
    WidthIs(16777219, 1, 67108880.0, 4.0);
    CutIs(16777219, 1, 1, 16777220.0);
  }

  lemma {:induction false} FlHalves(x: real)
    requires x >= TOP
    ensures Fl(x) == 2.0 * Fl(x / 2.0)
    ensures HALF <= x / 2.0 < TOP ==> Fl(x) == 2.0 * Nearest(x / 2.0)
  {
  }

  lemma {:induction false} WidthIs(n: nat, k: nat, a: real, b: real)
    requires k > 0 && a == Fl((4 * n) as real) && b == Fl((4 * k) as real)
    ensures b > 0.0 && a / b >= 0.0 && Width(n, k) == Fl(a / b)
  {
    hide Fl;
    FlRange((4 * n) as real);
    FlPositive((4 * k) as real);
    QuotientNotNegative(a, b);
  }

  /** 2049 pixels in two groups, and 1540 in three. */
  lemma {:induction false} TwoCuts()
    ensures Cut(2049, 2, 1) == 1024 && Cut(2049, 2, 2) == 2049
  {
    FlFourfold(2049);
    FlFourfold(2);
    FlExact(1);
    FlExact(2);
    FlExact(2049);
    PowersOfTwo();
    var q := 8196.0 / 8.0;
    assert q == 1024.5;
    FlScaled(q, 8392704.0, 13, 8192.0);
    assert Width(2049, 2) == 1024.5;
    CutIs(2049, 2, 1, 1024.5);
    CutIs(2049, 2, 2, 2049.0);
  }

  lemma {:induction false} ThreeCuts()
    ensures Cut(1540, 3, 2) == 1026 && Cut(1540, 3, 3) == 1540
  {
    FlFourfold(1540);
    FlFourfold(3);
    FlExact(2);
    FlExact(3);
    PowersOfTwo();
    var q := 6160.0 / 12.0;
    FlScaled(q, 25231360.0 / 3.0, 14, 16384.0);
    var w := 8410453.0 / 16384.0;
    assert Width(1540, 3) == w;
    FlScaled(2.0 * w, 8410453.0, 13, 8192.0);
    CutIs(1540, 3, 2, 2.0 * w);
    FlScaled(3.0 * w, 25231359.0 / 2.0, 13, 8192.0);
    CutIs(1540, 3, 3, 3.0 * w);
  }

  lemma {:induction false} PowersOfTwo()
    ensures Power2(1) == 2.0 && Power2(2) == 4.0 && Power2(6) == 64.0
    ensures Power2(11) == 2048.0 && Power2(13) == 8192.0 && Power2(14) == 16384.0
  {
    assert Power2(4) == 16.0 && Power2(8) == 16.0 * Power2(4) && Power2(11) == 8.0 * Power2(8);
    assert Power2(13) == 4.0 * Power2(11);
  }
}
