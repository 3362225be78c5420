/**
 An input in which no three bytes come back within reach of any of the encoders, so that
 all of it is literals, whatever the hash values and the tables are; and what becomes of
 it as a chunk so large that its sizes leave the C integers they are passed in.
 */
module Unrepeated {
  import opened Bytes
  import opened LzFormat
  import opened LzSearch
  import Arithmetic
  import ChunkCodecs
  import FastLz
  import FastLzCompress
  import Lzf
  import LzfCompress

  const PERIOD := 614125

  // ---------- The input ----------

  /** A counter in base 85, three digits for each number, the digits of each place in a range of their own. */
  function Digit(m: nat, place: nat): byte
    requires place < 3
  {
    if place == 0 then m / 7225 % 85 else if place == 1 then 85 + m / 85 % 85 else 170 + m % 85
  }

  function Counting(n: nat): (x: seq<byte>)
    ensures |x| == n
  {
    seq(n, p requires 0 <= p < n => Digit(p / 3, p % 3))
  }

  // ---------- It does not repeat itself ----------

  /** Numbers with the same remainder differ by a multiple, which their quotients give. */
  lemma {:induction false} SameRemainder(a: nat, b: nat, d: pos)
    requires a % d == b % d
    ensures a - b == d * (a / d - b / d)
  {
  }

  /** Digits of the lower two places in one number or in two successive ones, and the upper one of the latter. */
  lemma {:induction false} DigitsDiffer(m: nat, m': nat)
    requires m' < m < m' + PERIOD && m % 85 == m' % 85 && m / 85 % 85 == m' / 85 % 85
    ensures m / 7225 % 85 != m' / 7225 % 85
  {
    SameRemainder(m, m', 85);
    SameRemainder(m / 85, m' / 85, 85);
    if m / 7225 % 85 == m' / 7225 % 85 {
      SameRemainder(m / 7225, m' / 7225, 85);
    }
  }

  lemma {:induction false} CounterByte(n: nat, p: nat)
    requires p < n
    ensures Counting(n)[p] == Digit(p / 3, p % 3) && Counting(n)[p] as int / 85 == p % 3
  {
  }

  /** The three bytes from place `j` of number `m` on tell that number apart from the `PERIOD` before it. */
  lemma {:induction false} WindowsDiffer(m: nat, t: nat, j: nat)
    requires j < 3 && 0 < t <= m && t < PERIOD
    ensures !(Digit(m, j) == Digit(m - t, j)
              && Digit(m + (j + 1) / 3, (j + 1) % 3) == Digit(m - t + (j + 1) / 3, (j + 1) % 3)
              && Digit(m + (j + 2) / 3, (j + 2) % 3) == Digit(m - t + (j + 2) / 3, (j + 2) % 3))
  {
    var b := m - t;
    if j == 0 {
      if m % 85 == b % 85 && m / 85 % 85 == b / 85 % 85 {
        DigitsDiffer(m, b);
      }
    } else if j == 1 {
      if m % 85 == b % 85 && m / 85 % 85 == b / 85 % 85 {
        Successors(m, b);
        DigitsDiffer(m + 1, b + 1);
      }
    } else {
      if m % 85 == b % 85 && (m + 1) / 85 % 85 == (b + 1) / 85 % 85 {
        NextRemainder(m, b);
        DigitsDiffer(m + 1, b + 1);
      }
    }
  }

  lemma {:induction false} NextRemainder(m: nat, b: nat)
    requires m % 85 == b % 85
    ensures (m + 1) % 85 == (b + 1) % 85
  {
  }

  lemma {:induction false} Successors(m: nat, b: nat)
    requires m % 85 == b % 85 && m / 85 % 85 == b / 85 % 85
    ensures (m + 1) % 85 == (b + 1) % 85 && (m + 1) / 85 % 85 == (b + 1) / 85 % 85
  {
    NextRemainder(m, b);
    if m % 85 == 84 {
      assert (m + 1) / 85 == m / 85 + 1 && (b + 1) / 85 == b / 85 + 1;
      NextRemainder(m / 85, b / 85);
    } else {
      assert (m + 1) / 85 == m / 85 && (b + 1) / 85 == b / 85;
    }
  }

  /** No three bytes are the same as three bytes that begin less than three periods before them. */
  lemma {:induction false} NoRepeat(n: nat, p: nat, dist: nat)
    requires p + 3 <= n && 1 <= dist <= p && dist < 3 * PERIOD
    ensures var x := Counting(n);
            !(x[p] == x[p - dist] && x[p + 1] == x[p + 1 - dist] && x[p + 2] == x[p + 2 - dist])
  {
    hide Counting, Digit;
    CounterByte(n, p);
    CounterByte(n, p - dist);
    if Counting(n)[p] == Counting(n)[p - dist] {
      var m, t, j := p / 3, dist / 3, p % 3;
      SamePlace(p, dist);
      CounterByte(n, p + 1);
      CounterByte(n, p + 2);
      CounterByte(n, p + 1 - dist);
      CounterByte(n, p + 2 - dist);
      WindowsDiffer(m, t, j);
    }
  }

  lemma {:induction false} SamePlace(p: nat, dist: nat)
    requires 1 <= dist <= p && p % 3 == (p - dist) % 3
    ensures var m, t, j := p / 3, dist / 3, p % 3;
            && 0 < t <= m && (p - dist) / 3 == m - t && (p - dist) % 3 == j
            && (p + 1) / 3 == m + (j + 1) / 3 && (p + 1) % 3 == (j + 1) % 3
            && (p + 2) / 3 == m + (j + 2) / 3 && (p + 2) % 3 == (j + 2) % 3
            && (p + 1 - dist) / 3 == m - t + (j + 1) / 3 && (p + 1 - dist) % 3 == (j + 1) % 3
            && (p + 2 - dist) / 3 == m - t + (j + 2) / 3 && (p + 2 - dist) % 3 == (j + 2) % 3
  {
    assert dist % 3 == 0;
  }

  // ---------- So all of it is literals ----------

  lemma {:induction false} NoMatch(pol: Policy, n: nat, hash: nat -> nat, tab: Table, p: nat)
    requires p < SearchEnd(pol, n)
    ensures var x := Counting(n);
            var s := Next(pol, x, hash, tab, p);
            s.tok == Lit(x[p]) && s.next == p + 1
  {
    hide Counting, Digit, MatchEnd, Learn;
    var x := Counting(n);
    if 1 <= p {
      NoRepeat(n, p, 1);
    }
    var dist := p - tab[Slot(tab, hash, p)];
    if 1 <= dist <= p && dist < 3 * PERIOD {
      NoRepeat(n, p, dist);
    }
    assert !RunAt(pol, x, p) && !Acceptable(pol, x, p, dist);
  }

  lemma {:induction false} AllLiterals(pol: Policy, n: nat, hash: nat -> nat, tab: Table, p: nat)
    requires p <= n
    ensures Search(pol, Counting(n), hash, tab, p) == Literals(Counting(n), p)
    decreases n - p
  {
    hide Counting, Next;
    var x := Counting(n);
    if p < SearchEnd(pol, n) {
      NoMatch(pol, n, hash, tab, p);
      AllLiterals(pol, n, hash, Next(pol, x, hash, tab, p).tab, p + 1);
    }
  }

  lemma {:induction false} TokensAreLiterals(pol: Policy, n: nat, hash: nat -> nat, tab: Table)
    ensures Tokens(pol, Counting(n), hash, tab) == Literals(Counting(n), 0)
  {
    hide Counting, Search;
    var x := Counting(n);
    if (pol.FastLz1? || pol.FastLz2?) && n >= 2 {
      AllLiterals(pol, n, hash, tab, 2);
      assert Literals(x, 0) == [Lit(x[0])] + ([Lit(x[1])] + Literals(x, 2));
    } else {
      AllLiterals(pol, n, hash, tab, 0);
    }
  }

  // ---------- Sizes that leave the C integers ----------

  /** Nothing is gained: a header for every started group of 32 bytes. */
  lemma {:induction false} FastLzSize(pol: Policy, n: nat, hash: nat -> nat)
    requires FastLzCompress.IsFastLz(pol) && n > 0
    ensures |FastLzCompress.Compressed(pol, Counting(n), hash)| == n + (n + 31) / 32
  {
    hide Counting, Tokens, Emit;
    var x := Counting(n);
    assert x != [];
    TokensAreLiterals(pol, n, hash, FastLzCompress.EmptyTable());
    FastLz.LiteralsSize(Wire(pol), x, 0, []);
  }

  /** The largest chunk that has a size at all: that of its stream is a negative `int`. */
  lemma {:induction false} FastLzSizeIsNegative(pol: Policy, hash: nat -> nat)
    requires FastLzCompress.IsFastLz(pol)
    ensures var s := FastLzCompress.Compressed(pol, Counting(0x7fff_ffff), hash);
            |s| == 2214592511 && AsInt(|s|) < 0
  {
    hide Counting, FastLzCompress.Compressed;
    FastLzSize(pol, 0x7fff_ffff, hash);
  }

  /** The LZF encoder gives up on any capacity below that. */
  lemma {:induction false} LzfGivesUp(n: nat, hash: nat -> nat, tab: Table, cap: nat)
    requires 0 < n < U32 && cap < n + (n + 31) / 32
    ensures LzfCompress.Compressed(Counting(n), hash, tab, cap) == [] && !Lzf.ChunkFits(Counting(n), hash, tab, cap)
  {
    hide Counting, Tokens, Emit, LzfCompress.Fits;
    var x := Counting(n);
    var toks := Tokens(Policy.Lzf, x, hash, tab);
    TokensAreLiterals(Policy.Lzf, n, hash, tab);
    TokensDescribe(Policy.Lzf, x, hash, tab);
    FastLz.LiteralsSize(Short, x, 0, []);
    if LzfCompress.Fits(toks, n, 0, 0, cap) {
      Lzf.FitsIsSound(x, 0, toks, 0, [], cap);
    }
  }

  /** A chunk of 4e9 bytes: the reserved bound is 4400000008, of which 105032712 arrive, and nothing is stored. */
  lemma {:induction false} LzfChunkIsLost(hash: nat -> nat, tab: Table)
    ensures var cap := Lzf.ReservedCapacity(4_400_000_000);
            cap == 105_032_712 && LzfCompress.Compressed(Counting(4_000_000_000), hash, tab, cap) == []
    ensures Arithmetic.IsFloatProduct(4_000_000_000, 4_400_000_000)
  {
    hide Counting, LzfCompress.Compressed;
    LzfGivesUp(4_000_000_000, hash, tab, 105_032_712);
  }

  /** So a buffer of that size is lost without OpenMP, if the product is rounded to 4400000000. */
  lemma {:induction false} LzfBufferIsLost(hash: nat -> nat -> nat, tab: nat -> Table, product: nat -> nat, size: pos)
    requires ChunkCodecs.Rounds(product) && product(4_000_000_000) == 4_400_000_000
    ensures !ChunkCodecs.AlwaysRestored(ChunkCodecs.LzfCodec(hash, tab, product), false, size, Counting(4_000_000_000))
  {
    hide Counting, ChunkCodecs.LzfCodec, ChunkCodecs.AlwaysRestored, ChunkCodecs.Rounds, Lzf.ChunkFits;
    LzfGivesUp(4_000_000_000, hash(0), tab(0), 105_032_712);
    ChunkCodecs.LzfBuffers(hash, tab, product, false, size, Counting(4_000_000_000));
  }

  lemma {:induction false} FastLzBufferIsLost(hash: nat -> nat -> nat, after: seq<byte>, size: pos)
    ensures !ChunkCodecs.AlwaysRestored(ChunkCodecs.FastLzCodec(hash, after), false, size, Counting(0x7fff_ffff))
  {
    hide Counting, ChunkCodecs.FastLzCodec, ChunkCodecs.AlwaysRestored;
    FastLzSizeIsNegative(FastLz.LevelFor(0x7fff_ffff), hash(0));
    ChunkCodecs.FastLzBuffers(hash, after, false, size, Counting(0x7fff_ffff));
  }
}
