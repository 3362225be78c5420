/**
 Input that repeats one period over and over, and how little the encoders make of it when
 places of the period with different bytes have table slots of their own.
 */
module Repeated {
  import opened Arithmetic
  import opened Bytes
  import opened LzFormat
  import opened LzSearch
  import FastLz
  import FastLzCompress

  /** From the second period on every byte is the one a period before it. */
  predicate Periodic(x: seq<byte>, d: pos) {
    forall i :: d <= i < |x| ==> x[i] == x[i - d]
  }

  /** No three bytes come back before a whole period has passed. */
  predicate Distinct(x: seq<byte>, d: pos) {
    forall a, b :: 0 <= a < b < a + d && b + 3 <= |x| ==> !SameBytes(x, b, a, 3)
  }

  /** Both are at the same place of the period. */
  predicate SamePlace(p: nat, q: nat, d: pos) {
    p % d == q % d
  }

  lemma {:induction false} PeriodicSame(x: seq<byte>, d: pos, p: nat, q: nat, n: nat)
    requires Periodic(x, d) && q < p && p + n <= |x| && SamePlace(p, q, d)
    ensures SameBytes(x, p, q, n)
    decreases p - q
  {
    Congruent(p, q, d);
    if p - d == q {
      OnePeriod(x, d, p, n);
    } else {
      PeriodicSame(x, d, p - d, q, n);
      OnePeriod(x, d, p, n);
    }
  }

  lemma {:induction false} OnePeriod(x: seq<byte>, d: pos, p: nat, n: nat)
    requires Periodic(x, d) && d <= p && p + n <= |x|
    ensures SameBytes(x, p, p - d, n)
  {
    var a, b := x[p..p + n], x[p - d..p - d + n];
    forall i | 0 <= i < |a| ensures a[i] == b[i] {
      assert x[p + i] == x[p + i - d];
    }
  }

  /** Numbers with the same remainder are at least a divisor apart. */
  lemma {:induction false} Congruent(p: nat, q: nat, d: pos)
    requires q < p && SamePlace(p, q, d)
    ensures p >= q + d && (p - d) % d == q % d
  {
    Quotients(p, q, d, p / d, q / d, p % d);
  }

  lemma {:induction false} Quotients(p: nat, q: nat, d: pos, a: nat, b: nat, r: nat)
    requires q < p && r < d && p == d * a + r && q == d * b + r
    ensures p >= q + d && (p - d) % d == r
  {
    if a <= b {
      MulMonotone(d, a, b);
    } else {
      MulMonotone(d, b + 1, a);
      OneMore(d, b);
      OneMore(d, a - 1);
      DivideUnique(p - d, d, a - 1, r);
    }
  }

  lemma {:induction false} OneMore(d: nat, a: nat)
    ensures d * (a + 1) == d * a + d
  {
  }

  lemma {:induction false} Remainders(a: nat, d: pos)
    ensures d % d == 0 && 0 % d == 0 && (a % d) % d == a % d
  {
    DivideUnique(d, d, 1, 0);
    DivideUnique(0, d, 0, 0);
    DivideUnique(a % d, d, 0, a % d);
  }

  // ---------- Sizes ----------

  function Between(x: seq<byte>, p: nat, e: nat): seq<Token>
    requires p <= e <= |x|
    decreases e - p
  {
    if p == e then [] else [Lit(x[p])] + Between(x, p + 1, e)
  }

  /** Literals up to a match: one header for each started group of 32. */
  lemma {:induction false} LiteralsBefore(fmt: Format, run: seq<byte>, x: seq<byte>, p: nat, e: nat, len: nat,
                                          dist: pos, rest: seq<Token>)
    requires p <= e <= |x| && |run| < MAX_RUN
    ensures var m := |run| + e - p;
            |Emit(fmt, run, Between(x, p, e) + ([Match(len, dist)] + rest))|
            == m + (m + 31) / 32 + |CopyBytes(fmt, len, dist)| + |Emit(fmt, [], rest)|
    decreases e - p
  {
    hide CopyBytes, Emit;
    var last := [Match(len, dist)] + rest;
    if p == e {
      assert Between(x, p, e) + last == last;
      MatchEmits(fmt, [], run, len, dist, rest);
      assert [] + Emit(fmt, run, last) == Emit(fmt, run, last);
    } else {
      var more := Between(x, p + 1, e) + last;
      assert Between(x, p, e) + last == [Lit(x[p])] + more;
      AdvanceEmits(fmt, [], run, x[p], more);
      hide Between;
      LiteralsBefore(fmt, if |run| + 1 == MAX_RUN then [] else run + [x[p]], x, p + 1, e, len, dist, rest);
      FullRun(e - p - 1);
    }
  }

  lemma {:induction false} FullRun(n: nat)
    ensures 33 + (n + (n + 31) / 32) == (32 + n) + (32 + n + 31) / 32
  {
  }

  lemma {:induction false} ChainIs(k: nat)
    ensures |Chain(k)| == k / 255 + 1
  {
    if k >= 255 {
      ChainIs(k - 255);
    }
  }

  lemma {:induction false} CopySize(fmt: Format, len: nat, dist: pos)
    requires len >= 3
    ensures fmt.Short? ==> |CopyBytes(fmt, len, dist)| <= 3 + 3 * (len / 262)
    ensures fmt.Short? && len <= 264 ==> |CopyBytes(fmt, len, dist)| <= 3
    ensures fmt.Extended? ==> |CopyBytes(fmt, len, dist)| <= 5 + len / 255
  {
    if fmt.Extended? {
      if len >= 9 {
        ChainIs(len - 9);
      }
    } else if len > 264 {
      CopySize(fmt, len - 262, dist);
    }
  }

  // ---------- What is taken ----------

  /** The position that the table has for `p`. */
  function Entry(tab: Table, hash: nat -> nat, p: nat): nat {
    tab[hash(p) % |tab|]
  }

  function Put(tab: Table, hash: nat -> nat, p: nat): (t: Table)
    ensures |t| == |tab|
  {
    tab[hash(p) % |tab| := p]
  }

  /** The table after a match from `p` that ends at `e`. */
  function After(tab: Table, hash: nat -> nat, p: nat, e: nat): (t: Table)
    requires e >= 2
    ensures |t| == |tab|
  {
    Put(Put(Put(tab, hash, p), hash, e - 2), hash, e - 1)
  }

  /** A position of periodic input with a good entry: all of it is taken that is allowed. */
  lemma {:induction false} TakesEntry(pol: Policy, x: seq<byte>, d: pos, hash: nat -> nat, tab: Table, p: nat)
    requires p + (if pol.FastLz1? || pol.FastLz2? then 12 else 2) < |x| && Periodic(x, d)
    requires pol.FastLz2? && p > 0 ==> !(x[p - 1] == x[p] == x[p + 1] == x[p + 2])
    requires var q := Entry(tab, hash, p); q < p && SamePlace(p, q, d) && Worthwhile(pol, x, p, q)
    ensures var dist := p - Entry(tab, hash, p);
            var len := LongestAllowed(pol, |x|, p, dist);
            && 3 <= len <= |x| - p
            && Search(pol, x, hash, tab, p)
               == [Match(len, dist)] + Search(pol, x, hash, After(tab, hash, p, p + len), p + len)
  {
    hide Search, Worthwhile, Periodic, SamePlace, TakesMatch, LongestAllowed, SameBytes;
    SearchTakes(pol, x, hash, tab, p);
    TakesAll(pol, x, d, hash, tab, p, Entry(tab, hash, p));
  }

  /** Any other position, as long as there is no run: it is a literal. */
  lemma {:induction false} TakesNothing(pol: Policy, x: seq<byte>, hash: nat -> nat, tab: Table, p: nat)
    requires p + (if pol.FastLz1? || pol.FastLz2? then 12 else 2) < |x|
    requires pol.FastLz2? && p > 0 ==> !(x[p - 1] == x[p] == x[p + 1] == x[p + 2])
    requires !Worthwhile(pol, x, p, Entry(tab, hash, p))
    ensures Search(pol, x, hash, tab, p) == [Lit(x[p])] + Search(pol, x, hash, Put(tab, hash, p), p + 1)
  {
    hide Search, Worthwhile;
    SearchTakes(pol, x, hash, tab, p);
  }

  /** What begins in the first period is taken as literals, whatever is in the table. */
  lemma {:induction false} NothingYet(pol: Policy, x: seq<byte>, d: pos, p: nat, q: nat)
    requires Distinct(x, d) && p + 2 < |x| && (pol.FastLz1? || pol.FastLz2? ==> p + 12 < |x|)
    requires p < d || (p == d && (q > 0 || pol.Lzf?))
    ensures !Worthwhile(pol, x, p, q)
  {
    hide SameBytes;
  }

  lemma {:induction false} NoRun(x: seq<byte>, d: pos, p: nat)
    requires Distinct(x, d) && d >= 2 && 0 < p && p + 3 <= |x|
    ensures !(x[p - 1] == x[p] == x[p + 1] == x[p + 2])
  {
    assert !SameBytes(x, p, p - 1, 3);
  }

  /** In periodic input a candidate a number of periods back is worth it. */
  lemma {:induction false} PeriodsBack(pol: Policy, x: seq<byte>, d: pos, p: nat, q: nat)
    requires Periodic(x, d) && q < p && SamePlace(p, q, d) && p + 2 < |x|
    requires pol.FastLz1? || pol.FastLz2? ==> p + 12 < |x|
    requires match pol
             case FastLz1 => p - q <= 8191
             case FastLz2 => p - q <= 73724
             case Lzf => q > 0 && p - q <= 8192
             case Clzf => q > 0 && p - q <= 8192 && p + 4 < |x|
    ensures Worthwhile(pol, x, p, q)
  {
    hide Periodic, SameBytes;
    PeriodicSame(x, d, p, q, 3);
    if pol.FastLz2? {
      PeriodicSame(x, d, p, q, 5);
    }
  }

  /** And the match has the largest length that is allowed. */
  lemma {:induction false} LongestIs(pol: Policy, x: seq<byte>, d: pos, p: nat, q: nat, len: nat)
    requires Periodic(x, d) && q < p && SamePlace(p, q, d) && Longest(pol, x, p, q, len)
    ensures len == LongestAllowed(pol, |x|, p, p - q)
  {
    hide Periodic, LongestAllowed;
    if p + len < |x| {
      PeriodicSame(x, d, p, q, len + 1);
      assert x[p..p + len + 1][len] == x[q..q + len + 1][len];
    }
  }

  lemma {:induction false} TakesAll(pol: Policy, x: seq<byte>, d: pos, hash: nat -> nat, tab: Table, p: nat, q: nat)
    requires Periodic(x, d) && q < p < |x| && SamePlace(p, q, d)
    requires TakesMatch(pol, x, hash, tab, p, q, Put(tab, hash, p))
    ensures var len := LongestAllowed(pol, |x|, p, p - q);
            && 3 <= len <= |x| - p
            && Search(pol, x, hash, tab, p)
               == [Match(len, p - q)] + Search(pol, x, hash, After(tab, hash, p, p + len), p + len)
  {
    hide Search, Periodic, SameBytes, LongestAllowed;
    hide SamePlace;
    var tab' := Put(tab, hash, p);
    var len: nat :| Longest(pol, x, p, q, len)
      && var e := p + len;
         var t := tab'[hash(e - 2) % |tab'| := e - 2];
         Search(pol, x, hash, tab, p) == [Match(len, p - q)] + Search(pol, x, hash, t[hash(e - 1) % |t| := e - 1], e);
    LongestIs(pol, x, d, p, q, len);
  }

  // ---------- FastLZ ----------

  /** The positions of the first period do not get in the way of the first one of the second. */
  predicate SlotIsFree(hash: nat -> nat, d: nat, size: pos) {
    forall p :: 2 <= p < d ==> hash(p) % size != hash(d) % size
  }

  lemma {:induction false} FirstPeriod(pol: Policy, x: seq<byte>, d: pos, hash: nat -> nat, tab: Table, p: nat)
    requires FastLzCompress.IsFastLz(pol) && Periodic(x, d) && Distinct(x, d)
    requires 2 <= p <= d <= (if pol.FastLz1? then 8191 else 73724) && d + 15 <= |x|
    requires SlotIsFree(hash, d, |tab|) && Entry(tab, hash, d) == 0
    ensures Search(pol, x, hash, tab, p)
         == Between(x, p, d) + ([Match(|x| - 3 - d, d)] + Literals(x, |x| - 3))
    decreases d - p
  {
    hide Search, Worthwhile, SameBytes, Periodic, Distinct, Literals, Put, SlotIsFree;
    NoRun(x, d, p);
    if p < d {
      NothingYet(pol, x, d, p, Entry(tab, hash, p));
      TakesNothing(pol, x, hash, tab, p);
      StaysFree(hash, d, tab, p);
      FirstPeriod(pol, x, d, hash, Put(tab, hash, p), p + 1);
      var more := [Match(|x| - 3 - d, d)] + Literals(x, |x| - 3);
      assert Between(x, p, d) + more == [Lit(x[p])] + (Between(x, p + 1, d) + more);
    } else {
      Remainders(0, d);
      PeriodsBack(pol, x, d, d, 0);
      TakesEntry(pol, x, d, hash, tab, d);
      SearchStops(pol, x, hash, After(tab, hash, d, |x| - 3), |x| - 3);
      assert Between(x, d, d) == [];
    }
  }

  lemma {:induction false} StaysFree(hash: nat -> nat, d: nat, tab: Table, p: nat)
    requires SlotIsFree(hash, d, |tab|) && 2 <= p < d
    ensures Entry(Put(tab, hash, p), hash, d) == Entry(tab, hash, d)
  {
  }

  /**
   FastLZ makes of periodic input its first period and a single match, so that no more than a
   byte per 87 or 255 bytes is left of the rest.
   */
  lemma {:induction false} FastLzShrinks(pol: Policy, x: seq<byte>, d: pos, hash: nat -> nat)
    requires FastLzCompress.IsFastLz(pol) && Periodic(x, d) && Distinct(x, d) && SlotIsFree(hash, d, 8192)
    requires 2 <= d <= (if pol.FastLz1? then 8191 else 73724) && d + 15 <= |x|
    ensures |FastLzCompress.Compressed(pol, x, hash)|
         <= d + (d + 31) / 32 + 4 + if pol.FastLz1? then 3 + 3 * (|x| / 262) else 5 + |x| / 255
  {
    hide CopyBytes, Periodic, Distinct, SlotIsFree, FastLzCompress.Compressed;
    var len: nat := |x| - 3 - d;
    PeriodSize(pol, x, d, hash);
    CopySize(Wire(pol), len, d);
    DivideMonotone(len, |x|, 262);
    DivideMonotone(len, |x|, 255);
  }

  lemma {:induction false} PeriodSize(pol: Policy, x: seq<byte>, d: pos, hash: nat -> nat)
    requires FastLzCompress.IsFastLz(pol) && Periodic(x, d) && Distinct(x, d) && SlotIsFree(hash, d, 8192)
    requires 2 <= d <= (if pol.FastLz1? then 8191 else 73724) && d + 15 <= |x|
    ensures |FastLzCompress.Compressed(pol, x, hash)|
         == d + (d + 31) / 32 + |CopyBytes(Wire(pol), |x| - 3 - d, d)| + 4
  {
    hide Emit, CopyBytes, Periodic, Distinct, SlotIsFree, FastLzCompress.Compressed, Tokens, Literals, Between;
    var n := |x| - 3;
    PeriodTokens(pol, x, d, hash);
    CompressedIs(pol, x, hash);
    LiteralsBefore(Wire(pol), [], x, 0, d, n - d, d, Literals(x, n));
    FastLz.LiteralsSize(Wire(pol), x, n, []);
  }

  lemma {:induction false} PeriodTokens(pol: Policy, x: seq<byte>, d: pos, hash: nat -> nat)
    requires FastLzCompress.IsFastLz(pol) && Periodic(x, d) && Distinct(x, d) && SlotIsFree(hash, d, 8192)
    requires 2 <= d <= (if pol.FastLz1? then 8191 else 73724) && d + 15 <= |x|
    ensures Tokens(pol, x, hash, FastLzCompress.EmptyTable())
         == Between(x, 0, d) + ([Match(|x| - 3 - d, d)] + Literals(x, |x| - 3))
  {
    hide Search, Periodic, Distinct, SlotIsFree, Between, Literals;
    var tab: Table, n := FastLzCompress.EmptyTable(), |x| - 3;
    FirstPeriod(pol, x, d, hash, tab, 2);
    TwoFirst(x, d);
  }

  lemma {:induction false} CompressedIs(pol: Policy, x: seq<byte>, hash: nat -> nat)
    requires FastLzCompress.IsFastLz(pol) && x != []
    ensures |FastLzCompress.Compressed(pol, x, hash)|
         == |Emit(Wire(pol), [], Tokens(pol, x, hash, FastLzCompress.EmptyTable()))|
  {
    hide Emit, Tokens;
  }

  lemma {:induction false} TwoFirst(x: seq<byte>, d: pos)
    requires 2 <= d <= |x|
    ensures Between(x, 0, d) == [Lit(x[0]), Lit(x[1])] + Between(x, 2, d)
  {
    assert Between(x, 0, d) == [Lit(x[0])] + ([Lit(x[1])] + Between(x, 2, d));
  }

  // ---------- LZF ----------

  predicate SameSlot(hash: nat -> nat, size: pos, a: nat, b: nat) {
    hash(a) % size == hash(b) % size
  }

  /** Positions share a slot if and only if they are at the same place of the period. */
  predicate NoCollision(hash: nat -> nat, n: nat, d: pos, size: pos) {
    forall a, b :: 0 <= a < n && 0 <= b < n ==> (SameSlot(hash, size, a, b) <==> SamePlace(a, b, d))
  }

  /** The slots of all positions before `p` hold positions at their place of the period. */
  predicate Entered(tab: Table, hash: nat -> nat, n: nat, d: pos, p: nat) {
    forall a :: 0 <= a < n && a < p ==> Entry(tab, hash, a) < p && SamePlace(a, Entry(tab, hash, a), d)
  }

  /** So do those of all positions, and none holds the first one, which counts as no position. */
  predicate Full(tab: Table, hash: nat -> nat, n: nat, d: pos, p: nat) {
    forall a :: 0 <= a < n ==> 0 < Entry(tab, hash, a) < p && SamePlace(a, Entry(tab, hash, a), d)
  }

  lemma {:induction false} EntryOfPut(tab: Table, hash: nat -> nat, p: nat, a: nat)
    ensures Entry(Put(tab, hash, p), hash, a) == if SameSlot(hash, |tab|, a, p) then p else Entry(tab, hash, a)
  {
  }

  lemma {:induction false} SameEntry(tab: Table, hash: nat -> nat, a: nat, b: nat)
    requires SameSlot(hash, |tab|, a, b)
    ensures Entry(tab, hash, a) == Entry(tab, hash, b)
  {
  }

  lemma {:induction false} EnterNext(tab: Table, hash: nat -> nat, n: nat, d: pos, p: nat)
    requires NoCollision(hash, n, d, |tab|) && p < n
    ensures Entered(tab, hash, n, d, p) ==> Entered(Put(tab, hash, p), hash, n, d, p + 1)
    ensures Full(tab, hash, n, d, p) && p > 0 ==> Full(Put(tab, hash, p), hash, n, d, p + 1)
  {
    hide Entry, Put, SameSlot;
    var t := Put(tab, hash, p);
    if Entered(tab, hash, n, d, p) {
      forall a: nat | a < n && a < p + 1
        ensures Entry(t, hash, a) < p + 1 && SamePlace(a, Entry(t, hash, a), d)
      {
        EntryOfPut(tab, hash, p, a);
      }
    }
    if Full(tab, hash, n, d, p) && p > 0 {
      forall a: nat | a < n
        ensures 0 < Entry(t, hash, a) < p + 1 && SamePlace(a, Entry(t, hash, a), d)
      {
        EntryOfPut(tab, hash, p, a);
      }
    }
  }

  lemma {:induction false} FullLater(tab: Table, hash: nat -> nat, n: nat, d: pos, p: nat, e: nat)
    requires Full(tab, hash, n, d, p) && p <= e
    ensures Full(tab, hash, n, d, e)
  {
  }

  lemma {:induction false} FullAfter(tab: Table, hash: nat -> nat, n: nat, d: pos, p: nat, e: nat)
    requires NoCollision(hash, n, d, |tab|) && Full(tab, hash, n, d, p) && 0 < p && p + 3 <= e <= n
    ensures Full(After(tab, hash, p, e), hash, n, d, e)
  {
    hide Full, NoCollision;
    EnterNext(tab, hash, n, d, p);
    var one := Put(tab, hash, p);
    FullLater(one, hash, n, d, p + 1, e - 2);
    EnterNext(one, hash, n, d, e - 2);
    EnterNext(one[hash(e - 2) % |tab| := e - 2], hash, n, d, e - 1);
  }

  /** After the first period and one position more the table is full. */
  lemma {:induction false} FirstIsFull(tab: Table, hash: nat -> nat, n: nat, d: pos)
    requires NoCollision(hash, n, d, |tab|) && Entered(tab, hash, n, d, d + 1) && d < n && Entry(tab, hash, d) == d
    ensures Full(tab, hash, n, d, d + 1)
  {
    hide Entry, SameSlot;
    forall a: nat | a < n
      ensures 0 < Entry(tab, hash, a) < d + 1 && SamePlace(a, Entry(tab, hash, a), d)
    {
      var b := FirstAt(a, d);
      SameEntry(tab, hash, a, b);
      NotZero(a, b, d, Entry(tab, hash, b));
    }
  }

  /** The position of the first period, but for its first one the next, at the same place. */
  lemma {:induction false} FirstAt(a: nat, d: pos) returns (b: nat)
    ensures 0 < b <= d && SamePlace(a, b, d)
  {
    Remainders(a, d);
    b := if a % d == 0 then d else a % d;
  }

  lemma {:induction false} NotZero(a: nat, b: nat, d: pos, e: nat)
    requires 0 < b <= d && SamePlace(a, b, d) && SamePlace(b, e, d) && (b == d ==> e == d)
    ensures 0 < e && SamePlace(a, e, d)
  {
    Remainders(0, d);
    if b < d {
      DivideUnique(b, d, 0, b);
    }
  }

  lemma {:induction false} LiteralPeriod(x: seq<byte>, d: pos, hash: nat -> nat, tab: Table, p: nat)
    returns (t: Table)
    requires Distinct(x, d) && NoCollision(hash, |x|, d, |tab|) && p <= d + 1 && d + 3 < |x|
    requires Entered(tab, hash, |x|, d, p) && (p == d + 1 ==> Entry(tab, hash, d) == d)
    ensures |t| == |tab| && Full(t, hash, |x|, d, d + 1)
    ensures Search(Lzf, x, hash, tab, p) == Between(x, p, d + 1) + Search(Lzf, x, hash, t, d + 1)
    decreases d + 1 - p
  {
    hide Search, Worthwhile, Distinct, NoCollision, Entered, Full, Put;
    if p == d + 1 {
      t := tab;
      FirstIsFull(tab, hash, |x|, d);
      assert Between(x, p, d + 1) == [];
    } else {
      NothingYet(Lzf, x, d, p, Entry(tab, hash, p));
      TakesNothing(Lzf, x, hash, tab, p);
      EnterNext(tab, hash, |x|, d, p);
      PutIsThere(tab, hash, p);
      t := LiteralPeriod(x, d, hash, Put(tab, hash, p), p + 1);
      assert [Lit(x[p])] + (Between(x, p + 1, d + 1) + Search(Lzf, x, hash, t, d + 1))
          == Between(x, p, d + 1) + Search(Lzf, x, hash, t, d + 1);
    }
  }

  lemma {:induction false} PutIsThere(tab: Table, hash: nat -> nat, p: nat)
    ensures Entry(Put(tab, hash, p), hash, p) == p
  {
  }

  /** What up to `n` bytes from `p` on become. */
  function MatchesSize(n: nat, p: nat): nat {
    if p + 2 < n then 3 * ((n - 2 - p) / 264 + 1) else 0
  }

  /** Behind them everything is matches, and each of them but the last one stands for 264 bytes. */
  lemma {:induction false} MatchesFollow(x: seq<byte>, d: pos, hash: nat -> nat, tab: Table, p: nat)
    requires Periodic(x, d) && NoCollision(hash, |x|, d, |tab|) && Full(tab, hash, |x|, d, p)
    requires d < p <= |x| <= 8192
    ensures var toks := Search(Lzf, x, hash, tab, p);
            && |Emit(Short, [], toks)| <= 3 + MatchesSize(|x|, p)
            && (p + 2 < |x| ==> toks != [] && toks[0].Match?)
    decreases |x| - p
  {
    hide Periodic, NoCollision, Full, Emit, CopyBytes, MatchesSize;
    var n := |x|;
    if p + 2 >= n {
      SearchStops(Lzf, x, hash, tab, p);
      FastLz.LiteralsSize(Short, x, p, []);
    } else {
      hide Search, Worthwhile, After, LongestAllowed;
      var len, dist := NextMatch(x, d, hash, tab, p);
      FullAfter(tab, hash, n, d, p, p + len);
      var t := After(tab, hash, p, p + len);
      MatchesFollow(x, d, hash, t, p + len);
      OneMatch(n, p, len, dist, Search(Lzf, x, hash, t, p + len));
    }
  }

  lemma {:induction false} NextMatch(x: seq<byte>, d: pos, hash: nat -> nat, tab: Table, p: nat)
    returns (len: nat, dist: pos)
    requires Periodic(x, d) && Full(tab, hash, |x|, d, p) && p + 2 < |x| <= 8192
    ensures 3 <= len <= |x| - p && len == LongestAllowed(Lzf, |x|, p, dist)
    ensures Search(Lzf, x, hash, tab, p)
         == [Match(len, dist)] + Search(Lzf, x, hash, After(tab, hash, p, p + len), p + len)
  {
    hide Search, Worthwhile, Periodic, Full, LongestAllowed, After, Entry, SamePlace;
    EntryIsBack(x, d, hash, tab, p);
    TakesEntry(Lzf, x, d, hash, tab, p);
    dist := p - Entry(tab, hash, p);
    len := LongestAllowed(Lzf, |x|, p, dist);
  }

  lemma {:induction false} EntryIsBack(x: seq<byte>, d: pos, hash: nat -> nat, tab: Table, p: nat)
    requires Periodic(x, d) && Full(tab, hash, |x|, d, p) && p + 2 < |x| <= 8192
    ensures var q := Entry(tab, hash, p); 0 < q < p && SamePlace(p, q, d) && Worthwhile(Lzf, x, p, q)
  {
    FullAt(tab, hash, |x|, d, p, p);
    hide Worthwhile, Periodic, Full, Entry, SamePlace;
    PeriodsBack(Lzf, x, d, p, Entry(tab, hash, p));
  }

  lemma {:induction false} OneMatch(n: nat, p: nat, len: nat, dist: pos, rest: seq<Token>)
    requires p + 2 < n && 3 <= len && len == LongestAllowed(Lzf, n, p, dist)
    requires |Emit(Short, [], rest)| <= 3 + MatchesSize(n, p + len)
    ensures |Emit(Short, [], [Match(len, dist)] + rest)| <= 3 + MatchesSize(n, p)
  {
    hide Emit, CopyBytes;
    MatchEmits(Short, [], [], len, dist, rest);
    CopySize(Short, len, dist);
    RoomShrinks(n - 2 - p, len);
  }

  lemma {:induction false} FullAt(tab: Table, hash: nat -> nat, n: nat, d: pos, p: nat, a: nat)
    requires Full(tab, hash, n, d, p) && a < n
    ensures 0 < Entry(tab, hash, a) < p && SamePlace(a, Entry(tab, hash, a), d)
  {
  }

  lemma {:induction false} RoomShrinks(room: nat, len: nat)
    requires 0 < room && (room >= 264 ==> len == 264) && (room < 264 ==> len >= room)
    ensures len < room ==> (room - len) / 264 + 1 == room / 264
  {
  }

  /**
   LZF makes of up to 8192 bytes of periodic input its first period and matches of 264 bytes,
   whatever the table holds to begin with.
   */
  lemma {:induction false} LzfShrinks(x: seq<byte>, d: pos, hash: nat -> nat, tab: Table)
    requires Periodic(x, d) && Distinct(x, d) && NoCollision(hash, |x|, d, |tab|) && d + 3 < |x| <= 8192
    ensures |Emit(Short, [], Tokens(Lzf, x, hash, tab))| <= (d + 1) + (d + 32) / 32 + 3 * ((|x| - 3 - d) / 264 + 2)
  {
    hide Periodic, Distinct, NoCollision, Full, Search, Emit, CopyBytes;
    var t := LiteralPeriod(x, d, hash, tab, 0);
    MatchesFollow(x, d, hash, t, d + 1);
    var toks := Search(Lzf, x, hash, t, d + 1);
    var len, dist, rest := toks[0].len, toks[0].dist, toks[1..];
    assert toks == [Match(len, dist)] + rest;
    LiteralsBefore(Short, [], x, 0, d + 1, len, dist, rest);
    MatchEmits(Short, [], [], len, dist, rest);
  }
}
