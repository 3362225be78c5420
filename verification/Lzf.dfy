/** What LZF promises: round trip over any hash table, expansion, and when the capacity is enough. */
module Lzf {
  import opened Arithmetic
  import opened Bytes
  import opened LzFormat
  import opened LzSearch
  import opened LzfCompress

  // ---------- Round trip ----------

  /** A nonzero result decodes to the input in a buffer of exactly its size, whatever was in the table. */
  lemma {:induction false} RoundTrip(x: seq<byte>, hash: nat -> nat, tab: Table, cap: nat)
    requires |x| < U32
    ensures var s := Compressed(x, hash, tab, cap); s != [] ==> Decode(Short, s, [], |x|) == Done(x)
  {
    hide Decode, Emit, Tokens, Fits;
    TokensDescribe(Lzf, x, hash, tab);
    EmitDecodes(Short, x, 0, [], Tokens(Lzf, x, hash, tab), |x|);
    assert x[..0] == [];
  }

  // ---------- Capacity ----------

  lemma {:induction false} EmitAtLeast(fmt: Format, run: seq<byte>, toks: seq<Token>)
    ensures |Emit(fmt, run, toks)| >= |RunBytes(run)|
    decreases |toks|
  {
    if toks != [] && toks[0].Lit? && |run| + 1 != MAX_RUN {
      EmitAtLeast(fmt, run + [toks[0].b], toks[1..]);
    }
  }

  /** When the capacity tests pass, the output fits. */
  lemma {:induction false} FitsIsSound(x: seq<byte>, p: nat, toks: seq<Token>, done: nat, run: seq<byte>, cap: nat)
    requires p <= |x| && Describes(Short, x, p, toks) && |run| < MAX_RUN
    requires Fits(toks, |x| - p, done, |run|, cap)
    ensures done + |Emit(Short, run, toks)| <= cap
    decreases |toks|
  {
    hide CopyBytes, RunBytes;
    if |x| - p <= 2 {
      EmitSize(Short, x, p, run, toks);
    } else {
      match toks[0]
      case Lit(b) =>
        if |run| + 1 == MAX_RUN {
          FitsIsSound(x, p + 1, toks[1..], done + 33, [], cap);
        } else {
          FitsIsSound(x, p + 1, toks[1..], done, run + [b], cap);
        }
      case Match(len, dist) =>
        FitsIsSound(x, p + len, toks[1..], done + |RunBytes(run)| + |CopyBytes(Short, len, dist)|, [], cap);
    }
  }

  /** Four bytes more than the output needs pass every capacity test. */
  lemma {:induction false} FitsWithSlack(x: seq<byte>, p: nat, toks: seq<Token>, done: nat, run: seq<byte>, cap: nat)
    requires p <= |x| && Describes(Short, x, p, toks) && |run| < MAX_RUN
    requires done + |Emit(Short, run, toks)| + 4 <= cap
    ensures Fits(toks, |x| - p, done, |run|, cap)
    decreases |toks|
  {
    hide CopyBytes, RunBytes;
    EmitAtLeast(Short, run, toks);
    if |x| - p > 2 {
      match toks[0]
      case Lit(b) =>
        if |run| + 1 == MAX_RUN {
          FitsWithSlack(x, p + 1, toks[1..], done + 33, [], cap);
        } else {
          EmitAtLeast(Short, run + [b], toks[1..]);
          FitsWithSlack(x, p + 1, toks[1..], done, run + [b], cap);
        }
      case Match(len, dist) =>
        FitsWithSlack(x, p + len, toks[1..], done + |RunBytes(run)| + |CopyBytes(Short, len, dist)|, [], cap);
    }
  }

  /** A capacity of n + n / 32 + 4 passes every capacity test. */
  lemma {:induction false} FitsAlways(x: seq<byte>, p: nat, toks: seq<Token>, done: nat, run: nat, cap: nat)
    requires run <= p <= |x| && Describes(Short, x, p, toks) && run < MAX_RUN
    requires done <= (p - run) + (p - run) / 32 && |x| + |x| / 32 + 4 <= cap
    ensures Fits(toks, |x| - p, done, run, cap)
    decreases |toks|
  {
    if |x| - p > 2 {
      match toks[0]
      case Lit(_) =>
        if run + 1 == MAX_RUN {
          FitsAlways(x, p + 1, toks[1..], done + 33, 0, cap);
        } else {
          FitsAlways(x, p + 1, toks[1..], done, run + 1, cap);
        }
      case Match(len, dist) =>
        CopySaves(Short, len, dist);
        var closed := if run == 0 then done else done + run + 1;
        FitsAlways(x, p + len, toks[1..], closed + |CopyBytes(Short, len, dist)|, 0, cap);
    }
  }

  /**
   The output for what begins before the last two bytes, an open run with its bytes but
   without its header; `left` input bytes are to go and `run` literals are pending.
   */
  function Searched(toks: seq<Token>, left: int, run: nat): nat
    decreases |toks|
  {
    if left <= 2 || toks == [] then run
    else
      match toks[0]
      case Lit(_) =>
        if run + 1 == 32 then 33 + Searched(toks[1..], left - 1, 0) else Searched(toks[1..], left - 1, run + 1)
      case Match(len, dist) =>
        (if run == 0 then 0 else run + 1) + |CopyBytes(Short, len, dist)| + Searched(toks[1..], left - len, 0)
  }

  /** Only the last capacity test counts: four bytes more than that have to be there. */
  lemma {:induction false} FitsIff(x: seq<byte>, p: nat, toks: seq<Token>, done: nat, run: nat, cap: nat)
    requires p <= |x| && Describes(Short, x, p, toks) && run < MAX_RUN
    ensures Fits(toks, |x| - p, done, run, cap) <==> done + Searched(toks, |x| - p, run) + 4 <= cap
    decreases |toks|
  {
    hide CopyBytes;
    if |x| - p > 2 {
      SearchedAtLeast(x, p, toks, run);
      match toks[0]
      case Lit(_) =>
        if run + 1 == MAX_RUN {
          FitsIff(x, p + 1, toks[1..], done + 33, 0, cap);
        } else {
          FitsIff(x, p + 1, toks[1..], done, run + 1, cap);
        }
      case Match(len, dist) =>
        var closed := if run == 0 then done else done + run + 1;
        FitsIff(x, p + len, toks[1..], closed + |CopyBytes(Short, len, dist)|, 0, cap);
    }
  }

  lemma {:induction false} SearchedAtLeast(x: seq<byte>, p: nat, toks: seq<Token>, run: nat)
    requires p <= |x| && Describes(Short, x, p, toks) && run < MAX_RUN
    ensures Searched(toks, |x| - p, run) >= run
    decreases |toks|
  {
    hide CopyBytes;
    if |x| - p > 2 && toks[0].Lit? && run + 1 != MAX_RUN {
      SearchedAtLeast(x, p + 1, toks[1..], run + 1);
    }
  }

  /** So the encoder gives up exactly when less than that is there, whatever the table holds. */
  lemma {:induction false} GivesUpIff(x: seq<byte>, hash: nat -> nat, tab: Table, cap: nat)
    requires 0 < |x| < U32
    ensures Compressed(x, hash, tab, cap) == [] <==> cap < Searched(Tokens(Lzf, x, hash, tab), |x|, 0) + 4
  {
    hide Fits, Tokens, Emit;
    var toks := Tokens(Lzf, x, hash, tab);
    TokensDescribe(Lzf, x, hash, tab);
    FitsIff(x, 0, toks, 0, 0, cap);
    FirstIsLiteral(x, hash, tab);
    EmitHead(Short, [], toks);
  }

  /** Of literals alone that is one byte each and a header for each full run of 32. */
  lemma {:induction false} LiteralsSearched(x: seq<byte>, p: nat, run: nat)
    requires p + 2 <= |x| && run < MAX_RUN
    ensures var m := run + |x| - p - 2; Searched(Literals(x, p), |x| - p, run) == m + m / 32
    decreases |x| - p
  {
    if p + 2 < |x| {
      LiteralsSearched(x, p + 1, if run + 1 == MAX_RUN then 0 else run + 1);
    }
  }

  /**
   A nonzero result stays within the capacity and within one byte more than the input
   per started group of 32; the encoder never gives up when the capacity is four more
   than the result, nor for any input when it is n + n / 32 + 4.
   */
  lemma {:induction false} Capacity(x: seq<byte>, hash: nat -> nat, tab: Table, cap: nat)
    requires 0 < |x| < U32
    ensures var s, full := Compressed(x, hash, tab, cap), Emit(Short, [], Tokens(Lzf, x, hash, tab));
            && |s| <= cap && |s| <= |x| + (|x| + 31) / 32
            && (cap >= |full| + 4 ==> s == full != [])
            && (cap >= |x| + |x| / 32 + 4 ==> s == full != [])
  {
    hide Emit, Fits, Tokens;
    var toks := Tokens(Lzf, x, hash, tab);
    TokensDescribe(Lzf, x, hash, tab);
    EmitSize(Short, x, 0, [], toks);
    if Fits(toks, |x|, 0, 0, cap) {
      FitsIsSound(x, 0, toks, 0, [], cap);
    }
    if cap >= |Emit(Short, [], toks)| + 4 {
      FitsWithSlack(x, 0, toks, 0, [], cap);
    }
    if cap >= |x| + |x| / 32 + 4 {
      FitsAlways(x, 0, toks, 0, 0, cap);
    }
    FirstIsLiteral(x, hash, tab);
    EmitHead(Short, [], toks);
  }

  /** No reference can reach before the first byte, so every stream begins with a literal run. */
  lemma {:induction false} FirstIsLiteral(x: seq<byte>, hash: nat -> nat, tab: Table)
    requires 0 < |x|
    ensures var toks := Tokens(Lzf, x, hash, tab); toks != [] && toks[0].Lit?
  {
  }

  // ---------- The chunk codec ----------

  /** The reserved bound, eight more than the product, as it is passed to the encoder: cut to 32 bits. */
  function ReservedCapacity(product: nat): nat {
    (product + 8) % U32
  }

  /** The guards of the encoder: there is room at all, and every capacity test passes. */
  predicate ChunkFits(x: seq<byte>, hash: nat -> nat, tab: Table, cap: nat) {
    cap != 0 && Fits(Tokens(Lzf, x, hash, tab), |x|, 0, 0, cap)
  }

  /** A chunk comes back from compression if and only if the encoder did not give up. */
  lemma {:induction false} ChunkRoundTrip(x: seq<byte>, hash: nat -> nat, tab: Table, cap: nat)
    requires 0 < |x| < U32
    ensures Decode(Short, Compressed(x, hash, tab, cap), [], |x|) == Done(x) <==> ChunkFits(x, hash, tab, cap)
  {
    hide Fits, Tokens, Emit;
    RoundTrip(x, hash, tab, cap);
    FirstIsLiteral(x, hash, tab);
    EmitHead(Short, [], Tokens(Lzf, x, hash, tab));
    if !ChunkFits(x, hash, tab, cap) {
      assert Decode(Short, [], [], |x|) == Done([]);
    }
  }

  /** It never gives up when the reserved bound, however it is rounded, is below 2^32, as it is up to 3.9e9 bytes. */
  lemma {:induction false} ReserveSuffices(x: seq<byte>, hash: nat -> nat, tab: Table, product: nat)
    requires 0 < |x| < U32 && IsFloatProduct(|x|, product)
    ensures |x| <= 3_900_000_000 ==> product + 8 < U32
    ensures product + 8 < U32 ==> ChunkFits(x, hash, tab, ReservedCapacity(product))
  {
    hide Fits, Tokens;
    if product + 8 < U32 {
      TokensDescribe(Lzf, x, hash, tab);
      FitsAlways(x, 0, Tokens(Lzf, x, hash, tab), 0, 0, product + 8);
    }
  }
}
