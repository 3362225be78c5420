/**
 The LZF encoder in C: the same search as FastLZ level 1 over a hash table that is
 never initialised, writing into an output buffer of limited size.
 */
module LzfCompress {
  import opened Bytes
  import opened LzFormat
  import opened LzSearch
  import opened LzBuffer

  const HSIZE := 65536
  const MAX_OFF := 8192
  const U64 := 0x1_0000_0000_0000_0000

  /** A table entry: any 32-bit offset from the start of the input. */
  type Offset = o: nat | o < U32

  // ---------- What the encoder writes ----------

  /**
   The encoder's capacity tests, for `left` input bytes to go, `done` finished output
   bytes and `run` pending literals: one byte per literal, four after a closed run per
   match, and three for the last bytes, all counting the header reserved for a run.
   */
  predicate Fits(toks: seq<Token>, left: int, done: nat, run: nat, cap: nat)
    decreases |toks|
  {
    if left <= 2 then done + 1 + run + 3 <= cap
    else
      && toks != []
      && match toks[0]
         case Lit(_) =>
           && done + 1 + run < cap
           && (if run + 1 == MAX_RUN then Fits(toks[1..], left - 1, done + 33, 0, cap)
               else Fits(toks[1..], left - 1, done, run + 1, cap))
         case Match(len, dist) =>
           var closed := if run == 0 then done else done + run + 1;
           closed + 4 < cap && Fits(toks[1..], left - len, closed + |CopyBytes(Short, len, dist)|, 0, cap)
  }

  /** The compressed form of `x`, or nothing when `x` is empty or the capacity too small. */
  function Compressed(x: seq<byte>, hash: nat -> nat, tab: Table, cap: nat): seq<byte> {
    var toks := Tokens(Lzf, x, hash, tab);
    if x == [] || cap == 0 || !Fits(toks, |x|, 0, 0, cap) then [] else Emit(Short, [], toks)
  }

  // ---------- Matches ----------

  /** A difference of positions in unsigned 64-bit arithmetic: negative ones become too large for any reach. */
  function Wrapped(d: int): (r: nat)
    requires -U32 <= d < U32
    ensures if 0 <= d then r == d else r >= MAX_OFF
  {
    d % U64
  }

  /**
   Looks up and replaces the table entry of `ip`. The entry may be anything: the
   unsigned difference and the test against the start of the input rule out all
   that are not earlier positions within reach.
   */
  method FindMatch(x: seq<byte>, hash: nat -> nat, htab: array<Offset>, ip: nat) returns (dist: nat)
    requires ip + 2 < |x| < U32 && htab.Length == HSIZE
    modifies htab
    ensures var s := Next(Lzf, x, hash, old(htab[..]), ip);
            if dist == 0 then s == Step(Lit(x[ip]), htab[..], ip + 1)
            else
              && Acceptable(Lzf, x, ip, dist)
              && var q := MatchEnd(Lzf, x, ip, dist);
                 s == Step(Match(q - ip, dist), Learn(htab[..], hash, q), q)
  {
    hide MatchEnd, Learn, Wrapped;
    var hslot := hash(ip) % HSIZE;
    var ref := htab[hslot];
    htab[hslot] := ip;
    var off := Wrapped(ip - ref - 1);
    if off < MAX_OFF && ref > 0
      && x[ref + 2] == x[ip + 2] && x[ref + 1] == x[ip + 1] && x[ref] == x[ip]
    {
      return off + 1;
    }
    return 0;
  }

  /** Sixteen comparisons that need no check against the end of the input. */
  method CompareSixteen(x: seq<byte>, ip: nat, dist: pos) returns (len: nat, differ: bool)
    requires dist <= ip && ip + 19 <= |x| && Repeats(x, dist, ip, ip + 3)
    ensures 3 <= len <= 18 && (!differ ==> len == 18)
    ensures Repeats(x, dist, ip, if differ then ip + len else ip + len + 1)
    ensures differ ==> x[ip + len] != x[ip + len - dist]
  {
    len, differ := 2, false;
    while len < 18 && !differ
      invariant 2 <= len <= 18
      invariant Repeats(x, dist, ip, if differ then ip + len else ip + len + 1)
      invariant differ ==> len > 2 && x[ip + len] != x[ip + len - dist]
      decreases 18 - len, !differ
    {
      len := len + 1;
      differ := x[ip + len - dist] != x[ip + len];
    }
  }

  /** One byte more without a comparison, then on as long as the bytes agree and the maximum is not reached. */
  method CompareChecked(x: seq<byte>, ip: nat, dist: pos, start: nat, maxlen: nat) returns (len: nat)
    requires dist <= ip && ip + Max(start + 1, maxlen) <= |x| && Repeats(x, dist, ip, ip + start + 1)
    ensures start < len <= Max(start + 1, maxlen) && Repeats(x, dist, ip, ip + len)
    ensures len < Max(start + 1, maxlen) ==> x[ip + len] != x[ip + len - dist]
  {
    len := start + 1;
    while len < maxlen && x[ip + len - dist] == x[ip + len]
      invariant start < len <= Max(start + 1, maxlen) && Repeats(x, dist, ip, ip + len)
    {
      len := len + 1;
    }
  }

  /** The number of octets of a match. */
  method MatchLength(x: seq<byte>, ip: nat, dist: pos) returns (len: nat)
    requires ip + 2 < |x| && Acceptable(Lzf, x, ip, dist)
    ensures ip + len == MatchEnd(Lzf, x, ip, dist)
  {
    len := 2;
    var maxlen: nat := |x| - ip - len;
    maxlen := if maxlen > MAX_REF then MAX_REF else maxlen;
    var differ := false;
    if maxlen > 16 {
      len, differ := CompareSixteen(x, ip, dist);
    }
    if !differ {
      len := CompareChecked(x, ip, dist, len, maxlen);
    }
    StretchUnique(x, dist, ip + 3, Reach(Lzf, |x|, ip, dist), ip + len);
  }

  // ---------- Literal runs ----------

  /**
   Finished output, a reserved header, and an open literal run. The header of an empty
   run may lie past the end of the buffer: `op` can stand one past it.
   */
  ghost predicate OpenRun(output: array<byte>, op: nat, done: seq<byte>, run: seq<byte>)
    reads output
  {
    && |run| < MAX_RUN && op == |done| + 1 + |run|
    && |done| <= output.Length && output[..|done|] == done
    && (run != [] ==> op <= output.Length && output[|done| + 1..op] == run)
  }

  /** Stores the length of the open run, and steps back over the header when the run is empty. */
  method StopRun(output: array<byte>, start: nat, lit: nat, ghost done: seq<byte>,
                 ghost run: seq<byte>) returns (op: nat)
    requires OpenRun(output, start, done, run) && lit == |run| && |done| < output.Length
    modifies output
    ensures op == |done + RunBytes(run)| && output[..op] == done + RunBytes(run)
  {
    op := start;
    if lit == 0 {
      output[op - lit - 1] := U8(lit - 1);
    } else {
      PatchHeader(output, op - lit - 1, op, U8(lit - 1), done, run);
    }
    op := op - (if lit == 0 then 1 else 0);
  }

  /** One more literal; a full run is stopped and a new one started. */
  method PutLiteral(output: array<byte>, start: nat, b: byte, copied: nat, ghost done: seq<byte>, ghost run: seq<byte>)
    returns (op: nat, lit: nat)
    requires OpenRun(output, start, done, run) && copied == |run| && start < output.Length
    modifies output
    ensures var (done', run') := Advance(done, run, b);
            OpenRun(output, op, done', run') && lit == |run'|
  {
    op := Put(output, start, b);
    assert output[..op][..|done|] == done;
    assert output[..op][|done| + 1..] == run + [b];
    lit := copied + 1;
    if lit == MAX_RUN {
      assert output[..|done|] == done && output[|done| + 1..op] == run + [b];
      PatchHeader(output, op - lit - 1, op, U8(lit - 1), done, run + [b]);
      lit := 0;
      op := op + 1;
    }
  }

  /** Stops the open run and writes the match after it. */
  method EncodeMatch(x: seq<byte>, output: array<byte>, start: nat, dist: pos, begin: nat, lit: nat,
                     ghost done: seq<byte>, ghost run: seq<byte>)
    returns (len: nat, op: nat)
    requires start + 2 < |x| && Acceptable(Lzf, x, start, dist)
    requires OpenRun(output, begin, done, run) && lit == |run|
    requires |done + RunBytes(run)| + 4 < output.Length
    modifies output
    ensures start + len == MatchEnd(Lzf, x, start, dist)
    ensures op < output.Length && output[..op] == done + RunBytes(run) + CopyBytes(Short, len, dist)
  {
    hide RunBytes, OpenRun, Repeats, Reach;
    op := StopRun(output, begin, lit, done, run);
    len := MatchLength(x, start, dist);
    var off, l := dist - 1, len - 2;
    if l < 7 {
      op := Put(output, op, off / 256 + l * 32);
    } else {
      op := Put(output, op, off / 256 + 7 * 32);
      op := Put(output, op, l - 7);
    }
    op := Put(output, op, off);
  }

  /** The two positions before `q` are hashed (the encoder's VERY_FAST mode). */
  method UpdateHash(hash: nat -> nat, htab: array<Offset>, q: nat)
    requires htab.Length == HSIZE && 2 <= q < U32
    modifies htab
    ensures htab[..] == Learn(old(htab[..]), hash, q)
  {
    var ip := q - 2;
    htab[hash(ip) % HSIZE] := ip;
    ip := ip + 1;
    htab[hash(ip) % HSIZE] := ip;
  }

  // ---------- The main loop ----------

  /** Between two steps the buffer and the work to do make up `whole`, and the capacity verdict stands. */
  ghost predicate Underway(x: seq<byte>, hash: nat -> nat, tab: Table, output: array<byte>,
                           ip: nat, op: nat, lit: nat, done: seq<byte>, whole: seq<byte>, fits: bool)
    reads output
  {
    && lit <= ip <= |x|
    && OpenRun(output, op, done, x[ip - lit..ip])
    && done + Emit(Short, x[ip - lit..ip], Search(Lzf, x, hash, tab, ip)) == whole
    && fits == Fits(Search(Lzf, x, hash, tab, ip), |x| - ip, |done|, lit, output.Length)
  }

  lemma {:induction false} FitsRest(toks: seq<Token>, left: int, done: nat, run: nat, cap: nat)
    requires left <= 2
    ensures Fits(toks, left, done, run, cap) == (done + 1 + run + 3 <= cap)
  {
  }

  lemma {:induction false} FitsLiteral(b: byte, toks: seq<Token>, left: int, done: seq<byte>, run: seq<byte>, cap: nat)
    requires left > 2 && |run| < MAX_RUN
    ensures var (done', run') := Advance(done, run, b);
            Fits([Lit(b)] + toks, left, |done|, |run|, cap)
            == (|done| + 1 + |run| < cap && Fits(toks, left - 1, |done'|, |run'|, cap))
  {
    assert ([Lit(b)] + toks)[1..] == toks;
  }

  lemma {:induction false} FitsMatch(len: nat, dist: pos, toks: seq<Token>, left: int, done: seq<byte>,
                          run: seq<byte>, cap: nat)
    requires left > 2
    ensures var closed := done + RunBytes(run);
            Fits([Match(len, dist)] + toks, left, |done|, |run|, cap)
            == (|closed| + 4 < cap && Fits(toks, left - len, |closed + CopyBytes(Short, len, dist)|, 0, cap))
  {
    assert ([Match(len, dist)] + toks)[1..] == toks;
  }

  /** A literal; false when there is no room for it. */
  method LiteralStep(x: seq<byte>, ghost hash: nat -> nat, ghost tab: Table, output: array<byte>, start: nat,
                     begin: nat,
                     copied: nat, ghost done: seq<byte>, ghost whole: seq<byte>, ghost fits: bool)
    returns (ok: bool, op: nat, lit: nat, ghost done': seq<byte>)
    requires start + 2 < |x| && Underway(x, hash, tab, output, start, begin, copied, done, whole, fits)
    requires Next(Lzf, x, hash, tab, start).tok == Lit(x[start])
    modifies output
    ensures !ok ==> !fits
    ensures ok ==> Underway(x, hash, Next(Lzf, x, hash, tab, start).tab, output, start + 1, op, lit, done', whole, fits)
  {
    hide Emit, RunBytes, CopyBytes, Search, MatchEnd, Acceptable, Learn, Fits;
    ghost var run, s := x[start - copied..start], Next(Lzf, x, hash, tab, start);
    ghost var rest := Search(Lzf, x, hash, s.tab, s.next);
    SearchStep(Lzf, x, hash, tab, start);
    FitsLiteral(x[start], rest, |x| - start, done, run, output.Length);
    if begin >= output.Length { return false, begin, copied, done; }
    AdvanceEmits(Short, done, run, x[start], rest);
    op, lit := PutLiteral(output, begin, x[start], copied, done, run);
    done' := Advance(done, run, x[start]).0;
    RunGrows(x, start, copied, done);
    ok := true;
  }

  /** A match; false when there is no room for it. */
  method MatchStep(x: seq<byte>, ghost hash: nat -> nat, ghost tab: Table, output: array<byte>, start: nat, dist: pos,
                   begin: nat, lit: nat, ghost done: seq<byte>, ghost whole: seq<byte>, ghost fits: bool)
    returns (ok: bool, ip: nat, op: nat, ghost done': seq<byte>)
    requires start + 2 < |x| && Underway(x, hash, tab, output, start, begin, lit, done, whole, fits)
    requires Acceptable(Lzf, x, start, dist)
    requires var s := Next(Lzf, x, hash, tab, start);
             s.next == MatchEnd(Lzf, x, start, dist) && s.tok == Match(s.next - start, dist)
    modifies output
    ensures !ok ==> !fits
    ensures ok ==> var s := Next(Lzf, x, hash, tab, start);
                   ip == s.next && Underway(x, hash, s.tab, output, ip, op, 0, done', whole, fits)
  {
    hide Emit, RunBytes, CopyBytes, Search, MatchEnd, Acceptable, Learn, Fits, Next;
    ghost var run, s := x[start - lit..start], Next(Lzf, x, hash, tab, start);
    ghost var rest := Search(Lzf, x, hash, s.tab, s.next);
    SearchStep(Lzf, x, hash, tab, start);
    FitsMatch(s.next - start, dist, rest, |x| - start, done, run, output.Length);
    MatchEmits(Short, done, run, s.next - start, dist, rest);
    if begin + 3 + 1 >= output.Length {
      if begin - (if lit == 0 then 1 else 0) + 3 + 1 >= output.Length { return false, start, begin, done; }
    }
    var len;
    len, op := EncodeMatch(x, output, start, dist, begin, lit, done, run);
    ip := start + len;
    done' := output[..op];
    op := op + 1;
    assert x[ip..ip] == [];
    ok := true;
  }

  /** The last one or two bytes; three bytes of room have been checked for. */
  method PutRest(x: seq<byte>, output: array<byte>, start: nat, begin: nat, copied: nat, ghost done: seq<byte>)
    returns (op: nat)
    requires copied <= start <= |x| <= start + 2 && begin + 3 <= output.Length
    requires OpenRun(output, begin, done, x[start - copied..start])
    modifies output
    ensures op <= output.Length
    ensures output[..op] == done + Emit(Short, x[start - copied..start], Literals(x, start))
  {
    hide Emit, RunBytes, Literals;
    var ip, lit: nat := start, copied;
    op := begin;
    ghost var before, whole := done, done + Emit(Short, x[ip - lit..ip], Literals(x, ip));
    while ip < |x|
      invariant lit <= ip <= |x| && start <= ip
      invariant op == begin + (ip - start) || (op == begin + (ip - start) + 1 && lit <= ip - start)
      invariant OpenRun(output, op, before, x[ip - lit..ip])
      invariant before + Emit(Short, x[ip - lit..ip], Literals(x, ip)) == whole
    {
      ghost var run := x[ip - lit..ip];
      RestStep(Short, x, ip, lit, before);
      RunGrows(x, ip, lit, before);
      op, lit := PutLiteral(output, op, x[ip], lit, before, run);
      before := Advance(before, run, x[ip]).0;
      ip := ip + 1;
    }
    RestEnds(Short, x, x[ip - lit..ip]);
    op := StopRun(output, op, lit, before, x[ip - lit..ip]);
  }

  lemma {:induction false} StartsUnderway(x: seq<byte>, hash: nat -> nat, tab: Table, output: array<byte>)
    ensures var toks := Tokens(Lzf, x, hash, tab);
            Underway(x, hash, tab, output, 0, 1, 0, [], Emit(Short, [], toks), Fits(toks, |x|, 0, 0, output.Length))
  {
    hide Emit, Search, Fits;
    assert x[0..0] == [] && output[..0] == [];
  }

  /** The search up to the last two bytes; false when a capacity test failed. */
  method MainLoop(x: seq<byte>, htab: array<Offset>, hash: nat -> nat, output: array<byte>,
                  ghost whole: seq<byte>, ghost fits: bool)
    returns (ok: bool, ip: nat, op: nat, lit: nat, ghost done: seq<byte>)
    requires |x| < U32 && htab.Length == HSIZE
    requires Underway(x, hash, htab[..], output, 0, 1, 0, [], whole, fits)
    modifies htab, output
    ensures htab.Length == HSIZE
    ensures if ok then ip <= |x| <= ip + 2 && Underway(x, hash, htab[..], output, ip, op, lit, done, whole, fits)
            else !fits
  {
    hide Emit, Fits, Search, Literals, Next, MatchEnd, Acceptable, Learn;
    ok, ip, op, lit, done := true, 0, 1, 0, [];
    while ip + 2 < |x|
      invariant Underway(x, hash, htab[..], output, ip, op, lit, done, whole, fits)
      decreases |x| - ip
    {
      ghost var tab := htab[..];
      var dist := FindMatch(x, hash, htab, ip);
      if dist > 0 {
        ok, ip, op, done := MatchStep(x, hash, tab, output, ip, dist, op, lit, done, whole, fits);
        if !ok { return; }
        lit := 0;
        if ip + 2 >= |x| {
          SearchStops(Lzf, x, hash, htab[..], ip);
          SearchStops(Lzf, x, hash, Learn(htab[..], hash, ip), ip);
          return;
        }
        UpdateHash(hash, htab, ip);
      } else {
        ok, op, lit, done := LiteralStep(x, hash, tab, output, ip, op, lit, done, whole, fits);
        if !ok { return; }
        ip := ip + 1;
      }
    }
  }

  /** The rest after the search, if there are three bytes of room. */
  method WriteRest(x: seq<byte>, ghost hash: nat -> nat, ghost tab: Table, output: array<byte>, ip: nat, op: nat,
                   lit: nat, ghost done: seq<byte>, ghost whole: seq<byte>, ghost fits: bool) returns (n: nat)
    requires ip <= |x| <= ip + 2 && Underway(x, hash, tab, output, ip, op, lit, done, whole, fits)
    modifies output
    ensures if fits then n == |whole| <= output.Length && output[..n] == whole else n == 0
  {
    hide Emit, Fits, Search, Literals;
    SearchStops(Lzf, x, hash, tab, ip);
    FitsRest(Literals(x, ip), |x| - ip, |done|, lit, output.Length);
    if op + 3 > output.Length { return 0; }
    n := PutRest(x, output, ip, op, lit, done);
    assert |output[..n]| == |whole|;
  }

  /**
   Compresses `x` into `output` if it fits, else returns 0. The contents of `htab` on
   entry are arbitrary, and nothing is ever written outside `output`.
   */
  method Compress(x: seq<byte>, htab: array<Offset>, hash: nat -> nat, output: array<byte>) returns (n: nat)
    requires |x| < U32 && htab.Length == HSIZE
    modifies htab, output
    ensures n == |Compressed(x, hash, old(htab[..]), output.Length)| <= output.Length
    ensures output[..n] == Compressed(x, hash, old(htab[..]), output.Length)
  {
    hide Emit, Fits, Tokens, Underway;
    if |x| == 0 || output.Length == 0 { return 0; }
    ghost var toks := Tokens(Lzf, x, hash, htab[..]);
    ghost var whole, fits := Emit(Short, [], toks), Fits(toks, |x|, 0, 0, output.Length);
    StartsUnderway(x, hash, htab[..], output);
    var ok, ip, op, lit;
    ghost var done;
    ok, ip, op, lit, done := MainLoop(x, htab, hash, output, whole, fits);
    if !ok { return 0; }
    n := WriteRest(x, hash, htab[..], output, ip, op, lit, done, whole, fits);
  }
}
