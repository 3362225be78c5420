/**
 The FastLZ encoder, both levels, writing into a caller's buffer without being told
 how large that buffer is.
 */
module FastLzCompress {
  import opened Bytes
  import opened LzFormat
  import opened LzSearch
  import opened LzBuffer

  const HASH_SIZE := 8192
  const MAX_LEN := 264
  const MAX_DISTANCE_1 := 8192
  const MAX_DISTANCE_2 := 8191
  const MAX_FARDISTANCE := 65535 + MAX_DISTANCE_2 - 1

  predicate IsFastLz(pol: Policy) {
    pol.FastLz1? || pol.FastLz2?
  }

  // ---------- What the encoder writes ----------

  function EmptyTable(): Table {
    seq(HASH_SIZE, _ => 0)
  }

  /** Sets bit 5 of the first byte, which tells level 2 from level 1. */
  function Mark(s: seq<byte>): seq<byte>
    requires s != []
  {
    [if s[0] / 32 % 2 == 1 then s[0] else U8(s[0] + 32)] + s[1..]
  }

  function Unmarked(pol: Policy, x: seq<byte>, hash: nat -> nat): seq<byte> {
    Emit(Wire(pol), [], Tokens(pol, x, hash, EmptyTable()))
  }

  /** The compressed form of `x`. Level 2 leaves inputs of less than four bytes unmarked. */
  function Compressed(pol: Policy, x: seq<byte>, hash: nat -> nat): seq<byte> {
    if x == [] then []
    else
      var s := Unmarked(pol, x, hash);
      if pol.FastLz2? && |x| >= 4 && s != [] then Mark(s) else s
  }

  // ---------- Following a match ----------

  /** A run of one byte: compares every byte before the current position with the run's byte. */
  method FollowRun(x: seq<byte>, anchor: nat) returns (ip: nat)
    requires 1 <= anchor && anchor + 12 < |x| && Repeats(x, 1, anchor, anchor + 3)
    ensures ip - 1 == Stretch(x, 1, anchor + 3, |x| - 3)
  {
    var bound := |x| - 2;
    ip := anchor + 3;
    var ref := ip - 1;
    var b := x[ip - 1];
    while ip < bound
      invariant anchor + 3 <= ip <= bound && ref == ip - 1
      invariant Repeats(x, 1, anchor, ip - 1) && x[ip - 2] == b
    {
      if x[ref] != b { break; }
      ref, ip := ref + 1, ip + 1;
    }
    assert ip > anchor + 3;
    StretchUnique(x, 1, anchor + 3, |x| - 3, ip - 1);
  }

  /** Eight comparisons that need no check against the bound; each one advances, also on a difference. */
  method CompareEight(x: seq<byte>, distance: pos, start: nat) returns (ip: nat, differ: bool)
    requires distance <= start && start + 8 <= |x|
    ensures start < ip <= start + 8 && (!differ ==> ip == start + 8)
    ensures Repeats(x, distance, start, if differ then ip - 1 else ip)
    ensures differ ==> x[ip - 1] != x[ip - 1 - distance]
  {
    ip, differ := start, false;
    while ip < start + 8 && !differ
      invariant start <= ip <= start + 8 && (differ ==> start < ip)
      invariant Repeats(x, distance, start, if differ then ip - 1 else ip)
      invariant differ ==> x[ip - 1] != x[ip - 1 - distance]
      decreases start + 8 - ip
    {
      differ := x[ip - distance] != x[ip];
      ip := ip + 1;
    }
  }

  /** Any other distance: eight unchecked comparisons, then checked ones. */
  method FollowMatch(x: seq<byte>, distance: pos, start: nat) returns (ip: nat)
    requires distance <= start && start + 8 <= |x|
    ensures ip - 1 == Stretch(x, distance, start, Max(start + 7, |x| - 3))
  {
    var bound, differ := |x| - 2, false;
    ip, differ := CompareEight(x, distance, start);
    while ip < bound && !differ
      invariant start < ip <= Max(start + 8, bound) && (!differ ==> ip >= start + 8)
      invariant Repeats(x, distance, start, if differ then ip - 1 else ip)
      invariant differ ==> x[ip - 1] != x[ip - 1 - distance]
      decreases Max(start + 8, bound) - ip
    {
      differ := x[ip - distance] != x[ip];
      ip := ip + 1;
    }
    StretchUnique(x, distance, start, Max(start + 7, |x| - 3), ip - 1);
  }

  /** One past the last position compared when a candidate's match is followed to its end. */
  method ExtendMatch(pol: Policy, x: seq<byte>, anchor: nat, dist: pos) returns (ip: nat)
    requires IsFastLz(pol) && 1 <= anchor && anchor + 12 < |x|
    requires Acceptable(pol, x, anchor, dist)
    ensures ip - 1 == MatchEnd(pol, x, anchor, dist)
  {
    if dist == 1 {
      ip := FollowRun(x, anchor);
    } else {
      ip := FollowMatch(x, dist, anchor + (if pol.FastLz2? && dist >= MAX_DISTANCE_2 then 5 else 3));
    }
  }

  // ---------- Writing ----------

  lemma {:induction false} ChainStep(k: nat)
    ensures k >= 255 ==> Chain(k) == [U8(255)] + Chain(k - 255)
    ensures k < 255 ==> Chain(k) == [U8(k)]
  {
  }

  /** One byte of 255 for each whole 255 of the length, and a last byte for the rest. */
  method WriteChain(output: array<byte>, start: nat, length: nat) returns (op: nat)
    requires start + |Chain(length)| <= output.Length
    modifies output
    ensures op == start + |Chain(length)|
    ensures output[..op] == old(output[..start]) + Chain(length)
  {
    hide Chain;
    op := start;
    var len := length;
    ghost var whole := output[..start] + Chain(length);
    while len >= 255
      invariant op + |Chain(len)| == start + |Chain(length)| && op <= output.Length
      invariant output[..op] + Chain(len) == whole
      decreases len
    {
      ChainStep(len);
      ghost var rest := Chain(len - 255);
      assert whole == (output[..op] + [U8(255)]) + rest;
      op := Put(output, op, 255);
      len := len - 255;
    }
    ChainStep(len);
    op := Put(output, op, len);
  }

  /** The length bytes of a level 2 match; `length` is biased by two. */
  method WriteLength(output: array<byte>, start: nat, length: nat, hi: nat) returns (op: nat)
    requires 1 <= length && hi < 32
    requires start + |LengthBytes(Extended, length + 2, hi)| <= output.Length
    modifies output
    ensures op == start + |LengthBytes(Extended, length + 2, hi)|
    ensures output[..op] == old(output[..start]) + LengthBytes(Extended, length + 2, hi)
  {
    if length < 7 {
      op := Put(output, start, length * 32 + hi);
    } else {
      hide Chain;
      op := Put(output, start, 7 * 32 + hi);
      op := WriteChain(output, op, length - 7);
    }
  }

  method WriteDistance(output: array<byte>, start: nat, distance: nat) returns (op: nat)
    requires start + |DistanceBytes(Extended, distance + 1)| <= output.Length
    modifies output
    ensures op == start + |DistanceBytes(Extended, distance + 1)|
    ensures output[..op] == old(output[..start]) + DistanceBytes(Extended, distance + 1)
  {
    if distance < MAX_DISTANCE_2 {
      op := Put(output, start, distance);
    } else {
      op := PutThree(output, start, 255, (distance - MAX_DISTANCE_2) / 256, distance - MAX_DISTANCE_2);
    }
  }

  lemma {:induction false} ShortStep(len: nat, distance: nat)
    requires len >= 1
    ensures CopyBytes(Short, len + 2, distance + 1) ==
            if len > 262 then
              [U8(7 * 32 + distance / 256), U8(253), U8(distance)] + CopyBytes(Short, len - 262 + 2, distance + 1)
            else if len < 7 then [U8(len * 32 + distance / 256), U8(distance)]
            else [U8(7 * 32 + distance / 256), U8(len - 7), U8(distance)]
  {
  }

  method WriteLast(output: array<byte>, start: nat, len: nat, distance: nat) returns (op: nat)
    requires 1 <= len <= MAX_LEN - 2
    requires start + |CopyBytes(Short, len + 2, distance + 1)| <= output.Length
    modifies output
    ensures op == start + |CopyBytes(Short, len + 2, distance + 1)|
    ensures output[..op] == old(output[..start]) + CopyBytes(Short, len + 2, distance + 1)
  {
    hide CopyBytes, U8;
    ShortStep(len, distance);
    if len < 7 {
      op := Put(output, start, len * 32 + distance / 256);
      op := Put(output, op, distance);
    } else {
      op := PutThree(output, start, 7 * 32 + distance / 256, len - 7, distance);
    }
  }

  /** A level 1 match, split into several of 262 bytes when it is longer than one can be. */
  method WriteShort(output: array<byte>, start: nat, length: nat, distance: nat) returns (op: nat)
    requires 1 <= length
    requires start + |CopyBytes(Short, length + 2, distance + 1)| <= output.Length
    modifies output
    ensures op == start + |CopyBytes(Short, length + 2, distance + 1)|
    ensures output[..op] == old(output[..start]) + CopyBytes(Short, length + 2, distance + 1)
  {
    hide CopyBytes, U8;
    op := start;
    var len := length;
    ghost var whole := output[..start] + CopyBytes(Short, length + 2, distance + 1);
    while len > MAX_LEN - 2
      invariant 1 <= len <= length
      invariant op + |CopyBytes(Short, len + 2, distance + 1)| == |whole| && op <= output.Length
      invariant output[..op] + CopyBytes(Short, len + 2, distance + 1) == whole
      decreases len
    {
      ShortStep(len, distance);
      ghost var before, rest := output[..op], CopyBytes(Short, len - 262 + 2, distance + 1);
      ghost var part := [U8(7 * 32 + distance / 256), U8(253), U8(distance)];
      assert before + (part + rest) == before + part + rest;
      op := PutThree(output, op, 7 * 32 + distance / 256, MAX_LEN - 2 - 7 - 2, distance);
      len := len - (MAX_LEN - 2);
    }
    op := WriteLast(output, op, len, distance);
  }

  /** Writes a match of `length + 2` bytes at distance `distance + 1`: both are biased. */
  method WriteMatch(fmt: Format, output: array<byte>, start: nat, length: nat, distance: nat) returns (op: nat)
    requires Legal(fmt, length + 2, distance + 1)
    requires start + |CopyBytes(fmt, length + 2, distance + 1)| <= output.Length
    modifies output
    ensures op == start + |CopyBytes(fmt, length + 2, distance + 1)|
    ensures output[..op] == old(output[..start]) + CopyBytes(fmt, length + 2, distance + 1)
  {
    if fmt.Extended? {
      hide LengthBytes, DistanceBytes;
      op := WriteLength(output, start, length, if distance < MAX_DISTANCE_2 then distance / 256 else 31);
      op := WriteDistance(output, op, distance);
    } else {
      hide CopyBytes;
      op := WriteShort(output, start, length, distance);
    }
  }

  // ---------- The main loop ----------

  /** A far match needs at least five bytes. */
  predicate Verified(pol: Policy, x: seq<byte>, anchor: nat, ref: nat)
    requires ref <= anchor && anchor + 4 < |x|
  {
    && x[ref] == x[anchor] && x[ref + 1] == x[anchor + 1] && x[ref + 2] == x[anchor + 2]
    && (pol.FastLz2? && anchor - ref >= MAX_DISTANCE_2 ==> x[anchor + 3] == x[ref + 3] && x[anchor + 4] == x[ref + 4])
  }

  lemma {:induction false} VerifiedIsAcceptable(pol: Policy, x: seq<byte>, anchor: nat, ref: nat)
    requires IsFastLz(pol) && ref <= anchor && anchor + 12 < |x|
    ensures var d := anchor - ref;
            Acceptable(pol, x, anchor, d)
            <==> 0 < d < (if pol.FastLz1? then MAX_DISTANCE_1 else MAX_FARDISTANCE) && Verified(pol, x, anchor, ref)
  {
    var d := anchor - ref;
    if d > 0 && Verified(pol, x, anchor, ref) {
      assert Repeats(x, d, anchor, anchor + 3);
    }
    if Repeats(x, d, anchor, anchor + Minimum(pol, d)) {
      assert x[anchor] == x[anchor - d] && x[anchor + 1] == x[anchor + 1 - d] && x[anchor + 2] == x[anchor + 2 - d];
    }
  }

  /** The table entry of `p` is read and replaced; FastLZ compares the candidate found there. */
  method FindMatch(pol: Policy, x: seq<byte>, hash: nat -> nat, htab: array<nat>, anchor: nat) returns (distance: nat)
    requires IsFastLz(pol) && 1 <= anchor && anchor + 12 < |x|
    requires htab.Length == HASH_SIZE && Below(htab[..], anchor)
    modifies htab
    ensures Below(htab[..], anchor + 1)
    ensures var s := Next(pol, x, hash, old(htab[..]), anchor);
            if distance == 0 then s == Step(Lit(x[anchor]), htab[..], anchor + 1)
            else
              && Acceptable(pol, x, anchor, distance)
              && var q := MatchEnd(pol, x, anchor, distance);
                 s == Step(Match(q - anchor, distance), Learn(htab[..], hash, q), q)
  {
    hide MatchEnd, Learn, Acceptable;
    if pol.FastLz2? && x[anchor] == x[anchor - 1] && x[anchor - 1] == x[anchor + 1] && x[anchor] == x[anchor + 2] {
      VerifiedIsAcceptable(pol, x, anchor, anchor - 1);
      return 1;
    }
    var hslot := hash(anchor) % HASH_SIZE;
    var ref := htab[hslot];
    VerifiedIsAcceptable(pol, x, anchor, ref);
    distance := anchor - ref;
    htab[hslot] := anchor;
    if distance == 0
      || distance >= (if pol.FastLz1? then MAX_DISTANCE_1 else MAX_FARDISTANCE)
      || x[ref] != x[anchor] || x[ref + 1] != x[anchor + 1] || x[ref + 2] != x[anchor + 2]
    {
      return 0;
    }
    if pol.FastLz2? && distance >= MAX_DISTANCE_2 && (x[anchor + 3] != x[ref + 3] || x[anchor + 4] != x[ref + 4]) {
      return 0;
    }
  }

  /** The buffer holds finished output, a header still to be patched, and an open literal run. */
  ghost predicate OpenRun(output: array<byte>, op: nat, done: seq<byte>, run: seq<byte>)
    reads output
  {
    && |run| < MAX_RUN && op == |done| + 1 + |run| <= output.Length
    && output[..|done|] == done && output[|done|] == MAX_RUN - 1
    && output[|done| + 1..op] == run
  }

  /** Patches the header of the open run, or steps back over it when the run is empty. */
  method CloseRun(output: array<byte>, end: nat, copy: nat, ghost done: seq<byte>,
                  ghost run: seq<byte>) returns (op: nat)
    requires OpenRun(output, end, done, run) && copy == |run|
    modifies output
    ensures op == |done + RunBytes(run)| <= end && output[..op] == done + RunBytes(run)
  {
    op := end;
    if copy != 0 {
      PatchHeader(output, op - copy - 1, op, copy - 1, done, run);
      assert RunBytes(run) == [copy - 1] + run;
    } else {
      op := op - 1;
      assert done + RunBytes(run) == done;
    }
  }

  /** Opens an empty run: reserves its header, which is already right for a full run. */
  method StartRun(output: array<byte>, end: nat) returns (op: nat)
    requires end < output.Length
    modifies output
    ensures op == end + 1 && OpenRun(output, op, old(output[..end]), [])
  {
    op := Put(output, end, MAX_RUN - 1);
    assert output[..op][..end] == output[..end] && output[..op][end] == MAX_RUN - 1;
  }

  method PutLiteral(output: array<byte>, start: nat, b: byte, copied: nat, ghost done: seq<byte>, ghost run: seq<byte>)
    returns (op: nat, copy: nat)
    requires OpenRun(output, start, done, run) && copied == |run|
    requires start + (copied + 1) / MAX_RUN < output.Length
    modifies output
    ensures var (done', run') := Advance(done, run, b);
            OpenRun(output, op, done', run') && copy == |run'|
  {
    op := Put(output, start, b);
    assert output[..op][..|done|] == done && output[..op][|done|] == MAX_RUN - 1;
    assert output[..op][|done| + 1..] == run + [b];
    copy := copied + 1;
    if copy == MAX_RUN {
      copy := 0;
      assert output[..op] == done + RunBytes(run + [b]);
      op := StartRun(output, op);
    }
  }

  lemma {:induction false} MatchIsLegal(pol: Policy, x: seq<byte>, p: nat, dist: pos)
    requires IsFastLz(pol) && p + 12 < |x| < 0x8000_0000
    requires Acceptable(pol, x, p, dist)
    ensures var len := MatchEnd(pol, x, p, dist) - p;
            3 <= len && p + len < |x| && Legal(Wire(pol), len, dist) && |CopyBytes(Wire(pol), len, dist)| < len
  {
    hide MatchEnd, Repeats, Reach, CopyBytes;
    CopySaves(Wire(pol), MatchEnd(pol, x, p, dist) - p, dist);
  }

  /** Enters the last two positions of a match into the table. */
  method UpdateHash(hash: nat -> nat, htab: array<nat>, start: nat) returns (ip: nat)
    requires htab.Length == HASH_SIZE && Below(htab[..], start + 1)
    modifies htab
    ensures ip == start + 2
    ensures htab[..] == Learn(old(htab[..]), hash, ip) && Below(htab[..], ip)
  {
    ip := start;
    htab[hash(ip) % HASH_SIZE] := ip;
    ip := ip + 1;
    htab[hash(ip) % HASH_SIZE] := ip;
    ip := ip + 1;
  }

  // ---------- The encoder ----------

  lemma {:induction false} StartEmits(pol: Policy, x: seq<byte>, hash: nat -> nat)
    requires IsFastLz(pol) && |x| >= 4
    ensures var s := Unmarked(pol, x, hash);
            s != [] && s[0] < 32 && s == Emit(Wire(pol), x[..2], Search(pol, x, hash, EmptyTable(), 2))
  {
    hide Search;
    var fmt, toks, rest := Wire(pol), Tokens(pol, x, hash, EmptyTable()), Search(pol, x, hash, EmptyTable(), 2);
    assert toks == [Lit(x[0]), Lit(x[1])] + rest;
    assert toks[1..][0] == Lit(x[1]) && toks[1..][1..] == rest;
    var one, two := [] + [x[0]], [] + [x[0]] + [x[1]];
    assert Emit(fmt, [], toks) == Emit(fmt, one, toks[1..]);
    assert Emit(fmt, one, toks[1..]) == Emit(fmt, two, rest);
    assert two == x[..2];
    EmitHead(fmt, [], toks);
  }

  lemma {:induction false} LiteralsEmit(fmt: Format, x: seq<byte>, p: nat)
    requires p <= |x| < MAX_RUN
    ensures Emit(fmt, x[..p], Literals(x, p)) == RunBytes(x)
    decreases |x| - p
  {
    if p < |x| {
      LiteralsEmit(fmt, x, p + 1);
      AdvanceEmits(fmt, [], x[..p], x[p], Literals(x, p + 1));
      assert x[..p] + [x[p]] == x[..p + 1];
      assert [] + Emit(fmt, x[..p + 1], Literals(x, p + 1)) == RunBytes(x);
      assert [] + Emit(fmt, x[..p], Literals(x, p)) == Emit(fmt, x[..p], Literals(x, p));
    } else {
      assert x[..p] == x;
    }
  }

  /** Inputs of less than four bytes become a single literal run. */
  lemma {:induction false} ShortEmits(pol: Policy, x: seq<byte>, hash: nat -> nat)
    requires IsFastLz(pol) && 1 <= |x| < 4
    ensures Compressed(pol, x, hash) == [|x| - 1] + x
  {
    LiteralsEmit(Wire(pol), x, 0);
    assert x[..0] == [];
    var toks := Tokens(pol, x, hash, EmptyTable());
    if |x| >= 2 {
      assert toks == Literals(x, 0) by {
        assert Literals(x, 0) == [Lit(x[0])] + ([Lit(x[1])] + Literals(x, 2));
      }
    }
  }

  method PutRestByte(x: seq<byte>, output: array<byte>, ip: nat, begin: nat, copied: nat,
                     ghost fmt: Format, ghost done: seq<byte>)
    returns (op: nat, copy: nat, ghost done': seq<byte>)
    requires copied <= ip < |x| && OpenRun(output, begin, done, x[ip - copied..ip])
    requires 32 * (begin - ip - 1) <= ip - copied && 33 * |x| < 32 * output.Length
    modifies output
    ensures copy <= ip + 1 && OpenRun(output, op, done', x[ip + 1 - copy..ip + 1])
    ensures 32 * (op - (ip + 1) - 1) <= ip + 1 - copy
    ensures done' + Emit(fmt, x[ip + 1 - copy..ip + 1], Literals(x, ip + 1))
         == done + Emit(fmt, x[ip - copied..ip], Literals(x, ip))
  {
    hide Emit, RunBytes, Literals;
    ghost var run := x[ip - copied..ip];
    RestStep(fmt, x, ip, copied, done);
    RunGrows(x, ip, copied, done);
    op, copy := PutLiteral(output, begin, x[ip], copied, done, run);
    done' := Advance(done, run, x[ip]).0;
  }

  /** The bytes after the search are literals too. */
  method PutRest(x: seq<byte>, output: array<byte>, start: nat, begin: nat, copied: nat,
                 ghost fmt: Format, ghost done: seq<byte>)
    returns (op: nat, copy: nat, ghost done': seq<byte>, ghost run': seq<byte>)
    requires copied <= start <= |x|
    requires OpenRun(output, begin, done, x[start - copied..start])
    requires 32 * (begin - start - 1) <= start - copied && 33 * |x| < 32 * output.Length
    modifies output
    ensures OpenRun(output, op, done', run') && copy == |run'|
    ensures done' + RunBytes(run') == done + Emit(fmt, x[start - copied..start], Literals(x, start))
  {
    hide Emit, RunBytes, Literals, OpenRun;
    var ip := start;
    op, copy, done' := begin, copied, done;
    ghost var whole := done + Emit(fmt, x[ip - copy..ip], Literals(x, ip));
    while ip < |x|
      invariant copy <= ip <= |x|
      invariant OpenRun(output, op, done', x[ip - copy..ip])
      invariant 32 * (op - ip - 1) <= ip - copy
      invariant done' + Emit(fmt, x[ip - copy..ip], Literals(x, ip)) == whole
    {
      op, copy, done' := PutRestByte(x, output, ip, op, copy, fmt, done');
      ip := ip + 1;
    }
    run' := x[ip - copy..ip];
    RestEnds(fmt, x, run');
  }

  method CompressShort(pol: Policy, x: seq<byte>, ghost hash: nat -> nat, output: array<byte>) returns (n: nat)
    requires IsFastLz(pol) && 1 <= |x| < 4 && output.Length > |x|
    modifies output
    ensures n == |Compressed(pol, x, hash)| == |x| + 1 && output[..n] == Compressed(pol, x, hash)
  {
    ShortEmits(pol, x, hash);
    var op := Put(output, 0, |x| - 1);
    var ip := 0;
    while ip < |x|
      invariant ip <= |x| && op == ip + 1 && output[..op] == [|x| - 1] + x[..ip]
    {
      op := Put(output, op, x[ip]);
      ip := ip + 1;
    }
    return |x| + 1;
  }

  /** What holds between two steps: the buffer and the work still to do make up `whole`. */
  ghost predicate Underway(pol: Policy, x: seq<byte>, hash: nat -> nat, tab: Table, output: array<byte>,
                           ip: nat, op: nat, copy: nat, done: seq<byte>, whole: seq<byte>)
    reads output
  {
    && 2 <= ip < |x| && copy <= ip
    && OpenRun(output, op, done, x[ip - copy..ip])
    && 32 * (op - ip - 1) <= ip - copy
    && done + Emit(Wire(pol), x[ip - copy..ip], Search(pol, x, hash, tab, ip)) == whole
  }

  /** A literal is copied. */
  method LiteralStep(pol: Policy, x: seq<byte>, ghost hash: nat -> nat, ghost tab: Table, ghost tab': Table,
                     output: array<byte>, anchor: nat, start: nat, copied: nat,
                     ghost done: seq<byte>, ghost whole: seq<byte>)
    returns (op: nat, copy: nat, ghost done': seq<byte>)
    requires anchor + 12 < |x| && 33 * |x| < 32 * output.Length
    requires Underway(pol, x, hash, tab, output, anchor, start, copied, done, whole)
    requires Search(pol, x, hash, tab, anchor) == [Lit(x[anchor])] + Search(pol, x, hash, tab', anchor + 1)
    modifies output
    ensures Underway(pol, x, hash, tab', output, anchor + 1, op, copy, done', whole)
  {
    hide Emit, RunBytes, Search;
    ghost var run := x[anchor - copied..anchor];
    AdvanceEmits(Wire(pol), done, run, x[anchor], Search(pol, x, hash, tab', anchor + 1));
    op, copy := PutLiteral(output, start, x[anchor], copied, done, run);
    done' := Advance(done, run, x[anchor]).0;
    RunGrows(x, anchor, copied, done);
  }

  /** A match of `len` bytes is written after the closed run, and a new run is opened. */
  method MatchStep(pol: Policy, x: seq<byte>, ghost hash: nat -> nat, ghost tab: Table, ghost tab': Table,
                   output: array<byte>, anchor: nat, len: nat, dist: pos, start: nat, copied: nat,
                   ghost done: seq<byte>, ghost whole: seq<byte>)
    returns (op: nat, ghost done': seq<byte>)
    requires 33 * |x| < 32 * output.Length && anchor + len < |x|
    requires Underway(pol, x, hash, tab, output, anchor, start, copied, done, whole)
    requires Search(pol, x, hash, tab, anchor) == [Match(len, dist)] + Search(pol, x, hash, tab', anchor + len)
    requires Legal(Wire(pol), len, dist) && |CopyBytes(Wire(pol), len, dist)| < len
    modifies output
    ensures Underway(pol, x, hash, tab', output, anchor + len, op, 0, done', whole)
  {
    hide Emit, RunBytes, CopyBytes, Search;
    ghost var run := x[anchor - copied..anchor];
    MatchEmits(Wire(pol), done, run, len, dist, Search(pol, x, hash, tab', anchor + len));
    op := CloseRun(output, start, copied, done, run);
    op := WriteMatch(Wire(pol), output, op, len - 2, dist - 1);
    done' := output[..op];
    op := StartRun(output, op);
    assert x[anchor + len..anchor + len] == [];
  }

  method InitTable() returns (htab: array<nat>)
    ensures fresh(htab) && htab.Length == HASH_SIZE
    ensures htab[..] == EmptyTable() && Below(htab[..], 2)
  {
    htab := new nat[HASH_SIZE](_ => 0);
  }

  /** The first two bytes start a run of literals. */
  method StartOutput(x: seq<byte>, output: array<byte>) returns (op: nat)
    requires |x| >= 2 && output.Length >= 3
    modifies output
    ensures op == 3 && OpenRun(output, op, [], x[..2])
  {
    op := Put(output, 0, MAX_RUN - 1);
    op := Put(output, op, x[0]);
    op := Put(output, op, x[1]);
    assert output[..op] == [31, x[0], x[1]];
    assert output[1..3] == output[..op][1..];
  }

  method MainLoop(pol: Policy, x: seq<byte>, hash: nat -> nat, htab: array<nat>, output: array<byte>,
                  start: nat, begin: nat, copied: nat, ghost done: seq<byte>, ghost whole: seq<byte>)
    returns (ip: nat, op: nat, copy: nat, ghost done': seq<byte>)
    requires IsFastLz(pol) && |x| < 0x8000_0000 && 33 * |x| < 32 * output.Length
    requires htab.Length == HASH_SIZE && Below(htab[..], start) && 2 <= start < |x|
    requires Underway(pol, x, hash, htab[..], output, start, begin, copied, done, whole)
    modifies htab, output
    ensures htab.Length == HASH_SIZE && ip < |x| <= ip + 12
    ensures Underway(pol, x, hash, htab[..], output, ip, op, copy, done', whole)
  {
    hide Underway, Search, Next, Below, Learn, Legal, CopyBytes, MatchEnd, Acceptable;
    ip, op, copy, done' := start, begin, copied, done;
    while ip + 12 < |x|
      invariant htab.Length == HASH_SIZE && Below(htab[..], ip) && 2 <= ip < |x|
      invariant Underway(pol, x, hash, htab[..], output, ip, op, copy, done', whole)
      decreases |x| - ip
    {
      ghost var tab := htab[..];
      SearchStep(pol, x, hash, tab, ip);
      var anchor := ip;
      var distance := FindMatch(pol, x, hash, htab, anchor);
      if distance == 0 {
        op, copy, done' := LiteralStep(pol, x, hash, tab, htab[..], output, anchor, op, copy, done', whole);
        ip := anchor + 1;
      } else {
        MatchIsLegal(pol, x, anchor, distance);
        ip := ExtendMatch(pol, x, anchor, distance);
        ip := ip - 3;
        op, done' := MatchStep(pol, x, hash, tab, Learn(htab[..], hash, ip + 2), output, anchor, ip - anchor + 2,
                               distance, op, copy, done', whole);
        copy := 0;
        BelowLater(htab[..], anchor + 1, ip + 1);
        ip := UpdateHash(hash, htab, ip);
      }
    }
  }

  /** The main loop and the rest after it, up to the level mark. */
  method CompressLong(pol: Policy, x: seq<byte>, hash: nat -> nat, output: array<byte>) returns (op: nat)
    requires IsFastLz(pol) && 4 <= |x| < 0x8000_0000 && 33 * |x| < 32 * output.Length
    modifies output
    ensures op == |Unmarked(pol, x, hash)| <= output.Length && output[..op] == Unmarked(pol, x, hash)
  {
    hide Emit, RunBytes, Search, Literals, Tokens, Below;
    var htab := InitTable();
    op := StartOutput(x, output);
    StartEmits(pol, x, hash);
    ghost var done, run, whole := [], x[..2], Unmarked(pol, x, hash);
    assert x[2 - 2..2] == run && [] + whole == whole;
    var ip, copy;
    ip, op, copy, done := MainLoop(pol, x, hash, htab, output, 2, op, 2, done, whole);
    SearchStops(pol, x, hash, htab[..], ip);
    op, copy, done, run := PutRest(x, output, ip, op, copy, Wire(pol), done);
    op := CloseRun(output, op, copy, done, run);
  }

  /**
   Compresses `x` into `output`. No write leaves a buffer of |x| + |x| / 32 + 1 bytes,
   although the encoder never looks at the size of the buffer.
   */
  method Compress(pol: Policy, x: seq<byte>, hash: nat -> nat, output: array<byte>) returns (n: nat)
    requires IsFastLz(pol) && |x| < 0x8000_0000
    requires output.Length >= |x| + |x| / 32 + 1
    modifies output
    ensures n == |Compressed(pol, x, hash)| <= output.Length
    ensures output[..n] == Compressed(pol, x, hash)
  {
    if |x| < 4 {
      if |x| == 0 { return 0; }
      n := CompressShort(pol, x, hash, output);
    } else {
      hide Tokens, Emit;
      StartEmits(pol, x, hash);
      n := CompressLong(pol, x, hash, output);
      if pol.FastLz2? {
        output[0] := if output[0] / 32 % 2 == 1 then output[0] else U8(output[0] + 32);
        assert output[..n] == Mark(Unmarked(pol, x, hash));
      }
    }
  }
}
