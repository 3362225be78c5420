/**
 The LZF implementation in C#: literals are counted and written only when a run ends,
 the hash table is cleared, and array bounds are checked by the runtime. `None` stands
 for its IndexOutOfRangeException.
 */
module Clzf {
  import opened Bytes
  import opened LzFormat
  import opened LzSearch
  import opened LzBuffer
  import Lzf
  import LzfCompress

  const HSIZE := 16384
  const MAX_OFF := 8192

  // ---------- What the encoder writes ----------

  function EmptyTable(): Table {
    seq(HSIZE, _ => 0)
  }

  /** The capacity tests: before a match, before a full run, and before the last run. */
  predicate Fits(toks: seq<Token>, done: nat, run: nat, cap: nat)
    decreases |toks|
  {
    if toks == [] then run == 0 || done + run + 1 < cap
    else
      match toks[0]
      case Lit(_) =>
        if run + 1 == MAX_RUN then done + 1 + MAX_RUN < cap && Fits(toks[1..], done + 33, 0, cap)
        else Fits(toks[1..], done, run + 1, cap)
      case Match(len, dist) =>
        var closed := if run == 0 then done else done + run + 1;
        done + run + 1 + 3 < cap && Fits(toks[1..], closed + |CopyBytes(Short, len, dist)|, 0, cap)
  }

  function Compressed(x: seq<byte>, hash: nat -> nat, cap: nat): seq<byte> {
    var toks := Tokens(Policy.Clzf, x, hash, EmptyTable());
    if !Fits(toks, 0, 0, cap) then [] else Emit(Short, [], toks)
  }

  // ---------- Pieces of the encoder ----------

  method FindMatch(x: seq<byte>, hash: nat -> nat, htab: array<nat>, iidx: nat) returns (dist: nat)
    requires iidx + 2 < |x| && htab.Length == HSIZE
    requires Below(htab[..], if iidx == 0 then 1 else iidx)
    modifies htab
    ensures Below(htab[..], iidx + 1)
    ensures var s := Next(Policy.Clzf, x, hash, old(htab[..]), iidx);
            if dist == 0 then s == Step(Lit(x[iidx]), htab[..], iidx + 1)
            else
              && Acceptable(Policy.Clzf, x, iidx, dist)
              && var q := MatchEnd(Policy.Clzf, x, iidx, dist);
                 s == Step(Match(q - iidx, dist), Learn(htab[..], hash, q), q)
  {
    hide MatchEnd, Learn;
    var hslot := hash(iidx) % HSIZE;
    var reference := htab[hslot];
    htab[hslot] := iidx;
    var off := iidx - reference - 1;
    if off < MAX_OFF && iidx + 4 < |x| && reference > 0
      && x[reference] == x[iidx] && x[reference + 1] == x[iidx + 1] && x[reference + 2] == x[iidx + 2]
    {
      return off + 1;
    }
    return 0;
  }

  method MatchLength(x: seq<byte>, iidx: nat, dist: pos) returns (len: nat)
    requires iidx + 4 < |x| && Acceptable(Policy.Clzf, x, iidx, dist)
    ensures iidx + len == MatchEnd(Policy.Clzf, x, iidx, dist)
  {
    var maxlen: nat := |x| - iidx - 2;
    maxlen := if maxlen > MAX_REF then MAX_REF else maxlen;
    len := 3;
    while len < maxlen && x[iidx - dist + len] == x[iidx + len]
      invariant 3 <= len <= maxlen && Repeats(x, dist, iidx, iidx + len)
    {
      len := len + 1;
    }
    StretchUnique(x, dist, iidx + 3, Reach(Policy.Clzf, |x|, iidx, dist), iidx + len);
  }

  /** Writes the pending literals, the last `lit` bytes before `iidx`, behind their header. */
  method FlushRun(x: seq<byte>, output: array<byte>, iidx: nat, start: nat, lit: nat) returns (oidx: nat)
    requires lit <= iidx <= |x| && lit <= MAX_RUN && start + (if lit == 0 then 0 else lit + 1) <= output.Length
    modifies output
    ensures oidx <= output.Length
    ensures output[..oidx] == old(output[..start]) + RunBytes(x[iidx - lit..iidx])
  {
    oidx := start;
    if lit != 0 {
      hide RunBytes;
      RunParts(x[iidx - lit..iidx]);
      oidx := Put(output, oidx, lit - 1);
      oidx := PutAll(output, oidx, x, iidx - lit, lit);
      ghost var before, run := old(output[..start]), x[iidx - lit..iidx];
      assert before + [lit - 1] + run == before + ([lit - 1] + run);
    }
  }

  lemma {:induction false} RunParts(run: seq<byte>)
    requires 0 < |run| <= MAX_RUN
    ensures RunBytes(run) == [|run| - 1] + run
  {
  }

  method WriteMatch(output: array<byte>, start: nat, length: nat, off: nat) returns (oidx: nat)
    requires 1 <= length <= 262 && start + 3 <= output.Length
    modifies output
    ensures oidx <= output.Length
    ensures output[..oidx] == old(output[..start]) + CopyBytes(Short, length + 2, off + 1)
  {
    if length < 7 {
      oidx := Put(output, start, off / 256 + length * 32);
    } else {
      oidx := Put(output, start, off / 256 + 7 * 32);
      oidx := Put(output, oidx, length - 7);
    }
    oidx := Put(output, oidx, off);
  }

  /** The two positions before `q` are hashed; the bytes hashed all lie inside the input. */
  method UpdateHash(x: seq<byte>, hash: nat -> nat, htab: array<nat>, q: nat)
    requires htab.Length == HSIZE && 3 <= q && q + 1 < |x|
    requires Below(htab[..], q)
    modifies htab
    ensures htab[..] == Learn(old(htab[..]), hash, q) && Below(htab[..], q)
  {
    var iidx := q - 2;
    htab[hash(iidx) % HSIZE] := iidx;
    iidx := iidx + 1;
    htab[hash(iidx) % HSIZE] := iidx;
  }

  // ---------- The loop ----------

  ghost predicate Underway(x: seq<byte>, hash: nat -> nat, tab: Table, output: array<byte>,
                           iidx: nat, oidx: nat, lit: nat, whole: seq<byte>, fits: bool)
    reads output
  {
    && lit < MAX_RUN && lit <= iidx <= |x| && oidx <= output.Length
    && output[..oidx] + Emit(Short, x[iidx - lit..iidx], Search(Policy.Clzf, x, hash, tab, iidx)) == whole
    && fits == Fits(Search(Policy.Clzf, x, hash, tab, iidx), oidx, lit, output.Length)
  }

  lemma {:induction false} FitsLiteral(b: byte, toks: seq<Token>, done: nat, run: nat, cap: nat)
    ensures Fits([Lit(b)] + toks, done, run, cap) ==
            if run + 1 == MAX_RUN then done + 1 + MAX_RUN < cap && Fits(toks, done + 33, 0, cap)
            else Fits(toks, done, run + 1, cap)
  {
    assert ([Lit(b)] + toks)[1..] == toks;
  }

  lemma {:induction false} FitsMatch(len: nat, dist: pos, toks: seq<Token>, done: nat, run: seq<byte>, cap: nat)
    ensures Fits([Match(len, dist)] + toks, done, |run|, cap) ==
            (done + |run| + 1 + 3 < cap
             && Fits(toks, done + |RunBytes(run)| + |CopyBytes(Short, len, dist)|, 0, cap))
  {
    assert ([Match(len, dist)] + toks)[1..] == toks;
  }

  /** Past the search every byte is a literal, and the table no longer matters. */
  lemma {:induction false} SearchTail(x: seq<byte>, hash: nat -> nat, tab: Table, p: nat)
    requires p < |x| <= p + 2
    ensures Search(Policy.Clzf, x, hash, tab, p) == [Lit(x[p])] + Search(Policy.Clzf, x, hash, tab, p + 1)
  {
  }

  method LiteralStep(x: seq<byte>, ghost hash: nat -> nat, ghost tab: Table, ghost tab': Table, output: array<byte>,
                     start: nat, begin: nat, copied: nat, ghost whole: seq<byte>, ghost fits: bool)
    returns (ok: bool, oidx: nat, lit: nat)
    requires start < |x| && Underway(x, hash, tab, output, start, begin, copied, whole, fits)
    requires Search(Policy.Clzf, x, hash, tab, start) == [Lit(x[start])] + Search(Policy.Clzf, x, hash, tab', start + 1)
    modifies output
    ensures !ok ==> !fits
    ensures ok ==> Underway(x, hash, tab', output, start + 1, oidx, lit, whole, fits)
  {
    hide Emit, RunBytes, Search, Fits;
    ghost var run, rest := x[start - copied..start], Search(Policy.Clzf, x, hash, tab', start + 1);
    assert x[start - copied..start + 1] == run + [x[start]];
    AdvanceEmits(Short, output[..begin], run, x[start], rest);
    FitsLiteral(x[start], rest, begin, copied, output.Length);
    lit, oidx := copied + 1, begin;
    if lit == MAX_RUN {
      if oidx + 1 + MAX_RUN >= output.Length { return false, oidx, lit; }
      oidx := FlushRun(x, output, start + 1, oidx, lit);
      lit := 0;
      assert x[start + 1..start + 1] == [];
    }
    ok := true;
  }

  method MatchStep(x: seq<byte>, ghost hash: nat -> nat, ghost tab: Table, output: array<byte>, start: nat, dist: pos,
                   begin: nat, lit: nat, ghost whole: seq<byte>, ghost fits: bool)
    returns (ok: bool, iidx: nat, oidx: nat)
    requires start + 4 < |x| && Underway(x, hash, tab, output, start, begin, lit, whole, fits)
    requires Acceptable(Policy.Clzf, x, start, dist)
    requires var s := Next(Policy.Clzf, x, hash, tab, start);
             s.next == MatchEnd(Policy.Clzf, x, start, dist) && s.tok == Match(s.next - start, dist)
    modifies output
    ensures !ok ==> !fits
    ensures ok ==> var s := Next(Policy.Clzf, x, hash, tab, start);
                   && start < iidx == s.next && iidx + 1 < |x|
                   && Underway(x, hash, s.tab, output, iidx, oidx, 0, whole, fits)
  {
    hide Emit, RunBytes, CopyBytes, Search, MatchEnd, Acceptable, Learn, Fits, Next;
    ghost var run, s := x[start - lit..start], Next(Policy.Clzf, x, hash, tab, start);
    ghost var rest := Search(Policy.Clzf, x, hash, s.tab, s.next);
    SearchStep(Policy.Clzf, x, hash, tab, start);
    MatchEmits(Short, output[..begin], run, s.next - start, dist, rest);
    FitsMatch(s.next - start, dist, rest, begin, run, output.Length);
    if begin + lit + 1 + 3 >= output.Length { return false, start, begin; }
    var len := MatchLength(x, start, dist);
    oidx := FlushRun(x, output, start, begin, lit);
    oidx := WriteMatch(output, oidx, len - 2, dist - 1);
    iidx := start + len;
    assert x[iidx..iidx] == [];
    ok := true;
  }

  lemma {:induction false} SearchDone(x: seq<byte>, hash: nat -> nat, tab: Table, run: seq<byte>, done: nat, cap: nat)
    ensures Search(Policy.Clzf, x, hash, tab, |x|) == []
    ensures Emit(Short, run, []) == RunBytes(run)
    ensures Fits([], done, |run|, cap) == (run == [] || done + |run| + 1 < cap)
  {
  }

  method InitTable() returns (htab: array<nat>)
    ensures fresh(htab) && htab.Length == HSIZE
    ensures htab[..] == EmptyTable() && Below(htab[..], 1)
  {
    htab := new nat[HSIZE](_ => 0);
  }

  method MainLoop(x: seq<byte>, hash: nat -> nat, htab: array<nat>, output: array<byte>, ghost whole: seq<byte>,
                  ghost fits: bool)
    returns (ok: bool, oidx: nat, lit: nat)
    requires htab.Length == HSIZE && Below(htab[..], 1)
    requires Underway(x, hash, htab[..], output, 0, 0, 0, whole, fits)
    modifies htab, output
    ensures htab.Length == HSIZE
    ensures if ok then Underway(x, hash, htab[..], output, |x|, oidx, lit, whole, fits) else !fits
  {
    hide Underway, Search, Next, Below, Learn, MatchEnd, Acceptable;
    var iidx: nat := 0;
    oidx, lit := 0, 0;
    while iidx != |x|
      invariant iidx <= |x| && htab.Length == HSIZE && Below(htab[..], if iidx == 0 then 1 else iidx)
      invariant Underway(x, hash, htab[..], output, iidx, oidx, lit, whole, fits)
      decreases |x| - iidx
    {
      ghost var tab := htab[..];
      var dist := 0;
      if iidx + 2 < |x| {
        SearchStep(Policy.Clzf, x, hash, tab, iidx);
        dist := FindMatch(x, hash, htab, iidx);
      } else {
        SearchTail(x, hash, tab, iidx);
        BelowLater(tab, if iidx == 0 then 1 else iidx, iidx + 1);
      }
      if dist > 0 {
        ghost var p := iidx;
        CandidateRoom(x, iidx, dist);
        ok, iidx, oidx := MatchStep(x, hash, tab, output, iidx, dist, oidx, lit, whole, fits);
        if !ok { return; }
        lit := 0;
        BelowLater(htab[..], p + 1, iidx);
        UpdateHash(x, hash, htab, iidx);
      } else {
        ok, oidx, lit := LiteralStep(x, hash, tab, htab[..], output, iidx, oidx, lit, whole, fits);
        if !ok { return; }
        iidx := iidx + 1;
      }
    }
    ok := true;
  }

  /** The last run, if there is room for it. */
  method WriteRest(x: seq<byte>, ghost hash: nat -> nat, ghost tab: Table, output: array<byte>, begin: nat, lit: nat,
                   ghost whole: seq<byte>, ghost fits: bool) returns (n: nat)
    requires Underway(x, hash, tab, output, |x|, begin, lit, whole, fits)
    modifies output
    ensures if fits then n == |whole| <= output.Length && output[..n] == whole else n == 0
  {
    hide Emit, RunBytes, Search, Fits;
    ghost var run := x[|x| - lit..|x|];
    SearchDone(x, hash, tab, run, begin, output.Length);
    assert |run| == lit && whole == output[..begin] + RunBytes(run);
    if lit != 0 && begin + lit + 1 >= output.Length { return 0; }
    n := FlushRun(x, output, |x|, begin, lit);
    assert |output[..n]| == |whole|;
  }

  lemma {:induction false} StartsUnderway(x: seq<byte>, hash: nat -> nat, output: array<byte>)
    ensures var toks := Tokens(Policy.Clzf, x, hash, EmptyTable());
            Underway(x, hash, EmptyTable(), output, 0, 0, 0, Emit(Short, [], toks), Fits(toks, 0, 0, output.Length))
  {
    hide Emit, Search, Fits;
    var whole := Emit(Short, [], Tokens(Policy.Clzf, x, hash, EmptyTable()));
    assert x[0..0] == [] && output[..0] + whole == whole;
  }

  /** Inputs of less than two bytes make the first hash read throw. */
  method Compress(x: seq<byte>, hash: nat -> nat, output: array<byte>) returns (r: Option<nat>)
    requires |x| < 0x8000_0000
    modifies output
    ensures |x| < 2 <==> r == None
    ensures r.Some? ==> r.value == |Compressed(x, hash, output.Length)| <= output.Length
                        && output[..r.value] == Compressed(x, hash, output.Length)
  {
    if |x| < 2 { return None; }
    hide Emit, Search, Fits, Below, Underway, Tokens, EmptyTable;
    var htab := InitTable();
    StartsUnderway(x, hash, output);
    ghost var toks := Tokens(Policy.Clzf, x, hash, EmptyTable());
    ghost var whole, fits := Emit(Short, [], toks), Fits(toks, 0, 0, output.Length);
    var ok, oidx, lit := MainLoop(x, hash, htab, output, whole, fits);
    if !ok { return Some(0); }
    var n := WriteRest(x, hash, htab[..], output, oidx, lit, whole, fits);
    return Some(n);
  }

  lemma {:induction false} CandidateRoom(x: seq<byte>, p: nat, dist: nat)
    requires p + 2 < |x| && Acceptable(Policy.Clzf, x, p, dist)
    ensures p + 4 < |x|
  {
  }

  // ---------- The decoder ----------

  /** The operands of a back reference: length less two, and position referred to. Not `ok` when reading throws. */
  method ReadOperands(s: seq<byte>, start: nat, ctrl: byte, oidx: nat) returns (ok: bool, len: nat, reference: int,
                      iidx: nat)
    requires start <= |s| && ctrl >= 32
    ensures ok == ReadCopy(Short, [ctrl] + s[start..]).Some?
    ensures ok ==> start < iidx <= |s| && reference < oidx
                   && ReadCopy(Short, [ctrl] + s[start..])
                      == Some(Reference(len + 2, oidx - reference, iidx - start + 1))
  {
    ok, iidx := false, start;
    len := ctrl / 32;
    reference := oidx - Word(ctrl % 32, 0) - 1;
    if len == 7 {
      if iidx >= |s| { return; }
      len := len + s[iidx];
      iidx := iidx + 1;
    }
    if iidx >= |s| { return; }
    reference := reference - s[iidx];
    iidx := iidx + 1;
    ok := true;
  }

  /** What is returned when decoding fails: zero, or the exception where the stream ends too early. */
  predicate FailsWith(o: Outcome, r: Option<nat>) {
    match o
    case Done(_) => false
    case Full => r == Some(0)
    case BadReference => r == Some(0)
    case _ => r == None
  }

  /** A literal run behind its header `ctrl`: copied, or what it ends with. */
  method CopyRun(s: seq<byte>, start: nat, ctrl: byte, output: array<byte>, from: nat)
    returns (ok: bool, r: Option<nat>, iidx: nat, oidx: nat)
    requires ctrl < 32 && start <= |s| && from <= output.Length
    modifies output
    ensures var o := Decode(Short, [ctrl] + s[start..], old(output[..from]), output.Length);
            if !ok then FailsWith(o, r)
            else start < iidx <= |s| && oidx <= output.Length
                 && o == Decode(Short, s[iidx..], output[..oidx], output.Length)
  {
    hide Decode;
    ok, r, iidx, oidx := false, None, start, from;
    DecodeRun(Short, ctrl, s[start..], output[..from], output.Length);
    var run: nat := ctrl;
    run := run + 1;
    if from + run > output.Length { r := Some(0); return; }
    if start + run > |s| { return; }
    assert s[start..][..run] == s[start..start + run] && s[start..][run..] == s[start + run..];
    oidx := PutAll(output, from, s, start, run);
    ok, iidx := true, start + run;
  }

  /** A back reference behind its control byte: copied, or what it ends with. */
  method CopyBehind(s: seq<byte>, start: nat, ctrl: byte, output: array<byte>, from: nat)
    returns (ok: bool, r: Option<nat>, iidx: nat, oidx: nat)
    requires ctrl >= 32 && start <= |s| && from <= output.Length < 0x8000_0000
    modifies output
    ensures var o := Decode(Short, [ctrl] + s[start..], old(output[..from]), output.Length);
            if !ok then FailsWith(o, r)
            else start < iidx <= |s| && oidx <= output.Length
                 && o == Decode(Short, s[iidx..], output[..oidx], output.Length)
  {
    hide Decode, ReadCopy, CopyBack;
    ok, r, iidx, oidx := false, None, start, from;
    DecodeCopy(Short, ctrl, s[start..], output[..from], output.Length);
    var found, len, reference, next := ReadOperands(s, start, ctrl, from);
    if !found { return; }
    assert s[start..][next - start..] == s[next..];
    iidx := next;
    if from + len + 2 > output.Length || reference < 0 { r := Some(0); return; }
    CopyBackTwice(output[..from], from - reference, 2, len);
    var dist := from - reference;
    oidx := CopyOctets(output, from, dist, 2);
    oidx := CopyOctets(output, oidx, dist, len);
    ok := true;
  }

  /**
   Decodes like the C decoder where that one succeeds, runs out of room or meets a bad
   reference; where the stream ends inside a run or a reference, it throws.
   */
  method Decompress(s: seq<byte>, output: array<byte>) returns (r: Option<nat>)
    requires output.Length < 0x8000_0000
    modifies output
    ensures s == [] ==> r == None
    ensures s != [] ==>
              match Decode(Short, s, [], output.Length)
              case Done(out) => r == Some(|out|) && |out| <= output.Length && output[..|out|] == out
              case Full => r == Some(0)
              case BadReference => r == Some(0)
              case _ => r == None
  {
    hide Decode;
    if |s| == 0 { return None; }
    ghost var outcome := Decode(Short, s, [], output.Length);
    var iidx: nat, oidx: nat, first := 0, 0, true;
    assert s[0..] == s && output[..0] == [];
    while first || iidx < |s|
      invariant iidx <= |s| && oidx <= output.Length && (first ==> iidx == 0)
      invariant Decode(Short, s[iidx..], output[..oidx], output.Length) == outcome
      decreases |s| - iidx
    {
      first := false;
      var ctrl := s[iidx];
      assert s[iidx..] == [ctrl] + s[iidx + 1..];
      var ok;
      if ctrl < 32 {
        ok, r, iidx, oidx := CopyRun(s, iidx + 1, ctrl, output, oidx);
      } else {
        ok, r, iidx, oidx := CopyBehind(s, iidx + 1, ctrl, output, oidx);
      }
      if !ok { return; }
    }
    return Some(oidx);
  }

  // ---------- Round trip and capacity ----------

  /** A nonempty result decodes to the input. Both decoders follow the same parser. */
  lemma {:induction false} RoundTrip(x: seq<byte>, hash: nat -> nat, cap: nat)
    requires |x| < 0x8000_0000
    ensures var s := Compressed(x, hash, cap); s != [] ==> Decode(Short, s, [], |x|) == Done(x)
  {
    hide Decode, Emit, Tokens, Fits;
    TokensDescribe(Policy.Clzf, x, hash, EmptyTable());
    EmitDecodes(Short, x, 0, [], Tokens(Policy.Clzf, x, hash, EmptyTable()), |x|);
    assert x[..0] == [];
  }

  lemma {:induction false} FitsAlways(x: seq<byte>, p: nat, toks: seq<Token>, done: nat, run: nat, cap: nat)
    requires run <= p <= |x| && Describes(Short, x, p, toks) && run < MAX_RUN
    requires done <= (p - run) + (p - run) / 32 && |x| + |x| / 32 + 2 <= cap
    ensures Fits(toks, done, run, cap)
    decreases |toks|
  {
    if toks != [] {
      match toks[0]
      case Lit(_) =>
        if run + 1 == MAX_RUN {
          FitsAlways(x, p + 1, toks[1..], done + 33, 0, cap);
        } else {
          FitsAlways(x, p + 1, toks[1..], done, run + 1, cap);
        }
      case Match(len, dist) =>
        CopySaves(Short, len, dist);
        var closed := if run == 0 then done else done + run + 1;
        FitsAlways(x, p + len, toks[1..], closed + |CopyBytes(Short, len, dist)|, 0, cap);
    }
  }

  /** Literals alone fit exactly into an array with a byte more than they take. */
  lemma {:induction false} LiteralsFitIff(x: seq<byte>, p: nat, done: nat, run: seq<byte>, cap: nat)
    requires p <= |x| && |run| < MAX_RUN && (run != [] || p < |x|)
    ensures Fits(Literals(x, p), done, |run|, cap) <==> done + |Emit(Short, run, Literals(x, p))| < cap
    decreases |x| - p
  {
    hide RunBytes;
    if p < |x| {
      if |run| + 1 < MAX_RUN {
        LiteralsFitIff(x, p + 1, done, run + [x[p]], cap);
      } else if p + 1 < |x| {
        LiteralsFitIff(x, p + 1, done + 33, [], cap);
      }
    }
  }

  /** Before a match there have to be five bytes more than what precedes it takes, without the header of its run. */
  lemma {:induction false} MatchFitsIff(len: nat, dist: pos, done: nat, run: nat, cap: nat)
    requires 3 <= len && dist <= 8192
    ensures Fits([Match(len, dist)], done, run, cap) <==> done + run + 5 <= cap
  {
  }

  /** Three bytes more than the output pass every test. */
  lemma {:induction false} FitsWithSlack(x: seq<byte>, p: nat, toks: seq<Token>, done: nat, run: seq<byte>, cap: nat)
    requires p <= |x| && Describes(Short, x, p, toks) && |run| < MAX_RUN
    requires done + |Emit(Short, run, toks)| + 3 <= cap
    ensures Fits(toks, done, |run|, cap)
    decreases |toks|
  {
    hide CopyBytes, RunBytes;
    if toks != [] {
      match toks[0]
      case Lit(b) =>
        if |run| + 1 == MAX_RUN {
          FitsWithSlack(x, p + 1, toks[1..], done + 33, [], cap);
        } else {
          FitsWithSlack(x, p + 1, toks[1..], done, run + [b], cap);
        }
      case Match(len, dist) =>
        FitsWithSlack(x, p + len, toks[1..], done + |RunBytes(run)| + |CopyBytes(Short, len, dist)|, [], cap);
    }
  }

  /** So it gives up only on arrays that are at most two bytes larger than what it would write. */
  lemma {:induction false} GivesUp(x: seq<byte>, hash: nat -> nat, cap: nat)
    requires 2 <= |x| < 0x8000_0000 && Compressed(x, hash, cap) == []
    ensures cap < |Emit(Short, [], Tokens(Policy.Clzf, x, hash, EmptyTable()))| + 3
  {
    hide Fits, Tokens, Emit;
    var toks := Tokens(Policy.Clzf, x, hash, EmptyTable());
    TokensDescribe(Policy.Clzf, x, hash, EmptyTable());
    if cap >= |Emit(Short, [], toks)| + 3 {
      FitsWithSlack(x, 0, toks, 0, [], cap);
      EmitHead(Short, [], toks);
    }
  }

  /** A capacity of n + n / 32 + 2 is always enough. */
  lemma {:induction false} Capacity(x: seq<byte>, hash: nat -> nat, cap: nat)
    requires 2 <= |x| < 0x8000_0000 && cap >= |x| + |x| / 32 + 2
    ensures var s := Compressed(x, hash, cap); s != [] && Decode(Short, s, [], |x|) == Done(x)
  {
    hide Decode, Emit, Fits;
    var toks := Tokens(Policy.Clzf, x, hash, EmptyTable());
    TokensDescribe(Policy.Clzf, x, hash, EmptyTable());
    FitsAlways(x, 0, toks, 0, 0, cap);
    EmitHead(Short, [], toks);
    RoundTrip(x, hash, cap);
  }

  // ---------- The two implementations together ----------

  /**
   Both encoders succeed with the larger of the two capacities, and both decoders, whose
   contracts are in terms of `Decode`, give the input back from either stream.
   */
  lemma {:induction false} Interoperable(x: seq<byte>, hash: nat -> nat, tab: Table, other: nat -> nat, cap: nat)
    requires 2 <= |x| < 0x8000_0000 && cap >= |x| + |x| / 32 + 4
    ensures forall s :: s in [LzfCompress.Compressed(x, hash, tab, cap), Compressed(x, other, cap)] ==>
              s != [] && Decode(Short, s, [], |x|) == Done(x)
  {
    hide LzfCompress.Compressed, Compressed, Decode, Tokens, Emit;
    Lzf.Capacity(x, hash, tab, cap);
    Lzf.RoundTrip(x, hash, tab, cap);
    Capacity(x, other, cap);
  }
}
