/**
 The two wire formats of the LZ77 codecs, and what a stream in them means.

 `Short` is the format of LZF and of FastLZ level 1; `Extended` is FastLZ level 2.
 A stream is a series of literal runs (a header below 32, then header + 1 bytes)
 and back references (a control byte of 32 or more, then operand bytes).
 */
module LzFormat {
  import opened Bytes

  datatype Format = Short | Extended

  const MAX_RUN := 32
  /** Distances below or at this are "near" in the extended format. */
  const NEAR_DISTANCE := 8191
  const U32 := 0x1_0000_0000

  // ---------- Self-overlapping copies ----------

  /** Appends `len` bytes, each a copy of the byte `dist` positions before it. */
  function CopyBack(out: seq<byte>, dist: nat, len: nat): (r: seq<byte>)
    requires 1 <= dist <= |out|
    ensures |r| == |out| + len
  {
    if len == 0 then out
    else
      var o := CopyBack(out, dist, len - 1);
      o + [o[|o| - dist]]
  }

  /** Any sequence that extends `out` periodically is the overlapping copy. */
  lemma {:induction false} CopyBackUnique(out: seq<byte>, dist: nat, r: seq<byte>)
    requires 1 <= dist <= |out| && out <= r
    requires forall i :: |out| <= i < |r| ==> r[i] == r[i - dist]
    ensures CopyBack(out, dist, |r| - |out|) == r
    decreases |r|
  {
    if |r| > |out| {
      var prefix := r[..|r| - 1];
      CopyBackUnique(out, dist, prefix);
      assert r == prefix + [prefix[|prefix| - dist]];
    } else {
      assert r == out;
    }
  }

  // ---------- Parsing ----------

  function Word(hi: nat, lo: nat): nat {
    hi * 256 + lo
  }

  /** A decoded back reference: how many bytes, from how far back, and its size in the stream. */
  datatype Reference = Reference(len: nat, dist: nat, size: nat)

  /** A chain of length bytes: every 255 is followed by another; its sum and its size. */
  function ReadChain(s: seq<byte>): (r: Option<(nat, nat)>)
    ensures r.Some? ==> 1 <= r.value.1 <= |s|
  {
    if s == [] then None
    else if s[0] != 255 then Some((s[0], 1))
    else
      match ReadChain(s[1..])
      case None => None
      case Some((sum, size)) => Some((255 + sum, size + 1))
  }

  /** The length operand that follows a control byte: octets copied and stream position after it. */
  function ReadLength(fmt: Format, s: seq<byte>): (r: Option<(nat, nat)>)
    requires |s| > 0 && s[0] >= 32
    ensures r.Some? ==> 3 <= r.value.0 && 1 <= r.value.1 <= |s|
  {
    var field := s[0] / 32;
    if field < 7 then Some((field + 2, 1))
    else if fmt.Short? then
      if |s| < 2 then None else (var more: nat := s[1]; Some((more + 9, 2)))
    else
      match ReadChain(s[1..])
      case None => None
      case Some((sum, size)) => Some(((6 + sum) % U32 + 3, 1 + size))
  }

  /** The whole back reference at the head of `s`; None when operand bytes are missing. */
  function ReadCopy(fmt: Format, s: seq<byte>): (r: Option<Reference>)
    requires |s| > 0 && s[0] >= 32
    ensures r.Some? ==> 3 <= r.value.len && 1 <= r.value.dist && 2 <= r.value.size <= |s|
  {
    match ReadLength(fmt, s)
    case None => None
    case Some((len, k)) =>
      var hi: nat := s[0] % 32;
      if k >= |s| then None
      else if fmt.Extended? && hi == 31 && s[k] == 255 then
        if k + 2 >= |s| then None
        else Some(Reference(len, Word(s[k + 1], s[k + 2]) + NEAR_DISTANCE + 1, k + 3))
      else Some(Reference(len, Word(hi, s[k]) + 1, k + 1))
  }

  /**
   What decoding a stream can come to. `Full`: the output capacity is too small;
   `ShortRun` and `ShortOperands`: the stream ends inside a literal run or inside a
   back reference; `BadReference`: a reference to before the start of the output.
   */
  datatype Outcome = Done(out: seq<byte>) | Full | ShortRun | ShortOperands | BadReference

  function Decode(fmt: Format, s: seq<byte>, out: seq<byte>, cap: nat): (r: Outcome)
    ensures if s == [] then r == Done(out) else r.Done? ==> |out| < |r.out|
    decreases |s|
  {
    if s == [] then Done(out)
    else if s[0] < MAX_RUN then
      var n := s[0] + 1;
      if |out| + n > cap then Full
      else if 1 + n > |s| then ShortRun
      else Decode(fmt, s[1 + n..], out + s[1..1 + n], cap)
    else
      match ReadCopy(fmt, s)
      case None => ShortOperands
      case Some(ref) =>
        if |out| + ref.len > cap then Full
        else if ref.dist > |out| then BadReference
        else Decode(fmt, s[ref.size..], CopyBack(out, ref.dist, ref.len), cap)
  }

  /** One round of a decoder on a literal run; `s` is the stream after the header `ctrl`. */
  lemma {:induction false} DecodeRun(fmt: Format, ctrl: byte, s: seq<byte>, out: seq<byte>, cap: nat)
    requires ctrl < MAX_RUN
    ensures var n := ctrl as int + 1;
            Decode(fmt, [ctrl] + s, out, cap) ==
            if |out| + n > cap then Full
            else if n > |s| then ShortRun
            else Decode(fmt, s[n..], out + s[..n], cap)
  {
    var t, n := [ctrl] + s, ctrl as int + 1;
    if n <= |s| {
      assert t[1..1 + n] == s[..n] && t[1 + n..] == s[n..];
    }
  }

  /** One round of a decoder on a back reference; `s` is the stream after the control byte `ctrl`. */
  lemma {:induction false} DecodeCopy(fmt: Format, ctrl: byte, s: seq<byte>, out: seq<byte>, cap: nat)
    requires ctrl >= MAX_RUN
    ensures Decode(fmt, [ctrl] + s, out, cap) ==
            match ReadCopy(fmt, [ctrl] + s)
            case None => ShortOperands
            case Some(ref) =>
              if |out| + ref.len > cap then Full
              else if ref.dist > |out| then BadReference
              else Decode(fmt, s[ref.size - 1..], CopyBack(out, ref.dist, ref.len), cap)
  {
    hide ReadCopy, CopyBack;
    var t := [ctrl] + s;
    assert forall k :: 1 <= k <= |t| ==> t[k..] == s[k - 1..];
  }

  // ---------- Serialising ----------

  /** The decisions of an encoder: the next byte as a literal, or a match. */
  datatype Token = Lit(b: byte) | Match(len: nat, dist: pos)

  function Chain(k: int): (r: seq<byte>)
    ensures |r| >= 1
    decreases k
  {
    if k >= 255 then [255] + Chain(k - 255) else [U8(k)]
  }

  function IsFar(fmt: Format, dist: nat): bool {
    fmt.Extended? && dist > NEAR_DISTANCE
  }

  /** The control byte and the length bytes of a match. */
  function LengthBytes(fmt: Format, len: nat, hi: nat): (r: seq<byte>)
    ensures |r| >= 1
  {
    if len < 9 then [U8((len - 2) * 32 + hi)]
    else [U8(224 + hi)] + if fmt.Short? then [U8(len - 9)] else Chain(len - 9)
  }

  /** The distance bytes; a far distance is announced by 255 and biased by 8191. */
  function DistanceBytes(fmt: Format, dist: nat): (r: seq<byte>)
    ensures |r| >= 1
  {
    if IsFar(fmt, dist) then
      var far := dist - 1 - NEAR_DISTANCE;
      [255, U8(far / 256), U8(far)]
    else [U8(dist - 1)]
  }

  /** A match in the stream. The short format splits a match of more than 264 bytes. */
  function CopyBytes(fmt: Format, len: nat, dist: nat): (r: seq<byte>)
    requires dist >= 1
    ensures |r| >= 2
    decreases len
  {
    var hi := if IsFar(fmt, dist) then 31 else (dist - 1) / 256;
    if fmt.Short? && len > 264 then
      [U8(224 + hi), 253, U8(dist - 1)] + CopyBytes(fmt, len - 262, dist)
    else LengthBytes(fmt, len, hi) + DistanceBytes(fmt, dist)
  }

  function RunBytes(run: seq<byte>): (r: seq<byte>)
    ensures |r| == if run == [] then 0 else |run| + 1
  {
    if run == [] then [] else [U8(|run| - 1)] + run
  }

  /** The stream for `toks`, when the literals `run` are pending in an unfinished run. */
  function Emit(fmt: Format, run: seq<byte>, toks: seq<Token>): (r: seq<byte>)
    decreases |toks|
  {
    if toks == [] then RunBytes(run)
    else
      match toks[0]
      case Lit(b) =>
        if |run| + 1 == MAX_RUN then RunBytes(run + [b]) + Emit(fmt, [], toks[1..])
        else Emit(fmt, run + [b], toks[1..])
      case Match(len, dist) =>
        RunBytes(run) + CopyBytes(fmt, len, dist) + Emit(fmt, [], toks[1..])
  }

  /** A match in the short format, byte by byte, as long as it takes a single reference. */
  lemma {:induction false} ShortMatch(len: nat, dist: nat)
    requires 3 <= len <= 264 && 1 <= dist <= 8192
    ensures CopyBytes(Short, len, dist)
         == if len <= 8 then [32 * (len - 2) + (dist - 1) / 256, (dist - 1) % 256]
            else [224 + (dist - 1) / 256, len - 9, (dist - 1) % 256]
  {
    assert (dist - 1) / 256 < 32;
  }

  /** And in the extended format: from distance 8192 on with two bytes more, and one more from 264 bytes on. */
  lemma {:induction false} ExtendedMatch(len: nat, dist: nat)
    requires 3 <= len <= 518 && 1 <= dist <= 73727
    ensures var hi := if dist <= 8191 then (dist - 1) / 256 else 31;
            CopyBytes(Extended, len, dist)
            == (if len <= 8 then [32 * (len - 2) + hi] else if len <= 263 then [224 + hi, len - 9]
                else [224 + hi, 255, len - 264])
             + if dist <= 8191 then [(dist - 1) % 256] else [255, (dist - 8192) / 256, (dist - 8192) % 256]
  {
    assert dist <= 8191 ==> (dist - 1) / 256 < 32;
    assert len >= 264 ==> Chain(len - 9) == [255] + Chain(len - 264) && Chain(len - 264) == [len - 264];
  }

  /** What finished output and open run become when the run takes one more literal. */
  function Advance(done: seq<byte>, run: seq<byte>, b: byte): (seq<byte>, seq<byte>) {
    if |run| + 1 == MAX_RUN then (done + RunBytes(run + [b]), []) else (done, run + [b])
  }

  lemma {:induction false} AdvanceEmits(fmt: Format, done: seq<byte>, run: seq<byte>, b: byte, toks: seq<Token>)
    ensures var (done', run') := Advance(done, run, b);
            done + Emit(fmt, run, [Lit(b)] + toks) == done' + Emit(fmt, run', toks)
  {
    assert ([Lit(b)] + toks)[1..] == toks;
  }

  lemma {:induction false} MatchEmits(fmt: Format, done: seq<byte>, run: seq<byte>, len: nat, dist: pos,
                          toks: seq<Token>)
    ensures done + Emit(fmt, run, [Match(len, dist)] + toks)
         == (done + RunBytes(run) + CopyBytes(fmt, len, dist)) + Emit(fmt, [], toks)
  {
    hide RunBytes, CopyBytes;
    assert ([Match(len, dist)] + toks)[1..] == toks;
  }

  // ---------- Meaning of tokens ----------

  /** Matches that the format can express and that cost less than the bytes they stand for. */
  predicate Legal(fmt: Format, len: nat, dist: pos) {
    && 3 <= len < U32
    && match fmt
       case Short => dist <= 8192
       case Extended => dist <= 73727 && (dist > NEAR_DISTANCE ==> len >= 5)
  }

  predicate Repeats(x: seq<byte>, dist: nat, from: nat, to: nat) {
    1 <= dist <= from && to <= |x| && forall i :: from <= i < to ==> x[i] == x[i - dist]
  }

  /** The tokens spell out exactly the bytes of `x` from position `p` on. */
  predicate Describes(fmt: Format, x: seq<byte>, p: nat, toks: seq<Token>)
    decreases |toks|
  {
    if toks == [] then p == |x|
    else
      match toks[0]
      case Lit(b) => p < |x| && x[p] == b && Describes(fmt, x, p + 1, toks[1..])
      case Match(len, dist) =>
        && Legal(fmt, len, dist)
        && Repeats(x, dist, p, p + len)
        && Describes(fmt, x, p + len, toks[1..])
  }

  // ---------- Round trip ----------

  lemma {:induction false} ChainReadsBack(k: nat, rest: seq<byte>)
    ensures ReadChain(Chain(k) + rest) == Some((k, |Chain(k)|))
    decreases k
  {
    var s := Chain(k) + rest;
    if k >= 255 {
      ChainReadsBack(k - 255, rest);
      assert s[1..] == Chain(k - 255) + rest;
    } else {
      assert s[0] == k;
    }
  }

  lemma {:induction false} LengthReadsBack(fmt: Format, len: nat, hi: nat, rest: seq<byte>)
    requires 3 <= len < U32 && hi < 32 && (fmt.Short? ==> len <= 264)
    ensures var h := LengthBytes(fmt, len, hi);
            h[0] >= 32 && h[0] % 32 == hi && ReadLength(fmt, h + rest) == Some((len, |h|))
  {
    var h := LengthBytes(fmt, len, hi);
    assert (h + rest)[0] == h[0];
    var field := if len < 9 then len - 2 else 7;
    assert h[0] == field * 32 + hi;
    assert h[0] / 32 == field && h[0] % 32 == hi;
    if len < 9 {
    } else if fmt.Short? {
      assert (h + rest)[1] == len - 9;
    } else {
      ChainReadsBack(len - 9, rest);
      assert (h + rest)[1..] == Chain(len - 9) + rest;
    }
  }

  /** A serialised match parses back to itself; near matches never look like the far escape. */
  lemma {:induction false} CopyReadsBack(fmt: Format, len: nat, dist: pos, rest: seq<byte>)
    requires Legal(fmt, len, dist) && (fmt.Short? ==> len <= 264)
    ensures var s := CopyBytes(fmt, len, dist);
            s[0] >= 32 && ReadCopy(fmt, s + rest) == Some(Reference(len, dist, |s|))
  {
    var hi := if IsFar(fmt, dist) then 31 else (dist - 1) / 256;
    var h, t := LengthBytes(fmt, len, hi), DistanceBytes(fmt, dist);
    LengthReadsBack(fmt, len, hi, t + rest);
    hide LengthBytes, ReadLength;
    var s := h + (t + rest);
    assert CopyBytes(fmt, len, dist) == h + t;
    hide CopyBytes;
    assert CopyBytes(fmt, len, dist) + rest == s;
    assert s[0] == h[0];
    Behind(h, t, rest);
    DistanceReadsBack(fmt, dist);
    hide DistanceBytes, Word;
  }

  /** The distance bytes and the upper bits in the control byte, which never look like the far escape when near. */
  lemma {:induction false} DistanceReadsBack(fmt: Format, dist: pos)
    requires dist <= if fmt.Short? then 8192 else 73727
    ensures var t := DistanceBytes(fmt, dist);
            if IsFar(fmt, dist) then |t| == 3 && t[0] == 255 && Word(t[1], t[2]) + NEAR_DISTANCE + 1 == dist
            else
              && |t| == 1 && (dist - 1) / 256 < 32 && Word((dist - 1) / 256, t[0]) + 1 == dist
              && (fmt.Extended? ==> !((dist - 1) / 256 == 31 && t[0] == 255))
  {
  }

  lemma {:induction false} Behind(h: seq<byte>, t: seq<byte>, rest: seq<byte>)
    ensures var s := h + (t + rest); forall i :: |h| <= i < |h| + |t| ==> s[i] == t[i - |h|]
  {
  }

  /** Decoding a match that needs no splitting extends the output by the bytes it repeats. */
  lemma {:induction false} OneCopyDecodes(fmt: Format, x: seq<byte>, p: nat, len: nat, dist: pos, rest: seq<byte>,
                          cap: nat)
    requires Legal(fmt, len, dist) && Repeats(x, dist, p, p + len) && |x| <= cap
    requires fmt.Short? ==> len <= 264
    ensures Decode(fmt, CopyBytes(fmt, len, dist) + rest, x[..p], cap) == Decode(fmt, rest, x[..p + len], cap)
  {
    var c := CopyBytes(fmt, len, dist);
    var s := c + rest;
    CopyReadsBack(fmt, len, dist, rest);
    assert s[0] == c[0] && s[|c|..] == rest;
    assert CopyBack(x[..p], dist, len) == x[..p + len] by {
      CopyBackUnique(x[..p], dist, x[..p + len]);
    }
  }

  /** Decoding a serialised match, split or not, extends the output by the bytes it repeats. */
  lemma {:induction false} CopyDecodes(fmt: Format, x: seq<byte>, p: nat, len: nat, dist: pos, rest: seq<byte>,
                          cap: nat)
    requires Legal(fmt, len, dist) && Repeats(x, dist, p, p + len) && |x| <= cap
    ensures Decode(fmt, CopyBytes(fmt, len, dist) + rest, x[..p], cap) == Decode(fmt, rest, x[..p + len], cap)
    decreases len
  {
    hide Decode, Emit;
    if fmt.Short? && len > 264 {
      var first, second := CopyBytes(fmt, 262, dist), CopyBytes(fmt, len - 262, dist);
      assert CopyBytes(fmt, len, dist) == first + second;
      assert (first + second) + rest == first + (second + rest);
      OneCopyDecodes(fmt, x, p, 262, dist, second + rest, cap);
      CopyDecodes(fmt, x, p + 262, len - 262, dist, rest, cap);
    } else {
      OneCopyDecodes(fmt, x, p, len, dist, rest, cap);
    }
  }

  /** Decoding one literal run extends the output by its bytes. */
  lemma {:induction false} RunDecodes(fmt: Format, run: seq<byte>, rest: seq<byte>, out: seq<byte>, cap: nat)
    requires |run| <= MAX_RUN && |out| + |run| <= cap
    ensures Decode(fmt, RunBytes(run) + rest, out, cap) == Decode(fmt, rest, out + run, cap)
  {
    var s := RunBytes(run) + rest;
    if run == [] {
      assert s == rest && out + run == out;
    } else {
      assert s[1..1 + |run|] == run && s[1 + |run|..] == rest;
    }
  }

  /** Whatever tokens spell out `x`, decoding their serialisation yields `x`. */
  lemma {:induction false} EmitDecodes(fmt: Format, x: seq<byte>, p: nat, run: seq<byte>, toks: seq<Token>, cap: nat)
    requires |run| < MAX_RUN && |run| <= p <= |x| <= cap && run == x[p - |run|..p]
    requires Describes(fmt, x, p, toks)
    ensures Decode(fmt, Emit(fmt, run, toks), x[..p - |run|], cap) == Done(x)
    decreases |toks|, 1
  {
    hide Decode, CopyBytes, CopyBack;
    var out := x[..p - |run|];
    assert out + run == x[..p];
    if toks == [] {
      RunDecodes(fmt, run, [], out, cap);
      assert RunBytes(run) + [] == RunBytes(run) && x[..p] == x;
    } else if toks[0].Match? {
      var Match(len, dist) := toks[0];
      var tail := Emit(fmt, [], toks[1..]);
      EmitDecodes(fmt, x, p + len, [], toks[1..], cap);
      CopyDecodes(fmt, x, p, len, dist, tail, cap);
      RunDecodes(fmt, run, CopyBytes(fmt, len, dist) + tail, out, cap);
      assert Emit(fmt, run, toks) == RunBytes(run) + (CopyBytes(fmt, len, dist) + tail);
    } else {
      LiteralDecodes(fmt, x, p, run, toks, cap);
    }
  }

  lemma {:induction false} LiteralDecodes(fmt: Format, x: seq<byte>, p: nat, run: seq<byte>, toks: seq<Token>, cap: nat)
    requires |run| < MAX_RUN && |run| <= p <= |x| <= cap && run == x[p - |run|..p]
    requires Describes(fmt, x, p, toks) && toks != [] && toks[0].Lit?
    ensures Decode(fmt, Emit(fmt, run, toks), x[..p - |run|], cap) == Done(x)
    decreases |toks|, 0
  {
    hide Decode, CopyBytes, CopyBack, RunBytes;
    var out, rest, run' := x[..p - |run|], toks[1..], run + [x[p]];
    assert run' == x[p + 1 - |run'|..p + 1];
    if |run'| == MAX_RUN {
      EmitDecodes(fmt, x, p + 1, [], rest, cap);
      RunDecodes(fmt, run', Emit(fmt, [], rest), out, cap);
      assert out + run' == x[..p + 1];
    } else {
      EmitDecodes(fmt, x, p + 1, run', rest, cap);
    }
  }

  /** A stream that begins with a literal begins with the header of a run. */
  lemma {:induction false} EmitHead(fmt: Format, run: seq<byte>, toks: seq<Token>)
    requires |run| < MAX_RUN && (run != [] || (toks != [] && toks[0].Lit?))
    ensures var s := Emit(fmt, run, toks); s != [] && s[0] < MAX_RUN
    decreases |toks|
  {
    if toks != [] && toks[0].Lit? && |run| + 1 < MAX_RUN {
      EmitHead(fmt, run + [toks[0].b], toks[1..]);
    }
  }

  // ---------- Size ----------

  lemma {:induction false} ChainSize(k: nat)
    ensures |Chain(k)| == k / 255 + 1
    decreases k
  {
    if k >= 255 {
      ChainSize(k - 255);
    }
  }

  /** A legal match takes at least one byte less than it stands for. */
  lemma {:induction false} CopySaves(fmt: Format, len: nat, dist: pos)
    requires Legal(fmt, len, dist)
    ensures |CopyBytes(fmt, len, dist)| < len
    decreases len
  {
    if fmt.Short? && len > 264 {
      CopySaves(fmt, len - 262, dist);
    } else if len >= 9 {
      ChainSize(len - 9);
    }
  }

  /** At most one header byte for every started group of 32 input bytes. */
  lemma {:induction false} EmitSize(fmt: Format, x: seq<byte>, p: nat, run: seq<byte>, toks: seq<Token>)
    requires |run| < MAX_RUN && p <= |x| && Describes(fmt, x, p, toks)
    ensures var m := |run| + |x| - p; |Emit(fmt, run, toks)| <= m + (m + 31) / 32
    decreases |toks|
  {
    if toks != [] {
      var rest := toks[1..];
      match toks[0]
      case Lit(b) =>
        EmitSize(fmt, x, p + 1, if |run| + 1 == MAX_RUN then [] else run + [b], rest);
      case Match(len, dist) =>
        CopySaves(fmt, len, dist);
        EmitSize(fmt, x, p + len, [], rest);
    }
  }
}
