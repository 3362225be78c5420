/** The LZF decoder in C: total on every stream, and never outside its two buffers. */
module LzfDecompress {
  import opened Bytes
  import opened LzFormat
  import opened LzBuffer

  /** What the decoder leaves in errno. */
  datatype Errno = NoError | E2BIG | EINVAL

  function ErrnoOf(o: Outcome): Errno {
    match o
    case Done(_) => NoError
    case Full => E2BIG
    case _ => EINVAL
  }

  /** A full buffer is told from a run, a reference and an operand that are not there. */
  lemma {:induction false} ErrnoIs(ctrl: byte, s: seq<byte>, out: seq<byte>, cap: nat)
    ensures var e, n := ErrnoOf(Decode(Short, [ctrl] + s, out, cap)), ctrl as nat + 1;
            ctrl < 32 ==> (|out| + n > cap ==> e == E2BIG) && (|out| + n <= cap && n > |s| ==> e == EINVAL)
    ensures var e, len := ErrnoOf(Decode(Short, [ctrl] + s, out, cap)), ctrl as nat / 32 + 2;
            32 <= ctrl < 224 ==>
              && (s == [] ==> e == EINVAL)
              && (s != [] && |out| + len > cap ==> e == E2BIG)
              && (s != [] && |out| + len <= cap && 256 * (ctrl as nat % 32) + s[0] as nat >= |out| ==> e == EINVAL)
    ensures ErrnoOf(Decode(Short, [], out, cap)) == NoError
  {
    hide Decode, CopyBack;
    if ctrl < 32 {
      DecodeRun(Short, ctrl, s, out, cap);
    } else {
      DecodeCopy(Short, ctrl, s, out, cap);
    }
    NothingMore(out, cap);
  }

  lemma {:induction false} NothingMore(out: seq<byte>, cap: nat)
    ensures Decode(Short, [], out, cap) == Done(out)
  {
  }

  /**
   Copies `length + 2` octets from `dist` before `op`: more than nine by one block copy when
   the areas are disjoint or octet by octet when not, up to nine by the falling-through switch.
   */
  method CopyReference(output: array<byte>, start: nat, dist: pos, length: nat) returns (op: nat)
    requires dist <= start && start + length + 2 <= output.Length
    modifies output
    ensures op == start + length + 2
    ensures output[..op] == CopyBack(old(output[..start]), dist, length + 2)
  {
    hide CopyBack;
    if length > 9 {
      var len := length + 2;
      if start >= (start - dist) + len {
        op := CopyBlock(output, start, dist, len);
      } else {
        op := CopyOctets(output, start, dist, len);
      }
    } else {
      CopyBackTwice(output[..start], dist, length, 2);
      op := CopyOctets(output, start, dist, length);
      op := CopyOctets(output, op, dist, 2);
    }
  }

  /**
   What the decoder makes of a stream. It looks at a control byte before it compares its
   position with the end, so on the empty stream it acts on the byte `stale` that happens
   to lie there, and then fails one of its tests.
   */
  function Meaning(s: seq<byte>, stale: byte, cap: nat): Outcome {
    if s != [] then Decode(Short, s, [], cap)
    else if stale >= MAX_RUN then ShortOperands
    else if stale as int + 1 > cap then Full
    else ShortRun
  }

  /** The operands of a back reference: the length less two, the distance, and the new position. */
  method ReadOperands(s: seq<byte>, start: nat, ctrl: byte) returns (ok: bool, len: nat, dist: nat, ip: nat)
    requires ctrl >= 32
    ensures start > |s| ==> !ok
    ensures start <= |s| ==> ok == ReadCopy(Short, [ctrl] + s[start..]).Some?
    ensures ok ==> start < ip <= |s|
                   && ReadCopy(Short, [ctrl] + s[start..]) == Some(Reference(len + 2, dist, ip - start + 1))
  {
    ok, ip := false, start;
    len := ctrl / 32;
    dist := Word(ctrl % 32, 1);
    if ip >= |s| { return; }
    if len == 7 {
      len := len + s[ip];
      ip := ip + 1;
      if ip >= |s| { return; }
    }
    dist := dist + s[ip];
    ip := ip + 1;
    ok := true;
  }

  /** A literal run behind its header `ctrl`: copied, or the error that it causes. */
  method CopyRun(s: seq<byte>, start: nat, ctrl: byte, output: array<byte>, from: nat)
    returns (errno: Errno, ip: nat, op: nat)
    requires ctrl < 32 && from <= output.Length
    modifies output
    ensures start <= |s| ==>
              var o := Decode(Short, [ctrl] + s[start..], old(output[..from]), output.Length);
              if errno != NoError then ErrnoOf(o) == errno
              else start < ip <= |s| && op <= output.Length && o == Decode(Short, s[ip..], output[..op], output.Length)
    ensures start > |s| ==> errno == if from + ctrl as nat + 1 > output.Length then E2BIG else EINVAL
  {
    hide Decode;
    errno, ip, op := NoError, start, from;
    if start <= |s| {
      DecodeRun(Short, ctrl, s[start..], output[..from], output.Length);
    }
    var run: nat := ctrl;
    run := run + 1;
    if from + run > output.Length { return E2BIG, ip, op; }
    if start + run > |s| { return EINVAL, ip, op; }
    assert s[start..][..run] == s[start..start + run] && s[start..][run..] == s[start + run..];
    op := PutAll(output, from, s, start, run);
    ip := start + run;
  }

  /** A back reference behind its control byte: copied, or the error that it causes. */
  method CopyBehind(s: seq<byte>, start: nat, ctrl: byte, output: array<byte>, from: nat)
    returns (errno: Errno, ip: nat, op: nat)
    requires ctrl >= 32 && from <= output.Length
    modifies output
    ensures start <= |s| ==>
              var o := Decode(Short, [ctrl] + s[start..], old(output[..from]), output.Length);
              if errno != NoError then ErrnoOf(o) == errno
              else start < ip <= |s| && op <= output.Length && o == Decode(Short, s[ip..], output[..op], output.Length)
    ensures start > |s| ==> errno == EINVAL
  {
    hide Decode, ReadCopy, CopyBack;
    errno, ip, op := NoError, start, from;
    if start <= |s| {
      DecodeCopy(Short, ctrl, s[start..], output[..from], output.Length);
    }
    var ok, len, back, next := ReadOperands(s, start, ctrl);
    if !ok { return EINVAL, ip, op; }
    assert s[start..][next - start..] == s[next..];
    ip := next;
    if from + len + 2 > output.Length { return E2BIG, ip, op; }
    if back > from { return EINVAL, ip, op; }
    op := CopyReference(output, from, back, len);
  }

  /**
   Decodes `s` into `output`. The result is nonzero exactly when the stream is not empty
   and parses within the capacity, and then the output holds what the parser yields.
   */
  method Decompress(s: seq<byte>, stale: byte, output: array<byte>) returns (n: nat, errno: Errno)
    modifies output
    ensures errno == ErrnoOf(Meaning(s, stale, output.Length))
    ensures match Meaning(s, stale, output.Length)
            case Done(out) => n == |out| && 0 < n <= output.Length && output[..n] == out
            case _ => n == 0
  {
    hide Decode;
    ghost var outcome := Meaning(s, stale, output.Length);
    var ip: nat, op: nat := 0, 0;
    assert s[0..] == s && output[..0] == [];
    var first := true;
    while first || ip < |s|
      invariant ip <= |s| && op <= output.Length && (first ==> ip == 0 && op == 0)
      invariant s == [] ==> first
      invariant s != [] ==> Decode(Short, s[ip..], output[..op], output.Length) == outcome
      decreases |s| - ip, if first then 1 else 0
    {
      first := false;
      var ctrl := if ip < |s| then s[ip] else stale;
      if ip < |s| {
        assert s[ip..] == [ctrl] + s[ip + 1..];
      }
      if ctrl < 32 {
        errno, ip, op := CopyRun(s, ip + 1, ctrl, output, op);
      } else {
        errno, ip, op := CopyBehind(s, ip + 1, ctrl, output, op);
      }
      if errno != NoError { return 0, errno; }
    }
    return op, NoError;
  }
}
