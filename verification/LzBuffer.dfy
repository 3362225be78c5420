/**
 Writing into an output array: single bytes, and the ways the decoders copy bytes
 that were already written. However a copy is done, the buffer ends up as if it had
 been done one byte after the other.
 */
module LzBuffer {
  import opened Bytes
  import opened LzFormat

  /** Stores a byte and moves on: every such write is checked against the array. */
  method Put(output: array<byte>, start: nat, v: int) returns (op: nat)
    requires start < output.Length
    modifies output
    ensures op == start + 1
    ensures output[..op] == old(output[..start]) + [U8(v)]
  {
    output[start] := U8(v);
    op := start + 1;
  }

  /** Three such writes in a row. */
  method PutThree(output: array<byte>, start: nat, a: int, b: int, c: int) returns (op: nat)
    requires start + 3 <= output.Length
    modifies output
    ensures op == start + 3
    ensures output[..op] == old(output[..start]) + [U8(a), U8(b), U8(c)]
  {
    op := Put(output, start, a);
    op := Put(output, op, b);
    op := Put(output, op, c);
  }

  /** Copies `n` input bytes, one at a time. */
  method PutAll(output: array<byte>, start: nat, s: seq<byte>, from: nat, n: nat) returns (op: nat)
    requires from + n <= |s| && start + n <= output.Length
    modifies output
    ensures op == start + n
    ensures output[..op] == old(output[..start]) + s[from..from + n]
  {
    op := start;
    ghost var before := output[..start];
    var left, ip := n, from;
    while left != 0
      invariant 0 <= left <= n && ip == from + (n - left) && op == start + (n - left)
      invariant output[..op] == before + s[from..ip]
    {
      assert s[from..ip + 1] == s[from..ip] + [s[ip]];
      op := Put(output, op, s[ip]);
      ip, left := ip + 1, left - 1;
    }
  }

  /** Copies `len` bytes one by one, the source staying `dist` behind the destination. */
  method CopyOctets(output: array<byte>, start: nat, dist: pos, len: nat) returns (op: nat)
    requires dist <= start && start + len <= output.Length
    modifies output
    ensures op == start + len
    ensures output[..op] == CopyBack(old(output[..start]), dist, len)
  {
    op := start;
    var ref, left := op - dist, len;
    ghost var before := output[..start];
    while left != 0
      invariant 0 <= left <= len && op == start + (len - left) && ref == op - dist
      invariant output[..op] == CopyBack(before, dist, len - left)
    {
      assert output[ref] == output[..op][ref];
      op := Put(output, op, output[ref]);
      ref, left := ref + 1, left - 1;
    }
  }

  /** A run of one byte: its value is loaded once and stored `len` times. */
  method FillRun(output: array<byte>, start: nat, len: nat) returns (op: nat)
    requires 1 <= start && start + len <= output.Length
    modifies output
    ensures op == start + len
    ensures output[..op] == CopyBack(old(output[..start]), 1, len)
  {
    op := start;
    var b, left := output[start - 1], len;
    ghost var before := output[..start];
    while left != 0
      invariant 0 <= left <= len && op == start + (len - left)
      invariant output[..op] == CopyBack(before, 1, len - left) && output[..op][op - 1] == b
    {
      op := Put(output, op, b);
      left := left - 1;
    }
  }

  /**
   `*q++ = *p++` on 16-bit words: both bytes are read before either is written, which
   is the same as copying them in turn because the distance is at least two.
   */
  method CopyWord(output: array<byte>, start: nat, dist: nat) returns (op: nat)
    requires 2 <= dist <= start && start + 2 <= output.Length
    modifies output
    ensures op == start + 2
    ensures output[..op] == CopyBack(old(output[..start]), dist, 2)
  {
    var low, high := output[start - dist], output[start - dist + 1];
    ghost var before := output[..start];
    assert CopyBack(before, dist, 1) == before + [low];
    assert (before + [low])[start + 1 - dist] == high;
    assert CopyBack(before, dist, 2) == before + [low] + [high];
    output[start], output[start + 1] := low, high;
    op := start + 2;
  }

  lemma {:induction false} CopyBackTwice(out: seq<byte>, dist: pos, a: nat, b: nat)
    requires dist <= |out|
    ensures CopyBack(CopyBack(out, dist, a), dist, b) == CopyBack(out, dist, a + b)
    decreases b
  {
    if b > 0 {
      CopyBackTwice(out, dist, a, b - 1);
    }
  }

  /** An odd byte first, then groups of four words, then the remaining words. */
  method CopyWords(output: array<byte>, start: nat, dist: nat, len: nat) returns (op: nat)
    requires 2 <= dist <= start && start + len <= output.Length
    modifies output
    ensures op == start + len
    ensures output[..op] == CopyBack(old(output[..start]), dist, len)
  {
    hide CopyBack;
    ghost var before := output[..start];
    op := CopyOctets(output, start, dist, len % 2);
    var words := len / 2;
    while words > 4
      invariant words >= 0 && op + 2 * words == start + len && op >= start
      invariant output[..op] == CopyBack(before, dist, op - start)
    {
      var k := 0;
      while k < 4
        invariant 0 <= k <= 4 && op + 2 * (words - k) == start + len && op >= start
        invariant output[..op] == CopyBack(before, dist, op - start)
      {
        CopyBackTwice(before, dist, op - start, 2);
        op := CopyWord(output, op, dist);
        k := k + 1;
      }
      words := words - 4;
    }
    while words > 0
      invariant words >= 0 && op + 2 * words == start + len && op >= start
      invariant output[..op] == CopyBack(before, dist, op - start)
    {
      CopyBackTwice(before, dist, op - start, 2);
      op := CopyWord(output, op, dist);
      words := words - 1;
    }
  }

  /** `memcpy`, allowed where source and destination do not overlap. */
  method CopyBlock(output: array<byte>, start: nat, dist: pos, len: nat) returns (op: nat)
    requires len <= dist <= start && start + len <= output.Length
    modifies output
    ensures op == start + len
    ensures output[..op] == CopyBack(old(output[..start]), dist, len)
  {
    ghost var before := output[..start];
    forall i | 0 <= i < len {
      output[start + i] := output[start - dist + i];
    }
    op := start + len;
    assert output[..start] == before;
    CopyBackUnique(before, dist, output[..op]);
  }

  /** Storing a header in front of bytes already written completes a literal run. */
  method PatchHeader(output: array<byte>, at: nat, end: nat, v: byte, ghost done: seq<byte>, ghost run: seq<byte>)
    requires at < end <= output.Length && at == |done| && end == |done| + 1 + |run|
    requires output[..at] == done && output[at + 1..end] == run
    modifies output
    ensures output[..end] == done + ([v] + run)
  {
    output[at] := v;
    forall i | 0 <= i < end
      ensures output[..end][i] == (done + ([v] + run))[i]
    {
      if i < at {
        assert output[..at][i] == done[i];
      } else if i > at {
        assert output[at + 1..end][i - at - 1] == run[i - at - 1];
      }
    }
  }
}
