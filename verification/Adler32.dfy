/**
 The Adler-32 checksum as 6pack computes it, with the reductions put off for up to 5552
 bytes, against the byte-wise definition of section 2.2 of RFC 1950.
 */
module Adler32 {
  import opened Bytes

  const BASE := 65521
  const BLOCK := 5552
  type u32 = x: int | 0 <= x < 0x1_0000_0000

  datatype Sums = Sums(s1: nat, s2: nat)

  // ---------- Definition ----------

  function AddByte(s: Sums, b: byte): Sums {
    var s1 := (s.s1 + b) % BASE;
    Sums(s1, (s.s2 + s1) % BASE)
  }

  function AddAll(s: Sums, buf: seq<byte>): Sums
    decreases |buf|
  {
    if buf == [] then s else AddAll(AddByte(s, buf[0]), buf[1..])
  }

  function Reduced(s: Sums): Sums {
    Sums(s.s1 % BASE, s.s2 % BASE)
  }

  function Unpack(c: u32): Sums {
    Sums(c % 65536, c / 65536)
  }

  function Pack(s: Sums): u32
    requires s.s1 < 65536 && s.s2 < 65536
  {
    s.s2 * 65536 + s.s1
  }

  lemma {:induction false} AddAllReduced(s: Sums, buf: seq<byte>)
    ensures buf != [] ==> AddAll(s, buf).s1 < BASE && AddAll(s, buf).s2 < BASE
    decreases |buf|
  {
    if |buf| > 1 {
      AddAllReduced(AddByte(s, buf[0]), buf[1..]);
    }
  }

  /** The checksum after `buf`, when it was `c` before. */
  function Update(c: u32, buf: seq<byte>): u32 {
    AddAllReduced(Unpack(c), buf);
    Pack(AddAll(Unpack(c), buf))
  }

  /** Checksumming two buffers one after the other is checksumming their concatenation. */
  lemma {:induction false} UpdateConcat(c: u32, a: seq<byte>, b: seq<byte>)
    ensures Update(Update(c, a), b) == Update(c, a + b)
  {
    AddAllConcat(Unpack(c), a, b);
    AddAllReduced(Unpack(c), a);
    PackUnpack(AddAll(Unpack(c), a));
  }

  lemma {:induction false} PackUnpack(s: Sums)
    requires s.s1 < 65536 && s.s2 < 65536
    ensures Unpack(Pack(s)) == s
  {
  }

  lemma {:induction false} AddAllConcat(s: Sums, a: seq<byte>, b: seq<byte>)
    ensures AddAll(s, a + b) == AddAll(AddAll(s, a), b)
    decreases |a|
  {
    if a == [] {
      assert a + b == b;
    } else {
      AddAllConcat(AddByte(s, a[0]), a[1..], b);
      assert (a + b)[1..] == a[1..] + b;
    }
  }

  // ---------- Sums without reductions ----------

  function PlainByte(s: Sums, b: byte): Sums {
    Sums(s.s1 + b, s.s2 + (s.s1 + b))
  }

  function PlainAll(s: Sums, buf: seq<byte>): Sums {
    if buf == [] then s else PlainByte(PlainAll(s, buf[..|buf| - 1]), buf[|buf| - 1])
  }

  lemma {:induction false} ModSum(a: nat, b: nat)
    ensures (a % BASE + b) % BASE == (a + b) % BASE
  {
  }

  lemma {:induction false} PlainByteReduces(s: Sums, t: Sums, b: byte)
    requires Reduced(s) == Reduced(t)
    ensures AddByte(s, b) == Reduced(PlainByte(t, b))
  {
    ModSum(s.s1, b);
    ModSum(t.s1, b);
    var s1, t1 := (s.s1 + b) % BASE, t.s1 + b;
    assert s1 == t1 % BASE;
    ModSum(s.s2, s1);
    ModSum(t.s2, s1);
    ModSum(t1, t.s2);
  }

  lemma {:induction false} AddAllLast(s: Sums, buf: seq<byte>)
    requires buf != []
    ensures AddAll(s, buf) == AddByte(AddAll(s, buf[..|buf| - 1]), buf[|buf| - 1])
  {
    var head, last := buf[..|buf| - 1], buf[|buf| - 1];
    assert buf == head + [last];
    AddAllConcat(s, head, [last]);
  }

  lemma {:induction false} ReducedTwice(s: Sums)
    ensures Reduced(Reduced(s)) == Reduced(s)
  {
  }

  /** Putting off the reductions to the end of a buffer does not change the result. */
  lemma {:induction false} PlainAllReduces(s: Sums, buf: seq<byte>)
    ensures Reduced(AddAll(s, buf)) == Reduced(PlainAll(s, buf))
    ensures buf != [] ==> AddAll(s, buf) == Reduced(PlainAll(s, buf))
    decreases |buf|
  {
    if buf != [] {
      var head, last := buf[..|buf| - 1], buf[|buf| - 1];
      PlainAllReduces(s, head);
      AddAllLast(s, buf);
      PlainByteReduces(AddAll(s, head), PlainAll(s, head), last);
      hide AddAll, AddByte;
      ReducedTwice(PlainAll(s, buf));
    }
  }

  // ---------- Closed form ----------

  function Sum(buf: seq<byte>): nat {
    if buf == [] then 0 else buf[0] + Sum(buf[1..])
  }

  /** The sum of the bytes, each as often as there are bytes from it to the end. */
  function Weighted(buf: seq<byte>): nat {
    if buf == [] then 0 else |buf| * buf[0] + Weighted(buf[1..])
  }

  lemma {:induction false} SumsOfLast(head: seq<byte>, last: byte)
    ensures Sum(head + [last]) == Sum(head) + last
    ensures Weighted(head + [last]) == Weighted(head) + Sum(head) + last
  {
    var buf := head + [last];
    if head == [] {
      assert buf[1..] == [];
    } else {
      assert buf[1..] == head[1..] + [last];
      SumsOfLast(head[1..], last);
      assert |buf| * buf[0] == |head| * head[0] + head[0];
    }
  }

  lemma {:induction false} OnceMore(n: nat, s: nat)
    ensures (n + 1) * s == n * s + s
  {
  }

  lemma {:induction false} PlainAllIs(s: Sums, buf: seq<byte>)
    ensures PlainAll(s, buf) == Sums(s.s1 + Sum(buf), s.s2 + |buf| * s.s1 + Weighted(buf))
    decreases |buf|
  {
    if buf == [] {
      assert Sum(buf) == 0 && Weighted(buf) == 0;
    } else {
      hide Sum, Weighted;
      var n: nat := |buf| - 1;
      var head, last := buf[..n], buf[n];
      PlainAllIs(s, head);
      SumsOfLast(head, last);
      assert head + [last] == buf;
      OnceMore(n, s.s1);
    }
  }

  /**
   What bytes do to a checksum: its lower half grows by their sum, its upper half by all the
   lower halves on the way, both modulo the largest prime below 2^16.
   */
  lemma {:induction false} ClosedForm(c: u32, buf: seq<byte>)
    requires buf != []
    ensures Update(c, buf) % 65536 == (c % 65536 + Sum(buf)) % 65521
    ensures Update(c, buf) / 65536 == (c / 65536 + |buf| * (c % 65536) + Weighted(buf)) % 65521
  {
    hide AddAll, PlainAll, Sum, Weighted;
    PlainAllIs(Unpack(c), buf);
    PlainAllReduces(Unpack(c), buf);
    PackUnpack(AddAll(Unpack(c), buf));
  }

  /** The checksum of a whole buffer, as section 2.2 of RFC 1950 has it. */
  predicate IsChecksum(c: u32, buf: seq<byte>) {
    c % 65536 == (1 + Sum(buf)) % 65521 && c / 65536 == (|buf| + Weighted(buf)) % 65521
  }

  lemma {:induction false} ChecksumIs(buf: seq<byte>)
    ensures IsChecksum(Update(1, buf), buf)
  {
    if buf != [] {
      hide Update, Sum, Weighted;
      ClosedForm(1, buf);
    }
  }

  // ---------- No overflow ----------

  function Triangle(n: nat): nat {
    if n == 0 then 0 else Triangle(n - 1) + n
  }

  lemma {:induction false} TriangleClosed(n: nat)
    ensures 2 * Triangle(n) == n * (n + 1)
  {
    if n > 0 {
      TriangleClosed(n - 1);
    }
  }

  lemma {:induction false} TriangleGrows(m: nat, n: nat)
    requires m <= n
    ensures Triangle(m) <= Triangle(n)
    decreases n - m
  {
    if m < n {
      TriangleGrows(m, n - 1);
    }
  }

  /** After `j` bytes from sums of 16 bits each. */
  predicate Bounded(s: Sums, j: nat) {
    s.s1 <= 65535 + 255 * j && s.s2 <= 65535 + 65535 * j + 255 * Triangle(j)
  }

  /** Up to 5552 bytes can be added before either sum could leave 32 bits. */
  lemma {:induction false} BlockFits(s: Sums, j: nat)
    requires Bounded(s, j) && j <= BLOCK
    ensures s.s1 < 0x1_0000_0000 && s.s2 < 0x1_0000_0000
  {
    TriangleGrows(j, BLOCK);
    TriangleClosed(BLOCK);
  }

  lemma {:induction false} BoundedStep(s: Sums, b: byte, j: nat)
    requires Bounded(s, j)
    ensures Bounded(PlainByte(s, b), j + 1)
  {
    assert Triangle(j + 1) == Triangle(j) + j + 1;
  }

  lemma {:induction false} PlainAllStep(s: Sums, buf: seq<byte>, from: nat, ptr: nat)
    requires from <= ptr < |buf|
    ensures PlainAll(s, buf[from..ptr + 1]) == PlainByte(PlainAll(s, buf[from..ptr]), buf[ptr])
  {
    assert buf[from..ptr + 1] == buf[from..ptr] + [buf[ptr]];
  }

  // ---------- The loops ----------

  /** Adds one byte to the first sum and that to the second, in 32-bit arithmetic. */
  method Add(s1: u32, s2: u32, buf: seq<byte>, ptr: nat, ghost start: Sums, ghost from: nat)
    returns (s1': u32, s2': u32, ptr': nat)
    requires from <= ptr < |buf| && ptr - from < BLOCK
    requires Sums(s1, s2) == PlainAll(start, buf[from..ptr]) && Bounded(Sums(s1, s2), ptr - from)
    ensures ptr' == ptr + 1
    ensures Sums(s1', s2') == PlainAll(start, buf[from..ptr']) && Bounded(Sums(s1', s2'), ptr' - from)
  {
    hide Bounded;
    PlainAllStep(start, buf, from, ptr);
    BoundedStep(Sums(s1, s2), buf[ptr], ptr - from);
    BlockFits(PlainByte(Sums(s1, s2), buf[ptr]), ptr + 1 - from);
    hide PlainAll;
    s1' := s1 + buf[ptr];
    s2' := s2 + s1';
    ptr' := ptr + 1;
  }

  /** One block: groups of eight additions, then single ones. */
  method AddBlock(s1: u32, s2: u32, buf: seq<byte>, from: nat, size: nat) returns (s1': u32, s2': u32)
    requires from + size <= |buf| && size <= BLOCK && s1 <= 65535 && s2 <= 65535
    ensures Sums(s1', s2') == PlainAll(Sums(s1, s2), buf[from..from + size])
  {
    hide PlainAll, Triangle;
    ghost var start := Sums(s1, s2);
    var k, ptr := size, from;
    s1', s2' := s1, s2;
    NothingAdded(start, buf, from);
    while k >= 8
      invariant 0 <= k <= size && ptr == from + (size - k)
      invariant Sums(s1', s2') == PlainAll(start, buf[from..ptr]) && Bounded(Sums(s1', s2'), ptr - from)
    {
      s1', s2', ptr := Add(s1', s2', buf, ptr, start, from);
      s1', s2', ptr := Add(s1', s2', buf, ptr, start, from);
      s1', s2', ptr := Add(s1', s2', buf, ptr, start, from);
      s1', s2', ptr := Add(s1', s2', buf, ptr, start, from);
      s1', s2', ptr := Add(s1', s2', buf, ptr, start, from);
      s1', s2', ptr := Add(s1', s2', buf, ptr, start, from);
      s1', s2', ptr := Add(s1', s2', buf, ptr, start, from);
      s1', s2', ptr := Add(s1', s2', buf, ptr, start, from);
      k := k - 8;
    }
    while k > 0
      invariant 0 <= k <= size && ptr == from + (size - k)
      invariant Sums(s1', s2') == PlainAll(start, buf[from..ptr]) && Bounded(Sums(s1', s2'), ptr - from)
    {
      s1', s2', ptr := Add(s1', s2', buf, ptr, start, from);
      k := k - 1;
    }
  }

  lemma {:induction false} NothingAdded(s: Sums, buf: seq<byte>, from: nat)
    requires from <= |buf| && s.s1 <= 65535 && s.s2 <= 65535
    ensures PlainAll(s, buf[from..from]) == s && Bounded(s, 0)
  {
  }

  /** Computes the byte-wise checksum with one reduction per block, never leaving 32 bits. */
  method UpdateAdler32(checksum: u32, buf: seq<byte>) returns (c: u32)
    ensures c == Update(checksum, buf)
    ensures checksum == 1 ==> IsChecksum(c, buf)
  {
    hide AddAll, PlainAll, IsChecksum;
    ChecksumIs(buf);
    var s1: u32, s2: u32 := checksum % 65536, checksum / 65536 % 65536;
    var len, ptr := |buf|, 0;
    ghost var start := Unpack(checksum);
    AddAllNothing(start, buf);
    while len > 0
      invariant 0 <= len <= |buf| && ptr == |buf| - len
      invariant s1 <= 65535 && s2 <= 65535 && Sums(s1, s2) == AddAll(start, buf[..ptr])
    {
      var k := if len < BLOCK then len else BLOCK;
      len := len - k;
      ghost var before := Sums(s1, s2);
      s1, s2 := AddBlock(s1, s2, buf, ptr, k);
      s1, s2 := s1 % BASE, s2 % BASE;
      ghost var block := buf[ptr..ptr + k];
      PlainAllReduces(before, block);
      AddAllConcat(start, buf[..ptr], block);
      assert buf[..ptr] + block == buf[..ptr + k];
      ptr := ptr + k;
    }
    assert buf[..ptr] == buf;
    c := s2 * 65536 + s1;
  }

  lemma {:induction false} AddAllNothing(s: Sums, buf: seq<byte>)
    ensures AddAll(s, buf[..0]) == s
  {
  }
}
