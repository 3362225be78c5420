/**
 The `.lzf` file format: blocks with a five or seven byte header. The reader always asks
 for seven header bytes and carries what it read too much over to the next block.
 Files are byte sequences, and reading takes as many of the wanted bytes as are left.
 */
module LzfStream {
  import opened Arithmetic
  import opened Bytes
  import opened LzFormat
  import opened LzSearch
  import LzfCompress
  import LzfDecompress
  import Lzf
  import Repeated

  const MAX_BLOCKSIZE := 65535
  const TYPE0_HDR_SIZE := 5
  const TYPE1_HDR_SIZE := 7
  const MAX_HDR_SIZE := 7
  const MIN_HDR_SIZE := 5
  const Z: byte := 'Z' as int
  const V: byte := 'V' as int

  // ---------- The stream written ----------

  function StoredBlock(b: seq<byte>): seq<byte> {
    [Z, V, 0, U8(|b| / 256), U8(|b|)] + b
  }

  function PackedBlock(b: seq<byte>, c: seq<byte>): seq<byte> {
    [Z, V, 1, U8(|c| / 256), U8(|c|), U8(|b| / 256), U8(|b|)] + c
  }

  /** A block is compressed if that saves at least four bytes, or if it has at most four and fits. */
  function BlockBytes(b: seq<byte>, hash: nat -> nat, tab: Table): seq<byte> {
    var c := LzfCompress.Compressed(b, hash, tab, if |b| > 4 then |b| - 4 else |b|);
    if c != [] then PackedBlock(b, c) else StoredBlock(b)
  }

  /** The stream for `data`: each block has hash values and initial table contents of its own. */
  function Stream(data: seq<byte>, size: pos, hash: nat -> nat -> nat, tabs: seq<Table>, k: nat): seq<byte>
    decreases |data|
  {
    if data == [] then []
    else
      var us := if |data| < size then |data| else size;
      var tab: Table := if tabs == [] then [0] else tabs[0];
      BlockBytes(data[..us], hash(k), tab)
      + Stream(data[us..], size, hash, if tabs == [] then [] else tabs[1..], k + 1)
  }

  // ---------- The stream read ----------

  /** What was written to the output, and whether reading ended well. */
  datatype Result = Finished(out: seq<byte>) | Failed(out: seq<byte>)

  /** A block header: its size, the payload size, and the size of the block's data. */
  datatype Head = End | Bad | Block(packed: bool, hdr: nat, bytes: nat, us: nat)

  function ReadHead(s: seq<byte>): (h: Head)
    ensures h.Block? ==> 5 <= h.hdr <= |s| && h.hdr <= 7 && h.bytes <= MAX_BLOCKSIZE && (!h.packed ==> h.us == h.bytes)
  {
    if s == [] || s[0] == 0 then End
    else if |s| < MIN_HDR_SIZE || s[0] != Z || s[1] != V then Bad
    else if s[2] == 0 then Block(false, TYPE0_HDR_SIZE, Word(s[3], s[4]), Word(s[3], s[4]))
    else if s[2] == 1 && |s| >= TYPE1_HDR_SIZE then Block(true, TYPE1_HDR_SIZE, Word(s[3], s[4]), Word(s[5], s[6]))
    else Bad
  }

  /**
   The bytes of a compressed block when the decoder returns exactly `us`. It returns zero
   for a block it rejects and for one of no bytes, and zero is what an empty block asks for.
   */
  function Unpacked(c: seq<byte>, us: nat): (r: Option<seq<byte>>)
    ensures r.Some? ==> |r.value| == us
  {
    match Decode(Short, c, [], us)
    case Done(b) => if |b| == us then Some(b) else None
    case _ => if us == 0 then Some([]) else None
  }

  function BlockData(h: Head, payload: seq<byte>): Option<seq<byte>>
    requires h.Block?
  {
    if h.packed then Unpacked(payload, h.us) else Some(payload)
  }

  function Uncompress(s: seq<byte>, out: seq<byte>): Result
    decreases |s|
  {
    var h := ReadHead(s);
    if h.End? then Finished(out)
    else if h.Bad? || |s| < h.hdr + h.bytes then Failed(out)
    else
      match BlockData(h, s[h.hdr..][..h.bytes])
      case None => Failed(out)
      case Some(b) => Uncompress(s[h.hdr..][h.bytes..], out + b)
  }

  // ---------- Round trip ----------

  lemma {:induction false} WordReadsBack(n: nat)
    requires n <= MAX_BLOCKSIZE
    ensures Word(U8(n / 256), U8(n)) == n
  {
    assert n / 256 < 256;
  }

  lemma {:induction false} BlockInFront(head: seq<byte>, body: seq<byte>, rest: seq<byte>)
    ensures var s := head + body + rest; s[|head|..][..|body|] == body && s[|head|..][|body|..] == rest
  {
    var s := head + body + rest;
    assert s[|head|..] == body + rest;
  }

  lemma {:induction false} StoredReadsBack(b: seq<byte>, rest: seq<byte>, out: seq<byte>)
    requires |b| <= MAX_BLOCKSIZE
    ensures Uncompress(StoredBlock(b) + rest, out) == Uncompress(rest, out + b)
  {
    hide Word, U8;
    var s := StoredBlock(b) + rest;
    WordReadsBack(|b|);
    assert ReadHead(s) == Block(false, 5, |b|, |b|);
    BlockInFront([Z, V, 0, U8(|b| / 256), U8(|b|)], b, rest);
  }

  lemma {:induction false} PackedReadsBack(b: seq<byte>, c: seq<byte>, rest: seq<byte>, out: seq<byte>)
    requires |b| <= MAX_BLOCKSIZE && 0 < |c| <= MAX_BLOCKSIZE && Decode(Short, c, [], |b|) == Done(b)
    ensures Uncompress(PackedBlock(b, c) + rest, out) == Uncompress(rest, out + b)
  {
    hide Decode, Word, U8;
    var s := PackedBlock(b, c) + rest;
    WordReadsBack(|c|);
    WordReadsBack(|b|);
    assert ReadHead(s) == Block(true, 7, |c|, |b|);
    BlockInFront([Z, V, 1, U8(|c| / 256), U8(|c|), U8(|b| / 256), U8(|b|)], c, rest);
    assert Unpacked(c, |b|) == Some(b);
  }

  lemma {:induction false} BlockReadsBack(b: seq<byte>, hash: nat -> nat, tab: Table, rest: seq<byte>, out: seq<byte>)
    requires 1 <= |b| <= MAX_BLOCKSIZE
    ensures Uncompress(BlockBytes(b, hash, tab) + rest, out) == Uncompress(rest, out + b)
  {
    hide LzfCompress.Compressed, Decode, Uncompress, PackedBlock, StoredBlock;
    var cap := if |b| > 4 then |b| - 4 else |b|;
    var c := LzfCompress.Compressed(b, hash, tab, cap);
    Lzf.Capacity(b, hash, tab, cap);
    Lzf.RoundTrip(b, hash, tab, cap);
    if c != [] {
      PackedReadsBack(b, c, rest, out);
    } else {
      StoredReadsBack(b, rest, out);
    }
  }

  lemma {:induction false} StreamStep(data: seq<byte>, size: pos, hash: nat -> nat -> nat, tab: Table,
                          tabs: seq<Table>, k: nat, us: nat)
    requires data != [] && us == if |data| < size then |data| else size
    ensures Stream(data, size, hash, [tab] + tabs, k)
         == BlockBytes(data[..us], hash(k), tab) + Stream(data[us..], size, hash, tabs, k + 1)
    ensures Stream(data, size, hash, [], k)
         == BlockBytes(data[..us], hash(k), [0]) + Stream(data[us..], size, hash, [], k + 1)
  {
    hide BlockBytes;
    assert ([tab] + tabs)[1..] == tabs;
  }

  /** Uncompressing what was written yields the data, for every block size and every table contents. */
  lemma {:induction false} RoundTrip(data: seq<byte>, size: pos, hash: nat -> nat -> nat, tabs: seq<Table>, k: nat,
                          out: seq<byte>)
    requires size <= MAX_BLOCKSIZE
    ensures Uncompress(Stream(data, size, hash, tabs, k), out) == Finished(out + data)
    decreases |data|
  {
    hide BlockBytes;
    if data == [] {
      assert out + data == out;
    } else {
      hide Uncompress, Stream;
      var us := if |data| < size then |data| else size;
      var (tab, tabs') := if tabs == [] then ([0], []) else (tabs[0], tabs[1..]);
      assert tabs == [] || tabs == [tab] + tabs';
      StreamStep(data, size, hash, tab, tabs', k, us);
      var rest, out' := Stream(data[us..], size, hash, tabs', k + 1), out + data[..us];
      assert out' + data[us..] == out + data;
      BlockReadsBack(data[..us], hash(k), tab, rest, out);
      RoundTrip(data[us..], size, hash, tabs', k + 1, out');
    }
  }

  // ---------- Size ----------

  /** A block of up to four bytes never fits its own size when compressed. */
  lemma {:induction false} SmallBlocksAreStored(b: seq<byte>, hash: nat -> nat, tab: Table)
    requires |b| <= 4
    ensures LzfCompress.Compressed(b, hash, tab, |b|) == []
  {
    var toks := Tokens(Lzf, b, hash, tab);
    if b != [] {
      hide Tokens;
      Lzf.FirstIsLiteral(b, hash, tab);
      assert |b| > 2 ==> !LzfCompress.Fits(toks[1..], |b| - 1, 0, 1, |b|);
    }
  }

  /** A block takes at most its header of five bytes more than its data. */
  lemma {:induction false} BlockSize(b: seq<byte>, hash: nat -> nat, tab: Table)
    requires |b| <= MAX_BLOCKSIZE
    ensures |BlockBytes(b, hash, tab)| <= |b| + 5
  {
    hide LzfCompress.Compressed;
    if |b| > 4 {
      Lzf.Capacity(b, hash, tab, |b| - 4);
    } else {
      SmallBlocksAreStored(b, hash, tab);
    }
  }

  /** Sixteen bits, the higher byte first. */
  function Big16(n: nat): seq<byte> {
    [n / 256 % 256, n % 256]
  }

  /**
   A block says what it is: type 1 with both sizes exactly when the encoder, allowed four bytes
   less than the data if there are more than four, has not given up; else type 0 with the data.
   */
  lemma {:induction false} BlockIs(b: seq<byte>, hash: nat -> nat, tab: Table)
    requires |b| <= 65535
    ensures var c := LzfCompress.Compressed(b, hash, tab, if |b| > 4 then |b| - 4 else |b|);
            BlockBytes(b, hash, tab) == if c != [] then [0x5A, 0x56, 1] + Big16(|c|) + Big16(|b|) + c
                                        else [0x5A, 0x56, 0] + Big16(|b|) + b
  {
    hide LzfCompress.Compressed, Big16, Emit, U8;
    if |b| > 4 {
      Lzf.Capacity(b, hash, tab, |b| - 4);
    } else {
      SmallBlocksAreStored(b, hash, tab);
    }
    var c := LzfCompress.Compressed(b, hash, tab, if |b| > 4 then |b| - 4 else |b|);
    Big16Is(|b|);
    if c != [] {
      Big16Is(|c|);
    }
  }

  lemma {:induction false} Big16Is(n: nat)
    requires n <= 65535
    ensures Big16(n) == [U8(n / 256), U8(n)]
  {
    assert n / 256 < 256;
  }

  /** A block whose compressed form is at least eight bytes shorter takes seven bytes more than that. */
  lemma {:induction false} BlockSaves(b: seq<byte>, hash: nat -> nat, tab: Table)
    requires |b| <= 65535
    ensures var full := Emit(Short, [], Tokens(Lzf, b, hash, tab));
            full != [] && |full| + 8 <= |b| ==>
              BlockBytes(b, hash, tab) == [0x5A, 0x56, 1] + Big16(|full|) + Big16(|b|) + full
  {
    hide LzfCompress.Compressed, Emit, Tokens, BlockBytes;
    BlockIs(b, hash, tab);
    if |b| > 4 {
      Lzf.Capacity(b, hash, tab, |b| - 4);
    }
  }

  /** So periodic data is compressed, whatever the table holds, as soon as the period is short enough. */
  lemma {:induction false} PeriodicBlock(b: seq<byte>, d: pos, hash: nat -> nat, tab: Table)
    requires Repeated.Periodic(b, d) && Repeated.Distinct(b, d) && Repeated.NoCollision(hash, |b|, d, |tab|)
    requires d + 3 < |b| <= 8192
    ensures var size := (d + 1) + (d + 32) / 32 + 3 * ((|b| - 3 - d) / 264 + 2);
            size + 8 <= |b| ==>
              |BlockBytes(b, hash, tab)| <= size + 7 && BlockBytes(b, hash, tab)[..3] == [0x5A, 0x56, 1]
  {
    hide BlockBytes, Repeated.Periodic, Repeated.Distinct, Repeated.NoCollision;
    BlockSaves(b, hash, tab);
    Repeated.LzfShrinks(b, d, hash, tab);
    Lzf.FirstIsLiteral(b, hash, tab);
    EmitHead(Short, [], Tokens(Lzf, b, hash, tab));
  }

  /** A thousand zeros make a block of at most 25 bytes. */
  lemma {:induction false} ZerosArePacked(hash: nat -> nat, tab: Table)
    requires forall a, b :: 0 <= a < b < 1000 ==> hash(a) % |tab| == hash(b) % |tab|
    ensures var b := seq<byte>(1000, _ => 0);
            |BlockBytes(b, hash, tab)| <= 25 && BlockBytes(b, hash, tab)[..3] == [0x5A, 0x56, 1]
  {
    hide BlockBytes;
    PeriodicBlock(seq<byte>(1000, _ => 0), 1, hash, tab);
  }

  /** What a reader makes of a block that it does not accept, and of the end mark. */
  lemma {:induction false} Refused(s: seq<byte>, out: seq<byte>)
    ensures s == [] || s[0] == 0 ==> Uncompress(s, out) == Finished(out)
    ensures s != [] && s[0] != 0 && (|s| < 5 || s[..2] != [0x5A, 0x56] || s[2] > 1 || (s[2] == 1 && |s| < 7)) ==>
              Uncompress(s, out) == Failed(out)
    ensures |s| >= 7 && s[..2] == [0x5A, 0x56] && s[2] <= 1
            && |s| < (if s[2] == 1 then 7 else 5) + 256 * (s[3] as int) + s[4] as int ==>
              Uncompress(s, out) == Failed(out)
  {
    hide Decode;
    assert |s| >= 5 ==> (s[..2] == [0x5A, 0x56] <==> s[0] == 0x5A && s[1] == 0x56);
  }

  function BlockCount(n: nat, size: pos): nat {
    (n + size - 1) / size
  }

  /** The stream takes at most five bytes per started block more than the data. */
  lemma {:induction false} StreamSize(data: seq<byte>, size: pos, hash: nat -> nat -> nat, tabs: seq<Table>, k: nat)
    requires size <= MAX_BLOCKSIZE
    ensures |Stream(data, size, hash, tabs, k)| <= |data| + 5 * BlockCount(|data|, size)
    decreases |data|
  {
    hide BlockBytes, BlockCount;
    if data != [] {
      var us := if |data| < size then |data| else size;
      var (tab, tabs') := if tabs == [] then ([0], []) else (tabs[0], tabs[1..]);
      BlockSize(data[..us], hash(k), tab);
      StreamSize(data[us..], size, hash, tabs', k + 1);
      CeilingStep(|data|, size, us);
    }
  }

  lemma {:induction false} CeilingStep(n: nat, size: pos, us: nat)
    requires 0 < n && us == if n < size then n else size
    ensures BlockCount(n, size) == BlockCount(n - us, size) + 1
  {
    if n < size {
      DivideUnique(n + size - 1, size, 1, n - 1);
      DivideUnique(size - 1, size, 0, size - 1);
    } else {
      DivideStep(n - 1, size);
    }
  }

  // ---------- The writer ----------

  /** `to` holds the blocks before `at`, for the tables used so far and any to come. */
  ghost predicate Continues(from: seq<byte>, size: pos, hash: nat -> nat -> nat, used: seq<Table>, to: seq<byte>,
                          at: nat)
    requires at <= |from|
  {
    forall more: seq<Table> ::
      Stream(from, size, hash, used + more, 0) == to + Stream(from[at..], size, hash, more, |used|)
  }

  lemma {:induction false} ContinuesFurther(from: seq<byte>, size: pos, hash: nat -> nat -> nat, used: seq<Table>,
                          to: seq<byte>, at: nat,
                         us: nat, tab: Table)
    requires at < |from| && Continues(from, size, hash, used, to, at)
    requires us == if |from| - at < size then |from| - at else size
    ensures Continues(from, size, hash, used + [tab], to + BlockBytes(from[at..at + us], hash(|used|), tab), at + us)
  {
    hide BlockBytes, Stream;
    var block := BlockBytes(from[at..at + us], hash(|used|), tab);
    forall more: seq<Table>
      ensures Stream(from, size, hash, used + [tab] + more, 0)
           == to + block + Stream(from[at + us..], size, hash, more, |used + [tab]|)
    {
      var tabs, rest := [tab] + more, Stream(from[at + us..], size, hash, more, |used| + 1);
      assert (used + [tab]) + more == used + tabs;
      assert from[at..][..us] == from[at..at + us] && from[at..][us..] == from[at + us..];
      StreamStep(from[at..], size, hash, tab, more, |used|, us);
      assert to + (block + rest) == (to + block) + rest;
    }
  }

  lemma {:induction false} StreamStarts(from: seq<byte>, size: pos, hash: nat -> nat -> nat)
    ensures Continues(from, size, hash, [], [], 0)
  {
    hide Stream;
    forall more: seq<Table>
      ensures Stream(from, size, hash, [] + more, 0) == [] + Stream(from[0..], size, hash, more, 0)
    {
      assert [] + more == more && from[0..] == from;
    }
  }

  /** Compresses a whole file; what is written reads back. */
  method CompressFd(from: seq<byte>, size: pos, hash: nat -> nat -> nat) returns (to: seq<byte>, ghost tabs: seq<Table>)
    requires size <= MAX_BLOCKSIZE
    ensures to == Stream(from, size, hash, tabs, 0)
    ensures Uncompress(to, []) == Finished(from) && |to| <= |from| + 5 * BlockCount(|from|, size)
  {
    hide Continues, Uncompress, BlockCount, BlockBytes;
    to, tabs := [], [];
    var at, k := 0, 0;
    StreamStarts(from, size, hash);
    while at < |from|
      invariant 0 <= at <= |from| && k == |tabs| && Continues(from, size, hash, tabs, to, at)
      decreases |from| - at
    {
      var us := if |from| - at < size then |from| - at else size;
      var buf1 := from[at..at + us];
      var block;
      ghost var tab;
      block, tab := CompressBlock(buf1, hash(k));
      ContinuesFurther(from, size, hash, tabs, to, at, us, tab);
      to, tabs, k, at := to + block, tabs + [tab], k + 1, at + us;
    }
    StreamEnds(from, size, hash, tabs, to);
    StreamKeeps(from, size, hash, tabs);
  }

  lemma {:induction false} StreamKeeps(from: seq<byte>, size: pos, hash: nat -> nat -> nat, tabs: seq<Table>)
    requires size <= MAX_BLOCKSIZE
    ensures var s := Stream(from, size, hash, tabs, 0);
            Uncompress(s, []) == Finished(from) && |s| <= |from| + 5 * BlockCount(|from|, size)
  {
    hide Stream, Uncompress, BlockCount;
    RoundTrip(from, size, hash, tabs, 0, []);
    StreamSize(from, size, hash, tabs, 0);
    assert [] + from == from;
  }

  lemma {:induction false} StreamEnds(from: seq<byte>, size: pos, hash: nat -> nat -> nat, tabs: seq<Table>,
                          to: seq<byte>)
    requires Continues(from, size, hash, tabs, to, |from|)
    ensures to == Stream(from, size, hash, tabs, 0)
  {
    assert tabs + [] == tabs;
    assert Stream(from[|from|..], size, hash, [], |tabs|) == [];
    assert Stream(from, size, hash, tabs + [], 0) == to + Stream(from[|from|..], size, hash, [], |tabs|);
  }

  /** One block of 1 to 65535 bytes; the table is a fresh local array with whatever it contains. */
  method CompressBlock(buf1: seq<byte>, hash: nat -> nat) returns (block: seq<byte>, ghost tab: Table)
    requires 1 <= |buf1| <= MAX_BLOCKSIZE
    ensures block == BlockBytes(buf1, hash, tab)
    ensures var c := LzfCompress.Compressed(buf1, hash, tab, if |buf1| > 4 then |buf1| - 4 else |buf1|);
            block == if c != [] then [0x5A, 0x56, 1] + Big16(|c|) + Big16(|buf1|) + c
                     else [0x5A, 0x56, 0] + Big16(|buf1|) + buf1
  {
    hide LzfCompress.Compressed, Big16;
    var us := |buf1|;
    var buf2 := new byte[if us > 4 then us - 4 else us];
    var htab := new LzfCompress.Offset[LzfCompress.HSIZE];
    tab := htab[..];
    var cs := LzfCompress.Compress(buf1, htab, hash, buf2);
    if cs != 0 {
      var header: seq<byte> := [Z, V, 1, U8(cs / 256), U8(cs), U8(us / 256), U8(us)];
      block := header + buf2[..cs];
    } else {
      var header: seq<byte> := [Z, V, 0, U8(us / 256), U8(us)];
      block := header + buf1;
    }
    BlockIs(buf1, hash, tab);
  }

  // ---------- The reader ----------

  /** Fills up the header after the `over` bytes it already holds. */
  method ReadHeader(from: seq<byte>, at: nat, header: array<byte>, over: nat) returns (rc: nat, pos: nat)
    requires header.Length == MAX_HDR_SIZE && over <= MAX_HDR_SIZE && at <= |from|
    modifies header
    ensures at <= pos <= |from| && rc <= MAX_HDR_SIZE
    ensures header[..rc] + from[pos..] == old(header[..over]) + from[at..]
    ensures rc < MAX_HDR_SIZE ==> pos == |from|
  {
    rc, pos := over, at;
    while rc < MAX_HDR_SIZE && pos < |from|
      invariant over <= rc <= MAX_HDR_SIZE && at <= pos <= |from|
      invariant header[..rc] + from[pos..] == old(header[..over]) + from[at..]
    {
      ghost var before := header[..rc];
      assert from[pos..] == [from[pos]] + from[pos + 1..];
      header[rc] := from[pos];
      assert header[..rc + 1] == before + [from[pos]];
      rc, pos := rc + 1, pos + 1;
    }
  }

  /**
   Collects a payload of `bytes` bytes: first what the header read took too much of it,
   then the rest from the file. What was read beyond the payload moves to the front of
   the header. False when the file is too short.
   */
  method ReadPayload(from: seq<byte>, at: nat, header: array<byte>, rc: nat, hdr: nat, bytes: nat, buf1: array<byte>)
    returns (ok: bool, over: nat, pos: nat)
    requires header.Length == MAX_HDR_SIZE && hdr <= rc <= MAX_HDR_SIZE && at <= |from| && buf1 != header
    requires bytes + MAX_HDR_SIZE <= buf1.Length
    modifies header, buf1
    ensures var rest := old(header[hdr..rc]) + from[at..];
            && ok == (bytes <= |rest|)
            && (ok ==> at <= pos <= |from| && over <= MAX_HDR_SIZE && buf1[..bytes] == rest[..bytes]
                       && header[..over] + from[pos..] == rest[bytes..])
  {
    ghost var surplus, rest := header[hdr..rc], header[hdr..rc] + from[at..];
    var l := rc - hdr;
    forall i | 0 <= i < l { buf1[i] := header[hdr + i]; }
    assert buf1[..l] == surplus && header[hdr..rc] == surplus;
    ok, over, pos := true, 0, at;
    if l > bytes {
      over := l - bytes;
      forall i | 0 <= i < over { header[i] := header[hdr + bytes + i]; }
      assert header[..over] == surplus[bytes..];
    } else {
      var rd := bytes - l;
      if |from| - at < rd {
        return false, over, pos;
      }
      forall i | 0 <= i < rd { buf1[l + i] := from[at + i]; }
      pos := at + rd;
      assert buf1[..bytes] == surplus + from[at..pos];
    }
    assert buf1[..bytes] == rest[..bytes];
    assert header[..over] + from[pos..] == rest[bytes..];
  }

  /** The header bytes decide the block alone: they are all there is or all a header can have. */
  method ParseHeader(header: array<byte>, rc: nat, ghost s: seq<byte>) returns (h: Head)
    requires header.Length == MAX_HDR_SIZE && rc <= MAX_HDR_SIZE && rc <= |s| && header[..rc] == s[..rc]
    requires rc < MAX_HDR_SIZE ==> rc == |s|
    ensures h == ReadHead(s)
  {
    assert forall i :: 0 <= i < rc ==> header[..rc][i] == s[i];
    if rc == 0 || header[0] == 0 { return End; }
    if rc < MIN_HDR_SIZE || header[0] != Z || header[1] != V { return Bad; }
    if header[2] == 0 {
      var us := Word(header[3], header[4]);
      return Block(false, TYPE0_HDR_SIZE, us, us);
    } else if header[2] == 1 {
      if rc < TYPE1_HDR_SIZE { return Bad; }
      return Block(true, TYPE1_HDR_SIZE, Word(header[3], header[4]), Word(header[5], header[6]));
    }
    return Bad;
  }

  /** One round of the reader on what is left of a stream. */
  lemma {:induction false} UncompressStep(s: seq<byte>, out: seq<byte>)
    ensures var h := ReadHead(s);
            Uncompress(s, out) ==
            if h.End? then Finished(out)
            else if h.Bad? || |s| < h.hdr + h.bytes then Failed(out)
                    else
              var b := BlockData(h, s[h.hdr..][..h.bytes]);
              if b == None then Failed(out) else Uncompress(s[h.hdr..][h.bytes..], out + b.value)
  {
    hide ReadHead, BlockData;
  }

  /** Reads a whole file. What the carried bytes and the file still hold is always parsed as one stream. */
  method UncompressFd(from: seq<byte>) returns (r: Result)
    ensures r == Uncompress(from, [])
  {
    hide BlockData, ReadHead, Uncompress;
    var header := new byte[MAX_HDR_SIZE];
    var buf1 := new byte[MAX_BLOCKSIZE + MAX_HDR_SIZE + 16];
    var to, at: nat, over: nat := [], 0, 0;
    ghost var result := Uncompress(from, []);
    ghost var s := from;
    assert header[..over] + from[at..] == from;
    while true
      invariant over <= MAX_HDR_SIZE && at <= |from|
      invariant header[..over] + from[at..] == s
      invariant Uncompress(s, to) == result
      decreases |s|
    {
      UncompressStep(s, to);
      var rc, h, ok;
      rc, at := ReadHeader(from, at, header, over);
      assert s[..rc] == header[..rc];
      h := ParseHeader(header, rc, s);
      if h.End? { return Finished(to); }
      if h.Bad? { return Failed(to); }
      assert s[h.hdr..] == header[h.hdr..rc] + from[at..];
      ok, over, at := ReadPayload(from, at, header, rc, h.hdr, h.bytes, buf1);
      if !ok { return Failed(to); }
      var b := Deliver(h, buf1[..h.bytes], buf1[h.bytes]);
      if b == None { return Failed(to); }
      to := to + b.value;
      s := s[h.hdr..][h.bytes..];
    }
  }

  /** Stored bytes as they are, compressed ones decompressed; `stale` is what follows the payload in its buffer. */
  method Deliver(h: Head, payload: seq<byte>, stale: byte) returns (b: Option<seq<byte>>)
    requires h.Block?
    ensures b == BlockData(h, payload)
  {
    if !h.packed { return Some(payload); }
    b := Unpack(payload, stale, h.us);
  }

  /** Decompresses a block into a buffer of its recorded size and compares the result with it. */
  method Unpack(c: seq<byte>, stale: byte, us: nat) returns (b: Option<seq<byte>>)
    ensures b == Unpacked(c, us)
  {
    hide Decode;
    var buf2 := new byte[us];
    var n, errno := LzfDecompress.Decompress(c, stale, buf2);
    EmptyDecodes(us);
    if n != us { return None; }
    assert buf2[..] == buf2[..n];
    return Some(buf2[..]);
  }

  lemma {:induction false} EmptyDecodes(us: nat)
    ensures Decode(Short, [], [], us) == Done([])
  {
  }
}
