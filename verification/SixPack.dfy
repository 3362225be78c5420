/**
 The 6pack archive: an eight byte signature, then chunks with a sixteen byte header that
 carries an Adler-32 checksum. Files are byte sequences; progress output is left out.
 */
module SixPack {
  import opened Arithmetic
  import opened Bytes
  import opened Adler32
  import LzFormat
  import LzSearch
  import FastLzCompress
  import FastLz

  const BLOCK_SIZE := 131072
  const MAGIC: seq<byte> := [137, '6' as int, 'P' as int, 'K' as int, 13, 10, 26, 10]

  // ---------- Integers in the archive ----------

  function Le16(v: nat): seq<byte> {
    [v % 256, v / 256 % 256]
  }

  function Le32(v: nat): seq<byte> {
    [v % 256, v / 256 % 256, v / 65536 % 256, v / 16777216 % 256]
  }

  /** `ptr[0] + (ptr[1] << 8)` */
  function ReadU16(s: seq<byte>): (v: nat)
    requires |s| >= 2
    ensures v < 65536
  {
    LzFormat.Word(s[1], s[0])
  }

  function ReadU32(s: seq<byte>): (v: u32)
    requires |s| >= 4
  {
    ReadU16(s[..2]) + 65536 * ReadU16(s[2..])
  }

  lemma {:induction false} ReadsBack16(v: nat)
    ensures ReadU16(Le16(v)) == v % 65536
  {
    var a := v / 256;
    DivideUnique(v, 65536, a / 256, 256 * (a % 256) + v % 256);
  }

  lemma {:induction false} ReadsBack32(v: nat)
    ensures ReadU32(Le32(v)) == v % 0x1_0000_0000
  {
    var a, b, c := v / 256, v / 65536, v / 16777216;
    assert b == a / 256 && c == b / 256;
    assert v / 0x1_0000_0000 == c / 256;
    assert Le32(v)[..2] == [v % 256, a % 256] && Le32(v)[2..] == [b % 256, c % 256];
  }

  // ---------- Chunks ----------

  datatype Header = Header(id: nat, options: nat, size: nat, checksum: u32, extra: nat)

  function HeaderBytes(h: Header): (s: seq<byte>)
    ensures |s| == 16
  {
    Le16(h.id) + Le16(h.options) + Le32(h.size) + Le32(h.checksum) + Le32(h.extra)
  }

  function ReadHeader(s: seq<byte>): (h: Header)
    requires |s| >= 16
    ensures h.size < LzFormat.U32 && h.extra < LzFormat.U32
  {
    Header(ReadU16(s[0..2]), ReadU16(s[2..4]), ReadU32(s[4..8]), ReadU32(s[8..12]), ReadU32(s[12..16]))
  }

  /** What sixteen bytes keep of a header: sixteen bits of each code, thirty-two of each number. */
  function Kept(h: Header): Header {
    Header(h.id % 65536, h.options % 65536, h.size % 0x1_0000_0000, h.checksum, h.extra % 0x1_0000_0000)
  }

  /** A header reads back as far as its fields fit, whatever follows it. */
  lemma {:induction false} HeaderReadsBack(h: Header, rest: seq<byte>)
    ensures ReadHeader(HeaderBytes(h) + rest) == Kept(h)
  {
    hide Le16, Le32, ReadU16, ReadU32;
    LittleSizes(h);
    var s := HeaderBytes(h) + rest;
    assert s[0..2] == Le16(h.id) && s[2..4] == Le16(h.options);
    assert s[4..8] == Le32(h.size) && s[8..12] == Le32(h.checksum) && s[12..16] == Le32(h.extra);
    ReadsBack16(h.id);
    ReadsBack16(h.options);
    ReadsBack32(h.size);
    ReadsBack32(h.checksum);
    ReadsBack32(h.extra);
  }

  lemma {:induction false} LittleSizes(h: Header)
    ensures |Le16(h.id)| == 2 && |Le16(h.options)| == 2
    ensures |Le32(h.size)| == 4 && |Le32(h.checksum)| == 4 && |Le32(h.extra)| == 4
  {
  }

  function Chunk(id: nat, options: nat, body: seq<byte>, extra: nat): seq<byte> {
    HeaderBytes(Header(id, options, |body|, Update(1, body), extra)) + body
  }

  // ---------- What pack writes ----------

  /** The body of the file entry: the size in 32 bits, four zeros, and the name with its terminator. */
  function EntryBody(name: seq<byte>, size: nat): seq<byte> {
    Le32(size) + [0, 0, 0, 0] + Le16(|name| + 1) + name + [0]
  }

  /** Blocks of less than 32 bytes are stored, all others compressed unless the method says otherwise. */
  function BlockChunk(pol: LzSearch.Policy, compress: bool, block: seq<byte>, hash: nat -> nat): seq<byte> {
    if compress && |block| >= 32 then Chunk(17, 1, FastLzCompress.Compressed(pol, block, hash), |block|)
    else Chunk(17, 0, block, |block|)
  }

  function Blocks(pol: LzSearch.Policy, compress: bool, data: seq<byte>, hash: nat -> nat -> nat, k: nat): seq<byte>
    decreases |data|
  {
    if data == [] then []
    else
      var n := if |data| < BLOCK_SIZE then |data| else BLOCK_SIZE;
      BlockChunk(pol, compress, data[..n], hash(k)) + Blocks(pol, compress, data[n..], hash, k + 1)
  }

  function Archive(pol: LzSearch.Policy, compress: bool, name: seq<byte>, data: seq<byte>,
                   hash: nat -> nat -> nat): seq<byte> {
    MAGIC + (Chunk(1, 0, EntryBody(name, |data|), 0) + Blocks(pol, compress, data, hash, 0))
  }

  predicate IsArchive(s: seq<byte>) {
    |s| >= 8 && s[..8] == MAGIC
  }

  /** What pack leaves in the output file: for an input that is an archive already, the signature alone. */
  function Packed(pol: LzSearch.Policy, compress: bool, name: seq<byte>, data: seq<byte>,
                  hash: nat -> nat -> nat): seq<byte> {
    if IsArchive(data) then MAGIC else Archive(pol, compress, name, data, hash)
  }

  // ---------- The archive byte by byte ----------

  /** Numbers are stored with their lowest byte first. */
  lemma {:induction false} LittleEndian(v: nat)
    ensures v < 65536 ==> Le16(v)[0] as int + 256 * (Le16(v)[1] as int) == v
    ensures v < 0x1_0000_0000 ==>
              var s := Le32(v);
              s[0] as int + 256 * (s[1] as int) + 65536 * (s[2] as int) + 16777216 * (s[3] as int) == v
  {
    var a, b, c := v / 256, v / 65536, v / 16777216;
    assert b == a / 256 && c == b / 256;
  }

  /** The file entry behind the signature. */
  lemma {:induction false} EntryIs(name: seq<byte>, size: nat)
    ensures var body := Le32(size) + [0, 0, 0, 0] + Le16(|name| + 1) + name + [0];
            Chunk(1, 0, EntryBody(name, size), 0)
            == [1, 0, 0, 0] + Le32(|name| + 11) + Le32(Update(1, body)) + [0, 0, 0, 0] + body
    ensures MAGIC == [0x89, 0x36, 0x50, 0x4B, 0x0D, 0x0A, 0x1A, 0x0A]
  {
    hide Update;
    var body := Le32(size) + [0, 0, 0, 0] + Le16(|name| + 1) + name + [0];
    assert |body| == |name| + 11 && Le16(1) + Le16(0) == [1, 0, 0, 0] && Le32(0) == [0, 0, 0, 0];
  }

  /** A block of at least 32 bytes is compressed unless the method says otherwise; its chunk says which. */
  lemma {:induction false} BlockChunkIs(pol: LzSearch.Policy, compress: bool, block: seq<byte>, hash: nat -> nat)
    ensures var c := FastLzCompress.Compressed(pol, block, hash);
            BlockChunk(pol, compress, block, hash)
            == if compress && |block| >= 32 then
                 [17, 0, 1, 0] + Le32(|c|) + Le32(Update(1, c)) + Le32(|block|) + c
               else [17, 0, 0, 0] + Le32(|block|) + Le32(Update(1, block)) + Le32(|block|) + block
  {
    hide Update, FastLzCompress.Compressed, Le32;
    assert Le16(17) + Le16(0) == [17, 0, 0, 0] && Le16(17) + Le16(1) == [17, 0, 1, 0];
  }

  /** The first block takes up to 128 KiB. */
  lemma {:induction false} FirstBlock(pol: LzSearch.Policy, compress: bool, data: seq<byte>, hash: nat -> nat -> nat,
                                      k: nat)
    requires data != []
    ensures var n := if |data| < 131072 then |data| else 131072;
            Blocks(pol, compress, data, hash, k)
            == BlockChunk(pol, compress, data[..n], hash(k)) + Blocks(pol, compress, data[n..], hash, k + 1)
  {
    hide BlockChunk;
  }

  // ---------- Packing ----------

  /** A code in two bytes: the lower by a mask, the upper by a shift that the store cuts off. */
  method PutCode(buffer: array<byte>, at: nat, v: nat)
    requires at + 2 <= buffer.Length
    modifies buffer
    ensures buffer[..at + 2] == old(buffer[..at]) + Le16(v)
  {
    buffer[at] := v % 256;
    buffer[at + 1] := U8(v / 256);
  }

  /** A number in four bytes, each by a shift and a mask. */
  method PutNumber(buffer: array<byte>, at: nat, v: nat)
    requires at + 4 <= buffer.Length
    modifies buffer
    ensures buffer[..at + 4] == old(buffer[..at]) + Le32(v)
  {
    buffer[at] := v % 256;
    buffer[at + 1] := v / 256 % 256;
    buffer[at + 2] := v / 65536 % 256;
    buffer[at + 3] := v / 16777216 % 256;
  }

  /** Stores the header into a buffer of sixteen bytes; it reads back as far as its fields fit. */
  method WriteHeader(h: Header) returns (buffer: array<byte>)
    ensures fresh(buffer) && buffer.Length == 16
    ensures ReadHeader(buffer[..]) == Kept(h) && buffer[..] == HeaderBytes(h)
  {
    hide HeaderBytes, ReadHeader, Le16, Le32, Kept;
    buffer := new byte[16];
    PutCode(buffer, 0, h.id);
    PutCode(buffer, 2, h.options);
    PutNumber(buffer, 4, h.size);
    PutNumber(buffer, 8, h.checksum);
    PutNumber(buffer, 12, h.extra);
    HeaderInParts(h, buffer[..16]);
    assert buffer[..16] == buffer[..];
  }

  lemma {:induction false} HeaderInParts(h: Header, s: seq<byte>)
    requires s == [] + Le16(h.id) + Le16(h.options) + Le32(h.size) + Le32(h.checksum) + Le32(h.extra)
    ensures s == HeaderBytes(h) && ReadHeader(s) == Kept(h)
  {
    hide Le16, Le32, ReadHeader;
    HeaderReadsBack(h, []);
    assert HeaderBytes(h) + [] == HeaderBytes(h);
  }

  /** Header and body; the header reads back as what it was given, as far as that fits. */
  method WriteChunk(id: nat, options: nat, body: seq<byte>, checksum: u32, extra: nat) returns (out: seq<byte>)
    ensures |out| == 16 + |body| && out[16..] == body
    ensures ReadHeader(out) == Kept(Header(id, options, |body|, checksum, extra))
    ensures checksum == Update(1, body) ==> out == Chunk(id, options, body, extra)
  {
    hide HeaderBytes, Update;
    var header := WriteHeader(Header(id, options, |body|, checksum, extra));
    out := header[..] + body;
    HeaderReadsBack(Header(id, options, |body|, checksum, extra), body);
  }

  method PackBlock(pol: LzSearch.Policy, compress: bool, block: seq<byte>, hash: nat -> nat) returns (out: seq<byte>)
    requires FastLzCompress.IsFastLz(pol) && 0 < |block| <= BLOCK_SIZE
    ensures out == BlockChunk(pol, compress, block, hash)
  {
    hide FastLzCompress.Compressed, Update, HeaderBytes;
    if compress && |block| >= 32 {
      var result := new byte[BLOCK_SIZE * 2];
      var n := FastLzCompress.Compress(pol, block, hash, result);
      var checksum := UpdateAdler32(1, result[..n]);
      out := WriteChunk(17, 1, result[..n], checksum, |block|);
    } else {
      var checksum := UpdateAdler32(1, block);
      out := WriteChunk(17, 0, block, checksum, |block|);
    }
  }

  /** The file entry, with its checksum taken over the fixed part and the name separately. */
  method PackEntry(name: seq<byte>, size: nat) returns (entry: seq<byte>)
    ensures entry == Chunk(1, 0, EntryBody(name, size), 0)
  {
    hide Update;
    var buffer: seq<byte> := Le32(size) + [0, 0, 0, 0] + Le16(|name| + 1);
    var checksum := UpdateAdler32(1, buffer);
    checksum := UpdateAdler32(checksum, name + [0]);
    UpdateConcat(1, buffer, name + [0]);
    assert buffer + (name + [0]) == EntryBody(name, size);
    entry := WriteChunk(1, 0, EntryBody(name, size), checksum, 0);
  }

  /** Reads the file in pieces of 128 KiB and appends a chunk for each. */
  method PackBlocks(pol: LzSearch.Policy, compress: bool, data: seq<byte>, hash: nat -> nat -> nat, f: seq<byte>)
    returns (out: seq<byte>)
    requires FastLzCompress.IsFastLz(pol)
    ensures out == f + Blocks(pol, compress, data, hash, 0)
  {
    hide BlockChunk, Blocks;
    out := f;
    var at: nat, k: nat := 0, 0;
    ghost var whole := f + Blocks(pol, compress, data, hash, 0);
    assert data[0..] == data;
    while at < |data|
      invariant at <= |data|
      invariant out + Blocks(pol, compress, data[at..], hash, k) == whole
    {
      var n := if |data| - at < BLOCK_SIZE then |data| - at else BLOCK_SIZE;
      var chunk := PackBlock(pol, compress, data[at..at + n], hash(k));
      BlocksStep(pol, compress, data, at, n, hash, k);
      assert out + (chunk + Blocks(pol, compress, data[at + n..], hash, k + 1))
          == (out + chunk) + Blocks(pol, compress, data[at + n..], hash, k + 1);
      out := out + chunk;
      at, k := at + n, k + 1;
    }
    BlocksEnd(pol, compress, hash, k);
    assert data[at..] == [];
  }

  /**
   Packs one file. An input that is an archive already is refused, after the signature
   has been written. The name is a C string, here without its terminator.
   */
  method PackFile(pol: LzSearch.Policy, compress: bool, name: seq<byte>, data: seq<byte>, hash: nat -> nat -> nat)
    returns (ok: bool, f: seq<byte>)
    requires FastLzCompress.IsFastLz(pol)
    ensures ok == !IsArchive(data)
    ensures f == Packed(pol, compress, name, data, hash)
  {
    hide EntryBody, Chunk, Blocks, Archive;
    f := MAGIC;
    ok := !IsArchive(data);
    if ok {
      var entry := PackEntry(name, |data|);
      f := PackBlocks(pol, compress, data, hash, f + entry);
      ArchiveParts(pol, compress, name, data, hash);
    }
  }

  lemma {:induction false} ArchiveParts(pol: LzSearch.Policy, compress: bool, name: seq<byte>, data: seq<byte>,
                          hash: nat -> nat -> nat)
    ensures Archive(pol, compress, name, data, hash)
         == MAGIC + Chunk(1, 0, EntryBody(name, |data|), 0) + Blocks(pol, compress, data, hash, 0)
  {
    hide EntryBody, Chunk, Blocks;
    var e, b := Chunk(1, 0, EntryBody(name, |data|), 0), Blocks(pol, compress, data, hash, 0);
    assert MAGIC + (e + b) == (MAGIC + e) + b;
  }

  lemma {:induction false} BlocksStep(pol: LzSearch.Policy, compress: bool, data: seq<byte>, at: nat, n: nat,
                          hash: nat -> nat -> nat, k: nat)
    requires at < |data| && n == if |data| - at < BLOCK_SIZE then |data| - at else BLOCK_SIZE
    ensures Blocks(pol, compress, data[at..], hash, k)
         == BlockChunk(pol, compress, data[at..at + n], hash(k)) + Blocks(pol, compress, data[at + n..], hash, k + 1)
  {
    hide BlockChunk;
    assert data[at..][..n] == data[at..at + n] && data[at..][n..] == data[at + n..];
  }

  lemma {:induction false} BlocksEnd(pol: LzSearch.Policy, compress: bool, hash: nat -> nat -> nat, k: nat)
    ensures Blocks(pol, compress, [], hash, k) == []
  {
  }
}
