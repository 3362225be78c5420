/**
 Unpacking a 6pack archive, and what it makes of a file that pack wrote. The disk says of
 each name which file it leads to, whether that is there before the run, and whether opening
 the name for reading or for writing is permitted; files created in the run can be read back.
 What lies in memory, where a read past the end of the archive leaves a buffer as it was and
 the decompressor may read behind its block, is arbitrary.
 */
module SixUnpack {
  import opened Bytes
  import opened Adler32
  import opened SixPack
  import LzFormat
  import LzSearch
  import FastLzCompress
  import FastLz

  const BUFFER_SIZE := 65536

  type Name = seq<byte>

  datatype File = File(name: Name, content: seq<byte>)

  datatype Disk = Disk(file: Name -> nat, present: Name -> bool, readable: Name -> bool, writable: Name -> bool)

  /** The files opened for writing, whether the last one is open, and the size its entry announced. */
  datatype State = State(files: seq<File>, open: bool, size: nat)

  /** How a run ends, and the files it has written by then. */
  datatype Result = NotArchive | Unpacked(files: seq<File>) | Corrupt(files: seq<File>)

  /**
   Memory that the archive has no say in: what a buffer holds where the archive ends, and
   what the decompressor returns when it reads behind a block, for each chunk by what is
   left of the archive there.
   */
  datatype Memory = Memory(fill: nat -> byte, behind: nat -> seq<byte>)

  function FilesOf(r: Result): seq<File> {
    if r.NotArchive? then [] else r.files
  }

  // ---------- Reading ----------

  /** A buffer of `n` bytes after reading from `from` on: what the archive does not have is `fill`. */
  function Fread(s: seq<byte>, fill: nat -> byte, from: nat, n: nat): (r: seq<byte>)
    ensures |r| == n
    ensures from + n <= |s| ==> r == s[from..from + n]
  {
    seq(n, i requires 0 <= i < n => if from + i < |s| then s[from + i] else fill(from + i - |s|))
  }

  lemma {:induction false} FreadLater(s: seq<byte>, fill: nat -> byte, at: nat, from: nat, n: nat)
    requires at <= |s|
    ensures Fread(s[at..], fill, from, n) == Fread(s, fill, at + from, n)
  {
  }

  /** The bytes that are really there. */
  function Delivered(s: seq<byte>, from: nat, n: nat): seq<byte> {
    if from >= |s| then [] else if from + n <= |s| then s[from..from + n] else s[from..]
  }

  lemma {:induction false} DeliveredLater(s: seq<byte>, at: nat, from: nat, n: nat)
    requires at <= |s|
    ensures Delivered(s[at..], from, n) == Delivered(s, at + from, n)
  {
  }

  // ---------- Entries ----------

  predicate IsEntry(h: Header) {
    h.id == 1 && 10 < h.size < BUFFER_SIZE
  }

  /** A C string ends at its first zero byte. */
  function CString(s: seq<byte>): (r: Name)
    ensures 0 !in r && |r| <= |s|
  {
    if s == [] || s[0] == 0 then [] else [s[0]] + CString(s[1..])
  }

  predicate Created(disk: Disk, files: seq<File>, name: Name) {
    exists k :: 0 <= k < |files| && disk.file(files[k].name) == disk.file(name)
  }

  /** Opening a name for reading succeeds: the test for a file that exists already. */
  predicate CanRead(disk: Disk, files: seq<File>, name: Name) {
    if disk.present(name) then disk.readable(name) else Created(disk, files, name)
  }

  function EntryName(body: seq<byte>): (name: Name)
    requires |body| > 10
    ensures 0 !in name && |name| <= |body| - 10
  {
    var n := ReadU16(body[8..10]);
    CString(body[10..10 + if n > |body| - 10 then |body| - 10 else n])
  }

  function Enter(disk: Disk, st: State, body: seq<byte>): State
    requires |body| > 10
  {
    var name := EntryName(body);
    if !CanRead(disk, st.files, name) && disk.writable(name) then
      State(st.files + [File(name, [])], true, ReadU32(body[..4]))
    else State(st.files, false, ReadU32(body[..4]))
  }

  // ---------- Blocks ----------

  /** Whether a block is extracted at all. */
  predicate Wanted(h: Header, st: State) {
    h.id == 17 && st.open && st.size != 0
  }

  /** Bytes to write, and whether the file stays open. */
  datatype Extract = Extract(out: seq<byte>, ok: bool)

  /** What `fastlz_decompress` returns for the chunk; `behind` if it reads behind it. */
  function Inflated(h: Header, body: seq<byte>, behind: seq<byte>): seq<byte> {
    if !FastLz.SizedInside(body, h.extra) then behind
    else
      match FastLz.SizedDecoded(body, h.extra)
      case Some(out) => out
      case None => []
  }

  /** The checksum of a whole block: its size is passed as an `int`, and a negative one is no byte at all. */
  function Checksum(body: seq<byte>): u32 {
    if AsInt(|body|) < 0 then 1 else Update(1, body)
  }

  /**
   A stored block is written as far as it is there, before its checksum is compared; a
   compressed one only after. `body` is the buffer filled for a compressed block.
   */
  function Extracted(h: Header, stored: seq<byte>, body: seq<byte>, behind: seq<byte>): Extract {
    if h.options == 0 then Extract(stored, Update(1, stored) == h.checksum)
    else if h.options == 1 && Checksum(body) == h.checksum && |Inflated(h, body, behind)| == h.extra then
      Extract(Inflated(h, body, behind), true)
    else Extract([], false)
  }

  function Append(files: seq<File>, out: seq<byte>): (r: seq<File>)
    ensures |r| == |files|
  {
    if files == [] then []
    else
      var last := files[|files| - 1];
      files[..|files| - 1] + [File(last.name, last.content + out)]
  }

  function Write(st: State, e: Extract): State {
    State(Append(st.files, e.out), e.ok, st.size)
  }

  // ---------- The archive ----------

  datatype Step = Go(st: State) | Stop(result: Result)

  function ChunkStep(disk: Disk, h: Header, stored: seq<byte>, body: seq<byte>, behind: seq<byte>, st: State): Step
    requires |body| == h.size
  {
    if IsEntry(h) then
      if Update(1, body) != h.checksum then Stop(Corrupt(st.files)) else Go(Enter(disk, st, body))
    else if Wanted(h, st) then Go(Write(st, Extracted(h, stored, body, behind)))
    else Go(st)
  }

  /** Where the chunk after one of `size` body bytes starts, or the end of the archive. */
  function NextChunk(s: seq<byte>, size: nat): (n: nat)
    ensures n <= |s| && (s != [] ==> n > 0)
  {
    if 16 + size < |s| then 16 + size else |s|
  }

  function Chunks(disk: Disk, s: seq<byte>, mem: Memory, st: State): Result
    decreases |s|
  {
    if s == [] then Unpacked(st.files)
    else
      var h := ReadHeader(Fread(s, mem.fill, 0, 16));
      match ChunkStep(disk, h, Delivered(s, 16, h.size), Fread(s, mem.fill, 16, h.size), mem.behind(|s|), st)
      case Go(st') => Chunks(disk, s[NextChunk(s, h.size)..], mem, st')
      case Stop(r) => r
  }

  function Unpack(disk: Disk, s: seq<byte>, mem: Memory): Result {
    if IsArchive(s) then Chunks(disk, s[8..], mem, State([], false, 0)) else NotArchive
  }

  // ---------- What pack wrote ----------

  lemma {:induction false} ChunksEnd(disk: Disk, mem: Memory, st: State)
    ensures Chunks(disk, [], mem, st) == Unpacked(st.files)
  {
  }

  /** A header that fits and a body of its size, in front of any archive. */
  lemma {:induction false} ChunkIsRead(disk: Disk, h: Header, body: seq<byte>, rest: seq<byte>, mem: Memory, st: State)
    requires Kept(h) == h && |body| == h.size
    ensures var s := HeaderBytes(h) + body + rest;
            Chunks(disk, s, mem, st) ==
            match ChunkStep(disk, h, body, body, mem.behind(|s|), st)
            case Go(st') => Chunks(disk, rest, mem, st')
            case Stop(r) => r
  {
    hide ReadHeader, HeaderBytes, ChunkStep;
    var s := HeaderBytes(h) + body + rest;
    HeaderReadsBack(h, []);
    assert HeaderBytes(h) + [] == HeaderBytes(h);
    assert s[0..16] == HeaderBytes(h);
    assert s[16..16 + |body|] == body && s[16 + |body|..] == rest;
  }

  lemma {:induction false} ChunkReadsBack(disk: Disk, id: nat, options: nat, body: seq<byte>, extra: nat,
                                          rest: seq<byte>, mem: Memory, st: State)
    requires id < 65536 && options < 65536 && |body| < 0x1_0000_0000 && extra < 0x1_0000_0000
    ensures var h, s := Header(id, options, |body|, Update(1, body), extra), Chunk(id, options, body, extra) + rest;
            Chunks(disk, s, mem, st) ==
            match ChunkStep(disk, h, body, body, mem.behind(|s|), st)
            case Go(st') => Chunks(disk, rest, mem, st')
            case Stop(r) => r
  {
    hide HeaderBytes, ChunkStep, Update, Chunks;
    ChunkIsRead(disk, Header(id, options, |body|, Update(1, body), extra), body, rest, mem, st);
  }

  lemma {:induction false} BlockExtracted(pol: LzSearch.Policy, compress: bool, block: seq<byte>, hash: nat -> nat,
                                          disk: Disk, rest: seq<byte>, mem: Memory, st: State)
    requires FastLzCompress.IsFastLz(pol) && 0 < |block| <= BLOCK_SIZE && st.open && st.size != 0
    ensures Chunks(disk, BlockChunk(pol, compress, block, hash) + rest, mem, st)
         == Chunks(disk, rest, mem, State(Append(st.files, block), true, st.size))
  {
    hide Chunks, Chunk, Update, FastLzCompress.Compressed, FastLz.SizedDecoded, FastLz.SizedInside, Append;
    if compress && |block| >= 32 {
      var c := FastLzCompress.Compressed(pol, block, hash);
      FastLz.RoundTrip(pol, block, hash);
      FastLz.SizeFitsInt(pol, block, hash);
      ChunkReadsBack(disk, 17, 1, c, |block|, rest, mem, st);
    } else {
      ChunkReadsBack(disk, 17, 0, block, |block|, rest, mem, st);
    }
  }

  lemma {:induction false} AppendTwice(files: seq<File>, a: seq<byte>, b: seq<byte>)
    ensures Append(Append(files, a), b) == Append(files, a + b)
    ensures Append(files, []) == files
  {
    if files != [] {
      var last := files[|files| - 1];
      assert last.content + a + b == last.content + (a + b) && last.content + [] == last.content;
      assert File(last.name, last.content) == last;
    }
  }

  /** The blocks of a file, in front of any archive, extracted into the file that is open. */
  lemma {:induction false} BlocksExtracted(pol: LzSearch.Policy, compress: bool, data: seq<byte>,
                                           hash: nat -> nat -> nat, k: nat, disk: Disk, rest: seq<byte>,
                                           mem: Memory, st: State)
    requires FastLzCompress.IsFastLz(pol) && st.open && st.size != 0
    ensures Chunks(disk, Blocks(pol, compress, data, hash, k) + rest, mem, st)
         == Chunks(disk, rest, mem, State(Append(st.files, data), true, st.size))
    decreases |data|
  {
    hide BlockChunk, Append, Chunks, Blocks;
    if data == [] {
      BlocksEnd(pol, compress, hash, k);
      assert [] + rest == rest;
      AppendTwice(st.files, [], []);
    } else {
      var n := if |data| < BLOCK_SIZE then |data| else BLOCK_SIZE;
      BlocksStep(pol, compress, data, 0, n, hash, k);
      assert data[0..] == data && data[0..n] == data[..n];
      var first, more := BlockChunk(pol, compress, data[..n], hash(k)), Blocks(pol, compress, data[n..], hash, k + 1);
      assert (first + more) + rest == first + (more + rest);
      BlockExtracted(pol, compress, data[..n], hash(k), disk, more + rest, mem, st);
      BlocksExtracted(pol, compress, data[n..], hash, k + 1, disk, rest, mem,
                      State(Append(st.files, data[..n]), true, st.size));
      AppendTwice(st.files, data[..n], data[n..]);
      assert data[..n] + data[n..] == data;
    }
  }

  /** Without an open file, or with one announced to be empty, blocks are passed over. */
  lemma {:induction false} BlocksSkipped(pol: LzSearch.Policy, compress: bool, data: seq<byte>,
                                         hash: nat -> nat -> nat, k: nat, disk: Disk, rest: seq<byte>,
                                         mem: Memory, st: State)
    requires FastLzCompress.IsFastLz(pol) && (!st.open || st.size == 0)
    ensures Chunks(disk, Blocks(pol, compress, data, hash, k) + rest, mem, st) == Chunks(disk, rest, mem, st)
    decreases |data|
  {
    hide Chunk, Update, FastLzCompress.Compressed, Chunks, Blocks;
    if data == [] {
      BlocksEnd(pol, compress, hash, k);
      assert [] + rest == rest;
    } else {
      var n := if |data| < BLOCK_SIZE then |data| else BLOCK_SIZE;
      BlocksStep(pol, compress, data, 0, n, hash, k);
      assert data[0..] == data && data[0..n] == data[..n];
      var block, more := data[..n], Blocks(pol, compress, data[n..], hash, k + 1);
      var first := BlockChunk(pol, compress, block, hash(k));
      assert (first + more) + rest == first + (more + rest);
      FastLz.CompressedSize(pol, block, hash(k));
      ChunkReadsBack(disk, 17, 1, FastLzCompress.Compressed(pol, block, hash(k)), n, more + rest, mem, st);
      ChunkReadsBack(disk, 17, 0, block, n, more + rest, mem, st);
      BlocksSkipped(pol, compress, data[n..], hash, k + 1, disk, rest, mem, st);
    }
  }

  predicate IsCString(name: Name) {
    0 !in name
  }

  lemma {:induction false} CStringReadsBack(name: Name, rest: seq<byte>)
    requires IsCString(name) && (rest == [] || rest[0] == 0)
    ensures CString(name + rest) == name
    decreases |name|
  {
    var s := name + rest;
    if name != [] {
      CStringReadsBack(name[1..], rest);
      assert s[1..] == name[1..] + rest;
    } else {
      assert s == rest;
    }
  }

  lemma {:induction false} EntryReadsBack(name: Name, size: nat)
    requires IsCString(name) && |name| + 11 < BUFFER_SIZE
    ensures var body := EntryBody(name, size);
            |body| == |name| + 11 && EntryName(body) == name && ReadU32(body[..4]) == size % 0x1_0000_0000
  {
    hide Le16, Le32, ReadU16, ReadU32;
    EntryParts(name, size);
    ReadsBack16(|name| + 1);
    ReadsBack32(size);
    CStringReadsBack(name, [0]);
  }

  lemma {:induction false} EntryParts(name: Name, size: nat)
    ensures var body := EntryBody(name, size);
            && |body| == |name| + 11 && body[..4] == Le32(size)
            && body[8..10] == Le16(|name| + 1) && body[10..] == name + [0]
            && body[10..10 + |name| + 1] == name + [0]
  {
    var body := EntryBody(name, size);
    assert |Le32(size)| == 4 && |Le16(|name| + 1)| == 2;
  }

  /** Whether the unpacker gets to open a file of this name, as the first one. */
  predicate Opens(disk: Disk, name: Name) {
    |name| + 11 < BUFFER_SIZE && !(disk.present(name) && disk.readable(name)) && disk.writable(name)
  }

  /** The same for a complete archive. */
  lemma {:induction false} UnpackOfArchive(pol: LzSearch.Policy, compress: bool, name: Name, data: seq<byte>,
                                           hash: nat -> nat -> nat, disk: Disk, mem: Memory)
    requires FastLzCompress.IsFastLz(pol) && IsCString(name) && |name| + 11 < 0x1_0000_0000
    ensures Unpack(disk, Archive(pol, compress, name, data, hash), mem)
         == Unpacked(if !Opens(disk, name) then []
                     else [File(name, if |data| % 0x1_0000_0000 == 0 then [] else data)])
  {
    hide Chunk, Blocks, Update, EntryBody, Chunks;
    var blocks := Blocks(pol, compress, data, hash, 0);
    EntryIsRead(disk, name, |data|, blocks, mem);
    assert blocks + [] == blocks;
    var size := |data| % 0x1_0000_0000;
    var st := if Opens(disk, name) then State([File(name, [])], true, size)
              else State([], false, if |name| + 11 < BUFFER_SIZE then size else 0);
    ChunksEnd(disk, mem, State(Append(st.files, data), true, st.size));
    ChunksEnd(disk, mem, st);
    if st.open && st.size != 0 {
      BlocksExtracted(pol, compress, data, hash, 0, disk, [], mem, st);
      assert [] + data == data;
    } else {
      BlocksSkipped(pol, compress, data, hash, 0, disk, [], mem, st);
    }
  }

  /** The signature and an entry, whatever follows: the file is opened or not. */
  lemma {:induction false} EntryIsRead(disk: Disk, name: Name, size: nat, rest: seq<byte>, mem: Memory)
    requires IsCString(name) && |name| + 11 < 0x1_0000_0000
    ensures Unpack(disk, MAGIC + (Chunk(1, 0, EntryBody(name, size), 0) + rest), mem)
         == Chunks(disk, rest, mem,
                   if Opens(disk, name) then State([File(name, [])], true, size % 0x1_0000_0000)
                   else State([], false, if |name| + 11 < BUFFER_SIZE then size % 0x1_0000_0000 else 0))
  {
    hide Chunk, Update, EntryBody, EntryName, ReadU32, Chunks;
    var st, body := State([], false, 0), EntryBody(name, size);
    var s := MAGIC + (Chunk(1, 0, body, 0) + rest);
    assert s[..8] == MAGIC && s[8..] == Chunk(1, 0, body, 0) + rest;
    EntryParts(name, size);
    ChunkReadsBack(disk, 1, 0, body, 0, rest, mem, st);
    if |name| + 11 < BUFFER_SIZE {
      EntryReadsBack(name, size);
      assert st.files + [File(name, [])] == [File(name, [])];
    }
  }

  /**
   What unpacking makes of whatever pack leaves in its output file, at both levels and
   whatever the hash values were: one file with the name and the data, but none if pack
   refused the input as an archive or the file cannot be opened, and an empty one if the
   size is a multiple of 2^32.
   */
  lemma {:induction false} UnpackOfPack(pol: LzSearch.Policy, compress: bool, name: Name, data: seq<byte>,
                                        hash: nat -> nat -> nat, disk: Disk, mem: Memory)
    requires FastLzCompress.IsFastLz(pol) && IsCString(name) && |name| + 11 < 0x1_0000_0000
    ensures Unpack(disk, Packed(pol, compress, name, data, hash), mem)
         == Unpacked(if IsArchive(data) || !Opens(disk, name) then []
                     else [File(name, if |data| % 0x1_0000_0000 == 0 then [] else data)])
  {
    hide Archive, Chunks, Opens;
    if IsArchive(data) {
      assert MAGIC[8..] == [] && MAGIC[..8] == MAGIC;
      ChunksEnd(disk, mem, State([], false, 0));
    } else {
      UnpackOfArchive(pol, compress, name, data, hash, disk, mem);
    }
  }

  /**
   The round trip holds exactly for files that are no archives themselves, whose name can
   be opened, and whose size does not wrap to zero in 32 bits.
   */
  lemma {:induction false} RoundTrip(pol: LzSearch.Policy, compress: bool, name: Name, data: seq<byte>,
                                     hash: nat -> nat -> nat, disk: Disk, mem: Memory)
    requires FastLzCompress.IsFastLz(pol) && IsCString(name) && |name| + 11 < 0x1_0000_0000
    ensures Unpack(disk, Packed(pol, compress, name, data, hash), mem) == Unpacked([File(name, data)])
       <==> Opens(disk, name) && !IsArchive(data) && (data == [] || |data| % 0x1_0000_0000 != 0)
  {
    hide Unpack, Packed, Opens, IsArchive;
    UnpackOfPack(pol, compress, name, data, hash, disk, mem);
    if Opens(disk, name) && data != [] && |data| % 0x1_0000_0000 == 0 {
      assert [File(name, [])][0] != [File(name, data)][0];
    }
  }

  /** The first kind of failure: eight bytes that are the signature. */
  lemma {:induction false} ArchiveIsRefused(pol: LzSearch.Policy, compress: bool, name: Name,
                                            hash: nat -> nat -> nat, disk: Disk, mem: Memory)
    requires FastLzCompress.IsFastLz(pol) && IsCString(name) && Opens(disk, name)
    ensures Unpack(disk, Packed(pol, compress, name, MAGIC, hash), mem) == Unpacked([])
  {
    hide Unpack;
    UnpackOfPack(pol, compress, name, MAGIC, hash, disk, mem);
  }

  /** The second: 2^32 zeros. */
  lemma {:induction false} SizeWraps(pol: LzSearch.Policy, compress: bool, name: Name,
                                     hash: nat -> nat -> nat, disk: Disk, mem: Memory)
    requires FastLzCompress.IsFastLz(pol) && IsCString(name) && Opens(disk, name)
    ensures var data := seq<byte>(0x1_0000_0000, _ => 0);
            Unpack(disk, Packed(pol, compress, name, data, hash), mem) == Unpacked([File(name, [])])
  {
    hide Unpack, Packed;
    var data := seq<byte>(0x1_0000_0000, _ => 0);
    assert data[..8][0] == 0;
    UnpackOfPack(pol, compress, name, data, hash, disk, mem);
  }

  /** The third: a file of that name is there and can be read. */
  lemma {:induction false} NameIsTaken(pol: LzSearch.Policy, compress: bool, name: Name, data: seq<byte>,
                                       hash: nat -> nat -> nat, disk: Disk, mem: Memory)
    requires FastLzCompress.IsFastLz(pol) && IsCString(name) && |name| + 11 < 0x1_0000_0000
    requires disk.present(name) && disk.readable(name)
    ensures Unpack(disk, Packed(pol, compress, name, data, hash), mem) == Unpacked([])
  {
    hide Unpack, Packed;
    UnpackOfPack(pol, compress, name, data, hash, disk, mem);
  }

  // ---------- Every archive ----------

  /** A name that the test for an existing file lets through. */
  predicate LetThrough(disk: Disk, name: Name) {
    0 !in name && |name| < BUFFER_SIZE - 10 && disk.writable(name) && !(disk.present(name) && disk.readable(name))
  }

  /** The file is not one that the run has written already. */
  predicate Fresh(disk: Disk, files: seq<File>, k: nat)
    requires k < |files|
  {
    !Created(disk, files[..k], files[k].name)
  }

  /** All names were let through, and a file that was not there before comes once. */
  predicate Proper(disk: Disk, files: seq<File>) {
    forall k :: 0 <= k < |files| ==>
                  LetThrough(disk, files[k].name) && (disk.present(files[k].name) || Fresh(disk, files, k))
  }

  lemma {:induction false} SameNames(disk: Disk, files: seq<File>, out: seq<byte>, k: nat)
    requires k < |files|
    ensures Append(files, out)[k].name == files[k].name
    ensures forall name :: Created(disk, Append(files, out)[..k], name) == Created(disk, files[..k], name)
  {
    assert Append(files, out)[..k] == files[..k];
  }

  lemma {:induction false} AppendIsProper(disk: Disk, files: seq<File>, out: seq<byte>)
    requires Proper(disk, files)
    ensures Proper(disk, Append(files, out))
  {
    var r := Append(files, out);
    forall k | 0 <= k < |r|
      ensures LetThrough(disk, r[k].name) && (disk.present(r[k].name) || Fresh(disk, r, k))
    {
      SameNames(disk, files, out, k);
    }
  }

  lemma {:induction false} EnterIsProper(disk: Disk, st: State, body: seq<byte>)
    requires Proper(disk, st.files) && 10 < |body| < BUFFER_SIZE
    ensures Proper(disk, Enter(disk, st, body).files)
  {
    hide EntryName, ReadU32;
    var files, r := st.files, Enter(disk, st, body).files;
    forall k | 0 <= k < |r|
      ensures LetThrough(disk, r[k].name) && (disk.present(r[k].name) || Fresh(disk, r, k))
    {
      assert r[..k] == files[..k];
      if k == |files| {
        assert files[..k] == files;
      }
    }
  }

  /** Whatever a chunk holds, the files stay proper, also when it ends the run. */
  lemma {:induction false} ChunkIsProper(disk: Disk, h: Header, stored: seq<byte>, body: seq<byte>,
                                         behind: seq<byte>, st: State)
    requires Proper(disk, st.files) && |body| == h.size
    ensures match ChunkStep(disk, h, stored, body, behind, st)
            case Go(st') => Proper(disk, st'.files)
            case Stop(r) => Proper(disk, FilesOf(r))
  {
    hide Proper, Update, Enter, Extracted, Append;
    if IsEntry(h) {
      EnterIsProper(disk, st, body);
    } else if Wanted(h, st) {
      AppendIsProper(disk, st.files, Extracted(h, stored, body, behind).out);
    }
  }

  lemma {:induction false} ChunksAreProper(disk: Disk, s: seq<byte>, mem: Memory, st: State)
    requires Proper(disk, st.files)
    ensures Proper(disk, FilesOf(Chunks(disk, s, mem, st)))
    decreases |s|
  {
    hide Proper, ChunkStep, ReadHeader, Fread, Delivered;
    if s != [] {
      var h := ReadHeader(Fread(s, mem.fill, 0, 16));
      var stored, body := Delivered(s, 16, h.size), Fread(s, mem.fill, 16, h.size);
      ChunkIsProper(disk, h, stored, body, mem.behind(|s|), st);
      match ChunkStep(disk, h, stored, body, mem.behind(|s|), st)
      case Go(st') => ChunksAreProper(disk, s[NextChunk(s, h.size)..], mem, st');
      case Stop(_) =>
    }
  }

  /**
   On every archive, complete or not and however the run ends, each file written has a
   name that could be opened for writing and not for reading, and none comes twice unless it was
   there before.
   */
  lemma {:induction false} WritesAreProper(disk: Disk, s: seq<byte>, mem: Memory)
    ensures Proper(disk, FilesOf(Unpack(disk, s, mem)))
  {
    hide Chunks;
    if IsArchive(s) {
      ChunksAreProper(disk, s[8..], mem, State([], false, 0));
    }
  }

  /** A file that was there, before the run or through it, has been opened for writing, and so lost what it held. */
  predicate Overwrites(disk: Disk, files: seq<File>) {
    exists k :: 0 <= k < |files| && (disk.present(files[k].name) || !Fresh(disk, files, k))
  }

  /** No archive makes a run overwrite anything. */
  ghost predicate NeverOverwrites(disk: Disk) {
    forall s, mem :: !Overwrites(disk, FilesOf(Unpack(disk, s, mem)))
  }

  /** Every file that is there and may be written may also be read, as far as an entry can name it. */
  ghost predicate Guarded(disk: Disk) {
    forall name: Name :: 0 !in name && |name| < BUFFER_SIZE - 10 && disk.present(name) && disk.writable(name)
                         ==> disk.readable(name)
  }

  /** An entry for any name it can hold, with the terminator if there is room for it. */
  function EntryFor(name: Name): seq<byte> {
    [0, 0, 0, 0, 0, 0, 0, 0] + Le16(|name|) + name + if |name| + 11 < BUFFER_SIZE then [0] else []
  }

  lemma {:induction false} EntryForReadsBack(name: Name)
    requires 0 !in name && |name| < BUFFER_SIZE - 10
    ensures 10 < |EntryFor(name)| < BUFFER_SIZE && EntryName(EntryFor(name)) == name
  {
    hide ReadU16, CString;
    var body := EntryFor(name);
    ReadsBack16(|name|);
    assert |Le16(|name|)| == 2 && body[8..10] == Le16(|name|) && body[10..10 + |name|] == name;
    CStringReadsBack(name, []);
    assert name + [] == name;
  }

  /** A name that is let through can be written by a suitable archive. */
  lemma {:induction false} NameCanBeWritten(disk: Disk, name: Name, mem: Memory)
    requires LetThrough(disk, name)
    ensures Unpack(disk, MAGIC + Chunk(1, 0, EntryFor(name), 0), mem) == Unpacked([File(name, [])])
  {
    hide Chunk, EntryFor, EntryName, ReadU32, Update, Chunks;
    var body, st := EntryFor(name), State([], false, 0);
    EntryForReadsBack(name);
    ChunkReadsBack(disk, 1, 0, body, 0, [], mem, st);
    var s := MAGIC + Chunk(1, 0, body, 0);
    assert s[..8] == MAGIC && s[8..] == Chunk(1, 0, body, 0) && Chunk(1, 0, body, 0) + [] == Chunk(1, 0, body, 0);
    ChunksEnd(disk, mem, Enter(disk, st, body));
    assert [] + [File(name, [])] == [File(name, [])];
  }

  lemma {:induction false} GuardedIsKept(disk: Disk, files: seq<File>)
    requires Guarded(disk) && Proper(disk, files)
    ensures !Overwrites(disk, files)
  {
    hide Fresh;
  }

  /** Some archive empties a file that may be written and not read. */
  lemma {:induction false} UnreadableIsEmptied(disk: Disk, name: Name)
    requires LetThrough(disk, name) && disk.present(name)
    ensures !NeverOverwrites(disk)
  {
    hide Unpack, Chunk, EntryFor;
    var mem := Memory(_ => 0, _ => []);
    NameCanBeWritten(disk, name, mem);
    var s, files := MAGIC + Chunk(1, 0, EntryFor(name), 0), [File(name, [])];
    assert disk.present(files[0].name);
    assert Overwrites(disk, FilesOf(Unpack(disk, s, mem)));
  }

  /**
   Since a file counts as existing when it can be opened for reading, no archive makes a run
   overwrite a file, one that was there before or one of its own, if and only if all files
   that can be written can be read.
   */
  lemma {:induction false} NeverOverwritesIff(disk: Disk)
    ensures NeverOverwrites(disk) <==> Guarded(disk)
  {
    hide Unpack, Proper, Overwrites;
    if Guarded(disk) {
      forall s, mem ensures !Overwrites(disk, FilesOf(Unpack(disk, s, mem))) {
        WritesAreProper(disk, s, mem);
        GuardedIsKept(disk, FilesOf(Unpack(disk, s, mem)));
      }
    } else {
      var name: Name :| 0 !in name && |name| < BUFFER_SIZE - 10
                        && disk.present(name) && disk.writable(name) && !disk.readable(name);
      UnreadableIsEmptied(disk, name);
    }
  }

  /** A single file `a` that may be written and not read: an archive with an entry for it empties it. */
  lemma {:induction false} WriteOnlyIsEmptied(file: Name -> nat, mem: Memory)
    ensures var disk := Disk(file, n => n == [97], n => n != [97], n => true);
            var r := Unpack(disk, MAGIC + Chunk(1, 0, EntryFor([97]), 0), mem);
            disk.present([97]) && r == Unpacked([File([97], [])])
  {
    hide Unpack, Chunk;
    NameCanBeWritten(Disk(file, n => n == [97], n => n != [97], n => true), [97], mem);
  }

  // ---------- Unpacking ----------

  lemma {:induction false} DeliveredMore(s: seq<byte>, start: nat, m: nat, n: nat)
    requires start + m + n <= |s|
    ensures var done, piece := Delivered(s, start, m), s[start + m..start + m + n];
            done + piece == Delivered(s, start, m + n)
            && Update(Update(1, done), piece) == Update(1, Delivered(s, start, m + n))
  {
    hide Update;
    UpdateConcat(1, Delivered(s, start, m), s[start + m..start + m + n]);
  }

  lemma {:induction false} DeliveredEnds(s: seq<byte>, start: nat, m: nat, size: nat)
    requires m <= size && (m < size ==> start + m == |s|)
    ensures Delivered(s, start, m) == Delivered(s, start, size)
  {
  }

  /** Copies a stored block in pieces of 64 KiB, as far as the archive goes. */
  method CopyStored(s: seq<byte>, start: nat, size: nat) returns (out: seq<byte>, checksum: u32)
    ensures out == Delivered(s, start, size)
    ensures checksum == Update(1, out)
  {
    hide Update;
    out, checksum := [], 1;
    UpdateNothing();
    if start >= |s| { return; }
    var remaining: nat, done: nat := size, 0;
    assert Delivered(s, start, 0) == [];
    hide Delivered;
    while remaining > 0 && start + done < |s|
      invariant start + done <= |s| && done + remaining == size
      invariant out == Delivered(s, start, done) && checksum == Update(1, out)
      decreases remaining
    {
      var r: nat := if BUFFER_SIZE < remaining then BUFFER_SIZE else remaining;
      var n: nat := if r < |s| - start - done then r else |s| - start - done;
      var piece := s[start + done..start + done + n];
      DeliveredMore(s, start, done, n);
      checksum := UpdateAdler32(checksum, piece);
      out := out + piece;
      remaining, done := remaining - n, done + n;
    }
    DeliveredEnds(s, start, done, size);
  }

  lemma {:induction false} UpdateNothing()
    ensures Update(1, []) == 1
  {
  }

  /** One block for the open file: what to write, and whether to go on with the file. */
  method ExtractBlock(strictAlign: bool, h: Header, s: seq<byte>, mem: Memory, start: nat, behind: seq<byte>)
    returns (out: seq<byte>, ok: bool)
    requires h.size < LzFormat.U32 && h.extra < LzFormat.U32
    ensures Extract(out, ok)
         == Extracted(h, Delivered(s, start, h.size), Fread(s, mem.fill, start, h.size), behind)
    ensures h.options == 0 ==> out == Delivered(s, start, h.size) && ok == (Update(1, out) == h.checksum)
    ensures h.options == 1 && Checksum(Fread(s, mem.fill, start, h.size)) != h.checksum ==> out == [] && !ok
    ensures h.options > 1 ==> out == [] && !ok
  {
    hide Update, FastLz.SizedDecoded, FastLz.SizedInside, Fread, Delivered;
    out, ok := [], false;
    if h.options == 0 {
      var checksum;
      out, checksum := CopyStored(s, start, h.size);
      ok := checksum == h.checksum;
    } else if h.options == 1 {
      var body := Fread(s, mem.fill, start, h.size);
      var checksum := ChecksumOf(body);
      if checksum == h.checksum {
        var buffer := new byte[h.extra];
        var n := FastLz.DecompressSized(strictAlign, body, buffer);
        var inflated := if n == None then behind else buffer[..n.value];
        ok := |inflated| == h.extra;
        if ok {
          out := inflated;
        }
      }
    }
  }

  method ChecksumOf(body: seq<byte>) returns (checksum: u32)
    ensures checksum == Checksum(body)
  {
    if AsInt(|body|) < 0 { return 1; }
    checksum := UpdateAdler32(1, body);
  }

  /** One chunk: the state after it, or how it ends the run. */
  method UnpackChunk(strictAlign: bool, disk: Disk, h: Header, s: seq<byte>, mem: Memory, start: nat,
                     behind: seq<byte>, st: State)
    returns (step: Step)
    requires h.size < LzFormat.U32 && h.extra < LzFormat.U32
    ensures step == ChunkStep(disk, h, Delivered(s, start, h.size), Fread(s, mem.fill, start, h.size), behind, st)
  {
    hide Update, EntryName, ReadU32, CanRead, Extracted, Append, Fread, Delivered;
    var st' := st;
    if h.id == 1 && h.size > 10 && h.size < BUFFER_SIZE {
      st' := st'.(open := false);
      var buffer := Fread(s, mem.fill, start, h.size);
      var checksum := UpdateAdler32(1, buffer);
      if checksum != h.checksum { return Stop(Corrupt(st'.files)); }
      st' := st'.(size := ReadU32(buffer[..4]));
      var name := EntryName(buffer);
      if !CanRead(disk, st.files, name) {
        if disk.writable(name) {
          st' := st'.(files := st.files + [File(name, [])], open := true);
        }
      }
    }
    if h.id == 17 && st'.open && st'.size != 0 {
      var out, ok := ExtractBlock(strictAlign, h, s, mem, start, behind);
      st' := st'.(files := Append(st'.files, out), open := ok);
    }
    return Go(st');
  }

  lemma {:induction false} ChunksHead(disk: Disk, s: seq<byte>, mem: Memory, at: nat, st: State)
    requires at < |s|
    ensures var h := ReadHeader(Fread(s, mem.fill, at, 16));
            Chunks(disk, s[at..], mem, st) ==
            match ChunkStep(disk, h, Delivered(s, at + 16, h.size), Fread(s, mem.fill, at + 16, h.size),
                            mem.behind(|s| - at), st)
            case Go(st') => Chunks(disk, s[at + NextChunk(s[at..], h.size)..], mem, st')
            case Stop(r) => r
  {
    hide ChunkStep, ReadHeader, Fread, Delivered;
    FreadLater(s, mem.fill, at, 0, 16);
    var h := ReadHeader(Fread(s, mem.fill, at, 16));
    FreadLater(s, mem.fill, at, 16, h.size);
    DeliveredLater(s, at, 16, h.size);
    var n := NextChunk(s[at..], h.size);
    assert s[at..][n..] == s[at + n..];
  }

  /** Unpacks any sequence of bytes. */
  method UnpackFile(strictAlign: bool, disk: Disk, s: seq<byte>, mem: Memory) returns (r: Result)
    ensures r == Unpack(disk, s, mem)
  {
    hide ReadHeader, Chunks, ChunkStep, Fread, Delivered;
    if !IsArchive(s) { return NotArchive; }
    var st, at: nat := State([], false, 0), 8;
    while at < |s|
      invariant 8 <= at <= |s| && Chunks(disk, s[at..], mem, st) == Unpack(disk, s, mem)
      decreases |s| - at
    {
      ChunksHead(disk, s, mem, at, st);
      var h := ReadHeader(Fread(s, mem.fill, at, 16));
      var step := UnpackChunk(strictAlign, disk, h, s, mem, at + 16, mem.behind(|s| - at), st);
      if step.Stop? { return step.result; }
      st := step.st;
      at := if at + 16 + h.size < |s| then at + 16 + h.size else |s|;
    }
    ChunksEnd(disk, mem, st);
    assert s[at..] == [];
    return Unpacked(st.files);
  }
}
