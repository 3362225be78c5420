/**
 What checksums do for an archive: which blocks a written file is made of, for every
 archive, and what is left of a file that pack wrote when one of its blocks is damaged.
 */
module SixIntegrity {
  import opened Bytes
  import opened Adler32
  import opened SixPack
  import opened SixUnpack
  import LzSearch
  import FastLzCompress
  import FastLz

  // ---------- The chunks of an archive ----------

  /** A chunk as it is read, and what the decompressor would return if it read behind it. */
  datatype Part = Part(h: Header, stored: seq<byte>, body: seq<byte>, behind: seq<byte>)

  type Whole = p: Part | |p.body| == p.h.size witness Part(Header(0, 0, 0, 0, 0), [], [], [])

  /** The chunks, wherever their sizes lead; what is in them has no say in that. */
  function Parts(s: seq<byte>, mem: Memory): seq<Whole>
    decreases |s|
  {
    if s == [] then []
    else
      var h := ReadHeader(Fread(s, mem.fill, 0, 16));
      [Part(h, Delivered(s, 16, h.size), Fread(s, mem.fill, 16, h.size), mem.behind(|s|))]
      + Parts(s[NextChunk(s, h.size)..], mem)
  }

  // ---------- File by file ----------

  /** The bytes have the Adler-32 that the header names; those of a compressed block also give the size it names. */
  predicate Genuine(p: Part) {
    if p.h.options == 0 then p.h.checksum == Update(1, p.stored)
    else
      && p.h.options == 1
      && p.h.checksum == (if AsInt(|p.body|) < 0 then 1 else Update(1, p.body))
      && |Inflated(p.h, p.body, p.behind)| == p.h.extra
  }

  /** What a block adds: a stored one its bytes in any case, a compressed one nothing if it is not genuine. */
  function Added(p: Part): seq<byte> {
    if p.h.options == 0 then p.stored else if Genuine(p) then Inflated(p.h, p.body, p.behind) else []
  }

  /** Blocks are added up to and including the first one that is not genuine. */
  function Content(blocks: seq<Part>): seq<byte> {
    if blocks == [] then []
    else Added(blocks[0]) + if Genuine(blocks[0]) then Content(blocks[1..]) else []
  }

  predicate IsBlock(p: Part) {
    p.h.id == 17
  }

  predicate IsFile(p: Part) {
    p.h.id == 1 && 10 < p.h.size < 65536
  }

  /** The blocks before the next file entry. */
  function BlocksOf(ps: seq<Whole>): seq<Part> {
    if ps == [] || IsFile(ps[0]) then [] else (if IsBlock(ps[0]) then [ps[0]] else []) + BlocksOf(ps[1..])
  }

  /** The next file entry and what follows it. */
  function FromEntry(ps: seq<Whole>): (r: seq<Whole>)
    ensures |r| <= |ps| && (r != [] ==> IsFile(r[0]))
  {
    if ps == [] || IsFile(ps[0]) then ps else FromEntry(ps[1..])
  }

  /** What the archive stands for: an entry that is damaged ends it, a file that cannot be opened is left out. */
  function ByFiles(disk: Disk, ps: seq<Whole>, files: seq<File>): Result
    decreases |ps|
  {
    var rest := FromEntry(ps);
    if rest == [] then Unpacked(files)
    else
      var entry := rest[0].body;
      var name := EntryName(entry);
      if Update(1, entry) != rest[0].h.checksum then Corrupt(files)
      else if CanRead(disk, files, name) || !disk.writable(name) then ByFiles(disk, rest[1..], files)
      else
        var content := if ReadU32(entry[..4]) == 0 then [] else Content(BlocksOf(rest[1..]));
        ByFiles(disk, rest[1..], files + [File(name, content)])
  }

  /** All blocks of a file but the last one are genuine, and the last one adds what it adds. */
  lemma {:induction false} ContentIs(blocks: seq<Part>) returns (m: nat)
    ensures m <= |blocks| && forall i :: 0 <= i < m ==> Genuine(blocks[i])
    ensures Content(blocks) == Content(blocks[..m]) + if m < |blocks| then Added(blocks[m]) else []
    ensures m < |blocks| ==> !Genuine(blocks[m])
    ensures m < |blocks| && blocks[m].h.options != 0 ==> Content(blocks) == Content(blocks[..m])
  {
    hide Genuine, Added;
    m := 0;
    if blocks != [] && Genuine(blocks[0]) {
      var k := ContentIs(blocks[1..]);
      m := k + 1;
      assert blocks[..m][0] == blocks[0] && blocks[..m][1..] == blocks[1..][..k];
    }
    BadAddsNothing(blocks, m);
  }

  lemma {:induction false} BadAddsNothing(blocks: seq<Part>, m: nat)
    ensures m < |blocks| && !Genuine(blocks[m]) && blocks[m].h.options != 0 ==> Added(blocks[m]) == []
  {
  }

  // ---------- The run does just that ----------

  /** The chunks in turn. */
  function Run(disk: Disk, ps: seq<Whole>, st: State): Result
    decreases |ps|
  {
    if ps == [] then Unpacked(st.files)
    else
      match ChunkStep(disk, ps[0].h, ps[0].stored, ps[0].body, ps[0].behind, st)
      case Go(st') => Run(disk, ps[1..], st')
      case Stop(r) => r
  }

  lemma {:induction false} ChunksRun(disk: Disk, s: seq<byte>, mem: Memory, st: State)
    ensures Chunks(disk, s, mem, st) == Run(disk, Parts(s, mem), st)
    decreases |s|
  {
    hide ChunkStep, ReadHeader, Fread, Delivered;
    if s != [] {
      var ps := Parts(s, mem);
      var h := ps[0].h;
      match ChunkStep(disk, h, ps[0].stored, ps[0].body, ps[0].behind, st)
      case Go(st') =>
        ChunksRun(disk, s[NextChunk(s, h.size)..], mem, st');
      case Stop(_) =>
    }
  }

  lemma {:induction false} ExtractedIs(p: Part)
    ensures Extracted(p.h, p.stored, p.body, p.behind) == Extract(Added(p), Genuine(p))
  {
    hide Update, Inflated;
  }

  /** A file entry is treated the same whatever is open. */
  lemma {:induction false} RunEntry(disk: Disk, ps: seq<Whole>, st: State)
    requires ps != [] && IsFile(ps[0])
    ensures Run(disk, ps, st) == ByFiles(disk, ps, st.files)
    decreases |ps|, 0
  {
    hide Update, EntryName, ReadU32, CanRead, Content;
    var p := ps[0];
    if Update(1, p.body) == p.h.checksum {
      var st' := Enter(disk, st, p.body);
      if st'.open && st'.size != 0 {
        RunOpen(disk, ps[1..], st');
        assert st.files + [File(EntryName(p.body), [])] == st'.files;
        AppendToNew(st.files, EntryName(p.body), Content(BlocksOf(ps[1..])));
      } else {
        RunIdle(disk, ps[1..], st');
      }
    }
  }

  lemma {:induction false} AppendToNew(files: seq<File>, name: Name, out: seq<byte>)
    ensures Append(files + [File(name, [])], out) == files + [File(name, out)]
  {
    var all := files + [File(name, [])];
    assert all[..|all| - 1] == files && [] + out == out;
  }

  /** Without an open file everything up to the next entry is passed over. */
  lemma {:induction false} RunIdle(disk: Disk, ps: seq<Whole>, st: State)
    requires !st.open || st.size == 0
    ensures Run(disk, ps, st) == ByFiles(disk, ps, st.files)
    decreases |ps|, 1
  {
    if ps != [] {
      if IsFile(ps[0]) {
        RunEntry(disk, ps, st);
      } else {
        RunIdle(disk, ps[1..], st);
        PassOver(disk, ps, st.files);
      }
    }
  }

  lemma {:induction false} PassOver(disk: Disk, ps: seq<Whole>, files: seq<File>)
    requires ps != [] && !IsFile(ps[0])
    ensures ByFiles(disk, ps, files) == ByFiles(disk, ps[1..], files)
    ensures BlocksOf(ps) == (if IsBlock(ps[0]) then [ps[0]] else []) + BlocksOf(ps[1..])
  {
    hide Update, EntryName, ReadU32, CanRead, Content;
  }

  /** With one, its blocks are added as far as they are genuine. */
  lemma {:induction false} RunOpen(disk: Disk, ps: seq<Whole>, st: State)
    requires st.open && st.size != 0
    ensures Run(disk, ps, st) == ByFiles(disk, ps, Append(st.files, Content(BlocksOf(ps))))
    decreases |ps|, 1
  {
    hide Genuine, Added, Append, ByFiles, Extracted;
    if ps == [] {
      AppendTwice(st.files, [], []);
      NoParts(disk, st.files);
    } else if IsFile(ps[0]) {
      AppendTwice(st.files, [], []);
      RunEntry(disk, ps, st);
    } else {
      PassOver(disk, ps, Append(st.files, Content(BlocksOf(ps))));
      if IsBlock(ps[0]) {
        RunBlock(disk, ps, st);
      } else {
        RunOpen(disk, ps[1..], st);
        assert [] + BlocksOf(ps[1..]) == BlocksOf(ps[1..]);
      }
    }
  }

  lemma {:induction false} NoParts(disk: Disk, files: seq<File>)
    ensures ByFiles(disk, [], files) == Unpacked(files)
  {
  }

  lemma {:induction false} RunBlock(disk: Disk, ps: seq<Whole>, st: State)
    requires st.open && st.size != 0 && ps != [] && !IsFile(ps[0]) && IsBlock(ps[0])
    ensures Run(disk, ps, st) == ByFiles(disk, ps[1..], Append(st.files, Content(BlocksOf(ps))))
    decreases |ps|, 0
  {
    hide Genuine, Added, Append, ByFiles, Extracted;
    var p, more := ps[0], BlocksOf(ps[1..]);
    var st' := State(Append(st.files, Added(p)), Genuine(p), st.size);
    ExtractedIs(p);
    assert Run(disk, ps, st) == Run(disk, ps[1..], st');
    assert ([p] + more)[1..] == more && BlocksOf(ps) == [p] + more;
    if Genuine(p) {
      RunOpen(disk, ps[1..], st');
      AppendTwice(st.files, Added(p), Content(more));
    } else {
      RunIdle(disk, ps[1..], st');
      assert Added(p) + [] == Added(p);
    }
  }

  /**
   Every archive is unpacked file by file: to each file that is opened its blocks are added
   up to and including the first one with another checksum than its header names, which adds
   its bytes if it is stored and nothing if it is compressed.
   */
  lemma {:induction false} UnpacksByFiles(disk: Disk, s: seq<byte>, mem: Memory)
    ensures SixUnpack.Unpack(disk, s, mem) == if IsArchive(s) then ByFiles(disk, Parts(s[8..], mem), []) else NotArchive
  {
    hide Chunks, Parts, ByFiles;
    if IsArchive(s) {
      ChunksRun(disk, s[8..], mem, State([], false, 0));
      RunIdle(disk, Parts(s[8..], mem), State([], false, 0));
    }
  }

  /** An entry with another checksum than its header names opens no file and ends the run. */
  lemma {:induction false} DamagedEntry(disk: Disk, h: Header, body: seq<byte>, rest: seq<byte>, mem: Memory, st: State)
    requires Kept(h) == h && h.id == 1 && 10 < h.size < 65536 && |body| == h.size && Update(1, body) != h.checksum
    ensures Chunks(disk, HeaderBytes(h) + body + rest, mem, st) == Corrupt(st.files)
  {
    hide Chunks, Update, HeaderBytes;
    ChunkIsRead(disk, h, body, rest, mem, st);
  }

  // ---------- Damage to what pack wrote ----------

  lemma {:induction false} BlocksConcat(pol: LzSearch.Policy, compress: bool, a: seq<byte>, b: seq<byte>,
                                        hash: nat -> nat -> nat, k: nat, j: nat)
    requires |a| == j * 131072
    ensures Blocks(pol, compress, a + b, hash, k)
         == Blocks(pol, compress, a, hash, k) + Blocks(pol, compress, b, hash, k + j)
    decreases j
  {
    hide BlockChunk, Blocks;
    var all := a + b;
    if j == 0 {
      BlocksEnd(pol, compress, hash, k);
      assert all == b;
    } else {
      var n := BLOCK_SIZE;
      BlocksStep(pol, compress, all, 0, n, hash, k);
      BlocksStep(pol, compress, a, 0, n, hash, k);
      assert all[0..] == all && a[0..] == a && all[0..n] == a[0..n] && all[n..] == a[n..] + b;
      BlocksConcat(pol, compress, a[n..], b, hash, k + 1, j - 1);
    }
  }

  /** One block with its header taken from the archive and another body of the same size. */
  function Damaged(pol: LzSearch.Policy, compress: bool, block: seq<byte>, hash: nat -> nat, body: seq<byte>)
    : seq<byte>
  {
    BlockChunk(pol, compress, block, hash)[..16] + body
  }

  lemma {:induction false} DamagedIsRead(pol: LzSearch.Policy, compress: bool, block: seq<byte>, hash: nat -> nat,
                                         body: seq<byte>, disk: Disk, rest: seq<byte>, mem: Memory, st: State)
    requires FastLzCompress.IsFastLz(pol) && 0 < |block| <= BLOCK_SIZE && st.open && st.size != 0
    requires var c := BlockChunk(pol, compress, block, hash);
             |c| == 16 + |body| && Update(1, body) != Update(1, c[16..])
    ensures Chunks(disk, Damaged(pol, compress, block, hash, body) + rest, mem, st)
         == Chunks(disk, rest, mem,
                   State(Append(st.files, if compress && |block| >= 32 then [] else body), false, st.size))
  {
    hide Chunks, HeaderBytes, Update, FastLzCompress.Compressed, Inflated, Append;
    var packed := compress && |block| >= 32;
    var was := if packed then FastLzCompress.Compressed(pol, block, hash) else block;
    FastLz.CompressedSize(pol, block, hash);
    var h := Header(17, if packed then 1 else 0, |was|, Update(1, was), |block|);
    var c := BlockChunk(pol, compress, block, hash);
    assert c == HeaderBytes(h) + was && c[..16] == HeaderBytes(h) && c[16..] == was;
    ChunkIsRead(disk, h, body, rest, mem, st);
  }

  /**
   A block of a packed file, the first with another body than was written: if it is stored the
   file that comes back ends with it, as it is now, and if it is compressed before it.
   */
  lemma {:induction false} DamagedFile(pol: LzSearch.Policy, compress: bool, name: Name, before: seq<byte>,
                                       block: seq<byte>, after: seq<byte>, j: nat, hash: nat -> nat -> nat,
                                       body: seq<byte>, disk: Disk, mem: Memory)
    requires FastLzCompress.IsFastLz(pol) && IsCString(name) && Opens(disk, name)
    requires |before| == j * 131072 && 0 < |block| <= 131072 && (|block| == 131072 || after == [])
    requires |before + block + after| % 0x1_0000_0000 != 0
    requires var c := BlockChunk(pol, compress, block, hash(j));
             |c| == 16 + |body| && Update(1, body) != Update(1, c[16..])
    ensures var head := Chunk(1, 0, EntryBody(name, |before + block + after|), 0);
            var first := Blocks(pol, compress, before, hash, 0);
            var last := Blocks(pol, compress, after, hash, j + 1);
            var c := BlockChunk(pol, compress, block, hash(j));
            && Archive(pol, compress, name, before + block + after, hash) == MAGIC + (head + (first + (c + last)))
            && SixUnpack.Unpack(disk, MAGIC + (head + (first + (c[..16] + body + last))), mem)
               == Unpacked([File(name, before + if compress && |block| >= 32 then [] else body)])
  {
    hide Chunk, Chunks, Update, EntryBody, Blocks, BlockChunk, Append;
    var data, size := before + block + after, |before + block + after| % 0x1_0000_0000;
    assert data == before + (block + after);
    BlocksConcat(pol, compress, before, block + after, hash, 0, j);
    BlocksFirst(pol, compress, block, after, hash, j);
    var first, last := Blocks(pol, compress, before, hash, 0), Blocks(pol, compress, after, hash, j + 1);
    var bad := Damaged(pol, compress, block, hash(j), body);
    EntryIsRead(disk, name, |data|, first + (bad + last), mem);
    var st := State([File(name, [])], true, size);
    BlocksExtracted(pol, compress, before, hash, 0, disk, bad + last, mem, st);
    var st' := State(Append(st.files, before), true, size);
    DamagedIsRead(pol, compress, block, hash(j), body, disk, last, mem, st');
    var out := if compress && |block| >= 32 then [] else body;
    var st'' := State(Append(st'.files, out), false, size);
    assert last + [] == last;
    BlocksSkipped(pol, compress, after, hash, j + 1, disk, [], mem, st'');
    ChunksEnd(disk, mem, st'');
    AppendTwice(st.files, before, out);
    AppendToNew([], name, before + out);
    assert [] + st.files == st.files;
  }

  lemma {:induction false} BlocksFirst(pol: LzSearch.Policy, compress: bool, block: seq<byte>, after: seq<byte>,
                                       hash: nat -> nat -> nat, k: nat)
    requires 0 < |block| <= 131072 && (|block| == 131072 || after == [])
    ensures Blocks(pol, compress, block + after, hash, k)
         == BlockChunk(pol, compress, block, hash(k)) + Blocks(pol, compress, after, hash, k + 1)
  {
    hide BlockChunk, Blocks;
    var all := block + after;
    BlocksStep(pol, compress, all, 0, |block|, hash, k);
    assert all[0..] == all && all[0..|block|] == block && all[|block|..] == after;
  }
}
