# Lossless codecs of Pression: model and proofs

Pression compresses buffers and images with a handful of small codecs. This project models
the codecs whose source is in the repository and proves that decompression undoes
compression, that every write stays inside its buffer, and what the sizes are.

- **FastLZ** at both levels and **LZF** in C and in C# are LZ77 codecs. `LzFormat` says what a
  stream in either wire format means, independently of any implementation; `LzSearch` is the
  greedy match search as a function. The encoders and decoders are methods over arrays that
  patch headers, follow matches with unrolled loops and copy bytes, words or blocks, as the
  source does. Each encoder is proved to leave in its buffer exactly the layout of the tokens
  found, each decoder to compute exactly the meaning of its stream, so that every encoder can
  be combined with every decoder of its format. Hash values only choose a table slot and are
  an arbitrary function of the position; LZF's table starts with arbitrary contents. Which matches
  are taken is proved in numbers (`LzSearch.SearchTakes`), and so is how far periodic input shrinks.
- **Marker run-length coding** works on tokens of 8 to 64 bits (`Rle`, `RleCodec`, `RleData`), and on
  the four component streams of an image whose pixels were split after permuting their bits, in
  chunk groups cut at multiples of a single precision width (`Float32`, `PlanarRle`,
  `PixelFormats`). The stream written is the only canonical one (`RleCanonical`).
- **Containers** sit on top: the `.lzf` block stream (`LzfStream`), the 6pack archive with its
  Adler-32 checksums (`Adler32`, `SixPack`, `SixUnpack`), and the chunking of whole buffers
  (`DataCompressor`), which lifts any chunk codec (`ChunkCodecs`); `Unrepeated` holds the inputs that
  show where those fail, and `Repeated` inputs that shrink. What checksums do for an archive is in
  `SixIntegrity`.

The main results come first in the table below.

Where the source checks nothing, a write behind a buffer or a read behind a stream is an outcome
of its own in the model (`None`, a method that is not `ok`), and it is proved exactly when it
occurs. What a run makes of it is nothing that can be known: where the model goes on (`SixUnpack`,
`ChunkCodecs`), what memory then holds is an arbitrary parameter.

Where a promise does not hold, an input is given and the exact condition is proved:

- Twice the input, the compress bound of the run-length codec, is missed by one token exactly
  for an odd number of tokens that alternate between the marker and other tokens, marker first
  (`RleData.BoundIsKept`, `Rle.TwiceIsExceeded`). The shortest case is one marker byte.
- The size reserved for the channels of an image suffices without OpenMP. With OpenMP a channel of a
  group exceeds it exactly when its runs of equal tokens cost more than it, however wide the group is
  (`PlanarRle.GroupExceedsReserve`, `Rle.CompressCost`). Groups not wider than the quotient of pixels
  and groups always fit; groups one pixel wider do not for components of one byte under the same
  condition as above, for components of two bytes, depending on the remainder, already when half of
  the tokens are markers and no two of them adjacent (`PlanarRle.ReserveExceeded`); and because the
  width is rounded there are groups two pixels wider, but none wider than that below 2^23 pixels
  (`Float32.GroupWidth`). `PixelFormats.StripesExceedReserve`, `WideStripesExceedReserve` and
  `HalfFloatStripesExceedReserve` are images.
- With OpenMP the last pixel of an image is lost when the product of the rounded width and the
  number of groups is rounded below the number of pixels (`PixelFormats.GroupsAreKept`); 7173 pixels
  on seven processors are a case (`PixelFormats.LastPixelIsLost`). Without OpenMP this does not
  happen up to 2^24 pixels, but the only group of 16777219 pixels ends behind the image
  (`PlanarRle.GroupBehindImage`). The groups stay inside exactly when the last product does
  (`PlanarRle.FloatCutsIff`).
- The LZF chunk codec passes its reserved size in 32 bits. A chunk is lost exactly when the encoder
  gives up with what arrives (`ChunkCodecs.LzfBuffers`), as with 4e9 bytes in which nothing repeats
  (`Unrepeated.LzfBufferIsLost`), but never up to 3.9e9 bytes.
- FastLZ returns the size of its stream as an `int`. A chunk is lost exactly when that is negative
  (`ChunkCodecs.FastLzBuffers`), as with 2^31 - 1 bytes in which nothing repeats
  (`Unrepeated.FastLzBufferIsLost`), but never up to 2082408384 bytes.
- Packing and unpacking with 6pack does not give back an input that is an archive already, which
  pack refuses after it has written the signature; a file whose size is a positive multiple of
  2^32 bytes, which is unpacked as an empty file because the entry holds 32 bits of the size; and
  one whose name cannot be opened (`SixUnpack.RoundTrip`, with `ArchiveIsRefused`, `SizeWraps` and
  `NameIsTaken`).
- 6unpack takes a file for absent when it cannot be opened for reading. So no archive makes it
  overwrite a file exactly on disks where every file that can be written can be read
  (`SixUnpack.NeverOverwritesIff`); a write-only file is emptied (`SixUnpack.WriteOnlyIsEmptied`).
- `fastlz_decompress` is documented to be memory safe, but it reads the operands of a back reference
  without a check: on three bytes it reads behind the stream (`FastLz.ReadsOutside`). It does not, for
  buffers of every size, exactly when a walk over the control bytes ends well (`FastLz.MemorySafeIff`).
- The chunk number test of pression/data/Compressor.cpp:93-94 accepts numbers that compressing cannot
  leave (`DataCompressor.ConsistentIff`); with one chunk too few the rest of the buffer is not
  restored, without an exception (`DataCompressor.RestIsNotRestored`).

Where the code and its own documentation disagree, the model follows the code:

- The comments on the LZF format (pression/data/liblzf/lzf_c.c:89-96) give literal runs of up
  to 33 octets and offsets up to 4096; the code uses 32 and 8192.
- pression/data/fastlz/fastlz.h:66-67 calls decompression memory safe, see above.
- pression/compressor/compressorRLE.ipp:306-307 takes twice the input as the worst case, see above.
- pression/data/fastlz/6pack.c:80 cites section 8.2 of RFC 1950 for Adler-32; the checksum is
  defined in section 2.2 of that document.

## Model

| member | source | states |
|---|---|---|
| FastLz.RoundTrip | pression/data/fastlz/fastlz.c:141-574 | at both levels, for every input of 1 to 2^31 - 1 bytes and all hash values, the first byte selects the decoder that inverts the encoder used and no operand read leaves the stream; with the sizes passed as int, decoding into a buffer of exactly the input size gives the input if and only if the stream is shorter than 2^31 bytes, as it is for inputs of up to 2082408384 bytes |
| FastLz.CompressedSize | pression/data/fastlz/fastlz.c:212-442 | the compressed form is at most one byte longer than the input for each started group of 32 input bytes |
| FastLzCompress.Compress | pression/data/fastlz/fastlz.c:178-443 | the encoder, with its header patching, run shortcut and hash table, writes exactly the stream of the greedy search and never leaves a buffer of n + n/32 + 1 bytes, although it is not told the size |
| FastLzDecompress.Decompress | pression/data/fastlz/fastlz.c:445-574 | on every stream, decoding in place gives what the format says the stream means, zero exactly when the format rejects it within the capacity, and a report exactly when an operand would be read from behind the stream |
| Lzf.RoundTrip | pression/data/liblzf/lzf_c.c:98-330 | for every initial content of the hash table, all hash values and every capacity, a nonzero result decodes to the input in a buffer of the input size |
| Lzf.Capacity | pression/data/liblzf/lzf_c.c:169-176 | a result is within the capacity and within n + ceil(n/32); the encoder does not give up when the capacity is four more than the output needs, nor for any input when it is n + n/32 + 4 |
| LzfCompress.Compress | pression/data/liblzf/lzf_c.c:98-330 | with any table, the in-place encoder leaves in the buffer the stream of the search, or returns 0 exactly when one of its capacity tests fails; no byte at or past the capacity is written |
| LzfDecompress.Decompress | pression/data/liblzf/lzf_d.c:55-248 | total on every stream: nonzero exactly when the stream is not empty and the format accepts it within the capacity, then with the bytes it stands for; errno tells a full buffer from a bad stream; on the empty stream zero, whatever byte lies there |
| LzSearch.SearchTakes | pression/data/liblzf/lzf_c.c:141-262 | for all four encoders: the position in the slot is taken whenever it lies in reach (8191, 73724 or 8192 bytes back, in LZF not the first) and three bytes agree, five from 8191 on; the match is then the longest allowed and its last two positions are entered; level 2 of FastLZ takes a run of one byte before that; anything else is a literal |
| Repeated.FastLzShrinks | pression/data/fastlz/fastlz.c:218-416 | periodic input of any length, with a free slot for its second period, becomes the first period and a single match at both levels: at most one byte per 255, or three per 262, of the rest |
| Repeated.LzfShrinks | pression/data/liblzf/lzf_c.c:137-308 | periodic input of up to 8192 bytes, with a slot for each place of the period, becomes its first period and matches of 264 bytes, three bytes each, whatever the table holds |
| Clzf.RoundTrip | pression/data/liblzf/cs/CLZF.cs:153-334 | what the C# encoder returns decodes to the input under the same format as the C codec |
| Clzf.Interoperable | pression/data/liblzf/cs/CLZF.cs:153-334 | with a capacity of n + n/32 + 4, both encoders succeed on every input of at least two bytes, and either stream means the input under the format that both decoders implement |
| LzfStream.RoundTrip | pression/data/liblzf/lzf.c:174-314 | for every byte sequence, every block size from 1 to 65535 and every table content per block, reading the written stream gives the data |
| LzfStream.UncompressFd | pression/data/liblzf/lzf.c:216-314 | on every byte sequence, the reader with its seven byte header reads and the carried surplus parses exactly the block stream, errors and empty compressed blocks included |
| LzfStream.BlockIs | pression/data/liblzf/lzf.c:184-211 | a block is type 1 with both sizes and the compressed bytes exactly if the encoder, allowed four bytes less than the data, has a result, and else type 0 with the size and the data, byte by byte |
| Rle.RoundTrip | pression/compressor/compressorRLE.ipp:68-117 | at every token width reading as many tokens as were compressed gives them back and stops exactly at the end of the stream, whatever follows it |
| RleCanonical.CanonicalIff | pression/compressor/compressorRLE.ipp:68-117 | a stream is what is written for given tokens if and only if it stands for them and is canonical: no marker and no three equal tokens stand plain, no triple counts fewer than three other tokens, and a run goes on only behind a full counter or as a second plain token |
| Rle.TwiceIsExceeded | pression/compressor/compressorRLE.ipp:306-308 | the output exceeds twice the input if and only if an odd number of tokens alternates between marker and other tokens, starting with the marker |
| PlanarRle.ImageRoundTrip | pression/compressor/compressorRLE.ipp:214-346 | for any pixel count, any number of chunk groups and any positions where the image is cut, the pixels up to the last cut come back as what their format keeps of them, and the whole image exactly if the last cut is its end |
| PixelFormats.Image32Kept | pression/compressor/compressorRLE4B.cpp:185-251 | an image of 32-bit pixels fits the reserved buffers exactly when no channel of a group costs more than its reserve; then it comes back up to the last cut, and as a whole exactly if that is its end: as it was, or masked to its colours without alpha, or in the 565 engine with its low bits replaced by constants |
| PixelFormats.Image64Kept | pression/compressor/compressorRLE4HF.cpp:145-207 | the same for half-float pixels: as they were, or masked to three colours without alpha |
| PixelFormats.SecondPass | pression/compressor/compressorRLE565.cpp:151-184 | in any groups, an image and what an engine keeps of it are compressed to the same streams, also in the lossy engine; so a second pass gives what the first one gave, and fits where that fits |
| DataCompressor.BufferRoundTrip | pression/data/Compressor.cpp:36-112 | for any chunk codec and any chunk size, with and without OpenMP, the whole buffer is restored if and only if the codec restores each of its chunks |
| ChunkCodecs.RleBuffers | pression/data/CompressorRLE.cpp:103-133 | whole buffers under run-length coding are never rejected by the chunk number test, and come back, whatever a write behind a reserved buffer does, if and only if every chunk stays within its reserved size |
| ChunkCodecs.FastLzBuffers | pression/data/CompressorFastLZ.cpp:34-51 | whole buffers under FastLZ are never rejected by that test, and come back, whatever the hash values of each chunk, if and only if chunks and their streams are shorter than 2^31 bytes; chunks of up to 2082408384 bytes always are |
| ChunkCodecs.LzfBuffers | pression/data/CompressorLZF.cpp:37-54 | whole buffers under LZF are never rejected by that test, and come back, whatever the tables of each chunk hold and however the bound is rounded, if and only if the encoder gives up on no chunk with the reserved bound cut to 32 bits; on chunks of up to 3.9e9 bytes it never does |
| Unrepeated.LzfBufferIsLost | pression/data/CompressorLZF.cpp:42-43 | without OpenMP a buffer of 4e9 bytes in which nothing repeats is lost: of the reserved bound 105032712 arrives at the encoder |
| Unrepeated.FastLzBufferIsLost | pression/data/CompressorFastLZ.cpp:34-41 | so is one of 2^31 - 1 bytes under FastLZ, whose stream has a size that is a negative int |
| Adler32.UpdateAdler32 | pression/data/fastlz/6pack.c:81-125 | the unrolled loop with one reduction per 5552 bytes computes the Adler-32 of section 2.2 of RFC 1950, one more than the sum of the bytes and the sum of these sums modulo 65521, without ever leaving 32 bits |
| SixUnpack.UnpackOfPack | pression/data/fastlz/6unpack.c:157-437 | what unpacking makes of whatever pack leaves in its output: one file with the name and the data, none if pack refused the input as an archive or the name cannot be opened, an empty one if the size is a multiple of 2^32 |
| SixUnpack.RoundTrip | pression/data/fastlz/6unpack.c:221-437 | packing and unpacking gives the file back if and only if its name can be opened, it is no archive itself and its size does not wrap to zero in 32 bits |
| SixUnpack.WritesAreProper | pression/data/fastlz/6unpack.c:266-292 | on every archive, complete or not, however the run ends and whatever the decompressor returns when it reads behind a block, each file written has a name that could be opened for writing and not for reading, and no file that was not there before is written twice, however its name is spelled |
| SixUnpack.NeverOverwritesIff | pression/data/fastlz/6unpack.c:266-279 | no archive at all makes a run overwrite a file, one that was there before or one of its own, if and only if every file that can be written can also be read |
| SixIntegrity.UnpacksByFiles | pression/data/fastlz/6unpack.c:211-437 | every archive is unpacked file by file: to each file that is opened its blocks are added up to and including the first one whose bytes do not have the Adler-32 its header names, which adds its bytes if it is stored and nothing if it is compressed; an entry with another checksum ends the run |
| SixIntegrity.DamagedFile | pression/data/fastlz/6unpack.c:312-402 | what pack wrote, with the body of one block replaced by bytes of another checksum, comes back up to and including that block if it is stored, and up to before it if it is compressed |
| FastLz.MemorySafeIff | pression/data/fastlz/fastlz.c:466-489 | decompression reads inside the stream for buffers of every size if and only if a walk over the control bytes that follows only the amount of output ends well |
| PixelFormats.SingleGroupIsKept | pression/compressor/compressorRLE.ipp:299-346 | without OpenMP, with the width rounded to single precision, every image of up to 2^24 pixels fits the reserved buffers and comes back as a whole |
| PixelFormats.GroupsAreKept | pression/compressor/compressorRLE.ipp:326-343 | with OpenMP, with width and products rounded to single precision, the groups lie inside the image if and only if the last product does; then the image comes back up to there exactly if every channel fits its reserved buffer; below 2^23 pixels they always lie inside and leave out the last pixel at most |
| PlanarRle.GroupExceedsReserve | pression/compressor/compressorRLE.ipp:303-310 | for a group of any width, and components of one or two bytes, a channel does not fit the size reserved for it if and only if its maximal runs, at three tokens per full counter and marker run and one to three for any other rest, cost more than that |
| LzFormat.CopyBackUnique | pression/data/liblzf/lzf_d.c:212-217 | the byte-by-byte overlapping copy is the only way to extend the output periodically |
| LzFormat.ChainReadsBack | pression/data/fastlz/fastlz.c:473-477 | a chain of length bytes reads back as the number it was written for, for every number and whatever follows |
| LzFormat.LengthReadsBack | pression/data/fastlz/fastlz.c:456-477 | control byte and length bytes read back as the length and the upper distance bits, in both encodings |
| LzFormat.CopyReadsBack | pression/data/fastlz/fastlz.c:331-371 | a serialised match, near or far, reads back as its length, distance and size; no near match looks like the far escape |
| LzFormat.CopyDecodes | pression/data/fastlz/fastlz.c:372-394 | decoding a serialised match, also one split into several of 262 bytes, extends the output by the bytes the match repeats |
| LzFormat.RunDecodes | pression/data/fastlz/fastlz.c:553-570 | decoding a literal run extends the output by its bytes |
| LzFormat.EmitDecodes | pression/data/fastlz/fastlz.c:455-573 | the stream laid out for any tokens that spell out the input decodes to the input, from any open run on |
| LzFormat.CopySaves | pression/data/fastlz/fastlz.c:331-394 | a match always takes fewer bytes than it stands for |
| LzFormat.EmitSize | pression/data/fastlz/fastlz.c:316-435 | the layout of any tokens spends at most one header byte per started group of 32 bytes |
| LzBuffer.CopyOctets | pression/data/fastlz/fastlz.c:548-549 | copying with two moving pointers is the overlapping copy |
| LzBuffer.FillRun | pression/data/fastlz/fastlz.c:504-513 | storing one loaded byte repeatedly is the overlapping copy at distance one |
| LzBuffer.CopyWord | pression/data/fastlz/fastlz.c:540 | a 16-bit copy is the overlapping copy of two bytes as long as the distance is at least two |
| LzBuffer.CopyWords | pression/data/fastlz/fastlz.c:526-546 | the odd byte, the groups of four words and the remaining words are together the overlapping copy |
| LzBuffer.CopyBlock | pression/data/liblzf/lzf_d.c:205-210 | a block copy is the overlapping copy when the areas are disjoint |
| LzBuffer.CopyBackTwice | pression/data/fastlz/fastlz.c:520-524 | an overlapping copy can be split at any length |
| LzBuffer.PatchHeader | pression/data/fastlz/fastlz.c:316-319 | storing the header in front of bytes already written completes a literal run |
| LzSearch.StretchUnique | pression/data/fastlz/fastlz.c:280-314 | a match ends at the one place where the repetition stops or its reach does |
| LzSearch.MatchEnd | pression/data/liblzf/lzf_c.c:165-240 | a match repeats the earlier bytes over its whole length and is as long as its reach allows |
| LzSearch.SearchDescribes | pression/data/liblzf/lzf_c.c:137-308 | whatever the hash values and the table contents, the tokens found from any position spell out the rest of the input and are legal in the format |
| LzSearch.TokensDescribe | pression/data/fastlz/fastlz.c:208-429 | the same for the whole input, with the first two bytes taken as literals by FastLZ |
| LzSearch.SearchEnds | pression/data/fastlz/fastlz.c:208-429 | the last twelve bytes, or two in LZF, are literals, and so are the first two in FastLZ |
| LzSearch.AcceptableIff | pression/data/liblzf/lzf_c.c:146-162 | a candidate is accepted exactly if it lies in reach and its first bytes agree, in numbers |
| LzSearch.MatchIsLongest | pression/data/liblzf/lzf_c.c:165-240 | an accepted match ends at the first difference or at the largest length that the encoder allows |
| LzFormat.ShortMatch | pression/data/liblzf/lzf_c.c:243-252 | the bytes of a match of up to 264 bytes in the short format |
| LzFormat.ExtendedMatch | pression/data/fastlz/fastlz.c:331-371 | the bytes of a match in the extended format, near and far |
| Repeated.MatchesFollow | pression/data/liblzf/lzf_c.c:141-262 | once every place of the period has an entry everything is matches up to the last two bytes |
| Repeated.FirstPeriod | pression/data/fastlz/fastlz.c:218-416 | the first period is literals, and the first position of the second one starts a match up to the last three bytes |
| FastLzCompress.FollowRun | pression/data/fastlz/fastlz.c:280-289 | following a run by comparing with one byte ends where the repetition at distance one ends |
| FastLzCompress.CompareEight | pression/data/fastlz/fastlz.c:291-309 | the eight comparisons without a bound check stop one past the first difference |
| FastLzCompress.FollowMatch | pression/data/fastlz/fastlz.c:290-314 | eight unchecked comparisons and then checked ones end where the repetition ends, but not past the bound or the eight |
| FastLzCompress.ExtendMatch | pression/data/fastlz/fastlz.c:274-314 | either way of following a match stops one past the end of the match |
| FastLzCompress.FindMatch | pression/data/fastlz/fastlz.c:228-269 | the run shortcut, the table lookup and its update, and the comparisons choose the token of the search step |
| FastLzCompress.VerifiedIsAcceptable | pression/data/fastlz/fastlz.c:247-271 | the comparisons of the first three bytes, or of five for a far match, accept exactly the candidates of the search |
| FastLzCompress.WriteChain | pression/data/fastlz/fastlz.c:343-345 | the loop writes the chain of length bytes |
| FastLzCompress.WriteLength | pression/data/fastlz/fastlz.c:333-368 | control byte and length bytes of a level 2 match |
| FastLzCompress.WriteDistance | pression/data/fastlz/fastlz.c:333-371 | near distances in one byte, far ones behind the escape and biased by 8191 |
| FastLzCompress.WriteShort | pression/data/fastlz/fastlz.c:374-393 | a level 1 match, split while it is longer than 262 |
| FastLzCompress.WriteMatch | pression/data/fastlz/fastlz.c:331-394 | the match as the format lays it out, within the space it needs |
| FastLzCompress.CloseRun | pression/data/fastlz/fastlz.c:316-322 | patches the header of the open run, or steps back over it when the run is empty |
| FastLzCompress.PutLiteral | pression/data/fastlz/fastlz.c:407-415 | appends to the open run and opens a new one after 32 literals |
| FastLzCompress.MatchIsLegal | pression/data/fastlz/fastlz.c:252-271 | every match the encoder takes is expressible in the wire format and saves at least a byte; far ones have five bytes |
| FastLzCompress.UpdateHash | pression/data/fastlz/fastlz.c:396-400 | enters the last two positions of a match, which stay below the current position |
| FastLzCompress.StartEmits | pression/data/fastlz/fastlz.c:212-216 | the stream starts with the header of a run, so bit 5 of its first byte is free for the level mark |
| FastLzCompress.ShortEmits | pression/data/fastlz/fastlz.c:192-203 | inputs of less than four bytes become one unmarked literal run |
| FastLzCompress.PutRest | pression/data/fastlz/fastlz.c:418-429 | the bytes after the search are laid out as literals in runs |
| FastLzCompress.LiteralStep | pression/data/fastlz/fastlz.c:407-416 | a literal keeps the invariant that buffer and remaining work make up the whole stream, and the space bound |
| FastLzCompress.MatchStep | pression/data/fastlz/fastlz.c:316-405 | a match keeps the same invariant: it frees the byte that its next run header costs |
| FastLzCompress.MainLoop | pression/data/fastlz/fastlz.c:218-416 | the invariant holds from the first step to the last |
| FastLzCompress.CompressShort | pression/data/fastlz/fastlz.c:192-203 | the literal copy of inputs below four bytes |
| FastLzCompress.CompressLong | pression/data/fastlz/fastlz.c:208-435 | everything up to the level mark |
| FastLzDecompress.ReadLengths | pression/data/fastlz/fastlz.c:473-477 | the loop sums the chain in 32 bits and ends behind it, or finds that the stream ends inside it |
| FastLzDecompress.ReadOperands | pression/data/fastlz/fastlz.c:458-489 | length, distance and new position of a back reference as the format reads them, or that an operand lies behind the stream |
| FastLzDecompress.CopyReference | pression/data/fastlz/fastlz.c:504-551 | the run path, the byte path and the word path all give the overlapping copy, on strict and lax alignment |
| FastLz.CompressLevel | pression/data/fastlz/fastlz.c:165-174 | each level produces its own stream and returns its size as an int, any other level number gives zero |
| FastLz.Compress | pression/data/fastlz/fastlz.c:141-149 | inputs below 65536 bytes use level 1, all others level 2; the size is returned as an int |
| FastLz.LevelShows | pression/data/fastlz/fastlz.c:141-149 | below 65536 bytes the first byte shows level 1, from there on level 2 |
| FastLz.Decompress | pression/data/fastlz/fastlz.c:151-163 | decodes by the level in the first byte; an unknown level is rejected; a read behind the stream is reported exactly when there is one |
| FastLz.LevelIsKept | pression/data/fastlz/fastlz.c:437-440 | the top three bits of the first byte name the level used, and clearing them gives the unmarked stream back |
| FastLz.LiteralsSize | pression/data/fastlz/fastlz.c:407-435 | input without matches reaches the size bound exactly |
| FastLz.BoundSuffices | pression/data/CompressorFastLZ.h:35-38 | 66 more than the product with 1.1f, however that is rounded, and any buffer 5% larger with at least 66 bytes, is as much as the encoder needs |
| FastLz.WalkDecides | pression/data/fastlz/fastlz.c:466-489 | a walk that follows only the amount of output and the room for it decides whether the decoder reads an operand from behind the stream |
| FastLz.ReadsInsideIff | pression/data/fastlz/fastlz.c:466-489 | the same for the entry point: the check a caller could make before decompressing into a buffer of a given size |
| FastLz.ReadsOutside | pression/data/fastlz/fastlz.c:466-471 | three bytes on which the decoder reads behind the stream, in every buffer of at least one byte |
| FastLz.StreamRoundTrip | pression/data/fastlz/fastlz.c:141-574 | the round trip on the streams themselves, before their sizes are converted |
| FastLz.SizeFitsInt | pression/data/fastlz/fastlz.c:141 | the size of a stream survives the conversion to int if and only if it is below 2^31, as it is for inputs of up to 2082408384 bytes |
| FastLz.CompressChunk | pression/data/CompressorFastLZ.cpp:34-41 | the reserved buffer is always enough, however its size is rounded; a negative size, which would be taken for an enormous one, is reported exactly when the stream has 2^31 bytes or more |
| FastLz.DecompressSized | pression/data/fastlz/fastlz.c:151-163 | decompression with both sizes converted to int: zero when one of them becomes negative, else as for the sizes themselves |
| FastLz.DecompressChunk | pression/data/CompressorFastLZ.cpp:43-51 | the chunk is filled with the decoded bytes; a read behind the input is reported exactly when there is one |
| LzfCompress.FindMatch | pression/data/liblzf/lzf_c.c:145-162 | for any table entry, the wrapped offset test and the comparisons choose the token of the search step; a candidate is always inside the input and before the position |
| LzfCompress.CompareSixteen | pression/data/liblzf/lzf_c.c:180-233 | the sixteen comparisons without a bound check stop at the first difference and stay inside the input |
| LzfCompress.CompareChecked | pression/data/liblzf/lzf_c.c:235-237 | the checked loop stops at the first difference or at the maximum, but not before one more byte |
| LzfCompress.MatchLength | pression/data/liblzf/lzf_c.c:165-240 | the match ends where the search says: never past the input, never above 264 octets |
| LzfCompress.StopRun | pression/data/liblzf/lzf_c.c:175-176 | patches the header of the open run or steps back over it |
| LzfCompress.PutLiteral | pression/data/liblzf/lzf_c.c:298-306 | appends to the open run, whose header may not exist yet |
| LzfCompress.EncodeMatch | pression/data/liblzf/lzf_c.c:164-258 | the run is closed and the match written inside the buffer |
| LzfCompress.UpdateHash | pression/data/liblzf/lzf_c.c:265-280 | enters the two positions before the end of the match |
| LzfCompress.LiteralStep | pression/data/liblzf/lzf_c.c:292-307 | a literal keeps the invariant on the stream and on the capacity verdict; giving up means that the verdict was negative |
| LzfCompress.MatchStep | pression/data/liblzf/lzf_c.c:163-291 | the same for a match |
| LzfCompress.MainLoop | pression/data/liblzf/lzf_c.c:137-308 | the invariant holds up to the last two bytes, or a capacity test failed and the verdict was negative |
| LzfCompress.WriteRest | pression/data/liblzf/lzf_c.c:310-330 | behind the search, the rest completes the stream, or there is no room for it and the capacity verdict was negative |
| LzfCompress.PutRest | pression/data/liblzf/lzf_c.c:310-327 | the last bytes fit once the check for three bytes of room has passed |
| LzfDecompress.ReadOperands | pression/data/liblzf/lzf_d.c:159-182 | reads a back reference, or fails exactly when its operands are missing |
| LzfDecompress.CopyReference | pression/data/liblzf/lzf_d.c:200-242 | the block copy, the octet loop and the falling-through switch all give the overlapping copy |
| LzfDecompress.CopyRun | pression/data/liblzf/lzf_d.c:66-158 | one literal run: copied, or the error the format gives, also behind the end of an empty stream |
| LzfDecompress.CopyBehind | pression/data/liblzf/lzf_d.c:159-242 | one back reference: copied, or the error the format gives |
| LzfDecompress.ErrnoIs | pression/data/liblzf/lzf_d.c:62-110 | a run or a reference without room gives E2BIG, a missing byte or operand and a reference before the start EINVAL |
| Lzf.FitsIsSound | pression/data/liblzf/lzf_c.c:169-173 | when all capacity tests pass, the output fits |
| Lzf.FitsWithSlack | pression/data/liblzf/lzf_c.c:169-173 | four bytes more than the output pass every capacity test |
| Lzf.FitsAlways | pression/data/liblzf/lzf_c.c:310-311 | a capacity of n + n/32 + 4 passes every test for every input |
| Lzf.FitsIff | pression/data/liblzf/lzf_c.c:169-173 | only the last capacity test counts: all pass if and only if four bytes are left behind the output for what begins before the last two bytes |
| Lzf.GivesUpIff | pression/data/liblzf/lzf_c.c:169-176 | so the encoder gives up exactly below that capacity |
| Lzf.LiteralsSearched | pression/data/liblzf/lzf_c.c:264-280 | for literals alone that is one byte each and one for each full run of 32 |
| Lzf.FirstIsLiteral | pression/data/liblzf/lzf_c.c:155 | no candidate is accepted at the first position, so every stream starts with a run |
| Lzf.ChunkRoundTrip | pression/data/CompressorLZF.cpp:37-54 | for every capacity, a chunk comes back if and only if the capacity is not zero and every capacity test of the encoder passes |
| Lzf.ReserveSuffices | pression/data/CompressorLZF.h:36-39 | they do whenever the reserved bound, however it is rounded, is below 2^32, as it is for chunks of up to 3.9e9 bytes |
| Clzf.FindMatch | pression/data/liblzf/cs/CLZF.cs:177-189 | lookup, update and comparisons choose the token of the search step |
| Clzf.MatchLength | pression/data/liblzf/cs/CLZF.cs:190-200 | the match ends where the search says |
| Clzf.FlushRun | pression/data/liblzf/cs/CLZF.cs:202-209 | the counted literals are written behind their header |
| Clzf.WriteMatch | pression/data/liblzf/cs/CLZF.cs:211-224 | the match as the format lays it out |
| Clzf.UpdateHash | pression/data/liblzf/cs/CLZF.cs:226-235 | enters the two positions before the end of the match, reading inside the input |
| Clzf.LiteralStep | pression/data/liblzf/cs/CLZF.cs:242-256 | lazy literals keep the invariant on stream and capacity verdict |
| Clzf.MatchStep | pression/data/liblzf/cs/CLZF.cs:182-237 | a match keeps the same invariant |
| Clzf.MainLoop | pression/data/liblzf/cs/CLZF.cs:173-257 | the invariant holds up to the end of the input |
| Clzf.WriteRest | pression/data/liblzf/cs/CLZF.cs:259-271 | the last run completes the stream, or there is no room for it and the capacity verdict was negative |
| Clzf.Compress | pression/data/liblzf/cs/CLZF.cs:153-272 | throws exactly on inputs below two bytes; otherwise returns the stream, or zero when a capacity test fails |
| Clzf.ReadOperands | pression/data/liblzf/cs/CLZF.cs:302-309 | reads a back reference, or throws exactly when the array ends inside it |
| Clzf.CopyRun | pression/data/liblzf/cs/CLZF.cs:281-296 | one literal run: copied, zero for a full buffer, or the exception where the stream ends inside it |
| Clzf.CopyBehind | pression/data/liblzf/cs/CLZF.cs:297-330 | one back reference: copied, zero for a full buffer or a bad reference, or the exception where an operand is missing |
| Clzf.Decompress | pression/data/liblzf/cs/CLZF.cs:277-334 | the bytes the stream stands for; zero for a full buffer or a bad reference; the exception when the stream ends early |
| Clzf.FitsAlways | pression/data/liblzf/cs/CLZF.cs:195-196 | a capacity of n + n/32 + 2 passes every test |
| Clzf.LiteralsFitIff | pression/data/liblzf/cs/CLZF.cs:248-262 | literals alone fit exactly into an array with one byte more than they take |
| Clzf.MatchFitsIff | pression/data/liblzf/cs/CLZF.cs:195-196 | before a match four bytes more than what precedes it and the pending literals have to be less than the array |
| Clzf.GivesUp | pression/data/liblzf/cs/CLZF.cs:195-262 | it gives up only on arrays at most two bytes larger than what it would write |
| Clzf.Capacity | pression/data/liblzf/cs/CLZF.cs:248-262 | with that capacity compression succeeds and is inverted |
| LzfStream.StoredReadsBack | pression/data/liblzf/lzf.c:199-207 | a stored block in front of any stream reads back |
| LzfStream.PackedReadsBack | pression/data/liblzf/lzf.c:186-197 | a compressed block in front of any stream reads back |
| LzfStream.BlockReadsBack | pression/data/liblzf/lzf.c:184-211 | whichever of the two the writer chose |
| LzfStream.BlockSaves | pression/data/liblzf/lzf.c:184-197 | data whose compressed form is at least eight bytes shorter is compressed and takes seven bytes more than that form |
| LzfStream.PeriodicBlock | pression/data/liblzf/lzf.c:184-197 | so a block of periodic data is compressed, whatever the table holds |
| LzfStream.ZerosArePacked | pression/data/liblzf/lzf.c:184-197 | a thousand zeros make a block of at most 25 bytes |
| LzfStream.Refused | pression/data/liblzf/lzf.c:234-287 | the end mark ends the stream; a short header, another magic, another type and a missing payload are errors |
| LzfStream.CompressFd | pression/data/liblzf/lzf.c:174-214 | the writer produces the stream of its blocks, with whatever each block's table held; reading it gives the file, and it is at most five bytes per started block longer |
| LzfStream.SmallBlocksAreStored | pression/data/liblzf/lzf.c:184-185 | a block of up to four bytes never compresses into its own size |
| LzfStream.BlockSize | pression/data/liblzf/lzf.c:184-207 | a block takes at most five bytes more than its data |
| LzfStream.StreamSize | pression/data/liblzf/lzf.c:182-211 | the stream takes at most five bytes per started block more than the data |
| LzfStream.CompressBlock | pression/data/liblzf/lzf.c:184-207 | the block byte by byte: type 1 with both sizes when the encoder saves four bytes, else type 0 with the data |
| LzfStream.ReadHeader | pression/data/liblzf/lzf.c:228-237 | the header takes up to seven bytes; header and rest of the file remain the same stream |
| LzfStream.ReadPayload | pression/data/liblzf/lzf.c:271-287 | the payload is collected from the surplus and the file, what is too much returns to the header, and no byte is lost or repeated |
| LzfStream.ParseHeader | pression/data/liblzf/lzf.c:238-269 | the end mark, the magic, the types and the short header, as the stream format says |
| LzfStream.Deliver | pression/data/liblzf/lzf.c:289-306 | stored bytes as they are, compressed ones decompressed |
| LzfStream.Unpack | pression/data/liblzf/lzf.c:296-302 | a block is accepted exactly when it decompresses to its recorded size; one of no bytes when that size is zero, whatever byte follows it |
| Rle.EscapedReadsBack | pression/compressor/compressorRLE.ipp:196-212 | an escaped triple reads back as its count of tokens |
| Rle.RunReadsBack | pression/compressor/compressorRLE.ipp:68-103 | a written run of any length reads back and leaves the reader behind it |
| Rle.EncodeDecodes | pression/compressor/compressorRLE.ipp:106-117 | the same for everything written from any open run on, counters saturating at the largest token |
| Rle.EncodeEscapes | pression/compressor/compressorRLE.ipp:68-117 | every marker written starts a triple with a nonzero count, and no token exceeds its width |
| Rle.EncodeSize | pression/compressor/compressorRLE.ipp:68-117 | from any open run, at most two tokens each, one more or less at odd counts |
| Rle.EncodeWorst | pression/compressor/compressorRLE.ipp:306-308 | the bound is met exactly by tokens that alternate between marker and non-marker |
| Rle.CompressSize | pression/compressor/compressorRLE.ipp:306-308 | n tokens never become more than 2n + (n mod 2) |
| Rle.BoundIsReached | pression/compressor/compressorRLE.ipp:306-308 | that bound is reached for every odd n |
| Rle.EncodeSurplus | pression/compressor/compressorRLE.ipp:68-117 | twice the input is reached only by single markers that are at least as many as the other tokens, and then the size is exact |
| Rle.TwiceIsReached | pression/compressor/compressorRLE.ipp:306-308 | the output is at least twice the input if and only if no two markers are adjacent and at least half of the tokens are markers |
| Rle.CompressCost | pression/compressor/compressorRLE.ipp:68-117 | the size is exactly what the maximal runs of equal tokens cost, each split at the largest count |
| Rle.EncodeCost | pression/compressor/compressorRLE.ipp:68-117 | the same from any open run on, which the tokens behind it may continue |
| Rle.EncodeWithoutMarkers | pression/compressor/compressorRLE.ipp:68-117 | tokens among which there is no marker never grow |
| Rle.AlternatesSize | pression/compressor/compressorRLE.ipp:68-117 | alternating tokens double, with one token more or less when there is an odd number of them |
| Rle.OneMarker | pression/data/CompressorRLE.h:36-39 | one marker byte becomes three bytes, more than twice its size |
| Rle.ZeroCount | pression/compressor/compressorRLE.ipp:196-212 | a count of zero reads as one token more than the largest count |
| RleCanonical.CompressIsCanonical | pression/compressor/compressorRLE.ipp:68-117 | whatever the tokens, their stream is canonical |
| RleCanonical.CanonicalIsWritten | pression/compressor/compressorRLE.ipp:68-117 | canonical pieces are what their tokens are compressed to |
| RleCanonical.PiecesReadBack | pression/compressor/compressorRLE.ipp:196-212 | any pieces read back as their tokens and end there |
| RleCanonical.SingleRun | pression/compressor/compressorRLE.ipp:68-103 | three to a full counter of equal tokens are a triple, one or two are not, and markers always are |
| RleCodec.WriteRun | pression/compressor/compressorRLE.ipp:68-103 | stores the run, from three tokens on and for every marker as a triple and else plain, or finds that it does not fit |
| RleCodec.CompressToken | pression/compressor/compressorRLE.ipp:106-117 | keeps output, open run and remaining tokens together the whole encoding; it fails only if that is larger than the buffer |
| RleCodec.Compress | pression/data/CompressorRLE.cpp:41-69 | leaves the encoding of all tokens in the buffer, which is the canonical one, or reports a write behind it exactly when it is larger |
| RleCodec.ReadToken | pression/data/CompressorRLE.cpp:80-98 | one token as the reader of the format reads it, or that the stream does not hold it |
| RleCodec.Decompress | pression/data/CompressorRLE.cpp:71-100 | stores the tokens that the stream stands for and stops where the reader of the format stops; a read behind the stream is reported exactly when there is one |
| RleData.BytesOfTokens | pression/data/CompressorRLE.cpp:51 | memory read as tokens and stored again is the same memory |
| RleData.TokensOfBytes | pression/data/CompressorRLE.cpp:64-65 | tokens stored and read again are the same tokens |
| RleData.ChunkRoundTrip | pression/data/CompressorRLE.cpp:103-133 | both sides derive the same token width from the size, and every chunk is restored |
| RleData.ChunkOfRun | pression/data/CompressorRLE.cpp:41-117 | a chunk of equal integers, at each of the four widths, becomes the marker 0x42, the integer and their number |
| RleData.ChunkOfLongRun | pression/data/CompressorRLE.cpp:41-69 | 257 equal bytes become a full counter of 255 and two more bytes |
| RleData.BoundIsKept | pression/data/CompressorRLE.h:36-39 | the compress bound is kept if and only if the chunk is not an odd, marker-first alternation of tokens; it is never missed by more than one token |
| RleData.CompressChunkTo | pression/data/CompressorRLE.cpp:103-117 | the chunk compressed at its width into a buffer of the reserved size, or a report exactly when the result is larger than that |
| RleData.DecompressChunkTo | pression/data/CompressorRLE.cpp:119-133 | the chunk decompressed at its width, or a report exactly when it does not hold the tokens |
| PlanarRle.ChunkRoundTrip | pression/compressor/compressorRLE.ipp:120-194 | four channels coded side by side give the kept pixels back |
| Float32.FlError | pression/compressor/compressorRLE.ipp:227-228 | rounding to 24 bits moves a number by at most one part in 2^24 |
| Float32.FlNear | pression/compressor/compressorRLE.ipp:227-228 | rounding moves a number below 2^24 by at most one half and one below 2^23 by at most a quarter |
| Float32.NearestTies | pression/compressor/compressorRLE.ipp:227-228 | of two equally near numbers the even one |
| Float32.FlMonotone | pression/compressor/compressorRLE.ipp:236-238 | rounding keeps the order, across exponents and ties |
| Float32.CutsRise | pression/compressor/compressorRLE.ipp:336-339 | the cuts computed from the rounded width begin at 0 and never go back |
| Float32.CutsEnd | pression/compressor/compressorRLE.ipp:336-339 | below 2^23 pixels the last cut is the number of pixels or one less, whatever the number of groups |
| Float32.SingleCut | pression/compressor/compressorRLE.ipp:299-339 | with one group the cut is the number of pixels, up to 2^24 |
| Float32.LastPixelIsCut | pression/compressor/compressorRLE.ipp:336-339 | with 7173 pixels in seven groups the last cut is 7172 |
| Float32.GroupWidth | pression/compressor/compressorRLE.ipp:336-339 | below 2^23 pixels a group is at most two pixels wider than the quotient of pixels and groups, and at most one if the remainder is at most a quarter of the groups |
| Float32.WideCuts | pression/compressor/compressorRLE.ipp:336-339 | with 6588238 pixels in thirty groups one group is two pixels wider |
| Float32.CutIsBehind | pression/compressor/compressorRLE.ipp:336-339 | with 16777219 pixels in one group it ends at 16777220 |
| PlanarRle.FloatCutsIff | pression/compressor/compressorRLE.ipp:326-339 | the positions that the source computes cut the image, for any number of pixels and groups, if and only if the last one is not behind its end |
| PlanarRle.FloatCutsTile | pression/compressor/compressorRLE.ipp:326-339 | so they tile the image below 2^23 pixels, up to its last pixel at least |
| PlanarRle.GroupBehindImage | pression/compressor/compressorRLE.ipp:299-339 | the only group of 16777219 pixels reaches one pixel behind the image |
| PlanarRle.ImageRoundTripFrom | pression/compressor/compressorRLE.ipp:233-286 | the same as for the whole image from any group on |
| PlanarRle.ChannelIsConsumed | pression/compressor/compressorRLE.ipp:279-284 | the reader of every coded channel ends exactly at the end of its stream |
| PlanarRle.ChannelsEscape | pression/compressor/compressorRLE.ipp:68-117 | channels hold tokens of their width only, every marker escaped |
| PlanarRle.ChunksComeInFours | pression/compressor/compressorRLE.ipp:292-301 | the number of chunks is a positive multiple of four; with OpenMP as many groups as processors, or fewer so that each of several has 4096 bytes, but no fewer than that |
| PlanarRle.ReserveSuffices | pression/compressor/compressorRLE.ipp:303-310 | a group not wider than the quotient fits the reserved size in every channel, for components of one or two bytes |
| PlanarRle.SingleGroupFits | pression/compressor/compressorRLE.ipp:299-310 | so without OpenMP every image fits |
| PlanarRle.AllFitIff | pression/compressor/compressorRLE.ipp:303-346 | an image fits its reserved buffers if and only if no channel of any group costs more than the reserve |
| PlanarRle.ReserveExceeded | pression/compressor/compressorRLE.ipp:303-310 | in groups at most one pixel wider than the quotient, tokens exceed the reserved size if and only if they are that many and, for one byte or a remainder of at least half the groups, an odd marker-first alternation, else at least half markers with no two adjacent |
| PlanarRle.UnmarkedFits | pression/compressor/compressorRLE.ipp:303-346 | below 2^23 pixels, with at least one pixel per group, an image without markers always fits |
| PlanarRle.ChannelWriter.Push | pression/compressor/compressorRLE.ipp:116-118 | one token more: output, open run and remaining tokens stay the whole channel; it fails only if that is larger than the buffer |
| PlanarRle.ChannelWriter.Finish | pression/compressor/compressorRLE.ipp:104 | the last run completes the channel |
| PlanarRle.PushPixel | pression/compressor/compressorRLE.ipp:154-173 | a pixel advances all coded channels by one token; it fails only if one of them does not fit |
| PlanarRle.CompressChunkTo | pression/compressor/compressorRLE.ipp:120-194 | the four results are the encodings of the four channels, also for a chunk without pixels, or a report exactly when one of them does not fit |
| PlanarRle.CompressImage | pression/compressor/compressorRLE.ipp:317-346 | all groups, in the order of the results, in buffers of the reserved size, or a report exactly when a channel of a group does not fit its buffer |
| PlanarRle.NextToken | pression/compressor/compressorRLE.ipp:196-212 | the next token of a channel, or that the channel does not hold all its tokens |
| PlanarRle.DecompressChunkTo | pression/compressor/compressorRLE.ipp:242-285 | the group is stored at its place and the rest of the image is untouched, or a report exactly when a coded channel ends early |
| PlanarRle.DecompressImage | pression/compressor/compressorRLE.ipp:214-286 | every pixel up to the last cut is written once, with what the streams stand for, and no other one; a report exactly when a coded channel ends early |
| PixelFormats.HalfFloatGroupsAreKept | pression/compressor/compressorRLE.ipp:326-343 | the same as for 32-bit pixels on half-float images |
| PixelFormats.LastPixelIsLost | pression/compressor/compressorRLE.ipp:326-343 | on seven processors no image of 7173 pixels comes back with its last one, and every one without markers comes back up to there |
| PixelFormats.StripesExceedReserve | pression/compressor/compressorRLE.ipp:292-310 | an image of 2049 pixels, two processors: a channel exceeds the size reserved for it |
| PixelFormats.WideStripesExceedReserve | pression/compressor/compressorRLE.ipp:303-343 | an image of 6588238 pixels, thirty processors: a group two pixels wider than the quotient exceeds the size reserved for it with less than twice its tokens |
| PixelFormats.HalfFloatStripesExceedReserve | pression/compressor/compressorRLE.ipp:292-310 | a half-float image of 1540 pixels, three processors: a channel of a group of even width exceeds the size reserved for it |
| PixelFormats.SplitKept | pression/compressor/compressorRLE565.cpp:62-148 | what an engine keeps of a pixel is split into the same coded components as the pixel |
| PixelFormats.Join32Inverts | pression/compressor/compressorRLE4B.cpp:52-83 | joining inverts splitting, with four components and with three |
| PixelFormats.Unmix32Inverts | pression/compressor/compressorRLE4B.cpp:85-135 | deswizzle inverts swizzle on 32 bits |
| PixelFormats.Unmix24Inverts | pression/compressor/compressorRLE4B.cpp:137-182 | deswizzle inverts swizzle on the 24 colour bits |
| PixelFormats.Join10A2Inverts | pression/compressor/compressorRLE10A2.cpp:36-86 | deswizzle inverts swizzle of 10-bit colours and 2-bit alpha |
| PixelFormats.Join64Inverts | pression/compressor/compressorRLE4HF.cpp:40-74 | joining inverts splitting of half-float pixels, with four components and with three |
| PixelFormats.Unmix64Inverts | pression/compressor/compressorRLE4HF.cpp:79-124 | deswizzle inverts swizzle on 64 bits |
| PixelFormats.Unmix48Inverts | pression/compressor/compressorRLE4HF.cpp:93-141 | deswizzle inverts swizzle on the 48 colour bits |
| PixelFormats.Unpack565AKeeps | pression/compressor/compressorRLE565.cpp:62-104 | deswizzle after swizzle keeps five bits of each colour and one of alpha, and sets the others halfway |
| PixelFormats.Unpack565Keeps | pression/compressor/compressorRLE565.cpp:106-148 | without alpha it keeps five, six and five bits of the colours |
| PixelFormats.LossIsSmall | pression/compressor/compressorRLE565.cpp:62-148 | colours move by at most 4 and alpha by at most 64, or without alpha colours by at most 5, 2 and 5 |
| PixelFormats.EqualPixels32 | pression/compressor/compressorRLE565.cpp:23-30 | equal pixels in every engine: each coded component is the engine's marker, 0x17 or 0x42, the component and their number, which ends at 255 |
| PixelFormats.EqualPixels64 | pression/compressor/compressorRLE4HF.cpp:24-30 | half-float components with the marker 0xffff and numbers up to 65535 |
| PixelFormats.UncodedChannel | pression/compressor/compressorRLE.ipp:120-152 | without alpha the last channel is a single zero; a group without pixels has no tokens |
| PixelFormats.Mix32Fields | pression/compressor/compressorRLE4B.cpp:85-107 | which bits of the four components each component of a mixed pixel holds |
| PixelFormats.Mix24Fields | pression/compressor/compressorRLE4B.cpp:145-160 | the same for the three colours |
| PixelFormats.Mix64Fields | pression/compressor/compressorRLE4HF.cpp:79-92 | the same for half-float pixels |
| PixelFormats.Mix48Fields | pression/compressor/compressorRLE4HF.cpp:93-111 | the same for half-float colours |
| PixelFormats.Pack565AFields | pression/compressor/compressorRLE565.cpp:65-80 | which five bits of each colour and which one of alpha the 565 engine keeps, and where |
| PixelFormats.Pack565Fields | pression/compressor/compressorRLE565.cpp:113-127 | which five, six and five bits of the colours, and where |
| PixelFormats.Split10A2Fields | pression/compressor/compressorRLE10A2.cpp:36-56 | which bits of the ten-bit colours and of alpha each component holds |
| PixelFormats.View32 | pression/compressor/compressorRLE4B.cpp:185-251 | each 32-bit engine keeps of a pixel what is stated for it |
| PixelFormats.View64 | pression/compressor/compressorRLE4HF.cpp:145-207 | each half-float engine keeps of a pixel what is stated for it |
| DataCompressor.ChunkCount | pression/data/Compressor.cpp:40-43 | there are as many chunks as the size rounded up to whole chunks |
| DataCompressor.ChunkIs | pression/data/Compressor.cpp:45-54 | each chunk holds the bytes from its number times the chunk size on |
| DataCompressor.CompressedIsConsistent | pression/data/Compressor.cpp:93-100 | the number of chunks left by compress always passes the test of decompress |
| DataCompressor.ConsistentIff | pression/data/Compressor.cpp:93-94 | the test accepts the size rounded up to whole chunks, one fewer when there is a rest, one more when there is none, and no other number of several chunks |
| DataCompressor.RestIsNotRestored | pression/data/Compressor.cpp:93-111 | with one chunk too few decompress does not throw, and the rest of the buffer is not among the bytes restored |
| DataCompressor.ChunksAreRestored | pression/data/Compressor.cpp:102-111 | the chunks from any one on restore the rest of the buffer if and only if each of them is restored |
| DataCompressor.Compressor.Compress | pression/data/Compressor.cpp:36-63 | leaves the chunks in the object and adds both sizes to its counters |
| DataCompressor.Compressor.CompressChunks | pression/data/Compressor.cpp:45-54 | the chunks partition the buffer in order |
| DataCompressor.Compressor.Decompress | pression/data/Compressor.cpp:76-112 | throws exactly on an inconsistent number of chunks and then stores nothing; otherwise stores the restored bytes and leaves the rest of the buffer alone |
| DataCompressor.Compressor.DecompressChunks | pression/data/Compressor.cpp:102-111 | each chunk is stored once, at its place |
| ChunkCodecs.RleRestores | pression/data/CompressorRLE.cpp:103-133 | the run-length codec restores exactly the chunks that stay within their reserved size |
| ChunkCodecs.FastLzRestores | pression/data/CompressorFastLZ.cpp:34-51 | FastLZ restores exactly the chunks of which both sizes are below 2^31 |
| ChunkCodecs.LzfRestores | pression/data/CompressorLZF.cpp:37-54 | LZF restores exactly the chunks that its encoder does not give up on |
| Unrepeated.NoRepeat | pression/data/liblzf/lzf_c.c:165-176 | an input of any size in which no three bytes come back within three periods of 614125 numbers, further than any encoder looks |
| Unrepeated.TokensAreLiterals | pression/data/liblzf/lzf_c.c:137-308 | so every encoder takes all of it as literals, whatever the hash values and the table |
| Unrepeated.FastLzSize | pression/data/fastlz/fastlz.c:407-435 | its FastLZ stream has the largest size there can be |
| Unrepeated.FastLzSizeIsNegative | pression/data/fastlz/fastlz.c:435-442 | with 2^31 - 1 bytes that is 2214592511, a negative int |
| Unrepeated.LzfGivesUp | pression/data/liblzf/lzf_c.c:169-176 | the LZF encoder gives up on it with any capacity below that size |
| Unrepeated.LzfChunkIsLost | pression/data/CompressorLZF.cpp:42-43 | for 4e9 bytes the reserved bound of 4400000008 arrives as 105032712, and nothing is stored |
| Adler32.UpdateConcat | pression/data/fastlz/6pack.c:272-273 | checksumming two buffers in turn is checksumming their concatenation, from any checksum |
| Adler32.ClosedForm | pression/data/fastlz/6pack.c:81-125 | from any checksum, the lower half grows by the sum of the bytes and the upper half by the sum in which each byte counts as often as bytes from it to the end, both modulo 65521 |
| Adler32.ChecksumIs | pression/data/fastlz/6pack.c:81-125 | so for a whole buffer, the empty one included |
| Adler32.PlainAllReduces | pression/data/fastlz/6pack.c:113-122 | putting off the reductions to the end of a block does not change the sums |
| Adler32.BlockFits | pression/data/fastlz/6pack.c:90 | with at most 5552 bytes between reductions both sums stay below 2^32 |
| Adler32.AddBlock | pression/data/fastlz/6pack.c:93-119 | the loop unrolled eight times and the loop for the rest add up the block |
| SixPack.ReadsBack16 | pression/data/fastlz/6unpack.c:132-135 | two little-endian bytes read back as the value modulo 2^16 |
| SixPack.ReadsBack32 | pression/data/fastlz/6unpack.c:137-140 | four little-endian bytes read back as the value modulo 2^32 |
| SixPack.HeaderReadsBack | pression/data/fastlz/6unpack.c:142-153 | a chunk header reads back, each field as far as it fits |
| SixPack.LittleEndian | pression/data/fastlz/6pack.c:160-201 | numbers are stored with their lowest byte first |
| SixPack.EntryIs | pression/data/fastlz/6pack.c:251-277 | signature and file entry byte by byte |
| SixPack.BlockChunkIs | pression/data/fastlz/6pack.c:316-340 | a block of at least 32 bytes is compressed unless the method says otherwise; its chunk says which, with the size and the checksum of what is stored and the size of the block |
| SixPack.FirstBlock | pression/data/fastlz/6pack.c:299-341 | each block takes up to 131072 bytes |
| SixPack.WriteHeader | pression/data/fastlz/6pack.c:176-201 | the sixteen bytes stored read back as the header that was given, each field as far as it fits |
| SixPack.WriteChunk | pression/data/fastlz/6pack.c:176-201 | what is written reads back as the header and is followed by the body |
| SixPack.PackEntry | pression/data/fastlz/6pack.c:251-277 | the file entry, its checksum taken in two parts |
| SixPack.PackBlock | pression/data/fastlz/6pack.c:316-340 | a block is stored below 32 bytes and compressed otherwise; the compressed form fits the result buffer of twice the block size |
| SixPack.PackBlocks | pression/data/fastlz/6pack.c:299-341 | one chunk per 128 KiB of the file |
| SixPack.PackFile | pression/data/fastlz/6pack.c:203-409 | leaves signature, entry and blocks, or for an input that is an archive already the signature alone, and reports failure exactly then |
| SixUnpack.ChunkReadsBack | pression/data/fastlz/6unpack.c:218-235 | a chunk in front of any archive is read as its header and body, and reading goes on behind it |
| SixUnpack.BlockExtracted | pression/data/fastlz/6unpack.c:310-410 | a block that pack wrote, stored or compressed, passes its checksum and is appended to the open file |
| SixUnpack.BlocksExtracted | pression/data/fastlz/6unpack.c:306-430 | all blocks of a file, in front of any archive, are appended in order |
| SixUnpack.BlocksSkipped | pression/data/fastlz/6unpack.c:306 | without an open file or with a size of zero, blocks in front of any archive are passed over |
| SixUnpack.EntryReadsBack | pression/data/fastlz/6unpack.c:255-268 | an entry of fewer than 65536 bytes gives name and 32-bit size back |
| SixUnpack.UnpackOfArchive | pression/data/fastlz/6unpack.c:221-437 | what unpacking makes of a complete archive |
| SixUnpack.ArchiveIsRefused | pression/data/fastlz/6pack.c:226-231 | the signature alone as input: nothing comes back |
| SixUnpack.SizeWraps | pression/data/fastlz/6unpack.c:247-250 | 2^32 zeros as input: an empty file comes back |
| SixUnpack.NameIsTaken | pression/data/fastlz/6unpack.c:266-275 | a file of that name that can be read: nothing comes back |
| SixUnpack.ChunkIsProper | pression/data/fastlz/6unpack.c:229-434 | one chunk of any kind keeps the files apart and their names let through, also when it ends the run |
| SixUnpack.NameCanBeWritten | pression/data/fastlz/6unpack.c:255-279 | every name that the test lets through is opened for writing by some archive |
| SixUnpack.WriteOnlyIsEmptied | pression/data/fastlz/6unpack.c:266-279 | a file that can be written and not read is emptied by an archive with an entry for it |
| SixUnpack.CopyStored | pression/data/fastlz/6unpack.c:318-335 | copying a stored block in pieces of 64 KiB gives its bytes and its checksum, as far as the archive goes |
| SixUnpack.ExtractBlock | pression/data/fastlz/6unpack.c:310-417 | what one block adds to the open file and whether the file stays open, for every size and also when the decompressor reads behind the block: a stored block is added and closes the file if its checksum is another one, a compressed one with another checksum adds nothing |
| SixUnpack.UnpackChunk | pression/data/fastlz/6unpack.c:229-434 | one chunk moves the unpacker to its next state or ends it, whatever the archive lacks of it |
| SixUnpack.UnpackFile | pression/data/fastlz/6unpack.c:157-452 | on every sequence of bytes and whatever memory holds, the run writes exactly the files that the archive stands for |
| SixIntegrity.ContentIs | pression/data/fastlz/6unpack.c:312-402 | all blocks of a written file but the last one have the checksum their header names |
| SixIntegrity.DamagedIsRead | pression/data/fastlz/6unpack.c:312-402 | a block that pack wrote with another body closes the file, in front of any archive |
| SixIntegrity.DamagedEntry | pression/data/fastlz/6unpack.c:240-253 | an entry with another checksum than its header names opens no file and ends the run |

## Left out

- FastLzCompress.Compress: requires a buffer of n + n/32 + 1 bytes, which is less than what the documentation asks of the caller.
- LzSearch.SearchDescribes: hash values are arbitrary, so the bytes that are read only for hashing, in places one past the bytes compared, are not modelled.
- LzfCompress.Compress: the table is a parameter with arbitrary contents, which is the source's LZF_STATE_ARG form; the build options are the defaults (VERY_FAST, 16 bits of hash, offsets in the table, no INIT_HTAB).
- LzfCompress.CompareSixteen: sixteen comparisons written out in the source are a loop of sixteen; likewise the eight in FastLzCompress.CompareEight and the falling-through switches of the decoder.
- LzfDecompress.Decompress: with the input checks that are on by default, and without the `rep movsb` variant.
- LzfStream.CompressFd: header and payload are concatenated, where the source writes the header into space left before the payload.
- Clzf.Compress: the length argument is the array length; the checksum table of the class is not modelled.
- RleData.CompressChunkTo: tokens are little-endian integers in memory.
- PlanarRle.CompressImage: the buffers are those of a fresh compressor, of exactly the reserved size; the groups run one after the other.
- PlanarRle.ImageRoundTrip: requires positions that do not go back or leave the image; those of the source are such exactly when the last one does not lie behind it (PlanarRle.FloatCutsIff), and what is read behind it otherwise is not modelled.
- PlanarRle.ReserveExceeded: in terms of markers only for groups at most one pixel wider than the quotient; PlanarRle.GroupExceedsReserve gives the condition for every width.
- Float32.GroupWidth: for fewer than 2^23 pixels, beyond which no bound on the width is stated.
- Float32.Cut: products are rounded to single precision at once, as on machines without wider registers.
- ChunkCodecs.FastLzBuffers: chunks below 2^32 bytes; on an empty buffer the source reads a byte that is not there and ignores the result.
- DataCompressor.Compressor.Decompress: what a rejected chunk leaves in its part of the buffer is a parameter, as far as the chunk is filled at all.
- SixPack.PackFile: read errors and the progress output are left out; the name is the part after the last separator, whose search is not modelled.
- SixUnpack.UnpackFile: files created in the run are taken to be readable afterwards; a run that the operating system ends early, for a read behind a block or for lack of memory or space, has opened only the first of the files stated.
- C integer widths: sizes passed as int are taken modulo 2^32 and below 2^32 (FastLz.DecompressSized, ChunkCodecs.FastLzBuffers, SixUnpack.Checksum), the size of a single FastLZ input below 2^31, lengths of LZF below 2^32.
- Plugin loading, registries, visitors and instance lifecycle: environment plumbing and simple scans.
- Uploader, downloader and the OpenGL transfer functions: foreign calls.
- The TurboJPEG, Snappy and ZSTD wrappers: thin layers over code that is not part of this model.
- pression/compressor/compressorRLEYUV.cpp: the same swizzles as in compressorRLE4B.cpp.
- The CRC tables: constants that the codecs do not use.
- Opening and naming files, options, progress output and benchmarks of the command line tools: files are byte sequences.
- OpenMP threading: the iterations of the parallel loops are independent and run in order.
- doc/feature/Slicer.md: a design without code.
