# RocksDB block cache and Snappy codec, as bundled with this repository

The repository binds RocksDB to Node.js and carries its native dependencies with it. This project
models the two of them that hold the hardest code, and proves what they are for.

**Snappy** (`deps/snappy/snappy-1.1.7`). Compression works in place on a buffer and a hash table;
decompression reads fragments that a `Source` chooses to show and writes through one of four writers. Both
are imperative here, over arrays and mutable objects. `Format.Decode` says once what a compressed stream
means, and `WireFormat` what every kind of element is as bytes. `CompressedForm.Fragment` says, as a
function of a block, a table size and a hash function, which bytes the compressor emits; that this is
compression is a theorem of its own (matches are taken wherever the scan meets one, and repeated bytes
shrink about twenty times). The compressor is proved to emit these bytes, for every hash function and every
way of fragmenting the input; the bytes are proved to decode to the input; and the decompressor, whatever
the fragments and the writer, is proved to succeed exactly on what `Decode` accepts, as far as its 32-bit
counts reach, and to write exactly that.

**The CLOCK cache shard** (`cache/clock_cache.cc`). A lock-free lookup path beside a mutex. It is a
transition system: every atomic operation on a handle's flags is one step, so is every access to the table
or the circular list, and any number of activities interleave freely. One inductive invariant carries what
follows about every state of every run: no value is deleted while held, no handle is recycled twice, values
are neither lost nor freed twice, and usage, table and recycle bin agree. On top of it every call of every
run is proved to do its work: a lookup finds what stays in the cache, an insertion is accepted or refused
under the exact condition and then linked, an erasure erases, a release gives up one reference.

**The LRU cache** (`cache/lru_cache.cc`, `cache/sharded_cache.cc`). The chained hash table rehashes by
moving its nodes, the list of unreferenced entries is intrusive, circular and split in two by a marker, and
the two share their nodes. Handles are real objects with `next`, `prev` and `nextHash` pointers. Every
operation is proved against a relation on abstract states (list, low-priority part, usage, entries in use,
table). The sharded cache is built of such shards with disjoint footprints, and its operations follow one
another: over every run of a client the limit holds, the references are counted right, and at the end every
entry that was accepted has been freed.

| files | what they model |
|---|---|
| `Wrappers`, `Bytes`, `Format`, `TagTable`, `Varint`, `WireFormat` | the compressed format, its words and its tags |
| `Elements`, `MatchLength`, `CompressedForm`, `BlockCompressor`, `GreedyForm`, `EqualBytes`, `Compressor` | compression |
| `SinkSource`, `SelfCopy`, `ArrayWriter`, `IOVecWriter`, `ScatteredWriter`, `Writers` | sources, sinks, writers |
| `Decompressor`, `Uncompress`, `FormatLimits` | decompression, its entry points, its limits |
| `ClockState`, `ClockInvariant`, `ClockOwnership`, `ClockKnowledge`, `ClockValues`, `ClockTable`, `ClockSafety`, `ClockEviction`, `ClockLimit`, `ClockProbes` | the CLOCK shard: its steps and what all of them keep |
| `ClockCalls`, `ClockInsert`, `ClockErase`, `ClockRelease`, `ClockSettings`, `ClockAlone` | what the calls on it achieve, in every run |
| `LruHandles`, `LruTable`, `LruList`, `LruCache`, `ShardEffects`, `ShardedCache`, `LruPatterns`, `CacheRuns` | the LRU cache |

`dafny verify dfyconfig.toml` checks the whole project.

## Model

| member | source | states |
|---|---|---|
| Uncompress.RoundTrip | deps/snappy/snappy-1.1.7/snappy.cc:1190-1266 | For every input, every fragmentation of it and every hash function: the compressed form is at most MaxCompressedLength long, the announced length is the input's in 32 bits, the validator and RawUncompress answer alike, and they answer true if and only if the input and the compressed body are both shorter than 2^32; then the contents come back. MaxCompressedLength below 2^32 suffices |
| Uncompress.InternalUncompress | deps/snappy/snappy-1.1.7/snappy.cc:823-847 | For every source, flat or shown in pieces shorter than 2^32 bytes, and all four writers: success exactly when the bytes decode, and for a flat source the body is shorter than 2^32 besides; then the writer holds what they decode to. Memory past the announced length is untouched. Nothing is said of a source that may show 2^32 bytes or more at once without being flat |
| Uncompress.RawUncompress | deps/snappy/snappy-1.1.7/snappy.cc:1190-1198 | The same, and for the same sources, for a flat array: on success its front is what the bytes decode to, and in any case the rest is as before |
| Uncompress.IsValidCompressed | deps/snappy/snappy-1.1.7/snappy.cc:1245-1254 | The validator accepts exactly what RawUncompress accepts, on every flat input and on every source shown in pieces shorter than 2^32 bytes |
| Uncompress.RawUncompressToIOVec | deps/snappy/snappy-1.1.7/snappy.cc:1104-1114 | The same answer, for the same sources, and, laid end to end in the buffers, the same bytes; no byte past the announced length changes, wherever the buffers are cut |
| Uncompress.Uncompress | deps/snappy/snappy-1.1.7/snappy.cc:1485-1513 | For the same sources: whether the sink's own buffer is large enough or the output is collected block by block, the answer is the same, and on success the sink receives what the bytes decode to |
| Uncompress.GetUncompressedLength | deps/snappy/snappy-1.1.7/snappy.cc:318-328 | A length is found exactly when there is a well-formed preamble, and it is the one decompression will announce |
| Uncompress.DecodedLength | deps/snappy/snappy-1.1.7/snappy.cc:834-847 | What decodes is as long as it announces, and shorter than 2^32 |
| Uncompress.AnswersWhole | deps/snappy/snappy-1.1.7/snappy.cc:823-847 | The preamble and the loop together answer for the whole stream: accepted as a whole if and only if the part after the preamble decodes to the announced length |
| FormatLimits.TooLongForTheCounts | deps/snappy/snappy-1.1.7/snappy.cc:787-801 | A concrete stream that decodes, to 2^31 zero bytes, and that a flat source never gets accepted: its body has 2^32 bytes, one more than the uint32 counts hold |
| FormatLimits.DecodeIsStrictExactly | deps/snappy/snappy-1.1.7/snappy.cc:718-724 | Of what the code accepts, the format without 32-bit wrap-around rejects exactly the streams in which a literal of length 2^32 occurs |
| FormatLimits.StrictUnlessWrapped | deps/snappy/snappy-1.1.7/snappy.cc:718-724 | The same for any run of elements after any output: strict expansion succeeds if and only if the code's does and no such literal is met, and then both give the same bytes |
| FormatLimits.WrappedLiteralAccepted | deps/snappy/snappy-1.1.7/snappy.cc:723-724 | A concrete six-byte stream that the code accepts and the format does not |
| FormatLimits.RoomForSingleBlock | deps/snappy/snappy-1.1.7/snappy.cc:396-411 | For a one-block input the room left is short of the documented MaxCompressedLength by the preamble, and yet enough for every store |
| Decompressor.SnappyDecompressor.DecompressAllTags | deps/snappy/snappy-1.1.7/snappy.cc:660-763 | For every source whose pieces the 32-bit counts hold, and every writer: the loop comes to its clean end only with the expansion of all the input written, and stops elsewhere only if the stream cannot decode to the announced length; a flat source of 2^32 bytes or more never comes to the clean end |
| Decompressor.SnappyDecompressor.RefillTag | deps/snappy/snappy-1.1.7/snappy.cc:766-821 | Afterwards one whole element head is contiguous in memory and the bytes still to be consumed are the same, however the fragments cut it; failure means end of input or a head cut short |
| Decompressor.SnappyDecompressor.ReadUncompressedLength | deps/snappy/snappy-1.1.7/snappy.cc:634-655 | Byte by byte from the source: a length exactly for a well-formed preamble of at most five bytes below 2^32, and the source stands right after it |
| Decompressor.SnappyDecompressor.ReadCopy | deps/snappy/snappy-1.1.7/snappy.cc:746-757 | The table entry and the masked load together give exactly the offset and length of the format's copy element, and consume exactly that element |
| Decompressor.SnappyDecompressor.AppendLiteral | deps/snappy/snappy-1.1.7/snappy.cc:727-741 | A literal that spans fragments is written as if it were contiguous; refused exactly if the input ends first or the writer has no room |
| TagTable.TableIsFormat | deps/snappy/snappy-1.1.7/snappy-internal.h:186-219 | Each of the 256 entries, by the lower bits of its tag: the bytes that follow it (as many as a long literal's length takes; one, two or four for the copies), the high bits of a one-byte offset, the length |
| WireFormat.CopyWithOneByte | deps/snappy/snappy-1.1.7/format_description.txt:89-96 | The element as bytes, followed by anything: lengths 4 to 11, offsets below 2^11 in the tag's upper bits and one byte |
| WireFormat.CopyWithTwoBytes | deps/snappy/snappy-1.1.7/format_description.txt:98-104 | Lengths 1 to 64, the offset in two bytes |
| WireFormat.CopyWithFourBytes | deps/snappy/snappy-1.1.7/format_description.txt:106-110 | Lengths 1 to 64, any 32-bit offset in four bytes: the form that this compressor never emits |
| WireFormat.ShortLiteral | deps/snappy/snappy-1.1.7/format_description.txt:46-54 | Up to 60 bytes: the length, less one, is in the tag |
| WireFormat.LiteralWithOneByte | deps/snappy/snappy-1.1.7/format_description.txt:55-60 | Tag 60: one byte holds the length, less one |
| WireFormat.LiteralWithTwoBytes | deps/snappy/snappy-1.1.7/format_description.txt:55-60 | Tag 61: two bytes |
| WireFormat.LiteralWithThreeBytes | deps/snappy/snappy-1.1.7/format_description.txt:55-60 | Tag 62: three bytes |
| WireFormat.LiteralWithFourBytes | deps/snappy/snappy-1.1.7/snappy.cc:718-724 | Tag 63: four bytes, and the longest of these lengths comes out as 0 |
| WireFormat.HeadOrCutShort | deps/snappy/snappy-1.1.7/snappy.cc:766-821 | An element head is missing exactly if fewer bytes are left than its kind of tag takes |
| WireFormat.LiteralThenFarCopy | deps/snappy/snappy-1.1.7/snappy.cc:746-757 | A whole stream of a literal and a copy with a four-byte offset decodes if and only if the copy starts inside the literal, to the literal extended periodically |
| WireFormat.FourByteOffset | deps/snappy/snappy-1.1.7/snappy_unittest.cc:710-742 | One such stream in numbers: any four bytes, then four from four back |
| WireFormat.PreambleWrittenOut | deps/snappy/snappy-1.1.7/format_description.txt:18-27 | One to five bytes with seven bits each, lowest first, announce their value if it is below 2^32, and otherwise nothing |
| WireFormat.NoPreamble | deps/snappy/snappy-1.1.7/snappy.cc:634-655 | Five bytes with the top bit set, or an end before a byte without it, announce nothing |
| Varint.Parse32WithLimit | deps/snappy/snappy-1.1.7/snappy-stubs-internal.h:485-505 | The unrolled parser equals the recursive definition of a 32-bit varint on every byte string, including truncated and overlong ones |
| Varint.Encode32 | deps/snappy/snappy-1.1.7/snappy-stubs-internal.h:507-533 | Writes the varint of the number, and no other byte |
| Varint.PreambleOfVarint | deps/snappy/snappy-1.1.7/snappy-stubs-internal.h:485-533 | Round trip of the preamble: the varint of a number below 2^32, followed by anything, parses to that number and its own length |
| SelfCopy.IncrementalCopy | deps/snappy/snappy-1.1.7/snappy.cc:139-220 | Every fast path (pattern expansion, 16-byte strides, overlapping 8-byte stores) leaves exactly the bytes of the byte-by-byte self-referential copy, and stores nothing past the limit of the buffer |
| SelfCopy.IncrementalCopySlow | deps/snappy/snappy-1.1.7/snappy.cc:128-137 | The byte loop computes the periodic extension of the output |
| Bytes.CopyUnique | deps/snappy/snappy-1.1.7/snappy.cc:106-137 | The self-referential copy is the only extension of the output in which every new byte equals the one `offset` before it |
| ArrayWriter.SnappyArrayWriter.AppendFromSelf | deps/snappy/snappy-1.1.7/snappy.cc:1168-1181 | Accepted if and only if the offset is neither 0 nor before the output and the result fits, decided by the one unsigned comparison `produced <= offset - 1`; then the periodic extension, with nothing stored past the announced length |
| ArrayWriter.SnappyDecompressionValidator.AppendFromSelf | deps/snappy/snappy-1.1.7/snappy.cc:1228-1240 | Counting alone refuses exactly what the writers refuse |
| IOVecWriter.SnappyIOVecWriter.AppendFromSelf | deps/snappy/snappy-1.1.7/snappy.cc:1032-1099 | A self-copy from and to any of the buffers, across any number of their ends, extends the output exactly as in one flat array |
| IOVecWriter.SnappyIOVecWriter.Append | deps/snappy/snappy-1.1.7/snappy.cc:987-1015 | Accepted exactly when it fits; the output, laid end to end, grows by these bytes; nothing past the limit changes |
| IOVecWriter.SnappyIOVecWriter.TryFastAppend | deps/snappy/snappy-1.1.7/snappy.cc:1017-1030 | Takes the fast path exactly under the guard; what it scribbles past the end never counts as output nor passes the limit |
| ScatteredWriter.SnappyScatteredWriter.AppendFromSelf | deps/snappy/snappy-1.1.7/snappy.cc:1357-1371 | Across blocks of 64 KB, allocated as needed: accepted exactly as by the flat writer, with the same result |
| ScatteredWriter.SnappyScatteredWriter.SlowAppendFromSelf | deps/snappy/snappy-1.1.7/snappy.cc:1409-1431 | The byte-by-byte path through block numbers and offsets does the same |
| ScatteredWriter.SnappyScatteredWriter.SlowAppend | deps/snappy/snappy-1.1.7/snappy.cc:1378-1407 | Appending across block ends: accepted exactly when it fits, and the output grows by these bytes |
| ScatteredWriter.SnappyScatteredWriter.Flush | deps/snappy/snappy-1.1.7/snappy.cc:1449-1459 | The blocks, each with its own size, make up the output in order, with nothing missing and nothing twice |
| Writers.Writer.Append | deps/snappy/snappy-1.1.7/snappy.cc:657-663 | Whichever writer the decompressor runs on, a literal is accepted and written alike |
| Writers.Writer.AppendFromSelf | deps/snappy/snappy-1.1.7/snappy.cc:657-663 | And so is a copy |
| Compressor.Compress | deps/snappy/snappy-1.1.7/snappy.cc:854-936 | For every source and every hash function the output is `Compressed` of the whole input, so it does not depend on the fragments; it decodes to the input if and only if the input is shorter than 2^32; input that repeats one byte takes three bytes for every 64 and two more for a block; output and stores stay within MaxCompressedLength, and a larger buffer is untouched from there on |
| Compressor.RawCompress | deps/snappy/snappy-1.1.7/snappy.cc:1256-1266 | The same from and to flat buffers: nothing from MaxCompressedLength on is touched; 64 equal bytes come out as at most six |
| Compressor.CompressedDecodes | deps/snappy/snappy-1.1.7/snappy.cc:854-936 | What the compressor emits, as a function of input and hash function, decodes to the input if and only if that is shorter than 2^32 |
| Compressor.CompressedEqual | deps/snappy/snappy-1.1.7/snappy.cc:854-936 | For every hash function, input that repeats one byte is compressed about twenty times: preamble, two bytes for the first, three for every 64 that follow, in each block |
| Compressor.BlocksDecode | deps/snappy/snappy-1.1.7/snappy.cc:854-936 | The blocks of any input, one after the other, expand to that input after any earlier output |
| BlockCompressor.HashIsTopBits | deps/snappy/snappy-1.1.7/snappy.cc:65-71 | The library's hash of four bytes is the quotient of their product with the multiplier, modulo 2^32, by the part of 2^32 that one entry stands for |
| Compressor.HashBytesInTable | deps/snappy/snappy-1.1.7/snappy.cc:65-71 | The library's own hash function is among those quantified over |
| BlockCompressor.CompressFragment | deps/snappy/snappy-1.1.7/snappy.cc:412-539 | For any hash function into the table: the bytes emitted are `Fragment` of the block; they expand to the block after any earlier output; no store, fast ones included, goes past the bound |
| BlockCompressor.FragmentDecodes | deps/snappy/snappy-1.1.7/snappy.cc:412-539 | `Fragment` expands to the block, for any hash function, with at most n + n / 30 + 1 bytes for n |
| BlockCompressor.MatchesDecode | deps/snappy/snappy-1.1.7/snappy.cc:434-530 | Every position of the main loop: literals and copies emitted so far expand to the input consumed so far |
| EqualBytes.FragmentOfEqual | deps/snappy/snappy-1.1.7/snappy.cc:412-539 | A block of 17 or more equal bytes is a literal of one byte and one copy of the rest, whatever the hash function |
| GreedyForm.MatchesEnd | deps/snappy/snappy-1.1.7/snappy.cc:434-530 | What a block leaves for its last literal is less than the margin, or a scan of it, with positions remembered from the empty table on, finds no match |
| GreedyForm.CopiesEnd | deps/snappy/snappy-1.1.7/snappy.cc:487-526 | Copies follow one another until the input is nearly used up or the next four bytes differ from those at the position last stored for their hash |
| BlockCompressor.ScanForMatch | deps/snappy/snappy-1.1.7/snappy.cc:460-485 | The probes are one byte apart, and one more for every 32 bytes scanned; none before the last agreed on four bytes with the position most recently stored for its hash, be it by this scan or before; the scan ends with a match at the first that does, or with nothing where the next probe would pass the limit; if the very first agrees it is the match. All probes are stored |
| BlockCompressor.EmitRound | deps/snappy/snappy-1.1.7/snappy.cc:500-525 | One copy: the match is extended to its maximal length and emitted; then the last position covered and the next one are stored, in this order, and the loop goes on exactly if the entry found in between agrees |
| BlockCompressor.GetHashTable | deps/snappy/snappy-1.1.7/snappy.cc:330-356 | A zeroed table, a power of two between 256 and 16384, no smaller than the input unless at the maximum, and less than twice the input unless at the minimum |
| Elements.EmitLiteral | deps/snappy/snappy-1.1.7/snappy.cc:224-267 | Emits the literal element of these bytes, the 16-byte fast store included, and changes nothing before it |
| Elements.EmitCopy | deps/snappy/snappy-1.1.7/snappy.cc:291-316 | Emits the copy elements for an offset and a length, never more bytes than are copied |
| Elements.CopyBytesDecode | deps/snappy/snappy-1.1.7/snappy.cc:291-316 | The split of a long copy into pieces of 64, 60 and the rest expands to the one long self-copy |
| Elements.CopyBytesSize | deps/snappy/snappy-1.1.7/snappy.cc:291-316 | A match costs at most three bytes for every 64 bytes begun |
| MatchLength.FindMatchLength | deps/snappy/snappy-1.1.7/snappy-internal.h:88-135 | The 64-bit version finds the longest common run before the limit, never loading past it, and reports correctly whether it is shorter than 8 |
| MatchLength.FindMatchLength32 | deps/snappy/snappy-1.1.7/snappy-internal.h:138-161 | So does the 32-bit version |
| MatchLength.LongestIsLongest | deps/snappy/snappy-1.1.7/snappy-internal.h:76-87 | What both find is the maximum: no longer run agrees |
| MatchLength.FindLSBSetNonZero | deps/snappy/snappy-1.1.7/snappy-stubs-internal.h:434-446 | The binary search finds the lowest set bit of every nonzero word, hence the first differing byte |
| MatchLength.FindLSBSetNonZero64 | deps/snappy/snappy-1.1.7/snappy-stubs-internal.h:449-457 | And of every nonzero 64-bit word |
| Format.ExpandAppend | deps/snappy/snappy-1.1.7/snappy.cc:660-763 | Expanding two runs of elements one after the other is expanding their concatenation |
| ClockSafety.EveryRunIsSafe | deps/rocksdb/rocksdb/cache/clock_cache.cc:424-701 | In every state of every run, any number of activities interleaved step by step, the invariant holds and no activity is about to point outside the list or drop a reference that is not there |
| ClockSafety.StepKeepsInv | deps/rocksdb/rocksdb/cache/clock_cache.cc:424-701 | Each of the steps of all operations keeps the invariant, whoever takes it |
| ClockSafety.HeldValueIsAlive | deps/rocksdb/rocksdb/cache/clock_cache.cc:636-670 | While a caller holds a handle, it has the key asked for and the value found, whose deleter has not run and is not scheduled by anyone |
| ClockSafety.LookupFindsItsKey | deps/rocksdb/rocksdb/cache/clock_cache.cc:636-659 | Over whole runs: whatever others do meanwhile and however handles are reused, what a lookup hands out has the key it was asked for, from then until its release |
| ClockCalls.LookupCall | deps/rocksdb/rocksdb/cache/clock_cache.cc:636-659 | A lookup finds what is there, in every run: if from its start until it returns the key leads to the same handle, in the cache with the same value, the call returns this handle for this key. So a miss means that in between the key was not in the table, or its entry was leaving |
| ClockCalls.HitCall | deps/rocksdb/rocksdb/cache/clock_cache.cc:636-659 | A hit is an entry of this key and value that was in the cache in some state during the call, though the table is read without the mutex and handles are reused |
| ClockAlone.LookupAlone | deps/rocksdb/rocksdb/cache/clock_cache.cc:449-468 | Four steps in a row, the read of the table included, give an undisturbed lookup its handle and one reference, and change nothing else |
| ClockInsert.InsertCall | deps/rocksdb/rocksdb/cache/clock_cache.cc:564-610 | Every insertion of every run that has returned: refused if and only if the eviction had failed and the limit was strict or no handle was wanted, and then nothing under the mutex has changed and the value goes to its deleter unless the caller keeps it. Otherwise on leaving the mutex the key leads to the handle from the bin, or a new one, in the cache with the job's key and charge and a value never stored before; the displaced entry is out of the cache, and recycled exactly if it had no reference; usage, bin, table and all other entries are exact; the caller gets this handle exactly if it asked for one |
| ClockAlone.InsertAlone | deps/rocksdb/rocksdb/cache/clock_cache.cc:564-634 | An undisturbed insertion from start to end: accepted if and only if `Fits` holds of the state before it, or the limit is not strict and a handle is wanted; the state afterwards |
| ClockErase.EraseCall | deps/rocksdb/rocksdb/cache/clock_cache.cc:672-689 | Every erasure of every run: on leaving the mutex the key is not in the table, its entry is out of the cache, and recycled with its charge off the usage exactly if nobody had a reference when the bit was cleared; all other entries are as before |
| ClockRelease.ReleaseCall | deps/rocksdb/rocksdb/cache/clock_cache.cc:470-491 | Every release of every run: the usage bit is set, then exactly one reference is given up; if it was the last to a handle out of the cache, the value held is deleted by the time the call returns, and otherwise the call deletes nothing |
| ClockRelease.NothingPending | deps/rocksdb/rocksdb/cache/clock_cache.cc:438-447 | An activity between calls has nothing left to delete |
| ClockSettings.SweepCall | deps/rocksdb/rocksdb/cache/clock_cache.cc:691-701 | Every EraseUnRefEntries of every run leaves the mutex with an empty table and no handle in the cache |
| ClockSettings.CapacityCall | deps/rocksdb/rocksdb/cache/clock_cache.cc:549-557 | Every SetCapacity of every run leaves the mutex with the new capacity, after an eviction whose success means that the usage is within it |
| ClockSettings.StrictCall | deps/rocksdb/rocksdb/cache/clock_cache.cc:559-562 | The flag is stored, and nothing else |
| ClockSafety.ValuesAreConserved | deps/rocksdb/rocksdb/cache/clock_cache.cc:424-447 | At every point of every run, every value inserted so far is in exactly one handle, or waits in exactly one call for its deleter, or its deleter has run once |
| ClockSafety.RecyclesDeadHandlesOnce | deps/rocksdb/rocksdb/cache/clock_cache.cc:424-436 | The assertion in RecycleHandle: only handles out of the cache and without references are recycled, and none that is in the bin already |
| ClockSafety.EvictionAsserts | deps/rocksdb/rocksdb/cache/clock_cache.cc:508-547 | The assertions in TryEvict and EvictFromCache: the table has the evicted key, for this handle, and the position is inside the list |
| ClockSafety.AgreesWhenUnlocked | deps/rocksdb/rocksdb/cache/clock_cache.cc:360-380 | Whenever the mutex is free: usage is the total charge of the handles with a value, the bin holds exactly the handles without, the table lists exactly the handles in the cache, each under its key |
| ClockSafety.UsageIsNotNegative | deps/rocksdb/rocksdb/cache/clock_cache.cc:424-436 | The unsigned usage never wraps below zero, at any step |
| ClockSafety.SuccessMeansRoom | deps/rocksdb/rocksdb/cache/clock_cache.cc:523-547 | Whenever, in any run, EvictFromCache reports success, there is room, under every interleaving |
| ClockLimit.StrictLimitHolds | deps/rocksdb/rocksdb/cache/clock_cache.cc:564-610 | In every run: from a state with the mutex free and the usage within the capacity, for as long as the limit is strict and the capacity not lowered, the usage is within the capacity in every single state, whatever is interleaved |
| ClockLimit.StepKeepsBound | deps/rocksdb/rocksdb/cache/clock_cache.cc:424-701 | Under the strict limit each step keeps the usage within the capacity, counting the entry that is on its way in, unless it lowers the capacity |
| ClockProbes.AtMostTwoRounds | deps/rocksdb/rocksdb/cache/clock_cache.cc:523-547 | In every run, whatever others do meanwhile, a call of EvictFromCache moves on at most twice round the list it found |
| ClockProbes.OthersKeepRounds | deps/rocksdb/rocksdb/cache/clock_cache.cc:523-547 | No step of another activity changes how many probes a running eviction still has ahead of it |
| ClockSafety.NothingLeaks | deps/rocksdb/rocksdb/cache/clock_cache.cc:424-506 | With no call running and no reference held, every handle is either in the cache and the table or in the recycle bin |
| ClockEviction.EvictFromCache | deps/rocksdb/rocksdb/cache/clock_cache.cc:523-547 | For a call during which no other activity moves, the exact result: it makes as few probes as leave room and at most two rounds; every handle has the flags that its number of probes gives it, and the usage is that of what these probes leave; success if and only if `Fits`; failure leaves only referenced entries; after a success the next eviction starts where this one stopped |
| ClockEviction.LastProbeIsNotTested | deps/rocksdb/rocksdb/cache/clock_cache.cc:523-547 | A failure although there is room afterwards: an unreferenced entry that fills the cache and has been used is evicted by the last probe, after which the usage is not tested again |
| LruTable.LRUHandleTable.FindPointer | deps/rocksdb/rocksdb/cache/lru_cache.cc:64-70 | The place in the bucket's chain: no earlier node has the key, and the node found is the table's entry for it, if there is one |
| LruTable.LRUHandleTable.Lookup | deps/rocksdb/rocksdb/cache/lru_cache.cc:34-36 | Walking the chain finds exactly the entry of the map |
| LruTable.LRUHandleTable.Insert | deps/rocksdb/rocksdb/cache/lru_cache.cc:38-52 | The map gets the entry under its key, the one displaced is returned, and chains, count and bucket order stay sound, through a rehash if there is one |
| LruTable.LRUHandleTable.Remove | deps/rocksdb/rocksdb/cache/lru_cache.cc:54-62 | The map loses the key, the entry that had it is returned |
| LruTable.LRUHandleTable.Resize | deps/rocksdb/rocksdb/cache/lru_cache.cc:72-96 | Moving every node by its pointers into a larger table keeps the map and the count: no node lost, none twice |
| LruTable.LRUHandleTable.CountsEntries | deps/rocksdb/rocksdb/cache/lru_cache.cc:91-92 | The assertion in Resize: the count equals the number of entries |
| LruList.Unlink | deps/rocksdb/rocksdb/cache/lru_cache.cc:182-184 | Taking a node out leaves the other nodes linked in a circle, both ways, in the same order |
| LruList.LinkBetween | deps/rocksdb/rocksdb/cache/lru_cache.cc:200-216 | Linking a node in leaves all of them linked in a circle, both ways, with the new one in its place |
| LruCache.LRUCacheShard.LRU_Remove | deps/rocksdb/rocksdb/cache/lru_cache.cc:178-194 | The entry leaves the list, the marker of the low-priority segment stays right even if it pointed there, and both usages follow |
| LruCache.LRUCacheShard.LRU_Insert | deps/rocksdb/rocksdb/cache/lru_cache.cc:196-220 | High priority or hit: newest end, then the pool is cut down to its capacity and no further; otherwise the newest place of the low-priority segment |
| LruCache.LRUCacheShard.MaintainPoolSize | deps/rocksdb/rocksdb/cache/lru_cache.cc:222-233 | The pool ends within its capacity, and without the last step it would not have |
| LruCache.LRUCacheShard.EvictFromLRU | deps/rocksdb/rocksdb/cache/lru_cache.cc:235-249 | A prefix of the list, oldest first, is evicted, no more than needed, until the charge fits or the list is empty; list, table and usage lose exactly these |
| LruCache.LRUCacheShard.constructor | deps/rocksdb/rocksdb/cache/lru_cache.cc:98-116 | An empty shard that owns nothing but new objects |
| LruCache.LRUCacheShard.Lookup | deps/rocksdb/rocksdb/cache/lru_cache.cc:271-284 | Hit exactly if the table has the key; a first reference takes the entry off the list, another changes nothing but the count |
| LruCache.LRUCacheShard.Ref | deps/rocksdb/rocksdb/cache/lru_cache.cc:286-293 | One more reference, and nothing else changes |
| LruCache.LRUCacheShard.Release | deps/rocksdb/rocksdb/cache/lru_cache.cc:302-337 | The last reference returns the entry to the list, or frees it: exactly if it left the cache, or the cache is over capacity, or erasing was forced; usage and table follow, and it is freed once |
| LruCache.LRUCacheShard.Insert | deps/rocksdb/rocksdb/cache/lru_cache.cc:339-416 | Accepted if and only if the charge fits into the capacity beside the entries in use before the call, or the limit is not strict and a handle is wanted; an accepted entry is the one that the table has for the key. A shortest prefix of the list is evicted; the old entry of the key is displaced, and freed unless referenced; the exact new table, list, usage and set of freed entries |
| LruCache.AcceptedIff | deps/rocksdb/rocksdb/cache/lru_cache.cc:367-377 | Whatever is evicted, the state before the eviction decides on acceptance |
| LruPatterns.InsertAndLookup | deps/rocksdb/rocksdb/cache/lru_cache.cc:271-416 | After an insertion a lookup finds the new entry if and only if it fits beside the entries in use, or the limit is not strict and a handle was wanted |
| LruPatterns.LookupAndRelease | deps/rocksdb/rocksdb/cache/lru_cache.cc:196-220 | An unreferenced entry that is looked up and given back goes to the newest end if there is a pool, and otherwise to the end of the low-priority segment; the others keep their order |
| LruCache.PoolSize | deps/rocksdb/rocksdb/cache/lru_cache.cc:251-264 | The pool's size is the capacity times the ratio |
| LruCache.LRUCacheShard.Erase | deps/rocksdb/rocksdb/cache/lru_cache.cc:418-443 | The key leaves the table; its entry is freed if unreferenced, and otherwise lives on outside the cache until released |
| LruCache.LRUCacheShard.EraseUnRefEntries | deps/rocksdb/rocksdb/cache/lru_cache.cc:118-139 | Frees exactly the entries of the list, in order; what is left is what callers hold |
| LruCache.LRUCacheShard.SetCapacity | deps/rocksdb/rocksdb/cache/lru_cache.cc:251-264 | Evicts a shortest prefix until the usage fits the new capacity or all that is left is in use |
| LruCache.LRUCacheShard.SetHighPriorityPoolRatio | deps/rocksdb/rocksdb/cache/lru_cache.cc:295-300 | For every ratio that the assertion in MaintainPoolSize admits (a negative pool size never fits): the pool is cut to its new size and no further; nothing but its mark, ratio and size changes |
| LruCache.LRUCacheShard.SetStrictCapacityLimit | deps/rocksdb/rocksdb/cache/lru_cache.cc:266-269 | The limit changes and no entry or reference is touched |
| LruCache.LRUCacheShard.GetPinnedUsage | deps/rocksdb/rocksdb/cache/lru_cache.cc:450-454 | The difference of the two usages is the total charge of the entries that callers hold |
| LruCache.StrictLimitHolds | deps/rocksdb/rocksdb/cache/lru_cache.cc:361-377 | Under the strict limit no insertion, whatever it evicts or displaces, takes the usage past the capacity |
| LruCache.InsertingHandles | deps/rocksdb/rocksdb/cache/lru_cache.cc:339-416 | The new entry is the only one the shard comes to know by an insertion |
| LruCache.MinusIsWithout | deps/rocksdb/rocksdb/cache/lru_cache.cc:235-249 | Removing the evicted keys one at a time removes exactly their set |
| ShardedCache.Cache.constructor | deps/rocksdb/rocksdb/cache/lru_cache.cc:467-483 | Shards with nothing in common, each with its part of the capacity, all within it; nothing held, freed or accepted yet |
| ShardedCache.Cache.Lookup | deps/rocksdb/rocksdb/cache/sharded_cache.cc:54-57 | The shard of the key's hash does its Lookup and no other shard changes; what callers hold grows by exactly the entry handed out, all other references count as before, and the limits are kept |
| ShardedCache.Cache.Insert | deps/rocksdb/rocksdb/cache/sharded_cache.cc:46-52 | The shard of the key's hash does its Insert and no other changes; it accepts exactly if the charge fits beside what is in use in that shard, or if the limit is not strict and a handle is wanted, and then its table has the new entry for the key; exactly what is handed out, what is freed and, if the status is OK, the new entry are added to what is held, freed and accepted; under the strict limit every shard stays within its part of the capacity |
| ShardedCache.Cache.Erase | deps/rocksdb/rocksdb/cache/sharded_cache.cc:69-72 | The shard of the key's hash does its Erase; what is freed grows by the entry of the key if nobody holds it; what is held stays |
| ShardedCache.Cache.Release | deps/rocksdb/rocksdb/cache/sharded_cache.cc:64-67 | The hash stored in the handle leads back to the shard that handed it out; that shard does its Release; the last reference takes the handle from what is held, and it is freed exactly if the shard freed it; other references stay |
| ShardedCache.Cache.HeldAtHome | deps/rocksdb/rocksdb/cache/sharded_cache.cc:59-67 | Whichever shard refers to a handle, it is the one that the handle's own hash selects |
| ShardedCache.Cache.KeyAtHome | deps/rocksdb/rocksdb/cache/sharded_cache.cc:46-57 | Whichever shard has an entry for a key, it is the one that the key's hash selects: no key is in two shards |
| ShardedCache.Cache.SetCapacity | deps/rocksdb/rocksdb/cache/sharded_cache.cc:27-35 | Every shard evicts a shortest prefix of its list to fit its part, or down to what is in use; what is held stays held and no entry is lost; raising the capacity keeps the limits |
| ShardedCache.Cache.SetStrictCapacityLimit | deps/rocksdb/rocksdb/cache/sharded_cache.cc:37-44 | Only the limit changes, in every shard; from then on it is kept, if every shard is within its part |
| ShardedCache.Cache.EraseUnRefEntries | deps/rocksdb/rocksdb/cache/sharded_cache.cc:120-125 | Every shard frees exactly the entries of its list and keeps what is in use; what is held stays held, and the limits are kept |
| ShardedCache.Cache.GetUsage | deps/rocksdb/rocksdb/cache/sharded_cache.cc:88-96 | The sum of the shards' usages; while the limits are kept it is below the capacity plus the number of shards |
| ShardedCache.Cache.FreedIsGone | deps/rocksdb/rocksdb/cache/lru_cache.h:125-131 | An entry whose deleter has run is in no list of any shard and held by nobody, so it is never freed again |
| ShardedCache.Cache.HeldOrFreed | deps/rocksdb/rocksdb/cache/sharded_cache.cc:120-125 | Once the lists are empty, every entry ever accepted is held or has been freed |
| ShardedCache.Cache.FreshAll | deps/rocksdb/rocksdb/cache/sharded_cache.cc:46-72 | What the shards are made of grows by new objects only, so that operations can follow one another |
| ShardEffects.InsertingLedger | deps/rocksdb/rocksdb/cache/lru_cache.cc:339-416 | An insertion loses no entry: list, in use and freed together gain the new entry if the status is OK, and nothing otherwise |
| ShardEffects.ReleasingLedger | deps/rocksdb/rocksdb/cache/lru_cache.cc:302-337 | A released entry is in the list or freed |
| ShardEffects.ErasingLedger | deps/rocksdb/rocksdb/cache/lru_cache.cc:418-443 | An erased entry stays in use or is freed |
| ShardEffects.EvictingLedger | deps/rocksdb/rocksdb/cache/lru_cache.cc:235-249 | Evicted entries are freed, all others stay |
| CacheRuns.Run | deps/rocksdb/rocksdb/cache/sharded_cache.cc:27-125 | A client makes any sequence of requests (lookup, insert, erase, release, erasing what is unreferenced, new capacities and limits): the cache counts exactly the references that the client holds, and as long as the limit is strict from the start and neither it nor the capacity is lowered, after each request the usage is below the capacity plus the number of shards |
| CacheRuns.Retire | deps/rocksdb/rocksdb/cache/sharded_cache.cc:64-72 | When the client has given back all it holds and unreferenced entries are erased, every entry that the cache ever accepted has been freed |
| CacheRuns.Lifetime | deps/rocksdb/rocksdb/cache/sharded_cache.cc:18-125 | From a new cache through any requests to the end, under any settings: all that was ever accepted has been freed, nothing is held, and a strict limit that is left alone was kept after every request |
| LruPatterns.PutAndFind | deps/rocksdb/rocksdb/cache/sharded_cache.cc:46-57 | What the sharded cache accepts, by that condition, is what it finds for the key next |
| CacheRuns.TakenOne | deps/rocksdb/rocksdb/cache/sharded_cache.cc:54-57 | One more reference handed out keeps the books of cache and client in agreement |
| CacheRuns.GivenBackOne | deps/rocksdb/rocksdb/cache/sharded_cache.cc:64-67 | One reference given back does, too |
| ShardedCache.TotalUsageBound | deps/rocksdb/rocksdb/cache/sharded_cache.cc:27-35 | Shards within their rounded-up parts use less, together, than the capacity and one for every shard |
| ShardedCache.TotalUsageBoundIsSharp | deps/rocksdb/rocksdb/cache/sharded_cache.cc:27-35 | A capacity for which full shards reach that bound less one: it cannot be improved |
| ShardedCache.ShardInterval | deps/rocksdb/rocksdb/cache/sharded_cache.h:97-100 | A shard serves exactly one interval of the hashes, and all intervals have the same length |
| ShardedCache.GetDefaultCacheShardBits | deps/rocksdb/rocksdb/cache/sharded_cache.cc:149-160 | The most bits, up to six, that leave every shard at least 512 KB |

## Findings

- A literal whose length field is 2^32 - 1 gets length 0, because the length is computed in 32 bits
  (snappy.cc:723-724). The code accepts such streams, the format has no meaning for them. This is the only
  such difference: `FormatLimits.DecodeIsStrictExactly`, with the example `WrappedLiteralAccepted`.
- `peeked_`, `nbuf` and `to_add` are uint32 (snappy.cc:601, 787-801) while `Peek` reports a size_t. On a flat
  source with 2^32 bytes or more after the preamble, decompression never succeeds, whatever the bytes; at
  a length that is 0 in 32 bits the stitching loop makes no progress. `Uncompress.InternalUncompress` and
  `RoundTrip` give the exact condition, `FormatLimits.TooLongForTheCounts` an input. A source that shows
  less than 2^32 bytes at a time is not affected at any length.
- The preamble takes the input's length as a uint32 (snappy.cc:859). Inputs of 2^32 bytes or more
  compress to a stream that decodes to nothing: `Compressor.Compress` states when the output decodes.
- `CompressFragment` documents that it needs MaxCompressedLength bytes of room. For an input of a single
  block `Compress` leaves less than that, by the preamble. It is enough nonetheless:
  `FormatLimits.RoomForSingleBlock`.
- EraseUnRefEntries is documented with the prerequisite that no entry is referenced
  (include/rocksdb/cache.h:266-268). The CLOCK shard does not need it: it takes referenced entries out of
  the cache as well (clock_cache.cc:691-701), and they are freed on release. The invariant is proved
  without the prerequisite.
- EvictFromCache is documented to evict until there is enough capacity and to return true on success
  (clock_cache.cc:334-336). It does not test the usage again after its last probe (clock_cache.cc:537-543), so
  a call may fail although that probe has made the room. `ClockEviction.EvictFromCache` gives the exact
  condition for success, `Fits`, and `LastProbeIsNotTested` a family of inputs.

## Left out

- Uncompress.InternalUncompress: for a source that may show 2^32 bytes or more at once, but not always all it has, nothing is claimed about success, because it depends on where the pieces end.
- Uncompress.RawUncompress: the same, for its Source overload.
- Uncompress.IsValidCompressed: the same, for its Source overload.
- Uncompress.RawUncompressToIOVec: the same, for its Source overload.
- Decompressor.SnappyDecompressor.DecompressAllTags: the same; such a source is on the course `Unknown`.
- Decompressor.SnappyDecompressor.StitchMore: where the original's loop would go round forever without progress (a flat source whose length is 0 in 32 bits), the model leaves the loop without success, since every method here terminates.
- Uncompress.Uncompress: what a sink has received after a failed decompression is not stated; of sinks, those with a flat buffer and those that take the scattered blocks are modelled.
- Compressor.Compress: the only sink is UncheckedByteArraySink; a sink that hands out its own memory and copies elsewhere is not modelled.
- BlockCompressor.GetHashTable: the small table inside WorkingMemory and the large one are one array of the same size; reuse of old contents does not arise because it is cleared.
- BlockCompressor.HashBytes: the shift derived with Log2Floor is stated as taking the top bits.
- SinkSource.Source.Peek: returns bytes, so the lifetime of the memory a source shows is not modelled.
- SinkSource.Source.Skip: for a skip past the end, which the original leaves undefined, there is a precondition instead.
- The std::string overloads, UncompressAsMuchAsPossible, the C interface, the big-endian loads and the SSE paths of Snappy.
- ClockSafety.EveryRunIsSafe: each atomic operation is one step in one order for everybody; reorderings that weaker memory orders allow are not modelled.
- ClockSafety.HeldValueIsAlive: a caller holds one handle per activity and gives it up by Release; Ref on a handle that is already held, and Release with force_erase, which goes on to read the handle's key after giving up the reference, are not modelled.
- ClockSafety.UsageIsNotNegative: usage and charge are unbounded above; pinned_usage_, the destructor and ApplyToAllCacheEntries are not modelled.
- ClockEviction.EvictFromCache: what failure means is stated for a call that nobody disturbs; with lookups in between, which set usage bits, a failed call may leave unreferenced entries behind. The bound on the probes and what success means hold in every run (`AtMostTwoRounds`, `SuccessMeansRoom`).
- LruTable.LRUHandleTable.Resize: the bucket array is a field holding a sequence; the bucket is the remainder by the length, which for powers of two is the original's mask. Lengths and counts are unbounded.
- LruCache.LRUCacheShard.Insert: the charge is one number fixed with the entry (key metadata included), the value is not modelled, and what the original does under the mutex is one step. Reference counts do not wrap. A key is not empty, as the original asserts.
- LruCache.LRUCacheShard.constructor: the settings are stored at once instead of through SetCapacity; the destructor, ApplyToAllCacheEntries and the printable options are not modelled.
- ShardedCache.Cache.GetUsage: reads all shards at one moment; the original locks one after the other.
- CacheRuns.Run: one client, whose requests follow one another; requests that overlap in time are serialised by the shards' mutexes, which are not modelled.
- ShardedCache.Cache.Lookup: the hash is part of the key, any number below 2^32; the hash function itself, statistics, NewId, Ref, the total pinned usage and the rounding of a negative number of shard bits are not modelled.
- Everything else: the storage engine itself and the Node.js binding, which call these components.
