# A verified model of the bitcask store

This project models the storage engine of the repository, a log-structured key/value store, and
proves that it behaves like a plain map, together with its smaller stateful parts: the LRU cache,
the Bloom filter, the write batch and the integer codec.

`dafny verify dfyconfig.toml` checks everything.

## What is modelled

A segment is the byte string that `Segment.Append` builds; a directory is a map from file ID to
bytes plus an optional hint file; the index maps a key to the byte location of its latest record.
No value is kept beside the bytes: `Get`, `Merge` and `Open` read through offsets, parse the frame
and check its checksum.

| files | part |
|---|---|
| `Bytes`, `Order` | big-endian integers, the byte-wise order of keys, sorted listings |
| `Crc32`, `Crc32Division` | the CRC-32 in the reflected register form of section 8 of RFC 1952, and its definition in section 3.2.9 of IEEE 802.3, a long division over GF(2) |
| `Entry`, `Reader`, `Segment` | frames, the streaming reader, segment files and their names |
| `Index` | the in-memory index and its hint file |
| `StoreModel`, `Store` | the store operations as state transformers, and the store object proved to perform them |
| `StoreInvariant`, `StoreMerge`, `StoreRefinement`, `StoreRuns`, `StoreCrash`, `StoreRecovery`, `StoreLimits`, `StoreTheorems`, `StoreEffects` | the invariant, compaction, refinement of a map over whole runs, crash points, runs with crashes, writes beyond the limits, the results for every reachable state, and what one call changes in it |
| `Iter` | sorted iteration and binary search |
| `Cache`, `CacheLaws`, `CacheInclusion` | the LRU cache, its agreement with a map, inclusion between two capacities |
| `Popcount`, `Bloom`, `BloomFormat`, `BloomLaws` | the bit-parallel popcount, the Bloom filter, its serialised form, its exact answer and counting bound |
| `Batch` | the write batch and its deduplication |
| `Codec` | varints (unsigned LEB128, section 7.6 of DWARF Version 5) and zig-zag integers |

Code that changes state is a class with methods and loops. Each method is proved equal to a
function of the old state (`View()` is the abstract value of an object), and the laws are lemmas
about those functions that say what they mean in other terms: bytes of a file, members of a list,
positions of a key. Go's 64-bit wrap-around, truncating conversions and 32-bit length fields
are written out.

### Main results

- **The store is a map.** From an empty directory, over any sequence of Put, Delete, Get, Merge,
  rotation, Close and Open in which Open meets no hint or a fresh one, every reply is that of a
  plain map, and the index is what a scan of the segment bytes rebuilds
  (`StoreRuns.StoreRefinesMap`). Over all runs, stale hints included, replies are those of a map
  that Open resets to the copy saved by the last Merge (`StoreRuns.EveryRun`). When exactly Close
  and Open keep the map is `StoreRuns.ReopenExact`.
- **Crashes are part of the runs.** The same holds when the store also crashes, any number of times
  and between or inside Put, Delete and Merge, and is opened again after each crash
  (`StoreRecovery.EveryRunWithCrashes`). The results of `StoreTheorems` hold in every state such
  runs reach.
- **Merge is canonical** and never grows the log (`StoreTheorems.MergeIsCanonical`). After a crash
  at any step of a Merge with live keys, or inside an append or the hint, Open fails or brings back
  the current map, or, as long as an older hint file is there, the map that hint stands for
  (`StoreTheorems.CrashWhileCopying` and the lemmas beside it); how long the reopened store then
  behaves as the map is stated exactly.
- **One call, told from outside**: which bytes, index entry and segments a Put changes, and that it
  starts a new segment if and only if its record does not fit under the limit
  (`StoreEffects.PutEffect`); what reading the segment that Merge wrote delivers
  (`StoreEffects.MergedScan`).
- **The checksum is that of IEEE 802.3**: the reflected register computes the complemented remainder
  of a long division over GF(2), for every byte string (`Crc32Division.ChecksumIsRemainder`).
- **Every error burst of at most 32 bits is detected** in a message of any length
  (`Crc32.BurstDetected`), proved on the bits of the CRC, and lifted to damaged frames
  (`LogReader.NextOnDamagedFrame`, `LogEntry.DecodeDamaged`).
- **Any cut of any log** scans to exactly the records before the cut (`LogReader.TruncatedScan`).
- **A larger LRU cache includes a smaller one** on the same trace (`CacheInclusion.Inclusion`), and
  what a Put or a Resize evicts is always what was used least recently (`CacheLaws.EvictsOldest`,
  `CacheLaws.ResizeExact`).
- **The Bloom filter's answer is exact** over any history of adds, unions, resets and serialisation:
  yes if and only if every position of the key is a position of some key it holds
  (`BloomLaws.MayContainExact`), hence no false negatives; its fill is bounded
  (`BloomLaws.FillBound`).
- **Formats byte by byte, both ways**: frames, hint files, filter streams, segment names and varints
  are laid out as stated, and whatever a reader accepts from any source is what was stored
  (`LogEntry.FrameBytes`, `LogReader.NextSound`, `KeyIndex.HintLayout`, `KeyIndex.LoadedIsLast`,
  `BloomFormat.ParseExact`, `Codec.ReadsExact`).

### Where the code differs from its documentation

The model follows the code.

- A frame starts with 17 bytes: 4 of checksum, then 13 of header of which the last four are always
  zero (internal/log/entry.go:26, 57-63). The package comment lists 13 in all, and the comment on
  the header counts one reserved byte.
- `Decode` checks the checksum of a header that it encodes again from the parsed fields
  (internal/log/entry.go:123-124), `Next` that of the header bytes as stored
  (internal/log/reader.go:64-67). So `Decode` accepts a frame whose four reserved bytes were
  damaged, or whose tombstone byte went from 0 to a value other than 1: `LogEntry.DecodeDamaged`
  says exactly when, `LogEntry.DamageUnnoticed` gives both inputs for every record, and
  `LogReader.NextOnDamagedFrame` says that `Next` never does. The promise that any bit flip in a
  stored record is detected on read does not hold for `Decode`.
- `Decode` never returns the end-of-log condition its comment mentions
  (internal/log/entry.go:106-113): a short input is corrupt.
- `Next` reports a clean end of log when the log was cut right after the 17-byte prefix of a record
  (internal/log/reader.go:56-61): `LogReader.TruncatedScan` has this case. A directory without a hint
  then reopens without an error, but the 17 bytes stay in front of what is appended next, and the
  scan takes those bytes for the missing payload, so that the Open after that fails, or invents a record if
  they happen to have its checksum: `StoreTheorems.WriteAfterTear`. A Merge in between repairs the log.
- `Open` takes the hint file without replaying what was written after it
  (internal/store/store.go:112-116), so a write after a Merge is lost by reopening:
  `StoreTheorems.WriteAfterMerge`, with a concrete run in `StoreRuns.LostWriteExample`.
- A Merge without live keys goes back to file ID 1 (internal/store/merge.go:133), although the
  comment on `Merge` promises an ID above every earlier one: `StoreTheorems.MergeNumbering`.
- `Delete` never rotates (internal/store/store.go:211-234), and neither does `Merge`, although the
  option promises a fresh segment once the active one has grown past its limit
  (internal/store/store.go:38-40). After a Put the active segment is always within the limit
  (`StoreTheorems.PutWithinLimit`); after a Delete exactly when its record still fits, and after a
  Merge exactly when the live records do (`StoreTheorems.DeleteAndMergeWithinLimit`).
  `StoreTheorems.DeletePastLimit` is an input.
- `Put` accepts payloads above 2^30 bytes (internal/log/entry.go:95-104), which `Get` reads back but the
  scan in `Open` takes for corruption (internal/log/reader.go:51-54): `StoreTheorems.OversizedWrite`.
- `Put` and `Merge` accept keys above 2^24 bytes, but the hint that Merge writes is then refused by
  its own loader, and the next Open fails (internal/index/index.go:230-232):
  `StoreTheorems.OversizedKey`, and for any index `StoreLimits.MergeReopens`.
- `Prefix` compares the end of the key (internal/store/store.go:182-184): `Iter.PrefixComparesTheEnd`.
- `Resize` to zero keeps the cached entries (internal/cache/cache.go:165-168) while `Put` is then
  ignored, so an outdated value can come back: `CacheLaws.StaleAfterDisable`; exactly when is
  `CacheLaws.AlwaysLatest`.
- `Discard` drops the operations but not the size (internal/batch/batch.go:118-124).
- `ReadFrom` accepts a bit count that makes its own word count wrap around to zero
  (internal/bloom/bloom.go:184-187): `BloomFormat.ParsedUsable`, with an input in
  `BloomFormat.ParsedWithoutWords`.
- `ReadVarint` accepts longer forms than `EncodeVarint` writes: `Codec.CanonicalIff`.

### Limits under which the store is used

The run theorems assume no I/O errors, payloads of at most 2^30 bytes (the reader refuses more), keys
of at most 2^24 bytes and at most 2^28 live keys at a Merge (the hint loader refuses more), file IDs
below 10^10 (names with more digits are not recognised), sizes that fit an int64, and that Open is
called on a directory that no open store is using. `StoreRefinement.Allowed` states them.

## Model

| member | source | states |
|---|---|---|
| Bytes.GetPutBE | internal/log/entry.go:58-59 | a big-endian integer that fits its field reads back |
| Bytes.PutGetBE | internal/log/entry.go:69-70 | every field is the encoding of its value, so equal values mean equal bytes |
| Bytes.Int64RoundTrip | internal/index/index.go:224-226 | an int64 survives conversion to uint64 and back |
| Bytes.PutBEDigit | internal/log/entry.go:58-59 | byte i of n is the digit of weight 256^(n-1-i): the most significant byte comes first |
| Bytes.PutBETruncates | internal/log/entry.go:96 | a value too wide for its field is written modulo 256^n |
| Bytes.ConversionsWrap | internal/index/index.go:201-203 | uint64 and int64 conversions keep the value modulo 2^64, the latter in the signed range |
| Crc32.PolynomialValue | internal/log/entry.go:98 | the polynomial of IEEE 802.3, reflected, is the constant 0xEDB88320 of RFC 1952 |
| Crc32.UpdateIsBitSerial | internal/log/entry.go:98 | the byte-wise register of RFC 1952 equals the bit-serial one over the whole message |
| Crc32.ChecksumByByte | internal/log/entry.go:98 | the byte-wise algorithm of RFC 1952 computes the checksum; what that checksum is states Crc32Division.ChecksumIsRemainder |
| Crc32.FeedBack | internal/log/entry.go:98 | one register step can be undone: agreement after the step gives the same mixed bit and agreement on one more bit before it |
| Crc32.BurstInjective | internal/log/entry.go:98 | from one state, different bit strings of at most 32 bits reach different states |
| Crc32.StateInjective | internal/log/entry.go:98 | a fixed message never merges two states |
| Crc32.BurstDetected | internal/log/entry.go:6-8 | two messages of any length that differ only inside 32 consecutive bits and have one checksum are equal |
| Crc32.FourBytesDetected | internal/log/entry.go:6-8 | two messages that differ only inside 4 consecutive bytes have one checksum if and only if they are equal |
| Crc32Division.ChecksumIsRemainder | internal/log/entry.go:98 | for every byte string: the message bits in transmission order, the first 32 complemented, times x^32, divided by the generating polynomial over GF(2); the checksum is the complement of the remainder, its highest power in the lowest bit |
| Crc32Division.DivisionExact | internal/log/entry.go:98 | that division is exact: the dividend is the quotient times the polynomial plus the remainder |
| LogEntry.PutUint32 | internal/log/entry.go:58-59 | writes exactly the four bytes of the field, truncated to 32 bits, and leaves the rest of the buffer |
| LogEntry.EncodeHeader | internal/log/entry.go:56-64 | the 13 header bytes, the last four of them zero |
| LogEntry.Encode | internal/log/entry.go:95-104 | the buffer built in place is the frame of the record |
| LogEntry.FrameLayout | internal/log/entry.go:95-104 | where checksum, lengths, tombstone, key and value lie in a frame, and that the checksum covers all behind it |
| LogEntry.FrameBytes | internal/log/entry.go:95-104 | every byte of every frame: checksum and lengths as big-endian digits, lengths modulo 2^32, 1 or 0 for the tombstone, four zeros, key, value |
| LogEntry.DecodeFrame | internal/log/entry.go:110-133 | decoding a frame gives its record back, whatever follows |
| LogEntry.DecodeSound | internal/log/entry.go:110-133 | everything accepted is the frame of what is returned, up to the tombstone and reserved bytes |
| LogEntry.DamagedRawChecksum | internal/log/entry.go:6-8 | after damage inside 4 bytes of checksum or of tombstone, reserved, key and value, stored and recomputed checksum differ |
| LogEntry.DecodeDamaged | internal/log/entry.go:110-133 | on a damaged frame Decode succeeds exactly when checksum, payload and meaning of the tombstone byte are intact, and then returns the original record; otherwise it reports a checksum error |
| LogEntry.DamageUnnoticed | internal/log/entry.go:110-133 | in the frame of every record Decode misses a changed reserved byte, and a tombstone byte of 2 where it was 0 |
| LogReader.Reader.ReadFull | internal/log/reader.go:39-47 | full, empty and partial reads, and the bytes consumed by each |
| LogReader.Reader.Next | internal/log/reader.go:36-83 | result, bytes consumed and position of one call, for every stream and position |
| LogReader.NextOnFrame | internal/log/reader.go:36-83 | a whole frame is delivered with its offset and size, whatever surrounds it |
| LogReader.NextStable | internal/log/reader.go:36-83 | a delivered record is delivered the same when more bytes follow |
| LogReader.NextSound | internal/log/reader.go:49-82 | on any stream, a delivered record is the bytes at that place: the checksum matches, and lengths, key, value and tombstone are those stored |
| LogReader.NextFails | internal/log/reader.go:36-69 | which error Next gives, if and only if which bytes are there, and how far the stream has then been read |
| LogReader.ScanThrough | internal/log/reader.go:36-83 | scanning a clean log followed by anything is scanning the two in turn |
| LogReader.ScanAppend | internal/log/segment.go:121-136 | one more Append adds one entry, at the old length, and keeps the log clean |
| LogReader.ScanRoundTrip | internal/log/reader.go:36-83 | scanning any list of appended records gives that list with the offsets and sizes Append returned, then end of log |
| LogReader.NextOnTornFrame | internal/log/reader.go:39-61 | the outcome on every proper prefix of a frame: end of log at 0 and 17 bytes, corrupt otherwise |
| LogReader.NextAfterTear | internal/log/reader.go:36-69 | the outcome of Next on a 17-byte prefix followed by anything: end of log, corrupt when the payload does not fill, checksum error unless the bytes match |
| LogReader.RestInvented | internal/log/reader.go:56-82 | when those bytes have the torn checksum, the scan delivers a record made of them and goes on behind it |
| LogReader.TruncatedScan | internal/log/reader.go:36-75 | for any cut of any log: exactly the records wholly before the cut, the position at the end of the last one, end of log at a boundary or 17 bytes past one and corrupt elsewhere |
| LogReader.NextOnDamagedFrame | internal/log/reader.go:63-69 | a damaged frame anywhere in a log is a checksum error |
| LogReader.NextOnOversizedFrame | internal/log/reader.go:51-54 | an intact frame with a payload above 2^30 bytes is reported corrupt |
| LogSegment.ParseSegmentID | internal/log/segment.go:33-51 | accepts exactly ten digits followed by .log, with their value |
| LogSegment.NameRoundTrip | internal/log/segment.go:22-51 | a segment name parses back to its ID if and only if 0 <= ID < 10^10, and to nothing otherwise |
| LogSegment.ParsedIsName | internal/log/segment.go:33-51 | every name that parses is the name of its ID |
| LogSegment.NameDigits | internal/log/segment.go:22-24 | the name of an ID below 10^10 is its ten decimal digits, most significant first, and .log |
| LogSegment.ReadFrameAt | internal/log/segment.go:180-198 | reading at the offset Append returned gives the record back, whatever surrounds it |
| LogSegment.ReadStable | internal/log/segment.go:180-198 | a readable record reads the same after any later appends |
| LogSegment.ReadSound | internal/log/segment.go:180-198 | a point read of any bytes runs short if and only if prefix or stored lengths reach past the end; what it accepts is the frame at that place up to the tombstone and reserved bytes |
| LogSegment.EntriesReadBack | internal/log/segment.go:121-198 | each record of an appended log is found at the offset the scan reports, also after later appends |
| LogSegment.ReadDamagedAt | internal/log/segment.go:180-198 | reading a damaged frame in place fails or gives the original record |
| LogSegment.Segment.constructor | internal/log/segment.go:56-73 | creates a missing file empty and keeps an existing one |
| LogSegment.Segment.OpenReadOnly | internal/log/segment.go:77-94 | opens an existing file and changes nothing; fails on a missing one |
| LogSegment.Segment.Append | internal/log/segment.go:121-136 | the file grows by exactly the frame; the offset is the old length, the size the length of the frame; a closed segment gives an error and changes nothing |
| LogSegment.Segment.Close | internal/log/segment.go:149-158 | the handle is closed, also when it already was |
| LogSegment.Segment.ReadAt | internal/log/segment.go:162-170 | reads the file at the offset, or fails on a closed segment |
| Order.SortedUnique | internal/index/index.go:93-103 | a set has one ascending listing only, so results do not depend on map order |
| Order.KeyLessMeaning | internal/index/index.go:101 | a key is below another if and only if it is a proper prefix of it or smaller at the first byte that differs |
| KeyIndex.Index.Get | internal/index/index.go:45-50 | the location of a tracked key, the zero location otherwise |
| KeyIndex.Index.Put | internal/index/index.go:53-57 | changes the entry of one key only |
| KeyIndex.Index.Keys | internal/index/index.go:94-103 | the tracked keys, each once, in the ascending order that Order.KeyLessMeaning describes |
| KeyIndex.Index.LiveEntries | internal/index/index.go:120-129 | the keys without a tombstone in that order, each with its location |
| KeyIndex.Index.WriteHint | internal/index/index.go:147-167 | the bytes are a function of the contents of the index |
| KeyIndex.Index.LoadHint | internal/index/index.go:171-191 | replaces the index by what the bytes say, or fails and leaves it as it was |
| KeyIndex.HintRoundTrip | internal/index/index.go:147-239 | loading a written hint restores the index, tombstones included and whatever follows, if and only if it has at most 2^28 keys of at most 2^24 bytes |
| KeyIndex.HintPrefixRejected | internal/index/index.go:171-239 | every strict prefix of a hint file is rejected |
| KeyIndex.HintLayout | internal/index/index.go:147-167 | a hint file is the count in eight big-endian bytes and then the entries of all keys in ascending order, back to back, with nothing behind them |
| KeyIndex.EntryLayout | internal/index/index.go:198-213 | every byte of an entry: key length, file ID, offset and size as big-endian digits modulo 2^32 and 2^64, 1 or 0 for the tombstone, the key |
| KeyIndex.ReadEntrySound | internal/index/index.go:216-239 | an entry read from any file is what is stored there up to the tombstone byte; reading fails if and only if the file ends inside the entry or the key is over 2^24 bytes |
| KeyIndex.LoadedIsLast | internal/index/index.go:171-191 | loading any file succeeds if and only if it holds a count of at most 2^28 and that many readable entries; the index then maps each key in them to the location in its last entry |
| StoreInvariant.IndexStable | internal/store/store.go:148-179 | while segments only grow, every location of the index keeps its record and the map it denotes |
| StoreInvariant.AppendGood | internal/store/store.go:159-167 | appending a record and indexing it changes the denoted map by that record |
| StoreInvariant.AppendSizes | internal/store/store.go:159-167 | how live bytes and total bytes change with an append |
| StoreInvariant.ReplayAppend | internal/store/store.go:125-146 | a scan after an append to the last segment gives the old scan updated by the record |
| StoreInvariant.ReplayNewSegment | internal/store/store.go:288-298 | an empty segment with the largest ID does not change the scan |
| StoreMerge.CopyOneIsAppend | internal/store/merge.go:61-78 | one round of the copying loop reads the live value back intact and appends it |
| StoreMerge.CopyLiveGood | internal/store/merge.go:60-78 | after any number of rounds: the new segment is the canonical log of the keys copied, the new index denotes their old values, and a scan of the new segment gives the new index |
| StoreMerge.MergedSegment | internal/store/merge.go:60-78 | the finished new segment alone denotes the whole map, its bytes depend on the map only and number the live bytes |
| StoreMerge.HintGood | internal/store/merge.go:85-88 | the hint of such an index loads back to it |
| StoreRefinement.AppendRel | internal/store/store.go:159-167 | an append keeps the refinement relation, with the hint's saved map unchanged |
| StoreRefinement.RotateRel | internal/store/store.go:288-298 | rotation keeps the refinement relation |
| StoreRefinement.GetRel | internal/store/store.go:188-207 | Get through segment bytes answers what the map answers |
| StoreRefinement.MergeLiveRel | internal/store/merge.go:28-112 | a Merge with live keys succeeds, keeps the map and saves it in the hint |
| StoreRefinement.RunCore | internal/store/store.go:150-298 | without a clean log, every run with no Open before a Merge still answers as the map |
| StoreRefinement.StepRel | internal/store/store.go:68-298 | every operation answers as the abstract map and keeps the relation |
| StoreRefinement.RunRel | internal/store/store.go:68-298 | the same for every run from related states |
| StoreRuns.EveryRun | internal/store/store.go:68-298 | from an empty directory every run answers as a map that Open resets to the saved copy, if there is one |
| StoreRuns.HintStaysReadable | internal/store/store.go:111-121 | whenever a hint exists, each of its locations still reads a live record of its key and together they denote the map as of the Merge that wrote it |
| StoreRuns.StepReplayed | internal/store/store.go:125-146 | every operation keeps the index equal to a scan of the segments in file-ID order, unless Open meets a stale hint |
| StoreRuns.FreshRun | internal/store/store.go:68-298 | the run theorem from any related state |
| StoreRuns.StoreRefinesMap | internal/store/store.go:59-62 | with absent or fresh hints every reply is that of a plain map, and the index equals a scan |
| StoreRuns.ReopenExact | internal/store/store.go:111-121 | Close and Open give the current map back if and only if there is no hint or the map is what it was when the hint was written; otherwise they give the saved one |
| StoreRuns.LostWriteExample | internal/store/store.go:112-116 | a concrete run that a plain map answers differently |
| StoreTheorems.MergeIsCanonical | internal/store/merge.go:12-17 | from every reachable state with live keys, Merge leaves one segment with an ID above all earlier ones, holding the canonical log of the map, whose length is the live bytes and at most all bytes before |
| StoreTheorems.MergeNumbering | internal/store/merge.go:15-16 | the active ID rises above every earlier one if and only if there is a live key; otherwise it is 1 |
| StoreTheorems.CrashWhileCopying | internal/store/merge.go:60-83 | stopping after any number of copied records and reopening gives a store that behaves, on every later run, as if Merge had not started |
| StoreTheorems.CrashInsideHint | internal/store/merge.go:85-88 | stopping anywhere inside the hint write makes Open fail |
| StoreTheorems.CrashWhileRemoving | internal/store/merge.go:90-105 | once the hint is complete, the reopened store behaves as the map did, whichever old segments are gone |
| StoreTheorems.CrashInsideWrite | internal/store/store.go:159 | a Put or Delete cut after n bytes: with a hint or at n = 0 the reopened store behaves on every later run; at 17 bytes until it is opened again without a Merge in between; otherwise Open fails |
| StoreRecovery.CrashRel | internal/store/store.go:68-122 | Open succeeds after every survivable crash, and the store it returns is related to the map with the writes whose records are whole, or to the one an older hint stands for |
| StoreRecovery.EveryRunWithCrashes | internal/store/store.go:59-62 | from an empty directory, over any run of calls and crashes, each followed by Open, every reply is that of such a map |
| StoreTheorems.CrashInsideCopy | internal/store/merge.go:72 | the same for the append of any record that Merge copies |
| StoreTheorems.WriteAfterTear | internal/log/reader.go:56-82 | what Open does after a cut at 17 bytes without a hint and one more record, in every case: corrupt when the record is shorter than the torn payload, checksum error when its bytes do not match, otherwise an invented record and the outcome of the scan behind it |
| StoreTheorems.WriteAfterMerge | internal/store/store.go:112-116 | Merge, Put, Close, Open, Get answers what Get answered before the Put, from every reachable state with live keys |
| StoreTheorems.OversizedWrite | internal/store/store.go:150-179 | from every reachable open state a Put of any encodable size succeeds and Get finds it, rotation included; without a hint the directory then opens again if and only if the payload has at most 2^30 bytes |
| StoreCrash.CopyingRel | internal/store/merge.go:60-78 | each record copied by Merge acts as one more write of the value its key already has |
| StoreCrash.RemovedAll | internal/store/merge.go:90-105 | the last of these points is the directory the finished Merge leaves |
| StoreLimits.MergeReopens | internal/index/index.go:171-239 | after a Merge of any located index the directory opens again if and only if there are at most 2^28 live keys and none is above 2^24 bytes |
| StoreTheorems.OversizedKey | internal/index/index.go:230-232 | a Put of any encodable key and a Merge after it succeed; the directory then opens again if and only if the key has at most 2^24 bytes |
| StoreTheorems.PutWithinLimit | internal/store/store.go:173-177 | after a Put the active segment is within MaxFileSize, in every reachable open state |
| StoreTheorems.DeleteAndMergeWithinLimit | internal/store/store.go:38-40 | after a Delete the active segment is within MaxFileSize if and only if the record still fits, after a Merge if and only if the live records do |
| StoreTheorems.DeletePastLimit | internal/store/store.go:211-234 | a reachable store within its limit that a Delete takes past it |
| StoreEffects.PutEffect | internal/store/store.go:150-179 | from every reachable open state: the active file grows by the frame, the index points the key at it, all other files and the hint stay; active segment and segments are kept if and only if there is no limit or old length + 17 + key + value is within it, otherwise one empty segment above all others is added and active |
| StoreEffects.DeleteEffect | internal/store/store.go:211-234 | the same for a tombstone, with the segments always kept |
| StoreEffects.FailedCalls | internal/store/store.go:150-158 | Put and Delete fail exactly on a closed store or an empty key, Get and Merge on a closed store, and then change nothing; a Merge that fails on an open store leaves index, segments, hint and old files alone |
| StoreEffects.MergedScan | internal/store/merge.go:60-78 | scanning the segment Merge has written delivers the live keys in ascending order, each once, with its value, and ends cleanly |
| StoreEffects.OpenedIs | internal/store/store.go:68-122 | the opened store keeps the caller's limit and the hint; its segments are exactly the files with a ten-digit ID, the greatest active, or a new segment 1 when there is none |
| Store.Store.Put | internal/store/store.go:150-179 | the object performs the modelled step, rotation and errors included; what that step changes states StoreEffects.PutEffect |
| Store.Store.Delete | internal/store/store.go:211-234 | the same for Delete, which never rotates |
| Store.Store.Get | internal/store/store.go:188-207 | the reply read through index, segment and frame |
| Store.Store.MaxFileID | internal/store/store.go:300-308 | the largest open file ID, in any iteration order |
| Store.Store.RotateSegment | internal/store/store.go:288-298 | adds an empty segment above all open ones and makes it active |
| Store.Store.Close | internal/store/store.go:259-286 | closes the handle of every segment, empties the table and forgets the active segment, keeps the directory, and does nothing the second time |
| Store.Store.ResetAll | internal/store/merge.go:116-142 | removes all segments and the hint and starts over with file 1 |
| Store.Store.CopyRecords | internal/store/merge.go:61-78 | the loop computes the copied segment and index, and stops at the first failure |
| Store.Store.Promote | internal/store/merge.go:90-111 | removes exactly the old segments, in any order, and switches to the new one |
| Store.Store.Merge | internal/store/merge.go:18-112 | the object performs the modelled Merge, failures included |
| Store.Store.LoadIndex | internal/store/store.go:111-120 | the index of the hint file when there is one, of a scan otherwise |
| Store.Store.ScanIndex | internal/store/store.go:125-146 | the loops over segments and records compute the scan of the segment bytes |
| Store.Store.Open | internal/store/store.go:68-122 | opens the state the directory stands for, or fails without changing a segment |
| Store.ListSegments | internal/store/store.go:311-327 | of all directory entries, subdirectories and foreign files included, exactly the file IDs whose names parse, ascending |
| Iter.Iterator.Value | internal/store/iter.go:46-60 | the value read now; a read error sticks and ends the iteration, a deleted key yields nothing |
| Iter.Iterator.Seek | internal/store/iter.go:79-85 | binary search finds the first key not below the target, in the order of Order.KeyLessMeaning, and clears the error |
| Iter.Walk | internal/store/iter.go:27-43 | the loop over Valid, Key and Next visits exactly the entries from the position on |
| Iter.Range | internal/store/iter.go:103-115 | iterates exactly the live keys in [start, end), ascending |
| Iter.SeekVisits | internal/store/iter.go:20-85 | after Seek, stepping Next visits exactly the live keys not below the target, each once, ascending |
| Iter.StartVisits | internal/store/iter.go:20-35 | an unmoved iterator visits every live key once, ascending |
| Iter.PrefixComparesTheEnd | internal/store/store.go:182-184 | the filter holds if and only if the key ends with the prefix, and misses `user:1` under `user:` |
| Cache.LRU.Get | internal/cache/cache.go:40-58 | list, map and counters after a lookup, and its reply |
| Cache.LRU.Put | internal/cache/cache.go:62-80 | list, map and counters after an insertion, update or eviction |
| Cache.LRU.Delete | internal/cache/cache.go:83-91 | removes exactly one key from list and map |
| Cache.LRU.Clear | internal/cache/cache.go:104-109 | empties list and map, keeps the counters |
| Cache.LRU.EvictOldest | internal/cache/cache.go:171-178 | drops the last entry and counts it |
| Cache.LRU.Resize | internal/cache/cache.go:162-169 | the loop evicts from the end as the modelled step says; that this drops the least recently used states CacheLaws.ResizeExact |
| CacheLaws.RunWellFormed | internal/cache/cache.go:40-184 | after any run the keys are distinct and no more than a positive capacity |
| CacheLaws.RunAgrees | internal/cache/cache.go:40-91 | every cached value is the one the trace wrote last |
| CacheLaws.HitReturnsLatest | internal/cache/cache.go:40-91 | a hit returns the latest Put made while enabled, since the last Delete or Clear |
| CacheLaws.StepKeepsLatest | internal/cache/cache.go:62-72 | cached values stay the latest put, unless a disabled cache ignores a Put of a key it holds with another value |
| CacheLaws.AlwaysLatest | internal/cache/cache.go:38-91 | over a whole trace the cached values are always the latest put if and only if that never happens |
| CacheLaws.StaleAfterDisable | internal/cache/cache.go:160-169 | a concrete run that returns an outdated value after Resize to zero and back |
| CacheLaws.RunOrdered | internal/cache/cache.go:40-80 | the list is in order of last Put or Get hit |
| CacheLaws.EvictsOldest | internal/cache/cache.go:60-80 | a Put into a full cache drops exactly the entry whose last use is oldest |
| CacheLaws.ResizeExact | internal/cache/cache.go:162-178 | after Resize(n) there are n entries if 0 < n is less than before and as many as before otherwise, evictions count the difference, and every entry kept was used after every entry dropped |
| CacheLaws.GetExact | internal/cache/cache.go:40-58 | a lookup hits if and only if the cache is enabled and has the key; one hit or one miss is counted, the item found comes to the front, none is gained or lost |
| CacheLaws.PutExact | internal/cache/cache.go:62-80 | a disabled cache ignores a Put; otherwise the item is in front and every other one stays, unless a new key meets a full cache |
| CacheLaws.DeleteExact | internal/cache/cache.go:83-109 | Delete takes exactly the items with the key, Clear all, and nothing is counted |
| CacheLaws.EveryGetCounted | internal/cache/cache.go:40-58 | over any trace hits and misses add up to the number of lookups |
| CacheInclusion.StepIncluded | internal/cache/cache.go:40-109 | one operation keeps the inclusion between two caches |
| CacheInclusion.Inclusion | internal/cache/cache.go:40-109 | for capacities c <= d on one trace: entries of the smaller are a subsequence of the larger, shared keys have one value, hits(c) <= hits(d) |
| Popcount.TestBit | internal/bloom/bloom.go:89 | the mask test reads the bit at that position |
| Popcount.SetBit | internal/bloom/bloom.go:76 | or-ing a mask sets that bit and no other |
| Popcount.PopCount | internal/bloom/bloom.go:226-232 | the number of set bits |
| Popcount.PopCountIsCount | internal/bloom/bloom.go:228-231 | the three masked sums and the multiplication count the bits of every 64-bit word |
| Bloom.WordsCover | internal/bloom/bloom.go:41 | all word indexes are in bounds if and only if m <= 2^64 - 64 |
| Bloom.Filter.Add | internal/bloom/bloom.go:70-79 | sets the k positions of the key in place and counts it, modulo 2^64 |
| Bloom.Filter.Contains | internal/bloom/bloom.go:83-94 | true if and only if all k positions are set; which positions those are over any history states BloomLaws.MayContainExact |
| Bloom.Filter.Reset | internal/bloom/bloom.go:121-128 | the empty filter of the same shape |
| Bloom.Filter.Union | internal/bloom/bloom.go:235-249 | the union in place, or a refusal that changes nothing |
| Bloom.Filter.WriteTo | internal/bloom/bloom.go:142-166 | the serialised form and its length |
| Bloom.Filter.ReadFrom | internal/bloom/bloom.go:169-207 | the parsed filter and the bytes taken, or a failure that changes no filter field, with the bytes taken until then |
| Bloom.Filter.SetBits | internal/bloom/bloom.go:134-137 | the sum of the popcounts of all words |
| BloomLaws.SetHashesSets | internal/bloom/bloom.go:74-77 | which positions are set after an Add, both directions |
| BloomLaws.OrWordsSets | internal/bloom/bloom.go:244-246 | which positions are set after a Union, both directions |
| BloomLaws.PositionIs | internal/bloom/bloom.go:75 | position i is (h1 + i * h2) mod 2^64 mod m |
| BloomLaws.WordsExact | internal/bloom/bloom.go:41 | the words hold m bits with less than one word to spare |
| BloomLaws.BuildShape | internal/bloom/bloom.go:169-249 | m and k stay as created, except that ReadFrom takes over those of a filter of at most 2^34 bits |
| BloomLaws.BitsExact | internal/bloom/bloom.go:70-249 | over every history a bit is set if and only if it is a position of some key held |
| BloomLaws.MayContainExact | internal/bloom/bloom.go:83-94 | over every history the answer is yes if and only if each of the k positions of the key, given by the formula, is one of the k positions of some key held |
| BloomFormat.SerializeRoundTrip | internal/bloom/bloom.go:142-207 | ReadFrom after WriteTo restores the filter and takes exactly the bytes written, if and only if it has at most 2^28 words |
| BloomFormat.SerializeLayout | internal/bloom/bloom.go:142-166 | every byte of the stream: m, k, n and the words, eight bytes each, most significant first |
| BloomFormat.ParseExact | internal/bloom/bloom.go:169-207 | ReadFrom yields a filter if and only if the stream starts with the bytes WriteTo gives for it and it has at most 2^28 words |
| BloomFormat.FailureConsumes | internal/bloom/bloom.go:169-200 | a failing ReadFrom stops behind the header if no continuation of the stream could be accepted, and otherwise takes all of it |
| BloomFormat.ParsedUsable | internal/bloom/bloom.go:181-197 | every word index of a filter read from a stream is in bounds if and only if m <= 2^64 - 64 |
| BloomFormat.ParsedWithoutWords | internal/bloom/bloom.go:181-187 | a stream with m = 2^64 - 1 is accepted as a filter without any word |
| BloomLaws.NoFalseNegatives | internal/bloom/bloom.go:81-94 | over every history, MayContain holds for every key added to the filter or a united one since its last Reset |
| BloomLaws.OnesByWord | internal/bloom/bloom.go:134-137 | the sum over words counts the set positions |
| BloomLaws.FillBound | internal/bloom/bloom.go:131-139 | over every history the set bits number at most m and at most k times the adds, the counter is exact below 2^64, and padding bits stay zero |
| Batch.Batch.Put | internal/batch/batch.go:55-71 | appends the operation and adds the bytes of key and value to the size, or reports committed before discarded and changes nothing |
| Batch.Batch.Delete | internal/batch/batch.go:74-88 | the same for a removal |
| Batch.SizeOf | internal/batch/batch.go:69 | the size of a batch is zero when empty and grows by key and value with each operation |
| Batch.Batch.Discard | internal/batch/batch.go:119-124 | drops the operations and keeps the size, which is then right if and only if it was zero |
| Batch.Batch.Reset | internal/batch/batch.go:142-149 | a batch like a new one |
| Batch.Batch.Deduplicate | internal/batch/batch.go:165-188 | keeps exactly the last operation on each key, in order, and recomputes the size |
| Batch.Batch.Keys | internal/batch/batch.go:192-205 | the first-seen listing of the keys |
| Batch.EffectAt | internal/batch/batch.go:163-164 | applying a batch to any map is decided, key by key, by the last operation |
| Batch.AnyOrderSameEffect | internal/batch/batch.go:163-188 | the deduplicated operations, in any order, have the effect of the original batch on every map |
| Batch.DeduplicateMeaning | internal/batch/batch.go:163-188 | deduplication keeps the effect and every key's last operation, gives a subsequence with distinct keys, and is idempotent |
| Batch.FirstSeenKeys | internal/batch/batch.go:190-205 | Keys lists every key of the batch exactly once |
| Batch.FirstSeenOrder | internal/batch/batch.go:190-205 | keys are listed in the order of their first operation |
| Codec.EncodeVarint | internal/codec/codec.go:80-84 | the shortest base-128 form; ten bytes of buffer suffice for every uint64 |
| Codec.ReadVarint | internal/codec/codec.go:56-74 | value, count and error for every input; the value is the exact base-128 sum below 2^64, and exactly the reported bytes are consumed |
| Codec.NextDigit | internal/codec/codec.go:70 | placing a digit by or and shift loses no bit |
| Codec.ReadsUnique | internal/codec/codec.go:56-74 | an input has one outcome only |
| Codec.VarintLength | internal/codec/codec.go:80-84 | the encoding has at most n bytes if and only if the value has at most 7n bits |
| Codec.VarintRoundTrip | internal/codec/codec.go:56-84 | reading inverts encoding, whatever bytes follow |
| Codec.VarintByte | internal/codec/codec.go:80-84 | byte i holds bits 7i to 7i + 6 of the value, and its top bit is set except in the last byte |
| Codec.ReadsExact | internal/codec/codec.go:56-74 | reading succeeds if and only if the input starts with a terminated word below 2^64 in at most ten bytes; the value is then its base-128 sum, and zero otherwise; the input ends early if and only if it has fewer than ten bytes and no last one |
| Codec.CanonicalIff | internal/codec/codec.go:56-84 | an accepted input is what EncodeVarint writes if and only if it has no zero digit at its end |
| Codec.ZigZagMeaning | internal/codec/codec.go:174-176 | 2v for v >= 0 and -2v - 1 otherwise, from the shifts and exclusive or on 64-bit patterns |
| Codec.UnZigZagMeaning | internal/codec/codec.go:179-181 | the inverse formula, from the shift, negation and exclusive or |
| Codec.ZigZagBijection | internal/codec/codec.go:174-181 | encode and decode are inverse to each other, on all of int64 and uint64 |
| Codec.SignedRoundTrip | internal/codec/codec.go:56-181 | every int64 survives zig-zag, varint and back, in as few bytes as its magnitude needs |

## Left out

- File I/O, fsync, `os` errors and the SyncOnWrite option: the directory is a map, every operation on it succeeds, and a failed write does not occur.
- Mutexes and goroutines: every operation runs under one lock, so the model takes whole operations as steps.
- Crash points inside `resetToEmpty` (internal/store/merge.go:116-142): segments are removed in map order before the hint, so recovery there does not preserve the map; its completed effect is modelled.
- StoreRecovery.EveryRunWithCrashes: leaves out the crashes after which Open fails (a record cut without a hint at any byte but the first or the last, and a cut hint), and the cut at 17 bytes without a hint, whose later runs `StoreTheorems.CrashInsideWrite` and `StoreTheorems.WriteAfterTear` state.
- A second Open of a directory whose store is still open: the run theorems exclude it.
- The meaning the documentation gives to `Store.Prefix`: the code does not have it.
- `Count`, `FileIDs`, `Len`, `Capacity`, `Contains`, `Peek`, `Stats`, `ResetStats`, `Ops`, `Validate` and the other one-line accessors, and the index's `MarkDelete` and `Delete`, which the store never calls.
- The hash functions of the Bloom filter: they are arbitrary functions of the key. Its size formulas and estimates use floating point; m and k are taken as given.
- Damage to the length fields of a frame, and bursts longer than 32 bits: a CRC-32 does not promise to detect them.
- Snapshots and backups (internal/store/snapshot.go, internal/store/backup.go): tar, gzip and hard-link plumbing.
- `internal/keydir`, `internal/ttl`, `internal/config`, `internal/stats`, `internal/flock` and the command line.
- The fixed-width, floating-point and length-prefix helpers and `AppendVarint` and `DecodeVarint` of `internal/codec`: wrappers around the standard library.
- Aliasing of byte slices: keys and values are immutable sequences, so the copies the code makes to protect itself are not visible.
- StoreRuns.StoreRefinesMap: assumes fresh or absent hints at every Open, because with a stale hint the claim is false (`StoreRuns.LostWriteExample`); `StoreRuns.EveryRun` covers those runs too.
- CacheInclusion.Inclusion: the trace has no Resize, which would give both caches one capacity.
