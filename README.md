# Commit-log storage engine in Dafny

This project models the storage engine of a segmented, append-only commit
log. Records are appended to the log and get consecutive offsets. The log is
a list of segments, each covering the offsets `[baseOffset, nextOffset)`.
Only the last segment, the active one, takes appends. When an append leaves
it maxed, the log starts a new segment at the next offset.

Each segment pairs a store with an offset index:

- The store is an append-only byte file. Each record is framed by an 8-byte
  big-endian length.
- The index is a memory-mapped file pre-sized to `MaxIndexBytes`. It holds
  12-byte entries: a big-endian `uint32` relative offset, then a big-endian
  `uint64` store position. A logical `size` counts the bytes in use.

The modules follow the program's structure:

- `Wrappers`: `Option`, `Result`, `Outcome` and the engine's error values.
- `BigEndian`: fixed-width unsigned integers and `encoding/binary.BigEndian` as `Encode`/`Decode`.
- `LogConfig`: the configuration (`MaxStoreBytes`, `MaxIndexBytes`, `InitialOffset`).
- `OffsetIndex`: the index of `Lab3_Go/internal/log/index.go`. The class `Index` keeps the map as an `array<byte>` and has a `size` field. `Read` and `Write` are proved against `Entries()`, the entries the first `size` bytes decode to.
- `Store` and `Segments`: the store and the segment. Their Go files are not part of this model. They are modelled abstractly, as the log and the tests use them.
- `Sorting`: the ascending sort of `setup` and its every-other loop.
- `SegmentList`: the log's operations as functions over a sequence of segments (`ReadSpec`, `AppendSpec`, `Truncated`, `SetupSegments`, `ConcatStores`). It holds the lemmas about them.
- `CommitLog`: the `Log` class of `Lab2_Go/log/log.go`, with its `segments` sequence and its active-segment position. Each method is proved to compute the matching `SegmentList` function. The module ends with the log tests' scenarios.

Go's conversions are written out where they matter:

- `uint32(input)` in `index.Read` keeps the low 32 bits, so it is `input % 2^32`. This includes the `uint64` underflow of `size/12 - 1` on a short index.
- `lowest + 1` in `Truncate` wraps modulo 2^64.

Offsets are unbounded naturals.

## Model

| member | source | states |
|---|---|---|
| BigEndian.DecodeEncode | Lab3_Go/internal/log/index.go:75-76 | decoding the `width` big-endian bytes of `x` gives back `x` |
| BigEndian.EncodeDecode | Lab3_Go/internal/log/index.go:84-85 | encoding a decoded byte string at its own width gives back the bytes |
| BigEndian.DecodeInjective | Lab3_Go/internal/log/index.go:75-76 | equal-length byte strings that decode to the same number are equal |
| BigEndian.EncodeFirstByte | Lab3_Go/internal/log/index.go:84-85 | the first byte written is the most significant: `x / 256^(width - 1)`, Go's big-endian order |
| BigEndian.Decode | Lab3_Go/internal/log/index.go:75-76 | the number decoded from `n` bytes is below 256^n, so 4 bytes give a `uint32` and 8 a `uint64` |
| OffsetIndex.EncodeEntry | Lab3_Go/internal/log/index.go:10-14 | an entry takes exactly `entryWidth` = 4 + 8 = 12 bytes |
| OffsetIndex.EntryRoundTrip | Lab3_Go/internal/log/index.go:75-76 | decoding the 12 bytes written for an entry gives back its offset and position |
| OffsetIndex.EntryBytesRoundTrip | Lab3_Go/internal/log/index.go:84-85 | re-encoding a decoded 12-byte chunk rebuilds the chunk |
| OffsetIndex.DecodeEntries | Lab3_Go/internal/log/index.go:66-67 | the index holds `size / 12` complete entries |
| OffsetIndex.DecodeEntriesAt | Lab3_Go/internal/log/index.go:71-76 | entry `i` is the decoding of bytes `[12i, 12i + 12)` |
| OffsetIndex.DecodeEntriesAppend | Lab3_Go/internal/log/index.go:84-86 | writing an entry at a 12-aligned `size` appends exactly that entry to the entries |
| OffsetIndex.Selected | Lab3_Go/internal/log/index.go:66-70 | the selected entry number agrees with the selector, or with `size/12 - 1` for `-1`, modulo 2^32: Go's `uint32` conversion keeps the low 32 bits |
| OffsetIndex.SelectedValue | Lab3_Go/internal/log/index.go:66-70 | a selector in `[0, 2^32)` selects itself; `-1` selects the last entry `size/12 - 1` |
| OffsetIndex.EntryFits | Lab3_Go/internal/log/index.go:71-74 | entry `slot` lies within `size` bytes exactly when `slot < size / 12` |
| OffsetIndex.PutBigEndian | Lab3_Go/internal/log/index.go:84-85 | `PutUint32`/`PutUint64` write the big-endian bytes at `at` and change no other byte |
| OffsetIndex.Index.constructor | Lab3_Go/internal/log/index.go:22-47 | `size` is the file's length, the map has `MaxIndexBytes` bytes, the file's bytes start it and zeros fill the rest |
| OffsetIndex.Index.Close | Lab3_Go/internal/log/index.go:49-60 | the file left on disk is the first `size` bytes of the map, so it decodes to the same entries |
| OffsetIndex.Index.Read | Lab3_Go/internal/log/index.go:62-78 | an empty index gives EOF and (0, 0) for every selector; otherwise it succeeds exactly when the selected entry fits in `size` and returns that entry; `Read(i)` returns the i-th entry written and `Read(-1)` the last; EOF always comes with (0, 0) |
| OffsetIndex.Index.Write | Lab3_Go/internal/log/index.go:80-88 | fails with EOF, changing nothing, exactly when `size + 12` exceeds the map; otherwise writes the entry's bytes at `[size, size + 12)`, leaves every other byte unchanged, adds 12 to `size` (so `size` stays a multiple of 12) and appends the entry to `Entries()` |
| OffsetIndex.CloseAndReopen | Lab2_Go/log/Index_test.go:52-63 | closing the index and opening it again on the same file gives the same `size` and the same entries |
| OffsetIndex.IndexScenario | Lab2_Go/log/Index_test.go:12-64 | on a new 1024-byte index, `Read(-1)` fails with EOF; entries (0, 0) and (1, 10) written then read back at 0 and 1; `Read(2)` fails; after closing and reopening, `Read(-1)` gives (1, 10) |
| Store.Frame | Lab2_Go/log/Store_test.go:15 | a record takes `lenWidth + len(payload)` bytes in the store |
| Store.FrameParts | Lab2_Go/log/Store_test.go:61-78 | a frame's first 8 bytes decode to the payload's length and the rest is the payload |
| Store.Append | Lab2_Go/log/Store_test.go:39-47 | an append returns the old file length as `pos`; `pos + n` is the new length; the old bytes are kept and the frame follows them |
| Store.Read | Lab2_Go/log/Store_test.go:49-59 | a read at `pos` succeeds exactly when the 8-byte length prefix and the payload it announces both lie within the file; the payload has the decoded length and is the bytes after the prefix; a short file gives EOF |
| Store.ReadAtCount | Lab2_Go/log/Store_test.go:61-79 | `ReadAt` copies at most the buffer's length and nothing past the end of the file; it fills the buffer or reaches the end of the file, and it copies fewer bytes than the buffer holds exactly when the read runs past the end |
| Store.ReadAt | Lab2_Go/log/Store_test.go:61-79 | the bytes copied are the file's bytes at `off`; the rest of the buffer is untouched; EOF is reported exactly on a short read |
| Store.FramesAppend | Lab2_Go/log/Store_test.go:39-47 | the frames of two record lists in a row are the frames of their concatenation |
| Store.ReadFrameAt | Lab2_Go/log/Store_test.go:49-59 | reading at the position where a frame starts gives that frame's payload |
| Store.FramesSplit | Lab2_Go/log/Store_test.go:49-59 | a store of frames is the frames before record i, then record i's frame, then the frames after it |
| Store.ReadFramed | Lab2_Go/log/Store_test.go:49-59 | reading a store of frames at the end of the first i frames gives record i |
| Store.FramesRepeatLength | Lab2_Go/log/Store_test.go:39-47 | `i` frames of the same payload take `i * width` bytes |
| Store.AppendWidths | Lab2_Go/log/Store_test.go:39-47 | after the i-th append of the same payload, `pos + n == width * i` |
| Segments.Open | Lab2_Go/log/segment_test.go:50-52 | a segment opened on existing files recovers their records and store bytes; elsewhere it starts empty with `nextOffset == baseOffset` |
| Segments.Append | Lab2_Go/log/segment_test.go:31-45 | an append always writes the frame to the store and keeps the base offset and the segment's validity |
| Segments.Read | Lab2_Go/log/segment_test.go:37-39 | an offset from the base offset up succeeds exactly below `nextOffset`, with the record at position `offset - baseOffset`, and fails with EOF above it |
| Segments.IsMaxed | Lab2_Go/log/log.go:84 | the rotation trigger: the store has reached `MaxStoreBytes` or the index `MaxIndexBytes`; SegmentList.AppendOffset states when it rotates |
| Segments.AppendAssignsNextOffset | Lab2_Go/log/segment_test.go:31-39 | an append succeeds exactly when the index has room; it then returns `nextOffset`, moves it up by one and makes the record readable at that offset, while earlier offsets read as before; otherwise it fails with EOF and keeps the offsets and records |
| Segments.AppendEach | Lab2_Go/log/segment_test.go:31-35 | a run of appends yields one result per record and a valid segment with the same base offset |
| Segments.AppendEachOffsets | Lab2_Go/log/segment_test.go:28-35 | while the index has room, successive appends return `nextOffset`, `nextOffset + 1`, … and the records are the old ones followed by the new ones |
| Segments.FullIndexRefusesAppend | Lab2_Go/log/segment_test.go:42-45 | once the index has no room, an append fails with EOF and leaves the records as they were; when the index limit is a whole number of entries, as `entryWidth * 3` is, the segment is then maxed |
| Segments.AppendKeepsFramed | Lab2_Go/log/segment_test.go:31-40 | after an append the store still begins with the frames of the indexed records, followed only by bytes of refused appends |
| Segments.ReadMatchesStore | Lab2_Go/log/segment_test.go:37-39 | reading offset `o` of the segment is reading its store at the position of record `o - baseOffset` |
| Sorting.Insert | Lab2_Go/log/log.go:56-58 | insertion keeps every element with its multiplicity and adds the new one |
| Sorting.InsertSorted | Lab2_Go/log/log.go:56-58 | inserting into an ascending sequence keeps it ascending |
| Sorting.Sort | Lab2_Go/log/log.go:56-58 | sorting permutes the base offsets |
| Sorting.SortSorted | Lab2_Go/log/log.go:56-58 | the sorted base offsets ascend |
| Sorting.SortedUnique | Lab2_Go/log/log.go:56-58 | two ascending permutations of the same offsets are equal, so the result does not depend on the directory's listing order |
| Sorting.EveryOther | Lab2_Go/log/log.go:59-64 | the loop that steps `i` twice visits positions 0, 2, 4, …, `(n + 1) / 2` of them |
| Sorting.EveryOtherSorted | Lab2_Go/log/log.go:59-64 | the offsets the loop visits ascend |
| SegmentList.ChainedSlice | Lab2_Go/log/log.go:157-167 | any contiguous run of a chained segment list is chained |
| SegmentList.FirstCovering | Lab2_Go/log/log.go:93-99 | the scan stops at the first segment with `baseOffset <= offset < nextOffset`, and finds none exactly when no segment covers the offset |
| SegmentList.ReadSpec | Lab2_Go/log/log.go:90-104 | Read succeeds exactly when some segment covers the offset; otherwise it fails with "offset out of range" |
| SegmentList.UniqueCover | Lab2_Go/log/log.go:94-99 | in a chained list the covering segment is unique, so the scan finds it |
| SegmentList.CoversOnce | Lab2_Go/log/log.go:94-99 | two segments of a chained list covering the same offset are the same segment |
| SegmentList.ReadableRange | Lab2_Go/log/log_test.go:52-56 | a chained log reads exactly the offsets from the first base offset up to, not including, the last next offset |
| SegmentList.AppendSpec | Lab2_Go/log/log.go:75-88 | an append writes to the last segment and only adds at the end of the list; with no active segment it fails and changes nothing |
| SegmentList.AppendOffset | Lab2_Go/log/log.go:79-87 | earlier segments are unchanged; the append succeeds exactly when the active index has room; a success returns the active `nextOffset` and adds the record; a failure is EOF and changes no records; a new segment, `Fresh(offset + 1)`, is added exactly when the success leaves the active segment maxed |
| SegmentList.AppendKeepsChained | Lab2_Go/log/log.go:84-86 | appending, with or without rotation, keeps base offsets ascending and each segment starting where the previous one ends |
| SegmentList.AppendThenRead | Lab2_Go/log/log_test.go:43-49 | after a successful append, Read of the returned offset gives the record back |
| SegmentList.AppendKeepsCovered | Lab2_Go/log/log.go:75-104 | an offset some segment already covered reads the same after an append |
| SegmentList.AppendKeepsUncovered | Lab2_Go/log/log.go:75-104 | an offset nobody covered, other than the one returned, is still out of range after an append |
| SegmentList.AppendKeepsOtherReads | Lab2_Go/log/log.go:75-104 | an append changes no read except that of the offset it returns |
| SegmentList.FullActiveStalls | Lab2_Go/log/log.go:79-82 | once the active index is full, appends fail with EOF, no rotation happens and the index stays full |
| SegmentList.DefaultIndexStalls | Lab2_Go/log/log.go:31-33 | with the default 1024-byte index, a segment of 85 records is not maxed by its index, yet the next append fails with EOF and leaves it so |
| SegmentList.AppendAll | Lab2_Go/log/log_test.go:62-65 | a run of appends yields one result per record and leaves a non-empty list of valid segments |
| SegmentList.AppendFromUnmaxed | Lab2_Go/log/log.go:79-87 | with positive limits and an index limit that is a whole number of entries, an append to an unmaxed active segment succeeds at its next offset |
| SegmentList.ConsecutiveOffsets | Lab2_Go/log/log_test.go:62-65 | on such a log, successive appends return consecutive offsets from the active segment's next offset (0, 1, 2, … on a new log), across rotations |
| SegmentList.Truncated | Lab2_Go/log/log.go:157-167 | truncation never adds segments, and every survivor has its next offset above the bound |
| SegmentList.TruncatedMembers | Lab2_Go/log/log.go:157-167 | a segment survives Truncate exactly when its next offset is above `lowest + 1` |
| SegmentList.TruncatedSuffix | Lab2_Go/log/log.go:157-167 | on a chained list the removed segments are a prefix, and the survivors keep their order |
| SegmentList.TruncateKeepsChained | Lab2_Go/log/log.go:157-167 | truncating keeps the list chained |
| SegmentList.TruncateRead | Lab2_Go/log/log_test.go:116-120 | after Truncate an offset reads as before when its segment survives and is out of range otherwise |
| SegmentList.OpenedSnoc | Lab2_Go/log/log.go:59-64 | opening one more base offset appends its segment at the end |
| SegmentList.SetupSegments | Lab2_Go/log/log.go:56-71 | setup always leaves at least one segment; it keeps the log's earlier segments in front and adds one for each of the `(n + 1) / 2` positions it visits, or a single one at `InitialOffset` when none were found |
| SegmentList.OpenedAscending | Lab2_Go/log/log.go:56-64 | segments opened for ascending base offsets are valid and ascend in base offset |
| SegmentList.SetupAscending | Lab2_Go/log/log.go:56-71 | setup leaves at least one segment, all valid, in ascending base-offset order |
| SegmentList.SetupEmpty | Lab2_Go/log/log.go:65-71 | an empty directory gives exactly one segment, at `InitialOffset`; otherwise the segments opened from the listing |
| SegmentList.FileNames | Lab2_Go/log/log.go:47-55 | a directory names two files, store and index, per segment |
| SegmentList.DirectoryAt | Lab2_Go/log/log.go:192-199 | with distinct base offsets each segment's files are found under its own base offset |
| SegmentList.FileNamesSorted | Lab2_Go/log/log.go:56-58 | the listing of a chained log is ascending |
| SegmentList.OpenedDirectory | Lab2_Go/log/log.go:59-64 | opening every other name of the listing, on the files the log left, gives back its segments |
| SegmentList.ReopenRecovers | Lab2_Go/log/log_test.go:75-83 | setup on the directory a chained log leaves, listed in any order, recovers exactly its segments |
| SegmentList.ConcatStores | Lab2_Go/log/log.go:171-178 | the bytes the reader yields: the stores of the segments, each after the ones before it (ConcatStoresFirst, ReaderFirstRecord and Log.Reader state its properties) |
| SegmentList.ConcatStoresFirst | Lab2_Go/log/log.go:171-178 | the reader's bytes are the first store followed by the rest |
| SegmentList.ReaderFirstRecord | Lab2_Go/log/log_test.go:94-104 | the reader's bytes start with the first record's length prefix and payload |
| CommitLog.WithDefaults | Lab2_Go/log/log.go:28-33 | a zero store or index limit becomes 1024; nonzero limits and the initial offset are kept |
| CommitLog.WithDefaultsIdempotent | Lab2_Go/log/log_test.go:75-76 | a log reopened with its own configuration gets the same configuration |
| CommitLog.Log.NewLog | Lab2_Go/log/log.go:27-40 | the log has the defaulted configuration, the segments setup gives, and its last segment active |
| CommitLog.Log.Setup | Lab2_Go/log/log.go:42-73 | the loop opens a segment for every other sorted base offset, each appended at the end and made active; then one at `InitialOffset` if there are still none |
| CommitLog.Log.NewSegment | Lab2_Go/log/log.go:192-200 | the new segment is added after the others, which are unchanged, and becomes active |
| CommitLog.Log.Append | Lab2_Go/log/log.go:75-88 | result and segments are those of `AppendSpec`; the active segment moves to a segment added by rotation and otherwise stays |
| CommitLog.Log.Read | Lab2_Go/log/log.go:90-104 | the scan returns `ReadSpec` of the segments |
| CommitLog.Log.LowestOffset | Lab2_Go/log/log.go:131-138 | the first segment's base offset; "no segments" exactly when there are none |
| CommitLog.Log.HighestOffset | Lab2_Go/log/log.go:140-151 | the last segment's next offset minus one, or 0 when that is 0; "no segments" exactly when there are none |
| CommitLog.Log.Truncate | Lab2_Go/log/log.go:153-169 | the segments become `Truncated(old, (lowest + 1) mod 2^64)`; the active segment stays designated exactly when it survives |
| CommitLog.Log.Reader | Lab2_Go/log/log.go:171-179 | an `OriginReader` built on every segment's store, each read to EOF in segment order, yields exactly `ConcatStores` of the segments |
| CommitLog.OriginReader.constructor | Lab2_Go/log/log.go:176 | the reader starts at offset 0 of its store |
| CommitLog.OriginReader.Read | Lab2_Go/log/log.go:186-190 | it delivers what `ReadAt` copies at its offset, and the offset advances by the count |
| CommitLog.OriginReader.ReadToEnd | Lab2_Go/log/log.go:186-190 | calling `Read` until it reports EOF delivers every byte of the store from the reader's offset on, and leaves the offset at the end of the store |
| CommitLog.ReadableBetweenBounds | Lab2_Go/log/log.go:131-151 | on a chained, non-empty log, Read succeeds exactly for the offsets from LowestOffset to HighestOffset |
| CommitLog.TestAppendsRotate | Lab2_Go/log/log_test.go:29-34 | with a 32-byte store limit, two test records fill the first store, so the second append adds a segment at offset 2 and the third goes there |
| CommitLog.AppendThree | Lab2_Go/log/log_test.go:62-65 | three appends to a new log leave segments [0, 2) and [2, 3), the second active, each holding its records |
| CommitLog.OutOfRangeScenario | Lab2_Go/log/log_test.go:52-56 | on a new log, Read(1) fails with "offset out of range" |
| CommitLog.AppendReadScenario | Lab2_Go/log/log_test.go:39-50 | the first append to a new log returns offset 0, and Read(0) gives the record back |
| CommitLog.InitExistingScenario | Lab2_Go/log/log_test.go:58-84 | after three appends the bounds are 0 and 2, and a log opened on the directory the first leaves has the same segments and the same bounds |
| CommitLog.TruncateScenario | Lab2_Go/log/log_test.go:107-121 | after three appends, Truncate(1) makes Read(0) fail with "offset out of range" while Read(2) still gives the record |

## Left out

- Locking (`sync.RWMutex`) is not modelled: the model is single-threaded.
- File-system and mmap I/O are not modelled. This covers `os.Stat`, `os.Truncate`, `gommap.Map` and `Sync`, `file.Sync`, `ioutil.ReadDir` and `os.RemoveAll`. The index file is a byte sequence and the map an `array<byte>`. The directory is given as a listing plus the files' contents by base offset.
- `strconv.ParseUint` of file names is not modelled: the listing is given as the numbers the names parse to.
- Errors from I/O calls are not modelled: every system call is taken to succeed.
- Protobuf serialization of records is not modelled: a record is an opaque byte payload.
- `Log.Close`, `Log.Remove` and `Log.Reset` are not modelled as operations. `FileNames` and `Directory` give the on-disk state a closed log leaves, for the reopen lemma.
- `index.Name` is not modelled: it is a file-name accessor.
- `segment.go` and `store.go` are not part of this model. The segment and the store are modelled abstractly, from how the log and the tests use them. Each segment append writes the store before the index, so a refused append leaves its bytes in the store.
- `newSegment` at a rotation opens fresh files. Stale files already at that base offset are not modelled.
- `io.MultiReader` is modelled as the concatenation of the stores.
- CommitLog.Log.Reader: the source returns a lazy `io.Reader`. The model reads it to the end at once, by a consumer whose buffer holds `chunk` bytes, and returns the bytes; it requires `chunk > 0`, since a consumer reading into an empty buffer never reaches EOF.
- Offsets are unbounded: wrap-around of `uint64` offsets at 2^64 records is not modelled.
- OffsetIndex.Index.constructor: requires the file to be no longer than `MaxIndexBytes`. With a longer file the source keeps a `size` past the end of the map.
- CommitLog.Log.Append: after a Truncate that removed the active segment, the source keeps appending through a pointer to the removed segment. The model reports the `Removed` error instead, because the segment's files are gone.
- CommitLog.Log.Truncate: the source leaves its active-segment pointer untouched. The model moves its active position to follow the same segment, or clears it when that segment was removed.
- SegmentList.ConsecutiveOffsets: requires the index limit to be a whole number of 12-byte entries. With the default limit of 1024 the active segment can stall after 85 records instead (SegmentList.DefaultIndexStalls).
- CommitLog.Log.Setup: the loop steps its index twice, so it opens every other position of the sorted listing. This is modelled as written. It is correct only when each base offset is listed exactly twice, once for the store file and once for the index file. Odd listings are not proved about: SegmentList.ReopenRecovers requires the paired listing a log leaves.
