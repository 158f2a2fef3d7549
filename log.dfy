/** The commit log of Lab2_Go/log/log.go: an ordered list of segments, the
    last of which is active, whose operations are specified by the
    functions of SegmentList. The directory is given to the constructor as
    its listing (the base offset each file name parses to) and the files'
    contents by base offset. */
module CommitLog {
  import opened BigEndian
  import opened Wrappers
  import opened LogConfig
  import opened Store
  import opened Segments
  import opened Sorting
  import opened SegmentList

  /** The limit NewLog gives a store or index whose configured limit is 0. */
  const DefaultMaxBytes: nat := 1024

  /** NewLog's configuration: zero limits become the default, everything
      else is kept. */
  function WithDefaults(c: Config): (r: Config)
    ensures r.maxStoreBytes > 0 && r.maxIndexBytes > 0 && r.initialOffset == c.initialOffset
    ensures c.maxStoreBytes > 0 ==> r.maxStoreBytes == c.maxStoreBytes
    ensures c.maxIndexBytes > 0 ==> r.maxIndexBytes == c.maxIndexBytes
    ensures c.maxStoreBytes == 0 ==> r.maxStoreBytes == DefaultMaxBytes
    ensures c.maxIndexBytes == 0 ==> r.maxIndexBytes == DefaultMaxBytes
  {
    Config(if c.maxStoreBytes == 0 then DefaultMaxBytes else c.maxStoreBytes,
           if c.maxIndexBytes == 0 then DefaultMaxBytes else c.maxIndexBytes,
           c.initialOffset)
  }

  /** Applying the defaults to a configuration that has them changes
      nothing, so reopening a log with its own configuration keeps it. */
  lemma {:induction false} WithDefaultsIdempotent(c: Config)
    ensures WithDefaults(WithDefaults(c)) == WithDefaults(c)
  {
  }

  class Log {
    var config: Config
    var segments: seq<Segment>
    /** The position in `segments` of the active segment; None once a
        truncation has removed it. */
    var active: Option<nat>

    ghost predicate Valid()
      reads this
    {
      && AllValid(segments)
      && (active.Some? ==> |segments| > 0 && active.value == |segments| - 1)
    }

    /** NewLog: the configuration with defaults applied, then setup. */
    constructor NewLog(config: Config, names: seq<nat>, stored: map<nat, SegmentFiles>)
      ensures Valid()
      ensures this.config == WithDefaults(config)
      ensures segments == SetupSegments([], names, stored, config.initialOffset)
      ensures active == Some(|segments| - 1)
    {
      this.config := WithDefaults(config);
      segments := [];
      active := None;
      new;
      Setup(names, stored);
    }

    /** setup: opens a segment for the base offset at every other position
        of the sorted listing (the loop steps its index twice), then, if the
        log still has no segment, one at the initial offset. */
    method Setup(names: seq<nat>, stored: map<nat, SegmentFiles>)
      requires Valid()
      modifies this
      ensures Valid() && config == old(config)
      ensures segments == SetupSegments(old(segments), names, stored, config.initialOffset)
      ensures |segments| > |old(segments)| ==> active == Some(|segments| - 1)
      ensures |segments| == |old(segments)| ==> active == old(active)
    {
      var bases := Sort(names);
      ghost var visited := EveryOther(bases);
      ghost var k := 0;
      var i := 0;
      while i < |bases|
        invariant i == 2 * k && k <= |visited|
        invariant Valid() && config == old(config)
        invariant segments == old(segments) + Opened(visited[..k], stored)
        invariant i > 0 ==> active == Some(|segments| - 1)
        invariant i == 0 ==> active == old(active) && segments == old(segments)
      {
        PrefixSnoc(visited, k);
        OpenedSnoc(visited[..k], bases[i], stored);
        NewSegment(bases[i], stored);
        i := i + 1;
        i := i + 1;
        k := k + 1;
      }
      assert visited[..k] == visited;
      assert segments == old(segments) + Opened(visited, stored);
      if segments == [] {
        NewSegment(config.initialOffset, stored);
      }
    }

    /** newSegment: opens the segment at `base` (recovering its files when
        the directory has them), appends it and makes it active. */
    method NewSegment(base: nat, stored: map<nat, SegmentFiles>)
      requires Valid()
      modifies this
      ensures Valid() && config == old(config)
      ensures segments == old(segments) + [Open(stored, base)]
      ensures active == Some(|old(segments)|)
    {
      segments := segments + [Open(stored, base)];
      active := Some(|segments| - 1);
    }

    /** Append: appends to the active segment and, when that leaves it
        maxed, starts a new segment at the next offset. */
    method Append(p: Payload) returns (r: Result<nat>)
      requires Valid()
      modifies this
      ensures Valid() && config == old(config)
      ensures (r, segments) == AppendSpec(old(segments), old(active).Some?, p, config)
      ensures |segments| == |old(segments)| ==> active == old(active)
      ensures |segments| > |old(segments)| ==> active == Some(|segments| - 1)
    {
      if active.None? {
        return Err(Removed);
      }
      var n := active.value;
      var (res, seg) := Segments.Append(segments[n], p, config);
      segments := segments[n := seg];
      if res.Err? {
        return res;
      }
      var offset := res.value;
      if IsMaxed(seg, config) {
        NewSegment(offset + 1, map[]);
      }
      r := Ok(offset);
    }

    /** Read: scans for the first segment covering the offset. */
    method Read(offset: nat) returns (r: Result<Payload>)
      requires Valid()
      ensures r == ReadSpec(segments, offset)
    {
      var selected: Option<nat> := None;
      var i := 0;
      while i < |segments|
        invariant 0 <= i <= |segments| && selected == None
        invariant forall j :: 0 <= j < i ==> !Covers(segments[j], offset)
      {
        if segments[i].baseOffset <= offset && offset < segments[i].nextOffset {
          selected := Some(i);
          break;
        }
        i := i + 1;
      }
      if selected.None? || segments[selected.value].nextOffset <= offset {
        return Err(OffsetOutOfRange(offset));
      }
      r := Segments.Read(segments[selected.value], offset);
    }

    /** LowestOffset: the first segment's base offset. */
    function LowestOffset(): (r: Result<nat>)
      reads this
      ensures r.Err? <==> segments == []
      ensures r.Err? ==> r.error == NoSegments
      ensures r.Ok? ==> r.value == segments[0].baseOffset
    {
      if |segments| == 0 then Err(NoSegments) else Ok(segments[0].baseOffset)
    }

    /** HighestOffset: one below the last segment's next offset, or 0 when
        that is 0. */
    function HighestOffset(): (r: Result<nat>)
      reads this
      ensures r.Err? <==> segments == []
      ensures r.Err? ==> r.error == NoSegments
      ensures r.Ok? ==> r.value + 1 == segments[|segments| - 1].nextOffset ||
                        (r.value == 0 && segments[|segments| - 1].nextOffset == 0)
    {
      if |segments| == 0 then Err(NoSegments)
      else
        var offset := segments[|segments| - 1].nextOffset;
        if offset == 0 then Ok(0) else Ok(offset - 1)
    }

    /** Truncate: keeps the segments whose next offset is above lowest + 1
        (in uint64 arithmetic), in order, removing the others. The active
        position follows the active segment to its new place when it
        remains, and is cleared when it was removed. */
    method Truncate(lowest: uint64)
      requires Valid()
      modifies this
      ensures Valid() && config == old(config)
      ensures segments == Truncated(old(segments), TruncateBound(lowest))
      ensures active.Some? <==>
                old(active).Some? && TruncateBound(lowest) < old(segments)[|old(segments)| - 1].nextOffset
    {
      var bound := (lowest + 1) % 0x1_0000_0000_0000_0000;
      var remaining: seq<Segment> := [];
      var i := 0;
      while i < |segments|
        invariant 0 <= i <= |segments|
        invariant remaining == Truncated(segments[..i], bound)
      {
        assert segments[..i + 1][..i] == segments[..i];
        if segments[i].nextOffset <= bound {
          // segment.Remove(): its files are deleted
          i := i + 1;
          continue;
        }
        remaining := remaining + [segments[i]];
        i := i + 1;
      }
      assert segments[..i] == segments;
      TruncatedMembers(segments, bound);
      if active.Some? {
        if segments[active.value].nextOffset <= bound {
          active := None;
        } else {
          assert remaining[|remaining| - 1] == segments[active.value];
          active := Some(|remaining| - 1);
        }
      }
      forall j | 0 <= j < |remaining| ensures Segments.Valid(remaining[j]) {
        assert remaining[j] in segments;
      }
      segments := remaining;
    }

    /** Reader: an originReader on every segment's store, read one after
        the other as io.MultiReader does, each until it reports EOF, by a
        consumer whose buffer holds `chunk` bytes; the bytes it yields. */
    method Reader(chunk: nat) returns (data: seq<byte>)
      requires chunk > 0
      ensures data == ConcatStores(segments)
    {
      var buffer := new byte[chunk];
      data := [];
      var i := 0;
      while i < |segments|
        invariant 0 <= i <= |segments|
        invariant data == ConcatStores(segments[..i])
      {
        assert segments[..i + 1][..i] == segments[..i];
        var reader := new OriginReader(segments[i].store);
        var bytes := reader.ReadToEnd(buffer);
        assert bytes == segments[i].store;
        data := data + bytes;
        i := i + 1;
      }
      assert segments[..i] == segments;
    }
  }

  /** originReader: reads one store from its start, advancing its offset
      past what each read delivers. */
  class OriginReader {
    const store: seq<byte>
    var offset: nat

    constructor (store: seq<byte>)
      ensures this.store == store && offset == 0
    {
      this.store := store;
      offset := 0;
    }

    method Read(p: array<byte>) returns (n: nat, err: Outcome)
      modifies this, p
      ensures offset == old(offset) + n
      ensures n == ReadAtCount(store, old(offset), p.Length)
      ensures forall k :: 0 <= k < n ==> p[k] == store[old(offset) + k]
      ensures err == if n < p.Length then Fail(EOF) else Pass
    {
      n, err := ReadAt(store, p, offset);
      offset := offset + n;
    }

    /** What a consumer gets by calling Read with the buffer `p` until it
        reports EOF: every byte of the store from the reader's offset on. */
    method ReadToEnd(p: array<byte>) returns (data: seq<byte>)
      requires p.Length > 0 && offset <= |store|
      modifies this, p
      ensures data == store[old(offset)..] && offset == |store|
    {
      data := [];
      ghost var start := offset;
      var done := false;
      while !done
        invariant start <= offset <= |store|
        invariant data == store[start..offset]
        invariant done ==> offset == |store|
        decreases |store| - offset + (if done then 0 else 1)
      {
        ghost var before := offset;
        var n, err := Read(p);
        assert p[..n] == store[before..offset];
        data := data + p[..n];
        done := err.Fail?;
      }
    }
  }

  /** On a chained log holding at least one record, the offsets Read
      succeeds on are exactly those from LowestOffset to HighestOffset. */
  lemma {:induction false} ReadableBetweenBounds(log: Log, offset: nat)
    requires log.Valid() && Chained(log.segments) && log.segments != []
    requires log.segments[0].baseOffset < log.segments[|log.segments| - 1].nextOffset
    ensures log.LowestOffset().Ok? && log.HighestOffset().Ok?
    ensures ReadSpec(log.segments, offset).Ok? <==>
              log.LowestOffset().value <= offset <= log.HighestOffset().value
  {
    ReadableRange(log.segments, offset);
  }

  /** The configuration of the log tests: a 32-byte store limit and the
      default index limit; a record whose frame fits in the store once but
      not twice, as the test's "hello world" record does. */
  const TestConfig := Config(32, 0, 0)

  predicate TestRecord(p: Payload)
  {
    LenWidth + |p| < 32 <= 2 * (LenWidth + |p|)
  }

  /** With the test configuration, the segment list goes through these
      states: two appends fill the first store, the second leaving a new
      segment based at offset 2, and the third lands in that segment. */
  lemma {:induction false} TestAppendsRotate(p: Payload)
    requires TestRecord(p)
    ensures AppendSpec([Fresh(0)], true, p, WithDefaults(TestConfig))
      == (Ok(0), [Segment(0, 1, [p], Frame(p))])
    ensures AppendSpec([Segment(0, 1, [p], Frame(p))], true, p, WithDefaults(TestConfig))
      == (Ok(1), [Segment(0, 2, [p, p], Frame(p) + Frame(p)), Fresh(2)])
    ensures AppendSpec([Segment(0, 2, [p, p], Frame(p) + Frame(p)), Fresh(2)], true, p, WithDefaults(TestConfig))
      == (Ok(2), [Segment(0, 2, [p, p], Frame(p) + Frame(p)), Segment(2, 3, [p], Frame(p))])
    ensures Chained([Segment(0, 2, [p, p], Frame(p) + Frame(p)), Segment(2, 3, [p], Frame(p))])
  {
    var f := Frame(p);
    var config := WithDefaults(TestConfig);
    assert config == Config(32, DefaultMaxBytes, 0);
    assert [] + f == f && [] + [p] == [p] && [p] + [p] == [p, p];
    var s1 := Segment(0, 1, [p], f);
    var s2 := Segment(0, 2, [p, p], f + f);
    assert Segments.Append(Fresh(0), p, config) == (Ok(0), s1) && !IsMaxed(s1, config);
    assert Segments.Append(s1, p, config) == (Ok(1), s2) && IsMaxed(s2, config);
    var s3 := Segment(2, 3, [p], f);
    assert Segments.Append(Fresh(2), p, config) == (Ok(2), s3) && !IsMaxed(s3, config);
    assert [Fresh(0)][0 := s1] == [s1];
    assert [s1][0 := s2] + [Fresh(2)] == [s2, Fresh(2)];
    assert [s2, Fresh(2)][1 := s3] == [s2, s3];
  }

  /** A new log over an empty directory has one empty segment at offset 0,
      and reading offset 1 from it is out of range. */
  method OutOfRangeScenario()
  {
    var log := new Log.NewLog(TestConfig, [], map[]);
    SetupEmpty([], map[], 0);
    assert log.segments == [Fresh(0)];
    var r := log.Read(1);
    assert r == Err(OffsetOutOfRange(1));
  }

  /** Three appends of the test record to a new log return 0, 1 and 2; the
      second fills the first segment's store, so the third goes to a new
      segment at offset 2. */
  method AppendThree(p: Payload) returns (log: Log)
    requires TestRecord(p)
    ensures fresh(log) && log.Valid() && Chained(log.segments) && log.config == WithDefaults(TestConfig)
    ensures |log.segments| == 2 && log.active == Some(1)
    ensures log.segments[0].baseOffset == 0 && log.segments[0].nextOffset == 2
    ensures log.segments[1].baseOffset == 2 && log.segments[1].nextOffset == 3
    ensures log.segments[0].records == [p, p] && log.segments[1].records == [p]
  {
    log := new Log.NewLog(TestConfig, [], map[]);
    SetupEmpty([], map[], 0);
    TestAppendsRotate(p);
    var o0 := log.Append(p);
    var o1 := log.Append(p);
    var o2 := log.Append(p);
  }

  /** Reading back the first record returns it. */
  method AppendReadScenario(p: Payload)
    requires TestRecord(p)
  {
    var log := new Log.NewLog(TestConfig, [], map[]);
    SetupEmpty([], map[], 0);
    assert log.segments == [Fresh(0)];
    AppendOffset(log.segments, p, log.config);
    AppendThenRead(log.segments, p, log.config);
    var o := log.Append(p);
    assert o == Ok(0);
    var r := log.Read(0);
    assert r == Ok(p);
  }

  /** After three appends the bounds are 0 and 2, and a log opened anew on
      the directory the first one leaves has the same bounds. */
  method InitExistingScenario(p: Payload)
    requires TestRecord(p)
  {
    var log := AppendThree(p);
    assert log.LowestOffset() == Ok(0) && log.HighestOffset() == Ok(2);
    var names := FileNames(log.segments);
    ReopenRecovers(log.segments, names, log.config.initialOffset);
    var reopened := new Log.NewLog(log.config, names, Directory(log.segments));
    assert reopened.segments == log.segments;
    assert reopened.LowestOffset() == Ok(0) && reopened.HighestOffset() == Ok(2);
  }

  /** Truncate(1) removes the first segment, whose next offset is 2, so
      offset 0 can no longer be read while offset 2 still can. */
  method TruncateScenario(p: Payload)
    requires TestRecord(p)
  {
    var log := AppendThree(p);
    ghost var before := log.segments;
    TruncateRead(before, 2, 0);
    TruncateRead(before, 2, 2);
    UniqueCover(before, 0, 0);
    UniqueCover(before, 1, 2);
    log.Truncate(1);
    assert log.segments == Truncated(before, 2);
    var r0 := log.Read(0);
    assert r0 == Err(OffsetOutOfRange(0));
    var r2 := log.Read(2);
    assert r2 == Ok(p);
  }
}
