/** A segment binds one store to one index over the offsets
    [baseOffset, nextOffset). Its Go source is not part of this model; it is
    modelled abstractly, as the log and the segment test use it: the records
    its index points to, in offset order, and the raw bytes of its store. */
module Segments {
  import opened BigEndian
  import opened Wrappers
  import opened LogConfig
  import opened Store
  import OffsetIndex

  datatype Segment = Segment(baseOffset: nat, nextOffset: nat, records: seq<Payload>, store: seq<byte>)

  /** One index entry per record, so nextOffset is baseOffset plus the
      number of entries (baseOffset + last relative offset + 1). */
  predicate Valid(s: Segment)
  {
    s.nextOffset == s.baseOffset + |s.records|
  }

  /** What a segment leaves on disk: its indexed records and its store file. */
  datatype SegmentFiles = SegmentFiles(records: seq<Payload>, store: seq<byte>)

  function Files(s: Segment): SegmentFiles
  {
    SegmentFiles(s.records, s.store)
  }

  /** A segment created with no files on disk. */
  function Fresh(base: nat): Segment
  {
    Segment(base, base, [], [])
  }

  /** newSegment(dir, base, config): opens the files named by `base` when
      they exist, recovering nextOffset from the index, or creates them. */
  function Open(stored: map<nat, SegmentFiles>, base: nat): (s: Segment)
    ensures Valid(s) && s.baseOffset == base
    ensures base !in stored ==> s.nextOffset == base && s.records == [] && s.store == []
    ensures base in stored ==> Files(s) == stored[base]
  {
    if base in stored then
      Segment(base, base + |stored[base].records|, stored[base].records, stored[base].store)
    else Fresh(base)
  }

  /** The logical size of the segment's index. */
  function IndexSize(s: Segment): nat
  {
    OffsetIndex.EntryWidth * |s.records|
  }

  /** IsMaxed: the store or the index has reached its configured limit. */
  predicate IsMaxed(s: Segment, config: Config)
  {
    |s.store| >= config.maxStoreBytes || IndexSize(s) >= config.maxIndexBytes
  }

  /** segment.Append: the record goes to the store first, then its entry to
      the index; when the index has no room for the entry the append fails
      with EOF and the bytes already written to the store stay there. */
  function Append(s: Segment, p: Payload, config: Config): (r: (Result<nat>, Segment))
    requires Valid(s)
    ensures Valid(r.1) && r.1.baseOffset == s.baseOffset
    ensures r.1.store == s.store + Frame(p)
  {
    var store := Store.Append(s.store, p).store;
    if IndexSize(s) + OffsetIndex.EntryWidth > config.maxIndexBytes then
      (Err(EOF), s.(store := store))
    else
      (Ok(s.nextOffset), Segment(s.baseOffset, s.nextOffset + 1, s.records + [p], store))
  }

  /** segment.Read for an offset at or above the base offset. */
  function Read(s: Segment, offset: nat): (r: Result<Payload>)
    requires Valid(s) && s.baseOffset <= offset
    ensures r.Ok? <==> offset < s.nextOffset
    ensures r.Ok? ==> r.value == s.records[offset - s.baseOffset]
    ensures r.Err? ==> r.error == EOF
  {
    if offset < s.nextOffset then Ok(s.records[offset - s.baseOffset]) else Err(EOF)
  }

  /** An append succeeds exactly when the index has room for one more entry;
      it then returns nextOffset, moves nextOffset up by one and makes the
      new record readable at the returned offset, leaving every earlier
      offset reading as before. Otherwise it fails with EOF and the segment's
      offsets and records stay as they were. */
  lemma {:induction false} AppendAssignsNextOffset(s: Segment, p: Payload, config: Config)
    requires Valid(s)
    ensures var (r, s') := Append(s, p, config);
      && (r.Ok? <==> IndexSize(s) + OffsetIndex.EntryWidth <= config.maxIndexBytes)
      && (r.Ok? ==> r.value == s.nextOffset && s'.nextOffset == s.nextOffset + 1
                    && Read(s', r.value) == Ok(p))
      && (r.Err? ==> r.error == EOF && s'.nextOffset == s.nextOffset && s'.records == s.records)
      && (forall o :: s.baseOffset <= o < s.nextOffset ==> Read(s', o) == Read(s, o))
  {
  }

  /** Appending the payloads `ps` one by one. */
  function AppendEach(s: Segment, ps: seq<Payload>, config: Config): (r: (seq<Result<nat>>, Segment))
    requires Valid(s)
    ensures |r.0| == |ps| && Valid(r.1) && r.1.baseOffset == s.baseOffset
    decreases |ps|
  {
    if ps == [] then ([], s)
    else
      var (first, s1) := Append(s, ps[0], config);
      var (rest, s2) := AppendEach(s1, ps[1..], config);
      ([first] + rest, s2)
  }

  /** While the index has room, successive appends return nextOffset,
      nextOffset + 1, ...; for a new segment that is base, base + 1, ... */
  lemma {:induction false} AppendEachOffsets(s: Segment, ps: seq<Payload>, config: Config)
    requires Valid(s)
    requires IndexSize(s) + OffsetIndex.EntryWidth * |ps| <= config.maxIndexBytes
    ensures var (rs, s') := AppendEach(s, ps, config);
      && (forall k :: 0 <= k < |ps| ==> rs[k] == Ok(s.nextOffset + k))
      && s'.records == s.records + ps
    decreases |ps|
  {
    if ps != [] {
      var (first, s1) := Append(s, ps[0], config);
      assert first == Ok(s.nextOffset);
      assert IndexSize(s1) == IndexSize(s) + OffsetIndex.EntryWidth;
      AppendEachOffsets(s1, ps[1..], config);
      assert ps == [ps[0]] + ps[1..];
    }
  }

  /** A segment whose index is full refuses every append with EOF; when the
      index limit is a whole number of entries, the segment is then maxed. */
  lemma {:induction false} FullIndexRefusesAppend(s: Segment, p: Payload, config: Config)
    requires Valid(s) && IndexSize(s) + OffsetIndex.EntryWidth > config.maxIndexBytes
    ensures Append(s, p, config).0 == Err(EOF)
    ensures Append(s, p, config).1.records == s.records
    ensures config.maxIndexBytes % OffsetIndex.EntryWidth == 0 ==> IsMaxed(Append(s, p, config).1, config)
  {
    var q := config.maxIndexBytes / OffsetIndex.EntryWidth;
    assert config.maxIndexBytes == OffsetIndex.EntryWidth * q + config.maxIndexBytes % OffsetIndex.EntryWidth;
  }

  /** The store holds the frames of the indexed records, followed only by
      bytes of appends the full index refused. */
  ghost predicate Framed(s: Segment, config: Config)
  {
    && Frames(s.records) <= s.store
    && (|s.store| > |Frames(s.records)| ==> IndexSize(s) + OffsetIndex.EntryWidth > config.maxIndexBytes)
  }

  lemma {:induction false} AppendKeepsFramed(s: Segment, p: Payload, config: Config)
    requires Valid(s) && Framed(s, config)
    ensures Framed(Append(s, p, config).1, config)
  {
    var (r, s') := Append(s, p, config);
    if r.Ok? {
      assert s.store == Frames(s.records);
      assert (s.records + [p])[..|s.records|] == s.records;
      assert Frames(s'.records) == s'.store;
    }
  }

  /** Reading offset o of a framed segment is reading its store at the
      position of record o - baseOffset. */
  lemma {:induction false} ReadMatchesStore(s: Segment, o: nat, config: Config)
    requires Valid(s) && Framed(s, config) && s.baseOffset <= o < s.nextOffset
    ensures Store.Read(s.store, |Frames(s.records[..o - s.baseOffset])|) == Read(s, o)
  {
    var rest := s.store[|Frames(s.records)|..];
    assert s.store == Frames(s.records) + rest;
    ReadFramed(s.records, rest, o - s.baseOffset);
  }
}
