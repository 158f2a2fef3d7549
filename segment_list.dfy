/** The log's segments as a value: the sequence of segments in the order the
    log holds them, the last one active. The functions here define what the
    log's operations compute; the lemmas state what those computations keep
    and promise. */
module SegmentList {
  import opened BigEndian
  import opened Wrappers
  import opened LogConfig
  import opened Store
  import opened Segments
  import opened Sorting
  import OffsetIndex

  predicate AllValid(segs: seq<Segment>)
  {
    forall i :: 0 <= i < |segs| ==> Valid(segs[i])
  }

  /** The shape appends and truncations keep: base offsets strictly
      ascending, offset ranges disjoint and in order, and each segment
      starting where the one before it ends. */
  ghost predicate Chained(segs: seq<Segment>)
  {
    && AllValid(segs)
    && (forall i, j :: 0 <= i < j < |segs| ==>
          segs[i].nextOffset <= segs[j].baseOffset && segs[i].baseOffset < segs[j].baseOffset)
    && (forall i :: 0 <= i < |segs| - 1 ==> segs[i].nextOffset == segs[i + 1].baseOffset)
  }

  /** The segment holds the record at `offset`. */
  predicate Covers(s: Segment, offset: nat)
  {
    s.baseOffset <= offset < s.nextOffset
  }

  /** Any contiguous part of a chained list is chained. */
  lemma {:induction false} ChainedSlice(segs: seq<Segment>, lo: nat, hi: nat)
    requires Chained(segs) && lo <= hi <= |segs|
    ensures Chained(segs[lo..hi])
  {
    var t := segs[lo..hi];
    forall i | 0 <= i < |t| ensures Valid(t[i]) {
      assert t[i] == segs[lo + i];
    }
    forall i, j | 0 <= i < j < |t|
      ensures t[i].nextOffset <= t[j].baseOffset && t[i].baseOffset < t[j].baseOffset
    {
      assert t[i] == segs[lo + i] && t[j] == segs[lo + j];
    }
    forall i | 0 <= i < |t| - 1 ensures t[i].nextOffset == t[i + 1].baseOffset {
      assert t[i] == segs[lo + i] && t[i + 1] == segs[lo + i + 1];
    }
  }

  // ----- Read -----

  /** The segment the scan of Log.Read stops at. */
  function FirstCovering(segs: seq<Segment>, offset: nat): (r: Option<nat>)
    ensures r.Some? ==> r.value < |segs| && Covers(segs[r.value], offset)
    ensures r.Some? ==> forall j :: 0 <= j < r.value ==> !Covers(segs[j], offset)
    ensures r.None? ==> forall j :: 0 <= j < |segs| ==> !Covers(segs[j], offset)
    decreases |segs|
  {
    if segs == [] then None
    else if Covers(segs[0], offset) then Some(0)
    else
      match FirstCovering(segs[1..], offset)
      case None => None
      case Some(i) => Some(i + 1)
  }

  /** Log.Read: the record from the first segment covering the offset, or
      the out-of-range error when no segment covers it. */
  function ReadSpec(segs: seq<Segment>, offset: nat): (r: Result<Payload>)
    requires AllValid(segs)
    ensures r.Ok? <==> exists i :: 0 <= i < |segs| && Covers(segs[i], offset)
    ensures r.Err? ==> r.error == OffsetOutOfRange(offset)
  {
    match FirstCovering(segs, offset)
    case None => Err(OffsetOutOfRange(offset))
    case Some(i) => Segments.Read(segs[i], offset)
  }

  /** In a chained list at most one segment covers an offset, so it is the
      one the scan finds. */
  lemma {:induction false} UniqueCover(segs: seq<Segment>, i: nat, offset: nat)
    requires Chained(segs) && i < |segs| && Covers(segs[i], offset)
    ensures FirstCovering(segs, offset) == Some(i)
  {
    var f := FirstCovering(segs, offset);
    assert f.Some?;
  }

  /** Two segments of a chained list covering the same offset are one. */
  lemma {:induction false} CoversOnce(segs: seq<Segment>, a: nat, b: nat, offset: nat)
    requires Chained(segs) && a < |segs| && b < |segs|
    requires Covers(segs[a], offset) && Covers(segs[b], offset)
    ensures a == b
  {
  }

  /** The offsets a chained, non-empty list can read are exactly those from
      the first segment's base offset up to, not including, the last
      segment's next offset. */
  lemma {:induction false} ReadableRange(segs: seq<Segment>, offset: nat)
    requires Chained(segs) && segs != []
    ensures ReadSpec(segs, offset).Ok? <==>
              segs[0].baseOffset <= offset < segs[|segs| - 1].nextOffset
  {
    var last := |segs| - 1;
    if ReadSpec(segs, offset).Ok? {
      var i :| 0 <= i < |segs| && Covers(segs[i], offset);
      if 0 < i {
        assert segs[0].baseOffset < segs[i].baseOffset;
      }
      if i < last {
        assert segs[i].nextOffset <= segs[last].baseOffset;
      }
    }
    if segs[0].baseOffset <= offset < segs[last].nextOffset {
      var i := 0;
      while segs[i].nextOffset <= offset
        invariant 0 <= i < |segs| && segs[i].baseOffset <= offset
        decreases |segs| - i
      {
        assert segs[i].nextOffset == segs[i + 1].baseOffset;
        i := i + 1;
      }
      assert Covers(segs[i], offset);
    }
  }

  // ----- Append -----

  /** Log.Append: append to the active (last) segment; on success start a
      new segment at offset + 1 when the active one is then maxed. With no
      active segment the write goes to removed files and fails. */
  function AppendSpec(segs: seq<Segment>, live: bool, p: Payload, config: Config): (r: (Result<nat>, seq<Segment>))
    requires AllValid(segs) && (live ==> segs != [])
    ensures AllValid(r.1) && |segs| <= |r.1|
  {
    if !live then (Err(Removed), segs)
    else
      var n := |segs| - 1;
      var (res, seg) := Segments.Append(segs[n], p, config);
      var updated := segs[n := seg];
      if res.Ok? && IsMaxed(seg, config) then (res, updated + [Fresh(res.value + 1)])
      else (res, updated)
  }

  /** What one append does to the list: earlier segments stay as they were;
      it succeeds exactly when the active segment's index has room, then
      returns the active segment's next offset and leaves the last segment
      ending just past it; a new segment, based at offset + 1, is added
      exactly when the success leaves the active segment maxed. */
  lemma {:induction false} AppendOffset(segs: seq<Segment>, p: Payload, config: Config)
    requires AllValid(segs) && segs != []
    ensures var (r, segs') := AppendSpec(segs, true, p, config);
      var n := |segs| - 1;
      && segs'[..n] == segs[..n]
      && (r.Ok? <==> IndexSize(segs[n]) + OffsetIndex.EntryWidth <= config.maxIndexBytes)
      && (r.Err? ==> r.error == EOF && |segs'| == |segs| && segs'[n].records == segs[n].records)
      && (r.Ok? ==> r.value == segs[n].nextOffset && segs'[n].records == segs[n].records + [p])
      && (r.Ok? ==> segs'[|segs'| - 1].nextOffset == r.value + 1)
      && (|segs'| == |segs| + 1 <==> r.Ok? && IsMaxed(segs'[n], config))
      && (|segs'| == |segs| + 1 ==> segs'[n + 1] == Fresh(r.value + 1))
  {
    var n := |segs| - 1;
    AppendAssignsNextOffset(segs[n], p, config);
  }

  /** Appending keeps the list chained. */
  lemma {:induction false} AppendKeepsChained(segs: seq<Segment>, p: Payload, config: Config)
    requires Chained(segs) && segs != []
    ensures Chained(AppendSpec(segs, true, p, config).1)
  {
    var (r, segs') := AppendSpec(segs, true, p, config);
    var n := |segs| - 1;
    AppendOffset(segs, p, config);
    assert segs'[n].baseOffset == segs[n].baseOffset;
    assert segs[n].nextOffset <= segs'[n].nextOffset;
    forall i, j | 0 <= i < j < |segs'|
      ensures segs'[i].nextOffset <= segs'[j].baseOffset && segs'[i].baseOffset < segs'[j].baseOffset
    {
      if j == n + 1 {
        if i < n {
          assert segs[i].nextOffset <= segs[n].baseOffset;
        }
      } else {
        assert segs'[i] == segs[i];
      }
    }
  }

  /** A successful append makes its record readable at the returned offset. */
  lemma {:induction false} AppendThenRead(segs: seq<Segment>, p: Payload, config: Config)
    requires Chained(segs) && segs != []
    ensures var (r, segs') := AppendSpec(segs, true, p, config);
      r.Ok? ==> ReadSpec(segs', r.value) == Ok(p)
  {
    var (r, segs') := AppendSpec(segs, true, p, config);
    var n := |segs| - 1;
    AppendOffset(segs, p, config);
    AppendKeepsChained(segs, p, config);
    AppendAssignsNextOffset(segs[n], p, config);
    if r.Ok? {
      assert Covers(segs'[n], r.value);
      UniqueCover(segs', n, r.value);
    }
  }

  /** An offset some segment covers reads the same after an append. */
  lemma {:induction false} AppendKeepsCovered(segs: seq<Segment>, p: Payload, config: Config, i: nat, offset: nat)
    requires Chained(segs) && i < |segs| && Covers(segs[i], offset)
    ensures ReadSpec(AppendSpec(segs, true, p, config).1, offset) == ReadSpec(segs, offset)
  {
    var segs' := AppendSpec(segs, true, p, config).1;
    var n := |segs| - 1;
    AppendOffset(segs, p, config);
    AppendAssignsNextOffset(segs[n], p, config);
    UniqueCover(segs, i, offset);
    forall j | 0 <= j < n ensures segs'[j] == segs[j] {
      assert segs'[..n][j] == segs[..n][j];
    }
    assert Covers(segs'[i], offset);
    assert FirstCovering(segs', offset) == Some(i);
    assert Segments.Read(segs'[i], offset) == Segments.Read(segs[i], offset);
  }

  /** An offset no segment covers, other than the one an append returns,
      stays out of range after the append. */
  lemma {:induction false} AppendKeepsUncovered(segs: seq<Segment>, p: Payload, config: Config, offset: nat)
    requires AllValid(segs) && segs != [] && FirstCovering(segs, offset).None?
    requires var r := AppendSpec(segs, true, p, config).0; r.Err? || offset != r.value
    ensures ReadSpec(AppendSpec(segs, true, p, config).1, offset) == Err(OffsetOutOfRange(offset))
  {
    var (r, segs') := AppendSpec(segs, true, p, config);
    var n := |segs| - 1;
    AppendOffset(segs, p, config);
    AppendAssignsNextOffset(segs[n], p, config);
    forall i | 0 <= i < |segs'| ensures !Covers(segs'[i], offset) {
      if i < n {
        assert segs'[i] == segs[i];
      } else if i == n {
        assert !Covers(segs[n], offset);
      }
    }
  }

  /** An append leaves every other offset reading as before; a failed one
      leaves every offset reading as before. */
  lemma {:induction false} AppendKeepsOtherReads(segs: seq<Segment>, p: Payload, config: Config, offset: nat)
    requires Chained(segs) && segs != []
    ensures var (r, segs') := AppendSpec(segs, true, p, config);
      r.Err? || offset != r.value ==> ReadSpec(segs', offset) == ReadSpec(segs, offset)
  {
    var r := AppendSpec(segs, true, p, config).0;
    if r.Err? || offset != r.value {
      var f := FirstCovering(segs, offset);
      if f.Some? {
        AppendKeepsCovered(segs, p, config, f.value, offset);
      } else {
        AppendKeepsUncovered(segs, p, config, offset);
      }
    }
  }

  /** Once the active segment's index has no room for another entry, the
      append fails with EOF, the log does not rotate, and the next append
      finds the index just as full. */
  lemma {:induction false} FullActiveStalls(segs: seq<Segment>, p: Payload, config: Config)
    requires AllValid(segs) && segs != []
    requires IndexSize(segs[|segs| - 1]) + OffsetIndex.EntryWidth > config.maxIndexBytes
    ensures var (r, segs') := AppendSpec(segs, true, p, config);
      && r == Err(EOF) && |segs'| == |segs|
      && IndexSize(segs'[|segs'| - 1]) + OffsetIndex.EntryWidth > config.maxIndexBytes
  {
    AppendOffset(segs, p, config);
  }

  /** With the default 1024-byte index, 85 entries fill 1020 bytes: the
      index does not count as maxed, yet it has no room for an 86th entry,
      so unless the store reaches its own limit first the log stalls. */
  lemma {:induction false} DefaultIndexStalls(segs: seq<Segment>, p: Payload, config: Config)
    requires AllValid(segs) && segs != [] && config.maxIndexBytes == 1024
    requires |segs[|segs| - 1].records| == 85
    ensures var (r, segs') := AppendSpec(segs, true, p, config);
      && r == Err(EOF) && |segs'| == |segs|
      && segs'[|segs| - 1].records == segs[|segs| - 1].records
      && IndexSize(segs'[|segs| - 1]) < config.maxIndexBytes
  {
    AppendOffset(segs, p, config);
  }

  /** Appending the payloads `ps` one after another. */
  function AppendAll(segs: seq<Segment>, ps: seq<Payload>, config: Config): (r: (seq<Result<nat>>, seq<Segment>))
    requires AllValid(segs) && segs != []
    ensures |r.0| == |ps| && AllValid(r.1) && r.1 != []
    decreases |ps|
  {
    if ps == [] then ([], segs)
    else
      var (first, segs1) := AppendSpec(segs, true, ps[0], config);
      var (rest, segs2) := AppendAll(segs1, ps[1..], config);
      ([first] + rest, segs2)
  }

  lemma {:induction false} NextEntryFits(n: nat, m: nat)
    requires m % OffsetIndex.EntryWidth == 0 && OffsetIndex.EntryWidth * n < m
    ensures OffsetIndex.EntryWidth * n + OffsetIndex.EntryWidth <= m
  {
    var q := m / OffsetIndex.EntryWidth;
    assert m == OffsetIndex.EntryWidth * q;
  }

  /** An append to an active segment that is not maxed succeeds, returns its
      next offset and leaves an active segment that is not maxed, provided
      both limits are positive and the index limit is a whole number of
      entries. */
  lemma {:induction false} AppendFromUnmaxed(segs: seq<Segment>, p: Payload, config: Config)
    requires AllValid(segs) && segs != [] && !IsMaxed(segs[|segs| - 1], config)
    requires config.maxStoreBytes > 0 && config.maxIndexBytes > 0
    requires config.maxIndexBytes % OffsetIndex.EntryWidth == 0
    ensures var (r, segs') := AppendSpec(segs, true, p, config);
      && r == Ok(segs[|segs| - 1].nextOffset)
      && !IsMaxed(segs'[|segs'| - 1], config)
      && segs'[|segs'| - 1].nextOffset == segs[|segs| - 1].nextOffset + 1
  {
    var n := |segs| - 1;
    NextEntryFits(|segs[n].records|, config.maxIndexBytes);
    AppendOffset(segs, p, config);
  }

  /** Successive appends to such a log return consecutive offsets starting
      at the active segment's next offset; on a new log that is 0, 1, 2, ...
      from its initial offset. */
  lemma {:induction false} ConsecutiveOffsets(segs: seq<Segment>, ps: seq<Payload>, config: Config)
    requires AllValid(segs) && segs != [] && !IsMaxed(segs[|segs| - 1], config)
    requires config.maxStoreBytes > 0 && config.maxIndexBytes > 0
    requires config.maxIndexBytes % OffsetIndex.EntryWidth == 0
    ensures forall k :: 0 <= k < |ps| ==>
              AppendAll(segs, ps, config).0[k] == Ok(segs[|segs| - 1].nextOffset + k)
    decreases |ps|
  {
    if ps != [] {
      var (first, segs1) := AppendSpec(segs, true, ps[0], config);
      AppendFromUnmaxed(segs, ps[0], config);
      ConsecutiveOffsets(segs1, ps[1..], config);
      var rest := AppendAll(segs1, ps[1..], config).0;
      var rs := AppendAll(segs, ps, config).0;
      assert rs == [first] + rest;
      var next := segs[|segs| - 1].nextOffset;
      assert segs1[|segs1| - 1].nextOffset == next + 1;
      forall k | 0 < k < |ps| ensures rs[k] == Ok(next + k) {
        assert rs[k] == rest[k - 1];
      }
    }
  }

  // ----- Truncate -----

  /** lowest + 1 in uint64 arithmetic. */
  function TruncateBound(lowest: uint64): nat
  {
    (lowest + 1) % 0x1_0000_0000_0000_0000
  }

  /** Log.Truncate: the segments whose next offset is above the bound, in
      their original order. */
  function Truncated(segs: seq<Segment>, bound: nat): (r: seq<Segment>)
    ensures |r| <= |segs|
    ensures forall k :: 0 <= k < |r| ==> bound < r[k].nextOffset
    decreases |segs|
  {
    if segs == [] then []
    else
      var last := segs[|segs| - 1];
      Truncated(segs[..|segs| - 1], bound) + (if last.nextOffset <= bound then [] else [last])
  }

  /** Truncate removes exactly the segments with nextOffset <= bound. */
  lemma {:induction false} TruncatedMembers(segs: seq<Segment>, bound: nat)
    ensures forall s :: s in Truncated(segs, bound) <==> s in segs && bound < s.nextOffset
    decreases |segs|
  {
    if segs != [] {
      var pre := segs[..|segs| - 1];
      TruncatedMembers(pre, bound);
      assert segs == pre + [segs[|segs| - 1]];
    }
  }

  lemma {:induction false} PrefixSnoc<T>(s: seq<T>, k: nat)
    requires k < |s|
    ensures s[..k + 1] == s[..k] + [s[k]]
  {
  }

  lemma {:induction false} SliceSnoc<T>(s: seq<T>, k: nat, m: nat)
    requires k < m <= |s|
    ensures s[k..m] == s[k..m - 1] + [s[m - 1]]
    ensures s[..m][..m - 1] == s[..m - 1] && s[..m][m - 1] == s[m - 1]
  {
  }

  /** Next offsets ascend along the list. */
  predicate NextAscending(segs: seq<Segment>)
  {
    forall i, j :: 0 <= i < j < |segs| ==> segs[i].nextOffset <= segs[j].nextOffset
  }

  lemma {:induction false} ChainedNextAscending(segs: seq<Segment>)
    requires Chained(segs)
    ensures NextAscending(segs)
  {
    forall i, j | 0 <= i < j < |segs| ensures segs[i].nextOffset <= segs[j].nextOffset {
      assert Valid(segs[j]);
    }
  }

  /** When next offsets ascend, the segments a truncation removes from the
      first `m` are a prefix of them, so what remains is a contiguous run
      ending at `m`, in order. */
  lemma {:induction false} AscendingTruncatedPrefix(segs: seq<Segment>, m: nat, bound: nat) returns (k: nat)
    requires NextAscending(segs) && m <= |segs|
    ensures k <= m && Truncated(segs[..m], bound) == segs[k..m]
    ensures forall i :: 0 <= i < k ==> segs[i].nextOffset <= bound
    ensures forall i :: k <= i < m ==> bound < segs[i].nextOffset
    decreases m
  {
    if m == 0 {
      k := 0;
      assert segs[..0] == [];
    } else {
      var k' := AscendingTruncatedPrefix(segs, m - 1, bound);
      SliceSnoc(segs, 0, m);
      if segs[m - 1].nextOffset <= bound {
        k := m;
        if m > 1 {
          assert segs[m - 2].nextOffset <= segs[m - 1].nextOffset;
        }
      } else {
        k := k';
        SliceSnoc(segs, k, m);
      }
    }
  }

  /** In a chained list the removed segments are a prefix, so what remains
      is a suffix of the list, in order. */
  lemma {:induction false} TruncatedSuffix(segs: seq<Segment>, bound: nat) returns (k: nat)
    requires Chained(segs)
    ensures k <= |segs| && Truncated(segs, bound) == segs[k..]
    ensures forall i :: 0 <= i < k ==> segs[i].nextOffset <= bound
    ensures forall i :: k <= i < |segs| ==> bound < segs[i].nextOffset
  {
    ChainedNextAscending(segs);
    k := AscendingTruncatedPrefix(segs, |segs|, bound);
    assert segs[..|segs|] == segs;
  }

  /** Truncating keeps the list chained. */
  lemma {:induction false} TruncateKeepsChained(segs: seq<Segment>, bound: nat)
    requires Chained(segs)
    ensures Chained(Truncated(segs, bound))
  {
    var k := TruncatedSuffix(segs, bound);
    ChainedSlice(segs, k, |segs|);
    assert segs[k..|segs|] == segs[k..];
  }

  /** The part kept by a truncation reads an offset as the whole list did
      when the segment holding it is kept. */
  lemma {:induction false} SuffixReadKept(segs: seq<Segment>, k: nat, i: nat, offset: nat)
    requires Chained(segs) && k <= i < |segs| && Covers(segs[i], offset)
    ensures AllValid(segs[k..])
    ensures ReadSpec(segs[k..], offset) == ReadSpec(segs, offset)
  {
    var t := segs[k..];
    forall j | 0 <= j < |t| ensures Valid(t[j]) {
      assert t[j] == segs[k + j];
    }
    assert t[i - k] == segs[i];
    var j := FirstCovering(t, offset).value;
    assert t[j] == segs[k + j];
    CoversOnce(segs, k + j, i, offset);
    UniqueCover(segs, i, offset);
  }

  /** It fails to read an offset no kept segment holds. */
  lemma {:induction false} SuffixReadDropped(segs: seq<Segment>, k: nat, offset: nat)
    requires AllValid(segs) && k <= |segs|
    requires forall j :: k <= j < |segs| ==> !Covers(segs[j], offset)
    ensures AllValid(segs[k..])
    ensures ReadSpec(segs[k..], offset) == Err(OffsetOutOfRange(offset))
  {
    var t := segs[k..];
    forall j | 0 <= j < |t| ensures Valid(t[j]) && !Covers(t[j], offset) {
      assert t[j] == segs[k + j];
    }
  }

  /** After truncating, an offset reads as before when the segment holding
      it survives (its next offset is above the bound) and fails as out of
      range otherwise. */
  lemma {:induction false} TruncateRead(segs: seq<Segment>, bound: nat, offset: nat)
    requires Chained(segs)
    ensures AllValid(Truncated(segs, bound))
    ensures var f := FirstCovering(segs, offset);
      ReadSpec(Truncated(segs, bound), offset) ==
        if f.Some? && bound < segs[f.value].nextOffset then ReadSpec(segs, offset)
        else Err(OffsetOutOfRange(offset))
  {
    var k := TruncatedSuffix(segs, bound);
    var f := FirstCovering(segs, offset);
    if f.Some? && bound < segs[f.value].nextOffset {
      SuffixReadKept(segs, k, f.value, offset);
    } else {
      SuffixReadDropped(segs, k, offset);
    }
  }

  // ----- setup -----

  /** The segments newSegment opens for the given base offsets. */
  function Opened(bases: seq<nat>, stored: map<nat, SegmentFiles>): seq<Segment>
  {
    seq(|bases|, k requires 0 <= k < |bases| => Open(stored, bases[k]))
  }

  lemma {:induction false} OpenedSnoc(bases: seq<nat>, b: nat, stored: map<nat, SegmentFiles>)
    ensures Opened(bases + [b], stored) == Opened(bases, stored) + [Open(stored, b)]
  {
  }

  /** Log.setup appends to `prior` a segment for every other base offset of
      the sorted directory listing, and a segment at the initial offset if
      the log then has none. */
  function SetupSegments(prior: seq<Segment>, names: seq<nat>, stored: map<nat, SegmentFiles>, initial: nat): (r: seq<Segment>)
    ensures r != [] && prior <= r
    ensures |r| == |prior| + (|names| + 1) / 2 || (r == [Open(stored, initial)] && prior == [] && names == [])
  {
    assert |Sort(names)| == |multiset(Sort(names))| == |multiset(names)| == |names|;
    var found := prior + Opened(EveryOther(Sort(names)), stored);
    if found == [] then [Open(stored, initial)] else found
  }

  /** Opening ascending base offsets yields valid segments in ascending
      base-offset order. */
  lemma {:induction false} OpenedAscending(bases: seq<nat>, stored: map<nat, SegmentFiles>)
    requires SortedAsc(bases)
    ensures var segs := Opened(bases, stored);
      && |segs| == |bases| && AllValid(segs)
      && (forall i, j :: 0 <= i < j < |segs| ==> segs[i].baseOffset <= segs[j].baseOffset)
  {
    var segs := Opened(bases, stored);
    forall i, j | 0 <= i < j < |segs| ensures segs[i].baseOffset <= segs[j].baseOffset {
      assert segs[i].baseOffset == bases[i] && segs[j].baseOffset == bases[j];
    }
  }

  /** The segments setup opens are valid and in ascending base-offset order. */
  lemma {:induction false} SetupAscending(names: seq<nat>, stored: map<nat, SegmentFiles>, initial: nat)
    ensures var segs := SetupSegments([], names, stored, initial);
      && AllValid(segs) && segs != []
      && (forall i, j :: 0 <= i < j < |segs| ==> segs[i].baseOffset <= segs[j].baseOffset)
  {
    var sorted := Sort(names);
    SortSorted(names);
    var bases := EveryOther(sorted);
    EveryOtherSorted(sorted);
    OpenedAscending(bases, stored);
    var found := Opened(bases, stored);
    assert [] + found == found;
    if found == [] {
      assert SetupSegments([], names, stored, initial) == [Open(stored, initial)];
    } else {
      assert SetupSegments([], names, stored, initial) == found;
    }
  }

  /** With an empty directory listing setup opens exactly one segment, at
      the initial offset; with a non-empty one, none at the initial offset
      unless the listing names it. */
  lemma {:induction false} SetupEmpty(names: seq<nat>, stored: map<nat, SegmentFiles>, initial: nat)
    ensures names == [] ==> SetupSegments([], names, stored, initial) == [Open(stored, initial)]
    ensures names != [] ==> SetupSegments([], names, stored, initial) == Opened(EveryOther(Sort(names)), stored)
  {
    if names == [] {
      assert Sort(names) == [];
    } else {
      var bases := EveryOther(Sort(names));
      assert |Sort(names)| == |multiset(Sort(names))| == |multiset(names)| == |names|;
      assert |bases| > 0;
      assert [] + Opened(bases, stored) == Opened(bases, stored);
    }
  }

  /** The names of the files a list of segments leaves in the directory:
      each base offset twice, for its store file and its index file. */
  function FileNames(segs: seq<Segment>): (r: seq<nat>)
    ensures |r| == 2 * |segs|
  {
    seq(2 * |segs|, k requires 0 <= k < 2 * |segs| => segs[k / 2].baseOffset)
  }

  /** The files a list of segments leaves in the directory, by base offset. */
  function Directory(segs: seq<Segment>): map<nat, SegmentFiles>
    decreases |segs|
  {
    if segs == [] then map[]
    else
      var last := segs[|segs| - 1];
      Directory(segs[..|segs| - 1])[last.baseOffset := Files(last)]
  }

  /** With distinct base offsets every segment's files are found under its
      own base offset. */
  lemma {:induction false} DirectoryAt(segs: seq<Segment>)
    requires forall i, j :: 0 <= i < j < |segs| ==> segs[i].baseOffset < segs[j].baseOffset
    ensures forall i :: 0 <= i < |segs| ==>
              segs[i].baseOffset in Directory(segs) && Directory(segs)[segs[i].baseOffset] == Files(segs[i])
    decreases |segs|
  {
    if segs != [] {
      var n := |segs| - 1;
      var pre := segs[..n];
      assert forall i, j :: 0 <= i < j < |pre| ==> pre[i].baseOffset < pre[j].baseOffset by {
        forall i, j | 0 <= i < j < |pre| ensures pre[i].baseOffset < pre[j].baseOffset {
          assert pre[i] == segs[i] && pre[j] == segs[j];
        }
      }
      DirectoryAt(pre);
      forall i | 0 <= i < n
        ensures segs[i].baseOffset in Directory(segs) && Directory(segs)[segs[i].baseOffset] == Files(segs[i])
      {
        assert pre[i] == segs[i];
        assert segs[i].baseOffset < segs[n].baseOffset;
      }
    }
  }

  /** The directory listing of a chained list, in ascending order. */
  lemma {:induction false} FileNamesSorted(segs: seq<Segment>)
    requires forall i, j :: 0 <= i < j < |segs| ==> segs[i].baseOffset < segs[j].baseOffset
    ensures SortedAsc(FileNames(segs))
  {
    var files := FileNames(segs);
    forall i, j | 0 <= i < j < |files| ensures files[i] <= files[j] {
      if i / 2 < j / 2 {
        assert segs[i / 2].baseOffset < segs[j / 2].baseOffset;
      }
    }
  }

  /** Opening every other file name of a chained list, on the directory the
      list left, yields the list. */
  lemma {:induction false} OpenedDirectory(segs: seq<Segment>)
    requires Chained(segs)
    ensures Opened(EveryOther(FileNames(segs)), Directory(segs)) == segs
  {
    var files := FileNames(segs);
    var bases := EveryOther(files);
    assert |bases| == |segs|;
    DirectoryAt(segs);
    var found := Opened(bases, Directory(segs));
    forall i | 0 <= i < |segs| ensures found[i] == segs[i] {
      assert bases[i] == files[2 * i] == segs[i].baseOffset;
      assert Valid(segs[i]);
    }
  }

  /** Closing a chained log and opening a new one on the same directory
      recovers the same segments, whatever order the directory lists its
      files in. */
  lemma {:induction false} ReopenRecovers(segs: seq<Segment>, names: seq<nat>, initial: nat)
    requires Chained(segs) && segs != []
    requires multiset(names) == multiset(FileNames(segs))
    ensures SetupSegments([], names, Directory(segs), initial) == segs
  {
    FileNamesSorted(segs);
    SortSorted(names);
    SortedUnique(Sort(names), FileNames(segs));
    OpenedDirectory(segs);
    assert [] + segs == segs;
  }

  // ----- Reader -----

  /** Every segment's store bytes, in segment order. */
  function ConcatStores(segs: seq<Segment>): seq<byte>
    decreases |segs|
  {
    if segs == [] then [] else ConcatStores(segs[..|segs| - 1]) + segs[|segs| - 1].store
  }

  lemma {:induction false} ConcatStoresFirst(segs: seq<Segment>)
    requires segs != []
    ensures ConcatStores(segs) == segs[0].store + ConcatStores(segs[1..])
    decreases |segs|
  {
    var n := |segs| - 1;
    if n > 0 {
      ConcatStoresFirst(segs[..n]);
      assert segs[..n][1..] == segs[1..][..n - 1];
      assert segs[..n][0] == segs[0];
    }
  }

  /** The log's reader starts with the first record of the first segment,
      framed by its length, as the store wrote it. */
  lemma {:induction false} ReaderFirstRecord(segs: seq<Segment>, config: Config)
    requires segs != [] && Valid(segs[0]) && Framed(segs[0], config) && segs[0].records != []
    ensures Store.Read(ConcatStores(segs), 0) == Ok(segs[0].records[0])
  {
    ConcatStoresFirst(segs);
    var ps := segs[0].records;
    var rest := segs[0].store[|Frames(ps)|..] + ConcatStores(segs[1..]);
    assert ConcatStores(segs) == Frames(ps) + rest;
    assert ps[..0] == [];
    ReadFramed(ps, rest, 0);
  }
}
