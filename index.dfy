/** The offset index of one segment: a memory-mapped file pre-sized to
    MaxIndexBytes holding 12-byte entries (a big-endian uint32 relative
    offset, then a big-endian uint64 store position), with a logical `size`
    counting the bytes in use. */
module OffsetIndex {
  import opened BigEndian
  import opened Wrappers
  import opened LogConfig

  const OffsetWidth: nat := 4
  const PositionWidth: nat := 8
  /** entryWidth = offsetWidth + positionWidth */
  const EntryWidth: nat := 12

  /** One index entry: a record's offset relative to the segment's base
      offset and the position of its length prefix in the store. */
  datatype Entry = Entry(offset: uint32, position: uint64)

  function EncodeEntry(e: Entry): (r: seq<byte>)
    ensures |r| == EntryWidth
  {
    Pow256Widths();
    Encode(e.offset, OffsetWidth) + Encode(e.position, PositionWidth)
  }

  function DecodeEntry(s: seq<byte>): Entry
    requires |s| == EntryWidth
  {
    Pow256Widths();
    Entry(Decode(s[..OffsetWidth]), Decode(s[OffsetWidth..]))
  }

  lemma {:induction false} EntryRoundTrip(e: Entry)
    ensures DecodeEntry(EncodeEntry(e)) == e
  {
    Pow256Widths();
    var r := EncodeEntry(e);
    assert r[..OffsetWidth] == Encode(e.offset, OffsetWidth);
    assert r[OffsetWidth..] == Encode(e.position, PositionWidth);
    DecodeEncode(e.offset, OffsetWidth);
    DecodeEncode(e.position, PositionWidth);
  }

  lemma {:induction false} EntryBytesRoundTrip(s: seq<byte>)
    requires |s| == EntryWidth
    ensures EncodeEntry(DecodeEntry(s)) == s
  {
    EncodeDecode(s[..OffsetWidth]);
    EncodeDecode(s[OffsetWidth..]);
    assert s == s[..OffsetWidth] + s[OffsetWidth..];
  }

  /** The entries stored in `s`, one per complete 12-byte chunk. */
  function DecodeEntries(s: seq<byte>): (es: seq<Entry>)
    ensures |es| == |s| / EntryWidth
    decreases |s|
  {
    if |s| < EntryWidth then []
    else [DecodeEntry(s[..EntryWidth])] + DecodeEntries(s[EntryWidth..])
  }

  lemma {:induction false} DecodeEntriesAt(s: seq<byte>, i: nat)
    requires i < |s| / EntryWidth
    ensures DecodeEntries(s)[i] == DecodeEntry(s[i * EntryWidth..i * EntryWidth + EntryWidth])
    decreases i
  {
    if i > 0 {
      var t := s[EntryWidth..];
      var at := (i - 1) * EntryWidth;
      assert at + EntryWidth == i * EntryWidth by {
        MulStep(EntryWidth, i);
      }
      assert i - 1 < |t| / EntryWidth;
      DecodeEntriesAt(t, i - 1);
      assert t[at..at + EntryWidth] == s[at + EntryWidth..at + EntryWidth + EntryWidth];
    }
  }


  lemma {:induction false} DecodeEntriesAppend(s: seq<byte>, e: Entry)
    requires |s| % EntryWidth == 0
    ensures DecodeEntries(s + EncodeEntry(e)) == DecodeEntries(s) + [e]
    decreases |s|
  {
    var t := s + EncodeEntry(e);
    if |s| == 0 {
      assert t == EncodeEntry(e) && t[..EntryWidth] == t && t[EntryWidth..] == [];
      EntryRoundTrip(e);
    } else {
      assert t[..EntryWidth] == s[..EntryWidth];
      assert t[EntryWidth..] == s[EntryWidth..] + EncodeEntry(e);
      DecodeEntriesAppend(s[EntryWidth..], e);
    }
  }

  /** The entry number Read selects: uint32(size/entryWidth - 1) for -1, the
      last entry, and uint32(input) otherwise. Go's conversions keep the low
      32 bits, which for any integer (and for the uint64 underflow of
      size/entryWidth - 1 when size < entryWidth) is its Euclidean remainder
      modulo 2^32. */
  function Selected(input: int, size: nat): (r: uint32)
    ensures input != -1 ==> (r - input) % 0x1_0000_0000 == 0
    ensures input == -1 ==> (r + 1 - size / EntryWidth) % 0x1_0000_0000 == 0
  {
    if input == -1 then (size / EntryWidth - 1) % 0x1_0000_0000
    else input % 0x1_0000_0000
  }

  lemma {:induction false} SelectedValue(input: int, size: nat)
    ensures 0 <= input < 0x1_0000_0000 ==> Selected(input, size) == input
    ensures input == -1 && 0 < size / EntryWidth <= 0x1_0000_0000 ==>
              Selected(input, size) == size / EntryWidth - 1
  {
  }

  /** Entry number `slot` lies wholly within the first `size` bytes exactly
      when there are more than `slot` complete entries. */
  lemma {:induction false} EntryFits(slot: nat, size: nat)
    ensures slot * EntryWidth + EntryWidth <= size <==> slot < size / EntryWidth
  {
  }

  /** A slice of the first `size` elements is the same slice of the whole
      sequence, and it splits at any point inside it. */
  lemma {:induction false} SliceWithin<T>(s: seq<T>, size: nat, lo: nat, mid: nat, hi: nat)
    requires lo <= mid <= hi <= size <= |s|
    ensures s[..size][lo..hi] == s[lo..hi]
    ensures s[lo..hi][..mid - lo] == s[lo..mid] && s[lo..hi][mid - lo..] == s[mid..hi]
  {
  }

  /** enc.PutUint32 / enc.PutUint64: writes the `width` big-endian bytes of
      `x` at `at` and leaves the rest of `a` untouched. */
  method PutBigEndian(a: array<byte>, at: nat, x: nat, width: nat)
    requires at + width <= a.Length && x < Pow256(width)
    modifies a
    ensures a[..] == old(a[..at]) + Encode(x, width) + old(a[at + width..])
  {
    var bytes := Encode(x, width);
    for k := 0 to width
      invariant forall j :: 0 <= j < at ==> a[j] == old(a[j])
      invariant forall j :: 0 <= j < k ==> a[at + j] == bytes[j]
      invariant forall j :: at + k <= j < a.Length ==> a[j] == old(a[j])
    {
      a[at + k] := bytes[k];
    }
    assert a[..] == old(a[..at]) + bytes + old(a[at + width..]);
  }

  lemma {:induction false} ModEntryWidth(n: nat)
    ensures (n + EntryWidth) % EntryWidth == n % EntryWidth
  {
  }

  /** Writing the two halves of `bytes` one after the other at `at` writes
      all of `bytes` there. */
  lemma {:induction false} WriteSplices(before: seq<byte>, mid: seq<byte>, after: seq<byte>, at: nat, bytes: seq<byte>, cut: nat)
    requires cut <= |bytes| && at + |bytes| <= |before| == |mid|
    requires mid[..at + cut] == before[..at] + bytes[..cut]
    requires mid[at + |bytes|..] == before[at + |bytes|..]
    requires after == mid[..at + cut] + bytes[cut..] + mid[at + |bytes|..]
    ensures after == before[..at] + bytes + before[at + |bytes|..]
    ensures after[..at + |bytes|] == before[..at] + bytes
  {
    assert bytes == bytes[..cut] + bytes[cut..];
  }

  class Index {
    /** The mapped region of the index file. */
    var mmap: array<byte>
    /** The number of bytes of `mmap` in use. */
    var size: nat

    ghost predicate Valid()
      reads this
    {
      size <= mmap.Length
    }

    /** The entries written so far. */
    ghost function Entries(): seq<Entry>
      reads this, mmap
      requires Valid()
    {
      DecodeEntries(mmap[..size])
    }

    /** newIndex: `size` is the length of the file as found on disk; the file
        is then truncated or zero-extended to MaxIndexBytes and mapped. */
    constructor (file: seq<byte>, config: Config)
      requires |file| <= config.maxIndexBytes
      ensures Valid() && fresh(mmap)
      ensures mmap.Length == config.maxIndexBytes
      ensures size == |file| && mmap[..size] == file
      ensures forall k :: size <= k < mmap.Length ==> mmap[k] == 0
    {
      size := |file|;
      mmap := new byte[config.maxIndexBytes]((k: nat) => if k < |file| then file[k] else 0);
    }

    /** Close: after syncing, the file is truncated back to `size`, so what
        remains on disk is exactly the bytes in use. */
    method Close() returns (file: seq<byte>)
      requires Valid()
      ensures |file| == size && DecodeEntries(file) == Entries()
      ensures forall k :: 0 <= k < size ==> file[k] == mmap[k]
    {
      file := mmap[..size];
    }

    method Read(input: int) returns (offset: uint32, position: uint64, err: Outcome)
      requires Valid()
      requires -0x8000_0000_0000_0000 <= input < 0x8000_0000_0000_0000
      ensures err == Pass || err == Fail(EOF)
      ensures err.Fail? ==> offset == 0 && position == 0
      ensures err.Pass? <==> size > 0 && Selected(input, size) * EntryWidth + EntryWidth <= size
      ensures err.Pass? ==> Entry(offset, position) == Entries()[Selected(input, size)]
      ensures size == 0 ==> err == Fail(EOF)
      ensures 0 <= input < |Entries()| && input < 0x1_0000_0000 ==>
                err.Pass? && Entry(offset, position) == Entries()[input]
      ensures input == -1 && 0 < |Entries()| <= 0x1_0000_0000 ==>
                err.Pass? && Entry(offset, position) == Entries()[|Entries()| - 1]
      ensures 0 <= input < 0x1_0000_0000 && input * EntryWidth + EntryWidth > size ==> err == Fail(EOF)
    {
      if size == 0 {
        return 0, 0, Fail(EOF);
      }
      var rel := Selected(input, size);
      SelectedValue(input, size);
      EntryFits(rel, size);
      var pos := rel * EntryWidth;
      if size < pos + EntryWidth {
        return 0, 0, Fail(EOF);
      }
      Pow256Widths();
      offset := Decode(mmap[pos..pos + OffsetWidth]);
      position := Decode(mmap[pos + OffsetWidth..pos + EntryWidth]);
      err := Pass;
      SliceWithin(mmap[..], size, pos, pos + OffsetWidth, pos + EntryWidth);
      DecodeEntriesAt(mmap[..size], rel);
    }

    method Write(offset: uint32, position: uint64) returns (err: Outcome)
      requires Valid()
      modifies this`size, mmap
      ensures Valid()
      ensures err == Pass || err == Fail(EOF)
      ensures err.Fail? <==> mmap.Length < old(size) + EntryWidth
      ensures err.Fail? ==> size == old(size) && mmap[..] == old(mmap[..])
      ensures err.Pass? ==> size == old(size) + EntryWidth
      ensures err.Pass? ==> mmap[..] == old(mmap[..size]) + EncodeEntry(Entry(offset, position))
                                        + old(mmap[size + EntryWidth..])
      ensures size % EntryWidth == old(size) % EntryWidth
      ensures err.Pass? && old(size) % EntryWidth == 0 ==>
                Entries() == old(Entries()) + [Entry(offset, position)]
    {
      if mmap.Length < size + EntryWidth {
        return Fail(EOF);
      }
      Pow256Widths();
      ghost var before := mmap[..];
      ghost var e := Entry(offset, position);
      PutBigEndian(mmap, size, offset, OffsetWidth);
      ghost var mid := mmap[..];
      PutBigEndian(mmap, size + OffsetWidth, position, PositionWidth);
      assert mid[..size + OffsetWidth] == before[..size] + Encode(offset, OffsetWidth);
      assert mid[size + EntryWidth..] == before[size + EntryWidth..];
      WriteSplices(before, mid, mmap[..], size, EncodeEntry(e), OffsetWidth);
      if size % EntryWidth == 0 {
        DecodeEntriesAppend(before[..size], Entry(offset, position));
      }
      ModEntryWidth(size);
      size := size + EntryWidth;
      err := Pass;
    }
  }

  /** Close followed by newIndex on the same file with the same
      configuration gives an index with the same size and entries. */
  method CloseAndReopen(idx: Index, config: Config) returns (reopened: Index)
    requires idx.Valid() && idx.size <= config.maxIndexBytes
    ensures fresh(reopened) && reopened.Valid()
    ensures reopened.size == idx.size && reopened.Entries() == idx.Entries()
  {
    var file := idx.Close();
    reopened := new Index(file, config);
  }

  /** The write/read/reopen sequence of the index test, checked against the
      contracts above. */
  method IndexScenario()
  {
    var config := Config(0, 1024, 0);
    var idx := new Index([], config);
    var o, p, err := idx.Read(-1);
    assert err == Fail(EOF);
    err := idx.Write(0, 0);
    assert err == Pass;
    o, p, err := idx.Read(0);
    assert err == Pass && p == 0;
    err := idx.Write(1, 10);
    assert err == Pass;
    o, p, err := idx.Read(1);
    assert err == Pass && p == 10;
    o, p, err := idx.Read(2);
    assert err == Fail(EOF);
    var entries := idx.Entries();
    assert entries == [Entry(0, 0), Entry(1, 10)];
    idx := CloseAndReopen(idx, config);
    o, p, err := idx.Read(-1);
    assert err == Pass && o == 1 && p == 10;
  }
}
