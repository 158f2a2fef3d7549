/** The record store: an append-only byte file in which every record is an
    8-byte big-endian length followed by the payload. Its Go source is not
    part of this model; the behaviour below is the one its tests rely on. */
module Store {
  import opened BigEndian
  import opened Wrappers

  /** lenWidth: the width of the length prefix. */
  const LenWidth: nat := 8

  /** A record payload: a byte string whose length fits the 8-byte prefix. */
  type Payload = s: seq<byte> | |s| < 0x1_0000_0000_0000_0000

  /** The bytes one record occupies in the store. */
  function Frame(p: Payload): (r: seq<byte>)
    ensures |r| == LenWidth + |p|
  {
    Pow256Widths();
    Encode(|p|, LenWidth) + p
  }

  /** A frame starts with the length of its payload and ends with it. */
  lemma {:induction false} FrameParts(p: Payload)
    ensures Decode(Frame(p)[..LenWidth]) == |p| && Frame(p)[LenWidth..] == p
  {
    Pow256Widths();
    DecodeEncode(|p|, LenWidth);
    assert Frame(p)[..LenWidth] == Encode(|p|, LenWidth);
  }

  /** The store holding exactly the records `ps`, in order. */
  function Frames(ps: seq<Payload>): seq<byte>
  {
    if ps == [] then [] else Frames(ps[..|ps| - 1]) + Frame(ps[|ps| - 1])
  }

  /** What store.Append returns: the bytes written, the position at which the
      length prefix starts, and the new contents of the file. */
  datatype Appended = Appended(n: nat, pos: nat, store: seq<byte>)

  function Append(store: seq<byte>, p: Payload): (r: Appended)
    ensures r.pos == |store| && r.pos + r.n == |r.store|
    ensures r.store[..|store|] == store && r.store[|store|..] == Frame(p)
  {
    Appended(LenWidth + |p|, |store|, store + Frame(p))
  }

  /** store.Read: the payload of the record whose length prefix is at `pos`;
      EOF when the prefix or the payload runs past the end of the file. */
  function Read(store: seq<byte>, pos: nat): (r: Result<Payload>)
    ensures r.Ok? <==> pos + LenWidth <= |store| &&
                       pos + LenWidth + Decode(store[pos..pos + LenWidth]) <= |store|
    ensures r.Ok? ==> |r.value| == Decode(store[pos..pos + LenWidth]) &&
                      store[pos + LenWidth..pos + LenWidth + |r.value|] == r.value
    ensures r.Err? ==> r.error == EOF
  {
    if pos + LenWidth > |store| then Err(EOF)
    else
      var n := Decode(store[pos..pos + LenWidth]);
      Pow256Widths();
      if pos + LenWidth + n > |store| then Err(EOF)
      else Ok(store[pos + LenWidth..pos + LenWidth + n])
  }

  /** The number of bytes store.ReadAt copies into a buffer of `len` bytes
      when reading at `off`. */
  function ReadAtCount(store: seq<byte>, off: nat, len: nat): (n: nat)
    ensures n <= len
    ensures n > 0 ==> off + n <= |store|
    ensures n < len <==> len > 0 && off + len > |store|
    ensures n == len || off + n >= |store|
  {
    if off >= |store| then 0
    else if off + len <= |store| then len
    else |store| - off
  }

  /** store.ReadAt (io.ReaderAt): copies the bytes at `off` into `p`; fewer
      than p.Length bytes means the end of the file was reached (EOF). */
  method ReadAt(store: seq<byte>, p: array<byte>, off: nat) returns (n: nat, err: Outcome)
    modifies p
    ensures n == ReadAtCount(store, off, p.Length)
    ensures forall k :: 0 <= k < n ==> p[k] == store[off + k]
    ensures p[n..] == old(p[n..])
    ensures err == if n < p.Length then Fail(EOF) else Pass
  {
    n := ReadAtCount(store, off, p.Length);
    forall k | 0 <= k < n {
      p[k] := store[off + k];
    }
    err := if n < p.Length then Fail(EOF) else Pass;
  }

  /** Dropping the last element of a concatenation drops it from the second part. */
  lemma {:induction false} ConcatInit<T>(ps: seq<T>, qs: seq<T>)
    requires qs != []
    ensures (ps + qs)[..|ps + qs| - 1] == ps + qs[..|qs| - 1]
    ensures (ps + qs)[|ps + qs| - 1] == qs[|qs| - 1]
  {
  }

  /** The frames of a concatenation are the concatenated frames. */
  lemma {:induction false} FramesAppend(ps: seq<Payload>, qs: seq<Payload>)
    ensures Frames(ps + qs) == Frames(ps) + Frames(qs)
  {
    if qs == [] {
      assert ps + qs == ps;
    } else {
      var init := qs[..|qs| - 1];
      ConcatInit(ps, qs);
      assert Frames(ps + qs) == Frames(ps + init) + Frame(qs[|qs| - 1]);
      FramesAppend(ps, init);
      assert Frames(qs) == Frames(init) + Frame(qs[|qs| - 1]);
    }
  }

  /** The frame of `p` placed at position |pre| reads back as `p`. */
  lemma {:induction false} ReadFrameAt(pre: seq<byte>, p: Payload, post: seq<byte>)
    ensures Read(pre + Frame(p) + post, |pre|) == Ok(p)
  {
    var f := Frame(p);
    FrameParts(p);
    var s := pre + f + post;
    var pos := |pre|;
    assert s[pos..pos + LenWidth] == f[..LenWidth];
    assert s[pos + LenWidth..pos + LenWidth + |p|] == f[LenWidth..];
  }

  /** The frames of `ps` are the frames before record i, then record i's
      frame, then the frames after it. */
  lemma {:induction false} FramesSplit(ps: seq<Payload>, i: nat)
    requires i < |ps|
    ensures Frames(ps) == Frames(ps[..i]) + Frame(ps[i]) + Frames(ps[i + 1..])
  {
    var upto, after := ps[..i + 1], ps[i + 1..];
    assert ps == upto + after;
    FramesAppend(upto, after);
    assert upto[..i] == ps[..i];
    assert Frames(upto) == Frames(ps[..i]) + Frame(ps[i]);
  }

  /** Reading at the position of the i-th record of a store that starts with
      the frames of `ps` gives back that record's payload. */
  lemma {:induction false} ReadFramed(ps: seq<Payload>, rest: seq<byte>, i: nat)
    requires i < |ps|
    ensures Read(Frames(ps) + rest, |Frames(ps[..i])|) == Ok(ps[i])
  {
    FramesSplit(ps, i);
    var fa, f, tail := Frames(ps[..i]), Frame(ps[i]), Frames(ps[i + 1..]) + rest;
    var whole := Frames(ps) + rest;
    assert whole == fa + f + tail;
    ReadFrameAt(fa, ps[i], tail);
  }

  /** `count` copies of `p`. */
  function Repeat(p: Payload, count: nat): (r: seq<Payload>)
    ensures |r| == count
  {
    if count == 0 then [] else Repeat(p, count - 1) + [p]
  }

  lemma {:induction false} FramesRepeatLength(p: Payload, i: nat)
    ensures |Frames(Repeat(p, i))| == i * (LenWidth + |p|)
  {
    if i > 0 {
      var r := Repeat(p, i);
      var w := LenWidth + |p|;
      assert r[..i - 1] == Repeat(p, i - 1) && r[i - 1] == p;
      assert |Frames(r)| == |Frames(Repeat(p, i - 1))| + w;
      FramesRepeatLength(p, i - 1);
      assert |Frames(r)| == (i - 1) * w + w;
      MulStep(w, i);
    }
  }

  /** Appending the same payload `i` times to an empty store: the i-th append
      returns pos + n == width * i, where width = 8 + |p|. */
  lemma {:induction false} AppendWidths(p: Payload, i: nat)
    requires i >= 1
    ensures Append(Frames(Repeat(p, i - 1)), p).store == Frames(Repeat(p, i))
    ensures var a := Append(Frames(Repeat(p, i - 1)), p); a.pos + a.n == i * (LenWidth + |p|)
  {
    var r := Repeat(p, i);
    assert r[..i - 1] == Repeat(p, i - 1) && r[i - 1] == p;
    assert Frames(r) == Frames(Repeat(p, i - 1)) + Frame(p);
    FramesRepeatLength(p, i);
  }
}
