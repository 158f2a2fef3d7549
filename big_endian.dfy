/** Fixed-width unsigned integers and their big-endian byte encoding
    (Go's encoding/binary.BigEndian, used by the store and the index). */
module BigEndian {

  type byte = x: int | 0 <= x < 256
  type uint32 = x: int | 0 <= x < 0x1_0000_0000
  type uint64 = x: int | 0 <= x < 0x1_0000_0000_0000_0000

  function Pow256(n: nat): (r: nat)
    ensures r >= 1
  {
    if n == 0 then 1 else 256 * Pow256(n - 1)
  }

  lemma {:induction false} Pow256Widths()
    ensures Pow256(4) == 0x1_0000_0000
    ensures Pow256(8) == 0x1_0000_0000_0000_0000
  {
  }

  lemma {:induction false} MulStep(w: nat, i: nat)
    requires i > 0
    ensures (i - 1) * w + w == i * w
  {
  }

  /** The `width` bytes of `x`, most significant first. */
  function Encode(x: nat, width: nat): (r: seq<byte>)
    requires x < Pow256(width)
    ensures |r| == width
  {
    if width == 0 then []
    else Encode(x / 256, width - 1) + [x % 256]
  }

  /** The number whose big-endian bytes are `s`. */
  function Decode(s: seq<byte>): (x: nat)
    ensures x < Pow256(|s|)
  {
    if s == [] then 0
    else
      var x := Decode(s[..|s| - 1]);
      assert x <= Pow256(|s| - 1) - 1;
      x * 256 + s[|s| - 1]
  }

  lemma {:induction false} DecodeEncode(x: nat, width: nat)
    requires x < Pow256(width)
    ensures Decode(Encode(x, width)) == x
  {
    if width > 0 {
      var r := Encode(x, width);
      assert r[..width - 1] == Encode(x / 256, width - 1);
      DecodeEncode(x / 256, width - 1);
    }
  }

  lemma {:induction false} EncodeDecode(s: seq<byte>)
    ensures Encode(Decode(s), |s|) == s
  {
    if s != [] {
      var init := s[..|s| - 1];
      EncodeDecode(init);
      var x := Decode(s);
      assert x / 256 == Decode(init) && x % 256 == s[|s| - 1];
      assert s == init + [s[|s| - 1]];
    }
  }

  /** A quotient is fixed by any division equation with a remainder in range. */
  lemma {:induction false} DivUnique(x: nat, m: nat, t: nat, rem: nat)
    requires m > 0 && x == m * t + rem && rem < m
    ensures x / m == t
  {
    var q := x / m;
    assert x == m * q + x % m;
    if q < t {
      assert m * q + m <= m * t by { MulMono(m, q + 1, t); }
    } else if q > t {
      assert m * t + m <= m * q by { MulMono(m, t + 1, q); }
    }
  }

  lemma {:induction false} MulMono(m: nat, a: nat, b: nat)
    requires a <= b
    ensures m * a <= m * b
  {
  }

  /** (x / 256) / b is x / (256 * b). */
  lemma {:induction false} DivDiv(x: nat, b: nat)
    requires b > 0
    ensures (x / 256) / b == x / (256 * b)
  {
    var q, r1 := x / 256, x % 256;
    var t, r2 := q / b, q % b;
    assert q == b * t + r2;
    assert x == 256 * q + r1;
    Distribute(b * t, r2);
    assert x == (256 * b) * t + (256 * r2 + r1);
    MulMono(256, r2, b - 1);
    DivUnique(x, 256 * b, t, 256 * r2 + r1);
  }

  lemma {:induction false} Distribute(u: nat, v: nat)
    ensures 256 * (u + v) == 256 * u + 256 * v
  {
  }

  /** The first byte is the most significant one: Encode is big-endian. */
  lemma {:induction false} EncodeFirstByte(x: nat, width: nat)
    requires 0 < width && x < Pow256(width)
    ensures Encode(x, width)[0] == x / Pow256(width - 1)
  {
    if width > 1 {
      EncodeFirstByte(x / 256, width - 1);
      DivDiv(x, Pow256(width - 2));
    }
  }

  /** Two byte strings decode to the same number only if they are equal. */
  lemma {:induction false} DecodeInjective(s: seq<byte>, t: seq<byte>)
    requires |s| == |t| && Decode(s) == Decode(t)
    ensures s == t
  {
    EncodeDecode(s);
    EncodeDecode(t);
  }
}
