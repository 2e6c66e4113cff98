/**
 * Bytes, unsigned 64-bit values and the two ways of assembling a run of
 * bytes into a number (most significant byte first or last).
 */
module Bytes {
  /** 2^64: `uint64_t` arithmetic is arithmetic modulo this value. */
  const U64_LIMIT: int := 0x1_0000_0000_0000_0000

  type U64 = x: int | 0 <= x < U64_LIMIT
  type Byte = x: int | 0 <= x < 256

  function Pow256(n: nat): (r: nat)
    ensures r >= 1
  {
    if n == 0 then 1 else 256 * Pow256(n - 1)
  }

  lemma {:induction false} Pow256Monotonic(m: nat, n: nat)
    requires m <= n
    ensures Pow256(m) <= Pow256(n)
  {
    if m < n {
      Pow256Monotonic(m, n - 1);
    }
  }

  /** Eight bytes fill a `uint64_t` exactly. */
  lemma Pow256Eight()
    ensures Pow256(8) == U64_LIMIT
  {
  }

  lemma Pow256AtMostU64(n: nat)
    requires n <= 8
    ensures Pow256(n) <= U64_LIMIT
  {
    Pow256Monotonic(n, 8);
    Pow256Eight();
  }

  function Pow2(n: nat): (r: nat)
    ensures r >= 1
  {
    if n == 0 then 1 else 2 * Pow2(n - 1)
  }

  /** n bytes hold 8n bits. */
  lemma {:induction false} Pow2OfBytes(n: nat)
    ensures Pow2(8 * n) == Pow256(n)
  {
    if n > 0 {
      Pow2OfBytes(n - 1);
      var m := 8 * (n - 1);
      assert Pow2(m + 8) == 2 * Pow2(m + 7) == 4 * Pow2(m + 6) == 8 * Pow2(m + 5) == 16 * Pow2(m + 4);
      assert Pow2(m + 4) == 2 * Pow2(m + 3) == 4 * Pow2(m + 2) == 8 * Pow2(m + 1) == 16 * Pow2(m);
    }
  }

  /** The number whose base-256 digits are `bs`, most significant first. */
  function BigEndian(bs: seq<Byte>): (r: nat)
    ensures r < Pow256(|bs|)
  {
    if bs == [] then 0 else BigEndian(bs[..|bs| - 1]) * 256 + bs[|bs| - 1]
  }

  /** The number whose base-256 digits are `bs`, least significant first. */
  function LittleEndian(bs: seq<Byte>): (r: nat)
    ensures r < Pow256(|bs|)
  {
    if bs == [] then 0 else bs[0] + 256 * LittleEndian(bs[1..])
  }

  /** One more byte, most significant first. */
  lemma BigEndianSnoc(w: seq<Byte>, i: nat)
    requires i < |w|
    ensures BigEndian(w[..i + 1]) == BigEndian(w[..i]) * 256 + w[i]
  {
    assert w[..i + 1][..i] == w[..i];
  }

  /** One more byte, least significant first. */
  lemma LittleEndianCons(w: seq<Byte>, k: nat)
    requires k < |w|
    ensures LittleEndian(w[k..]) == w[k] + 256 * LittleEndian(w[k + 1..])
  {
    assert w[k..][1..] == w[k + 1..];
  }

  /** `(acc << 8) | b` in `uint64_t` loses nothing while fewer than eight
      bytes have been shifted in. */
  lemma ShiftInByte(acc: nat, i: nat, b: Byte)
    requires i < 8 && acc < Pow256(i)
    ensures (acc * 256) % U64_LIMIT + b == acc * 256 + b
    ensures acc * 256 + b < Pow256(i + 1)
  {
    Pow256AtMostU64(i + 1);
    assert acc * 256 + b < Pow256(i) * 256 by {
      assert acc * 256 <= (Pow256(i) - 1) * 256;
    }
  }

  function Reverse<T>(s: seq<T>): (r: seq<T>)
    ensures |r| == |s|
    ensures forall k :: 0 <= k < |s| ==> r[k] == s[|s| - 1 - k]
  {
    if s == [] then [] else Reverse(s[1..]) + [s[0]]
  }

  /** Positional weights, most significant first: the bytes of `a` weigh
      256^|b| times as much as their value alone. */
  lemma {:induction false} BigEndianAppend(a: seq<Byte>, b: seq<Byte>)
    ensures BigEndian(a + b) == BigEndian(a) * Pow256(|b|) + BigEndian(b)
  {
    if b == [] {
      assert a + b == a;
    } else {
      var b' := b[..|b| - 1];
      assert (a + b)[..|a + b| - 1] == a + b';
      BigEndianAppend(a, b');
      ShiftInto(BigEndian(a), Pow256(|b'|), BigEndian(b'), b[|b| - 1]);
    }
  }

  lemma ShiftInto(x: int, p: int, y: int, z: int)
    ensures (x * p + y) * 256 + z == x * (256 * p) + (y * 256 + z)
  {
  }

  lemma ShiftOut(x: int, p: int, y: int, z: int)
    ensures z + 256 * (x + p * y) == (z + 256 * x) + (256 * p) * y
  {
  }

  /** Positional weights, least significant first: the bytes of `b` weigh
      256^|a| times as much as their value alone. */
  lemma {:induction false} LittleEndianAppend(a: seq<Byte>, b: seq<Byte>)
    ensures LittleEndian(a + b) == LittleEndian(a) + Pow256(|a|) * LittleEndian(b)
  {
    if a == [] {
      assert a + b == b;
    } else {
      assert (a + b)[1..] == a[1..] + b;
      LittleEndianAppend(a[1..], b);
      ShiftOut(LittleEndian(a[1..]), Pow256(|a| - 1), LittleEndian(b), a[0]);
    }
  }

  /** Little-endian assembly is big-endian assembly of the reversed bytes. */
  lemma {:induction false} LittleEndianIsReversedBigEndian(bs: seq<Byte>)
    ensures LittleEndian(bs) == BigEndian(Reverse(bs))
  {
    if bs != [] {
      LittleEndianIsReversedBigEndian(bs[1..]);
      var r := Reverse(bs[1..]) + [bs[0]];
      assert r[..|r| - 1] == Reverse(bs[1..]);
    }
  }

  /** The `n` bytes of `v`, most significant first (`v` taken modulo 256^n). */
  function BigEndianBytes(v: nat, n: nat): (bs: seq<Byte>)
    ensures |bs| == n
  {
    if n == 0 then [] else BigEndianBytes(v / 256, n - 1) + [v % 256]
  }

  /** Big-endian assembly is a bijection between n-byte sequences and the
      numbers below 256^n: encoding then assembling gives the number back ... */
  lemma {:induction false} BigEndianOfBytes(v: nat, n: nat)
    requires v < Pow256(n)
    ensures BigEndian(BigEndianBytes(v, n)) == v
  {
    if n > 0 {
      var bs := BigEndianBytes(v, n);
      assert bs[..n - 1] == BigEndianBytes(v / 256, n - 1);
      BigEndianOfBytes(v / 256, n - 1);
    }
  }

  /** ... and assembling then encoding gives the bytes back. */
  lemma {:induction false} BytesOfBigEndian(bs: seq<Byte>)
    ensures BigEndianBytes(BigEndian(bs), |bs|) == bs
  {
    if bs != [] {
      var init := bs[..|bs| - 1];
      var v := BigEndian(bs);
      assert v / 256 == BigEndian(init);
      assert v % 256 == bs[|bs| - 1];
      BytesOfBigEndian(init);
      assert bs == init + [bs[|bs| - 1]];
    }
  }

  /** A four-byte word, least significant byte first. */
  lemma LittleEndianFour(b0: Byte, b1: Byte, b2: Byte, b3: Byte)
    ensures LittleEndian([b0, b1, b2, b3]) == b0 + 0x100 * b1 + 0x1_0000 * b2 + 0x100_0000 * b3
  {
    var w1: seq<Byte> := [b3];
    var w2: seq<Byte> := [b2, b3];
    var w3: seq<Byte> := [b1, b2, b3];
    var w4: seq<Byte> := [b0, b1, b2, b3];
    assert w1[1..] == [] && w2[1..] == w1 && w3[1..] == w2 && w4[1..] == w3;
    assert LittleEndian(w1) == b3;
    assert LittleEndian(w2) == b2 + 0x100 * b3;
    assert LittleEndian(w3) == b1 + 0x100 * b2 + 0x1_0000 * b3;
  }

  /** The worked example: bytes 01 02 03 04. */
  lemma EndiannessExample()
    ensures BigEndian([0x01, 0x02, 0x03, 0x04]) == 0x01020304
    ensures LittleEndian([0x01, 0x02, 0x03, 0x04]) == 0x04030201
  {
    var b1: seq<Byte> := [0x01];
    var b2: seq<Byte> := [0x01, 0x02];
    var b3: seq<Byte> := [0x01, 0x02, 0x03];
    var b4: seq<Byte> := [0x01, 0x02, 0x03, 0x04];
    assert b1[..0] == [] && b2[..1] == b1 && b3[..2] == b2 && b4[..3] == b3;
    assert BigEndian(b1) == 0x01;
    assert BigEndian(b2) == 0x0102;
    assert BigEndian(b3) == 0x010203;
    var l1: seq<Byte> := [0x04];
    var l2: seq<Byte> := [0x03, 0x04];
    var l3: seq<Byte> := [0x02, 0x03, 0x04];
    assert l1[1..] == [] && l2[1..] == l1 && l3[1..] == l2 && b4[1..] == l3;
    assert LittleEndian(l1) == 0x04;
    assert LittleEndian(l2) == 0x0403;
    assert LittleEndian(l3) == 0x040302;
  }
}
