/** Bytes and the arithmetic on them that the wire formats use. */
module Bytes {

  type byte = x: int | 0 <= x < 256

  function Pow2(n: nat): (r: nat)
    ensures r >= 1
  {
    if n == 0 then 1 else 2 * Pow2(n - 1)
  }

  lemma {:induction false} Pow2Add(a: nat, b: nat)
    ensures Pow2(a + b) == Pow2(a) * Pow2(b)
  {
    if a > 0 {
      Pow2Add(a - 1, b);
      assert Pow2(a + b) == 2 * Pow2(a - 1 + b);
    }
  }

  /** One more byte of width multiplies the range by 256. */
  lemma Pow2Byte(k: nat)
    ensures Pow2(8 * k + 8) == 256 * Pow2(8 * k)
  {
    Pow2Add(8 * k, 8);
    assert Pow2(8) == 256;
  }

  lemma Pow2Bytes()
    ensures Pow2(6) == 0x40 && Pow2(8) == 0x100 && Pow2(14) == 0x4000 && Pow2(16) == 0x1_0000
  {
    assert Pow2(6) == 0x40;
    assert Pow2(8) == 0x100;
    assert Pow2(14) == 0x4000;
    Pow2Add(8, 8);
  }

  lemma Pow2Words()
    ensures Pow2(30) == 0x4000_0000 && Pow2(32) == 0x1_0000_0000
    ensures Pow2(62) == 0x4000_0000_0000_0000 && Pow2(64) == 0x1_0000_0000_0000_0000
  {
    Pow2Bytes();
    Pow2Add(16, 14);
    Pow2Add(16, 16);
    Pow2Add(32, 30);
    Pow2Add(32, 32);
  }

  lemma {:induction false} Pow2Monotone(a: nat, b: nat)
    requires a <= b
    ensures Pow2(a) <= Pow2(b)
  {
    if a < b {
      Pow2Monotone(a, b - 1);
    }
  }

  lemma AppendAssoc(a: seq<byte>, b: seq<byte>, c: seq<byte>)
    ensures (a + b) + c == a + (b + c)
  {
  }

  lemma AppendDrop(a: seq<byte>, b: seq<byte>)
    ensures (a + b)[|a|..] == b
  {
  }

  /** `b & m` as Python computes it on a byte. */
  function Masked(b: byte, m: byte): byte
  {
    ((b as bv8) & (m as bv8)) as byte
  }

  /** Masking with 2^j tests bit j. */
  lemma MaskedBit(b: byte, j: nat)
    requires j <= 7
    ensures Pow2(j) < 256
    ensures Masked(b, Pow2(j)) != 0 <==> (b / Pow2(j)) % 2 == 1
  {
    if j == 0 { assert Pow2(0) == 1; }
    else if j == 1 { assert Pow2(1) == 2; }
    else if j == 2 { assert Pow2(2) == 4; }
    else if j == 3 { assert Pow2(3) == 8; }
    else if j == 4 { assert Pow2(4) == 16; }
    else if j == 5 { assert Pow2(5) == 32; }
    else if j == 6 { assert Pow2(6) == 64; }
    else { assert Pow2(7) == 128; }
  }

  /** The value of a big-endian byte string, as struct.unpack reads an
      unsigned integer of that width. */
  function FromBigEndian(s: seq<byte>): nat
  {
    if |s| == 0 then 0 else FromBigEndian(s[..|s| - 1]) * 256 + s[|s| - 1]
  }

  /** The `len` low-order bytes of `n`, most significant first, as
      struct.pack_into writes an unsigned integer of that width. */
  function ToBigEndian(n: nat, len: nat): (r: seq<byte>)
    ensures |r| == len
  {
    if len == 0 then [] else ToBigEndian(n / 256, len - 1) + [n % 256]
  }

  lemma {:induction false} BigEndianRoundTrip(n: nat, len: nat)
    requires n < Pow2(8 * len)
    ensures FromBigEndian(ToBigEndian(n, len)) == n
  {
    if len > 0 {
      var s := ToBigEndian(n, len);
      Pow2Byte(len - 1);
      BigEndianRoundTrip(n / 256, len - 1);
      assert s[..|s| - 1] == ToBigEndian(n / 256, len - 1);
    }
  }

  /** A big-endian string of `len` bytes is below 2^(8*len). */
  lemma {:induction false} BigEndianBound(s: seq<byte>)
    ensures FromBigEndian(s) < Pow2(8 * |s|)
  {
    if |s| > 0 {
      BigEndianBound(s[..|s| - 1]);
      Pow2Byte(|s| - 1);
    }
  }

  /** The leading byte of a `len`-byte encoding of a value below
      2^(8*(len-1)+k) is below 2^k. */
  lemma {:induction false} ToBigEndianFirstBound(n: nat, len: nat, k: nat)
    requires 1 <= len && k <= 8 && n < Pow2(8 * (len - 1) + k)
    ensures ToBigEndian(n, len)[0] < Pow2(k)
  {
    if len == 1 {
      Pow2Monotone(k, 8);
      assert Pow2(8) == 256;
    } else {
      Pow2Add(8, 8 * (len - 2) + k);
      assert Pow2(8) == 256;
      assert 8 + (8 * (len - 2) + k) == 8 * (len - 1) + k;
      ToBigEndianFirstBound(n / 256, len - 1, k);
    }
  }

  /** Adding `c` to the first byte adds c * 256^(len-1) to the value. */
  lemma {:induction false} BigEndianAddFirst(s: seq<byte>, c: nat)
    requires |s| >= 1 && s[0] + c < 256
    ensures FromBigEndian([s[0] + c] + s[1..]) == FromBigEndian(s) + c * Pow2(8 * (|s| - 1))
  {
    var t := [s[0] + c] + s[1..];
    if |s| == 1 {
      assert FromBigEndian(t) == s[0] + c;
      assert FromBigEndian(s) == s[0];
    } else {
      var init := s[..|s| - 1];
      BigEndianAddFirst(init, c);
      assert t[..|t| - 1] == [init[0] + c] + init[1..];
      var p := Pow2(8 * (|s| - 2));
      Pow2Byte(|s| - 2);
      assert 8 * (|s| - 2) + 8 == 8 * (|s| - 1);
      MulShift(c, p);
    }
  }

  lemma MulShift(c: nat, p: nat)
    ensures c * (256 * p) == (c * p) * 256
  {
  }

  lemma MulMonotone(a: nat, b: nat, p: nat)
    requires a <= b
    ensures a * p <= b * p
  {
  }

  /** Adding less than p to a multiple of p leaves the remainder by p. */
  lemma ModOfMultipleSplit(high: nat, low: nat, p: nat)
    requires p > 0 && high % p == 0 && low < p
    ensures (high + low) % p == low
  {
    var k := high / p;
    assert high == k * p;
    ModOfMultiplePlus(k, p, low);
  }

  /** The remainder of k * p + low by p is low, for low < p. */
  lemma ModOfMultiplePlus(k: nat, p: nat, low: nat)
    requires low < p
    ensures (k * p + low) % p == low
    ensures (k * p + low) / p == k
  {
    var x := k * p + low;
    var q := x / p;
    assert x == q * p + x % p;
    if q > k {
      MulMonotone(k + 1, q, p);
      assert false;
    } else if q < k {
      MulMonotone(q + 1, k, p);
      assert false;
    }
  }
}
