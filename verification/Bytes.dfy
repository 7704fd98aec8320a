/** Bytes and the little-endian integers written to bag files. */
module Bytes {
  import RingIndex

  type Byte = x: int | 0 <= x < 256

  const TWO32: nat := 0x1_0000_0000
  const TWO64: nat := 0x1_0000_0000_0000_0000

  /** One more than the largest number of `n` bytes. */
  function Span(n: nat): (p: nat)
    ensures p > 0
  {
    if n == 0 then 1 else 256 * Span(n - 1)
  }

  /** The low `n` bytes of `x`, lowest first. */
  function ToLE(x: nat, n: nat): (bs: seq<Byte>)
    ensures |bs| == n
  {
    if n == 0 then [] else [x % 256] + ToLE(x / 256, n - 1)
  }

  function FromLE(bs: seq<Byte>): (x: nat)
    ensures x < Span(|bs|)
  {
    if |bs| == 0 then 0 else bs[0] + 256 * FromLE(bs[1..])
  }

  lemma {:induction false} LERoundTrip(x: nat, n: nat)
    requires x < Span(n)
    ensures FromLE(ToLE(x, n)) == x
  {
    if n > 0 {
      LERoundTrip(x / 256, n - 1);
      assert ToLE(x, n)[1..] == ToLE(x / 256, n - 1);
    }
  }

  lemma {:induction false} LEOther(bs: seq<Byte>)
    ensures ToLE(FromLE(bs), |bs|) == bs
  {
    if |bs| > 0 {
      LEOther(bs[1..]);
      assert FromLE(bs) % 256 == bs[0] && FromLE(bs) / 256 == FromLE(bs[1..]);
    }
  }

  lemma Spans()
    ensures Span(4) == TWO32 && Span(8) == TWO64
  {
    assert Span(1) == 256 && Span(2) == 0x1_0000 && Span(3) == 0x100_0000 && Span(4) == TWO32;
    assert Span(5) == 0x100_0000_0000 && Span(6) == 0x1_0000_0000_0000 && Span(7) == 0x100_0000_0000_0000;
  }

  lemma QuotientIs(x: nat, d: nat, q: nat, r: nat)
    requires x == d * q + r && r < d
    ensures x / d == q
  {
    var q', r' := x / d, x % d;
    assert x == d * q' + r';
    assert (q - q') * d == r' - r;
    RingIndex.ProductDominates(q - q', d);
  }

  lemma DivideTwice(x: nat, d: nat)
    requires d > 0
    ensures x / 256 / d == x / (256 * d)
  {
    var q, r := x / 256 / d, x / 256 % d;
    assert x / 256 == d * q + r;
    assert x == 256 * (d * q + r) + x % 256;
    assert x == (256 * d) * q + (256 * r + x % 256);
    QuotientIs(x, 256 * d, q, 256 * r + x % 256);
  }

  /** The byte at place `k` is the digit of weight 256^k: the lowest byte comes first. */
  lemma {:induction false} LEByte(x: nat, n: nat, k: nat)
    requires k < n
    ensures ToLE(x, n)[k] == x / Span(k) % 256
  {
    if k > 0 {
      LEByte(x / 256, n - 1, k - 1);
      DivideTwice(x, Span(k - 1));
    }
  }

  lemma FourBytes(bs: seq<Byte>)
    requires |bs| == 4
    ensures FromLE(bs) == bs[0] as int + 0x100 * (bs[1] as int) + 0x1_0000 * (bs[2] as int) + 0x100_0000 * (bs[3] as int)
  {
    assert FromLE(bs[1..][1..][1..]) == bs[3] + 256 * FromLE(bs[1..][1..][1..][1..]);
    assert FromLE(bs[1..][1..]) == bs[2] + 256 * FromLE(bs[1..][1..][1..]);
    assert FromLE(bs[1..]) == bs[1] + 256 * FromLE(bs[1..][1..]);
  }

  lemma EightBytes(bs: seq<Byte>)
    requires |bs| == 8
    ensures FromLE(bs) == bs[0] as int + 0x100 * (bs[1] as int) + 0x1_0000 * (bs[2] as int) + 0x100_0000 * (bs[3] as int)
      + 0x1_0000_0000 * (bs[4] as int) + 0x100_0000_0000 * (bs[5] as int)
      + 0x1_0000_0000_0000 * (bs[6] as int) + 0x100_0000_0000_0000 * (bs[7] as int)
  {
    var high := bs[4..];
    FourBytes(high);
    assert bs[1..][1..][1..][1..] == high;
    assert FromLE(bs[1..][1..][1..]) == bs[3] + 256 * FromLE(high);
    assert FromLE(bs[1..][1..]) == bs[2] + 256 * FromLE(bs[1..][1..][1..]);
    assert FromLE(bs[1..]) == bs[1] + 256 * FromLE(bs[1..][1..]);
  }

  /** What is left of a byte string whose length is stored in 32 bits. */
  function Cut(data: seq<Byte>): (r: seq<Byte>)
    ensures |r| == |data| % TWO32
  {
    data[..|data| % TWO32]
  }

  lemma CutIsWhole(data: seq<Byte>)
    ensures Cut(data) == data <==> |data| < TWO32
  {
  }
}
