/** Variable-length integers of QUIC (section 16 of RFC 9000) as nfq/protocol.c reads and writes them. */
module Varint {
  import opened Bits
  import opened Bytes

  /** tvb_get_size: 1 << (b >> 6) */
  function TvbGetSize(b: byte): (n: nat)
    ensures 1 <= n
  {
    Pow2(b / 64)
  }

  /** tvb_get_varint: the big-endian number without its two top bits. */
  function TvbGetVarint(d: seq<byte>, pos: nat): nat
    requires pos < |d| && pos + TvbGetSize(d[pos]) <= |d|
  {
    var n := TvbGetSize(d[pos]);
    BigEndian([(d[pos] % 64) as byte] + d[pos + 1..pos + n])
  }

  /** n bytes, most significant first. */
  function ToBytes(v: nat, n: nat): (b: seq<byte>)
    ensures |b| == n
  {
    if n == 0 then [] else ToBytes(v / 256, n - 1) + [(v % 256) as byte]
  }

  lemma {:induction false} BigEndianOfBytes(v: nat, n: nat)
    requires v < Pow2(8 * n)
    ensures BigEndian(ToBytes(v, n)) == v
  {
    if n != 0 {
      Pow2Byte(n - 1);
      QuotientBelow(v, Pow2(8 * (n - 1)));
      BigEndianOfBytes(v / 256, n - 1);
      assert ToBytes(v, n)[..n - 1] == ToBytes(v / 256, n - 1);
    }
  }

  lemma QuotientBelow(v: nat, p: nat)
    requires v < p * 256
    ensures v / 256 < p
  {
  }

  /** The encoding in 2^k bytes; any width that holds the value may be used. */
  function Encode(v: nat, k: nat): (b: seq<byte>)
    requires k <= 3 && v < Pow2(8 * Width(k) - 2)
    ensures |b| == Width(k)
  {
    var b := ToBytes(v, Width(k));
    FirstByteSmall(v, Width(k));
    [(b[0] + 64 * k) as byte] + b[1..]
  }

  function Width(k: nat): (n: nat)
    ensures 1 <= n
  {
    Pow2(k)
  }

  /** A value that leaves two bits free has a first byte below 64. */
  lemma {:induction false} FirstByteSmall(v: nat, n: nat)
    requires 1 <= n && v < Pow2(8 * n - 2)
    ensures ToBytes(v, n)[0] < 64
  {
    if n == 1 {
      assert Pow2(6) == 64;
      assert ToBytes(v, 1) == ToBytes(v / 256, 0) + [(v % 256) as byte];
    } else {
      assert 8 * n - 2 == (8 * (n - 1) - 2) + 8;
      Pow2Add(8 * (n - 1) - 2, 8);
      assert Pow2(8) == 256;
      QuotientBelow(v, Pow2(8 * (n - 1) - 2));
      FirstByteSmall(v / 256, n - 1);
    }
  }

  /** Reading back what was encoded, at any place in a buffer and in any of the widths. */
  lemma EncodeRoundTrip(v: nat, k: nat, before: seq<byte>, after: seq<byte>)
    requires k <= 3 && v < Pow2(8 * Width(k) - 2)
    ensures var d := before + Encode(v, k) + after;
            && TvbGetSize(d[|before|]) == Width(k)
            && TvbGetVarint(d, |before|) == v
  {
    var n, b := Width(k), ToBytes(v, Width(k));
    var d := before + Encode(v, k) + after;
    FirstByteSmall(v, n);
    assert d[|before|] == b[0] + 64 * k;
    TopBits(b[0], k);
    assert d[|before| + 1..|before| + n] == b[1..];
    assert [b[0]] + b[1..] == b;
    Pow2Monotone(8 * n - 2, 8 * n);
    BigEndianOfBytes(v, n);
  }

  /** e is an encoding of v, in any width. */
  predicate IsEncoding(e: seq<byte>, v: nat) {
    e != [] && |e| == TvbGetSize(e[0]) && TvbGetVarint(e, 0) == v
  }

  lemma EncodeIsEncoding(v: nat, k: nat)
    requires k <= 3 && v < Pow2(8 * Width(k) - 2)
    ensures IsEncoding(Encode(v, k), v)
  {
    EncodeRoundTrip(v, k, [], []);
    assert [] + Encode(v, k) + [] == Encode(v, k);
  }

  /** An encoding is read the same wherever it stands. */
  lemma ReadInPlace(before: seq<byte>, e: seq<byte>, after: seq<byte>, v: nat)
    requires IsEncoding(e, v)
    ensures var d := before + e + after;
            d[|before|] == e[0] && TvbGetSize(d[|before|]) == |e| && TvbGetVarint(d, |before|) == v
  {
    var d := before + e + after;
    assert d[|before|] == e[0];
    assert d[|before| + 1..|before| + |e|] == e[1..|e|];
  }

  lemma TopBits(b: nat, k: nat)
    requires b < 64 && k <= 3
    ensures (b + 64 * k) % 64 == b && (b + 64 * k) / 64 == k
    ensures TvbGetSize(b + 64 * k) == Width(k)
  {
  }

  lemma WidthAt3()
    ensures Width(3) == 8
  {
    assert Pow2(2) == 4;
  }
}
