/** Byte strings as numbers, most significant byte first. */
module Bytes {
  import opened Bits

  type byte = x: nat | x < 256

  function BigEndian(b: seq<byte>): nat {
    if b == [] then 0 else BigEndian(b[..|b| - 1]) * 256 + b[|b| - 1]
  }

  lemma {:induction false} BigEndianBound(b: seq<byte>)
    ensures BigEndian(b) < Pow2(8 * |b|)
  {
    if b != [] {
      BigEndianBound(b[..|b| - 1]);
      Pow2Add(8 * (|b| - 1), 8);
      assert Pow2(8) == 256;
    }
  }

  lemma {:induction false} BigEndianInjective(a: seq<byte>, b: seq<byte>)
    requires |a| == |b|
    ensures BigEndian(a) == BigEndian(b) <==> a == b
  {
    if a != [] {
      var n := |a| - 1;
      BigEndianInjective(a[..n], b[..n]);
      assert a == a[..n] + [a[n]] && b == b[..n] + [b[n]];
    }
  }

  lemma {:induction false} BigEndianConcat(a: seq<byte>, b: seq<byte>)
    ensures BigEndian(a + b) == BigEndian(a) * Pow2(8 * |b|) + BigEndian(b)
  {
    if b == [] {
      assert a + b == a;
    } else {
      var n := |b| - 1;
      assert (a + b)[..|a + b| - 1] == a + b[..n];
      BigEndianConcat(a, b[..n]);
      Pow2Byte(n);
      ShiftByByte(BigEndian(a), Pow2(8 * n), BigEndian(b[..n]), b[n]);
    }
  }

  lemma Pow2Byte(n: nat)
    ensures Pow2(8 * (n + 1)) == Pow2(8 * n) * 256
  {
    Pow2Add(8 * n, 8);
    assert Pow2(8) == 256;
  }

  lemma ShiftByByte(x: nat, p: nat, y: nat, c: nat)
    ensures (x * p + y) * 256 + c == x * (p * 256) + (y * 256 + c)
  {
  }

  function AndByte(x: byte, y: byte): byte {
    AndAtMost(x, y);
    And(x, y)
  }

  function AndBytes(a: seq<byte>, b: seq<byte>): (r: seq<byte>)
    requires |a| == |b|
    ensures |r| == |a|
  {
    seq(|a|, i requires 0 <= i < |a| => AndByte(a[i], b[i]))
  }

  /** The bytewise AND is the AND of the numbers. */
  lemma {:induction false} AndBytesIsAnd(a: seq<byte>, b: seq<byte>)
    requires |a| == |b|
    ensures BigEndian(AndBytes(a, b)) == And(BigEndian(a), BigEndian(b))
  {
    if a != [] {
      var n := |a| - 1;
      AndBytesIsAnd(a[..n], b[..n]);
      assert AndBytes(a, b)[..n] == AndBytes(a[..n], b[..n]);
      assert Pow2(8) == 256;
      AndSplit(BigEndian(a[..n]), a[n], BigEndian(b[..n]), b[n], 8);
    }
  }

  /** memset */
  function Fill(n: nat, c: byte): (r: seq<byte>)
    ensures |r| == n
  {
    seq(n, i => c)
  }

  lemma {:induction false} BigEndianZeros(n: nat)
    ensures BigEndian(Fill(n, 0)) == 0
  {
    if n != 0 {
      assert Fill(n, 0)[..n - 1] == Fill(n - 1, 0);
      BigEndianZeros(n - 1);
    }
  }

  lemma {:induction false} BigEndianOnes(n: nat)
    ensures BigEndian(Fill(n, 0xFF)) == Pow2(8 * n) - 1
  {
    if n != 0 {
      assert Fill(n, 0xFF)[..n - 1] == Fill(n - 1, 0xFF);
      BigEndianOnes(n - 1);
      Pow2Add(8 * (n - 1), 8);
      assert Pow2(8) == 256;
    }
  }

  // ---------- numbers in network byte order ----------

  /** v / 256 and v % 256, counted down so that callers are not charged for the division. */
  function Above(v: nat): nat {
    if v < 256 then 0 else 1 + Above(v - 256)
  }

  function Low(v: nat): byte {
    if v < 256 then v else Low(v - 256)
  }

  lemma {:induction false} AboveAndLow(v: nat)
    ensures v == 256 * Above(v) + Low(v) && Above(v) == v / 256 && Low(v) == v % 256
  {
    if v >= 256 {
      AboveAndLow(v - 256);
    }
  }

  /** phton16: only the low 16 bits are stored. */
  function Be16(v: nat): (b: seq<byte>)
    ensures |b| == 2
  {
    [Low(Above(v)), Low(v)]
  }

  /** phton24 */
  function Be24(v: nat): (b: seq<byte>)
    ensures |b| == 3
  {
    [Low(Above(Above(v))), Low(Above(v)), Low(v)]
  }

  /** pntoh16 */
  function Get16(s: seq<byte>, i: nat): (v: nat)
    requires i + 2 <= |s|
    ensures v < 0x1_0000
  {
    256 * (s[i] as nat) + s[i + 1]
  }

  /** pntoh24 */
  function Get24(s: seq<byte>, i: nat): (v: nat)
    requires i + 3 <= |s|
    ensures v < 0x100_0000
  {
    0x1_0000 * (s[i] as nat) + 256 * (s[i + 1] as nat) + s[i + 2]
  }

  /** htonl */
  function Be32(v: nat): (b: seq<byte>)
    ensures |b| == 4
  {
    Be16(Above(Above(v))) + Be16(v)
  }

  function Get32(s: seq<byte>, i: nat): (v: nat)
    requires i + 4 <= |s|
    ensures v < 0x1_0000_0000
  {
    0x1_0000 * Get16(s, i) + Get16(s, i + 2)
  }

  lemma Get32Of(s: seq<byte>, i: nat, v: nat)
    requires i + 4 <= |s| && s[i..i + 4] == Be32(v) && v < 0x1_0000_0000
    ensures Get32(s, i) == v
  {
    var f := s[i..i + 4];
    assert s[i] == f[0] && s[i + 1] == f[1] && s[i + 2] == f[2] && s[i + 3] == f[3];
    AboveAndLow(v);
    AboveAndLow(Above(v));
    AboveAndLow(Above(Above(v)));
    AboveAndLow(Above(Above(Above(v))));
  }

  lemma Get16Of(s: seq<byte>, i: nat, v: nat)
    requires i + 2 <= |s| && s[i..i + 2] == Be16(v) && v < 0x1_0000
    ensures Get16(s, i) == v
  {
    assert s[i] == s[i..i + 2][0] && s[i + 1] == s[i..i + 2][1];
    AboveAndLow(v);
    AboveAndLow(Above(v));
  }

  lemma Get24Of(s: seq<byte>, i: nat, v: nat)
    requires i + 3 <= |s| && s[i..i + 3] == Be24(v) && v < 0x100_0000
    ensures Get24(s, i) == v
  {
    assert s[i] == s[i..i + 3][0] && s[i + 1] == s[i..i + 3][1] && s[i + 2] == s[i..i + 3][2];
    AboveAndLow(v);
    AboveAndLow(Above(v));
    AboveAndLow(Above(Above(v)));
  }

  /** Taking the last piece off a concatenation at the front of `s`. */
  lemma Peel(s: seq<byte>, p: seq<byte>, q: seq<byte>)
    requires |p| + |q| <= |s| && s[..|p| + |q|] == p + q
    ensures s[..|p|] == p && s[|p|..|p| + |q|] == q
  {
    assert s[..|p|] == s[..|p| + |q|][..|p|];
    assert s[|p|..|p| + |q|] == s[..|p| + |q|][|p|..];
  }
}
