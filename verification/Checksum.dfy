/** The Internet checksum of nfq/checksum.c on a little-endian machine, against the 16-bit
    one's complement sum of section 1 of RFC 1071.

    A buffer is a byte sequence plus the address it starts at; only the address modulo 8 matters.
 */
module Checksum {
  import opened Bytes

  const W16 := 0x1_0000
  const W32 := 0x1_0000_0000
  const W64 := 0x1_0000_0000_0000_0000
  // One's complement arithmetic on 16 bits is arithmetic modulo 2^16 - 1 with two zeros.
  const M := 0xFFFF

  // ---------- one's complement numbers ----------

  /** The 16-bit one's complement value of a sum: 0 only for 0, otherwise in 1..0xFFFF. */
  function Ones(x: nat): (r: nat)
    ensures r <= M
    ensures r == 0 <==> x == 0
  {
    if x == 0 then 0 else (x - 1) % M + 1
  }

  lemma OnesUnique(x: nat, r: nat, k: int)
    requires x == r + M * k && r <= M
    requires r == 0 <==> x == 0
    ensures Ones(x) == r
  {
    if x != 0 {
      assert x - 1 == (r - 1) + M * k;
    }
  }

  function OnesQuotient(x: nat): (k: nat)
    ensures x == Ones(x) + M * k
  {
    if x == 0 then 0 else (x - 1) / M
  }

  lemma OnesSmall(x: nat)
    requires x <= M
    ensures Ones(x) == x
  {
    OnesUnique(x, x, 0);
  }

  lemma OnesAdd(x: nat, y: nat, u: nat, v: nat)
    requires Ones(x) == Ones(y) && Ones(u) == Ones(v)
    ensures Ones(x + u) == Ones(y + v)
  {
    var i, j, k, l := OnesQuotient(x), OnesQuotient(y), OnesQuotient(u), OnesQuotient(v);
    var m := OnesQuotient(y + v);
    var d: int := (i as int) - j + k - l + m;
    OnesUnique(x + u, Ones(y + v), d);
  }

  lemma OnesShift(x: nat, y: nat, k: int)
    requires x == y + M * k
    requires x == 0 <==> y == 0
    ensures Ones(x) == Ones(y)
  {
    var m := OnesQuotient(y);
    OnesUnique(x, Ones(y), m + k);
  }

  lemma OnesScale(x: nat, y: nat)
    requires Ones(x) == Ones(y)
    ensures Ones(256 * x) == Ones(256 * y)
  {
    var i, j := OnesQuotient(x), OnesQuotient(y);
    var d: int := (i as int) - j;
    OnesShift(256 * x, 256 * y, 256 * d);
  }

  /** A 16-bit word from its two bytes. */
  function Word(lo: byte, hi: byte): (w: nat)
    ensures w < W16
  {
    (lo as nat) + 256 * (hi as nat)
  }

  /** Addition with end-around carry. */
  function EndAround(x: nat, y: nat): nat {
    if x + y < W16 then x + y else x + y - M
  }

  /** The definition of RFC 1071: the running end-around sum of the 16-bit words in network order,
      a last odd byte padded with zero. */
  function Rfc1071(b: seq<byte>): (r: nat)
    ensures r <= M
  {
    if b == [] then 0
    else if |b| % 2 == 1 then EndAround(Rfc1071(b[..|b| - 1]), Word(0, b[|b| - 1]))
    else EndAround(Rfc1071(b[..|b| - 2]), Word(b[|b| - 1], b[|b| - 2]))
  }

  /** The plain sum of the words of the first k bytes as this machine loads them. */
  function WordSum(b: seq<byte>, k: nat): nat
    requires k <= |b|
  {
    if k == 0 then 0 else WordSum(b, k - 1) + (if k % 2 == 1 then Word(b[k - 1], 0) else Word(0, b[k - 1]))
  }

  lemma {:induction false} WordSumPrefix(a: seq<byte>, b: seq<byte>, k: nat)
    requires k <= |a| && k <= |b| && a[..k] == b[..k]
    ensures WordSum(a, k) == WordSum(b, k)
  {
    if k != 0 {
      assert a[..k - 1] == a[..k][..k - 1] == b[..k][..k - 1] == b[..k - 1];
      WordSumPrefix(a, b, k - 1);
      assert a[k - 1] == a[..k][k - 1] == b[..k][k - 1] == b[k - 1];
    }
  }

  lemma {:induction false} WordSumConcat(a: seq<byte>, b: seq<byte>, k: nat)
    requires |a| % 2 == 0 && k <= |b|
    ensures WordSum(a + b, |a| + k) == WordSum(a, |a|) + WordSum(b, k)
  {
    if k == 0 {
      WordSumPrefix(a + b, a, |a|);
    } else {
      WordSumConcat(a, b, k - 1);
      assert (|a| + k) % 2 == k % 2;
    }
  }

  /** Byte order does not matter: the native sum is the network-order sum with its bytes swapped. */
  lemma {:induction false} ByteOrderIndependent(b: seq<byte>)
    ensures Ones(WordSum(b, |b|)) == Ones(256 * Rfc1071(b))
  {
    if b != [] {
      var n := if |b| % 2 == 1 then |b| - 1 else |b| - 2;
      var c := b[..n];
      ByteOrderIndependent(c);
      WordSumPrefix(b, c, n);
      var last: byte := if n + 1 < |b| then b[n + 1] else 0;
      assert WordSum(b, |b|) == WordSum(b, n) + Word(b[n], last);
      NetworkWord(Rfc1071(c), WordSum(b, n), b[n], last);
    }
  }

  lemma NetworkWord(r: nat, s: nat, hi: byte, lo: byte)
    requires r <= M && Ones(s) == Ones(256 * r)
    ensures Ones(s + Word(hi, lo)) == Ones(256 * EndAround(r, Word(lo, hi)))
  {
    var word, native := Word(lo, hi), Word(hi, lo);
    OnesShift(256 * word, native, hi);
    OnesAdd(256 * r, s, 256 * word, native);
    var sum := r + word;
    OnesShift(256 * sum, 256 * EndAround(r, word), if sum < W16 then 0 else 256);
  }

  function SwapBytes(x: nat): nat
    requires x < W16
  {
    x / 256 + 256 * (x % 256)
  }

  lemma SwapIsScale(x: nat)
    ensures SwapBytes(Ones(x)) == Ones(256 * x)
  {
    var r := Ones(x);
    var k := OnesQuotient(x);
    assert 256 * r == SwapBytes(r) + M * (r / 256);
    OnesUnique(256 * x, SwapBytes(r), r / 256 + 256 * k);
  }

  // ---------- from64to16 ----------

  function FirstFold(x: nat): nat {
    x % W16 + (x / W16) % W16 + (x / W32) % W16 + (x / 0x1_0000_0000_0000) % W16
  }

  function From64to16(x: nat): (r: nat)
    ensures r < W16
  {
    var u := FirstFold(x);
    (u % W16 + u / W16) % W16
  }

  /** The carry of the second fold does not fit and is dropped. */
  predicate LosesCarry(x: nat) {
    FirstFold(x) % W16 + FirstFold(x) / W16 >= W16
  }

  lemma FirstFoldOnes(x: nat)
    requires x < W64
    ensures Ones(FirstFold(x)) == Ones(x)
    ensures FirstFold(x) <= 4 * M
  {
    Quarters(x);
    var b, c, d := (x / W16) % W16, (x / W32) % W16, (x / 0x1_0000_0000_0000) % W16;
    OnesShift(x, FirstFold(x), b + 0x1_0001 * c + 0x1_0001_0001 * d);
  }

  lemma Quarters(x: nat)
    requires x < W64
    ensures x == x % W16 + W16 * ((x / W16) % W16) + W32 * ((x / W32) % W16)
                 + 0x1_0000_0000_0000 * ((x / 0x1_0000_0000_0000) % W16)
  {
    var y := x / W16;
    var z := y / W16;
    var w := z / W16;
    assert z == x / W32 && w == x / 0x1_0000_0000_0000 && w < W16;
  }

  /** The fold is exact exactly when no carry is dropped; otherwise the result is one too small. */
  lemma From64to16Exact(x: nat)
    requires x < W64
    ensures From64to16(x) == if LosesCarry(x) then Ones(x) - 1 else Ones(x)
  {
    FirstFoldOnes(x);
    var u := FirstFold(x);
    var v := u % W16 + u / W16;
    assert u == v + M * (u / W16);
    if v < W16 {
      OnesUnique(u, v, u / W16);
    } else {
      OnesUnique(u, v - M, u / W16 + 1);
    }
  }

  /** On the sums formed in this file, below 2^36, the carry is dropped for one value only. */
  lemma LosesCarryOnly(x: nat)
    requires x < 0x10_0000_0000
    ensures LosesCarry(x) <==> FirstFold(x) == 0x1_FFFF
  {
    assert (x / W32) % W16 < 16;
    assert (x / 0x1_0000_0000_0000) % W16 == 0;
  }

  lemma From16Exact(x: nat)
    requires x < W16
    ensures From64to16(x) == x && !LosesCarry(x)
  {
  }

  // ---------- loads ----------

  function Load16(b: seq<byte>, i: nat): (w: nat)
    requires i + 2 <= |b|
    ensures w < W16
  {
    Word(b[i], b[i + 1])
  }

  function Load32(b: seq<byte>, i: nat): (w: nat)
    requires i + 4 <= |b|
    ensures w < W32
  {
    Load16(b, i) + W16 * Load16(b, i + 2)
  }

  function Load64(b: seq<byte>, i: nat): (w: nat)
    requires i + 8 <= |b|
    ensures w < W64
  {
    Load32(b, i) + W32 * Load32(b, i + 4)
  }

  lemma Load16Sum(b: seq<byte>, i: nat)
    requires i % 2 == 0 && i + 2 <= |b|
    ensures WordSum(b, i + 2) == WordSum(b, i) + Load16(b, i)
  {
  }

  /** Adding a wide word is adding its 16-bit words. */
  lemma Load32Sum(b: seq<byte>, i: nat, init: nat, x: nat)
    requires i % 2 == 0 && i + 4 <= |b|
    requires Ones(x) == Ones(init + WordSum(b, i))
    ensures Ones(x + Load32(b, i)) == Ones(init + WordSum(b, i + 4))
  {
    Load16Sum(b, i);
    Load16Sum(b, i + 2);
    var w, w' := Load16(b, i), Load16(b, i + 2);
    OnesShift(Load32(b, i), w + w', w');
    OnesAdd(x, init + WordSum(b, i), Load32(b, i), w + w');
  }

  lemma Load64Sum(b: seq<byte>, i: nat, init: nat, x: nat)
    requires i % 2 == 0 && i + 8 <= |b|
    requires Ones(x) == Ones(init + WordSum(b, i))
    ensures Ones(x + Load64(b, i)) == Ones(init + WordSum(b, i + 8))
  {
    var w, w' := Load32(b, i), Load32(b, i + 4);
    Load32Sum(b, i, init, x);
    Load32Sum(b, i + 4, init, x + w);
    OnesShift(x + w + W32 * w', x + w + w', 0x1_0001 * w');
  }

  // ---------- do_csum ----------

  /** 64-bit addition with end-around carry: what `result` and `carry` compute together. */
  function EndAround64(x: nat, w: nat): (r: nat)
    requires x < W64 && w < W64
    ensures r < W64
  {
    if x + w < W64 then x + w else x + w - (W64 - 1)
  }

  function Quads(b: seq<byte>, pos: nat, count: nat, acc: nat): (r: nat)
    requires pos + 8 * count <= |b| && acc < W64
    ensures r < W64
    decreases count
  {
    if count == 0 then acc else EndAround64(Quads(b, pos, count - 1, acc), Load64(b, pos + 8 * (count - 1)))
  }

  function Fold32(x: nat): nat {
    x % W32 + x / W32
  }

  lemma {:induction false} QuadsSum(b: seq<byte>, pos: nat, count: nat, init: nat, acc: nat)
    requires pos % 2 == 0 && pos + 8 * count <= |b| && acc < W64
    requires Ones(acc) == Ones(init + WordSum(b, pos))
    ensures Ones(Quads(b, pos, count, acc)) == Ones(init + WordSum(b, pos + 8 * count))
  {
    if count != 0 {
      var p := pos + 8 * (count - 1);
      var x, w := Quads(b, pos, count - 1, acc), Load64(b, p);
      QuadsSum(b, pos, count - 1, init, acc);
      Load64Sum(b, p, init, x);
      EndAround64Ones(x, w);
    }
  }

  lemma EndAround64Ones(x: nat, w: nat)
    requires x < W64 && w < W64
    ensures Ones(EndAround64(x, w)) == Ones(x + w)
  {
    OnesShift(x + w, EndAround64(x, w), if x + w < W64 then 0 else 0x1_0001_0001_0001);
  }

  lemma Fold32Ones(x: nat)
    requires x < W64
    ensures Ones(Fold32(x)) == Ones(x)
    ensures Fold32(x) <= 2 * (W32 - 1)
  {
    var h := x / W32;
    assert x == x % W32 + W32 * h && h < W32;
    OnesShift(x, Fold32(x), 0x1_0001 * h);
  }

  /** The value accumulated over a buffer at an even address, before the final fold: up to one 16-bit
      and one 32-bit load to reach 8-byte alignment, 64-bit loads, then the tail. */
  function Accumulate(b: seq<byte>, addr: nat, init: nat): nat
    requires init < W16
  {
    if 2 <= |b| && (addr / 2) % 2 == 1 then HeadDouble(b, addr, 2, init + Load16(b, 0)) else HeadDouble(b, addr, 0, init)
  }

  function HeadDouble(b: seq<byte>, addr: nat, p: nat, r: nat): nat
    requires p <= |b| && r < 2 * W16
  {
    if 4 <= |b| - p && ((addr + p) / 4) % 2 == 1 then AccumulateAligned(b, p + 4, r + Load32(b, p)) else AccumulateAligned(b, p, r)
  }

  function AccumulateAligned(b: seq<byte>, p2: nat, r2: nat): nat
    requires p2 <= |b| && r2 < W64
  {
    var q := (|b| - p2) / 8;
    var r3 := if q == 0 then r2 else Fold32(Quads(b, p2, q, r2));
    AccumulateTail(b, p2 + 8 * q, r3)
  }

  function AccumulateTail(b: seq<byte>, p: nat, r: nat): nat
    requires p <= |b|
  {
    if 4 <= |b| - p then TailWord(b, p + 4, r + Load32(b, p)) else TailWord(b, p, r)
  }

  function TailWord(b: seq<byte>, p: nat, r: nat): nat
    requires p <= |b|
  {
    if 2 <= |b| - p then TailByte(b, p + 2, r + Load16(b, p)) else TailByte(b, p, r)
  }

  function TailByte(b: seq<byte>, p: nat, r: nat): nat
    requires p <= |b|
  {
    if p < |b| then r + Word(b[p], 0) else r
  }

  lemma TailByteSum(b: seq<byte>, p: nat, init: nat, r: nat)
    requires p % 2 == 0 && p <= |b| < p + 2
    requires Ones(r) == Ones(init + WordSum(b, p))
    ensures Ones(TailByte(b, p, r)) == Ones(init + WordSum(b, |b|))
    ensures TailByte(b, p, r) < r + W16
  {
    if p < |b| {
      var w := Word(b[p], 0);
      assert WordSum(b, p + 1) == WordSum(b, p) + w;
      OnesAdd(r, init + WordSum(b, p), w, w);
    }
  }

  lemma TailWordSum(b: seq<byte>, p: nat, init: nat, r: nat)
    requires p % 2 == 0 && p <= |b| < p + 4
    requires Ones(r) == Ones(init + WordSum(b, p))
    ensures Ones(TailWord(b, p, r)) == Ones(init + WordSum(b, |b|))
    ensures TailWord(b, p, r) < r + 2 * W16
  {
    if 2 <= |b| - p {
      var w := Load16(b, p);
      Load16Sum(b, p);
      OnesAdd(r, init + WordSum(b, p), w, w);
      TailByteSum(b, p + 2, init, r + w);
    } else {
      TailByteSum(b, p, init, r);
    }
  }

  lemma TailSum(b: seq<byte>, p: nat, init: nat, r: nat)
    requires p % 2 == 0 && p <= |b| < p + 8
    requires Ones(r) == Ones(init + WordSum(b, p))
    ensures Ones(AccumulateTail(b, p, r)) == Ones(init + WordSum(b, |b|))
    ensures AccumulateTail(b, p, r) < r + W32 + 2 * W16
  {
    if 4 <= |b| - p {
      Load32Sum(b, p, init, r);
      TailWordSum(b, p + 4, init, r + Load32(b, p));
    } else {
      TailWordSum(b, p, init, r);
    }
  }

  lemma AlignedUnfold(b: seq<byte>, p2: nat, r2: nat, q: nat)
    requires p2 <= |b| && r2 < W64 && q == (|b| - p2) / 8
    ensures AccumulateAligned(b, p2, r2) ==
            if q == 0 then AccumulateTail(b, p2, r2) else AccumulateTail(b, p2 + 8 * q, Fold32(Quads(b, p2, q, r2)))
  {
  }

  lemma AlignedSum(b: seq<byte>, p2: nat, init: nat, r2: nat)
    requires p2 % 2 == 0 && p2 <= |b| && r2 < W32 + 2 * W16
    requires Ones(r2) == Ones(init + WordSum(b, p2))
    ensures Ones(AccumulateAligned(b, p2, r2)) == Ones(init + WordSum(b, |b|))
    ensures AccumulateAligned(b, p2, r2) < 4 * W32
  {
    var q := (|b| - p2) / 8;
    assert p2 + 8 * q <= |b| < p2 + 8 * q + 8;
    if q == 0 {
      TailSum(b, p2, init, r2);
    } else {
      var r3 := Quads(b, p2, q, r2);
      QuadsSum(b, p2, q, init, r2);
      Fold32Ones(r3);
      TailSum(b, p2 + 8 * q, init, Fold32(r3));
      AlignedUnfold(b, p2, r2, q);
    }
  }

  /** Whatever the alignment, the accumulated value is the one's complement sum of the words, and no
      64-bit addition overflowed unnoticed. */
  lemma AccumulateSum(b: seq<byte>, addr: nat, init: nat)
    requires init < W16
    ensures Ones(Accumulate(b, addr, init)) == Ones(init + WordSum(b, |b|))
    ensures Accumulate(b, addr, init) < 4 * W32
  {
    if 2 <= |b| && (addr / 2) % 2 == 1 {
      Load16Sum(b, 0);
      HeadDoubleSum(b, addr, 2, init, init + Load16(b, 0));
    } else {
      HeadDoubleSum(b, addr, 0, init, init);
    }
  }

  lemma HeadDoubleSum(b: seq<byte>, addr: nat, p: nat, init: nat, r: nat)
    requires p % 2 == 0 && p <= |b| && r < 2 * W16
    requires Ones(r) == Ones(init + WordSum(b, p))
    ensures Ones(HeadDouble(b, addr, p, r)) == Ones(init + WordSum(b, |b|))
    ensures HeadDouble(b, addr, p, r) < 4 * W32
  {
    if 4 <= |b| - p && ((addr + p) / 4) % 2 == 1 {
      Load32Sum(b, p, init, r);
      AlignedSum(b, p + 4, init, r + Load32(b, p));
    } else {
      AlignedSum(b, p, init, r);
    }
  }

  /** What do_csum returns for a buffer at an address. */
  function Csum(buff: seq<byte>, addr: nat): (r: nat)
    ensures r < W16
  {
    if buff == [] then 0
    else if addr % 2 == 1 then SwapBytes(From64to16(Accumulate(buff[1..], addr + 1, Word(0, buff[0]))))
    else From64to16(Accumulate(buff, addr, 0))
  }

  /** The only thing that can go wrong: the last fold drops a carry. */
  predicate CsumLosesCarry(buff: seq<byte>, addr: nat) {
    buff != [] &&
    LosesCarry(if addr % 2 == 1 then Accumulate(buff[1..], addr + 1, Word(0, buff[0])) else Accumulate(buff, addr, 0))
  }

  lemma {:induction false} OddStart(b: seq<byte>, k: nat)
    requires b != [] && k < |b|
    ensures Ones(256 * (Word(0, b[0]) + WordSum(b[1..], k))) == Ones(WordSum(b, k + 1))
  {
    if k == 0 {
      ByteUp(b[0]);
      assert WordSum(b, 1) == Word(b[0], 0);
    } else {
      OddStart(b, k - 1);
      var c := b[1..][k - 1];
      assert c == b[k];
      ByteUp(c);
      var u := if k % 2 == 1 then Word(c, 0) else Word(0, c);
      var v := if (k + 1) % 2 == 1 then Word(c, 0) else Word(0, c);
      assert WordSum(b[1..], k) == WordSum(b[1..], k - 1) + u && WordSum(b, k + 1) == WordSum(b, k) + v;
      OnesAdd(256 * (Word(0, b[0]) + WordSum(b[1..], k - 1)), WordSum(b, k), 256 * u, v);
    }
  }

  /** Scaling by 256 exchanges the two places a byte can take in a word. */
  lemma ByteUp(c: byte)
    ensures Ones(256 * Word(c, 0)) == Ones(Word(0, c))
    ensures Ones(256 * Word(0, c)) == Ones(Word(c, 0))
  {
    OnesShift(256 * Word(0, c), Word(c, 0), c);
  }

  /** For every buffer, length and start address: the checksum is the RFC 1071 sum in this machine's
      byte order exactly when the final fold drops no carry. */
  lemma CsumIsRfc1071(buff: seq<byte>, addr: nat)
    ensures Csum(buff, addr) == SwapBytes(Rfc1071(buff)) <==> !CsumLosesCarry(buff, addr)
  {
    CsumIsOnes(buff, addr);
    NativeRfc1071(buff);
  }

  lemma NativeRfc1071(b: seq<byte>)
    ensures SwapBytes(Rfc1071(b)) == Ones(WordSum(b, |b|))
    ensures Rfc1071(b) == M <==> Ones(WordSum(b, |b|)) == M
  {
    ByteOrderIndependent(b);
    OnesSmall(Rfc1071(b));
    SwapIsScale(Rfc1071(b));
    SwapAllOnes(Rfc1071(b));
  }

  lemma SwapAllOnes(x: nat)
    requires x < W16
    ensures SwapBytes(x) == M <==> x == M
  {
  }

  lemma CsumIsOnes(buff: seq<byte>, addr: nat)
    ensures !CsumLosesCarry(buff, addr) ==> Csum(buff, addr) == Ones(WordSum(buff, |buff|))
    ensures CsumLosesCarry(buff, addr) ==>
              Ones(WordSum(buff, |buff|)) - Csum(buff, addr) == if addr % 2 == 1 then 256 else 1
  {
    if buff != [] {
      if addr % 2 == 1 {
        CsumOdd(buff, addr);
      } else {
        CsumEven(buff, addr);
      }
    }
  }

  lemma CsumOdd(buff: seq<byte>, addr: nat)
    requires buff != []
    ensures var acc := Accumulate(buff[1..], addr + 1, Word(0, buff[0]));
            SwapBytes(From64to16(acc)) ==
            if LosesCarry(acc) then Ones(WordSum(buff, |buff|)) - 256 else Ones(WordSum(buff, |buff|))
  {
    OddAccumulated(buff, addr);
    OddFold(Accumulate(buff[1..], addr + 1, Word(0, buff[0])), WordSum(buff, |buff|));
  }

  lemma OddAccumulated(buff: seq<byte>, addr: nat)
    requires buff != []
    ensures var acc := Accumulate(buff[1..], addr + 1, Word(0, buff[0]));
            acc < 4 * W32 && Ones(256 * acc) == Ones(WordSum(buff, |buff|))
  {
    var first, rest := Word(0, buff[0]), buff[1..];
    AccumulateSum(rest, addr + 1, first);
    OddStart(buff, |buff| - 1);
    OnesScale(Accumulate(rest, addr + 1, first), first + WordSum(rest, |rest|));
  }

  lemma CsumEven(buff: seq<byte>, addr: nat)
    ensures var acc := Accumulate(buff, addr, 0);
            From64to16(acc) ==
            if LosesCarry(acc) then Ones(WordSum(buff, |buff|)) - 1 else Ones(WordSum(buff, |buff|))
  {
    AccumulateSum(buff, addr, 0);
    From64to16Exact(Accumulate(buff, addr, 0));
  }

  lemma OddFold(acc: nat, s: nat)
    requires acc < 4 * W32 && Ones(256 * acc) == Ones(s)
    ensures SwapBytes(From64to16(acc)) == if LosesCarry(acc) then Ones(s) - 256 else Ones(s)
  {
    From64to16Exact(acc);
    SwapIsScale(acc);
    if LosesCarry(acc) {
      LosesCarryOnly(acc);
      assert From64to16(acc) == 0;
    }
  }

  lemma ExampleFold()
    ensures FirstFold(0x1_FFFF_FFFF) == 0x1_FFFF
  {
  }

  /** Eight bytes of ones and a final byte 1. */
  predicate OnesThenOne(b: seq<byte>) {
    |b| == 9 && (forall i :: 0 <= i < 8 ==> b[i] == 0xFF) && b[8] == 1
  }

  lemma ExampleTail(b: seq<byte>, r: nat)
    requires OnesThenOne(b) && r == 0xFFFF_FFFF
    ensures AccumulateTail(b, 4, r) == 0x1_FFFF_FFFF
  {
    assert Load32(b, 4) == 0xFFFF_FFFF;
    var r' := r + Load32(b, 4);
    assert TailWord(b, 8, r') == TailByte(b, 8, r') == r' + 1;
  }

  lemma ExampleSum(b: seq<byte>, addr: nat)
    requires OnesThenOne(b) && addr == 4
    ensures Accumulate(b, addr, 0) == 0x1_FFFF_FFFF
  {
    var r := Load32(b, 0);
    assert r == 0xFFFF_FFFF;
    ExampleTail(b, r);
    assert HeadDouble(b, addr, 0, 0) == AccumulateAligned(b, 4, r);
  }

  lemma ExampleCsum(b: seq<byte>, addr: nat, acc: nat)
    requires b != [] && addr == 4 && acc == Accumulate(b, addr, 0) && FirstFold(acc) == 0x1_FFFF
    ensures CsumLosesCarry(b, addr) && Csum(b, addr) == 0
  {
    assert From64to16(acc) == 0;
  }

  /** The lost carry is real: nine bytes whose one's complement sum is 1 are reported as summing to 0. */
  lemma LostCarryExample(b: seq<byte>, addr: nat)
    requires OnesThenOne(b) && addr == 4
    ensures CsumLosesCarry(b, addr) && Csum(b, addr) == 0 && SwapBytes(Rfc1071(b)) == 1
  {
    ExampleSum(b, addr);
    ExampleFold();
    ExampleCsum(b, addr, Accumulate(b, addr, 0));
    CsumIsOnes(b, addr);
    NativeRfc1071(b);
  }

  // ---------- the code of do_csum ----------

  /** uint64_t addition: the sum modulo 2^64. */
  function Add64(x: nat, y: nat): (r: nat)
    requires x < W64 && y < W64
    ensures r < W64
  {
    if x + y < W64 then x + y else x + y - W64
  }

  /** `carry = (w > result)` catches every overflow, and adding the carry back never overflows. */
  lemma CarryStep(result: nat, carry: nat, w: nat)
    requires result < W64 && w < W64 && carry <= 1 && (carry == 1 ==> result <= W64 - 2)
    ensures Add64(result, carry) == result + carry
    ensures var r := Add64(Add64(result, carry), w);
            var c := if w > r then 1 else 0;
            r + c == EndAround64(result + carry, w) && (c == 1 ==> r <= W64 - 2)
  {
  }

  /** The 64-bit loop. */
  method SumQuads(b: seq<byte>, pos0: nat, count0: nat, result0: nat) returns (result: nat, pos: nat)
    requires 0 < count0 && pos0 + 8 * count0 <= |b| && result0 < W64
    ensures result == Fold32(Quads(b, pos0, count0, result0)) && pos == pos0 + 8 * count0
  {
    var carry, count := 0, count0;
    result, pos := result0, pos0;
    while count != 0
      invariant 0 <= count <= count0 && pos == pos0 + 8 * (count0 - count)
      invariant result < W64 && carry <= 1 && (carry == 1 ==> result <= W64 - 2)
      invariant result + carry == Quads(b, pos0, count0 - count, result0)
    {
      var w := Load64(b, pos);
      CarryStep(result, carry, w);
      QuadsStep(b, pos0, count0 - count, result0);
      count := count - 1;
      pos := pos + 8;
      result := Add64(result, carry);
      result := Add64(result, w);
      carry := if w > result then 1 else 0;
    }
    result := Add64(result, carry);
    result := Fold32(result);
  }

  lemma QuadsStep(b: seq<byte>, pos: nat, k: nat, acc: nat)
    requires pos + 8 * (k + 1) <= |b| && acc < W64
    ensures Quads(b, pos, k + 1, acc) == EndAround64(Quads(b, pos, k, acc), Load64(b, pos + 8 * k))
  {
  }

  lemma LowBits(len: nat)
    ensures len - 8 * (len / 8) == len % 8
    ensures (len / 4) % 2 == 1 <==> 4 <= len % 8
    ensures len % 4 == if 4 <= len % 8 then len % 8 - 4 else len % 8
  {
  }

  /** From 8-byte alignment on: the loop, if a 64-bit word is left, then a last 32-bit word. */
  method AlignedWords(b: seq<byte>, pos0: nat, len: nat, count: nat, result0: nat) returns (result: nat, pos: nat)
    requires pos0 + len == |b| && count == len / 8 && result0 < W32 + 2 * W16
    ensures pos <= |b| && |b| - pos == len % 4
    ensures TailWord(b, pos, result) == AccumulateAligned(b, pos0, result0)
    ensures result < 4 * W32
  {
    result, pos := result0, pos0;
    AlignedUnfold(b, pos0, result0, count);
    if count != 0 {
      Fold32Ones(Quads(b, pos, count, result));
      result, pos := SumQuads(b, pos, count, result);
    }
    LowBits(len);
    if (len / 4) % 2 == 1 {
      result := Add64(result, Load32(b, pos));
      pos := pos + 4;
    }
  }

  /** The part that runs when a 32-bit word is left: align to 8 first.  `len` keeps the bits that matter
      for the tail. */
  method WideWords(b: seq<byte>, addr: nat, pos0: nat, len0: nat, count0: nat, result0: nat)
    returns (result: nat, pos: nat, len: nat)
    requires pos0 + len0 == |b| && count0 == len0 / 4 && 0 < count0 && result0 < 2 * W16
    ensures pos <= |b| && |b| - pos == len % 4
    ensures TailWord(b, pos, result) == HeadDouble(b, addr, pos0, result0)
    ensures result < 4 * W32
  {
    result, pos, len := result0, pos0, len0;
    var count := count0;
    if ((addr + pos) / 4) % 2 == 1 {
      result := Add64(result, Load32(b, pos));
      count, len, pos := count - 1, len - 4, pos + 4;
    }
    assert count == len / 4;
    result, pos := AlignedWords(b, pos, len, count / 2, result);
  }

  /** The last 16-bit word and the last byte. */
  method Tail(b: seq<byte>, pos0: nat, len: nat, result0: nat) returns (result: nat)
    requires pos0 <= |b| && |b| - pos0 == len % 4 && result0 < 4 * W32
    ensures result == TailWord(b, pos0, result0)
  {
    var pos := pos0;
    result := result0;
    if (len / 2) % 2 == 1 {
      result := Add64(result, Load16(b, pos));
      pos := pos + 2;
    }
    if len % 2 == 1 {
      result := Add64(result, Word(b[pos], 0));
    }
  }

  /** Everything between the odd first byte and the final fold. */
  method AccumulateEven(b: seq<byte>, addr: nat, init: nat) returns (result: nat)
    requires init < W16
    ensures result == Accumulate(b, addr, init)
  {
    var pos, len := 0, |b|;
    result := init;
    var count := len / 2;
    if count != 0 && (addr / 2) % 2 == 1 {
      result := Add64(result, Load16(b, pos));
      count, len, pos := count - 1, len - 2, pos + 2;
    }
    assert Accumulate(b, addr, init) == HeadDouble(b, addr, pos, result);
    count := count / 2;
    if count != 0 {
      result, pos, len := WideWords(b, addr, pos, len, count, result);
    } else {
      NoWideWord(b, addr, pos, result);
    }
    result := Tail(b, pos, len, result);
  }

  lemma NoWideWord(b: seq<byte>, addr: nat, p: nat, r: nat)
    requires p <= |b| < p + 4 && r < 2 * W16
    ensures HeadDouble(b, addr, p, r) == TailWord(b, p, r)
  {
  }

  /** do_csum: on every buffer and every start address, the RFC 1071 sum in native byte order exactly when
      the final fold drops no carry. */
  method DoCsum(buff: seq<byte>, addr: nat) returns (u16: nat)
    ensures u16 == Csum(buff, addr)
    ensures u16 == SwapBytes(Rfc1071(buff)) <==> !CsumLosesCarry(buff, addr)
  {
    CsumIsRfc1071(buff, addr);
    if |buff| == 0 {
      return 0;
    }
    var odd := addr % 2 == 1;
    var result;
    if odd {
      result := AccumulateEven(buff[1..], addr + 1, Word(0, buff[0]));
    } else {
      result := AccumulateEven(buff, addr, 0);
    }
    u16 := From64to16(result);
    if odd {
      u16 := SwapBytes(u16);
    }
  }
}
