/** Stamping checksums into headers (the *_fix_checksum functions of nfq/checksum.c), and what a
    receiver computes over the stamped segment and its pseudo header.
 */
module ChecksumStamp {
  import opened Bytes
  import opened Checksum

  /** htonl on a little-endian machine, as the value of the swapped word. */
  function Htonl(v: nat): (r: nat)
    requires v < W32
    ensures r < W32
  {
    v / 0x100_0000 + 256 * ((v / 0x1_0000) % 256) + 0x1_0000 * ((v / 256) % 256) + 0x100_0000 * (v % 256)
  }

  lemma HtonlOnes(v: nat)
    requires v < W32
    ensures Ones(Htonl(v)) == Ones(256 * v)
  {
    var b0, b1, b2, b3 := v / 0x100_0000, (v / 0x1_0000) % 256, (v / 256) % 256, v % 256;
    assert v == b3 + 256 * b2 + 0x1_0000 * b1 + 0x100_0000 * b0;
    OnesShift(256 * v, Htonl(v), 256 * b1 + 0x1_0001 * b0 - 256 * b3);
  }

  /** The 64-bit sums handed to the last fold. */
  function Magic4(src: seq<byte>, dst: seq<byte>, len: nat, proto: nat, sum: nat): nat
    requires |src| == 4 && |dst| == 4
  {
    Load32(src, 0) + Load32(dst, 0) + sum + Htonl((len + proto) % W32)
  }

  function Magic6(src: seq<byte>, dst: seq<byte>, len: nat, proto: nat, sum: nat): nat
    requires |src| == 16 && |dst| == 16
  {
    sum + Htonl((len + proto) % W32) + Sum4(src) + Sum4(dst)
  }

  function Sum4(a: seq<byte>): nat
    requires |a| == 16
  {
    Load32(a, 0) + Load32(a, 4) + Load32(a, 8) + Load32(a, 12)
  }

  /** ~from64to16(x) in 16 bits */
  function Complement(x: nat): (r: nat)
    ensures r < W16
  {
    W16 - 1 - From64to16(x)
  }

  // ---------- pseudo headers ----------

  /** Section 3.1 of RFC 9293 and RFC 768. */
  function Pseudo4(src: seq<byte>, dst: seq<byte>, len: nat, proto: byte): seq<byte>
    requires |src| == 4 && |dst| == 4 && len < W16
  {
    src + dst + [0, proto, len / 256, len % 256]
  }

  /** Section 8.1 of RFC 8200. */
  function Pseudo6(src: seq<byte>, dst: seq<byte>, len: nat, proto: byte): seq<byte>
    requires |src| == 16 && |dst| == 16 && len < W16
  {
    src + dst + [0, 0, len / 256, len % 256, 0, 0, 0, proto]
  }

  lemma WordSum4(b: seq<byte>)
    requires |b| == 4
    ensures WordSum(b, 4) == Load16(b, 0) + Load16(b, 2)
    ensures Ones(Load32(b, 0)) == Ones(WordSum(b, 4))
  {
    Load32Sum(b, 0, 0, 0);
    Load16Sum(b, 0);
    Load16Sum(b, 2);
  }

  /** The last pseudo header words add up to the swapped len + proto. */
  lemma LenProto(len: nat, h: byte, l: byte, proto: byte)
    requires len < W16 && len == 256 * (h as nat) + l
    ensures Ones(Word(0, proto) + Word(h, l)) == Ones(Htonl((len + proto) % W32))
  {
    HtonlWrapped(len + proto);
    LenProtoShift(len, h, l, proto);
  }

  lemma HtonlWrapped(v: nat)
    requires v < W32
    ensures Ones(Htonl(v % W32)) == Ones(256 * v)
  {
    assert v % W32 == v;
    HtonlOnes(v);
  }

  lemma LenProtoShift(len: nat, h: byte, l: byte, proto: byte)
    requires len == 256 * (h as nat) + l
    ensures Ones(Word(0, proto) + Word(h, l)) == Ones(256 * (len + proto))
  {
    OnesShift(256 * (len + proto), Word(0, proto) + Word(h, l), h);
  }

  lemma OnesAdd3(a: nat, a': nat, b: nat, b': nat, c: nat, c': nat)
    requires Ones(a) == Ones(a') && Ones(b) == Ones(b') && Ones(c) == Ones(c')
    ensures Ones(a + b + c) == Ones(a' + b' + c')
  {
    OnesAdd(a, a', b, b');
    OnesAdd(a + b, a' + b', c, c');
  }

  lemma Pseudo4SumAt(src: seq<byte>, dst: seq<byte>, h: byte, l: byte, proto: byte, w: nat)
    requires |src| == 4 && |dst| == 4
    requires Ones(Word(0, proto) + Word(h, l)) == Ones(w)
    ensures Ones(WordSum(src + dst + [0, proto, h, l], 12)) == Ones(Load32(src, 0) + Load32(dst, 0) + w)
  {
    var last: seq<byte> := [0, proto, h, l];
    WordSumConcat(src + dst, last, 4);
    WordSumConcat(src, dst, 4);
    WordSum4(src);
    WordSum4(dst);
    WordSum4(last);
    OnesAdd3(WordSum(src, 4), Load32(src, 0), WordSum(dst, 4), Load32(dst, 0), WordSum(last, 4), w);
  }

  lemma Pseudo4Sum(src: seq<byte>, dst: seq<byte>, len: nat, proto: byte)
    requires |src| == 4 && |dst| == 4 && len < W16
    ensures Ones(WordSum(Pseudo4(src, dst, len, proto), 12)) == Ones(Magic4(src, dst, len, proto, 0))
  {
    LenProto(len, len / 256, len % 256, proto);
    Pseudo4SumAt(src, dst, len / 256, len % 256, proto, Htonl((len + proto) % W32));
  }

  lemma WordSum16(b: seq<byte>)
    requires |b| == 16
    ensures Ones(Sum4(b)) == Ones(WordSum(b, 16))
  {
    Load32Sum(b, 0, 0, 0);
    Load32Sum(b, 4, 0, Load32(b, 0));
    Load32Sum(b, 8, 0, Load32(b, 0) + Load32(b, 4));
    Load32Sum(b, 12, 0, Load32(b, 0) + Load32(b, 4) + Load32(b, 8));
  }

  lemma Last6(h: byte, l: byte, proto: byte)
    ensures WordSum([0, 0, h, l, 0, 0, 0, proto], 8) == Word(0, proto) + Word(h, l)
  {
    var last: seq<byte> := [0, 0, h, l, 0, 0, 0, proto];
    Load16Sum(last, 0);
    Load16Sum(last, 2);
    Load16Sum(last, 4);
    Load16Sum(last, 6);
  }

  lemma Pseudo6SumAt(src: seq<byte>, dst: seq<byte>, h: byte, l: byte, proto: byte, w: nat)
    requires |src| == 16 && |dst| == 16
    requires Ones(Word(0, proto) + Word(h, l)) == Ones(w)
    ensures Ones(WordSum(src + dst + [0, 0, h, l, 0, 0, 0, proto], 40)) == Ones(Sum4(src) + Sum4(dst) + w)
  {
    var last: seq<byte> := [0, 0, h, l, 0, 0, 0, proto];
    WordSumConcat(src + dst, last, 8);
    WordSumConcat(src, dst, 16);
    WordSum16(src);
    WordSum16(dst);
    Last6(h, l, proto);
    OnesAdd3(WordSum(src, 16), Sum4(src), WordSum(dst, 16), Sum4(dst), WordSum(last, 8), w);
  }

  lemma Pseudo6Sum(src: seq<byte>, dst: seq<byte>, len: nat, proto: byte)
    requires |src| == 16 && |dst| == 16 && len < W16
    ensures Ones(WordSum(Pseudo6(src, dst, len, proto), 40)) == Ones(Magic6(src, dst, len, proto, 0))
  {
    LenProto(len, len / 256, len % 256, proto);
    Pseudo6SumAt(src, dst, len / 256, len % 256, proto, Htonl((len + proto) % W32));
  }

  // ---------- stamping ----------

  /** A 16-bit store in native byte order. */
  function Store16(seg: seq<byte>, off: nat, t: nat): (r: seq<byte>)
    requires off + 2 <= |seg| && t < W16
    ensures |r| == |seg|
  {
    seg[off := t % 256][off + 1 := t / 256]
  }

  lemma {:induction false} Store16Sum(seg: seq<byte>, off: nat, t: nat, k: nat)
    requires off % 2 == 0 && off + 2 <= |seg| && t < W16 && k <= |seg|
    requires seg[off] == 0 && seg[off + 1] == 0
    ensures off + 2 <= k ==> WordSum(Store16(seg, off, t), k) == WordSum(seg, k) + t
    ensures k <= off ==> WordSum(Store16(seg, off, t), k) == WordSum(seg, k)
  {
    var r := Store16(seg, off, t);
    if k <= off {
      WordSumPrefix(r, seg, k);
    } else if off + 2 < k {
      Store16Sum(seg, off, t, k - 1);
      assert r[k - 1] == seg[k - 1];
    } else if k == off + 2 {
      WordSumPrefix(r, seg, off);
      Load16Sum(r, off);
      Load16Sum(seg, off);
    }
  }

  /** A receiver accepts when the sum over pseudo header and segment is all ones. */
  predicate Verifies(pseudo: seq<byte>, seg: seq<byte>) {
    Rfc1071(pseudo + seg) == 0xFFFF
  }

  /** The arithmetic of stamping: `e` and `e'` are what the two folds lost. */
  lemma StampArithmetic(ps: nat, s: nat, p: nat, c: nat, t: nat, e: nat, e': nat)
    requires Ones(ps) == Ones(p) && c == Ones(s) - e && e <= Ones(s)
    requires t == M - (Ones(p + c) - e') && e' <= Ones(p + c)
    requires e <= 256 && e' <= 1
    ensures Ones(ps + s + t) == M <==> e == 0 && e' == 0
  {
    var k := (OnesQuotient(ps) as int) - OnesQuotient(p) + OnesQuotient(s) + OnesQuotient(p + c) + 1;
    assert ps + s + t == e + e' + M * k;
    assert (p > 0 ==> ps > 0) && (c > 0 ==> s > 0) && (p + c == 0 ==> t == M);
    if e + e' == 0 {
      OnesUnique(ps + s + t, M, k - 1);
    } else {
      OnesUnique(ps + s + t, e + e', k);
    }
  }

  /** A stamped segment verifies exactly when neither fold dropped a carry. */
  lemma StampedVerifies(pseudo: seq<byte>, seg: seq<byte>, addr: nat, off: nat, p: nat)
    requires |pseudo| % 2 == 0 && off % 2 == 0 && off + 2 <= |seg|
    requires seg[off] == 0 && seg[off + 1] == 0
    requires Ones(WordSum(pseudo, |pseudo|)) == Ones(p) && p + W16 < W64
    ensures Verifies(pseudo, Store16(seg, off, Complement(p + Csum(seg, addr)))) <==>
            !CsumLosesCarry(seg, addr) && !LosesCarry(p + Csum(seg, addr))
  {
    var c := Csum(seg, addr);
    var t := Complement(p + c);
    var ps, s := WordSum(pseudo, |pseudo|), WordSum(seg, |seg|);
    StampedSum(pseudo, seg, off, t);
    CsumIsOnes(seg, addr);
    From64to16Exact(p + c);
    StampArithmetic(ps, s, p, c, t, Ones(s) - c, Ones(p + c) - From64to16(p + c));
  }

  lemma StampedWords(pseudo: seq<byte>, seg: seq<byte>, off: nat, t: nat)
    requires |pseudo| % 2 == 0 && off % 2 == 0 && off + 2 <= |seg| && t < W16
    requires seg[off] == 0 && seg[off + 1] == 0
    ensures var b := pseudo + Store16(seg, off, t);
            WordSum(b, |b|) == WordSum(pseudo, |pseudo|) + WordSum(seg, |seg|) + t
  {
    WordSumConcat(pseudo, Store16(seg, off, t), |seg|);
    Store16Sum(seg, off, t, |seg|);
  }

  lemma StampedSum(pseudo: seq<byte>, seg: seq<byte>, off: nat, t: nat)
    requires |pseudo| % 2 == 0 && off % 2 == 0 && off + 2 <= |seg| && t < W16
    requires seg[off] == 0 && seg[off + 1] == 0
    ensures Verifies(pseudo, Store16(seg, off, t)) <==>
            Ones(WordSum(pseudo, |pseudo|) + WordSum(seg, |seg|) + t) == M
  {
    StampedWords(pseudo, seg, off, t);
    NativeRfc1071(pseudo + Store16(seg, off, t));
  }

  /** A segment with its checksum field zeroed, and then filled in. */
  ghost function Stamp4(seg: seq<byte>, addr: nat, off: nat, proto: byte, src: seq<byte>, dst: seq<byte>): (r: seq<byte>)
    requires off + 2 <= |seg| && |src| == 4 && |dst| == 4
    ensures |r| == |seg|
  {
    var seg0 := Store16(seg, off, 0);
    Store16(seg0, off, Complement(Magic4(src, dst, |seg|, proto, Csum(seg0, addr))))
  }

  ghost function Stamp6(seg: seq<byte>, addr: nat, off: nat, proto: byte, src: seq<byte>, dst: seq<byte>): (r: seq<byte>)
    requires off + 2 <= |seg| && |src| == 16 && |dst| == 16
    ensures |r| == |seg|
  {
    var seg0 := Store16(seg, off, 0);
    Store16(seg0, off, Complement(Magic6(src, dst, |seg|, proto, Csum(seg0, addr))))
  }

  lemma ZeroedThenStamped(pseudo: seq<byte>, seg: seq<byte>, addr: nat, off: nat, p: nat, m: nat)
    requires |pseudo| % 2 == 0 && off % 2 == 0 && off + 2 <= |seg|
    requires Ones(WordSum(pseudo, |pseudo|)) == Ones(p) && p + W16 < W64
    requires m == p + Csum(Store16(seg, off, 0), addr)
    ensures var seg0 := Store16(seg, off, 0);
            Verifies(pseudo, Store16(seg0, off, Complement(m))) <==> !CsumLosesCarry(seg0, addr) && !LosesCarry(m)
  {
    StampedVerifies(pseudo, Store16(seg, off, 0), addr, off, p);
  }

  /** A stamped segment verifies exactly when neither fold dropped a carry. */
  lemma Stamp4Verifies(seg: seq<byte>, addr: nat, off: nat, proto: byte, src: seq<byte>, dst: seq<byte>)
    requires off % 2 == 0 && off + 2 <= |seg| < W16 && |src| == 4 && |dst| == 4
    ensures var seg0 := Store16(seg, off, 0);
            Verifies(Pseudo4(src, dst, |seg|, proto), Stamp4(seg, addr, off, proto, src, dst)) <==>
            !CsumLosesCarry(seg0, addr) && !LosesCarry(Magic4(src, dst, |seg|, proto, Csum(seg0, addr)))
  {
    Pseudo4Sum(src, dst, |seg|, proto);
    ZeroedThenStamped(Pseudo4(src, dst, |seg|, proto), seg, addr, off, Magic4(src, dst, |seg|, proto, 0),
                      Magic4(src, dst, |seg|, proto, Csum(Store16(seg, off, 0), addr)));
  }

  lemma Stamp6Verifies(seg: seq<byte>, addr: nat, off: nat, proto: byte, src: seq<byte>, dst: seq<byte>)
    requires off % 2 == 0 && off + 2 <= |seg| < W16 && |src| == 16 && |dst| == 16
    ensures var seg0 := Store16(seg, off, 0);
            Verifies(Pseudo6(src, dst, |seg|, proto), Stamp6(seg, addr, off, proto, src, dst)) <==>
            !CsumLosesCarry(seg0, addr) && !LosesCarry(Magic6(src, dst, |seg|, proto, Csum(seg0, addr)))
  {
    Pseudo6Sum(src, dst, |seg|, proto);
    ZeroedThenStamped(Pseudo6(src, dst, |seg|, proto), seg, addr, off, Magic6(src, dst, |seg|, proto, 0),
                      Magic6(src, dst, |seg|, proto, Csum(Store16(seg, off, 0), addr)));
  }

  /** Storing into the part of the buffer from `at` on. */
  lemma StoredPart(buf0: seq<byte>, buf1: seq<byte>, at: nat, n: nat, off: nat, t: nat)
    requires at + n <= |buf0| == |buf1| && off + 2 <= n && t < W16
    requires buf1 == buf0[at + off := t % 256][at + off + 1 := t / 256]
    ensures buf1[at..at + n] == Store16(buf0[at..at + n], off, t) && buf1[..at] == buf0[..at] && buf1[at + n..] == buf0[at + n..]
  {
  }

  method PutSum(buf: array<byte>, at: nat, n: nat, off: nat, t: nat)
    requires at + n <= buf.Length && off + 2 <= n && t < W16
    modifies buf
    ensures buf[at..at + n] == Store16(old(buf[at..at + n]), off, t)
    ensures buf[..at] == old(buf[..at]) && buf[at + n..] == old(buf[at + n..])
  {
    ghost var b := buf[..];
    buf[at + off], buf[at + off + 1] := t % 256, t / 256;
    StoredPart(b, buf[..], at, n, off, t);
  }

  /** tcp4_fix_checksum (off 16, proto 6) and udp4_fix_checksum (off 6, proto 17) on n bytes of a packet. */
  method FixChecksum4(buf: array<byte>, at: nat, n: nat, addr: nat, off: nat, proto: byte, src: seq<byte>, dst: seq<byte>)
    requires off % 2 == 0 && off + 2 <= n && at + n <= buf.Length && |src| == 4 && |dst| == 4
    modifies buf
    ensures buf[at..at + n] == Stamp4(old(buf[at..at + n]), addr, off, proto, src, dst)
    ensures buf[..at] == old(buf[..at]) && buf[at + n..] == old(buf[at + n..])
  {
    PutSum(buf, at, n, off, 0);
    var c := DoCsum(buf[at..at + n], addr);
    PutSum(buf, at, n, off, Complement(Magic4(src, dst, n, proto, c)));
  }

  /** tcp6_fix_checksum and udp6_fix_checksum. */
  method FixChecksum6(buf: array<byte>, at: nat, n: nat, addr: nat, off: nat, proto: byte, src: seq<byte>, dst: seq<byte>)
    requires off % 2 == 0 && off + 2 <= n && at + n <= buf.Length && |src| == 16 && |dst| == 16
    modifies buf
    ensures buf[at..at + n] == Stamp6(old(buf[at..at + n]), addr, off, proto, src, dst)
    ensures buf[..at] == old(buf[..at]) && buf[at + n..] == old(buf[at + n..])
  {
    PutSum(buf, at, n, off, 0);
    var c := DoCsum(buf[at..at + n], addr);
    PutSum(buf, at, n, off, Complement(Magic6(src, dst, n, proto, c)));
  }

  /** ip4_fix_checksum on a header of hl bytes at the start of the buffer: the checksum folds the 16-bit sum a second
      time, which changes nothing. */
  method Ip4FixChecksum(ip: array<byte>, hl: nat, addr: nat)
    requires 12 <= ip.Length && hl <= ip.Length
    modifies ip
    ensures ip[..] == Ip4Stamped(old(ip[..]), hl, addr)
    ensures 12 <= hl ==> (Verifies([], ip[..hl]) <==> !CsumLosesCarry(Store16(old(ip[..]), 10, 0)[..hl], addr))
  {
    ghost var s := ip[..];
    ip[10], ip[11] := 0, 0;
    ghost var ip0 := ip[..];
    assert ip0 == Store16(s, 10, 0);
    assert ip[..hl] == ip0[..hl];
    var c := DoCsum(ip[..hl], addr);
    From16Exact(c);
    var t := Complement(c);
    ip[10], ip[11] := t % 256, t / 256;
    assert ip[..] == Store16(ip0, 10, t);
    if 12 <= hl {
      assert ip[..hl] == ip[..][..hl];
      HeaderVerifies(ip0, hl, addr, t);
    }
  }

  lemma HeaderVerifies(ip0: seq<byte>, hl: nat, addr: nat, t: nat)
    requires 12 <= hl <= |ip0| && ip0[10] == 0 && ip0[11] == 0 && t == Complement(Csum(ip0[..hl], addr))
    ensures Verifies([], Store16(ip0, 10, t)[..hl]) <==> !CsumLosesCarry(ip0[..hl], addr)
  {
    assert Store16(ip0, 10, t)[..hl] == Store16(ip0[..hl], 10, t);
    From16Exact(Csum(ip0[..hl], addr));
    StampedVerifies([], ip0[..hl], addr, 10, 0);
  }

  ghost function Ip4Stamped(ip: seq<byte>, hl: nat, addr: nat): (r: seq<byte>)
    requires 12 <= |ip| && hl <= |ip|
    ensures |r| == |ip|
  {
    var ip0 := Store16(ip, 10, 0);
    Store16(ip0, 10, 0xFFFF - Csum(ip0[..hl], addr))
  }
}
