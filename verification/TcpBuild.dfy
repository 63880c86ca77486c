/** Building whole TCP packets (prepare_tcp_segment4 and prepare_tcp_segment6 of nfq/darkmagic.c), and what dissecting them
    gives back.
 */
module TcpBuild {
  import opened Options
  import opened Bits
  import opened Bytes
  import opened Checksum
  import opened ChecksumStamp
  import opened Dissect
  import opened Layout
  import opened TcpOptions
  import opened TcpHeader

  const MAX_PACKET := 0xFFFF

  // ---------- the checksum field ----------

  /** The two bytes of a 16-bit number in this machine's order. */
  function Native16(t: nat): (b: seq<byte>)
    requires t < W16
    ensures |b| == 2
  {
    AboveAndLow(t);
    [Low(t), Above(t)]
  }

  /** What fooling with FOOL_BADSUM makes of a checksum; `noise` is random and not zero. */
  function Spoiled(t: nat, badsum: bool, noise: nat): (r: nat)
    requires t < W16 && 0 < noise < W16
    ensures r < W16
  {
    Pow2At16();
    XorBound(t, noise, 16);
    if badsum then Xor(t, noise) else t
  }

  lemma Pow2At16()
    ensures Pow2(16) == W16
  {
    assert Pow2(8) == 256;
    Pow2Add(8, 8);
  }

  ghost function Sum4(h: Header, data: seq<byte>, addr: nat, src: seq<byte>, dst: seq<byte>): (t: nat)
    requires WantedOk(h.wanted) && |src| == 4 && |dst| == 4
    ensures t < W16
  {
    var seg := HeaderBytes(h, [0, 0]) + data;
    Complement(Magic4(src, dst, |seg|, IPPROTO_TCP, Csum(seg, addr)))
  }

  ghost function SumOver6(h: Header, data: seq<byte>, addr: nat, src: seq<byte>, dst: seq<byte>): (t: nat)
    requires WantedOk(h.wanted) && |src| == 16 && |dst| == 16
    ensures t < W16
  {
    var seg := HeaderBytes(h, [0, 0]) + data;
    Complement(Magic6(src, dst, |seg|, IPPROTO_TCP, Csum(seg, addr)))
  }

  lemma StoreSum(h: Header, s: seq<byte>, data: seq<byte>, t: nat)
    requires WantedOk(h.wanted) && |s| == 2 && t < W16
    ensures Store16(HeaderBytes(h, s) + data, 16, t) == HeaderBytes(h, Native16(t)) + data
  {
    var p := Be16(h.sport) + Be16(h.dport) + Be32(h.seqNum) + Be32(h.ack) + [Byte12(h), Low(h.flags)] + Be16(h.window);
    AboveAndLow(t);
    StoreAt16(p, s, [0, 0], OptionBytes(h.wanted), data, t);
  }

  lemma StoreAt16(p: seq<byte>, s: seq<byte>, z: seq<byte>, options: seq<byte>, data: seq<byte>, t: nat)
    requires |p| == 16 && |s| == 2 && t < W16
    ensures Store16(p + s + z + options + data, 16, t) == p + Native16(t) + z + options + data
  {
    AboveAndLow(t);
  }

  lemma ZeroSum(h: Header, data: seq<byte>)
    requires WantedOk(h.wanted)
    ensures var seg := HeaderBytes(h, [0, 0]) + data;
            18 <= |seg| && Store16(seg, 16, 0) == seg
  {
    StoreSum(h, [0, 0], data, 0);
    assert Native16(0) == [0, 0];
  }

  /** Without fooling the segment verifies exactly when no fold drops a carry. */
  lemma Sum4Verifies(h: Header, data: seq<byte>, addr: nat, src: seq<byte>, dst: seq<byte>)
    requires WantedOk(h.wanted) && |src| == 4 && |dst| == 4 && |HeaderBytes(h, [0, 0]) + data| < W16
    ensures var seg0 := HeaderBytes(h, [0, 0]) + data;
            Verifies(Pseudo4(src, dst, |seg0|, IPPROTO_TCP), HeaderBytes(h, Native16(Sum4(h, data, addr, src, dst))) + data) <==>
            !CsumLosesCarry(seg0, addr) && !LosesCarry(Magic4(src, dst, |seg0|, IPPROTO_TCP, Csum(seg0, addr)))
  {
    var seg0 := HeaderBytes(h, [0, 0]) + data;
    ZeroSum(h, data);
    StoreSum(h, [0, 0], data, Sum4(h, data, addr, src, dst));
    Stamp4Verifies(seg0, addr, 16, IPPROTO_TCP, src, dst);
  }

  lemma Sum6Verifies(h: Header, data: seq<byte>, addr: nat, src: seq<byte>, dst: seq<byte>)
    requires WantedOk(h.wanted) && |src| == 16 && |dst| == 16 && |HeaderBytes(h, [0, 0]) + data| < W16
    ensures var seg0 := HeaderBytes(h, [0, 0]) + data;
            Verifies(Pseudo6(src, dst, |seg0|, IPPROTO_TCP), HeaderBytes(h, Native16(SumOver6(h, data, addr, src, dst))) + data) <==>
            !CsumLosesCarry(seg0, addr) && !LosesCarry(Magic6(src, dst, |seg0|, IPPROTO_TCP, Csum(seg0, addr)))
  {
    var seg0 := HeaderBytes(h, [0, 0]) + data;
    ZeroSum(h, data);
    StoreSum(h, [0, 0], data, SumOver6(h, data, addr, src, dst));
    Stamp6Verifies(seg0, addr, 16, IPPROTO_TCP, src, dst);
  }

  /** The pseudo header is never all zeros, it has the protocol number.  With FOOL_BADSUM a segment that would have verified
      does so still exactly when the checksum was one of the two zeros of one's complement and the noise turned it into the
      other. */
  lemma SpoiledVerifies(pseudo: seq<byte>, seg: seq<byte>, t: nat, noise: nat)
    requires |pseudo| % 2 == 0 && 18 <= |seg| && seg[16] == 0 && seg[17] == 0 && t < W16 && 0 < noise < W16
    requires 0 < WordSum(pseudo, |pseudo|) && Verifies(pseudo, Store16(seg, 16, t))
    ensures Spoiled(t, true, noise) != t
    ensures Verifies(pseudo, Store16(seg, 16, Spoiled(t, true, noise))) <==> {t, Spoiled(t, true, noise)} == {0, M}
  {
    var u := Spoiled(t, true, noise);
    XorChanges(t, noise);
    StampedSum(pseudo, seg, 16, t);
    StampedSum(pseudo, seg, 16, u);
    TwoZeros(WordSum(pseudo, |pseudo|) + WordSum(seg, |seg|), t, u);
  }

  lemma TwoZeros(s: nat, t: nat, u: nat)
    requires 0 < s && t < W16 && u < W16 && t != u && Ones(s + t) == M
    ensures Ones(s + u) == M <==> {t, u} == {0, M}
  {
    var i, j := OnesQuotient(s + t), OnesQuotient(s + u);
    if Ones(s + u) == M {
      var d: int := (t as int) - u;
      var k: int := (i as int) - j;
      assert d == M * k && k != 0;
      assert d == M || d == -M;
    }
    if t == 0 && u == M {
      OnesUnique(s + u, M, i + 1);
    }
    if t == M && u == 0 {
      OnesUnique(s + u, M, (i as int) - 1);
    }
  }

  // ---------- IPv4 ----------

  /** Everything a packet needs that is not in the TCP header; `noise`, `md5` and the addresses' alignment are inputs. */
  datatype Ip4Args = Ip4Args(src: seq<byte>, dst: seq<byte>, df: bool, ttl: byte, tos: byte, ipId: seq<byte>)

  predicate Ip4Ok(a: Ip4Args) {
    |a.src| == 4 && |a.dst| == 4 && |a.ipId| == 2
  }

  function Ip4Header(a: Ip4Args, pktlen: nat): (b: seq<byte>)
    requires Ip4Ok(a)
    ensures |b| == 20
  {
    [0x45, a.tos] + Be16(pktlen) + a.ipId + [if a.df then 0x40 else 0, 0, a.ttl, IPPROTO_TCP, 0, 0] + a.src + a.dst
  }

  function Total4(g: Segment, fool: Fooling, len: nat): nat {
    40 + TcpOptLenOf(g, fool) + len
  }

  /** The checksum field: the sum over the segment, spoiled if asked for. */
  ghost function SumBytes4(a: Ip4Args, h: Header, data: seq<byte>, addr: nat, badsum: bool, noise: nat): (b: seq<byte>)
    requires Ip4Ok(a) && WantedOk(h.wanted) && 0 < noise < W16
    ensures |b| == 2
  {
    Native16(Spoiled(Sum4(h, data, addr, a.src, a.dst), badsum, noise))
  }

  ghost predicate IsPacket4(p: seq<byte>, a: Ip4Args, h: Header, sum: seq<byte>, data: seq<byte>)
    requires Ip4Ok(a) && |sum| == 2 && WantedOk(h.wanted)
  {
    && |p| == 20 + |HeaderBytes(h, sum)| + |data| && p[..20] == Ip4Header(a, |p|)
    && p[20..] == HeaderBytes(h, sum) + data
  }

  /** fill_iphdr */
  method FillIpHdr(buf: array<byte>, a: Ip4Args, pktlen: nat, ghost was: seq<byte>)
    requires Ip4Ok(a) && 20 <= buf.Length && buf[..] == was
    modifies buf
    ensures Written(buf[..], was, 0, Ip4Header(a, pktlen))
  {
    var cur := Emit(buf, 0, [0x45, a.tos], was, 0, []);
    ghost var done := [] + [0x45, a.tos];
    assert done == [0x45, a.tos];
    cur := Emit(buf, cur, Be16(pktlen), was, 0, done);
    done := done + Be16(pktlen);
    cur := Emit(buf, cur, a.ipId, was, 0, done);
    done := done + a.ipId;
    cur := Emit(buf, cur, [if a.df then 0x40 else 0, 0, a.ttl, IPPROTO_TCP, 0, 0], was, 0, done);
    done := done + [if a.df then 0x40 else 0, 0, a.ttl, IPPROTO_TCP, 0, 0];
    cur := Emit(buf, cur, a.src, was, 0, done);
    cur := Emit(buf, cur, a.dst, was, 0, done + a.src);
  }

  /** The header, the payload behind it, and nothing else. */
  method FillSegment(buf: array<byte>, at: nat, g: Segment, fool: Fooling, inc: Increments, md5: seq<byte>, data: seq<byte>)
    returns (n: nat)
    requires SegmentOk(g, inc) && |md5| == 16 && at + 20 + TcpOptLenOf(g, fool) + |data| <= buf.Length
    modifies buf
    ensures var h := HeaderOf(g, fool, inc, md5, |data|);
            && n == 20 + TcpOptLenOf(g, fool) + |data| == |HeaderBytes(h, [0, 0]) + data|
            && buf[at..at + n] == HeaderBytes(h, [0, 0]) + data
    ensures buf[..at] == old(buf[..at])
  {
    ghost var was := buf[..];
    ghost var bytes := HeaderBytes(HeaderOf(g, fool, inc, md5, |data|), [0, 0]);
    var t := FillTcpHdr(buf, at, g, fool, inc, md5, |data|, was);
    var next := Emit(buf, at + t, data, was, at, bytes);
    n := next - at;
    Front(buf[..], was, at, bytes + data);
    assert buf[..at] == buf[..][..at] && was[..at] == old(buf[..at]) && buf[at..at + n] == buf[..][at..at + n];
  }

  lemma Front(b: seq<byte>, was: seq<byte>, at: nat, done: seq<byte>)
    requires Written(b, was, at, done)
    ensures b[..at] == was[..at]
  {
  }

  /** The checksum over the segment at `at`, spoiled if asked for. */
  method StampSegment4(buf: array<byte>, at: nat, n: nat, addr: nat, a: Ip4Args, badsum: bool, noise: nat, ghost h: Header, ghost data: seq<byte>)
    requires Ip4Ok(a) && WantedOk(h.wanted) && 0 < noise < W16 && at + n <= buf.Length
    requires n == |HeaderBytes(h, [0, 0]) + data| && buf[at..at + n] == HeaderBytes(h, [0, 0]) + data
    modifies buf
    ensures buf[at..at + n] == HeaderBytes(h, SumBytes4(a, h, data, addr, badsum, noise)) + data
    ensures buf[..at] == old(buf[..at])
  {
    ghost var t := Sum4(h, data, addr, a.src, a.dst);
    ZeroSum(h, data);
    FixChecksum4(buf, at, n, addr, 16, IPPROTO_TCP, a.src, a.dst);
    StoreSum(h, [0, 0], data, t);
    if badsum {
      SpoilSum(buf, at, n, noise, h, data, t);
    }
  }

  method SpoilSum(buf: array<byte>, at: nat, n: nat, noise: nat, ghost h: Header, ghost data: seq<byte>, ghost t: nat)
    requires WantedOk(h.wanted) && 0 < noise < W16 && t < W16 && at + n <= buf.Length
    requires 18 <= n == |HeaderBytes(h, Native16(t)) + data| && buf[at..at + n] == HeaderBytes(h, Native16(t)) + data
    modifies buf
    ensures buf[at..at + n] == HeaderBytes(h, Native16(Spoiled(t, true, noise))) + data && buf[..at] == old(buf[..at])
  {
    SumIsThere(buf[at..at + n], h, data, t);
    assert buf[at + 16] == buf[at..at + n][16] && buf[at + 17] == buf[at..at + n][17];
    var now: nat := (buf[at + 16] as nat) + 256 * (buf[at + 17] as nat);
    PutSum(buf, at, n, 16, Spoiled(now, true, noise));
    StoreSum(h, Native16(t), data, Spoiled(t, true, noise));
  }

  lemma SumIsThere(seg: seq<byte>, h: Header, data: seq<byte>, t: nat)
    requires WantedOk(h.wanted) && t < W16 && seg == HeaderBytes(h, Native16(t)) + data
    ensures 18 <= |seg| && seg[16] == t % 256 && seg[17] == t / 256
  {
    assert seg[..20] == Fixed(h, Native16(t));
    FixedPieces(seg, h, Native16(t));
    assert seg[16] == seg[16..18][0] && seg[17] == seg[16..18][1];
    AboveAndLow(t);
  }

  method BuildAt4(a: Ip4Args, g: Segment, fool: Fooling, inc: Increments, md5: seq<byte>, noise: nat, data: seq<byte>,
                  buf: array<byte>, addr: nat, pktlen: nat)
    requires Ip4Ok(a) && SegmentOk(g, inc) && |md5| == 16 && 0 < noise < W16 && pktlen == Total4(g, fool, |data|) <= buf.Length
    modifies buf
    ensures var h := HeaderOf(g, fool, inc, md5, |data|);
            IsPacket4(buf[..pktlen], a, h, SumBytes4(a, h, data, addr, fool.badsum, noise), data)
  {
    OptLenIsWritten(g, fool, inc, md5, |data|);
    FillPacket4(a, g, fool, inc, md5, data, buf, pktlen);
    StampPacket4(a, HeaderOf(g, fool, inc, md5, |data|), data, buf, addr, fool.badsum, noise, pktlen);
  }

  method FillPacket4(a: Ip4Args, g: Segment, fool: Fooling, inc: Increments, md5: seq<byte>, data: seq<byte>, buf: array<byte>, pktlen: nat)
    requires Ip4Ok(a) && SegmentOk(g, inc) && |md5| == 16 && pktlen == Total4(g, fool, |data|) <= buf.Length
    modifies buf
    ensures buf[..20] == Ip4Header(a, pktlen) && buf[20..pktlen] == HeaderBytes(HeaderOf(g, fool, inc, md5, |data|), [0, 0]) + data
  {
    FillIpHdr(buf, a, pktlen, buf[..]);
    ghost var ip := buf[..20];
    assert ip == Ip4Header(a, pktlen);
    var n := FillSegment(buf, 20, g, fool, inc, md5, data);
  }

  method StampPacket4(a: Ip4Args, ghost h: Header, ghost data: seq<byte>, buf: array<byte>, addr: nat, badsum: bool, noise: nat,
                      pktlen: nat)
    requires Ip4Ok(a) && WantedOk(h.wanted) && 0 < noise < W16 && pktlen == 20 + |HeaderBytes(h, [0, 0])| + |data| <= buf.Length
    requires buf[..20] == Ip4Header(a, pktlen) && buf[20..pktlen] == HeaderBytes(h, [0, 0]) + data
    modifies buf
    ensures IsPacket4(buf[..pktlen], a, h, SumBytes4(a, h, data, addr, badsum, noise), data)
  {
    ghost var ip := buf[..20];
    StampSegment4(buf, 20, pktlen - 20, addr, a, badsum, noise, h, data);
    PacketFromParts4(buf[..], a, h, SumBytes4(a, h, data, addr, badsum, noise), data, pktlen);
    assert buf[..20] == buf[..][..20] && buf[20..pktlen] == buf[..][20..pktlen] && buf[..pktlen] == buf[..][..pktlen];
  }

  lemma PacketFromParts4(b: seq<byte>, a: Ip4Args, h: Header, sum: seq<byte>, data: seq<byte>, n: nat)
    requires Ip4Ok(a) && |sum| == 2 && WantedOk(h.wanted) && n == 20 + |HeaderBytes(h, sum)| + |data| <= |b|
    ensures b[..20] == Ip4Header(a, n) && b[20..n] == HeaderBytes(h, sum) + data ==> IsPacket4(b[..n], a, h, sum, data)
  {
    assert b[..n][..20] == b[..20] && b[..n][20..] == b[20..n];
  }

  // ---------- dissecting it ----------

  /** The IPv4 header says what the arguments ask for: version and size, type of service, total length, identification, the
      don't-fragment bit with no other flag and no offset, time to live, protocol and addresses. */
  ghost predicate SaysIp4(p: seq<byte>, a: Ip4Args) {
    && 20 <= |p| && High4(p[0]) == 4 && 4 * Low4(p[0]) == 20 && p[1] == a.tos && Get16(p, 2) == |p| && p[4..6] == a.ipId
    && Get16(p, 6) == (if a.df then 0x4000 else 0) && p[8] == a.ttl && p[9] == IPPROTO_TCP
    && p[12..16] == a.src && p[16..20] == a.dst
  }

  lemma Ip4Fields(p: seq<byte>, a: Ip4Args)
    requires Ip4Ok(a) && 20 <= |p| < 0x1_0000 && p[..20] == Ip4Header(a, |p|)
    ensures SaysIp4(p, a) && p[0] == 0x45
  {
    var q := p[..20];
    assert p[0] == q[0] && p[1] == q[1] && p[6] == q[6] && p[7] == q[7] && p[8] == q[8] && p[9] == q[9];
    assert p[2..4] == q[2..4] == Be16(|p|);
    Get16Of(p, 2, |p|);
    assert p[4..6] == q[4..6];
    assert p[12..16] == q[12..16] && p[16..20] == q[16..20];
    Halves(4, 5);
  }

  /** The TCP part of a packet, from the offset where the walk over the IP headers ends. */
  lemma TransportIsTcp(p: seq<byte>, v4: bool, at: nat, h: Header)
    requires ReadsAs(p, at, h)
    ensures Transport(p, v4, IPPROTO_TCP, at) == Dissected(v4, !v4, IPPROTO_TCP, Some(at), at + 20 + TcpOptLen(h.wanted))
  {
    assert p[at..][12] == p[at + 12];
  }

  /** What a dissected packet must give back: the transport header at `at` reading as h, and the payload. */
  ghost predicate GivesBack(p: seq<byte>, v4: bool, at: nat, h: Header, data: seq<byte>) {
    && WantedOk(h.wanted) && at + 20 + TcpOptLen(h.wanted) + |data| == |p|
    && ProtoDissectL3L4(p) == Dissected(v4, !v4, IPPROTO_TCP, Some(at), at + 20 + TcpOptLen(h.wanted))
    && ReadsAs(p, at, h) && p[at + 20 + TcpOptLen(h.wanted)..] == data
  }

  /** Dissecting a built IPv4 packet recovers everything, whatever the fooling and whatever the checksum. */
  lemma Dissects4(p: seq<byte>, a: Ip4Args, h: Header, sum: seq<byte>, data: seq<byte>)
    requires Ip4Ok(a) && HeaderOk(h) && |sum| == 2 && |p| <= MAX_PACKET && IsPacket4(p, a, h, sum, data)
    ensures GivesBack(p, true, 20, h, data) && SaysIp4(p, a)
  {
    var header := HeaderBytes(h, sum);
    RawIsChosen(h.wanted);
    assert p[20..][..|header|] == header && p[20 + |header|..] == p[20..][|header|..] == data;
    DissectsPieces(p, a, h, sum, data);
  }

  lemma DissectsPieces(p: seq<byte>, a: Ip4Args, h: Header, sum: seq<byte>, data: seq<byte>)
    requires Ip4Ok(a) && HeaderOk(h) && |sum| == 2 && |p| == 40 + TcpOptLen(h.wanted) + |data| <= MAX_PACKET
    requires p[..20] == Ip4Header(a, |p|) && p[20..][..20 + TcpOptLen(h.wanted)] == HeaderBytes(h, sum)
    requires p[40 + TcpOptLen(h.wanted)..] == data
    ensures GivesBack(p, true, 20, h, data) && SaysIp4(p, a)
  {
    Ip4Fields(p, a);
    HeaderReadsBack(p, 20, h, sum);
    TransportIsTcp(p, true, 20, h);
    Halves(4, 5);
  }

  /** A finished packet: its headers are found where they are, the IP header and the TCP header say what the arguments ask for,
      and the payload is behind them. */
  ghost predicate Built4(p: seq<byte>, a: Ip4Args, g: Segment, fool: Fooling, inc: Increments, md5: seq<byte>, data: seq<byte>) {
    && SaysIp4(p, a) && |data| <= |p|
    && ProtoDissectL3L4(p) == Dissected(true, false, IPPROTO_TCP, Some(20), |p| - |data|)
    && p[|p| - |data|..] == data && Carries(p[20..], g, fool, inc, md5, |data|)
  }

  /** What a dissected packet gives back, said of the arguments. */
  lemma ArgumentsGivenBack(p: seq<byte>, v4: bool, at: nat, h: Header, g: Segment, fool: Fooling, inc: Increments, md5: seq<byte>,
                           data: seq<byte>)
    requires SegmentOk(g, inc) && |md5| == 16 && h == HeaderOf(g, fool, inc, md5, |data|) && GivesBack(p, v4, at, h, data)
    ensures at + |data| <= |p| && ProtoDissectL3L4(p) == Dissected(v4, !v4, IPPROTO_TCP, Some(at), |p| - |data|)
    ensures p[|p| - |data|..] == data && Carries(p[at..], g, fool, inc, md5, |data|)
  {
    ArgumentsReadBack(p, at, g, fool, inc, md5, |data|);
  }

  lemma BuiltIs4(p: seq<byte>, a: Ip4Args, h: Header, g: Segment, fool: Fooling, inc: Increments, md5: seq<byte>, data: seq<byte>,
                 sum: seq<byte>)
    requires Ip4Ok(a) && SegmentOk(g, inc) && |md5| == 16 && |sum| == 2 && h == HeaderOf(g, fool, inc, md5, |data|)
    requires |p| <= MAX_PACKET && IsPacket4(p, a, h, sum, data)
    ensures Built4(p, a, g, fool, inc, md5, data)
  {
    Dissects4(p, a, h, sum, data);
    ArgumentsGivenBack(p, true, 20, h, g, fool, inc, md5, data);
  }

  /** A longer packet cannot be described: its 16-bit length is too small to hold even the payload's headers and the payload. */
  lemma LongPacketsAreCut(g: Segment, fool: Fooling, data: seq<byte>)
    requires |data| < 0x1_0000
    ensures Total4(g, fool, |data|) % 0x1_0000 >= 40 + TcpOptLenOf(g, fool) + |data| <==> Total4(g, fool, |data|) <= MAX_PACKET
  {
  }

  // ---------- the builder ----------

  /** prepare_tcp_segment4. The packet length is kept in 16 bits, and the caller sees to it that it fits. What is built is
      what was asked for, and its checksum is that of Sum4, spoiled if asked for. */
  method PrepareTcpSegment4(a: Ip4Args, g: Segment, fool: Fooling, inc: Increments, md5: seq<byte>, noise: nat, data: seq<byte>,
                            buf: array<byte>, addr: nat) returns (ok: bool, pktlen: nat)
    requires Ip4Ok(a) && SegmentOk(g, inc) && |md5| == 16 && 0 < noise < W16 && Total4(g, fool, |data|) <= MAX_PACKET
    modifies buf
    ensures ok == (Total4(g, fool, |data|) <= buf.Length) && (!ok ==> buf[..] == old(buf[..]))
    ensures ok ==> var h := HeaderOf(g, fool, inc, md5, |data|);
                   && pktlen == Total4(g, fool, |data|)
                   && IsPacket4(buf[..pktlen], a, h, SumBytes4(a, h, data, addr, fool.badsum, noise), data)
    ensures ok ==> Built4(buf[..pktlen], a, g, fool, inc, md5, data)
  {
    pktlen := 20 + 20 + TcpOptLenOf(g, fool) + |data|;
    if pktlen > buf.Length {
      return false, pktlen;
    }
    OptLenIsWritten(g, fool, inc, md5, |data|);
    BuildAt4(a, g, fool, inc, md5, noise, data, buf, addr, pktlen);
    ghost var h := HeaderOf(g, fool, inc, md5, |data|);
    BuiltIs4(buf[..pktlen], a, h, g, fool, inc, md5, data, SumBytes4(a, h, data, addr, fool.badsum, noise));
    ok := true;
  }
}
