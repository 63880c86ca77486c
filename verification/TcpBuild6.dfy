/** The IPv6 half of TcpBuild: extension headers put before the TCP header, and the walk that steps over them. */
module TcpBuild6 {
  import opened Options
  import opened Bytes
  import opened Checksum
  import opened ChecksumStamp
  import opened Dissect
  import opened TcpOptions
  import opened TcpHeader
  import opened TcpBuild

  // ---------- the extension headers ----------

  /** The headers asked for, in their order; a second hop-by-hop header is allowed although the standard forbids it. */
  function Chosen6(fool: Fooling): (types: seq<byte>)
    ensures |types| <= 4
  {
    (if fool.hopByHop2 then [IPPROTO_HOPOPTS, IPPROTO_HOPOPTS] else if fool.hopByHop then [IPPROTO_HOPOPTS] else [])
    + (if fool.destOpt then [IPPROTO_DSTOPTS] else []) + (if fool.ipFrag1 then [IPPROTO_FRAGMENT] else [])
  }

  function FirstOr(types: seq<byte>, final: byte): byte {
    if types == [] then final else types[0]
  }

  /** What follows the next-header byte: zeros, which make up an empty options header, or an unfragmented fragment header. */
  function AfterNext(t: byte, ident: seq<byte>): (b: seq<byte>)
    requires |ident| == 4
    ensures |b| == 7 && b[0] == 0
  {
    [0, 0, 0] + if t == IPPROTO_FRAGMENT then ident else [0, 0, 0, 0]
  }

  predicate Chainable(t: byte) {
    t == IPPROTO_HOPOPTS || t == IPPROTO_DSTOPTS || t == IPPROTO_FRAGMENT
  }

  /** Headers of eight bytes from pos on, each naming the next one, the last one naming TCP. */
  ghost predicate Chain(b: seq<byte>, pos: nat, types: seq<byte>, ident: seq<byte>)
    requires |ident| == 4
    decreases |types|
  {
    types == [] ||
    (&& pos + 8 <= |b| && Chainable(types[0]) && b[pos] == FirstOr(types[1..], IPPROTO_TCP)
     && b[pos + 1..pos + 8] == AfterNext(types[0], ident) && Chain(b, pos + 8, types[1..], ident))
  }

  /** The walk steps over the chain to what lies behind it. */
  lemma {:induction false} WalkOverChain(b: seq<byte>, pos: nat, types: seq<byte>, ident: seq<byte>, last: nat, first: byte)
    requires |ident| == 4 && Chain(b, pos, types, ident) && pos + 8 * |types| < |b|
    ensures Walk(b, pos, FirstOr(types, IPPROTO_TCP), last, first).pos == pos + 8 * |types|
    ensures Walk(b, pos, FirstOr(types, IPPROTO_TCP), last, first).proto == IPPROTO_TCP
    decreases |types|
  {
    if types != [] {
      assert b[pos + 1] == b[pos + 1..pos + 8][0];
      WalkOverChain(b, pos + 8, types[1..], ident, pos, first);
    }
  }

  lemma {:induction false} ChainStays(b: seq<byte>, c: seq<byte>, pos: nat, types: seq<byte>, ident: seq<byte>)
    requires |ident| == 4 && Chain(b, pos, types, ident) && pos + 8 * |types| <= |c| && pos + 8 * |types| <= |b|
    requires forall k :: pos <= k < pos + 8 * |types| ==> c[k] == b[k]
    ensures Chain(c, pos, types, ident)
    decreases |types|
  {
    if types != [] {
      assert c[pos + 1..pos + 8] == b[pos + 1..pos + 8];
      ChainStays(b, c, pos + 8, types[1..], ident);
    }
  }

  /** One more header behind the chain, announced by the one that was last. */
  lemma {:induction false} ChainGrows(b: seq<byte>, c: seq<byte>, pos: nat, types: seq<byte>, t: byte, ident: seq<byte>)
    requires |ident| == 4 && types != [] && Chain(b, pos, types, ident) && |c| == |b| && pos + 8 * |types| + 8 <= |c| && Chainable(t)
    requires var at := pos + 8 * |types|;
             && c[at] == IPPROTO_TCP && c[at + 1..at + 8] == AfterNext(t, ident) && c[at - 8] == t
             && forall k :: 0 <= k < at && k != at - 8 ==> c[k] == b[k]
    ensures Chain(c, pos, types + [t], ident)
    decreases |types|
  {
    var more := types + [t];
    assert more[1..] == types[1..] + [t];
    assert c[pos + 1..pos + 8] == b[pos + 1..pos + 8];
    if |types| == 1 {
      assert more[1..] == [t] && [t][1..] == [];
    } else {
      ChainGrows(b, c, pos + 8, types[1..], t, ident);
    }
  }

  /** The state of the header writer: where the next header goes, the field that must name it, and the first type. */
  datatype Chained = Chained(at: nat, nexttype: Option<nat>, proto: byte)

  ghost predicate ChainedOk(b: seq<byte>, was: seq<byte>, c: Chained, types: seq<byte>, ident: seq<byte>)
    requires |ident| == 4
  {
    && c.at == 40 + 8 * |types| <= |b| == |was| && Chain(b, 40, types, ident) && c.proto == FirstOr(types, IPPROTO_TCP)
    && c.nexttype == (if types == [] then None else Some(c.at - 8)) && b[..40] == was[..40]
  }

  /** One header, announced by the one before it or by the base header. */
  method AddHeader(buf: array<byte>, c: Chained, t: byte, ident: seq<byte>, ghost was: seq<byte>, ghost types: seq<byte>)
    returns (c': Chained)
    requires |ident| == 4 && ChainedOk(buf[..], was, c, types, ident) && c.at + 8 <= buf.Length && Chainable(t)
    modifies buf
    ensures ChainedOk(buf[..], was, c', types + [t], ident)
  {
    ghost var b := buf[..];
    var after := AfterNext(t, ident);
    buf[c.at] := IPPROTO_TCP;
    forall k | 0 <= k < 7 {
      buf[c.at + 1 + k] := after[k];
    }
    var proto := c.proto;
    if c.nexttype.Some? {
      buf[c.nexttype.value] := t;
    } else {
      proto := t;
    }
    c' := Chained(c.at + 8, Some(c.at), proto);
    assert buf[..][c.at + 1..c.at + 8] == after;
    if types == [] {
      assert [t][1..] == [] && types + [t] == [t];
    } else {
      ChainGrows(b, buf[..], 40, types, t, ident);
    }
    assert buf[..][..40] == b[..40];
  }

  /** The extension headers of prepare_tcp_segment6; `ident` is the random identification of the fragment header. */
  method AddHeaders(buf: array<byte>, fool: Fooling, ident: seq<byte>) returns (c: Chained)
    requires |ident| == 4 && 40 + 8 * |Chosen6(fool)| <= buf.Length
    modifies buf
    ensures ChainedOk(buf[..], old(buf[..]), c, Chosen6(fool), ident)
  {
    ghost var was := buf[..];
    ghost var types: seq<byte> := [];
    c := Chained(40, None, IPPROTO_TCP);
    if fool.hopByHop || fool.hopByHop2 {
      c := AddHeader(buf, c, IPPROTO_HOPOPTS, ident, was, types);
      types := types + [IPPROTO_HOPOPTS];
      if fool.hopByHop2 {
        c := AddHeader(buf, c, IPPROTO_HOPOPTS, ident, was, types);
        types := types + [IPPROTO_HOPOPTS];
      }
    }
    if fool.destOpt {
      c := AddHeader(buf, c, IPPROTO_DSTOPTS, ident, was, types);
      types := types + [IPPROTO_DSTOPTS];
    }
    if fool.ipFrag1 {
      c := AddHeader(buf, c, IPPROTO_FRAGMENT, ident, was, types);
      types := types + [IPPROTO_FRAGMENT];
    }
    assert types == Chosen6(fool);
  }

  // ---------- the packet ----------

  /** `flow` is the flow label word as it goes on the wire. */
  datatype Ip6Args = Ip6Args(src: seq<byte>, dst: seq<byte>, ttl: byte, flow: seq<byte>)

  predicate Ip6Ok(a: Ip6Args) {
    |a.src| == 16 && |a.dst| == 16 && |a.flow| == 4
  }

  function Ip6Header(a: Ip6Args, plen: nat, proto: byte): (b: seq<byte>)
    requires Ip6Ok(a)
    ensures |b| == 40
  {
    Low4Small(a.flow[0]);
    [0x60 + Low4(a.flow[0])] + a.flow[1..] + Be16(plen) + [proto, a.ttl] + a.src + a.dst
  }

  /** Where the TCP header starts. */
  function TcpOffset6(fool: Fooling): nat {
    40 + 8 * |Chosen6(fool)|
  }

  function Total6(g: Segment, fool: Fooling, len: nat): nat {
    40 + 8 * |Chosen6(fool)| + 20 + TcpOptLenOf(g, fool) + len
  }

  ghost predicate IsPacket6(p: seq<byte>, a: Ip6Args, types: seq<byte>, ident: seq<byte>, h: Header, sum: seq<byte>, data: seq<byte>)
    requires Ip6Ok(a) && |ident| == 4 && |sum| == 2 && WantedOk(h.wanted)
  {
    var at := 40 + 8 * |types|;
    && |p| == at + |HeaderBytes(h, sum)| + |data| && p[..40] == Ip6Header(a, |p| - 40, FirstOr(types, IPPROTO_TCP))
    && Chain(p, 40, types, ident) && p[at..] == HeaderBytes(h, sum) + data
  }

  /** fill_ip6hdr */
  method FillIp6Hdr(buf: array<byte>, a: Ip6Args, plen: nat, proto: byte, ghost was: seq<byte>)
    requires Ip6Ok(a) && 40 <= buf.Length && buf[..] == was
    modifies buf
    ensures Written(buf[..], was, 0, Ip6Header(a, plen, proto))
  {
    Low4Small(a.flow[0]);
    var cur := Emit(buf, 0, [0x60 + Low4(a.flow[0])], was, 0, []);
    ghost var done: seq<byte> := [] + [0x60 + Low4(a.flow[0])];
    assert done == [0x60 + Low4(a.flow[0])];
    cur := Emit(buf, cur, a.flow[1..], was, 0, done);
    done := done + a.flow[1..];
    cur := Emit(buf, cur, Be16(plen), was, 0, done);
    done := done + Be16(plen);
    cur := Emit(buf, cur, [proto, a.ttl], was, 0, done);
    done := done + [proto, a.ttl];
    cur := Emit(buf, cur, a.src, was, 0, done);
    cur := Emit(buf, cur, a.dst, was, 0, done + a.src);
  }

  method StampSegment6(buf: array<byte>, at: nat, n: nat, addr: nat, a: Ip6Args, badsum: bool, noise: nat, ghost h: Header, ghost data: seq<byte>)
    requires Ip6Ok(a) && WantedOk(h.wanted) && 0 < noise < W16 && at + n <= buf.Length
    requires n == |HeaderBytes(h, [0, 0]) + data| && buf[at..at + n] == HeaderBytes(h, [0, 0]) + data
    modifies buf
    ensures buf[at..at + n] == HeaderBytes(h, Native16(Spoiled(SumOver6(h, data, addr, a.src, a.dst), badsum, noise))) + data
    ensures buf[..at] == old(buf[..at])
  {
    ghost var t := SumOver6(h, data, addr, a.src, a.dst);
    ZeroSum(h, data);
    FixChecksum6(buf, at, n, addr, 16, IPPROTO_TCP, a.src, a.dst);
    StoreSum(h, [0, 0], data, t);
    if badsum {
      SpoilSum(buf, at, n, noise, h, data, t);
    }
  }

  /** The IP headers: everything before the TCP header. */
  method FillHeaders6(buf: array<byte>, a: Ip6Args, fool: Fooling, ident: seq<byte>, plen: nat) returns (at: nat)
    requires Ip6Ok(a) && |ident| == 4 && 40 + 8 * |Chosen6(fool)| <= buf.Length
    modifies buf
    ensures at == 40 + 8 * |Chosen6(fool)| && buf[..40] == Ip6Header(a, plen, FirstOr(Chosen6(fool), IPPROTO_TCP))
    ensures Chain(buf[..at], 40, Chosen6(fool), ident)
  {
    var c := AddHeaders(buf, fool, ident);
    at := c.at;
    ghost var b := buf[..];
    FillIp6Hdr(buf, a, plen, c.proto, b);
    ChainStays(b, buf[..at], 40, Chosen6(fool), ident);
    assert buf[..40] == buf[..][0..40];
  }

  ghost function SumBytes6(a: Ip6Args, h: Header, data: seq<byte>, addr: nat, badsum: bool, noise: nat): (b: seq<byte>)
    requires Ip6Ok(a) && WantedOk(h.wanted) && 0 < noise < W16
    ensures |b| == 2
  {
    Native16(Spoiled(SumOver6(h, data, addr, a.src, a.dst), badsum, noise))
  }

  method FillPacket6(a: Ip6Args, g: Segment, fool: Fooling, inc: Increments, md5: seq<byte>, ident: seq<byte>, data: seq<byte>,
                     buf: array<byte>, pktlen: nat)
    requires Ip6Ok(a) && SegmentOk(g, inc) && |md5| == 16 && |ident| == 4 && pktlen == Total6(g, fool, |data|) <= buf.Length
    modifies buf
    ensures IsPacket6(buf[..pktlen], a, Chosen6(fool), ident, HeaderOf(g, fool, inc, md5, |data|), [0, 0], data)
  {
    var at := FillHeaders6(buf, a, fool, ident, pktlen - 40);
    ghost var ip := buf[..at];
    var n := FillSegment(buf, at, g, fool, inc, md5, data);
    assert buf[..at] == ip && buf[..40] == ip[..40];
    PacketFromParts(buf[..], a, Chosen6(fool), ident, HeaderOf(g, fool, inc, md5, |data|), [0, 0], data, pktlen);
    assert buf[..pktlen] == buf[..][..pktlen];
  }

  method StampPacket6(a: Ip6Args, types: seq<byte>, ghost ident: seq<byte>, ghost h: Header, ghost data: seq<byte>, buf: array<byte>,
                      addr: nat, badsum: bool, noise: nat, pktlen: nat, ghost sum: seq<byte>)
    requires Ip6Ok(a) && WantedOk(h.wanted) && 0 < noise < W16 && |ident| == 4 && pktlen <= buf.Length
    requires IsPacket6(buf[..pktlen], a, types, ident, h, [0, 0], data) && sum == SumBytes6(a, h, data, addr, badsum, noise)
    modifies buf
    ensures IsPacket6(buf[..pktlen], a, types, ident, h, sum, data)
  {
    var at := 40 + 8 * |types|;
    ghost var p := buf[..pktlen];
    ghost var ip := buf[..at];
    assert buf[at..pktlen] == p[at..];
    StampSegment6(buf, at, pktlen - at, addr, a, badsum, noise, h, data);
    assert buf[..at] == ip;
    Restamped(buf[..], p, a, types, ident, h, sum, data);
    assert buf[..pktlen] == buf[..][..pktlen] && buf[..at] == buf[..][..at] && buf[at..pktlen] == buf[..][at..pktlen];
  }

  lemma Restamped(b: seq<byte>, p: seq<byte>, a: Ip6Args, types: seq<byte>, ident: seq<byte>, h: Header, sum: seq<byte>, data: seq<byte>)
    requires Ip6Ok(a) && |ident| == 4 && |sum| == 2 && WantedOk(h.wanted) && IsPacket6(p, a, types, ident, h, [0, 0], data) && |p| <= |b|
    ensures var at := 40 + 8 * |types|;
            b[..at] == p[..at] && b[at..|p|] == HeaderBytes(h, sum) + data ==> IsPacket6(b[..|p|], a, types, ident, h, sum, data)
  {
    var at := 40 + 8 * |types|;
    if b[..at] == p[..at] && b[at..|p|] == HeaderBytes(h, sum) + data {
      assert b[..40] == b[..at][..40] == p[..at][..40] == p[..40];
      ChainStays(p, b[..at], 40, types, ident);
      PacketFromParts(b, a, types, ident, h, sum, data, |p|);
    }
  }

  lemma PacketFromParts(b: seq<byte>, a: Ip6Args, types: seq<byte>, ident: seq<byte>, h: Header, sum: seq<byte>, data: seq<byte>, n: nat)
    requires Ip6Ok(a) && |ident| == 4 && |sum| == 2 && WantedOk(h.wanted)
    requires var at := 40 + 8 * |types|;
             && n == at + |HeaderBytes(h, sum)| + |data| <= |b| && b[..40] == Ip6Header(a, n - 40, FirstOr(types, IPPROTO_TCP))
             && Chain(b[..at], 40, types, ident) && b[at..n] == HeaderBytes(h, sum) + data
    ensures IsPacket6(b[..n], a, types, ident, h, sum, data)
  {
    var at := 40 + 8 * |types|;
    ChainStays(b[..at], b[..n], 40, types, ident);
    assert b[..n][..40] == b[..40] && b[..n][at..] == b[at..n];
  }

  // ---------- dissecting it ----------

  /** The IPv6 header says what the arguments ask for; of the word with version and traffic class, the version is 6 and the rest
      is the argument's. */
  ghost predicate SaysIp6(p: seq<byte>, a: Ip6Args, proto: byte)
    requires Ip6Ok(a)
  {
    && 40 <= |p| && High4(p[0]) == 6 && Low4(p[0]) == Low4(a.flow[0]) && p[1..4] == a.flow[1..4] && Get16(p, 4) == |p| - 40
    && p[6] == proto && p[7] == a.ttl && p[8..24] == a.src && p[24..40] == a.dst
  }

  lemma Ip6Fields(p: seq<byte>, a: Ip6Args, proto: byte)
    requires Ip6Ok(a) && 40 <= |p| && p[..40] == Ip6Header(a, |p| - 40, proto) && |p| - 40 < 0x1_0000
    ensures SaysIp6(p, a, proto)
  {
    var q := p[..40];
    assert p[0] == q[0] && p[6] == q[6] && p[7] == q[7];
    assert p[1..4] == q[1..4] == a.flow[1..4];
    assert p[4..6] == q[4..6] == Be16(|p| - 40);
    Get16Of(p, 4, |p| - 40);
    assert p[8..24] == q[8..24] && p[24..40] == q[24..40];
    Low4Small(a.flow[0]);
    Halves(6, Low4(a.flow[0]));
  }

  /** Dissecting recovers everything for every combination of extension headers. */
  lemma Dissects6(p: seq<byte>, a: Ip6Args, types: seq<byte>, ident: seq<byte>, h: Header, sum: seq<byte>, data: seq<byte>)
    requires Ip6Ok(a) && |ident| == 4 && |sum| == 2 && HeaderOk(h) && IsPacket6(p, a, types, ident, h, sum, data) && |p| <= MAX_PACKET
    ensures GivesBack(p, false, 40 + 8 * |types|, h, data) && SaysIp6(p, a, FirstOr(types, IPPROTO_TCP))
  {
    var at := 40 + 8 * |types|;
    RawIsChosen(h.wanted);
    SegmentReadsBack(p, at, h, sum, data);
    HeadersWalked(p, a, types, ident, at);
    Finds6(p, at, h);
  }

  lemma HeadersWalked(p: seq<byte>, a: Ip6Args, types: seq<byte>, ident: seq<byte>, at: nat)
    requires Ip6Ok(a) && |ident| == 4 && at == 40 + 8 * |types| < |p| && |p| - 40 < 0x1_0000
    requires p[..40] == Ip6Header(a, |p| - 40, FirstOr(types, IPPROTO_TCP)) && Chain(p, 40, types, ident)
    ensures SaysIp6(p, a, FirstOr(types, IPPROTO_TCP)) && Skip6(p).pos == at && Skip6(p).proto == IPPROTO_TCP
  {
    Ip6Fields(p, a, FirstOr(types, IPPROTO_TCP));
    WalkOverChain(p, 40, types, ident, 6, p[6]);
  }

  lemma SegmentReadsBack(p: seq<byte>, at: nat, h: Header, sum: seq<byte>, data: seq<byte>)
    requires HeaderOk(h) && |sum| == 2 && at <= |p| && p[at..] == HeaderBytes(h, sum) + data && |HeaderBytes(h, sum)| == 20 + TcpOptLen(h.wanted)
    ensures ReadsAs(p, at, h) && p[at + 20 + TcpOptLen(h.wanted)..] == data
  {
    var n := 20 + TcpOptLen(h.wanted);
    assert p[at..][..n] == HeaderBytes(h, sum) && p[at + n..] == p[at..][n..] == data;
    HeaderReadsBack(p, at, h, sum);
  }

  lemma Finds6(p: seq<byte>, at: nat, h: Header)
    requires ReadsAs(p, at, h) && 40 <= |p| && High4(p[0]) == 6 && Get16(p, 4) == |p| - 40
    requires Skip6(p).pos == at && Skip6(p).proto == IPPROTO_TCP
    ensures ProtoDissectL3L4(p) == Dissected(false, true, IPPROTO_TCP, Some(at), at + 20 + TcpOptLen(h.wanted))
  {
    TransportIsTcp(p, false, at, h);
  }

  // ---------- the builder ----------

  /** A finished packet: the walk over its headers ends at the TCP header, both headers say what the arguments ask for, and the
      payload is behind them. */
  ghost predicate Built6(p: seq<byte>, a: Ip6Args, types: seq<byte>, at: nat, g: Segment, fool: Fooling, inc: Increments,
                         md5: seq<byte>, ident: seq<byte>, data: seq<byte>)
    requires Ip6Ok(a) && |ident| == 4
  {
    && SaysIp6(p, a, FirstOr(types, IPPROTO_TCP)) && Chain(p, 40, types, ident) && at + |data| <= |p|
    && ProtoDissectL3L4(p) == Dissected(false, true, IPPROTO_TCP, Some(at), |p| - |data|)
    && p[|p| - |data|..] == data && Carries(p[at..], g, fool, inc, md5, |data|)
  }

  lemma BuiltIs6(p: seq<byte>, a: Ip6Args, types: seq<byte>, at: nat, h: Header, g: Segment, fool: Fooling, inc: Increments,
                 md5: seq<byte>, ident: seq<byte>, data: seq<byte>, sum: seq<byte>)
    requires Ip6Ok(a) && SegmentOk(g, inc) && |md5| == 16 && |ident| == 4 && |sum| == 2 && h == HeaderOf(g, fool, inc, md5, |data|)
    requires IsPacket6(p, a, types, ident, h, sum, data) && |p| <= MAX_PACKET && at == 40 + 8 * |types|
    ensures Built6(p, a, types, at, g, fool, inc, md5, ident, data)
  {
    Dissects6(p, a, types, ident, h, sum, data);
    ArgumentsGivenBack(p, false, at, h, g, fool, inc, md5, data);
  }

  /** prepare_tcp_segment6. What is built is what was asked for, behind the extension headers asked for. */
  method PrepareTcpSegment6(a: Ip6Args, g: Segment, fool: Fooling, inc: Increments, md5: seq<byte>, noise: nat, ident: seq<byte>,
                            data: seq<byte>, buf: array<byte>, addr: nat) returns (ok: bool, pktlen: nat)
    requires Ip6Ok(a) && SegmentOk(g, inc) && |md5| == 16 && 0 < noise < W16 && |ident| == 4 && Total6(g, fool, |data|) <= MAX_PACKET
    modifies buf
    ensures ok == (Total6(g, fool, |data|) <= buf.Length) && (!ok ==> buf[..] == old(buf[..]))
    ensures ok ==> var h := HeaderOf(g, fool, inc, md5, |data|);
                   && pktlen == Total6(g, fool, |data|)
                   && IsPacket6(buf[..pktlen], a, Chosen6(fool), ident, h, SumBytes6(a, h, data, addr, fool.badsum, noise), data)
    ensures ok ==> Built6(buf[..pktlen], a, Chosen6(fool), TcpOffset6(fool), g, fool, inc, md5, ident, data)
  {
    pktlen := 40 + 8 * |Chosen6(fool)| + 20 + TcpOptLenOf(g, fool) + |data|;
    if pktlen > buf.Length {
      return false, pktlen;
    }
    BuildAt6(a, g, fool, inc, md5, noise, ident, data, buf, addr, pktlen, Chosen6(fool), TcpOffset6(fool));
    ok := true;
  }

  method BuildAt6(a: Ip6Args, g: Segment, fool: Fooling, inc: Increments, md5: seq<byte>, noise: nat, ident: seq<byte>,
                  data: seq<byte>, buf: array<byte>, addr: nat, pktlen: nat, types: seq<byte>, at: nat)
    requires Ip6Ok(a) && SegmentOk(g, inc) && |md5| == 16 && 0 < noise < W16 && |ident| == 4
    requires pktlen == Total6(g, fool, |data|) <= buf.Length && pktlen <= MAX_PACKET
    requires types == Chosen6(fool) && at == 40 + 8 * |types|
    modifies buf
    ensures var h := HeaderOf(g, fool, inc, md5, |data|);
            IsPacket6(buf[..pktlen], a, types, ident, h, SumBytes6(a, h, data, addr, fool.badsum, noise), data)
    ensures Built6(buf[..pktlen], a, types, at, g, fool, inc, md5, ident, data)
  {
    FillPacket6(a, g, fool, inc, md5, ident, data, buf, pktlen);
    ghost var h := HeaderOf(g, fool, inc, md5, |data|);
    ghost var sum := SumBytes6(a, h, data, addr, fool.badsum, noise);
    StampPacket6(a, types, ident, h, data, buf, addr, fool.badsum, noise, pktlen, sum);
    BuiltIs6(buf[..pktlen], a, types, at, h, g, fool, inc, md5, ident, data, sum);
  }
}
