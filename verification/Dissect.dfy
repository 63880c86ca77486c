/** Finding the headers of a packet: the proto_* functions of nfq/darkmagic.c. Pointers are offsets into the packet. */
module Dissect {
  import opened Options
  import opened Bytes

  const IPPROTO_TCP: byte := 6
  const IPPROTO_UDP: byte := 17
  const IPPROTO_HOPOPTS: byte := 0
  const IPPROTO_ROUTING: byte := 43
  const IPPROTO_FRAGMENT: byte := 44
  const IPPROTO_AH: byte := 51
  const IPPROTO_NONE: byte := 59
  const IPPROTO_DSTOPTS: byte := 60

  // ---------- halves of a byte ----------

  function High4(b: nat): nat {
    if b < 16 then 0 else 1 + High4(b - 16)
  }

  function Low4(b: nat): nat {
    if b < 16 then b else Low4(b - 16)
  }

  lemma {:induction false} Halves(h: nat, l: nat)
    requires l < 16
    ensures High4(16 * h + l) == h && Low4(16 * h + l) == l
  {
    if h != 0 {
      Halves(h - 1, l);
    }
  }

  // ---------- IPv4, TCP, UDP ----------

  predicate ProtoCheckIpv4(d: seq<byte>) {
    |d| >= 20 && High4(d[0]) == 4 && |d| >= 4 * Low4(d[0])
  }

  predicate ProtoCheckTcp(d: seq<byte>) {
    |d| >= 20 && |d| >= 4 * High4(d[12])
  }

  predicate ProtoCheckUdp(d: seq<byte>) {
    |d| >= 8 && |d| >= Get16(d, 4)
  }

  // ---------- IPv6 ----------

  predicate ProtoCheckIpv6(d: seq<byte>) {
    |d| >= 40 && High4(d[0]) == 6 && |d| - 40 >= Get16(d, 4)
  }

  /** Hop-by-hop options, routing, destination options, mobility, host identity and shim6. */
  predicate HasLengthByte(t: byte) {
    t in {IPPROTO_HOPOPTS, IPPROTO_ROUTING, IPPROTO_DSTOPTS, 135, 139, 140}
  }

  /** Where the walk over the extension headers stops, the protocol it reports, and the byte that names that header. */
  datatype Walked = Walked(pos: nat, proto: byte, last: nat)

  /** The size of the extension header of type t at pos, if it is one and its length can be read. */
  function ExtensionLen(d: seq<byte>, pos: nat, t: byte): (r: Option<nat>)
    requires pos < |d|
    ensures r.Some? ==> 8 <= r.value
  {
    if t == IPPROTO_FRAGMENT then Some(8)
    else if HasLengthByte(t) && pos + 2 <= |d| then Some(8 + 8 * (d[pos + 1] as nat))
    else if t == IPPROTO_AH && pos + 2 <= |d| then Some(8 + 4 * (d[pos + 1] as nat))
    else None
  }

  predicate IsExtension(t: byte) {
    HasLengthByte(t) || t == IPPROTO_FRAGMENT || t == IPPROTO_AH
  }

  /** The rest of the walk; `first` is the next header of the base header, reported whenever the walk fails. */
  function Walk(d: seq<byte>, pos: nat, t: byte, last: nat, first: byte): (r: Walked)
    requires pos <= |d|
    ensures pos <= r.pos <= |d|
    decreases |d| - pos
  {
    if pos == |d| || t == IPPROTO_NONE then Walked(pos, first, last)
    else if !IsExtension(t) then Walked(pos, t, last)
    else
      var n := ExtensionLen(d, pos, t);
      if n.None? || pos + n.value > |d| then Walked(pos, first, last)
      else Walk(d, pos + n.value, d[pos], pos, first)
  }

  function Skip6(d: seq<byte>): (r: Walked)
    requires 40 <= |d|
    ensures 40 <= r.pos <= |d|
  {
    Walk(d, 40, d[6], 6, d[6])
  }

  /** proto_skip_ipv6 */
  method ProtoSkipIpv6(d: seq<byte>) returns (r: Walked)
    requires 40 <= |d|
    ensures r == Skip6(d)
  {
    var headerType, protoType := d[6], d[6];
    var last, pos := 6, 40;
    while pos < |d|
      invariant 40 <= pos <= |d| && protoType == d[6] && last < |d|
      invariant Walk(d, pos, headerType, last, d[6]) == Skip6(d)
      decreases |d| - pos
    {
      var hdrlen: nat;
      if HasLengthByte(headerType) {
        if |d| - pos < 2 {
          return Walked(pos, protoType, last);
        }
        hdrlen := 8 + 8 * (d[pos + 1] as nat);
      } else if headerType == IPPROTO_FRAGMENT {
        hdrlen := 8;
      } else if headerType == IPPROTO_AH {
        if |d| - pos < 2 {
          return Walked(pos, protoType, last);
        }
        hdrlen := 8 + 4 * (d[pos + 1] as nat);
      } else if headerType == IPPROTO_NONE {
        return Walked(pos, protoType, last);
      } else {
        return Walked(pos, headerType, last);
      }
      if |d| - pos < hdrlen {
        return Walked(pos, protoType, last);
      }
      headerType, last := d[pos], pos;
      pos := pos + hdrlen;
    }
    return Walked(pos, protoType, last);
  }

  // ---------- the whole packet ----------

  /** Offsets of what was found; transport is None when the transport header is missing or cut short. */
  datatype Dissected = Dissected(v4: bool, v6: bool, proto: byte, transport: Option<nat>, payload: nat)

  /** proto_dissect_l3l4 */
  function ProtoDissectL3L4(d: seq<byte>): Dissected {
    if ProtoCheckIpv4(d) then Transport(d, true, d[9], 4 * Low4(d[0]))
    else if ProtoCheckIpv6(d) then var w := Skip6(d); Transport(d, false, w.proto, w.pos)
    else Dissected(false, false, 0, None, 0)
  }

  function Transport(d: seq<byte>, v4: bool, proto: byte, at: nat): Dissected
    requires at <= |d|
  {
    if proto == IPPROTO_TCP && ProtoCheckTcp(d[at..]) then Dissected(v4, !v4, proto, Some(at), at + 4 * High4(d[at + 12]))
    else if proto == IPPROTO_UDP && ProtoCheckUdp(d[at..]) then Dissected(v4, !v4, proto, Some(at), at + 8)
    else Dissected(v4, !v4, proto, None, 0)
  }

  /** A UDP header is found exactly when there is room for it and for the length it claims; the payload is behind its 8 bytes. */
  lemma UdpIsFound(p: seq<byte>, v4: bool, at: nat)
    requires at <= |p|
    ensures Transport(p, v4, IPPROTO_UDP, at).transport == Some(at) <==> at + 8 <= |p| && Get16(p, at + 4) <= |p| - at
    ensures Transport(p, v4, IPPROTO_UDP, at).transport.Some? ==> Transport(p, v4, IPPROTO_UDP, at).payload == at + 8
  {
    if at + 8 <= |p| {
      assert p[at..][4] == p[at + 4] && p[at..][5] == p[at + 5];
    }
  }
}
