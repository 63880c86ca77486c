/** Splitting an IPv6 packet into two fragments (ip_frag6 and ip6_insert_simple_hdr of nfq/darkmagic.c), and exactly when a
    receiver can put them together: the second fragment gets a copy of the base header only, so extension headers in it are
    whatever its buffer held before.
 */
module IpFrag6 {
  import opened Options
  import opened Bytes
  import opened Dissect
  import opened IpFrag

  // ---------- the receiver ----------

  /** A Fragment header: what follows it, the identification, and the headers before it. */
  datatype Parsed6 = Parsed6(frag: Fragment, next: byte, ident: seq<byte>, per: seq<byte>)

  /** The first Fragment header of the chain; section 4.5 of RFC 8200. */
  function FindFragment(d: seq<byte>, pos: nat, t: byte): (r: Option<nat>)
    requires pos <= |d|
    ensures r.Some? ==> pos <= r.value && r.value + 8 <= |d|
    decreases |d| - pos
  {
    if pos == |d| || !IsExtension(t) then None
    else if t == IPPROTO_FRAGMENT then (if pos + 8 <= |d| then Some(pos) else None)
    else
      var n := ExtensionLen(d, pos, t);
      if n.None? || pos + n.value > |d| then None else FindFragment(d, pos + n.value, d[pos])
  }

  /** The high 13 bits of the offset field count units of 8 bytes; the lowest bit says that more follows. */
  function Offset6(v: nat): nat {
    if v < 8 then 0 else 8 + Offset6(v - 8)
  }

  predicate More6(v: nat) {
    if v < 2 then v == 1 else More6(v - 2)
  }

  lemma {:induction false} Offset6Of(k: nat)
    ensures Offset6(8 * k) == 8 * k && !More6(8 * k)
  {
    EvenEnds(4 * k);
    if k != 0 {
      Offset6Of(k - 1);
    }
  }

  lemma {:induction false} EvenEnds(k: nat)
    ensures !More6(2 * k)
  {
    if k != 0 {
      EvenEnds(k - 1);
    }
  }

  function ParseAt(d: seq<byte>, at: nat): Parsed6
    requires at + 8 <= |d|
  {
    var v := Get16(d, at + 2);
    Parsed6(Fragment(Offset6(v), More6(v), d[at + 8..]), d[at], d[at + 4..at + 8], d[..at])
  }

  function Parse6(p: seq<byte>): Option<Parsed6> {
    if |p| < 40 || 40 + Get16(p, 4) > |p| then None
    else
      var d := p[..40 + Get16(p, 4)];
      var at := FindFragment(d, 40, d[6]);
      if at.None? then None else Some(ParseAt(d, at.value))
  }

  // ---------- the sender ----------

  /** The headers before the Fragment header: new payload length, and the last one now announces the Fragment header. */
  ghost function PerFragment(u: seq<byte>, plen: nat, last: nat): (r: seq<byte>)
    requires 40 <= |u| && last < |u|
    ensures |r| == |u|
  {
    Put(Put(u, 4, Be16(plen)), last, [IPPROTO_FRAGMENT])
  }

  /** A fragment, field by field: the headers before the Fragment header, that header, the data. */
  ghost predicate IsFrag6(p: seq<byte>, per: seq<byte>, proto: byte, off: nat, ident: seq<byte>, data: seq<byte>) {
    var n := |per|;
    && |ident| == 4 && |p| == n + 8 + |data| && p[..n] == per
    && p[n] == proto && p[n + 1] == 0 && p[n + 2..n + 4] == Be16(off) && p[n + 4..n + 8] == ident && p[n + 8..] == data
  }

  /** The part of `pkt` that its own length covers. */
  function Own6(pkt: seq<byte>): (d: seq<byte>)
    requires |pkt| >= 40 && 40 + Get16(pkt, 4) <= |pkt|
    ensures |d| >= 40
  {
    pkt[..40 + Get16(pkt, 4)]
  }

  predicate Accepts6(pkt: seq<byte>, fragPos: nat, cap1: nat, cap2: nat) {
    && fragPos % 8 == 0 && |pkt| >= 40 && 40 + Get16(pkt, 4) <= |pkt|
    && var unf := Skip6(Own6(pkt)).pos;
       var payload := |Own6(pkt)| - unf;
       && fragPos < payload && unf + 8 + fragPos <= cap1 && unf + 8 + payload - fragPos <= cap2
  }

  /** The bytes of one fragment; only `copied` bytes of the headers are written before the fields. */
  method WriteFragment6(buf: array<byte>, u: seq<byte>, copied: nat, last: nat, proto: byte, off: nat, ident: seq<byte>, data: seq<byte>)
    requires 40 <= copied <= |u| && last < |u| && |ident| == 4 && |u| + 8 + |data| <= buf.Length
    modifies buf
    ensures IsFrag6(buf[..|u| + 8 + |data|], PerFragment(u[..copied] + old(buf[copied..|u|]), |u| - 40 + 8 + |data|, last), proto, off, ident, data)
  {
    ghost var n, plen := |u| + 8 + |data|, |u| - 40 + 8 + |data|;
    ghost var h := u[..copied] + buf[copied..|u|];
    Store(buf, 0, u[..copied]);
    assert buf[..|u|] == h;
    WriteHeaders6(buf, |u|, |u| - 40 + 8 + |data|, last, h);
    ghost var per := buf[..|u|];
    WriteTail6(buf, |u|, [proto, 0] + Be16(off) + ident, data, per);
    Pieces6(buf[..n], per, proto, Be16(off), ident, data);
  }

  /** The Fragment header and what follows it. */
  method WriteTail6(buf: array<byte>, at: nat, header: seq<byte>, data: seq<byte>, ghost per: seq<byte>)
    requires at + |header| + |data| <= buf.Length && per == buf[..at]
    modifies buf
    ensures buf[..at + |header| + |data|] == per + header + data
  {
    Store(buf, at, header);
    Store(buf, at + |header|, data);
  }

  lemma Pieces6(p: seq<byte>, per: seq<byte>, proto: byte, off: seq<byte>, ident: seq<byte>, data: seq<byte>)
    requires |off| == 2 && |ident| == 4
    ensures p == per + ([proto, 0] + off + ident) + data ==>
              var n := |per|;
              && |p| == n + 8 + |data| && p[..n] == per && p[n] == proto && p[n + 1] == 0
              && p[n + 2..n + 4] == off && p[n + 4..n + 8] == ident && p[n + 8..] == data
  {
  }

  method WriteHeaders6(buf: array<byte>, n: nat, plen: nat, last: nat, ghost h: seq<byte>)
    requires 40 <= n <= buf.Length && last < n && h == buf[..n]
    modifies buf
    ensures buf[..n] == PerFragment(h, plen, last) && buf[n..] == old(buf[n..])
  {
    ghost var b0 := buf[..];
    Store(buf, 4, Be16(plen));
    ghost var b1 := buf[..];
    PutPrefix(b0, n, 4, Be16(plen));
    Store(buf, last, [IPPROTO_FRAGMENT]);
    PutPrefix(b1, n, last, [IPPROTO_FRAGMENT]);
    assert b0[..n] == h && buf[..n] == buf[..][..n] && buf[n..] == buf[..][n..];
    assert b0[n..] == old(buf[n..]);
  }

  lemma PutPrefix(b: seq<byte>, n: nat, i: nat, x: seq<byte>)
    requires i + |x| <= n <= |b|
    ensures Put(b, i, x)[..n] == Put(b[..n], i, x) && Put(b, i, x)[n..] == b[n..]
  {
  }

  lemma {:induction false} LastBefore(d: seq<byte>, pos: nat, t: byte, last: nat, first: byte)
    requires last < pos <= |d|
    ensures Walk(d, pos, t, last, first).last < Walk(d, pos, t, last, first).pos
    decreases |d| - pos
  {
    if pos < |d| && t != IPPROTO_NONE && IsExtension(t) {
      var n := ExtensionLen(d, pos, t);
      if n.Some? && pos + n.value <= |d| {
        LastBefore(d, pos + n.value, d[pos], pos, first);
      }
    }
  }

  // ---------- what the receiver finds ----------

  lemma PerFragmentFields(u: seq<byte>, plen: nat, last: nat)
    requires 40 <= |u| && last < |u| && (last == 6 || 40 <= last)
    ensures var r := PerFragment(u, plen, last);
            && r[4..6] == Be16(plen) && r[last] == IPPROTO_FRAGMENT && (last != 6 ==> r[6] == u[6])
            && (40 <= last && 42 <= |u| ==> last == 40 ==> r[41] == u[41])
  {
    var t := Put(u, 4, Be16(plen));
    PutKeeps(t, last, [IPPROTO_FRAGMENT], 4, 6);
    PutKeeps(u, 4, Be16(plen), 6, |u|);
  }

  /** Parsing a fragment depends only on where its chain of headers leads. */
  lemma FragmentParses6(p: seq<byte>, per: seq<byte>, proto: byte, off: nat, ident: seq<byte>, data: seq<byte>)
    requires 40 <= |per| && IsFrag6(p, per, proto, off, ident, data) && off < 0x1_0000
    requires |p| < 0x1_0028 && per[4..6] == Be16(|p| - 40)
    ensures FindFragment(p, 40, p[6]) == Some(|per|) ==>
              Parse6(p) == Some(Parsed6(Fragment(Offset6(off), More6(off), data), proto, ident, per))
    ensures FindFragment(p, 40, p[6]) != Some(|per|) ==> Parse6(p).None? || Parse6(p).value.frag.data != data
  {
    Cut(p, |per|, 4, 6);
    Get16Of(p, 4, |p| - 40);
    Get16Of(p, |per| + 2, off);
    assert p[..|p|] == p;
  }

  /** The receiver gets the two fragments with their data, the original next header and the headers before it. */
  ghost predicate Delivered(r1: Option<Parsed6>, r2: Option<Parsed6>, proto: byte, ident: seq<byte>, per: seq<byte>, data: seq<byte>, fragPos: nat) {
    && fragPos <= |data| && r1 == Some(Parsed6(Fragment(0, true, data[..fragPos]), proto, ident, per))
    && r2.Some? && r2.value.frag == Fragment(fragPos, false, data[fragPos..]) && r2.value.next == proto && r2.value.ident == ident
    && Assembles({r1.value.frag, r2.value.frag}, data)
  }

  lemma DeliveredWhenFound(r1: Option<Parsed6>, r2: Option<Parsed6>, proto: byte, ident: seq<byte>, per: seq<byte>, per2: seq<byte>,
                           data: seq<byte>, fragPos: nat, found: bool)
    requires fragPos <= |data| && r1 == Some(Parsed6(Fragment(0, true, data[..fragPos]), proto, ident, per))
    requires found ==> r2 == Some(Parsed6(Fragment(fragPos, false, data[fragPos..]), proto, ident, per2))
    requires !found ==> r2.None? || r2.value.frag.data != data[fragPos..]
    ensures Delivered(r1, r2, proto, ident, per, data, fragPos) <==> found
  {
    TwoAssemble(data, fragPos);
  }

  /** It does exactly when the chain of headers in each fragment leads to its Fragment header. */
  lemma DeliversWhenFound(per: seq<byte>, per2: seq<byte>, proto: byte, ident: seq<byte>, data: seq<byte>, fragPos: nat,
                          p1: seq<byte>, p2: seq<byte>)
    requires 40 <= |per| == |per2| && fragPos % 8 == 0 && fragPos < |data| < 0x1_0000 && |p1| < 0x1_0028 && |p2| < 0x1_0028
    requires IsFrag6(p1, per, proto, 1, ident, data[..fragPos]) && IsFrag6(p2, per2, proto, fragPos, ident, data[fragPos..])
    requires per[4..6] == Be16(|p1| - 40) && per2[4..6] == Be16(|p2| - 40) && FindFragment(p1, 40, p1[6]) == Some(|per|)
    ensures Delivered(Parse6(p1), Parse6(p2), proto, ident, per, data, fragPos) <==> FindFragment(p2, 40, p2[6]) == Some(|per2|)
  {
    FragmentParses6(p1, per, proto, 1, ident, data[..fragPos]);
    FragmentParses6(p2, per2, proto, fragPos, ident, data[fragPos..]);
    OffsetsOf(fragPos);
    DeliveredWhenFound(Parse6(p1), Parse6(p2), proto, ident, per, per2, data, fragPos, FindFragment(p2, 40, p2[6]) == Some(|per2|));
  }

  lemma OffsetsOf(fragPos: nat)
    requires fragPos % 8 == 0
    ensures Offset6(fragPos) == fragPos && !More6(fragPos) && Offset6(1) == 0 && More6(1)
  {
    Offset6Of(fragPos / 8);
  }

  lemma FoundAt40(p: seq<byte>, per: seq<byte>)
    requires |per| == 40 && per[6] == IPPROTO_FRAGMENT && 48 <= |p| && p[..40] == per
    ensures FindFragment(p, 40, p[6]) == Some(40)
  {
    assert p[6] == per[6];
  }

  /** One extension header that tells its own length: the walk finds the Fragment header exactly when that length is right. */
  lemma FoundBehindOne(p: seq<byte>, per: seq<byte>, n: nat)
    requires |per| == 48 + 8 * n && HasLengthByte(per[6]) && per[40] == IPPROTO_FRAGMENT && |per| + 8 <= |p| && p[..|per|] == per
    ensures FindFragment(p, 40, p[6]) == Some(|per|) <==> per[41] == n
  {
    assert p[6] == per[6] && p[40] == per[40] && p[41] == per[41];
  }

  /** Both fragments as they are written; u and u2 are what the buffers hold before their fields are set. */
  ghost predicate Pair6(p1: seq<byte>, p2: seq<byte>, u: seq<byte>, u2: seq<byte>, w: Walked, ident: seq<byte>, data: seq<byte>, fragPos: nat) {
    && 40 <= |u| == |u2| && w.last < |u| && 40 <= |p1| && 40 <= |p2| && fragPos < |data|
    && IsFrag6(p1, PerFragment(u, |p1| - 40, w.last), w.proto, 1, ident, data[..fragPos])
    && IsFrag6(p2, PerFragment(u2, |p2| - 40, w.last), w.proto, fragPos, ident, data[fragPos..])
  }

  /** The receiver gets the original's data and headers from the two. */
  ghost predicate Received(p1: seq<byte>, p2: seq<byte>, u: seq<byte>, w: Walked, ident: seq<byte>, data: seq<byte>, fragPos: nat) {
    && 40 <= |u| && w.last < |u| && 40 <= |p1|
    && Delivered(Parse6(p1), Parse6(p2), w.proto, ident, PerFragment(u, |p1| - 40, w.last), data, fragPos)
  }

  /** Without extension headers that is always so. */
  lemma PlainPair(p1: seq<byte>, p2: seq<byte>, u: seq<byte>, u2: seq<byte>, w: Walked, ident: seq<byte>, data: seq<byte>, fragPos: nat)
    requires Pair6(p1, p2, u, u2, w, ident, data, fragPos) && |u| == 40 && w.last == 6
    requires fragPos % 8 == 0 && |data| < 0x1_0000 && |p1| < 0x1_0028 && |p2| < 0x1_0028
    ensures Received(p1, p2, u, w, ident, data, fragPos)
  {
    var per, per2 := PerFragment(u, |p1| - 40, 6), PerFragment(u2, |p2| - 40, 6);
    PerFragmentFields(u, |p1| - 40, 6);
    PerFragmentFields(u2, |p2| - 40, 6);
    FoundAt40(p1, per);
    FoundAt40(p2, per2);
    DeliversWhenFound(per, per2, w.proto, ident, data, fragPos, p1, p2);
  }

  /** With one extension header it is so exactly when the byte that was in the second buffer at the place of the header's
      length happens to equal it. */
  lemma OneHeaderPair(p1: seq<byte>, p2: seq<byte>, u: seq<byte>, u2: seq<byte>, w: Walked, ident: seq<byte>, data: seq<byte>, fragPos: nat)
    requires Pair6(p1, p2, u, u2, w, ident, data, fragPos) && 48 <= |u| && |u| == 48 + 8 * (u[41] as nat) && w.last == 40
    requires HasLengthByte(u[6]) && u2[6] == u[6] && fragPos % 8 == 0 && |data| < 0x1_0000 && |p1| < 0x1_0028 && |p2| < 0x1_0028
    ensures Received(p1, p2, u, w, ident, data, fragPos) <==> u2[41] == u[41]
  {
    var per, per2 := PerFragment(u, |p1| - 40, 40), PerFragment(u2, |p2| - 40, 40);
    PerFragmentFields(u, |p1| - 40, 40);
    PerFragmentFields(u2, |p2| - 40, 40);
    FoundBehindOne(p1, per, u[41]);
    FoundBehindOne(p2, per2, u[41]);
    DeliversWhenFound(per, per2, w.proto, ident, data, fragPos, p1, p2);
  }

  // ---------- ip_frag6 ----------

  /** Exactly one extension header in front of the transport header, of a kind that tells its own length. */
  predicate OneHeader(pkt: seq<byte>, w: Walked) {
    48 <= w.pos <= |pkt| && w.last == 40 && w.pos == 48 + 8 * (pkt[41] as nat) && HasLengthByte(pkt[6])
  }

  /** What the receiver makes of the outputs; `stale` is what the second buffer held at offset 41. The fragments must be short
      enough for their own length fields. */
  ghost predicate Outcome(p1: seq<byte>, p2: seq<byte>, pkt: seq<byte>, w: Walked, ident: seq<byte>, data: seq<byte>, fragPos: nat, stale: byte)
    requires 40 <= w.pos <= |pkt|
  {
    |p1| < 0x1_0028 && |p2| < 0x1_0028 ==>
      && (w.pos == 40 ==> Received(p1, p2, pkt[..w.pos], w, ident, data, fragPos))
      && (OneHeader(pkt, w) ==> (Received(p1, p2, pkt[..w.pos], w, ident, data, fragPos) <==> stale == pkt[41]))
  }

  lemma PairOutcome(p1: seq<byte>, p2: seq<byte>, pkt: seq<byte>, u2: seq<byte>, w: Walked, ident: seq<byte>, data: seq<byte>, fragPos: nat, stale: byte)
    requires 40 <= w.pos <= |pkt| && Pair6(p1, p2, pkt[..w.pos], u2, w, ident, data, fragPos) && u2[..40] == pkt[..40]
    requires (w.pos == 40 ==> w.last == 6) && (48 <= w.pos ==> u2[41] == stale) && fragPos % 8 == 0 && |data| < 0x1_0000
    ensures Outcome(p1, p2, pkt, w, ident, data, fragPos, stale)
  {
    var u := pkt[..w.pos];
    if |p1| < 0x1_0028 && |p2| < 0x1_0028 {
      if w.pos == 40 {
        PlainPair(p1, p2, u, u2, w, ident, data, fragPos);
      }
      if OneHeader(pkt, w) {
        assert u2[6] == u2[..40][6] == pkt[..40][6];
        OneHeaderPair(p1, p2, u, u2, w, ident, data, fragPos);
      }
    }
  }

  method WritePair6(pkt: seq<byte>, w: Walked, data: seq<byte>, fragPos: nat, ident: seq<byte>, pkt1: array<byte>, pkt2: array<byte>)
    requires 40 <= w.pos <= |pkt| && w.last < w.pos && |ident| == 4 && fragPos < |data| && pkt1 != pkt2
    requires w.pos + 8 + fragPos <= pkt1.Length && w.pos + 8 + |data| - fragPos <= pkt2.Length
    modifies pkt1, pkt2
    ensures Pair6(pkt1[..w.pos + 8 + fragPos], pkt2[..w.pos + 8 + |data| - fragPos], pkt[..w.pos], pkt[..40] + old(pkt2[40..w.pos]), w, ident, data, fragPos)
  {
    ghost var stale := pkt2[40..w.pos];
    ghost var u := pkt[..w.pos];
    assert u[..w.pos] + [] == u && u[..40] == pkt[..40];
    WriteFragment6(pkt1, pkt[..w.pos], w.pos, w.last, w.proto, 1, ident, data[..fragPos]);
    WriteFragment6(pkt2, pkt[..w.pos], 40, w.last, w.proto, fragPos, ident, data[fragPos..]);
  }

  /** The two outputs, byte for byte, and what the receiver makes of them; `stale` is what the second buffer held before. */
  ghost predicate Split6(p1: seq<byte>, p2: seq<byte>, pkt: seq<byte>, stale: seq<byte>, w: Walked, ident: seq<byte>, fragPos: nat) {
    && |pkt| >= 40 && 40 + Get16(pkt, 4) <= |pkt| && 40 <= w.pos <= |Own6(pkt)| && w.pos <= |stale|
    && Pair6(p1, p2, pkt[..w.pos], pkt[..40] + stale[40..w.pos], w, ident, Own6(pkt)[w.pos..], fragPos)
    && Outcome(p1, p2, pkt, w, ident, Own6(pkt)[w.pos..], fragPos, if 48 <= w.pos then stale[41] else 0)
  }

  method WriteSplit6(pkt: seq<byte>, w: Walked, fragPos: nat, ident: seq<byte>, pkt1: array<byte>, pkt2: array<byte>)
    returns (size1: nat, size2: nat)
    requires |pkt| >= 40 && 40 + Get16(pkt, 4) <= |pkt| && w == Skip6(Own6(pkt)) && w.last < w.pos && |ident| == 4 && pkt1 != pkt2
    requires fragPos % 8 == 0 && w.pos + fragPos < |Own6(pkt)|
    requires w.pos + 8 + fragPos <= pkt1.Length && 8 + |Own6(pkt)| - fragPos <= pkt2.Length
    modifies pkt1, pkt2
    ensures size1 == w.pos + 8 + fragPos && size2 == 8 + |Own6(pkt)| - fragPos
    ensures Split6(pkt1[..size1], pkt2[..size2], pkt, old(pkt2[..]), w, ident, fragPos)
  {
    size1, size2 := w.pos + 8 + fragPos, 8 + |Own6(pkt)| - fragPos;
    ghost var stale := pkt2[..];
    assert pkt2[40..w.pos] == stale[40..w.pos];
    WritePair6(pkt, w, Own6(pkt)[w.pos..], fragPos, ident, pkt1, pkt2);
    PairOutcome(pkt1[..w.pos + 8 + fragPos], pkt2[..8 + |Own6(pkt)| - fragPos], pkt, pkt[..40] + stale[40..w.pos], w, ident,
                Own6(pkt)[w.pos..], fragPos, if 48 <= w.pos then stale[41] else 0);
  }

  /** ip_frag6. Both fragments are written, but of the headers before the second one's Fragment header only the base header:
      behind it lies what its buffer held before. */
  method IpFrag6(pkt: seq<byte>, fragPos: nat, ident: seq<byte>, pkt1: array<byte>, pkt2: array<byte>)
    returns (ok: bool, size1: nat, size2: nat)
    requires |ident| == 4 && pkt1 != pkt2
    modifies pkt1, pkt2
    ensures ok == Accepts6(pkt, fragPos, pkt1.Length, pkt2.Length)
    ensures !ok ==> pkt1[..] == old(pkt1[..]) && pkt2[..] == old(pkt2[..])
    ensures ok ==> size1 == Skip6(Own6(pkt)).pos + 8 + fragPos <= pkt1.Length && size2 == 8 + |Own6(pkt)| - fragPos <= pkt2.Length
    ensures ok ==> Split6(pkt1[..size1], pkt2[..size2], pkt, old(pkt2[..]), Skip6(Own6(pkt)), ident, fragPos)
  {
    if fragPos % 8 != 0 || |pkt| < 40 {
      return false, pkt1.Length, pkt2.Length;
    }
    var len := 40 + Get16(pkt, 4);
    if |pkt| < len {
      return false, pkt1.Length, pkt2.Length;
    }
    var d := pkt[..len];
    var w := ProtoSkipIpv6(d);
    var payloadLen := len - w.pos;
    if fragPos >= payloadLen || pkt1.Length < w.pos + 8 + fragPos || pkt2.Length < w.pos + 8 + payloadLen - fragPos {
      return false, pkt1.Length, pkt2.Length;
    }
    LastBefore(d, 40, d[6], 6, d[6]);
    size1, size2 := WriteSplit6(pkt, w, fragPos, ident, pkt1, pkt2);
    return true, size1, size2;
  }

  // ---------- the packets the engine fragments ----------

  /** A packet with an empty options header of the given type inserted behind its base header. */
  ghost function Inserted(kind: byte, pkt: seq<byte>): (r: seq<byte>)
    requires 40 <= |pkt|
    ensures |r| == |pkt| + 8
  {
    Put(Put(pkt[..40], 6, [kind]), 4, Be16(Get16(pkt, 4) + 8)) + [pkt[6], 0, 0, 0, 0, 0, 0, 0] + pkt[40..]
  }

  /** ip6_insert_simple_hdr */
  method Ip6InsertSimpleHdr(kind: byte, pkt: seq<byte>, buf: array<byte>) returns (ok: bool, size: nat)
    modifies buf
    ensures ok == (|pkt| + 8 <= buf.Length && |pkt| >= 40)
    ensures !ok ==> buf[..] == old(buf[..])
    ensures ok ==> size == |pkt| + 8 && buf[..size] == Inserted(kind, pkt)
  {
    if |pkt| + 8 > buf.Length || |pkt| < 40 {
      return false, 0;
    }
    size := |pkt| + 8;
    ghost var rest := [pkt[6], 0, 0, 0, 0, 0, 0, 0] + pkt[40..];
    Store(buf, 40, [pkt[6], 0, 0, 0, 0, 0, 0, 0] + pkt[40..]);
    assert buf[40..size] == rest;
    Store(buf, 0, pkt[..40]);
    assert buf[..40] == pkt[..40] && buf[40..size] == rest;
    SetField(buf, 6, [kind], size);
    SetField(buf, 4, Be16(Get16(pkt, 4) + 8), size);
    assert buf[..size] == buf[..40] + buf[40..size];
    ok := true;
  }

  /** A field of the base header. */
  method SetField(buf: array<byte>, i: nat, x: seq<byte>, n: nat)
    requires i + |x| <= 40 <= n <= buf.Length
    modifies buf
    ensures buf[..40] == Put(old(buf[..40]), i, x) && buf[40..n] == old(buf[40..n])
  {
    ghost var b := buf[..];
    PutPrefix(b, 40, i, x);
    assert b[..40] == buf[..40] && b[40..][..n - 40] == buf[40..n];
    Store(buf, i, x);
    assert buf[..40] == buf[..][..40] && buf[40..n] == buf[..][40..][..n - 40];
  }

  /** The walk steps over the inserted header and finds the same transport data. So by IpFrag6 the fragments of such a
      packet are received exactly when the second buffer happens to hold a zero at offset 41. */
  lemma InsertedHasOneHeader(kind: byte, pkt: seq<byte>)
    requires |pkt| >= 40 && 0 < Get16(pkt, 4) < 0x1_0000 - 8 && 40 + Get16(pkt, 4) <= |pkt|
    requires kind == IPPROTO_HOPOPTS || kind == IPPROTO_DSTOPTS
    requires !IsExtension(pkt[6]) && pkt[6] != IPPROTO_NONE
    ensures var q := Inserted(kind, pkt);
            && Get16(q, 4) == Get16(pkt, 4) + 8 && HasLengthByte(q[6]) && q[41] == 0
            && Skip6(Own6(q)) == Walked(48, pkt[6], 40) && Own6(q)[48..] == Own6(pkt)[40..]
  {
    var h := pkt[..40];
    var n := Get16(pkt, 4);
    var b := Put(Put(h, 6, [kind]), 4, Be16(n + 8));
    var e: seq<byte> := [pkt[6], 0, 0, 0, 0, 0, 0, 0];
    PutKeeps(Put(h, 6, [kind]), 4, Be16(n + 8), 6, 7);
    PutKeeps(h, 6, [kind], 6, 6);
    InsertedFields(b, e, pkt[40..], kind, n);
    assert pkt[40..][..n] == pkt[40..40 + n] == Own6(pkt)[40..];
  }

  lemma InsertedFields(b: seq<byte>, e: seq<byte>, rest: seq<byte>, kind: byte, n: nat)
    requires |b| == 40 && b[4..6] == Be16(n + 8) && b[6..7] == [kind] && |e| == 8 && e[1] == 0 && 0 < n <= |rest| && n + 8 < 0x1_0000
    requires kind == IPPROTO_HOPOPTS || kind == IPPROTO_DSTOPTS
    requires !IsExtension(e[0]) && e[0] != IPPROTO_NONE
    ensures var q := b + e + rest;
            && Get16(q, 4) == n + 8 && q[6] == kind && q[41] == 0
            && Skip6(Own6(q)) == Walked(48, e[0], 40) && Own6(q)[48..] == rest[..n]
  {
    var q := b + e + rest;
    assert q[4..6] == b[4..6];
    Get16Of(q, 4, n + 8);
    assert q[6] == b[6] == b[6..7][0];
    assert q[40] == e[0] && q[41] == e[1];
    var d := Own6(q);
    assert d[6] == kind && d[40] == e[0] && d[41] == 0 && |d| == 48 + n;
    assert Walk(d, 48, e[0], 40, kind) == Walked(48, e[0], 40);
    assert Walk(d, 40, kind, 6, kind) == Walk(d, 48, d[40], 40, kind);
    assert d[48..] == rest[..n];
  }
}
