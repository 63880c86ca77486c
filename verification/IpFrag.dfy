/** Splitting a packet into two IP fragments (ip_frag4, ip_frag6 of nfq/darkmagic.c), and what a receiver makes of them. */
module IpFrag {
  import opened Options
  import opened Bytes
  import opened Checksum
  import opened ChecksumStamp
  import opened Dissect
  import Layout

  // ---------- the receiver ----------

  /** A fragment: where its data goes, and whether more follows. */
  datatype Fragment = Fragment(offset: nat, more: bool, data: seq<byte>)

  /** Section 3.2 of RFC 791 and section 4.5 of RFC 8200: the fragments, in whatever order they came, make up exactly `data`. */
  ghost predicate Assembles(fs: set<Fragment>, data: seq<byte>) {
    && (forall f :: f in fs ==> f.offset + |f.data| <= |data| && data[f.offset..f.offset + |f.data|] == f.data)
    && (exists f :: f in fs && !f.more && f.offset + |f.data| == |data|)
    && (forall k :: 0 <= k < |data| ==> Covered(fs, k))
  }

  ghost predicate Covered(fs: set<Fragment>, k: nat) {
    exists f :: f in fs && Covers(f, k)
  }

  predicate Covers(f: Fragment, k: nat) {
    f.offset <= k < f.offset + |f.data|
  }

  /** The data is determined by the fragments. */
  lemma AssemblyIsUnique(fs: set<Fragment>, d1: seq<byte>, d2: seq<byte>)
    requires Assembles(fs, d1) && Assembles(fs, d2)
    ensures d1 == d2
  {
    assert |d1| == |d2|;
    forall k | 0 <= k < |d1|
      ensures d1[k] == d2[k]
    {
      assert Covered(fs, k);
      var f :| f in fs && Covers(f, k);
      assert d1[k] == d1[f.offset..f.offset + |f.data|][k - f.offset];
      assert d2[k] == d2[f.offset..f.offset + |f.data|][k - f.offset];
    }
  }

  lemma TwoAssemble(data: seq<byte>, cut: nat)
    requires cut <= |data|
    ensures Assembles({Fragment(0, true, data[..cut]), Fragment(cut, false, data[cut..])}, data)
  {
    var f1, f2 := Fragment(0, true, data[..cut]), Fragment(cut, false, data[cut..]);
    var fs := {f1, f2};
    assert f1 in fs && f2 in fs;
    assert data[0..cut] == data[..cut] && data[cut..|data|] == data[cut..];
    forall k | 0 <= k < |data|
      ensures Covered(fs, k)
    {
      var f := if k < cut then f1 else f2;
      assert f in fs && Covers(f, k);
    }
  }

  // ---------- IPv4 ----------

  const IP_MF := 0x2000

  /** An IPv4 header of at least 20 bytes that lies within the packet's own length. */
  predicate WellFormed4(p: seq<byte>) {
    |p| >= 20 && 20 <= 4 * Low4(p[0]) <= Get16(p, 2) <= |p|
  }

  function Data4(p: seq<byte>): seq<byte>
    requires WellFormed4(p)
  {
    p[4 * Low4(p[0])..Get16(p, 2)]
  }

  /** The fragment a receiver sees. */
  function Parse4(p: seq<byte>): Option<Fragment> {
    if !WellFormed4(p) then None
    else
      var off := Get16(p, 6);
      Some(Fragment(8 * OffsetUnits(off), MoreFragments(off), Data4(p)))
  }

  /** The low 13 bits of the field, and the bit above them. */
  function OffsetUnits(v: nat): nat {
    if v < IP_MF then v else OffsetUnits(v - IP_MF)
  }

  predicate MoreFragments(v: nat) {
    if v < 2 * IP_MF then v >= IP_MF else MoreFragments(v - 2 * IP_MF)
  }

  /** `b` stored at i. */
  function Put(s: seq<byte>, i: nat, b: seq<byte>): (r: seq<byte>)
    requires i + |b| <= |s|
    ensures |r| == |s|
  {
    s[..i] + b + s[i + |b|..]
  }

  /** A header with its length, identification and offset fields set; the identification in this machine's byte order. */
  ghost function Fields4(s: seq<byte>, len: nat, off: nat, ident: nat): (r: seq<byte>)
    requires 20 <= |s|
    ensures |r| == |s|
  {
    var t := Put(Put(s, 6, Be16(off)), 2, Be16(len));
    if ident == 0xFFFF_FFFF then t else Put(t, 4, [Low(ident), Low(Above(ident))])
  }

  /** The bytes of a fragment in a buffer that had `old` behind them. */
  ghost function Frag4(header: seq<byte>, data: seq<byte>, off: nat, ident: nat, hdrlen: nat, addr: nat, tail: seq<byte>): (r: seq<byte>)
    requires 20 <= |header| + |data| + |tail| && hdrlen <= |header| + |data| + |tail|
    ensures |r| == |header| + |data| + |tail|
  {
    Ip4Stamped(Fields4(header + data + tail, |header| + |data|, off, ident), hdrlen, addr)
  }

  predicate Accepts4(pkt: seq<byte>, fragPos: nat, cap1: nat, cap2: nat) {
    && fragPos % 8 == 0 && |pkt| >= 20
    && var hdrlen := 4 * Low4(pkt[0]);
       var len := Get16(pkt, 2);
       && len <= |pkt| && hdrlen <= len && hdrlen + fragPos < len
       && hdrlen + fragPos <= cap1 && len - fragPos <= cap2
  }

  method Store(buf: array<byte>, i: nat, b: seq<byte>)
    requires i + |b| <= buf.Length
    modifies buf
    ensures buf[..] == Put(old(buf[..]), i, b)
  {
    forall k | 0 <= k < |b| {
      buf[i + k] := b[k];
    }
  }

  method WriteFields4(buf: array<byte>, len: nat, off: nat, ident: nat)
    requires 20 <= buf.Length
    modifies buf
    ensures buf[..] == Fields4(old(buf[..]), len, off, ident)
  {
    Store(buf, 6, Be16(off));
    Store(buf, 2, Be16(len));
    if ident != 0xFFFF_FFFF {
      Store(buf, 4, [Low(ident), Low(Above(ident))]);
    }
  }

  /** The receiver's checksum test on a stamped header. */
  ghost predicate Stamped(r: seq<byte>, hl: nat, addr: nat) {
    12 <= hl <= |r| && (Verifies([], r[..hl]) <==> !CsumLosesCarry(Store16(r, 10, 0)[..hl], addr))
  }

  method WriteFragment4(buf: array<byte>, header: seq<byte>, data: seq<byte>, off: nat, ident: nat, addr: nat)
    requires 20 <= buf.Length && |header| + |data| <= buf.Length
    modifies buf
    ensures buf[..] == Frag4(header, data, off, ident, |header|, addr, old(buf[|header| + |data|..]))
    ensures 12 <= |header| ==> Stamped(buf[..], |header|, addr)
  {
    ghost var tail := buf[|header| + |data|..];
    Store(buf, 0, header);
    Store(buf, |header|, data);
    assert buf[..] == header + data + tail;
    WriteFields4(buf, |header| + |data|, off, ident);
    ghost var t := buf[..];
    Ip4FixChecksum(buf, |header|, addr);
    ghost var t0 := Store16(t, 10, 0);
    assert Store16(buf[..], 10, 0) == t0;
    assert buf[..|header|] == buf[..][..|header|];
  }

  // ---------- the fields of a fragment ----------

  lemma PutKeeps(s: seq<byte>, i: nat, b: seq<byte>, j: nat, k: nat)
    requires i + |b| <= |s| && j <= k <= |s| && (k <= i || i + |b| <= j)
    ensures Put(s, i, b)[j..k] == s[j..k] && Put(s, i, b)[i..i + |b|] == b
  {
  }

  lemma FieldsKept(s: seq<byte>, len: nat, off: nat, ident: nat)
    requires 20 <= |s|
    ensures var t := Fields4(s, len, off, ident);
            && t[0..2] == s[0..2] && t[2..4] == Be16(len) && t[6..8] == Be16(off) && t[8..|s|] == s[8..|s|]
            && t[4..6] == (if ident == 0xFFFF_FFFF then s[4..6] else [Low(ident), Low(Above(ident))])
  {
    var s1 := Put(s, 6, Be16(off));
    var s2 := Put(s1, 2, Be16(len));
    var id := [Low(ident), Low(Above(ident))];
    PutKeeps(s, 6, Be16(off), 0, 2);
    PutKeeps(s, 6, Be16(off), 4, 6);
    PutKeeps(s, 6, Be16(off), 8, |s|);
    PutKeeps(s1, 2, Be16(len), 0, 2);
    PutKeeps(s1, 2, Be16(len), 4, 6);
    PutKeeps(s1, 2, Be16(len), 6, 8);
    PutKeeps(s1, 2, Be16(len), 8, |s|);
    PutKeeps(s2, 4, id, 0, 2);
    PutKeeps(s2, 4, id, 2, 4);
    PutKeeps(s2, 4, id, 6, 8);
    PutKeeps(s2, 4, id, 8, |s|);
  }

  lemma StampKeeps(t: seq<byte>, hl: nat, addr: nat)
    requires 20 <= |t| && hl <= |t|
    ensures Ip4Stamped(t, hl, addr)[..10] == t[..10] && Ip4Stamped(t, hl, addr)[12..] == t[12..]
  {
  }

  /** A slice away from the checksum. */
  lemma Outside(r: seq<byte>, t: seq<byte>, j: nat, k: nat)
    requires |r| == |t| && 12 <= |t| && r[..10] == t[..10] && r[12..] == t[12..] && j <= k <= |t| && (k <= 10 || 12 <= j)
    ensures r[j..k] == t[j..k]
  {
    if k <= 10 {
      Layout.SubSlice(r, 0, 10, j, k);
      Layout.SubSlice(t, 0, 10, j, k);
      assert r[0..10] == r[..10] && t[0..10] == t[..10];
    } else {
      Layout.SubSlice(r, 12, |r| - 12, j - 12, k - 12);
      Layout.SubSlice(t, 12, |r| - 12, j - 12, k - 12);
      assert r[12..12 + (|r| - 12)] == r[12..] && t[12..12 + (|r| - 12)] == t[12..];
    }
  }

  /** The fields of a fragment that keeps its header. */
  ghost predicate IsFragment(r: seq<byte>, header: seq<byte>, data: seq<byte>, off: nat, ident: nat) {
    && 20 <= |header| && |header| + |data| <= |r|
    && r[0..2] == header[0..2] && r[2..4] == Be16(|header| + |data|) && r[6..8] == Be16(off)
    && r[4..6] == (if ident == 0xFFFF_FFFF then header[4..6] else [Low(ident), Low(Above(ident))])
    && r[8..10] == header[8..10] && r[12..|header|] == header[12..] && r[|header|..|header| + |data|] == data
  }

  lemma FragmentFields(header: seq<byte>, data: seq<byte>, off: nat, ident: nat, addr: nat, tail: seq<byte>)
    requires 20 <= |header|
    ensures IsFragment(Frag4(header, data, off, ident, |header|, addr, tail), header, data, off, ident)
  {
    var s := header + data + tail;
    var t := Fields4(s, |header| + |data|, off, ident);
    FieldsKept(s, |header| + |data|, off, ident);
    StampKeeps(t, |header|, addr);
    FieldsStamped(Ip4Stamped(t, |header|, addr), t, s, |header| + |data|, off, ident);
    KeptFragment(Ip4Stamped(t, |header|, addr), header, data, tail, off, ident);
  }

  /** What FieldsKept says of the fields before the checksum is stamped holds after it too. */
  lemma FieldsStamped(r: seq<byte>, t: seq<byte>, s: seq<byte>, n: nat, off: nat, ident: nat)
    requires 20 <= |s| == |t| == |r| && r[..10] == t[..10] && r[12..] == t[12..]
    requires t[0..2] == s[0..2] && t[2..4] == Be16(n) && t[6..8] == Be16(off) && t[8..|s|] == s[8..|s|]
    requires t[4..6] == (if ident == 0xFFFF_FFFF then s[4..6] else [Low(ident), Low(Above(ident))])
    ensures r[0..2] == s[0..2] && r[2..4] == Be16(n) && r[6..8] == Be16(off) && r[8..10] == s[8..10] && r[12..] == s[12..]
    ensures r[4..6] == (if ident == 0xFFFF_FFFF then s[4..6] else [Low(ident), Low(Above(ident))])
  {
    Outside(r, t, 0, 2);
    Outside(r, t, 2, 4);
    Outside(r, t, 4, 6);
    Outside(r, t, 6, 8);
    Outside(r, t, 8, 10);
    Beyond(t, s, 8, 10);
    Beyond(t, s, 12, |s|);
  }

  lemma KeptFragment(r: seq<byte>, header: seq<byte>, data: seq<byte>, tail: seq<byte>, off: nat, ident: nat)
    requires var s, n := header + data + tail, |header| + |data|;
             && 20 <= |header| && |r| == |s|
             && r[0..2] == s[0..2] && r[2..4] == Be16(n) && r[6..8] == Be16(off) && r[8..10] == s[8..10] && r[12..] == s[12..]
             && r[4..6] == (if ident == 0xFFFF_FFFF then s[4..6] else [Low(ident), Low(Above(ident))])
    ensures IsFragment(r, header, data, off, ident)
  {
    Parts(header, data, tail);
    var s, h, n := header + data + tail, |header|, |header| + |data|;
    Layout.SubSlice(r, 12, |r| - 12, 0, h - 12);
    Layout.SubSlice(s, 12, |r| - 12, 0, h - 12);
    Layout.SubSlice(r, 12, |r| - 12, h - 12, n - 12);
    Layout.SubSlice(s, 12, |r| - 12, h - 12, n - 12);
    assert r[12..12 + (|r| - 12)] == r[12..] && s[12..12 + (|r| - 12)] == s[12..];
  }

  lemma Beyond(t: seq<byte>, s: seq<byte>, j: nat, k: nat)
    requires 8 <= j <= k <= |s| == |t| && t[8..|s|] == s[8..|s|]
    ensures t[j..k] == s[j..k]
  {
    Layout.SubSlice(t, 8, |s| - 8, j - 8, k - 8);
    Layout.SubSlice(s, 8, |s| - 8, j - 8, k - 8);
    assert t[8..8 + (|s| - 8)] == t[8..|s|] && s[8..8 + (|s| - 8)] == s[8..|s|];
  }

  lemma Parts(header: seq<byte>, data: seq<byte>, tail: seq<byte>)
    requires 20 <= |header|
    ensures var s := header + data + tail;
            && s[0..2] == header[0..2] && s[4..6] == header[4..6] && s[8..10] == header[8..10]
            && s[12..|header|] == header[12..] && s[|header|..|header| + |data|] == data
  {
  }

  /** Parsing a fragment cut to its length. */
  lemma FragmentParses(r: seq<byte>, header: seq<byte>, data: seq<byte>, off: nat, ident: nat)
    requires IsFragment(r, header, data, off, ident)
    requires |header| == 4 * Low4(header[0]) && |header| + |data| < 0x1_0000 && off < 0x1_0000
    ensures var n := |header| + |data|;
            && Parse4(r[..n]) == Some(Fragment(8 * OffsetUnits(off), MoreFragments(off), data))
            && IsFragment(r[..n], header, data, off, ident)
  {
    var h, n := |header|, |header| + |data|;
    var p := r[..n];
    Cut(r, n, 0, 2);
    Cut(r, n, 2, 4);
    Cut(r, n, 4, 6);
    Cut(r, n, 6, 8);
    Cut(r, n, 8, 10);
    Cut(r, n, 12, h);
    Cut(r, n, h, n);
    Get16Of(p, 2, n);
    Get16Of(p, 6, off);
    assert p[0] == p[0..2][0] == header[0..2][0] == header[0];
  }

  lemma Cut(r: seq<byte>, n: nat, j: nat, k: nat)
    requires j <= k <= n <= |r|
    ensures r[..n][j..k] == r[j..k]
  {
  }

  // ---------- the pair ----------

  /** What a receiver makes of two fragments: they assemble to exactly `data`, and both carry the header's time to live,
      protocol, addresses and options, and one identification. */
  ghost predicate Delivers4(p1: seq<byte>, p2: seq<byte>, header: seq<byte>, data: seq<byte>, fragPos: nat, ident: nat) {
    && Parse4(p1).Some? && Parse4(p2).Some? && Assembles({Parse4(p1).value, Parse4(p2).value}, data)
    && fragPos <= |data| && IsFragment(p1, header, data[..fragPos], IP_MF, ident)
    && IsFragment(p2, header, data[fragPos..], fragPos / 8, ident)
    && |p1| == |header| + fragPos && |p2| == |header| + |data| - fragPos
  }

  lemma TwoFragments(r1: seq<byte>, r2: seq<byte>, header: seq<byte>, data: seq<byte>, fragPos: nat, ident: nat, n1: nat, n2: nat)
    requires fragPos <= |data| && IsFragment(r1, header, data[..fragPos], IP_MF, ident)
    requires IsFragment(r2, header, data[fragPos..], fragPos / 8, ident)
    requires |header| == 4 * Low4(header[0]) && |header| + |data| < 0x1_0000 && fragPos % 8 == 0
    requires n1 == |header| + fragPos && n2 == |header| + |data| - fragPos
    ensures Delivers4(r1[..n1], r2[..n2], header, data, fragPos, ident)
  {
    OffsetFits(fragPos);
    FragmentParses(r1, header, data[..fragPos], IP_MF, ident);
    FragmentParses(r2, header, data[fragPos..], fragPos / 8, ident);
    TwoAssemble(data, fragPos);
  }

  lemma OffsetFits(fragPos: nat)
    requires fragPos % 8 == 0 && fragPos < 0x1_0000
    ensures 8 * OffsetUnits(fragPos / 8) == fragPos && !MoreFragments(fragPos / 8) && fragPos / 8 < 0x1_0000
    ensures OffsetUnits(IP_MF) == 0 && MoreFragments(IP_MF)
  {
  }

  method WriteHalf4(buf: array<byte>, header: seq<byte>, data: seq<byte>, off: nat, ident: nat, addr: nat)
    requires 20 <= buf.Length && |header| + |data| <= buf.Length
    modifies buf
    ensures 20 <= |header| ==> IsFragment(buf[..], header, data, off, ident) && Stamped(buf[..], |header|, addr)
  {
    ghost var tail := buf[|header| + |data|..];
    WriteFragment4(buf, header, data, off, ident, addr);
    if 20 <= |header| {
      FragmentFields(header, data, off, ident, addr, tail);
    }
  }

  /** Both halves, from the header and the data. */
  method WritePair4(header: seq<byte>, data: seq<byte>, fragPos: nat, ident: nat, pkt1: array<byte>, addr1: nat, size1: nat,
                    pkt2: array<byte>, addr2: nat, size2: nat)
    requires 20 <= pkt1.Length && 20 <= pkt2.Length && pkt1 != pkt2 && fragPos <= |data|
    requires |header| + fragPos == size1 <= pkt1.Length && |header| + |data| - fragPos == size2 <= pkt2.Length
    modifies pkt1, pkt2
    ensures Halves4(header, data, fragPos) ==>
              && Delivers4(pkt1[..size1], pkt2[..size2], header, data, fragPos, ident)
              && Stamped(pkt1[..], |header|, addr1) && Stamped(pkt2[..], |header|, addr2)
  {
    WriteHalf4(pkt1, header, data[..fragPos], IP_MF, ident, addr1);
    WriteHalf4(pkt2, header, data[fragPos..], fragPos / 8, ident, addr2);
    if Halves4(header, data, fragPos) {
      TwoFragments(pkt1[..], pkt2[..], header, data, fragPos, ident, size1, size2);
      assert pkt1[..size1] == pkt1[..][..size1];
      assert pkt2[..size2] == pkt2[..][..size2];
    }
  }

  predicate Halves4(header: seq<byte>, data: seq<byte>, fragPos: nat) {
    20 <= |header| == 4 * Low4(header[0]) && |header| + |data| < 0x1_0000 && fragPos % 8 == 0
  }

  method WriteSplit4(pkt: seq<byte>, hdrlen: nat, len: nat, fragPos: nat, ident: nat,
                     pkt1: array<byte>, addr1: nat, pkt2: array<byte>, addr2: nat) returns (size1: nat, size2: nat)
    requires 20 <= pkt1.Length && 20 <= pkt2.Length && pkt1 != pkt2
    requires hdrlen + fragPos < len <= |pkt| && hdrlen + fragPos <= pkt1.Length && len - fragPos <= pkt2.Length
    modifies pkt1, pkt2
    ensures size1 == hdrlen + fragPos && size2 == len - fragPos
    ensures Halves4(pkt[..hdrlen], pkt[hdrlen..len], fragPos) ==>
              && Delivers4(pkt1[..size1], pkt2[..size2], pkt[..hdrlen], pkt[hdrlen..len], fragPos, ident)
              && Stamped(pkt1[..], hdrlen, addr1) && Stamped(pkt2[..], hdrlen, addr2)
  {
    size1, size2 := hdrlen + fragPos, len - fragPos;
    WritePair4(pkt[..hdrlen], pkt[hdrlen..len], fragPos, ident, pkt1, addr1, size1, pkt2, addr2, size2);
  }

  /** ip_frag4; the buffers hold at least a header, as the caller's of 9316 bytes do. On a well-formed packet the receiver
      gets the packet's own data back, whatever the buffers held before. */
  method IpFrag4(pkt: seq<byte>, fragPos: nat, ident: nat, pkt1: array<byte>, addr1: nat, pkt2: array<byte>, addr2: nat)
    returns (ok: bool, size1: nat, size2: nat)
    requires 20 <= pkt1.Length && 20 <= pkt2.Length && pkt1 != pkt2
    modifies pkt1, pkt2
    ensures ok == Accepts4(pkt, fragPos, pkt1.Length, pkt2.Length)
    ensures !ok ==> pkt1[..] == old(pkt1[..]) && pkt2[..] == old(pkt2[..])
    ensures ok ==> size1 == 4 * Low4(pkt[0]) + fragPos <= pkt1.Length && size2 == Get16(pkt, 2) - fragPos <= pkt2.Length
    ensures ok && WellFormed4(pkt) ==> Delivers4(pkt1[..size1], pkt2[..size2], pkt[..4 * Low4(pkt[0])], Data4(pkt), fragPos, ident)
    ensures ok && WellFormed4(pkt) ==> Stamped(pkt1[..], 4 * Low4(pkt[0]), addr1) && Stamped(pkt2[..], 4 * Low4(pkt[0]), addr2)
  {
    if fragPos % 8 != 0 || |pkt| < 20 {
      return false, pkt1.Length, pkt2.Length;
    }
    var len, hdrlen := Get16(pkt, 2), 4 * Low4(pkt[0]);
    if len > |pkt| || hdrlen > |pkt| || hdrlen > len {
      return false, pkt1.Length, pkt2.Length;
    }
    var payloadLen := len - hdrlen;
    if fragPos >= payloadLen || pkt1.Length < hdrlen + fragPos || pkt2.Length < hdrlen + payloadLen - fragPos {
      return false, pkt1.Length, pkt2.Length;
    }
    size1, size2 := WriteSplit4(pkt, hdrlen, len, fragPos, ident, pkt1, addr1, pkt2, addr2);
    return true, size1, size2;
  }
}
