/** TLS ClientHello records: the layout of section 4.1.2 of RFC 8446, and the extension search of nfq/protocol.c. */
module TlsHello {
  import opened Options
  import opened Bytes
  import opened Layout

  /** Where something lies in a buffer. */
  datatype Found = Found(at: nat, len: nat)

  // ---------- the layout ----------

  datatype Ext = Ext(kind: nat, data: seq<byte>)

  /** `fixed` is the version and the random, 34 bytes. */
  datatype Hello = Hello(minor: byte, fixed: seq<byte>, session: seq<byte>, ciphers: seq<byte>, compressions: seq<byte>,
                         extensions: seq<Ext>)

  function WriteExt(e: Ext): (b: seq<byte>)
    ensures |b| == 4 + |e.data|
  {
    Be16(e.kind) + Be16(|e.data|) + e.data
  }

  function WriteExts(es: seq<Ext>): seq<byte> {
    if es == [] then [] else WriteExt(es[0]) + WriteExts(es[1..])
  }

  /** A length of one byte. */
  function U8(v: nat): (b: seq<byte>)
    ensures |b| == 1
  {
    [Low(v)]
  }

  /** Everything before the length of the extensions. */
  function Body(h: Hello): seq<byte> {
    h.fixed + U8(|h.session|) + h.session + Be16(|h.ciphers|) + h.ciphers + U8(|h.compressions|) + h.compressions
  }

  function HandshakeLen(h: Hello): nat {
    |Body(h)| + 2 + |WriteExts(h.extensions)|
  }

  function Record(h: Hello): seq<byte> {
    [0x16, 3, h.minor] + Be16(4 + HandshakeLen(h)) + [1] + Be24(HandshakeLen(h)) + Body(h)
    + Be16(|WriteExts(h.extensions)|) + WriteExts(h.extensions)
  }

  /** The fields of a buffer that holds the record of h followed by `rest`. */
  function HelloRow(h: Hello, rest: seq<byte>): Row {
    var b, x := |Body(h)|, |WriteExts(h.extensions)|;
    HeaderRow(h.minor, Body(h), x, Field(WriteExts(h.extensions), Field(rest, End)))
  }

  /** Everything before the extensions, which take x bytes. */
  function HeaderRow(minor: byte, b: seq<byte>, x: nat, next: Row): Row {
    Field([0x16, 3, minor], Field(Be16(6 + |b| + x), Field([1], Field(Be24(2 + |b| + x), Field(b, Field(Be16(x), next))))))
  }

  /** It does exactly when it is the record followed by the rest. */
  lemma HoldsIsRecord(s: seq<byte>, h: Hello, rest: seq<byte>)
    ensures Holds(s, 0, HelloRow(h, rest)) <==> s == Record(h) + rest
  {
    var b, x := |Body(h)|, |WriteExts(h.extensions)|;
    var r: Row := Field(rest, End);
    var p1: seq<byte> := [0x16, 3, h.minor];
    var p2 := p1 + Be16(6 + b + x);
    var p3 := p2 + [1];
    var p4 := p3 + Be24(2 + b + x);
    var p5 := p4 + Body(h);
    var p6 := p5 + Be16(x);
    var r6 := Field(WriteExts(h.extensions), r);
    var r5 := Field(Be16(x), r6);
    var r4 := Field(Body(h), r5);
    var r3 := Field(Be24(2 + b + x), r4);
    var r2 := Field([1], r3);
    Two(s, 0, p1, Be16(6 + b + x), r2);
    Two(s, 0, p2, [1], r3);
    Two(s, 0, p3, Be24(2 + b + x), r4);
    Two(s, 0, p4, Body(h), r5);
    Two(s, 0, p5, Be16(x), r6);
    Two(s, 0, p6, WriteExts(h.extensions), r);
    Two(s, 0, Record(h), rest, End);
    Whole(s, Record(h) + rest);
  }

  lemma Whole(s: seq<byte>, b: seq<byte>)
    ensures Holds(s, 0, Field(b, End)) <==> s == b
  {
    First(s, 0, b, End);
    assert s[0..|s|] == s;
  }

  ghost predicate ExtsFit(es: seq<Ext>) {
    es == [] || (es[0].kind < 0x1_0000 && |es[0].data| < 0x1_0000 && ExtsFit(es[1..]))
  }

  /** All lengths fit their fields. */
  ghost predicate Fits(h: Hello) {
    && h.minor <= 3 && |h.fixed| == 34 && |h.session| < 256 && |h.ciphers| < 0x1_0000 && |h.compressions| < 256
    && ExtsFit(h.extensions) && 4 + HandshakeLen(h) < 0x1_0000
  }

  // ---------- the parser ----------

  function TLSRecordLen(data: seq<byte>): nat
    requires 5 <= |data|
  {
    Get16(data, 3) + 5
  }

  predicate IsTLSClientHello(data: seq<byte>, partialIsOK: bool) {
    && |data| >= 6 && data[0] == 0x16 && data[1] == 3 && data[2] <= 3 && data[5] == 1
    && (partialIsOK || TLSRecordLen(data) <= |data|)
  }

  /** False on fewer than four bytes whatever the length field says. */
  predicate IsTLSHandshakeFull(data: seq<byte>) {
    |data| >= 4 && 4 + Get24(data, 1) <= |data|
  }

  /** TLSFindExtLenOffsetInHandshake */
  function ExtLenOffset(data: seq<byte>): (r: Option<nat>)
    ensures r.Some? ==> 41 <= r.value && r.value + 2 <= |data|
  {
    var l := 38;
    if |data| < l + 1 then None else
      var l := l + (data[l] as nat) + 1;
      if |data| < l + 2 then None else
        var l := l + Get16(data, l) + 2;
        if |data| < l + 1 then None else
          var l := l + (data[l] as nat) + 1;
          if |data| < l + 2 then None else Some(l)
  }

  /** TLSFindExtLen */
  function FindExtLen(data: seq<byte>): (r: Option<nat>)
    requires 5 <= |data|
    ensures r.Some? ==> 46 <= r.value && r.value + 2 <= |data|
  {
    var off := ExtLenOffset(data[5..]);
    if off.None? then None else Some(off.value + 5)
  }

  /** The first extension of the kind among the `l` bytes at `at`. */
  function Scan(data: seq<byte>, at: nat, l: nat, kind: nat): (r: Option<Found>)
    requires at + l <= |data|
    ensures r.Some? ==> at + 4 <= r.value.at && r.value.at + r.value.len <= at + l
    decreases l
  {
    if l < 4 then None
    else
      var elen := Get16(data, at + 2);
      if l - 4 < elen then None
      else if Get16(data, at) == kind then Some(Found(at + 4, elen))
      else Scan(data, at + 4 + elen, l - 4 - elen, kind)
  }

  function FindInHandshake(data: seq<byte>, kind: nat, partialIsOK: bool): (r: Option<Found>)
    ensures r.Some? ==> ExtLenOffset(data).Some? && ExtLenOffset(data).value + 6 <= r.value.at && r.value.at + r.value.len <= |data|
  {
    if !partialIsOK && !IsTLSHandshakeFull(data) then None
    else
      var off := ExtLenOffset(data);
      if off.None? then None
      else
        var l := Get16(data, off.value);
        var at := off.value + 2;
        if |data| - at < l then (if partialIsOK then Scan(data, at, |data| - at, kind) else None)
        else Scan(data, at, l, kind)
  }

  /** TLSFindExtInHandshake */
  method TLSFindExtInHandshake(data: seq<byte>, kind: nat, partialIsOK: bool) returns (r: Option<Found>)
    ensures r == FindInHandshake(data, kind, partialIsOK)
  {
    if !partialIsOK && !IsTLSHandshakeFull(data) {
      return None;
    }
    var off := ExtLenOffset(data);
    if off.None? {
      return None;
    }
    var l: nat, at: nat := Get16(data, off.value), off.value + 2;
    if |data| - at < l {
      if !partialIsOK {
        return None;
      }
      l := |data| - at;
    }
    ghost var goal := Scan(data, at, l, kind);
    while l >= 4
      invariant at + l <= |data| && Scan(data, at, l, kind) == goal
    {
      var etype, elen := Get16(data, at), Get16(data, at + 2);
      at, l := at + 4, l - 4;
      if l < elen {
        return None;
      }
      if etype == kind {
        return Some(Found(at, elen));
      }
      at, l := at + elen, l - elen;
    }
    return None;
  }

  function Clip(data: seq<byte>, n: nat): seq<byte> {
    if n < |data| then data[..n] else data
  }

  /** TLSFindExt */
  function FindExt(data: seq<byte>, kind: nat, partialIsOK: bool): (r: Option<Found>)
    ensures r.Some? ==> r.value.at + r.value.len <= |data|
  {
    if !IsTLSClientHello(data, partialIsOK) then None
    else
      var r := FindInHandshake(Clip(data, TLSRecordLen(data))[5..], kind, partialIsOK);
      if r.None? then None else Some(r.value.(at := r.value.at + 5))
  }

  /** TLSAdvanceToHostInSNI */
  function AdvanceToHost(data: seq<byte>, ext: Found): (r: Option<Found>)
    requires ext.at + ext.len <= |data|
    ensures r.Some? ==> r.value.at == ext.at + 5 && r.value.at + r.value.len <= ext.at + ext.len
  {
    if ext.len < 5 || data[ext.at + 2] != 0 then None
    else
      var slen := Get16(data, ext.at + 3);
      if slen <= ext.len - 5 then Some(Found(ext.at + 5, slen)) else None
  }

  function Slice(data: seq<byte>, r: Option<Found>): Option<seq<byte>>
    requires r.Some? ==> r.value.at + r.value.len <= |data|
  {
    if r.None? then None else Some(data[r.value.at..r.value.at + r.value.len])
  }

  // ---------- the parser undoes the layout ----------

  function FirstOf(es: seq<Ext>, kind: nat): Option<seq<byte>> {
    if es == [] then None else if es[0].kind == kind then Some(es[0].data) else FirstOf(es[1..], kind)
  }

  /** The bytes before the first extension of the kind. */
  function BeforeFirst(es: seq<Ext>, kind: nat): nat {
    if es == [] || es[0].kind == kind then 0 else |WriteExt(es[0])| + BeforeFirst(es[1..], kind)
  }

  lemma ScanHead(data: seq<byte>, at: nat, l: nat, e: Ext, rest: seq<byte>)
    requires at + l <= |data| && data[at..at + l] == WriteExt(e) + rest
    requires e.kind < 0x1_0000 && |e.data| < 0x1_0000
    ensures Get16(data, at) == e.kind && Get16(data, at + 2) == |e.data|
    ensures data[at + 4..at + 4 + |e.data|] == e.data && data[at + 4 + |e.data|..at + l] == rest
  {
    var s := data[at..at + l];
    Peel(s, WriteExt(e), rest);
    Peel(s, Be16(e.kind) + Be16(|e.data|), e.data);
    Peel(s, Be16(e.kind), Be16(|e.data|));
    SubSlice(data, at, l, 0, 2);
    SubSlice(data, at, l, 2, 4);
    SubSlice(data, at, l, 4, 4 + |e.data|);
    SubSlice(data, at, l, 4 + |e.data|, l);
    Get16Of(data, at, e.kind);
    Get16Of(data, at + 2, |e.data|);
  }

  lemma ScanSkip(data: seq<byte>, at: nat, all: seq<byte>, e: Ext, rest: seq<byte>, kind: nat)
    requires at + |all| <= |data| && data[at..at + |all|] == all && all == WriteExt(e) + rest
    requires e.kind < 0x1_0000 && |e.data| < 0x1_0000
    ensures var next := at + 4 + |e.data|;
            && next + |rest| == at + |all| && data[next..next + |rest|] == rest && data[at + 4..next] == e.data
            && Scan(data, at, |all|, kind) ==
               if e.kind == kind then Some(Found(at + 4, |e.data|)) else Scan(data, next, |rest|, kind)
  {
    ScanHead(data, at, |all|, e, rest);
  }

  lemma {:induction false} ScanFinds(es: seq<Ext>, all: seq<byte>, data: seq<byte>, at: nat, kind: nat)
    requires ExtsFit(es) && all == WriteExts(es) && at + |all| <= |data| && data[at..at + |all|] == all
    ensures var r := Scan(data, at, |all|, kind);
            Slice(data, r) == FirstOf(es, kind) && (r.Some? ==> r.value.at == at + BeforeFirst(es, kind) + 4)
    decreases |es|
  {
    if es != [] {
      var e, rest := es[0], WriteExts(es[1..]);
      ScanSkip(data, at, all, e, rest, kind);
      if e.kind != kind {
        ScanFinds(es[1..], rest, data, at + 4 + |e.data|, kind);
      }
    }
  }

  /** The seven pieces of a body at the front of `s`. */
  lemma BodyPieces(s: seq<byte>, h: Hello)
    requires |h.fixed| == 34 && |h.session| < 256 && |h.ciphers| < 0x1_0000 && |h.compressions| < 256
    requires |Body(h)| <= |s| && s[..|Body(h)|] == Body(h)
    ensures var c := 35 + |h.session|;
            var k := c + 2 + |h.ciphers|;
            && s[34] == |h.session| && Get16(s, c) == |h.ciphers| && s[k] == |h.compressions|
            && |Body(h)| == k + 1 + |h.compressions|
  {
    var p1 := h.fixed + U8(|h.session|);
    var p2 := p1 + h.session;
    var p3 := p2 + Be16(|h.ciphers|);
    var p4 := p3 + h.ciphers;
    var p5 := p4 + U8(|h.compressions|);
    Peel(s, p5, h.compressions);
    Peel(s, p4, U8(|h.compressions|));
    Peel(s, p3, h.ciphers);
    Peel(s, p2, Be16(|h.ciphers|));
    Peel(s, p1, h.session);
    Peel(s, h.fixed, U8(|h.session|));
    Get16Of(s, |p2|, |h.ciphers|);
    assert s[34] == s[34..35][0];
    assert s[|p4|] == s[|p4|..|p4| + 1][0];
  }

  /** The offset found depends only on the body, whatever follows. */
  lemma OffsetOfBody(data: seq<byte>, h: Hello)
    requires |h.fixed| == 34 && |h.session| < 256 && |h.ciphers| < 0x1_0000 && |h.compressions| < 256
    requires 6 + |Body(h)| <= |data| && data[4..4 + |Body(h)|] == Body(h)
    ensures ExtLenOffset(data) == Some(4 + |Body(h)|)
  {
    var s := data[4..];
    assert s[..|Body(h)|] == data[4..4 + |Body(h)|];
    BodyPieces(s, h);
    var c := 35 + |h.session|;
    assert Get16(s, c) == Get16(data, c + 4);
  }

  /** The header fields and their values. */
  lemma HeaderFields(s: seq<byte>, minor: byte, b: seq<byte>, x: nat, next: Row)
    requires Holds(s, 0, HeaderRow(minor, b, x, next))
    ensures 11 + |b| <= |s| && Holds(s, 11 + |b|, next)
    ensures s[..3] == [0x16, 3, minor] && s[3..5] == Be16(6 + |b| + x) && s[5..6] == [1] && s[6..9] == Be24(2 + |b| + x)
    ensures s[9..9 + |b|] == b && s[9 + |b|..11 + |b|] == Be16(x)
  {
    var r5 := Field(Be16(x), next);
    var r4 := Field(b, r5);
    var r3 := Field(Be24(2 + |b| + x), r4);
    var r2 := Field([1], r3);
    var r1 := Field(Be16(6 + |b| + x), r2);
    First(s, 0, [0x16, 3, minor], r1);
    First(s, 3, Be16(6 + |b| + x), r2);
    First(s, 5, [1], r3);
    First(s, 6, Be24(2 + |b| + x), r4);
    First(s, 9, b, r5);
    First(s, 9 + |b|, Be16(x), next);
    assert s[..3] == s[0..3];
  }

  lemma HeaderValues(s: seq<byte>, minor: byte, b: seq<byte>, x: nat, next: Row)
    requires Holds(s, 0, HeaderRow(minor, b, x, next)) && 6 + |b| + x < 0x1_0000
    ensures 11 + |b| <= |s| && Holds(s, 11 + |b|, next) && s[9..9 + |b|] == b
    ensures TLSRecordLen(s) == 11 + |b| + x && Get24(s, 6) == 2 + |b| + x && Get16(s, 9 + |b|) == x
    ensures s[0] == 0x16 && s[1] == 3 && s[2] == minor && s[5] == 1
  {
    HeaderFields(s, minor, b, x, next);
    Get16Of(s, 3, 6 + |b| + x);
    Get24Of(s, 6, 2 + |b| + x);
    Get16Of(s, 9 + |b|, x);
    assert s[0] == s[..3][0] && s[1] == s[..3][1] && s[2] == s[..3][2] && s[5] == s[5..6][0];
  }

  /** The same of a hello, and where its extensions and the rest lie. */
  lemma HelloValues(s: seq<byte>, h: Hello, rest: seq<byte>)
    requires Fits(h) && Holds(s, 0, HelloRow(h, rest))
    ensures var b, x := |Body(h)|, |WriteExts(h.extensions)|;
            && |s| == 11 + b + x + |rest| && s[9..9 + b] == Body(h) && s[11 + b..11 + b + x] == WriteExts(h.extensions)
            && IsTLSClientHello(s, false) && IsTLSClientHello(s, true)
            && TLSRecordLen(s) == 11 + b + x && Get24(s, 6) == 2 + b + x && Get16(s, 9 + b) == x
  {
    RecordValues(s, h.minor, Body(h), WriteExts(h.extensions), rest);
  }

  lemma RecordValues(s: seq<byte>, minor: byte, b: seq<byte>, all: seq<byte>, rest: seq<byte>)
    requires minor <= 3 && 6 + |b| + |all| < 0x1_0000
    requires Holds(s, 0, HeaderRow(minor, b, |all|, Field(all, Field(rest, End))))
    ensures |s| == 11 + |b| + |all| + |rest| && s[9..9 + |b|] == b && s[11 + |b|..11 + |b| + |all|] == all
    ensures IsTLSClientHello(s, false) && IsTLSClientHello(s, true)
    ensures TLSRecordLen(s) == 11 + |b| + |all| && Get24(s, 6) == 2 + |b| + |all| && Get16(s, 9 + |b|) == |all|
  {
    HeaderValues(s, minor, b, |all|, Field(all, Field(rest, End)));
    First(s, 11 + |b|, all, Field(rest, End));
    First(s, 11 + |b| + |all|, rest, End);
  }

  lemma FindsLength(s: seq<byte>, h: Hello, rest: seq<byte>)
    requires Fits(h) && Holds(s, 0, HelloRow(h, rest))
    ensures 5 <= |s| && FindExtLen(s) == Some(9 + |Body(h)|)
  {
    HelloValues(s, h, rest);
    LengthAfterBody(s, h);
  }

  lemma LengthAfterBody(s: seq<byte>, h: Hello)
    requires |h.fixed| == 34 && |h.session| < 256 && |h.ciphers| < 0x1_0000 && |h.compressions| < 256
    requires 11 + |Body(h)| <= |s| && s[9..9 + |Body(h)|] == Body(h)
    ensures FindExtLen(s) == Some(9 + |Body(h)|)
  {
    SubSlice(s, 5, |s| - 5, 4, 4 + |Body(h)|);
    assert s[5..5 + (|s| - 5)] == s[5..];
    OffsetOfBody(s[5..], h);
  }

  /** The handshake message, as the search sees it. */
  lemma InHandshake(hs: seq<byte>, h: Hello, b: nat, all: seq<byte>, kind: nat, partialIsOK: bool)
    requires Fits(h) && b == |Body(h)| && all == WriteExts(h.extensions) && |hs| == 6 + b + |all|
    requires hs[4..4 + b] == Body(h) && Get24(hs, 1) == 2 + b + |all| && Get16(hs, 4 + b) == |all| && hs[6 + b..6 + b + |all|] == all
    ensures var r := FindInHandshake(hs, kind, partialIsOK);
            Slice(hs, r) == FirstOf(h.extensions, kind) && (r.Some? ==> r.value.at == 10 + b + BeforeFirst(h.extensions, kind))
  {
    OffsetOfBody(hs, h);
    ScanFinds(h.extensions, all, hs, 6 + b, kind);
    FindsScan(hs, b, |all|, kind, partialIsOK);
  }

  lemma FindsScan(hs: seq<byte>, b: nat, l: nat, kind: nat, partialIsOK: bool)
    requires |hs| == 6 + b + l && ExtLenOffset(hs) == Some(4 + b) && Get16(hs, 4 + b) == l && Get24(hs, 1) == b + 2 + l
    ensures FindInHandshake(hs, kind, partialIsOK) == Scan(hs, 6 + b, l, kind)
  {
  }

  /** The search clips the buffer to the record and skips the record header. */
  lemma FoundInRecord(s: seq<byte>, hs: seq<byte>, n: nat, kind: nat, partialIsOK: bool)
    requires IsTLSClientHello(s, partialIsOK) && TLSRecordLen(s) == n <= |s| && s[5..n] == hs
    ensures var r := FindInHandshake(hs, kind, partialIsOK);
            && FindExt(s, kind, partialIsOK) == (if r.None? then None else Some(r.value.(at := r.value.at + 5)))
            && Slice(s, FindExt(s, kind, partialIsOK)) == Slice(hs, r)
  {
    var r := FindInHandshake(hs, kind, partialIsOK);
    assert Clip(s, n)[5..] == hs;
    if r.Some? {
      SubSlice(s, 5, n - 5, r.value.at, r.value.at + r.value.len);
    }
  }

  /** In a record that follows section 4.1.2 of RFC 8446 the search returns exactly the first extension of the kind, with
      its bytes, whatever follows the record and whether or not partial data is accepted. */
  lemma ParserFindsExtensions(s: seq<byte>, h: Hello, rest: seq<byte>, kind: nat, partialIsOK: bool)
    requires Fits(h) && Holds(s, 0, HelloRow(h, rest))
    ensures var r := FindExt(s, kind, partialIsOK);
            && Slice(s, r) == FirstOf(h.extensions, kind)
            && (r.Some? ==> r.value.at == 15 + |Body(h)| + BeforeFirst(h.extensions, kind))
  {
    HelloValues(s, h, rest);
    FindsByValues(s, h, |Body(h)|, WriteExts(h.extensions), kind, partialIsOK);
  }

  lemma FindsByValues(s: seq<byte>, h: Hello, b: nat, all: seq<byte>, kind: nat, partialIsOK: bool)
    requires Fits(h) && b == |Body(h)| && all == WriteExts(h.extensions) && 11 + b + |all| <= |s|
    requires s[9..9 + b] == Body(h) && s[11 + b..11 + b + |all|] == all && IsTLSClientHello(s, partialIsOK)
    requires TLSRecordLen(s) == 11 + b + |all| && Get24(s, 6) == 2 + b + |all| && Get16(s, 9 + b) == |all|
    ensures var r := FindExt(s, kind, partialIsOK);
            && Slice(s, r) == FirstOf(h.extensions, kind)
            && (r.Some? ==> r.value.at == 15 + b + BeforeFirst(h.extensions, kind))
  {
    var n := 11 + b + |all|;
    var hs := s[5..n];
    SubSlice(s, 5, n - 5, 4, 4 + b);
    SubSlice(s, 5, n - 5, 6 + b, 6 + b + |all|);
    assert Get24(hs, 1) == Get24(s, 6) && Get16(hs, 4 + b) == Get16(s, 9 + b);
    InHandshake(hs, h, b, all, kind, partialIsOK);
    FoundInRecord(s, hs, n, kind, partialIsOK);
  }
}
