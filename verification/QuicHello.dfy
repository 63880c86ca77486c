/** From a ClientHello cut into CRYPTO frames (sections 19.1, 19.2 and 19.6 of RFC 9000) back to the ClientHello:
    IsQUICCryptoHello of nfq/protocol.c on the output of QUICDefragCrypto.
 */
module QuicHello {
  import opened Options
  import opened Bits
  import opened Bytes
  import opened Varint
  import opened QuicDefrag

  // ---------- recognising a ClientHello ----------

  /** TLSHandshakeLen */
  function TLSHandshakeLen(data: seq<byte>): nat
    requires 4 <= |data|
  {
    (data[1] as nat) * 65536 + (data[2] as nat) * 256 + data[3] as nat
  }

  predicate IsTLSHandshakeClientHello(data: seq<byte>) {
    4 <= |data| && data[0] == 0x01 && TLSHandshakeLen(data) > 0
  }

  /** hello_offset and hello_len */
  datatype Hello = Hello(offset: nat, len: nat)

  /** IsQUICCryptoHello: one CRYPTO frame at offset 0 that holds a ClientHello; where it is. */
  function IsQUICCryptoHello(data: seq<byte>): Option<Hello> {
    if |data| < 3 || data[0] != 6 || 1 + TvbGetSize(data[1]) >= |data| then None
    else
      var o1 := 1 + TvbGetSize(data[1]);
      if TvbGetVarint(data, 1) != 0 || o1 + TvbGetSize(data[o1]) >= |data| then None
      else
        var o2, clen := o1 + TvbGetSize(data[o1]), TvbGetVarint(data, o1);
        if o2 + clen > |data| || !IsTLSHandshakeClientHello(data[o2..o2 + clen]) then None
        else Some(Hello(o2, clen))
  }

  /** The header QUICDefragCrypto writes is read back as it was meant. */
  lemma HeaderAccepted(hello: seq<byte>)
    requires IsTLSHandshakeClientHello(hello) && |hello| < Pow2(8 * Width(3) - 2)
    ensures IsQUICCryptoHello([6, 0] + Encode(|hello|, 3) + hello) == Some(Hello(10, |hello|))
  {
    var data := [6, 0] + Encode(|hello|, 3) + hello;
    WidthAt3();
    assert data[1] == 0 && TvbGetSize(0) == 1;
    assert [(data[1] % 64) as byte] + data[2..2] == [0];
    assert BigEndian([0]) == 0;
    EncodeRoundTrip(|hello|, 3, [6, 0], hello);
    assert data[10..10 + |hello|] == hello;
  }

  // ---------- frames of an Initial packet ----------

  /** e1 and e2 are offset and length as they are written, in any widths. */
  datatype Frame = Padding | Ping | CryptoFrame(offset: nat, data: seq<byte>, e1: seq<byte>, e2: seq<byte>)

  predicate Writable(f: Frame) {
    f.CryptoFrame? ==> IsEncoding(f.e1, f.offset) && IsEncoding(f.e2, |f.data|)
  }

  predicate AllWritable(fs: seq<Frame>) {
    fs == [] || (Writable(fs[0]) && AllWritable(fs[1..]))
  }

  function Written(f: Frame): seq<byte> {
    match f
    case Padding => [0]
    case Ping => [1]
    case CryptoFrame(offset, data, e1, e2) => [6] + e1 + e2 + data
  }

  function AllWritten(fs: seq<Frame>): seq<byte> {
    if fs == [] then [] else Written(fs[0]) + AllWritten(fs[1..])
  }

  /** The CRYPTO frames, with the places of their data in a packet where the first frame starts at base. */
  function Cryptos(fs: seq<Frame>, base: nat): seq<Crypto> {
    if fs == [] then []
    else (if fs[0].CryptoFrame? then [CryptoOf(fs[0], base)] else []) + Cryptos(fs[1..], After(fs[0], base))
  }

  function CryptoOf(f: Frame, base: nat): Crypto
    requires f.CryptoFrame?
  {
    Crypto(f.offset, |f.data|, base + 1 + |f.e1| + |f.e2|)
  }

  /** Where the frame that starts at base ends. */
  function After(f: Frame, base: nat): nat {
    if f.CryptoFrame? then base + 1 + |f.e1| + |f.e2| + |f.data| else base + 1
  }

  /** The frame stands at pos: the parser reads it there, and its data is there. */
  ghost predicate StandsAt(clean: seq<byte>, pos: nat, f: Frame) {
    && pos < |clean| && After(f, pos) <= |clean|
    && if f.CryptoFrame? then
         clean[pos] == 6 && CryptoAt(clean, pos) == Some(CryptoOf(f, pos)) && DataAt(clean, CryptoOf(f, pos), f.data)
       else clean[pos] <= 1
  }

  predicate DataAt(clean: seq<byte>, c: Crypto, data: seq<byte>) {
    c.at + c.len <= |clean| && clean[c.at..c.at + c.len] == data
  }

  /** The frames stand one after another from pos to the end of the packet. */
  ghost predicate LaidOut(clean: seq<byte>, pos: nat, fs: seq<Frame>)
    decreases fs
  {
    if fs == [] then pos == |clean| else StandsAt(clean, pos, fs[0]) && LaidOut(clean, After(fs[0], pos), fs[1..])
  }

  /** Frames that are written one after another are laid out. */
  lemma {:induction false} WrittenLaidOut(clean: seq<byte>, pos: nat, fs: seq<Frame>)
    requires AllWritable(fs) && pos <= |clean| && clean[pos..] == AllWritten(fs)
    ensures LaidOut(clean, pos, fs)
    decreases fs
  {
    if fs != [] {
      Parts(clean, pos, Written(fs[0]), AllWritten(fs[1..]));
      WrittenStands(clean[..pos], fs[0], AllWritten(fs[1..]));
      WrittenLaidOut(clean, After(fs[0], pos), fs[1..]);
    }
  }

  lemma Parts(clean: seq<byte>, pos: nat, b: seq<byte>, post: seq<byte>)
    requires pos <= |clean| && clean[pos..] == b + post
    ensures clean == clean[..pos] + b + post && clean[pos + |b|..] == post
  {
    assert clean == clean[..pos] + clean[pos..];
    assert clean[pos + |b|..] == clean[pos..][|b|..];
  }

  lemma WrittenStands(pre: seq<byte>, f: Frame, post: seq<byte>)
    requires Writable(f)
    ensures StandsAt(pre + Written(f) + post, |pre|, f) && |pre + Written(f)| == After(f, |pre|)
  {
    if f.CryptoFrame? {
      Regroup(pre, f.e1, f.e2, f.data, post);
      WrittenRead(pre, f.e1, f.e2, f.offset, f.data, post);
      Middle(pre + [6] + f.e1 + f.e2, f.data, post);
    }
  }

  lemma WrittenRead(pre: seq<byte>, e1: seq<byte>, e2: seq<byte>, offset: nat, data: seq<byte>, post: seq<byte>)
    requires IsEncoding(e1, offset) && IsEncoding(e2, |data|)
    ensures CryptoAt(pre + ([6] + e1 + e2 + data) + post, |pre|) == Some(Crypto(offset, |data|, |pre| + 1 + |e1| + |e2|))
  {
    Regroup(pre, e1, e2, data, post);
    ReadInPlace(pre + [6], e1, e2 + data + post, offset);
    ReadInPlace(pre + [6] + e1, e2, data + post, |data|);
    CryptoRead(pre + ([6] + e1 + e2 + data) + post, |pre|, |e1|, |e2|, offset, |data|);
  }

  lemma Middle(a: seq<byte>, b: seq<byte>, c: seq<byte>)
    ensures (a + b + c)[|a|..|a| + |b|] == b
  {
  }

  /** The parser finds the frames that are laid out. */
  lemma {:induction false} FramesLaidOut(clean: seq<byte>, pos: nat, fs: seq<Frame>)
    requires LaidOut(clean, pos, fs)
    ensures Frames(clean, pos) == Some(Cryptos(fs, pos))
    decreases fs
  {
    if fs != [] {
      FramesLaidOut(clean, After(fs[0], pos), fs[1..]);
      assert [] + Cryptos(fs[1..], After(fs[0], pos)) == Cryptos(fs[1..], After(fs[0], pos));
    }
  }

  lemma Regroup(pre: seq<byte>, e1: seq<byte>, e2: seq<byte>, data: seq<byte>, post: seq<byte>)
    ensures var clean := pre + ([6] + e1 + e2 + data) + post;
            && clean == (pre + [6]) + e1 + (e2 + data + post)
            && clean == (pre + [6] + e1) + e2 + (data + post)
            && clean == (pre + [6] + e1 + e2) + data + post
            && clean[|pre|] == 6
  {
  }

  lemma CryptoRead(clean: seq<byte>, pos: nat, w1: nat, w2: nat, offset: nat, sz: nat)
    requires 0 < w1 && 0 < w2 && pos + 1 + w1 + w2 + sz <= |clean| && clean[pos] == 6
    requires TvbGetSize(clean[pos + 1]) == w1 && TvbGetVarint(clean, pos + 1) == offset
    requires TvbGetSize(clean[pos + 1 + w1]) == w2 && TvbGetVarint(clean, pos + 1 + w1) == sz
    ensures CryptoAt(clean, pos) == Some(Crypto(offset, sz, pos + 1 + w1 + w2))
  {
  }

  // ---------- a message cut into frames ----------

  /** Every frame carries the message's bytes at its offset, so that overlaps agree. */
  ghost predicate Carries(fs: seq<Frame>, m: seq<byte>) {
    forall k :: 0 <= k < |fs| && fs[k].CryptoFrame? ==>
      fs[k].offset + |fs[k].data| <= |m| && fs[k].data == m[fs[k].offset..fs[k].offset + |fs[k].data|]
  }

  /** Every byte of the message is in some frame. */
  ghost predicate Covers(fs: seq<Frame>, m: seq<byte>) {
    forall p :: 0 <= p < |m| ==> InFrame(fs, p)
  }

  predicate InFrame(fs: seq<Frame>, p: nat) {
    exists k :: 0 <= k < |fs| && fs[k].CryptoFrame? && In(p, fs[k].offset, |fs[k].data|)
  }

  /** The parsed frames point at the message's bytes. */
  ghost predicate PointAt(clean: seq<byte>, cs: seq<Crypto>, m: seq<byte>) {
    forall k :: 0 <= k < |cs| ==> PointsAt(clean, cs[k], m)
  }

  ghost predicate PointsAt(clean: seq<byte>, c: Crypto, m: seq<byte>) {
    && c.at + c.len <= |clean| && c.offset + c.len <= |m|
    && clean[c.at..c.at + c.len] == m[c.offset..c.offset + c.len]
  }

  lemma {:induction false} CryptosPoint(clean: seq<byte>, pos: nat, fs: seq<Frame>, m: seq<byte>)
    requires LaidOut(clean, pos, fs) && Carries(fs, m)
    ensures PointAt(clean, Cryptos(fs, pos), m)
    decreases fs
  {
    if fs != [] {
      var f := fs[0];
      assert f.CryptoFrame? ==> f.data == m[f.offset..f.offset + |f.data|];
      CryptosPoint(clean, After(f, pos), fs[1..], m);
    }
  }

  lemma {:induction false} FrameCovers(fs: seq<Frame>, base: nat, k: nat, p: nat)
    requires k < |fs| && fs[k].CryptoFrame? && In(p, fs[k].offset, |fs[k].data|)
    ensures Covered(Cryptos(fs, base), p)
    decreases k
  {
    var next := After(fs[0], base);
    var front := if fs[0].CryptoFrame? then [CryptoOf(fs[0], base)] else [];
    if k == 0 {
      assert In(p, Cryptos(fs, base)[0].offset, Cryptos(fs, base)[0].len);
    } else {
      FrameCovers(fs[1..], next, k - 1, p);
      CoveredBehind(front, Cryptos(fs[1..], next), p);
    }
  }

  lemma CoveredBehind(front: seq<Crypto>, cs: seq<Crypto>, p: nat)
    requires Covered(cs, p)
    ensures Covered(front + cs, p)
  {
    var i :| 0 <= i < |cs| && In(p, cs[i].offset, cs[i].len);
    assert (front + cs)[|front| + i] == cs[i];
  }

  lemma CryptosCover(fs: seq<Frame>, base: nat, p: nat)
    requires InFrame(fs, p)
    ensures Covered(Cryptos(fs, base), p)
  {
    var k :| 0 <= k < |fs| && fs[k].CryptoFrame? && In(p, fs[k].offset, |fs[k].data|);
    FrameCovers(fs, base, k, p);
  }

  /** Where frames that point at the message cover a byte, the content is the message's byte. */
  lemma {:induction false} ContentIsMessage(clean: seq<byte>, cs: seq<Crypto>, m: seq<byte>, p: nat)
    requires PointAt(clean, cs, m) && Covered(cs, p)
    ensures p < |m| && Content(clean, cs, p) == m[p]
  {
    var n := |cs| - 1;
    var rest, f := cs[..n], cs[n];
    assert PointsAt(clean, f, m);
    if Range(f.offset, f.len) !in Ranges(rest) && In(p, f.offset, f.len) {
      assert clean[f.at..f.at + f.len][p - f.offset] == m[f.offset..f.offset + f.len][p - f.offset];
    } else {
      CoveredEarlier(cs, p);
      ContentIsMessage(clean, rest, m, p);
    }
  }

  /** A byte that only a duplicate covers last is covered by what it duplicates. */
  lemma CoveredEarlier(cs: seq<Crypto>, p: nat)
    requires Covered(cs, p)
    requires var f := cs[|cs| - 1]; Range(f.offset, f.len) in Ranges(cs[..|cs| - 1]) || !In(p, f.offset, f.len)
    ensures Covered(cs[..|cs| - 1], p)
  {
    var n := |cs| - 1;
    var rest := cs[..n];
    var k :| 0 <= k < |cs| && In(p, cs[k].offset, cs[k].len);
    if k < n {
      assert rest[k] == cs[k];
    } else {
      RangesNonEmpty(rest);
      var i :| 0 <= i < |rest| && Range(cs[n].offset, cs[n].len) == Range(rest[i].offset, rest[i].len);
    }
  }

  lemma {:induction false} MessageEnd(clean: seq<byte>, cs: seq<Crypto>, m: seq<byte>)
    requires PointAt(clean, cs, m)
    ensures MaxEnd(cs) <= |m|
  {
    if cs != [] {
      MessageEnd(clean, cs[..|cs| - 1], m);
      assert PointsAt(clean, cs[|cs| - 1], m);
    }
  }

  /** What the frames of a covering cut amount to. */
  lemma CutAmountsTo(fs: seq<Frame>, m: seq<byte>)
    requires AllWritable(fs) && Carries(fs, m) && Covers(fs, m)
    ensures var clean, cs := AllWritten(fs), Cryptos(fs, 0);
            && Frames(clean, 0) == Some(cs) && MaxEnd(cs) == |m| && FullyCovered(cs)
            && forall p :: 0 <= p < |m| ==> Content(clean, cs, p) == m[p]
  {
    var clean, cs := AllWritten(fs), Cryptos(fs, 0);
    assert clean[0..] == clean;
    WrittenLaidOut(clean, 0, fs);
    FramesLaidOut(clean, 0, fs);
    CryptosPoint(clean, 0, fs, m);
    MessageEnd(clean, cs, m);
    forall p | 0 <= p < |m|
      ensures Covered(cs, p) && Content(clean, cs, p) == m[p]
    {
      assert InFrame(fs, p);
      CryptosCover(fs, 0, p);
      ContentIsMessage(clean, cs, m, p);
    }
    if m != [] {
      assert Covered(cs, |m| - 1);
      var k :| 0 <= k < |cs| && In(|m| - 1, cs[k].offset, cs[k].len);
      BelowMaxEnd(cs, k);
    }
  }

  /** A message cut in any way into CRYPTO frames, in any order, with overlaps, duplicates, padding and pings,
      comes back whole; the result is taken for a ClientHello if the message is one. */
  method RoundTrip(fs: seq<Frame>, m: seq<byte>, defrag: array<byte>)
    returns (found: bool, outLen: nat, full: bool)
    requires AllWritable(fs) && Carries(fs, m) && Covers(fs, m)
    requires 10 <= defrag.Length < Pow2(8 * Width(3) - 2) && Cryptos(fs, 0) != [] && Fits(Cryptos(fs, 0), defrag.Length - 10)
    modifies defrag
    ensures found && full && outLen == 10 + |m| <= defrag.Length && defrag[10..outLen] == m
    ensures IsTLSHandshakeClientHello(m) ==> IsQUICCryptoHello(defrag[..outLen]) == Some(Hello(10, |m|))
  {
    var clean := AllWritten(fs);
    CutAmountsTo(fs, m);
    found, outLen, full := QUICDefragCrypto(clean, defrag, defrag.Length);
    assert defrag[10..outLen] == m;
    assert defrag[..outLen] == defrag[..10] + defrag[10..outLen];
    if IsTLSHandshakeClientHello(m) {
      HeaderAccepted(m);
    }
  }

  // ---------- how many frames are too many ----------

  lemma {:induction false} RangesGrow(cs: seq<Crypto>, k: nat)
    requires k <= |cs|
    ensures |Ranges(cs[..k])| <= |Ranges(cs)| <= |cs|
  {
    if k < |cs| {
      RangesGrow(cs[..|cs| - 1], k);
      assert cs[..|cs| - 1][..k] == cs[..k];
    } else {
      assert cs[..k] == cs;
      if cs != [] {
        RangesGrow(cs[..|cs| - 1], |cs| - 1);
        assert cs[..|cs| - 1][..|cs| - 1] == cs[..|cs| - 1];
      }
    }
  }

  /** Frames are refused for their number exactly if 128 different ones come before the last frame. */
  lemma FitsExactly(cs: seq<Crypto>, cap: nat)
    requires cs != [] && MaxEnd(cs) <= cap
    ensures Fits(cs, cap) <==> |Ranges(cs[..|cs| - 1])| < MAX_DEFRAG_PIECES
  {
    var n := |cs| - 1;
    forall k | 0 <= k < |cs|
      ensures |Ranges(cs[..k])| <= |Ranges(cs[..n])| && cs[k].offset + cs[k].len <= cap
    {
      RangesGrow(cs[..n], k);
      assert cs[..n][..k] == cs[..k];
      BelowMaxEnd(cs, k);
    }
  }

  /** So 127 different frames always pass, and 128 do when none is repeated. */
  lemma FewEnough(cs: seq<Crypto>, cap: nat)
    requires cs != [] && MaxEnd(cs) <= cap
    requires |Ranges(cs)| < MAX_DEFRAG_PIECES || |cs| <= MAX_DEFRAG_PIECES
    ensures Fits(cs, cap)
  {
    FitsExactly(cs, cap);
    RangesGrow(cs, |cs| - 1);
    RangesGrow(cs[..|cs| - 1], |cs| - 1);
  }

  /** But 128 different frames followed by a repetition of one of them are refused. */
  function OneByteFrames(n: nat): (cs: seq<Crypto>)
    ensures |cs| == n && forall k :: 0 <= k < n ==> cs[k] == Crypto(k, 1, k)
  {
    seq(n, k requires 0 <= k < n => Crypto(k, 1, k))
  }

  lemma {:induction false} OneByteRanges(n: nat)
    ensures |Ranges(OneByteFrames(n))| == n && MaxEnd(OneByteFrames(n)) == n
    ensures forall r :: r in Ranges(OneByteFrames(n)) ==> r.offset < n
  {
    if n != 0 {
      OneByteRanges(n - 1);
      assert OneByteFrames(n)[..n - 1] == OneByteFrames(n - 1);
    }
  }

  lemma LateDuplicateRefused(cap: nat)
    requires MAX_DEFRAG_PIECES <= cap
    ensures var cs := OneByteFrames(MAX_DEFRAG_PIECES) + [Crypto(0, 1, 0)];
            |Ranges(cs)| == MAX_DEFRAG_PIECES && MaxEnd(cs) <= cap && !Fits(cs, cap)
  {
    var many := OneByteFrames(MAX_DEFRAG_PIECES);
    OneByteRanges(MAX_DEFRAG_PIECES);
    FramesStep(many, Crypto(0, 1, 0));
    RangesNonEmpty(many);
    assert many[0] == Crypto(0, 1, 0);
    FitsExactly(many + [Crypto(0, 1, 0)], cap);
  }
}
