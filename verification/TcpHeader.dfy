/** Building a TCP header (fill_tcphdr of nfq/darkmagic.c) and reading it back. Multi-byte fields are host numbers here and
    are stored in network order.
 */
module TcpHeader {
  import opened Options
  import opened Bits
  import opened SingleBits
  import opened Bytes
  import opened Layout
  import opened Dissect
  import opened TcpOptions

  const SEQ_SPACE := 0x1_0000_0000
  const TH_SYN := 0x02
  const TH_RST := 0x04
  const TH_ACK := 0x10

  /** The bits of the fooling mask. */
  datatype Fooling = Fooling(md5sig: bool, badsum: bool, ts: bool, badseq: bool, hopByHop: bool, hopByHop2: bool, destOpt: bool,
                             ipFrag1: bool, dataNoAck: bool)

  datatype Increments = Increments(ts: nat, badseq: nat, badseqAck: nat)

  /** The arguments: timestamps are TSval and TSecr. */
  datatype Segment = Segment(sport: nat, dport: nat, seqNum: nat, ack: nat, flags: nat, window: nat, mss: nat, sack: bool,
                             scale: byte, timestamps: Option<(nat, nat)>)

  predicate SegmentOk(g: Segment, inc: Increments) {
    && g.sport < 0x1_0000 && g.dport < 0x1_0000 && g.seqNum < SEQ_SPACE && g.ack < SEQ_SPACE && g.flags < 0x1_0000
    && g.window < 0x1_0000 && g.mss < 0x1_0000
    && (g.timestamps.Some? ==> g.timestamps.value.0 < SEQ_SPACE && g.timestamps.value.1 < SEQ_SPACE)
    && inc.ts < SEQ_SPACE && inc.badseq < SEQ_SPACE && inc.badseqAck < SEQ_SPACE
  }

  /** net32_add */
  function Add32(v: nat, inc: nat): (r: nat)
    requires v < SEQ_SPACE && inc < SEQ_SPACE
    ensures r < SEQ_SPACE && (r == v + inc || r == v + inc - SEQ_SPACE)
  {
    if v + inc < SEQ_SPACE then v + inc else v + inc - SEQ_SPACE
  }

  /** The header that is written: what the fooling makes of the arguments. */
  datatype Header = Header(sport: nat, dport: nat, seqNum: nat, ack: nat, flags: nat, window: nat, wanted: Wanted)

  function Flags(g: Segment, fool: Fooling, dataLen: nat): (r: nat)
    ensures r <= g.flags
  {
    AndAtMost(g.flags, TH_ACK);
    if fool.dataNoAck && And(g.flags, TH_SYN + TH_RST) == 0 && dataLen != 0 then g.flags - And(g.flags, TH_ACK) else g.flags
  }

  function Timestamps(g: Segment, fool: Fooling, inc: Increments): Option<seq<byte>>
    requires SegmentOk(g, inc)
  {
    if g.timestamps.None? then None
    else Some(Be32(if fool.ts then Add32(g.timestamps.value.0, inc.ts) else g.timestamps.value.0) + Be32(g.timestamps.value.1))
  }

  /** `md5` stands for the random signature. */
  function HeaderOf(g: Segment, fool: Fooling, inc: Increments, md5: seq<byte>, dataLen: nat): (h: Header)
    requires SegmentOk(g, inc) && |md5| == 16
    ensures HeaderOk(h)
  {
    Header(g.sport, g.dport, if fool.badseq then Add32(g.seqNum, inc.badseq) else g.seqNum,
           if fool.badseq then Add32(g.ack, inc.badseqAck) else g.ack, Flags(g, fool, dataLen), g.window,
           Wanted(g.mss, g.sack, if fool.md5sig then Some(md5) else None, Timestamps(g, fool, inc), g.scale))
  }

  /** tcpopt_len, from the arguments. */
  function TcpOptLenOf(g: Segment, fool: Fooling): (n: nat)
    ensures n <= 40
  {
    var t := (if g.sack then 2 else 0) + (if g.mss != 0 then 4 else 0) + (if fool.md5sig then 18 else 0)
             + (if g.timestamps.Some? then 10 else 0) + (if g.scale != SCALE_NONE then 3 else 0);
    RoundUp4(t)
  }

  /** What tcpopt_len announces is what fill_tcphdr writes, and it never overflows the 4-bit data offset. */
  lemma OptLenIsWritten(g: Segment, fool: Fooling, inc: Increments, md5: seq<byte>, dataLen: nat)
    requires SegmentOk(g, inc) && |md5| == 16
    ensures var w := HeaderOf(g, fool, inc, md5, dataLen).wanted;
            TcpOptLenOf(g, fool) == TcpOptLen(w) == |OptionBytes(w)| <= 40 && 5 + TcpOptLen(w) / 4 <= 15
  {
    RawIsChosen(HeaderOf(g, fool, inc, md5, dataLen).wanted);
  }

  /** The pieces and the padding. */
  ghost function OptionBytes(w: Wanted): seq<byte>
    requires WantedOk(w)
  {
    Raw(w) + Fill(TcpOptLen(w) - RawLen(w), KIND_NOOP)
  }

  function Byte12(h: Header): (b: byte)
  {
    Low4Small(Above(h.flags));
    16 * (5 + TcpOptLen(h.wanted) / 4) + Low4(Above(h.flags))
  }

  lemma {:induction false} Low4Small(v: nat)
    ensures Low4(v) < 16
  {
    if v >= 16 {
      Low4Small(v - 16);
    }
  }

  /** The first 20 bytes, around the checksum field. */
  ghost function Fixed(h: Header, sum: seq<byte>): (b: seq<byte>)
    requires |sum| == 2
    ensures |b| == 20
  {
    Be16(h.sport) + Be16(h.dport) + Be32(h.seqNum) + Be32(h.ack) + [Byte12(h), Low(h.flags)] + Be16(h.window) + sum + [0, 0]
  }

  ghost function HeaderBytes(h: Header, sum: seq<byte>): seq<byte>
    requires |sum| == 2 && WantedOk(h.wanted)
  {
    Fixed(h, sum) + OptionBytes(h.wanted)
  }

  // ---------- writing ----------

  /** Only the bytes from `at` up to `cur` may differ. */
  ghost predicate Kept(b: seq<byte>, was: seq<byte>, at: nat, cur: nat) {
    |b| == |was| && forall k :: 0 <= k < |b| && (k < at || cur <= k) ==> b[k] == was[k]
  }

  /** `done` has been written from `at` on, and nothing else. */
  ghost predicate Written(b: seq<byte>, was: seq<byte>, at: nat, done: seq<byte>) {
    Kept(b, was, at, at + |done|) && at + |done| <= |b| && b[at..at + |done|] == done
  }

  /** Bytes appended to what has been written from `at` on. */
  method Emit(buf: array<byte>, cur: nat, b: seq<byte>, ghost was: seq<byte>, ghost at: nat, ghost done: seq<byte>) returns (next: nat)
    requires Written(buf[..], was, at, done) && cur == at + |done| && cur + |b| <= buf.Length
    modifies buf
    ensures next == cur + |b| && Written(buf[..], was, at, done + b)
  {
    ghost var before := buf[..];
    forall k | 0 <= k < |b| {
      buf[cur + k] := b[k];
    }
    next := cur + |b|;
    assert buf[..][at..next] == before[at..cur] + b;
  }

  method EmitFixed(buf: array<byte>, at: nat, h: Header, ghost was: seq<byte>) returns (cur: nat)
    requires at + 20 <= buf.Length && buf[..] == was
    modifies buf
    ensures cur == at + 20 && Written(buf[..], was, at, Fixed(h, [0, 0]))
  {
    cur := Emit(buf, at, Be16(h.sport), was, at, []);
    ghost var done := [] + Be16(h.sport);
    assert done == Be16(h.sport);
    cur := Emit(buf, cur, Be16(h.dport), was, at, done);
    done := done + Be16(h.dport);
    cur := Emit(buf, cur, Be32(h.seqNum), was, at, done);
    done := done + Be32(h.seqNum);
    cur := Emit(buf, cur, Be32(h.ack), was, at, done);
    done := done + Be32(h.ack);
    cur := Emit(buf, cur, [Byte12(h), Low(h.flags)], was, at, done);
    done := done + [Byte12(h), Low(h.flags)];
    cur := Emit(buf, cur, Be16(h.window), was, at, done);
    done := done + Be16(h.window);
    cur := Emit(buf, cur, [0, 0], was, at, done);
    cur := Emit(buf, cur, [0, 0], was, at, done + [0, 0]);
  }

  /** One option, if it is wanted. */
  method EmitPiece(buf: array<byte>, cur: nat, present: bool, kind: byte, data: seq<byte>,
                   ghost was: seq<byte>, ghost at: nat, ghost done: seq<byte>) returns (next: nat, ghost done': seq<byte>)
    requires |data| < 254 && Written(buf[..], was, at, done) && cur == at + |done| && (present ==> cur + 2 + |data| <= buf.Length)
    modifies buf
    ensures done' == done + Piece(present, kind, data) && next == at + |done'| && Written(buf[..], was, at, done')
  {
    next, done' := cur, done + Piece(present, kind, data);
    if present {
      next := Emit(buf, cur, WriteOpt(Opt(kind, data)), was, at, done);
    } else {
      assert done' == done;
    }
  }

  /** The options one after the other. */
  method EmitPieces(buf: array<byte>, start: nat, w: Wanted, ghost was: seq<byte>, ghost at: nat, ghost done: seq<byte>)
    returns (cur: nat, ghost done': seq<byte>)
    requires WantedOk(w) && Written(buf[..], was, at, done) && start == at + |done| && start + RawLen(w) <= buf.Length
    modifies buf
    ensures done' == done + Raw(w) && cur == at + |done'| == start + RawLen(w) && Written(buf[..], was, at, done')
  {
    RawIsChosen(w);
    cur, done' := EmitNegotiation(buf, start, w, was, at, done);
    cur, done' := EmitRest(buf, cur, w, was, at, done');
    SplitRaw(done, w);
  }

  /** MSS and SACK. */
  ghost function Negotiation(w: Wanted): seq<byte> {
    Piece(w.mss != 0, KIND_MSS, Be16(w.mss)) + Piece(w.sack, KIND_SACK, [])
  }

  ghost function Rest(w: Wanted): seq<byte>
    requires WantedOk(w)
  {
    Piece(w.md5.Some?, KIND_MD5SIG, if w.md5.Some? then w.md5.value else [])
    + Piece(w.timestamps.Some?, KIND_TIMESTAMPS, if w.timestamps.Some? then w.timestamps.value else [])
    + Piece(w.scale != SCALE_NONE, KIND_SCALE, [w.scale])
  }

  lemma SplitRaw(done: seq<byte>, w: Wanted)
    requires WantedOk(w)
    ensures done + Negotiation(w) + Rest(w) == done + Raw(w)
  {
    Join5(done, Piece(w.mss != 0, KIND_MSS, Be16(w.mss)), Piece(w.sack, KIND_SACK, []),
          Piece(w.md5.Some?, KIND_MD5SIG, if w.md5.Some? then w.md5.value else []),
          Piece(w.timestamps.Some?, KIND_TIMESTAMPS, if w.timestamps.Some? then w.timestamps.value else []),
          Piece(w.scale != SCALE_NONE, KIND_SCALE, [w.scale]));
  }

  lemma Join5(d: seq<byte>, p: seq<byte>, q: seq<byte>, r: seq<byte>, s: seq<byte>, t: seq<byte>)
    ensures d + (p + q) + (r + s + t) == d + (p + q + r + s + t)
  {
  }

  method EmitNegotiation(buf: array<byte>, start: nat, w: Wanted, ghost was: seq<byte>, ghost at: nat, ghost done: seq<byte>)
    returns (cur: nat, ghost done': seq<byte>)
    requires Written(buf[..], was, at, done) && start == at + |done| && start + |Negotiation(w)| <= buf.Length
    modifies buf
    ensures done' == done + Negotiation(w) && cur == at + |done'| && Written(buf[..], was, at, done')
  {
    cur, done' := EmitPiece(buf, start, w.mss != 0, KIND_MSS, Be16(w.mss), was, at, done);
    cur, done' := EmitPiece(buf, cur, w.sack, KIND_SACK, [], was, at, done');
    Associates(done, Piece(w.mss != 0, KIND_MSS, Be16(w.mss)), Piece(w.sack, KIND_SACK, []));
  }

  method EmitRest(buf: array<byte>, start: nat, w: Wanted, ghost was: seq<byte>, ghost at: nat, ghost done: seq<byte>)
    returns (cur: nat, ghost done': seq<byte>)
    requires WantedOk(w) && Written(buf[..], was, at, done) && start == at + |done| && start + |Rest(w)| <= buf.Length
    modifies buf
    ensures done' == done + Rest(w) && cur == at + |done'| && Written(buf[..], was, at, done')
  {
    var md5, ts := if w.md5.Some? then w.md5.value else [], if w.timestamps.Some? then w.timestamps.value else [];
    ghost var p, q := Piece(w.md5.Some?, KIND_MD5SIG, md5), Piece(w.timestamps.Some?, KIND_TIMESTAMPS, ts);
    ghost var r := Piece(w.scale != SCALE_NONE, KIND_SCALE, [w.scale]);
    cur, done' := EmitPiece(buf, start, w.md5.Some?, KIND_MD5SIG, md5, was, at, done);
    cur, done' := EmitPiece(buf, cur, w.timestamps.Some?, KIND_TIMESTAMPS, ts, was, at, done');
    cur, done' := EmitPiece(buf, cur, w.scale != SCALE_NONE, KIND_SCALE, [w.scale], was, at, done');
    Associates(done, p, q);
    Associates(done, p + q, r);
  }

  /** No-operations up to a multiple of four. */
  method EmitPadding(buf: array<byte>, start: nat, t0: nat, ghost was: seq<byte>, ghost at: nat, ghost done: seq<byte>)
    returns (t: nat, ghost done': seq<byte>)
    requires Written(buf[..], was, at, done) && start + t0 == at + |done| && start + RoundUp4(t0) <= buf.Length
    modifies buf
    ensures t == RoundUp4(t0) && done' == done + Fill(t - t0, KIND_NOOP) && Written(buf[..], was, at, done')
  {
    t, done' := t0, done;
    assert done' == done + Fill(0, KIND_NOOP);
    while t % 4 != 0
      invariant t0 <= t <= RoundUp4(t0) && done' == done + Fill(t - t0, KIND_NOOP) && Written(buf[..], was, at, done')
      decreases RoundUp4(t0) - t
    {
      var next := Emit(buf, start + t, [KIND_NOOP], was, at, done');
      t, done' := t + 1, done' + [KIND_NOOP];
      assert Fill(t - t0, KIND_NOOP) == Fill(t - t0 - 1, KIND_NOOP) + [KIND_NOOP];
    }
  }

  // ---------- reading back ----------

  predicate HeaderOk(h: Header) {
    && WantedOk(h.wanted) && h.sport < 0x1_0000 && h.dport < 0x1_0000 && h.seqNum < SEQ_SPACE && h.ack < SEQ_SPACE
    && h.window < 0x1_0000
  }

  /** get_tcp_flags */
  function GetTcpFlags(b: seq<byte>): nat
    requires 14 <= |b|
  {
    b[13] + 256 * Low4(b[12])
  }

  /** The header has room for twelve flag bits. */
  function KeptFlags(flags: nat): nat {
    Low(flags) + 256 * Low4(Above(flags))
  }

  lemma TwelveFlagsAreKept(flags: nat)
    requires flags < 0x1000
    ensures KeptFlags(flags) == flags
  {
    AboveAndLow(flags);
  }

  /** The transport header starting at `at` reads as h: ports, numbers, window, the flag bits with the four above them, the
      data offset, and each option. */
  ghost predicate ReadsAs(p: seq<byte>, at: nat, h: Header) {
    && HeaderOk(h) && at + 20 + TcpOptLen(h.wanted) <= |p|
    && var b := p[at..];
       var end := 20 + TcpOptLen(h.wanted);
       && Get16(b, 0) == h.sport && Get16(b, 2) == h.dport && Get32(b, 4) == h.seqNum && Get32(b, 8) == h.ack
       && Get16(b, 14) == h.window && GetTcpFlags(b) == KeptFlags(h.flags)
       && 4 * High4(b[12]) == end <= 60
       && FindMss(b, end) == h.wanted.mss && HasSack(b, end) == h.wanted.sack && FindTimestamps(b, end) == h.wanted.timestamps
       && FindScaleFactor(b, end) == h.wanted.scale && OptionData(b, 20, end, KIND_MD5SIG) == h.wanted.md5
  }

  lemma FixedPieces(b: seq<byte>, h: Header, sum: seq<byte>)
    requires |sum| == 2 && 20 <= |b| && b[..20] == Fixed(h, sum)
    ensures b[0..2] == Be16(h.sport) && b[2..4] == Be16(h.dport) && b[4..8] == Be32(h.seqNum) && b[8..12] == Be32(h.ack)
    ensures b[12] == Byte12(h) && b[13] == Low(h.flags) && b[14..16] == Be16(h.window) && b[16..18] == sum
  {
    var p2 := Be16(h.sport) + Be16(h.dport);
    var p4 := p2 + Be32(h.seqNum) + Be32(h.ack);
    var p5 := p4 + [Byte12(h), Low(h.flags)];
    Peel(b, p5 + Be16(h.window) + sum, [0, 0]);
    Peel(b, p5 + Be16(h.window), sum);
    Peel(b, p5, Be16(h.window));
    Peel(b, p4, [Byte12(h), Low(h.flags)]);
    Peel(b, p2 + Be32(h.seqNum), Be32(h.ack));
    Peel(b, p2, Be32(h.seqNum));
    Peel(b, Be16(h.sport), Be16(h.dport));
    assert b[12] == b[12..14][0] && b[13] == b[12..14][1] && b[0..2] == b[..2];
  }

  lemma FixedReads(b: seq<byte>, h: Header, sum: seq<byte>)
    requires |sum| == 2 && 20 <= |b| && b[..20] == Fixed(h, sum) && HeaderOk(h)
    ensures Get16(b, 0) == h.sport && Get16(b, 2) == h.dport && Get32(b, 4) == h.seqNum && Get32(b, 8) == h.ack
    ensures Get16(b, 14) == h.window && b[13] == Low(h.flags) && b[12] == Byte12(h)
  {
    FixedPieces(b, h, sum);
    Get16Of(b, 0, h.sport);
    Get16Of(b, 2, h.dport);
    Get32Of(b, 4, h.seqNum);
    Get32Of(b, 8, h.ack);
    Get16Of(b, 14, h.window);
  }

  lemma OffsetReads(h: Header)
    requires WantedOk(h.wanted)
    ensures 4 * High4(Byte12(h)) == 20 + TcpOptLen(h.wanted) <= 60 && Low4(Byte12(h)) == Low4(Above(h.flags))
  {
    Low4Small(Above(h.flags));
    Halves(5 + TcpOptLen(h.wanted) / 4, Low4(Above(h.flags)));
  }

  lemma OptionsAfterFixed(b: seq<byte>, fixed: seq<byte>, w: Wanted)
    requires WantedOk(w) && |fixed| == 20 && 20 + TcpOptLen(w) <= |b| && b[..20 + TcpOptLen(w)] == fixed + OptionBytes(w)
    requires |Raw(w)| == RawLen(w)
    ensures b[..20] == fixed && HoldsOptions(b, w)
  {
    var n, raw, pad := TcpOptLen(w), Raw(w), Fill(TcpOptLen(w) - RawLen(w), KIND_NOOP);
    Peel(b, fixed, OptionBytes(w));
    SubSlice(b, 20, n, 0, |raw|);
    SubSlice(b, 20, n, |raw|, n);
    assert (raw + pad)[0..|raw|] == raw && (raw + pad)[|raw|..n] == pad;
    forall k | 20 + |raw| <= k < 20 + n
      ensures b[k] == KIND_NOOP
    {
      assert b[k] == b[20 + |raw|..20 + n][k - 20 - |raw|];
    }
  }

  /** Every header that is written reads back, whatever its checksum. */
  lemma HeaderReadsBack(p: seq<byte>, at: nat, h: Header, sum: seq<byte>)
    requires HeaderOk(h) && |sum| == 2 && at + 20 + TcpOptLen(h.wanted) <= |p|
    requires p[at..][..20 + TcpOptLen(h.wanted)] == HeaderBytes(h, sum)
    ensures ReadsAs(p, at, h)
  {
    var b := p[at..];
    RawIsChosen(h.wanted);
    OptionsAfterFixed(b, Fixed(h, sum), h.wanted);
    FixedReads(b, h, sum);
    OffsetReads(h);
    OptionsReadBack(b, h.wanted);
  }

  // ---------- the arguments read back ----------

  /** Flag bits by their numbers: 2, 4 and 16. */
  const SYN_BIT := 1
  const RST_BIT := 2
  const ACK_BIT := 4

  /** The flags read from a header are those asked for, in twelve bits; ACK alone is dropped, exactly when that fooling is on, the
      segment has data and is no SYN or RST. */
  ghost predicate FlagsAre(read: nat, flags: nat, dataNoAck: bool, dataLen: nat) {
    forall i :: 0 <= i < 12 ==>
      Bit(read, i) == (Bit(flags, i)
                       && !(i == ACK_BIT && dataNoAck && dataLen != 0 && !Bit(flags, SYN_BIT) && !Bit(flags, RST_BIT)))
  }

  /** TSval and TSecr as read, if there are any; TSval is moved on when that fooling is on. */
  ghost predicate TimestampsAre(read: Option<seq<byte>>, timestamps: Option<(nat, nat)>, fool: bool, inc: nat) {
    match timestamps
    case None => read == None
    case Some(t) =>
      && read.Some? && |read.value| == 8
      && Get32(read.value, 0) == (if fool then (t.0 + inc) % SEQ_SPACE else t.0) && Get32(read.value, 4) == t.1
  }

  /** The TCP header at the start of `b`, as its readers see it, says what the arguments ask for. */
  ghost predicate Carries(b: seq<byte>, g: Segment, fool: Fooling, inc: Increments, md5: seq<byte>, dataLen: nat) {
    && 20 <= |b| && 20 <= 4 * High4(b[12]) <= |b|
    && var end := 4 * High4(b[12]);
       && Get16(b, 0) == g.sport && Get16(b, 2) == g.dport && Get16(b, 14) == g.window
       && Get32(b, 4) == (if fool.badseq then (g.seqNum + inc.badseq) % SEQ_SPACE else g.seqNum)
       && Get32(b, 8) == (if fool.badseq then (g.ack + inc.badseqAck) % SEQ_SPACE else g.ack)
       && FlagsAre(GetTcpFlags(b), g.flags, fool.dataNoAck, dataLen)
       && FindMss(b, end) == g.mss && HasSack(b, end) == g.sack && FindScaleFactor(b, end) == g.scale
       && TimestampsAre(FindTimestamps(b, end), g.timestamps, fool.ts, inc.ts)
       && OptionData(b, 20, end, KIND_MD5SIG) == if fool.md5sig then Some(md5) else None
  }

  lemma Add32IsSum(v: nat, inc: nat)
    requires v < SEQ_SPACE && inc < SEQ_SPACE
    ensures Add32(v, inc) == (v + inc) % SEQ_SPACE
  {
    if v + inc >= SEQ_SPACE {
      OneRound(v + inc - SEQ_SPACE);
    }
  }

  lemma OneRound(r: nat)
    requires r < SEQ_SPACE
    ensures (r + SEQ_SPACE) % SEQ_SPACE == r
  {
  }

  lemma TimestampsReadBack(g: Segment, fool: Fooling, inc: Increments)
    requires SegmentOk(g, inc)
    ensures TimestampsAre(Timestamps(g, fool, inc), g.timestamps, fool.ts, inc.ts)
  {
    if g.timestamps.Some? {
      var v := if fool.ts then Add32(g.timestamps.value.0, inc.ts) else g.timestamps.value.0;
      var t := Be32(v) + Be32(g.timestamps.value.1);
      assert t[0..4] == Be32(v) && t[4..8] == Be32(g.timestamps.value.1);
      Get32Of(t, 0, v);
      Get32Of(t, 4, g.timestamps.value.1);
      Add32IsSum(g.timestamps.value.0, inc.ts);
    }
  }

  lemma KeptBit(flags: nat, i: nat)
    requires i < 12
    ensures Bit(KeptFlags(flags), i) == Bit(flags, i)
  {
    var m := High4(Above(flags));
    AboveAndLow(flags);
    HighAndLow(Above(flags));
    assert Pow2(4) == 16;
    Pow2Add(4, 4);
    Pow2Add(8, 4);
    BitBelow(m, KeptFlags(flags), 12, i);
  }

  lemma {:induction false} HighAndLow(v: nat)
    ensures v == 16 * High4(v) + Low4(v)
  {
    if v >= 16 {
      HighAndLow(v - 16);
    }
  }

  /** The masks of the source as bits. */
  lemma FlagMasks(flags: nat)
    ensures And(flags, TH_ACK) == if Bit(flags, ACK_BIT) then TH_ACK else 0
    ensures And(flags, TH_SYN + TH_RST) == 0 <==> !Bit(flags, SYN_BIT) && !Bit(flags, RST_BIT)
  {
    assert Pow2(4) == 16;
    AndBit(flags, 4);
    AndStep(flags, 3);
    var y := flags / 2;
    AndUnfold(y, 3);
    AndUnfold(y / 2, 1);
    AndZero(y / 2 / 2);
    assert Net(flags, 0) == flags && Net(flags, 1) == y && Net(flags, 2) == y / 2;
  }

  lemma FlagsReadBack(g: Segment, fool: Fooling, dataLen: nat)
    ensures FlagsAre(KeptFlags(Flags(g, fool, dataLen)), g.flags, fool.dataNoAck, dataLen)
  {
    var w := Flags(g, fool, dataLen);
    FlagMasks(g.flags);
    forall i | 0 <= i < 12
      ensures Bit(KeptFlags(w), i) == (Bit(g.flags, i) && !(i == ACK_BIT && fool.dataNoAck && dataLen != 0
                                                           && !Bit(g.flags, SYN_BIT) && !Bit(g.flags, RST_BIT)))
    {
      KeptBit(w, i);
      if w != g.flags {
        assert Pow2(4) == 16;
        ClearBit(g.flags, 4, i);
      }
    }
  }

  /** A header made of the arguments and read as such says what they ask for. */
  lemma ArgumentsReadBack(p: seq<byte>, at: nat, g: Segment, fool: Fooling, inc: Increments, md5: seq<byte>, dataLen: nat)
    requires SegmentOk(g, inc) && |md5| == 16 && ReadsAs(p, at, HeaderOf(g, fool, inc, md5, dataLen))
    ensures Carries(p[at..], g, fool, inc, md5, dataLen)
    ensures 4 * High4(p[at..][12]) == 20 + TcpOptLenOf(g, fool)
  {
    OptLenIsWritten(g, fool, inc, md5, dataLen);
    Add32IsSum(g.seqNum, inc.badseq);
    Add32IsSum(g.ack, inc.badseqAck);
    FlagsReadBack(g, fool, dataLen);
    TimestampsReadBack(g, fool, inc);
  }

  /** The same from the bytes written, whatever the checksum. */
  lemma WrittenCarries(p: seq<byte>, at: nat, g: Segment, fool: Fooling, inc: Increments, md5: seq<byte>, dataLen: nat, sum: seq<byte>)
    requires SegmentOk(g, inc) && |md5| == 16 && |sum| == 2 && at + 20 + TcpOptLenOf(g, fool) <= |p|
    requires p[at..][..20 + TcpOptLenOf(g, fool)] == HeaderBytes(HeaderOf(g, fool, inc, md5, dataLen), sum)
    ensures Carries(p[at..], g, fool, inc, md5, dataLen)
  {
    OptLenIsWritten(g, fool, inc, md5, dataLen);
    HeaderReadsBack(p, at, HeaderOf(g, fool, inc, md5, dataLen), sum);
    ArgumentsReadBack(p, at, g, fool, inc, md5, dataLen);
  }

  // ---------- the writer ----------

  /** fill_tcphdr */
  method FillTcpHdr(buf: array<byte>, at: nat, g: Segment, fool: Fooling, inc: Increments, md5: seq<byte>, dataLen: nat,
                    ghost was: seq<byte>) returns (t: nat)
    requires SegmentOk(g, inc) && |md5| == 16 && at + 20 + TcpOptLenOf(g, fool) <= buf.Length && buf[..] == was
    modifies buf
    ensures var h := HeaderOf(g, fool, inc, md5, dataLen);
            t == 20 + TcpOptLenOf(g, fool) == |HeaderBytes(h, [0, 0])| && Written(buf[..], was, at, HeaderBytes(h, [0, 0]))
    ensures Carries(buf[..][at..], g, fool, inc, md5, dataLen)
  {
    var h := HeaderOf(g, fool, inc, md5, dataLen);
    OptLenIsWritten(g, fool, inc, md5, dataLen);
    var cur := EmitFixed(buf, at, h, was);
    ghost var done := Fixed(h, [0, 0]);
    cur, done := EmitPieces(buf, cur, h.wanted, was, at, done);
    t, done := EmitPadding(buf, at + 20, cur - at - 20, was, at, done);
    t := t + 20;
    assert done == HeaderBytes(h, [0, 0]);
    assert buf[..][at..][..t] == done;
    WrittenCarries(buf[..], at, g, fool, inc, md5, dataLen, [0, 0]);
  }
}
