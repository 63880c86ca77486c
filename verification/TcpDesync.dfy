/** The split branches of dpi_desync_tcp_packet_play in nfq/desync.c, in the order in which they prepare
    and send segments, and what happens to the original packet when one of them gives up.
 */
module TcpDesync {
  import opened Bytes
  import opened TcpStream
  import opened FillPattern
  import opened TcpPlans

  const DPI_DESYNC_MAX_FAKE_LEN := 9216
  const PACKET_BUFFER := DPI_DESYNC_MAX_FAKE_LEN + 100

  /** rawsend: every attempt succeeds or fails by itself; what succeeded is on the wire. */
  class Wire {
    const fate: nat -> bool
    var tries: nat
    var log: seq<Segment>

    constructor (fate: nat -> bool)
      ensures log == [] && this.fate == fate
    {
      this.fate, tries, log := fate, 0, [];
    }

    method RawSend(s: Segment) returns (ok: bool)
      modifies this
      ensures ok == fate(old(tries)) && tries == old(tries) + 1
      ensures log == if ok then old(log) + [s] else old(log)
    {
      ok := fate(tries);
      tries := tries + 1;
      if ok {
        log := log + [s];
      }
    }

    /** rawsend of something that is no whole segment. */
    method RawSendPart() returns (ok: bool)
      modifies this`tries
      ensures ok == fate(old(tries)) && tries == old(tries) + 1
    {
      ok := fate(tries);
      tries := tries + 1;
    }

    /** All attempts since attempt number `t0` succeeded. */
    ghost predicate Succeeded(t0: nat)
      reads this
    {
      t0 <= tries && forall k :: t0 <= k < tries ==> fate(k)
    }

    /** rawsend_rep */
    method RawSendRep(repeats: nat, s: Segment) returns (ok: bool)
      modifies this
      ensures ok == Succeeded(old(tries)) && old(tries) <= tries
      ensures ok ==> log == old(log) + Repeat(repeats, s)
      ensures exists k :: 0 <= k <= repeats && log == old(log) + Repeat(k, s)
    {
      var i := 0;
      while i < repeats
        invariant i <= repeats && log == old(log) + Repeat(i, s) && Succeeded(old(tries))
      {
        ok := RawSend(s);
        if !ok {
          return;
        }
        assert Repeat(i + 1, s) == Repeat(i, s) + [s];
        i := i + 1;
      }
      return true;
    }
  }

  /** enum dpi_desync_mode; ExtHeader stands for hopbyhop, destopt and ipfrag1. */
  datatype Mode = ModeNone | ModeFake | ModeFakeKnown | ModeRst | ModeExtHeader
                | ModeMultiSplit | ModeMultiDisorder | ModeFakedSplit | ModeFakedDisorder | ModeHostFakeSplit
                | ModeIpFrag2

  /** The fields of struct desync_profile that the branches read. */
  datatype Profile = Profile(
    mode: Mode, mode2: Mode, repeats: nat, fakes: seq<seq<byte>>, tcpModSeq: bool,
    seqovlPattern: seq<byte>, fsplitPattern: seq<byte>, fsOrdering: nat, hfsOrdering: nat,
    dupRepeats: nat, dupReplace: bool)

  /** What is known about the packet: header sizes of rebuilt real, fake and duplicate segments, whether the
      protocol was recognised, whether the packet is replayed from the delay queue and at which offset of the
      reassembled message, and whether duplicates are due and have to be rebuilt. */
  datatype Context = Context(d: Dissect, realHeaders: nat, fakeHeaders: nat, dupHeaders: nat, ipv6: bool, known: bool,
                             replay: bool, reasmOffset: nat, replayIpId: nat, dupInterval: bool, dupRebuild: bool,
                             frags: Frags)

  /** Whether ip6_insert_simple_hdr and ip_frag take the packet, and whether a receiver can reassemble what they make of it:
      see modules IpFrag and IpFrag6. */
  datatype Frags = Frags(fit: bool, assemble: bool)

  /** Rebuilt packets keep to the 16-bit lengths of the IP headers. */
  ghost predicate Sized(c: Context, dp: Profile) {
    && c.realHeaders + |c.d.payload| < 0x1_0000 && c.fakeHeaders + |c.d.payload| < 0x1_0000
    && c.realHeaders + PACKET_BUFFER < 0x1_0000 && c.fakeHeaders + PACKET_BUFFER < 0x1_0000
    && dp.seqovlPattern != [] && dp.fsplitPattern != [] && dp.hfsOrdering <= 1
    && forall k :: 0 <= k < |dp.fakes| ==> c.fakeHeaders + |dp.fakes[k]| < 0x1_0000
  }

  /** prepare_tcp_segment fails when the packet does not fit the buffer; lengths are uint16_t. */
  function Fits(headers: nat, len: nat): bool {
    (headers + len) % 0x1_0000 <= PACKET_BUFFER
  }

  // ---------- building and sending one segment ----------

  /** The overlap buffer: filler, then payload[from..to]. */
  method OverlapSegment(pattern: seq<byte>, seqovl: nat, payload: seq<byte>, from: nat, to: nat) returns (seg: seq<byte>)
    requires pattern != [] && from <= to <= |payload|
    ensures seg == Pattern(pattern, 0, seqovl) + payload[from..to]
  {
    var ovlseg := new byte[seqovl + (to - from)];
    FillPattern.FillPattern(ovlseg, seqovl, pattern, 0);
    label Filled:
    Memcpy(ovlseg, seqovl, payload, from, to - from);
    assert forall k :: 0 <= k < seqovl ==> ovlseg[k] == old@Filled(ovlseg[k]);
    seg := ovlseg[..];
  }

  /** The state of the wire when a branch starts. */
  datatype Start = Start(log: seq<Segment>, tries: nat)

  /** How far before the packet a segment may start: filler goes before the stream only from its very start. */
  function Slack(c: Context): nat {
    if c.reasmOffset == 0 then PACKET_BUFFER else 0
  }

  ghost predicate Within(log0: seq<Segment>, log1: seq<Segment>, c: Context) {
    StaysWithin(log0, log1, c.d.th, Slack(c), |c.d.payload|)
  }

  ghost predicate Bounded(w: Wire, st: Start, c: Context)
    reads w
  {
    Within(st.log, w.log, c) && st.tries <= w.tries
  }

  /** Everything put on the wire since the start stays within the packet's own bytes, and no send failed. */
  ghost predicate Going(w: Wire, st: Start, c: Context)
    reads w
  {
    Bounded(w, st, c) && w.Succeeded(st.tries)
  }

  /** A branch that gave up after a failed send. */
  ghost predicate Failed(w: Wire, st: Start, c: Context)
    reads w
  {
    Bounded(w, st, c) && !w.Succeeded(st.tries)
  }

  /** rawsend of a real segment made of `seg`. */
  method SendReal(w: Wire, c: Context, from: nat, to: nat, filler: seq<byte>, seg: seq<byte>, ghost st: Start)
    returns (ok: bool)
    requires from <= to <= |c.d.payload| && |filler| <= from + Slack(c) && seg == filler + c.d.payload[from..to]
    requires Going(w, st, c)
    modifies w
    ensures if ok then Going(w, st, c) else Failed(w, st, c)
    ensures ok ==> w.log == old(w.log) + [Part(c.d.th, c.d.payload, from, to, filler)]
    ensures !ok ==> w.log == old(w.log)
  {
    RelOfSum(c.d.th, from - |filler|);
    ok := w.RawSend(Segment(Net32Add(c.d.th, from - |filler|), seg, false));
  }

  /** rawsend_rep of a fake. */
  method SendFakes(w: Wire, c: Context, repeats: nat, s: Segment, ghost st: Start) returns (ok: bool)
    requires s.fake && Going(w, st, c)
    modifies w
    ensures if ok then Going(w, st, c) else Failed(w, st, c)
    ensures ok ==> w.log == old(w.log) + Repeat(repeats, s)
    ensures OnlyFake(old(w.log), w.log, s)
  {
    ok := w.RawSendRep(repeats, s);
  }

  /** Nothing but this fake has been put on the wire in between. */
  ghost predicate OnlyFake(log0: seq<Segment>, log1: seq<Segment>, s: Segment) {
    log0 <= log1 && forall i :: |log0| <= i < |log1| ==> log1[i] == s
  }

  lemma OnlyFakeIsCut(log0: seq<Segment>, log1: seq<Segment>, d: Dissect, pat: seq<byte>, from: nat, to: nat)
    requires from <= to <= |pat| == |d.payload| && OnlyFake(log0, log1, FakePart(d, pat, from, to))
    ensures FakesOf(log0, log1, d, pat)
  {
    FakePartIsCut(d, pat, from, to);
  }

  /** Every segment of the plan, with its headers, fits the packet buffer. */
  ghost predicate Sendable(c: Context, plan: seq<Segment>) {
    forall s :: s in plan ==> SegmentFits(c, s)
  }

  predicate SegmentFits(c: Context, s: Segment) {
    (if s.fake then c.fakeHeaders else c.realHeaders) + |s.payload| <= PACKET_BUFFER
  }

  lemma SendableMore(c: Context, plan: seq<Segment>, i: nat)
    requires i < |plan| && Sendable(c, plan[..i])
    ensures plan[..i + 1] == plan[..i] + [plan[i]]
    ensures SegmentFits(c, plan[i]) ==> Sendable(c, plan[..i + 1])
    ensures !SegmentFits(c, plan[i]) ==> !Sendable(c, plan)
  {
    assert plan[i] in plan;
  }

  /** What a branch promises: it takes over the packet exactly when everything it wants to send fits and every
      send succeeds, and then the plan is on the wire. */
  ghost predicate Outcome(w: Wire, st: Start, c: Context, plan: seq<Segment>, fits: bool, dropped: bool)
    reads w
  {
    && Bounded(w, st, c)
    && (dropped <==> fits && w.Succeeded(st.tries))
    && (dropped ==> w.log == st.log + plan)
  }

  /** One part, by way of the overlap buffer if asked for: check sizes, build, send. */
  method SendPart(w: Wire, c: Context, dp: Profile, from: nat, to: nat, seqovl: nat, buffered: bool, ghost st: Start)
    returns (ok: bool)
    requires Sized(c, dp) && from <= to <= |c.d.payload| && (seqovl != 0 ==> buffered)
    requires seqovl != 0 ==> seqovl <= from || c.reasmOffset == 0
    requires Going(w, st, c)
    modifies w
    ensures ok ==> Going(w, st, c) && c.realHeaders + seqovl + (to - from) <= PACKET_BUFFER
    ensures ok ==> w.log == old(w.log) + [Part(c.d.th, c.d.payload, from, to, Pattern(dp.seqovlPattern, 0, seqovl))]
    ensures !ok ==> Bounded(w, st, c)
    ensures !ok ==> !w.Succeeded(st.tries) || c.realHeaders + seqovl + (to - from) > PACKET_BUFFER
    ensures !ok ==> w.log == old(w.log)
  {
    var seg := c.d.payload[from..to];
    if buffered {
      if to - from + seqovl > PACKET_BUFFER {
        return false;
      }
      seg := OverlapSegment(dp.seqovlPattern, seqovl, c.d.payload, from, to);
    }
    if !Fits(c.realHeaders, |seg|) {
      return false;
    }
    ok := SendReal(w, c, from, to, Pattern(dp.seqovlPattern, 0, seqovl), seg, st);
  }

  // ---------- multisplit ----------

  /** How many bytes of filler multisplit puts in front of the first part. */
  function MultiSplitOverlap(c: Context, seqovlPos: nat): nat {
    if c.reasmOffset == 0 then seqovlPos else 0
  }

  method MultiSplit(w: Wire, c: Context, dp: Profile, cuts: seq<nat>, seqovlPos: nat) returns (dropped: bool)
    requires Sized(c, dp) && SplitsOf(cuts, |c.d.payload|) && cuts != []
    modifies w
    ensures var plan := MultiSplitPlan(c.d, cuts, Pattern(dp.seqovlPattern, 0, MultiSplitOverlap(c, seqovlPos)));
            Outcome(w, Start(old(w.log), old(w.tries)), c, plan, Sendable(c, plan), dropped)
  {
    ghost var st := Start(w.log, w.tries);
    var from, i := 0, 0;
    ghost var n, filler := |c.d.payload|, Pattern(dp.seqovlPattern, 0, MultiSplitOverlap(c, seqovlPos));
    ghost var plan := MultiSplitPlan(c.d, cuts, filler);
    while i <= |cuts|
      invariant i <= |cuts| + 1 && from == Bound(cuts, n, i) && Going(w, st, c)
      invariant w.log == st.log + plan[..i] && Sendable(c, plan[..i])
    {
      var to := if i == |cuts| then |c.d.payload| else cuts[i];
      SendableMore(c, plan, i);
      var ok := SendSplitPart(w, c, dp, cuts, i, from, to, seqovlPos, st);
      if !ok {
        return false;
      }
      from := to;
      i := i + 1;
    }
    assert plan[..i] == plan;
    return true;
  }

  /** Part i of multisplit. */
  method SendSplitPart(w: Wire, c: Context, dp: Profile, cuts: seq<nat>, i: nat, from: nat, to: nat, seqovlPos: nat, ghost st: Start)
    returns (ok: bool)
    requires Sized(c, dp) && SplitsOf(cuts, |c.d.payload|) && i <= |cuts| && Going(w, st, c)
    requires from == Bound(cuts, |c.d.payload|, i) && to == Bound(cuts, |c.d.payload|, i + 1)
    modifies w
    ensures var s := MultiSplitPart(c.d, cuts, Pattern(dp.seqovlPattern, 0, MultiSplitOverlap(c, seqovlPos)), i);
            if ok then Going(w, st, c) && SegmentFits(c, s) && w.log == old(w.log) + [s]
            else Bounded(w, st, c) && (!w.Succeeded(st.tries) || !SegmentFits(c, s))
  {
    BoundsAscend(cuts, |c.d.payload|, i);
    var seqovl := if i == 0 && c.reasmOffset == 0 then seqovlPos else 0;
    ok := SendPart(w, c, dp, from, to, seqovl, seqovl != 0, st);
  }

  // ---------- multidisorder ----------

  /** How many bytes of filler multidisorder puts in front of its second part. */
  function MultiDisorderOverlap(cuts: seq<nat>, seqovlPos: nat): nat
    requires cuts != []
  {
    if seqovlPos < cuts[0] then seqovlPos else 0
  }

  method MultiDisorder(w: Wire, c: Context, dp: Profile, cuts: seq<nat>, seqovlPos: nat) returns (dropped: bool)
    requires Sized(c, dp) && SplitsOf(cuts, |c.d.payload|) && cuts != []
    modifies w
    ensures var plan := MultiDisorderPlan(c.d, cuts, Pattern(dp.seqovlPattern, 0, MultiDisorderOverlap(cuts, seqovlPos)));
            Outcome(w, Start(old(w.log), old(w.tries)), c, plan, Sendable(c, plan), dropped)
  {
    ghost var st := Start(w.log, w.tries);
    ghost var n, filler := |c.d.payload|, Pattern(dp.seqovlPattern, 0, MultiDisorderOverlap(cuts, seqovlPos));
    ghost var plan := MultiDisorderPlan(c.d, cuts, filler);
    var i, to := |cuts| - 1, |c.d.payload|;
    while i >= -1
      invariant -2 <= i < |cuts| && to == Bound(cuts, n, i + 2) && Going(w, st, c)
      invariant w.log == st.log + plan[..|cuts| - 1 - i] && Sendable(c, plan[..|cuts| - 1 - i])
    {
      var from := if i >= 0 then cuts[i] else 0;
      SendableMore(c, plan, |cuts| - 1 - i);
      var ok := SendDisorderPart(w, c, dp, cuts, i, from, to, seqovlPos, st);
      if !ok {
        return false;
      }
      to := from;
      i := i - 1;
    }
    assert plan[..|cuts| + 1] == plan;
    return true;
  }

  /** The part of multidisorder that begins at cut i, or at the start for i = -1. */
  method SendDisorderPart(w: Wire, c: Context, dp: Profile, cuts: seq<nat>, i: int, from: nat, to: nat, seqovlPos: nat, ghost st: Start)
    returns (ok: bool)
    requires Sized(c, dp) && SplitsOf(cuts, |c.d.payload|) && cuts != [] && -1 <= i < |cuts| && Going(w, st, c)
    requires from == Bound(cuts, |c.d.payload|, i + 1) && to == Bound(cuts, |c.d.payload|, i + 2)
    modifies w
    ensures var s := MultiDisorderPart(c.d, cuts, Pattern(dp.seqovlPattern, 0, MultiDisorderOverlap(cuts, seqovlPos)), i + 1);
            if ok then Going(w, st, c) && SegmentFits(c, s) && w.log == old(w.log) + [s]
            else Bounded(w, st, c) && (!w.Succeeded(st.tries) || !SegmentFits(c, s))
  {
    BoundsAscend(cuts, |c.d.payload|, i + 1);
    var seqovl := if i == 0 && seqovlPos < from then seqovlPos else 0;
    ok := SendPart(w, c, dp, from, to, seqovl, i == 0 && seqovlPos < from, st);
  }

  // ---------- fakes around a real part ----------

  /** A real part with fakes before and after it; the fake itself is built already. */
  method SendSurrounded(w: Wire, c: Context, dp: Profile, from: nat, to: nat, filler: seq<byte>, seg: seq<byte>,
                        pat: seq<byte>, before: bool, after: bool, ghost st: Start)
    returns (ok: bool)
    requires from <= to <= |c.d.payload| == |pat| && |filler| <= from && seg == filler + c.d.payload[from..to]
    requires Going(w, st, c) && c.realHeaders + |seg| < 0x1_0000
    modifies w
    ensures ok ==> Going(w, st, c) && c.realHeaders + |seg| <= PACKET_BUFFER
    ensures ok ==> w.log == old(w.log) + Surrounded(c.d, dp.repeats, pat, from, to, filler, before, after)
    ensures !ok ==> Bounded(w, st, c)
    ensures !ok ==> !w.Succeeded(st.tries) || c.realHeaders + |seg| > PACKET_BUFFER
    ensures FakesOf(old(w.log), w.log, c.d, pat)
  {
    ghost var log0 := w.log;
    ok := SendFakesWhen(w, c, dp, from, to, pat, before, st);
    if !ok {
      return false;
    }
    if !Fits(c.realHeaders, |seg|) {
      return false;
    }
    ghost var log1 := w.log;
    ok := SendReal(w, c, from, to, filler, seg, st);
    FakesOfTransitive(log0, log1, w.log, c.d, pat);
    if !ok {
      return false;
    }
    ghost var log2 := w.log;
    ok := SendFakesWhen(w, c, dp, from, to, pat, after, st);
    FakesOfTransitive(log0, log2, w.log, c.d, pat);
    if ok {
      assert w.log == log0 + Surrounded(c.d, dp.repeats, pat, from, to, filler, before, after);
    }
  }

  /** The fakes of one part, if the order asks for them here. */
  method SendFakesWhen(w: Wire, c: Context, dp: Profile, from: nat, to: nat, pat: seq<byte>, when: bool, ghost st: Start) returns (ok: bool)
    requires from <= to <= |c.d.payload| == |pat| && Going(w, st, c)
    modifies w
    ensures if ok then Going(w, st, c) else Failed(w, st, c)
    ensures ok ==> w.log == old(w.log) + When(when, Repeat(dp.repeats, FakePart(c.d, pat, from, to)))
    ensures FakesOf(old(w.log), w.log, c.d, pat)
  {
    ok := true;
    ghost var log0 := w.log;
    if when {
      ok := SendFakes(w, c, dp.repeats, FakePart(c.d, pat, from, to), st);
      OnlyFakeIsCut(log0, w.log, c.d, pat, from, to);
    }
  }

  // ---------- fakeddisorder ----------

  /** The first fake pattern buffer of the packet. */
  method FillFakes(c: Context, dp: Profile) returns (pat: seq<byte>)
    requires Sized(c, dp)
    ensures pat == Pattern(dp.fsplitPattern, c.reasmOffset, |c.d.payload|)
  {
    var buf := new byte[|c.d.payload|];
    FillPattern.FillPattern(buf, |c.d.payload|, dp.fsplitPattern, c.reasmOffset);
    pat := buf[..];
  }

  function FakedOrder(dp: Profile, split: bool): nat {
    if split then dp.fsOrdering % 4 else dp.fsOrdering / 8 % 4
  }

  function FakedDisorderOverlap(split: nat, seqovlPos: nat): nat {
    if seqovlPos < split then seqovlPos else 0
  }

  ghost function FakedDisorderFor(c: Context, dp: Profile, split: nat, seqovlPos: nat): seq<Segment>
    requires Sized(c, dp) && split < |c.d.payload|
  {
    FakedDisorderPlan(c.d, Pattern(dp.fsplitPattern, c.reasmOffset, |c.d.payload|), split,
                      Pattern(dp.seqovlPattern, 0, FakedDisorderOverlap(split, seqovlPos)),
                      FakedOrder(dp, split != 0), dp.repeats)
  }

  function RealFits(c: Context, len: nat): bool {
    c.realHeaders + len <= PACKET_BUFFER
  }

  function FakeFits(c: Context, len: nat): bool {
    c.fakeHeaders + len <= PACKET_BUFFER
  }

  /** Every segment that gets built fits: the fake of the second part is built even when it is not sent. */
  predicate FakedDisorderSizes(c: Context, split: nat, seqovl: nat)
    requires split < |c.d.payload|
  {
    var n := |c.d.payload|;
    && FakeFits(c, n - split) && RealFits(c, seqovl + (n - split))
    && (split != 0 ==> FakeFits(c, split) && RealFits(c, split))
  }

  predicate FakedDisorderFits(c: Context, split: nat, seqovlPos: nat)
    requires split < |c.d.payload|
  {
    |c.d.payload| <= DPI_DESYNC_MAX_FAKE_LEN && FakedDisorderSizes(c, split, FakedDisorderOverlap(split, seqovlPos))
  }

  /** split == 0: no split position in this packet. */
  method FakedDisorder(w: Wire, c: Context, dp: Profile, split: nat, seqovlPos: nat) returns (dropped: bool)
    requires Sized(c, dp) && split < |c.d.payload|
    modifies w
    ensures Outcome(w, Start(old(w.log), old(w.tries)), c, FakedDisorderFor(c, dp, split, seqovlPos),
                    FakedDisorderFits(c, split, seqovlPos), dropped)
    ensures FakesOf(old(w.log), w.log, c.d, Pattern(dp.fsplitPattern, c.reasmOffset, |c.d.payload|))
  {
    ghost var st, plan := Start(w.log, w.tries), FakedDisorderFor(c, dp, split, seqovlPos);
    var n := |c.d.payload|;
    if n > DPI_DESYNC_MAX_FAKE_LEN {
      return false;
    }
    var seqovl := 0;
    var order;
    if split != 0 {
      order := dp.fsOrdering % 4;
      if seqovlPos < split {
        seqovl := seqovlPos;
      }
    } else {
      order := dp.fsOrdering / 8 % 4;
    }
    var pat := FillFakes(c, dp);
    var seg := c.d.payload[split..];
    if seqovl != 0 {
      if n - split + seqovl > PACKET_BUFFER {
        return false;
      }
      seg := OverlapSegment(dp.seqovlPattern, seqovl, c.d.payload, split, n);
    }
    dropped := FakedDisorderSend(w, c, dp, split, seqovl, seg, pat, order, st);
  }

  method FakedDisorderSend(w: Wire, c: Context, dp: Profile, split: nat, seqovl: nat, seg: seq<byte>, pat: seq<byte>,
                           order: nat, ghost st: Start)
    returns (dropped: bool)
    requires Sized(c, dp) && split < |c.d.payload| == |pat| && seqovl <= split
    requires st == Start(w.log, w.tries)
    requires seg == Pattern(dp.seqovlPattern, 0, seqovl) + c.d.payload[split..] && c.realHeaders + |seg| < 0x1_0000
    modifies w
    ensures var plan := FakedDisorderPlan(c.d, pat, split, Pattern(dp.seqovlPattern, 0, seqovl), order, dp.repeats);
            Outcome(w, st, c, plan, FakedDisorderSizes(c, split, seqovl), dropped)
    ensures FakesOf(st.log, w.log, c.d, pat)
  {
    var n := |c.d.payload|;
    if !Fits(c.fakeHeaders, n - split) {
      return false;
    }
    var ok := SendSurrounded(w, c, dp, split, n, Pattern(dp.seqovlPattern, 0, seqovl), seg, pat, order == 0, order <= 1, st);
    if !ok {
      return false;
    }
    if split != 0 {
      ghost var log1 := w.log;
      ok := FakedDisorderTail(w, c, dp, split, pat, order, st);
      FakesOfTransitive(st.log, log1, w.log, c.d, pat);
    }
    return ok;
  }

  /** The first part with its fakes, sent last. */
  method FakedDisorderTail(w: Wire, c: Context, dp: Profile, split: nat, pat: seq<byte>, order: nat, ghost st: Start) returns (ok: bool)
    requires Sized(c, dp) && split < |c.d.payload| == |pat| && Going(w, st, c)
    modifies w
    ensures ok ==> Going(w, st, c) && w.log == old(w.log) + FakedDisorderFirst(c.d, pat, split, order, dp.repeats)
    ensures ok ==> FakeFits(c, split) && RealFits(c, split)
    ensures !ok ==> Bounded(w, st, c) && (!w.Succeeded(st.tries) || !FakeFits(c, split) || !RealFits(c, split))
    ensures FakesOf(old(w.log), w.log, c.d, pat)
  {
    if !Fits(c.fakeHeaders, split) {
      return false;
    }
    ok := SendSurrounded(w, c, dp, 0, split, [], c.d.payload[..split], pat, true, order <= 2, st);
  }

  // ---------- fakedsplit ----------

  function FakedSplitOverlap(c: Context, split: nat, seqovlPos: nat): nat {
    if c.reasmOffset != 0 || |c.d.payload| <= split then 0 else seqovlPos
  }

  /** The position the branch works with: without one the first part is the whole packet. */
  function FakedSplitAt(c: Context, split: nat): nat {
    if split == 0 then |c.d.payload| else split
  }

  ghost function FakedSplitFor(c: Context, dp: Profile, split: nat, seqovlPos: nat): seq<Segment>
    requires Sized(c, dp) && split < |c.d.payload|
  {
    FakedSplitPlan(c.d, Pattern(dp.fsplitPattern, c.reasmOffset, |c.d.payload|), FakedSplitAt(c, split),
                   Pattern(dp.seqovlPattern, 0, FakedSplitOverlap(c, FakedSplitAt(c, split), seqovlPos)),
                   FakedOrder(dp, split != 0), dp.repeats)
  }

  /** Every segment that gets built fits: the fake of the first part is built even when it is not sent. */
  predicate FakedSplitSizes(c: Context, split: nat, seqovl: nat)
    requires split <= |c.d.payload|
  {
    var n := |c.d.payload|;
    && FakeFits(c, split) && RealFits(c, seqovl + split)
    && (split < n ==> FakeFits(c, n - split) && RealFits(c, n - split))
  }

  predicate FakedSplitFits(c: Context, split: nat, seqovlPos: nat)
    requires split < |c.d.payload|
  {
    var at := FakedSplitAt(c, split);
    |c.d.payload| <= DPI_DESYNC_MAX_FAKE_LEN && FakedSplitSizes(c, at, FakedSplitOverlap(c, at, seqovlPos))
  }

  /** split == 0: no split position in this packet. */
  method FakedSplit(w: Wire, c: Context, dp: Profile, split: nat, seqovlPos: nat) returns (dropped: bool)
    requires Sized(c, dp) && split < |c.d.payload|
    modifies w
    ensures Outcome(w, Start(old(w.log), old(w.tries)), c, FakedSplitFor(c, dp, split, seqovlPos),
                    FakedSplitFits(c, split, seqovlPos), dropped)
    ensures FakesOf(old(w.log), w.log, c.d, Pattern(dp.fsplitPattern, c.reasmOffset, |c.d.payload|))
  {
    ghost var st := Start(w.log, w.tries);
    if |c.d.payload| > DPI_DESYNC_MAX_FAKE_LEN {
      return false;
    }
    var pat := FillFakes(c, dp);
    var splitPos, order;
    if split != 0 {
      splitPos, order := split, dp.fsOrdering % 4;
    } else {
      splitPos, order := |c.d.payload|, dp.fsOrdering / 8 % 4;
    }
    dropped := FakedSplitSend(w, c, dp, splitPos, FakedSplitOverlap(c, splitPos, seqovlPos), pat, order, st);
  }

  /** The first part with its fakes. */
  method FakedSplitHead(w: Wire, c: Context, dp: Profile, split: nat, seqovl: nat, pat: seq<byte>, order: nat, ghost st: Start)
    returns (ok: bool)
    requires Sized(c, dp) && split <= |c.d.payload| == |pat| && (seqovl != 0 ==> c.reasmOffset == 0) && Going(w, st, c)
    modifies w
    ensures ok ==> Going(w, st, c) && RealFits(c, seqovl + split)
    ensures ok ==>
      w.log == old(w.log) + FakedSplitFirst(c.d, pat, split, Pattern(dp.seqovlPattern, 0, seqovl), order, dp.repeats)
    ensures !ok ==> Bounded(w, st, c)
    ensures !ok ==> !w.Succeeded(st.tries) || !RealFits(c, seqovl + split)
    ensures FakesOf(old(w.log), w.log, c.d, pat)
  {
    ghost var log0 := w.log;
    ok := FakedSplitReal(w, c, dp, split, seqovl, pat, order, st);
    if ok {
      ghost var log1 := w.log;
      ok := SendFakesWhen(w, c, dp, 0, split, pat, order <= 1, st);
      FakesOfTransitive(log0, log1, w.log, c.d, pat);
    }
  }

  /** The first part, with the fakes before it. */
  method FakedSplitReal(w: Wire, c: Context, dp: Profile, split: nat, seqovl: nat, pat: seq<byte>, order: nat, ghost st: Start)
    returns (ok: bool)
    requires Sized(c, dp) && split <= |c.d.payload| == |pat| && (seqovl != 0 ==> c.reasmOffset == 0) && Going(w, st, c)
    modifies w
    ensures ok ==> Going(w, st, c) && RealFits(c, seqovl + split)
    ensures ok ==>
      w.log == old(w.log) + When(order == 0, Repeat(dp.repeats, FakePart(c.d, pat, 0, split)))
                 + [Part(c.d.th, c.d.payload, 0, split, Pattern(dp.seqovlPattern, 0, seqovl))]
    ensures !ok ==> Bounded(w, st, c)
    ensures !ok ==> !w.Succeeded(st.tries) || !RealFits(c, seqovl + split)
    ensures FakesOf(old(w.log), w.log, c.d, pat)
  {
    ghost var log0 := w.log;
    ok := SendFakesWhen(w, c, dp, 0, split, pat, order == 0, st);
    if ok {
      ghost var log1 := w.log;
      ok := SendPart(w, c, dp, 0, split, seqovl, seqovl != 0, st);
      FakesOfTransitive(log0, log1, w.log, c.d, pat);
    }
  }

  method FakedSplitSend(w: Wire, c: Context, dp: Profile, split: nat, seqovl: nat, pat: seq<byte>, order: nat, ghost st: Start)
    returns (dropped: bool)
    requires Sized(c, dp) && split <= |c.d.payload| == |pat| && (seqovl != 0 ==> c.reasmOffset == 0)
    requires st == Start(w.log, w.tries)
    modifies w
    ensures var plan := FakedSplitPlan(c.d, pat, split, Pattern(dp.seqovlPattern, 0, seqovl), order, dp.repeats);
            Outcome(w, st, c, plan, FakedSplitSizes(c, split, seqovl), dropped)
    ensures FakesOf(st.log, w.log, c.d, pat)
  {
    if !Fits(c.fakeHeaders, split) {
      return false;
    }
    dropped := FakedSplitHead(w, c, dp, split, seqovl, pat, order, st);
    if dropped && split < |c.d.payload| {
      ghost var log1 := w.log;
      dropped := FakedSplitTail(w, c, dp, split, pat, order, st);
      FakesOfTransitive(st.log, log1, w.log, c.d, pat);
    }
  }

  /** The second part with its fakes. */
  method FakedSplitTail(w: Wire, c: Context, dp: Profile, split: nat, pat: seq<byte>, order: nat, ghost st: Start) returns (ok: bool)
    requires Sized(c, dp) && split < |c.d.payload| == |pat| && Going(w, st, c)
    modifies w
    ensures ok ==> Going(w, st, c) && w.log == old(w.log) + FakedSplitSecond(c.d, pat, split, order, dp.repeats)
    ensures ok ==> FakeFits(c, |c.d.payload| - split) && RealFits(c, |c.d.payload| - split)
    ensures !ok ==> Bounded(w, st, c)
    ensures !ok ==> !w.Succeeded(st.tries) || !FakeFits(c, |c.d.payload| - split) || !RealFits(c, |c.d.payload| - split)
    ensures FakesOf(old(w.log), w.log, c.d, pat)
  {
    var n := |c.d.payload|;
    if !Fits(c.fakeHeaders, n - split) {
      return false;
    }
    ok := SendSurrounded(w, c, dp, split, n, [], c.d.payload[split..], pat, true, order <= 2, st);
  }

  // ---------- hostfakesplit ----------

  predicate HostFakeSplitFits(c: Context, host: nat, endhost: nat, mid: nat, fakelen: nat)
    requires host < endhost < |c.d.payload| && (mid != 0 ==> host < mid < endhost)
  {
    && RealFits(c, host) && FakeFits(c, fakelen) && RealFits(c, |c.d.payload| - endhost)
    && if mid == 0 then RealFits(c, endhost - host) else RealFits(c, mid - host) && RealFits(c, endhost - mid)
  }

  /** rawsend of the real bytes payload[from..to] after building the segment. */
  method SendPlain(w: Wire, c: Context, dp: Profile, from: nat, to: nat, ghost st: Start) returns (ok: bool)
    requires Sized(c, dp) && from <= to <= |c.d.payload| && Going(w, st, c)
    modifies w
    ensures ok ==> Going(w, st, c) && RealFits(c, to - from)
    ensures ok ==> w.log == old(w.log) + [Part(c.d.th, c.d.payload, from, to, [])]
    ensures !ok ==> Bounded(w, st, c)
    ensures !ok ==> !w.Succeeded(st.tries) || !RealFits(c, to - from)
    ensures !ok ==> w.log == old(w.log)
  {
    if !Fits(c.realHeaders, to - from) {
      return false;
    }
    ok := SendReal(w, c, from, to, [], c.d.payload[from..to], st);
  }

  /** The real host name, in one part or two. */
  method SendHost(w: Wire, c: Context, dp: Profile, host: nat, endhost: nat, mid: nat, ghost st: Start) returns (ok: bool)
    requires Sized(c, dp) && HostAt(c.d, host, endhost, mid) && Going(w, st, c)
    modifies w
    ensures ok ==> Going(w, st, c) && w.log == old(w.log) + HostParts(c.d, host, endhost, mid)
    ensures ok ==> if mid == 0 then RealFits(c, endhost - host) else RealFits(c, mid - host) && RealFits(c, endhost - mid)
    ensures !ok ==> Bounded(w, st, c)
    ensures !ok && w.Succeeded(st.tries) ==>
      if mid == 0 then !RealFits(c, endhost - host) else !RealFits(c, mid - host) || !RealFits(c, endhost - mid)
  {
    var sz := if mid != 0 then mid - host else endhost - host;
    ok := SendPlain(w, c, dp, host, host + sz, st);
    if ok && mid != 0 {
      ok := SendPlain(w, c, dp, mid, endhost, st);
    }
  }

  /** The fake host name is built with random(): any bytes as long as the real one. */
  /** What comes before the host name, and the first fakes. */
  method SendHostHead(w: Wire, c: Context, dp: Profile, host: nat, fake: Segment, ghost st: Start) returns (ok: bool)
    requires Sized(c, dp) && host <= |c.d.payload| && fake.fake && |fake.payload| <= |c.d.payload| && Going(w, st, c)
    modifies w
    ensures ok ==> Going(w, st, c) && RealFits(c, host) && FakeFits(c, |fake.payload|)
    ensures ok ==> w.log == old(w.log) + ([Part(c.d.th, c.d.payload, 0, host, [])] + Repeat(dp.repeats, fake))
    ensures !ok ==> Bounded(w, st, c)
    ensures !ok && w.Succeeded(st.tries) ==> !RealFits(c, host) || !FakeFits(c, |fake.payload|)
  {
    ok := SendPlain(w, c, dp, 0, host, st);
    if ok {
      if !Fits(c.fakeHeaders, |fake.payload|) {
        return false;
      }
      ok := SendFakes(w, c, dp.repeats, fake, st);
    }
  }

  /** The second fakes and what comes behind the host name. */
  method SendHostTail(w: Wire, c: Context, dp: Profile, endhost: nat, fake: Segment, ghost st: Start) returns (ok: bool)
    requires endhost <= |c.d.payload| && fake.fake && Going(w, st, c)
    modifies w
    ensures if ok then Going(w, st, c) else Failed(w, st, c)
    ensures ok ==>
      w.log == old(w.log) + (Repeat(dp.repeats, fake) + [Part(c.d.th, c.d.payload, endhost, |c.d.payload|, [])])
  {
    ok := SendFakes(w, c, dp.repeats, fake, st);
    if ok {
      ok := SendReal(w, c, endhost, |c.d.payload|, [], c.d.payload[endhost..], st);
    }
  }

  method HostFakeSplit(w: Wire, c: Context, dp: Profile, host: nat, endhost: nat, mid: nat, fakehost: seq<byte>)
    returns (dropped: bool)
    requires Sized(c, dp) && HostAt(c.d, host, endhost, mid) && |fakehost| == endhost - host
    modifies w
    ensures Outcome(w, Start(old(w.log), old(w.tries)), c,
                    HostFakeSplitPlan(c.d, host, endhost, mid, fakehost, dp.hfsOrdering, dp.repeats),
                    HostFakeSplitFits(c, host, endhost, mid, |fakehost|), dropped)
  {
    ghost var st := Start(w.log, w.tries);
    var n := |c.d.payload|;
    var fake := Segment(Net32Add(c.d.th, host), fakehost, true);
    var ok := SendHostHead(w, c, dp, host, fake, st);
    if !ok || !Fits(c.realHeaders, n - endhost) {
      return false;
    }
    if dp.hfsOrdering == 1 {
      ok := SendReal(w, c, endhost, n, [], c.d.payload[endhost..], st);
      if !ok {
        return false;
      }
    }
    ok := SendHost(w, c, dp, host, endhost, mid, st);
    if !ok {
      return false;
    }
    if dp.hfsOrdering == 0 {
      ok := SendHostTail(w, c, dp, endhost, fake, st);
    }
    return ok;
  }
}
