/** dpi_desync_tcp_packet_play of nfq/desync.c from the point where the split positions are known: first stage,
    second stage, and the fate of the original packet.
 */
module TcpPlay {
  import opened Bytes
  import opened FillPattern
  import opened TcpStream
  import opened TcpPlans
  import opened TcpShapes
  import opened TcpDesync

  datatype Verdict = Pass | Modify | Drop

  /** cuts for multisplit and multidisorder, split for the faked modes, host, endhost and mid for hostfakesplit;
      no cuts, split == 0 and host == 0 mean that there is nothing to split at in this packet. */
  datatype Positions = Positions(cuts: seq<nat>, split: nat, seqovl: nat, host: nat, endhost: nat, mid: nat)

  ghost predicate Usable(c: Context, p: Positions, fakehost: seq<byte>) {
    && SplitsOf(p.cuts, |c.d.payload|) && p.split < |c.d.payload|
    && (p.host != 0 ==> HostAt(c.d, p.host, p.endhost, p.mid) && |fakehost| == p.endhost - p.host)
  }

  function Original(d: Dissect): Segment {
    Segment(d.th, d.payload, false)
  }

  // ---------- first stage ----------

  /** The fakes put on the wire in between all follow the pattern of the stream. */
  ghost predicate PatternFakes(log0: seq<Segment>, log1: seq<Segment>, c: Context, dp: Profile)
    requires dp.fsplitPattern != []
  {
    log0 <= log1 && forall i :: |log0| <= i < |log1| && log1[i].fake ==> FollowsPattern(log1[i], c.d, dp.fsplitPattern, c.reasmOffset)
  }

  lemma PatternFakesTransitive(log0: seq<Segment>, log1: seq<Segment>, log2: seq<Segment>, c: Context, dp: Profile)
    requires dp.fsplitPattern != [] && PatternFakes(log0, log1, c, dp) && PatternFakes(log1, log2, c, dp)
    ensures PatternFakes(log0, log2, c, dp)
  {
    assert log1 == log2[..|log1|];
  }

  lemma CutsArePatternFakes(log0: seq<Segment>, log1: seq<Segment>, c: Context, dp: Profile)
    requires dp.fsplitPattern != [] && FakesOf(log0, log1, c.d, Pattern(dp.fsplitPattern, c.reasmOffset, |c.d.payload|))
    ensures PatternFakes(log0, log1, c, dp)
  {
    forall i | |log0| <= i < |log1| && log1[i].fake
      ensures FollowsPattern(log1[i], c.d, dp.fsplitPattern, c.reasmOffset)
    {
      CutFollowsPattern(log1[i], c.d, dp.fsplitPattern, c.reasmOffset);
    }
  }

  /** The first stage sends no fakes of its own for this packet. */
  predicate Silent(c: Context, dp: Profile) {
    !(dp.mode.ModeFake? || dp.mode.ModeFakeKnown? || dp.mode.ModeRst?) || c.reasmOffset != 0
  }

  /** The packet is played with fakedsplit or fakeddisorder, and nothing else adds fakes or duplicates. */
  predicate OnlyFaked(c: Context, dp: Profile) {
    (ModeUsed(dp).ModeFakedSplit? || ModeUsed(dp).ModeFakedDisorder?) && Silent(c, dp) && !(dp.dupRepeats != 0 && c.dupInterval)
  }

  /** Go on (having sent fakes or not), give up, or be done. */
  datatype Stage = Go(sentFakes: bool) | GiveUp | Final

  function TotalLength(fakes: seq<seq<byte>>): nat {
    if fakes == [] then 0 else TotalLength(fakes[..|fakes| - 1]) + |fakes[|fakes| - 1]|
  }

  /** Fake i of the list: at the packet's own number, or, with tcp_mod.seq, behind the fakes before it. */
  function FakeAt(dp: Profile, th: nat, i: nat): Segment
    requires i < |dp.fakes|
  {
    Segment(if dp.tcpModSeq then Net32Add(th, TotalLength(dp.fakes[..i])) else th, dp.fakes[i], true)
  }

  ghost function FakeTrain(dp: Profile, th: nat, n: nat): seq<Segment>
    requires n <= |dp.fakes|
  {
    if n == 0 then [] else FakeTrain(dp, th, n - 1) + Repeat(dp.repeats, FakeAt(dp, th, n - 1))
  }

  lemma NextFake(dp: Profile, th: nat, i: nat)
    requires i < |dp.fakes|
    ensures Net32Add(Net32Add(th, TotalLength(dp.fakes[..i])), |dp.fakes[i]|) == Net32Add(th, TotalLength(dp.fakes[..i + 1]))
  {
    assert dp.fakes[..i + 1][..i] == dp.fakes[..i];
    AddTwice(th, TotalLength(dp.fakes[..i]), |dp.fakes[i]|);
  }

  lemma AddTwice(th: nat, a: nat, b: nat)
    ensures Net32Add(Net32Add(th, a), b) == Net32Add(th, a + b)
  {
    var x, y := th + a, b;
    var q := x / SEQ_SPACE;
    var r := (x % SEQ_SPACE + y) / SEQ_SPACE;
    ModOf(x + y, q + r, (x % SEQ_SPACE + y) % SEQ_SPACE);
  }

  /** The list of fakes, one after another in sequence space if tcp_mod.seq is set. */
  method SendFakeList(w: Wire, c: Context, dp: Profile, ghost st: Start) returns (ok: bool)
    requires Sized(c, dp) && Going(w, st, c)
    modifies w
    ensures ok ==> Going(w, st, c) && w.log == old(w.log) + FakeTrain(dp, c.d.th, |dp.fakes|)
    ensures Bounded(w, st, c)
    ensures !ok ==> !w.Succeeded(st.tries) || !FakesFit(c, dp)
  {
    var sequence := c.d.th;
    var i := 0;
    while i < |dp.fakes|
      invariant i <= |dp.fakes| && Going(w, st, c)
      invariant sequence == if dp.tcpModSeq then Net32Add(c.d.th, TotalLength(dp.fakes[..i])) else c.d.th
      invariant w.log == old(w.log) + FakeTrain(dp, c.d.th, i)
    {
      if !Fits(c.fakeHeaders, |dp.fakes[i]|) {
        return false;
      }
      ok := SendFakes(w, c, dp.repeats, Segment(sequence, dp.fakes[i], true), st);
      if !ok {
        return false;
      }
      NextFake(dp, c.d.th, i);
      if dp.tcpModSeq {
        sequence := Net32Add(sequence, |dp.fakes[i]|);
      }
      i := i + 1;
    }
    return true;
  }

  predicate FakesFit(c: Context, dp: Profile) {
    forall k :: 0 <= k < |dp.fakes| ==> FakeFits(c, |dp.fakes[k]|)
  }

  /** What the first stage puts on the wire ahead of the packet. */
  ghost function FirstFakes(c: Context, dp: Profile): seq<Segment> {
    match dp.mode
    case ModeFake => if c.reasmOffset != 0 then [] else FakeTrain(dp, c.d.th, |dp.fakes|)
    case ModeFakeKnown => if c.reasmOffset != 0 || !c.known then [] else FakeTrain(dp, c.d.th, |dp.fakes|)
    case ModeRst => if c.reasmOffset != 0 then [] else Repeat(dp.repeats, Segment(c.d.th, [], true))
    case _ => []
  }

  /** Everything the first stage wants to send fits the packet buffer. */
  ghost predicate FirstFits(c: Context, dp: Profile) {
    FakesFit(c, dp) && FakeFits(c, 0) && RealFits(c, |c.d.payload|)
  }

  /** hopbyhop, destopt and ipfrag1 end with the first stage when there is nothing to split. */
  predicate EndsFirst(c: Context, dp: Profile, p: Positions) {
    dp.mode.ModeExtHeader? && c.ipv6 && NothingToSplit(dp.mode2, p)
  }

  function ValidSecondStage(m: Mode): bool {
    m.ModeNone? || m.ModeFakedDisorder? || m.ModeFakedSplit? || m.ModeMultiSplit? || m.ModeMultiDisorder? || m.ModeHostFakeSplit?
    || m.ModeIpFrag2?
  }

  /** The second stage has nothing to do for this packet. */
  function NothingToSplit(m: Mode, p: Positions): bool {
    || m.ModeNone? || !ValidSecondStage(m)
    || (p.split == 0 && (m.ModeFakedSplit? || m.ModeFakedDisorder?))
    || (p.host == 0 && m.ModeHostFakeSplit?)
    || (p.cuts == [] && (m.ModeMultiSplit? || m.ModeMultiDisorder?))
  }

  method FirstStage(w: Wire, c: Context, dp: Profile, p: Positions, ghost st: Start) returns (r: Stage)
    requires Sized(c, dp) && Going(w, st, c) && st.log == w.log
    modifies w
    ensures Bounded(w, st, c)
    ensures r.Go? ==> Going(w, st, c) && w.log == st.log + FirstFakes(c, dp) && !EndsFirst(c, dp, p)
    ensures r.GiveUp? ==> !w.Succeeded(st.tries) || !FirstFits(c, dp)
    ensures r.Final? ==> w.log == st.log + [Original(c.d)] && EndsFirst(c, dp, p)
    ensures dp.mode.ModeMultiSplit? ==> r == Go(false) && w.log == st.log && w.tries == old(w.tries)
    ensures Silent(c, dp) ==> PatternFakes(st.log, w.log, c, dp) && !(r.Go? && r.sentFakes)
  {
    match dp.mode
    case ModeFake | ModeFakeKnown =>
      if c.reasmOffset != 0 || (dp.mode.ModeFakeKnown? && !c.known) {
        return Go(false);
      }
      var ok := SendFakeList(w, c, dp, st);
      return if ok then Go(true) else GiveUp;
    case ModeRst =>
      if c.reasmOffset != 0 {
        return Go(false);
      }
      if !Fits(c.fakeHeaders, 0) {
        return GiveUp;
      }
      var ok := SendFakes(w, c, dp.repeats, Segment(c.d.th, [], true), st);
      return if ok then Go(true) else GiveUp;
    case ModeExtHeader =>
      if c.ipv6 && NothingToSplit(dp.mode2, p) {
        var ok := SendPlain(w, c, dp, 0, |c.d.payload|, st);
        assert Part(c.d.th, c.d.payload, 0, |c.d.payload|, []) == Original(c.d);
        return if ok then Final else GiveUp;
      }
      return Go(false);
    case _ =>
      return Go(false);
  }

  // ---------- the original packet ----------

  /** tcp_orig_send: duplicates first, then the original unless dup_replace; true when nothing is left to send.
      Duplicates count as fakes here: nothing relies on their arrival. */
  method TcpOrigSend(w: Wire, c: Context, dp: Profile, force: bool, ghost st: Start) returns (sent: bool)
    requires Bounded(w, st, c)
    modifies w
    ensures Bounded(w, st, c)
    ensures sent && !Replaced(c, dp) ==> EndsWithOriginal(st, w, c)
    ensures !force && !(dp.dupRepeats != 0 && c.dupInterval) ==> w.log == old(w.log) && w.tries == old(w.tries)
    ensures sent ==> force || (dp.dupRepeats != 0 && c.dupInterval)
    ensures !(dp.dupRepeats != 0 && c.dupInterval) ==> w.log == if sent then old(w.log) + [Original(c.d)] else old(w.log)
    ensures w.Succeeded(st.tries) ==> old(w.Succeeded(st.tries))
  {
    if dp.dupRepeats != 0 || force {
      if dp.dupRepeats != 0 && c.dupInterval {
        if c.dupRebuild && !Fits(c.dupHeaders, |c.d.payload|) {
          return false;
        }
        var ok := w.RawSendRep(dp.dupRepeats, Segment(c.d.th, c.d.payload, true));
        if !ok {
          return false;
        }
        if !dp.dupReplace {
          sent := w.RawSend(Original(c.d));
          return;
        }
        return true;
      }
      if force {
        sent := w.RawSend(Original(c.d));
        return;
      }
    }
    return false;
  }

  /** dup_replace is set and duplicates are due: the one configuration in which the original is held back. */
  predicate Replaced(c: Context, dp: Profile) {
    dp.dupReplace && dp.dupRepeats != 0 && c.dupInterval
  }

  /** The packet goes out as fragments that no receiver can put together. */
  predicate Unassembled(c: Context, dp: Profile) {
    ModeUsed(dp).ModeIpFrag2? && c.reasmOffset == 0 && !c.frags.assemble
  }

  predicate MayLose(c: Context, dp: Profile) {
    Replaced(c, dp) || Unassembled(c, dp)
  }

  ghost predicate EndsWithOriginal(st: Start, w: Wire, c: Context)
    reads w
  {
    && |w.log| > 0 && w.log[|w.log| - 1] == Original(c.d)
    && Within(st.log, w.log[..|w.log| - 1], c)
  }

  /** send_orig: with the verdict the system itself sends the packet unless it is Drop. */
  method SendOrig(w: Wire, c: Context, dp: Profile, verdict: Verdict, force: bool, ghost st: Start) returns (r: Verdict)
    requires verdict != Drop && Bounded(w, st, c)
    modifies w
    ensures !Replaced(c, dp) ==> Rebuilds(st.log, Delivered(w, c, r), c.d.th, c.d.payload)
    ensures Within(st.log, Delivered(w, c, r), c) && st.tries <= w.tries && st.log <= w.log
    ensures r == verdict || r == Drop
    ensures !force && !(dp.dupRepeats != 0 && c.dupInterval) ==> r == verdict && w.log == old(w.log) && w.tries == old(w.tries)
    ensures !(dp.dupRepeats != 0 && c.dupInterval) ==> Delivered(w, c, r) == old(w.log) + [Original(c.d)]
    ensures w.Succeeded(st.tries) ==> old(w.Succeeded(st.tries))
  {
    var sent := TcpOrigSend(w, c, dp, force, st);
    if sent {
      if !Replaced(c, dp) {
        OriginalRebuilds(st.log, w.log[..|w.log| - 1], c.d.th, Slack(c), c.d.payload);
        assert w.log == w.log[..|w.log| - 1] + [Original(c.d)];
      }
      return Drop;
    }
    OriginalRebuilds(st.log, w.log, c.d.th, Slack(c), c.d.payload);
    return verdict;
  }

  /** Everything that reaches the wire, including the original when the verdict lets it pass. */
  function Delivered(w: Wire, c: Context, verdict: Verdict): seq<Segment>
    reads w
  {
    if verdict == Drop then w.log else w.log + [Original(c.d)]
  }

  // ---------- second stage ----------

  /** Segments within the packet first, then something that rebuilds it: the whole rebuilds it. */
  lemma RebuildsAfter(before: seq<Segment>, mid: seq<Segment>, after: seq<Segment>, th: nat, lo: nat, payload: seq<byte>)
    requires StaysWithin(before, mid, th, lo, |payload|) && Rebuilds(mid, after, th, payload)
    ensures Rebuilds(before, after, th, payload)
  {
    var a, b := mid[|before|..], after[|mid|..];
    assert after[|before|..] == a + b;
    forall i: nat
      ensures LastIs(Copies(a + b, th, i), payload, i)
    {
      CopiesConcat(a, b, th, i);
      if |payload| <= i {
        WithinCopies(a, th, lo, |payload|, i);
      }
    }
  }

  /** Whether the second stage has a position to work at in this packet; the faked modes do without. */
  predicate HasPosition(c: Context, dp: Profile, p: Positions) {
    match ModeUsed(dp)
    case ModeHostFakeSplit => p.host != 0
    case ModeMultiSplit => p.cuts != []
    case ModeMultiDisorder => p.cuts != []
    case ModeIpFrag2 => c.reasmOffset == 0
    case _ => true
  }

  /** Everything the second stage wants to build fits the packet buffer; no mode but these seven has anything to build. */
  ghost predicate Room(c: Context, dp: Profile, p: Positions, fakehost: seq<byte>)
    requires Sized(c, dp) && Usable(c, p, fakehost) && HasPosition(c, dp, p)
  {
    match ModeUsed(dp)
    case ModeHostFakeSplit => HostFakeSplitFits(c, p.host, p.endhost, p.mid, |fakehost|)
    case ModeMultiSplit => Sendable(c, MultiSplitPlan(c.d, p.cuts, MultiSplitFiller(c, dp, p.seqovl)))
    case ModeMultiDisorder => Sendable(c, MultiDisorderPlan(c.d, p.cuts, MultiDisorderFiller(dp, p.cuts, p.seqovl)))
    case ModeFakedDisorder => FakedDisorderFits(c, p.split, p.seqovl)
    case ModeFakedSplit => FakedSplitFits(c, p.split, p.seqovl)
    case ModeIpFrag2 => c.frags.fit
    case _ => false
  }

  /** The segments of the second stage, by what the mode is named after. */
  ghost predicate Shaped(segs: seq<Segment>, c: Context, dp: Profile, p: Positions, fakehost: seq<byte>)
    requires Sized(c, dp) && Usable(c, p, fakehost) && HasPosition(c, dp, p)
  {
    var ovl := p.seqovl;
    match ModeUsed(dp)
    case ModeMultiSplit =>
      InOrder(segs, c.d, p.cuts, if c.reasmOffset == 0 then ovl else 0, dp.seqovlPattern)
    case ModeMultiDisorder =>
      InReverse(segs, c.d, p.cuts, if ovl < p.cuts[0] then ovl else 0, dp.seqovlPattern)
    case ModeFakedDisorder =>
      if p.split == 0 then Whole(segs, c.d, dp.seqovlPattern, dp.fsOrdering / 8 % 4, dp.repeats)
      else SecondFirst(segs, c.d, p.split, if ovl < p.split then ovl else 0, dp.seqovlPattern, dp.fsOrdering % 4, dp.repeats)
    case ModeFakedSplit =>
      if p.split == 0 then Whole(segs, c.d, dp.seqovlPattern, dp.fsOrdering / 8 % 4, dp.repeats)
      else FirstFirst(segs, c.d, p.split, if c.reasmOffset == 0 then ovl else 0, dp.seqovlPattern, dp.fsOrdering % 4, dp.repeats)
    case ModeHostFakeSplit =>
      HostFaked(segs, c.d, p.host, p.endhost, p.mid, fakehost, dp.hfsOrdering, dp.repeats, dp.seqovlPattern)
    case ModeIpFrag2 =>
      segs == if c.frags.assemble then [Original(c.d)] else []
    case _ => false
  }

  /** Result of the second stage: taken over by the branch, given up, or nothing to split at. */
  datatype Branch = Dropped | GaveUp | Unsplitted

  /** The filler of a multisplit packet. */
  function MultiSplitFiller(c: Context, dp: Profile, seqovl: nat): seq<byte>
    requires dp.seqovlPattern != []
  {
    Pattern(dp.seqovlPattern, 0, MultiSplitOverlap(c, seqovl))
  }

  /** The filler of a multidisorder packet. */
  function MultiDisorderFiller(dp: Profile, cuts: seq<nat>, seqovl: nat): seq<byte>
    requires dp.seqovlPattern != [] && cuts != []
  {
    Pattern(dp.seqovlPattern, 0, MultiDisorderOverlap(cuts, seqovl))
  }

  method TryMultiSplit(w: Wire, c: Context, dp: Profile, cuts: seq<nat>, seqovl: nat) returns (dropped: bool)
    requires Sized(c, dp) && SplitsOf(cuts, |c.d.payload|) && cuts != []
    modifies w
    ensures Bounded(w, Start(old(w.log), old(w.tries)), c)
    ensures dropped ==> Rebuilds(old(w.log), w.log, c.d.th, c.d.payload)
    ensures dropped ==> w.log == old(w.log) + MultiSplitPlan(c.d, cuts, MultiSplitFiller(c, dp, seqovl))
    ensures dropped <==> Sendable(c, MultiSplitPlan(c.d, cuts, MultiSplitFiller(c, dp, seqovl))) && w.Succeeded(old(w.tries))
    ensures dropped ==>
      InOrder(w.log[|old(w.log)|..], c.d, cuts, if c.reasmOffset == 0 then seqovl else 0, dp.seqovlPattern)
  {
    ghost var log0 := w.log;
    dropped := MultiSplit(w, c, dp, cuts, seqovl);
    if dropped {
      FillerFits(c, cuts, MultiSplitFiller(c, dp, seqovl));
      MultiSplitIsInOrder(c.d, cuts, MultiSplitOverlap(c, seqovl), dp.seqovlPattern);
      assert w.log[|log0|..] == MultiSplitPlan(c.d, cuts, MultiSplitFiller(c, dp, seqovl));
      MultiSplitRebuilds(c.d, cuts, MultiSplitFiller(c, dp, seqovl), log0);
    }
  }

  lemma FillerFits(c: Context, cuts: seq<nat>, filler: seq<byte>)
    requires SplitsOf(cuts, |c.d.payload|) && Sendable(c, MultiSplitPlan(c.d, cuts, filler))
    ensures |filler| <= HALF_SPACE
  {
    var s := MultiSplitPlan(c.d, cuts, filler)[0];
    assert s == MultiSplitPart(c.d, cuts, filler, 0) && |s.payload| >= |filler|;
    assert s in MultiSplitPlan(c.d, cuts, filler);
  }

  method TryMultiDisorder(w: Wire, c: Context, dp: Profile, cuts: seq<nat>, seqovl: nat) returns (dropped: bool)
    requires Sized(c, dp) && SplitsOf(cuts, |c.d.payload|) && cuts != []
    modifies w
    ensures Bounded(w, Start(old(w.log), old(w.tries)), c)
    ensures dropped ==> Rebuilds(old(w.log), w.log, c.d.th, c.d.payload)
    ensures dropped <==> Sendable(c, MultiDisorderPlan(c.d, cuts, MultiDisorderFiller(dp, cuts, seqovl))) && w.Succeeded(old(w.tries))
    ensures dropped ==> old(w.log) <= w.log
    ensures dropped ==>
      InReverse(w.log[|old(w.log)|..], c.d, cuts, if seqovl < cuts[0] then seqovl else 0, dp.seqovlPattern)
  {
    ghost var log0 := w.log;
    dropped := MultiDisorder(w, c, dp, cuts, seqovl);
    MultiDisorderRebuilds(c.d, cuts, MultiDisorderFiller(dp, cuts, seqovl), log0);
    if dropped {
      MultiDisorderIsInReverse(c.d, cuts, MultiDisorderOverlap(cuts, seqovl), dp.seqovlPattern);
      assert w.log[|log0|..] == MultiDisorderPlan(c.d, cuts, MultiDisorderFiller(dp, cuts, seqovl));
    }
  }

  method TryFakedDisorder(w: Wire, c: Context, dp: Profile, split: nat, seqovl: nat) returns (dropped: bool)
    requires Sized(c, dp) && split < |c.d.payload|
    modifies w
    ensures Bounded(w, Start(old(w.log), old(w.tries)), c) && PatternFakes(old(w.log), w.log, c, dp)
    ensures dropped ==> Rebuilds(old(w.log), w.log, c.d.th, c.d.payload)
    ensures dropped <==> FakedDisorderFits(c, split, seqovl) && w.Succeeded(old(w.tries))
    ensures dropped && split == 0 ==>
      Whole(w.log[|old(w.log)|..], c.d, dp.seqovlPattern, dp.fsOrdering / 8 % 4, dp.repeats)
    ensures dropped && split != 0 ==>
      SecondFirst(w.log[|old(w.log)|..], c.d, split, if seqovl < split then seqovl else 0, dp.seqovlPattern, dp.fsOrdering % 4,
                  dp.repeats)
  {
    ghost var log0 := w.log;
    dropped := FakedDisorder(w, c, dp, split, seqovl);
    CutsArePatternFakes(log0, w.log, c, dp);
    FakedDisorderPlanned(w, c, dp, split, seqovl, log0, dropped);
  }

  /** What the plan of fakeddisorder on the wire comes to. */
  lemma FakedDisorderPlanned(w: Wire, c: Context, dp: Profile, split: nat, seqovl: nat, log0: seq<Segment>, dropped: bool)
    requires Sized(c, dp) && split < |c.d.payload|
    requires dropped ==> w.log == log0 + FakedDisorderFor(c, dp, split, seqovl) && FakedDisorderFits(c, split, seqovl)
    ensures dropped ==> Rebuilds(log0, w.log, c.d.th, c.d.payload)
    ensures dropped && split == 0 ==>
      Whole(w.log[|log0|..], c.d, dp.seqovlPattern, FakedOrder(dp, split != 0), dp.repeats)
    ensures dropped && split != 0 ==>
      SecondFirst(w.log[|log0|..], c.d, split, FakedDisorderOverlap(split, seqovl), dp.seqovlPattern, FakedOrder(dp, split != 0),
                  dp.repeats)
  {
    if dropped {
      var ovl := FakedDisorderOverlap(split, seqovl);
      var pat := Pattern(dp.fsplitPattern, c.reasmOffset, |c.d.payload|);
      FakedDisorderRebuilds(c.d, pat, split, Pattern(dp.seqovlPattern, 0, ovl), FakedOrder(dp, split != 0), dp.repeats, log0);
      FakedDisorderIsSecondFirst(c.d, pat, split, ovl, dp.seqovlPattern, FakedOrder(dp, split != 0), dp.repeats);
      assert w.log[|log0|..] == FakedDisorderFor(c, dp, split, seqovl);
    }
  }

  method TryFakedSplit(w: Wire, c: Context, dp: Profile, split: nat, seqovl: nat) returns (dropped: bool)
    requires Sized(c, dp) && split < |c.d.payload|
    modifies w
    ensures Bounded(w, Start(old(w.log), old(w.tries)), c) && PatternFakes(old(w.log), w.log, c, dp)
    ensures dropped ==> Rebuilds(old(w.log), w.log, c.d.th, c.d.payload)
    ensures dropped <==> FakedSplitFits(c, split, seqovl) && w.Succeeded(old(w.tries))
    ensures dropped && split == 0 ==>
      Whole(w.log[|old(w.log)|..], c.d, dp.seqovlPattern, dp.fsOrdering / 8 % 4, dp.repeats)
    ensures dropped && split != 0 ==>
      FirstFirst(w.log[|old(w.log)|..], c.d, split, if c.reasmOffset == 0 then seqovl else 0, dp.seqovlPattern,
                 dp.fsOrdering % 4, dp.repeats)
  {
    ghost var log0 := w.log;
    dropped := FakedSplit(w, c, dp, split, seqovl);
    CutsArePatternFakes(log0, w.log, c, dp);
    FakedSplitPlanned(w, c, dp, split, seqovl, log0, dropped);
  }

  /** What the plan of fakedsplit on the wire comes to. */
  lemma FakedSplitPlanned(w: Wire, c: Context, dp: Profile, split: nat, seqovl: nat, log0: seq<Segment>, dropped: bool)
    requires Sized(c, dp) && split < |c.d.payload|
    requires dropped ==> w.log == log0 + FakedSplitFor(c, dp, split, seqovl) && FakedSplitFits(c, split, seqovl)
    ensures dropped ==> Rebuilds(log0, w.log, c.d.th, c.d.payload)
    ensures dropped && split == 0 ==>
      Whole(w.log[|log0|..], c.d, dp.seqovlPattern, FakedOrder(dp, split != 0), dp.repeats)
    ensures dropped && split != 0 ==>
      FirstFirst(w.log[|log0|..], c.d, split, FakedSplitOverlap(c, split, seqovl), dp.seqovlPattern, FakedOrder(dp, split != 0),
                 dp.repeats)
  {
    if dropped {
      var at := FakedSplitAt(c, split);
      var ovl := FakedSplitOverlap(c, at, seqovl);
      var pat := Pattern(dp.fsplitPattern, c.reasmOffset, |c.d.payload|);
      FakedSplitRebuilds(c.d, pat, at, Pattern(dp.seqovlPattern, 0, ovl), FakedOrder(dp, split != 0), dp.repeats, log0);
      FakedSplitIsFirstFirst(c.d, pat, at, ovl, dp.seqovlPattern, FakedOrder(dp, split != 0), dp.repeats);
      assert w.log[|log0|..] == FakedSplitFor(c, dp, split, seqovl);
    }
  }

  method TryHostFakeSplit(w: Wire, c: Context, dp: Profile, p: Positions, fakehost: seq<byte>) returns (dropped: bool)
    requires Sized(c, dp) && Usable(c, p, fakehost) && p.host != 0
    modifies w
    ensures Bounded(w, Start(old(w.log), old(w.tries)), c)
    ensures dropped ==> Rebuilds(old(w.log), w.log, c.d.th, c.d.payload)
    ensures dropped <==> HostFakeSplitFits(c, p.host, p.endhost, p.mid, |fakehost|) && w.Succeeded(old(w.tries))
    ensures dropped ==> old(w.log) <= w.log
    ensures dropped ==>
      HostFaked(w.log[|old(w.log)|..], c.d, p.host, p.endhost, p.mid, fakehost, dp.hfsOrdering, dp.repeats, dp.seqovlPattern)
  {
    ghost var log0 := w.log;
    dropped := HostFakeSplit(w, c, dp, p.host, p.endhost, p.mid, fakehost);
    HostFakeSplitRebuilds(c.d, p.host, p.endhost, p.mid, fakehost, dp.hfsOrdering, dp.repeats, log0);
    if dropped {
      HostFakeSplitIsHostFaked(c.d, p.host, p.endhost, p.mid, fakehost, dp.hfsOrdering, dp.repeats, dp.seqovlPattern);
      assert w.log[|log0|..] == HostFakeSplitPlan(c.d, p.host, p.endhost, p.mid, fakehost, dp.hfsOrdering, dp.repeats);
    }
  }

  /** ipfrag2: the packet in two IP fragments.  The receiver has the segment once it has both, if they fit together at all. */
  method IpFrag2(w: Wire, c: Context, ghost st: Start) returns (dropped: bool)
    requires Going(w, st, c)
    modifies w
    ensures Bounded(w, st, c)
    ensures dropped <==> c.frags.fit && w.Succeeded(st.tries)
    ensures w.log == if dropped && c.frags.assemble then old(w.log) + [Original(c.d)] else old(w.log)
    ensures dropped && c.frags.assemble ==> Rebuilds(old(w.log), w.log, c.d.th, c.d.payload)
  {
    if !c.frags.fit {
      return false;
    }
    var ok := w.RawSendPart();
    if !ok {
      return false;
    }
    OriginalRebuilds(w.log, w.log, c.d.th, Slack(c), c.d.payload);
    if c.frags.assemble {
      dropped := w.RawSend(Original(c.d));
    } else {
      dropped := w.RawSendPart();
    }
  }

  /** The modes that cut the packet at its split positions and send nothing else. */
  method SplitBranch(w: Wire, c: Context, dp: Profile, p: Positions, ghost fakehost: seq<byte>) returns (dropped: bool)
    requires Sized(c, dp) && Usable(c, p, fakehost) && p.cuts != []
    requires ModeUsed(dp).ModeMultiSplit? || ModeUsed(dp).ModeMultiDisorder?
    modifies w
    ensures Bounded(w, Start(old(w.log), old(w.tries)), c)
    ensures dropped ==> Rebuilds(old(w.log), w.log, c.d.th, c.d.payload)
    ensures dropped <==> Room(c, dp, p, fakehost) && w.Succeeded(old(w.tries))
    ensures dropped ==> Shaped(w.log[|old(w.log)|..], c, dp, p, fakehost)
    ensures ModeUsed(dp).ModeMultiSplit? && dropped ==>
      w.log == old(w.log) + MultiSplitPlan(c.d, p.cuts, MultiSplitFiller(c, dp, p.seqovl))
  {
    if ModeUsed(dp).ModeMultiSplit? {
      dropped := TryMultiSplit(w, c, dp, p.cuts, p.seqovl);
    } else {
      dropped := TryMultiDisorder(w, c, dp, p.cuts, p.seqovl);
    }
  }

  /** The modes that put fakes around the parts. */
  method FakedBranch(w: Wire, c: Context, dp: Profile, p: Positions, ghost fakehost: seq<byte>) returns (dropped: bool)
    requires Sized(c, dp) && Usable(c, p, fakehost)
    requires ModeUsed(dp).ModeFakedSplit? || ModeUsed(dp).ModeFakedDisorder?
    modifies w
    ensures Bounded(w, Start(old(w.log), old(w.tries)), c) && PatternFakes(old(w.log), w.log, c, dp)
    ensures dropped ==> Rebuilds(old(w.log), w.log, c.d.th, c.d.payload)
    ensures dropped <==> Room(c, dp, p, fakehost) && w.Succeeded(old(w.tries))
    ensures dropped ==> Shaped(w.log[|old(w.log)|..], c, dp, p, fakehost)
  {
    if ModeUsed(dp).ModeFakedDisorder? {
      dropped := TryFakedDisorder(w, c, dp, p.split, p.seqovl);
    } else {
      dropped := TryFakedSplit(w, c, dp, p.split, p.seqovl);
    }
  }

  method SecondStage(w: Wire, c: Context, dp: Profile, p: Positions, fakehost: seq<byte>) returns (r: Branch)
    requires Sized(c, dp) && Usable(c, p, fakehost)
    modifies w
    ensures Bounded(w, Start(old(w.log), old(w.tries)), c)
    ensures r == Dropped && !Unassembled(c, dp) ==> Rebuilds(old(w.log), w.log, c.d.th, c.d.payload)
    ensures r == Unsplitted || Idle(dp) ==> r != Dropped && w.log == old(w.log)
    ensures ModeUsed(dp).ModeFakedSplit? || ModeUsed(dp).ModeFakedDisorder? ==> PatternFakes(old(w.log), w.log, c, dp)
    ensures r == Unsplitted <==> !HasPosition(c, dp, p)
    ensures HasPosition(c, dp, p) ==> (r == Dropped <==> Room(c, dp, p, fakehost) && w.Succeeded(old(w.tries)))
    ensures r == Dropped ==> old(w.log) <= w.log && Shaped(w.log[|old(w.log)|..], c, dp, p, fakehost)
    ensures ModeUsed(dp).ModeMultiSplit? && r == Dropped ==>
      w.log == old(w.log) + MultiSplitPlan(c.d, p.cuts, MultiSplitFiller(c, dp, p.seqovl))
  {
    var dropped := false;
    match ModeUsed(dp) {
    case ModeHostFakeSplit =>
      if p.host == 0 {
        return Unsplitted;
      }
      dropped := TryHostFakeSplit(w, c, dp, p, fakehost);
    case ModeMultiSplit | ModeMultiDisorder =>
      if p.cuts == [] {
        return Unsplitted;
      }
      dropped := SplitBranch(w, c, dp, p, fakehost);
    case ModeFakedDisorder | ModeFakedSplit =>
      dropped := FakedBranch(w, c, dp, p, fakehost);
    case ModeIpFrag2 =>
      if c.reasmOffset != 0 {
        return Unsplitted;
      }
      dropped := IpFrag2(w, c, Start(w.log, w.tries));
    case _ =>
    }
    return if dropped then Dropped else GaveUp;
  }

  /** The mode in use is none of those that the second stage plays. */
  predicate Idle(dp: Profile) {
    ModeUsed(dp).ModeNone? || !ValidSecondStage(ModeUsed(dp))
  }

  function ModeUsed(dp: Profile): Mode {
    if dp.mode2.ModeNone? then dp.mode else dp.mode2
  }

  // ---------- one packet ----------

  /** Nothing but multisplit is asked for, and no duplicates are due. */
  predicate PlainMultiSplit(c: Context, dp: Profile) {
    dp.mode.ModeMultiSplit? && dp.mode2.ModeNone? && !(dp.dupRepeats != 0 && c.dupInterval)
  }

  /** The segments a packet is delivered in under multisplit: untouched if it has no split position. */
  ghost function PacketSegments(d: Dissect, cuts: seq<nat>, filler: seq<byte>): seq<Segment>
    requires SplitsOf(cuts, |d.payload|)
  {
    if cuts == [] then [Original(d)] else MultiSplitPlan(d, cuts, filler)
  }

  /** Nothing in the packet's way to be played as its mode says: there is a position, all of it fits, and the first stage
      leaves it to the second. */
  ghost predicate Playable(c: Context, dp: Profile, p: Positions, fakehost: seq<byte>)
    requires Sized(c, dp) && Usable(c, p, fakehost)
  {
    HasPosition(c, dp, p) && Room(c, dp, p, fakehost) && FirstFits(c, dp) && !EndsFirst(c, dp, p)
  }

  /** First the fakes of the first stage, then the segments of the second, shaped as its mode says. */
  ghost predicate PlayedAs(log0: seq<Segment>, log1: seq<Segment>, c: Context, dp: Profile, p: Positions, fakehost: seq<byte>)
    requires Sized(c, dp) && Usable(c, p, fakehost) && HasPosition(c, dp, p)
  {
    var log := log0 + FirstFakes(c, dp);
    log <= log1 && Shaped(log1[|log|..], c, dp, p, fakehost)
  }

  /** There is nothing for the second stage to do, and no duplicates are due: the packet itself goes out. */
  predicate LeftWhole(c: Context, dp: Profile, p: Positions) {
    && (EndsFirst(c, dp, p) || !HasPosition(c, dp, p) || Idle(dp))
    && !(dp.dupRepeats != 0 && c.dupInterval)
  }

  /** Whatever the profile asks for and whichever sends fail, and unless dup_replace holds the original back or it goes out
      as fragments that do not fit together, what reaches the receiver rebuilds the payload: as last copies, and with no
      byte beyond it.  When nothing fails, the packet is played as its mode says. */
  method Play(w: Wire, c: Context, dp: Profile, p: Positions, fakehost: seq<byte>, verdict: Verdict) returns (r: Verdict)
    requires Sized(c, dp) && Usable(c, p, fakehost) && verdict != Drop
    modifies w
    ensures !MayLose(c, dp) ==> Rebuilds(old(w.log), Delivered(w, c, r), c.d.th, c.d.payload)
    ensures Within(old(w.log), Delivered(w, c, r), c) && old(w.tries) <= w.tries && old(w.log) <= w.log
    ensures OnlyFaked(c, dp) ==> PatternFakes(old(w.log), Delivered(w, c, r), c, dp)
    ensures Playable(c, dp, p, fakehost) && w.Succeeded(old(w.tries)) ==>
      r == Drop && PlayedAs(old(w.log), w.log, c, dp, p, fakehost)
    ensures LeftWhole(c, dp, p) && FirstFits(c, dp) && w.Succeeded(old(w.tries)) ==>
      Delivered(w, c, r) == old(w.log) + FirstFakes(c, dp) + [Original(c.d)]
    ensures PlainMultiSplit(c, dp) ==>
      var segs := PacketSegments(c.d, p.cuts, MultiSplitFiller(c, dp, p.seqovl));
      Sendable(c, segs) && w.Succeeded(old(w.tries)) ==> Delivered(w, c, r) == old(w.log) + segs
  {
    ghost var st := Start(w.log, w.tries);
    var stage := FirstStage(w, c, dp, p, st);
    match stage
    case Final =>
      OriginalRebuilds(st.log, st.log, c.d.th, Slack(c), c.d.payload);
      return Drop;
    case GiveUp =>
      r := SendOrig(w, c, dp, verdict, false, st);
    case Go(sentFakes) =>
      r := PlaySecond(w, c, dp, p, fakehost, verdict, sentFakes, st);
  }

  /** The second stage, after the first one has sent its fakes. */
  method PlaySecond(w: Wire, c: Context, dp: Profile, p: Positions, fakehost: seq<byte>, verdict: Verdict, sentFakes: bool,
                    ghost st: Start) returns (r: Verdict)
    requires Sized(c, dp) && Usable(c, p, fakehost) && verdict != Drop
    requires Going(w, st, c) && w.log == st.log + FirstFakes(c, dp)
    requires Silent(c, dp) ==> PatternFakes(st.log, w.log, c, dp) && !sentFakes
    modifies w
    ensures !MayLose(c, dp) ==> Rebuilds(st.log, Delivered(w, c, r), c.d.th, c.d.payload)
    ensures Within(st.log, Delivered(w, c, r), c) && st.tries <= w.tries && st.log <= w.log
    ensures OnlyFaked(c, dp) ==> PatternFakes(st.log, Delivered(w, c, r), c, dp)
    ensures HasPosition(c, dp, p) && Room(c, dp, p, fakehost) && w.Succeeded(st.tries) ==>
      r == Drop && PlayedAs(st.log, w.log, c, dp, p, fakehost)
    ensures (!HasPosition(c, dp, p) || Idle(dp)) && !(dp.dupRepeats != 0 && c.dupInterval) ==>
      Delivered(w, c, r) == old(w.log) + [Original(c.d)]
    ensures ModeUsed(dp).ModeMultiSplit? && HasPosition(c, dp, p) && Room(c, dp, p, fakehost) && w.Succeeded(st.tries) ==>
      w.log == old(w.log) + MultiSplitPlan(c.d, p.cuts, MultiSplitFiller(c, dp, p.seqovl))
  {
    ghost var log1 := w.log;
    var branch := SecondStage(w, c, dp, p, fakehost);
    if OnlyFaked(c, dp) {
      PatternFakesTransitive(st.log, log1, w.log, c, dp);
    }
    if branch == Dropped {
      if !Unassembled(c, dp) {
        RebuildsAfter(st.log, log1, w.log, c.d.th, Slack(c), c.d.payload);
      }
      WithinTransitive(st.log, log1, w.log, c.d.th, Slack(c), |c.d.payload|);
      return Drop;
    }
    WithinTransitive(st.log, log1, w.log, c.d.th, Slack(c), |c.d.payload|);
    if branch == Unsplitted && c.replay && !c.ipv6 && c.replayIpId != 0 {
      OriginalRebuilds(st.log, w.log, c.d.th, Slack(c), c.d.payload);
      return Modify;
    }
    r := SendOrig(w, c, dp, verdict, sentFakes, st);
  }

  lemma WithinTransitive(a: seq<Segment>, b: seq<Segment>, c: seq<Segment>, th: nat, lo: nat, n: nat)
    requires StaysWithin(a, b, th, lo, n) && StaysWithin(b, c, th, lo, n)
    ensures StaysWithin(a, c, th, lo, n)
  {
    assert b == c[..|b|];
  }
}
