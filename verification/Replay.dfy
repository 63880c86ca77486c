/** Replay of the delay queue (replay_queue of nfq/desync.c): the packets of a message that was held back while it
    was being reassembled are played one after another, each at its offset in the message.
 */
module Replay {
  import opened Bytes
  import Reassembly
  import opened FillPattern
  import opened SplitPositions
  import opened TcpStream
  import opened TcpPlans
  import opened TcpDesync
  import opened TcpPlay

  // ---------- positions for one packet ----------

  /** What the positions of the profile resolve to in the whole message: the list for multisplit and
      multidisorder, the one position for the faked modes (0 if no marker is found), seqovl as an absolute
      position and resolved, and for hostfakesplit the list of host and endhost and the position inside. */
  datatype Resolved = Resolved(multi: seq<nat>, single: nat, seqovlAbs: nat, seqovlAny: nat, hostPair: seq<nat>, mid: nat)

  function Uses(dp: Profile, m: Mode): bool {
    dp.mode == m || dp.mode2 == m
  }

  /** The chain of cases that turns resolved positions into positions for the packet at `offset`. */
  function PositionsFor(dp: Profile, r: Resolved, rlen: nat, offset: nat, len: nat): Positions {
    var none := Positions([], 0, SeqovlFor(dp, r, offset, len), 0, 0, 0);
    if Uses(dp, ModeMultiSplit) || Uses(dp, ModeMultiDisorder) then
      none.(cuts := Normalized(r.multi, offset, len))
    else if Uses(dp, ModeFakedSplit) || Uses(dp, ModeFakedDisorder) then
      none.(split := PosNormalize(if r.single == 0 || r.single > rlen then 1 else r.single, offset, len))
    else if Uses(dp, ModeHostFakeSplit) && |r.hostPair| == 2 && |Normalized(r.hostPair, offset, len)| == 2 then
      var h := Normalized(r.hostPair, offset, len);
      var mid := PosNormalize(r.mid, offset, len);
      none.(host := h[0], endhost := h[1], mid := if h[0] < mid < h[1] then mid else 0)
    else none
  }

  function SeqovlFor(dp: Profile, r: Resolved, offset: nat, len: nat): nat {
    if Uses(dp, ModeFakedSplit) || Uses(dp, ModeMultiSplit) then r.seqovlAbs
    else if Uses(dp, ModeFakedDisorder) || Uses(dp, ModeMultiDisorder) then PosNormalize(r.seqovlAny, offset, len)
    else 0
  }

  function RandomHost(random: nat -> byte, n: nat): (r: seq<byte>)
    ensures |r| == n
  {
    seq(n, i requires 0 <= i < n => random(i))
  }

  /** Every position the branches get is one they can use. */
  lemma PositionsUsable(c: Context, dp: Profile, r: Resolved, rlen: nat, random: nat -> byte)
    requires Ascending(r.multi) && Ascending(r.hostPair) && c.d.payload != []
    ensures var p := PositionsFor(dp, r, rlen, c.reasmOffset, |c.d.payload|);
            Usable(c, p, RandomHost(random, if p.host < p.endhost then p.endhost - p.host else 0))
  {
    NormalizedSplits(r.multi, c.reasmOffset, |c.d.payload|);
    NormalizedSplits(r.hostPair, c.reasmOffset, |c.d.payload|);
  }

  // ---------- the message the queue holds ----------

  function Stream(q: seq<Context>): seq<byte> {
    if q == [] then [] else Stream(q[..|q| - 1]) + q[|q| - 1].d.payload
  }

  /** Packets in sequence: each begins where the one before ends, none is empty. */
  ghost predicate InSequence(q: seq<Context>, th: nat) {
    forall k :: 0 <= k < |q| ==> q[k].d.payload != [] && q[k].d.th == Net32Add(th, |Stream(q[..k])|)
  }

  lemma InSequencePrefix(q: seq<Context>, th: nat, n: nat)
    requires InSequence(q, th) && n <= |q|
    ensures InSequence(q[..n], th)
  {
    forall k | 0 <= k < n
      ensures q[..n][k].d.payload != [] && q[..n][k].d.th == Net32Add(th, |Stream(q[..n][..k])|)
    {
      assert q[..n][..k] == q[..k];
    }
  }

  lemma {:induction false} StreamGrows(q: seq<Context>, j: nat, k: nat)
    requires j <= k <= |q|
    ensures Stream(q[..j]) <= Stream(q[..k])
  {
    if j < k {
      StreamGrows(q, j, k - 1);
      assert q[..k][..k - 1] == q[..k - 1];
    }
  }

  /** The queue module Reassembly keeps is what replay_queue needs: packets in sequence whose payloads make up
      the message. */
  lemma HeldInSequence(held: seq<Reassembly.Held>, q: seq<Context>)
    requires held != [] && Reassembly.InOrder(held) && SamePackets(held, q)
    ensures InSequence(q, held[0].seqNum) && Stream(q) == Reassembly.Joined(held)
  {
    forall k | 0 <= k < |q|
      ensures q[k].d.payload != [] && q[k].d.th == Net32Add(held[0].seqNum, |Stream(q[..k])|)
    {
      HeldPacket(held, q, k);
    }
    SameStream(held, q);
  }

  lemma HeldPacket(held: seq<Reassembly.Held>, q: seq<Context>, k: nat)
    requires k < |held| && Reassembly.InOrder(held) && SamePackets(held, q)
    ensures q[k].d.payload != [] && q[k].d.th == Net32Add(held[0].seqNum, |Stream(q[..k])|)
  {
    SameStream(held[..k], q[..k]);
    var n := |Reassembly.Joined(held[..k])|;
    assert held[k].seqNum == Reassembly.SeqAfter(held[0].seqNum, n);
    Reassembly.SeqAfterIsSum(held[0].seqNum, n);
  }

  ghost predicate SamePackets(held: seq<Reassembly.Held>, q: seq<Context>) {
    |q| == |held| && forall k :: 0 <= k < |q| ==> q[k].d.th == held[k].seqNum && q[k].d.payload == held[k].data
  }

  lemma {:induction false} SameStream(held: seq<Reassembly.Held>, q: seq<Context>)
    requires SamePackets(held, q)
    ensures Stream(q) == Reassembly.Joined(held)
  {
    if q != [] {
      SameStream(held[..|q| - 1], q[..|q| - 1]);
    }
  }

  // ---------- the receiver's view over several packets ----------

  /** Sequence numbers relative to the start of the message. */
  lemma RelShift(x: nat, th: nat, off: nat)
    requires -HALF_SPACE <= off + Rel(x, Net32Add(th, off)) < HALF_SPACE
    ensures Rel(x, th) == off + Rel(x, Net32Add(th, off))
  {
    var y := Net32Add(th, off);
    var r := Rel(x, y);
    assert (x - y - r) % SEQ_SPACE == 0;
    var a, b := (x - y - r) / SEQ_SPACE, (th + off) / SEQ_SPACE;
    assert x - th - (off + r) == (a - b) * SEQ_SPACE;
    RelUnique(x, th, off + r, a - b);
  }

  lemma RelUnique(x: nat, th: nat, d: int, q: int)
    requires x - th == q * SEQ_SPACE + d && -HALF_SPACE <= d < HALF_SPACE
    ensures Rel(x, th) == d
  {
    if 0 <= d {
      ModOf(x - th, q, d);
    } else {
      ModOf(x - th, q - 1, d + SEQ_SPACE);
    }
  }

  /** What one packet's segments carry, seen from the start of the message. */
  lemma {:induction false} ShiftCopies(segs: seq<Segment>, th: nat, off: nat, lo: nat, n: nat, i: nat)
    requires forall k :: 0 <= k < |segs| ==> Inside(segs[k], Net32Add(th, off), lo, n)
    requires off + n < HALF_SPACE && lo <= HALF_SPACE && (lo == 0 || off == 0)
    ensures Copies(segs, th, i) == if i < off then [] else Copies(segs, Net32Add(th, off), i - off)
  {
    if segs != [] {
      var s := segs[|segs| - 1];
      ShiftCopies(segs[..|segs| - 1], th, off, lo, n, i);
      if !s.fake {
        RelShift(s.start, th, off);
      }
    }
  }

  /** A stream that was rebuilt so far, then the next packet rebuilt: the longer stream is rebuilt. */
  lemma RebuildsAppend(a: seq<Segment>, b: seq<Segment>, c: seq<Segment>, th: nat, total: seq<byte>, payload: seq<byte>, lo: nat)
    requires Rebuilds(a, b, th, total) && Rebuilds(b, c, Net32Add(th, |total|), payload)
    requires StaysWithin(b, c, Net32Add(th, |total|), lo, |payload|)
    requires |total| + |payload| < HALF_SPACE && lo <= HALF_SPACE && (lo == 0 || total == [])
    ensures Rebuilds(a, c, th, total + payload)
  {
    var x, y := b[|a|..], c[|b|..];
    assert c[|a|..] == x + y;
    forall i: nat
      ensures LastIs(Copies(x + y, th, i), total + payload, i)
    {
      CopiesConcat(x, y, th, i);
      ShiftCopies(y, th, |total|, lo, |payload|, i);
      if i < |total| {
        LastOfBoth(Copies(x, th, i), [], total, payload, i);
      } else {
        LastOfBoth(Copies(x, th, i), Copies(y, Net32Add(th, |total|), i - |total|), total, payload, i);
      }
    }
  }

  lemma LastOfBoth(x: seq<byte>, y: seq<byte>, total: seq<byte>, payload: seq<byte>, i: nat)
    requires LastIs(x, total, i)
    requires if i < |total| then y == [] else LastIs(y, payload, i - |total|)
    ensures LastIs(x + y, total + payload, i)
  {
  }

  // ---------- where the message is cut ----------

  function Shift(s: seq<nat>, off: nat): (r: seq<nat>)
    ensures |r| == |s| && forall k :: 0 <= k < |s| ==> r[k] == s[k] + off
  {
    seq(|s|, k requires 0 <= k < |s| => s[k] + off)
  }

  /** Starts of the real segments, in stream offsets: each packet's own start and its split positions. */
  function Marks(q: seq<Context>, multi: seq<nat>): seq<nat> {
    if q == [] then []
    else
      var before, c := q[..|q| - 1], q[|q| - 1];
      var off := |Stream(before)|;
      Marks(before, multi) + [off] + Shift(Normalized(multi, off, |c.d.payload|), off)
  }

  ghost predicate NoneEmpty(q: seq<Context>) {
    forall k :: 0 <= k < |q| ==> q[k].d.payload != []
  }

  /** Every start is used once and they ascend: from 0 to the end of the message. */
  lemma {:induction false} MarksAscend(q: seq<Context>, multi: seq<nat>)
    requires Ascending(multi) && NoneEmpty(q)
    ensures Ascending(Marks(q, multi)) && |q| <= |Marks(q, multi)|
    ensures q != [] ==> Marks(q, multi)[0] == 0
    ensures forall k :: 0 <= k < |Marks(q, multi)| ==> Marks(q, multi)[k] < |Stream(q)|
  {
    if q != [] {
      var before, c := q[..|q| - 1], q[|q| - 1];
      var off := |Stream(before)|;
      MarksAscend(before, multi);
      NormalizedSplits(multi, off, |c.d.payload|);
      if before == [] {
        assert Marks(before, multi) == [] && off == 0;
      }
    }
  }

  /** An offset is a start exactly when a packet begins there or a split position lies there, strictly inside
      one of the packets. */
  lemma {:induction false} MarksAre(q: seq<Context>, multi: seq<nat>, x: nat)
    ensures x in Marks(q, multi) <==> IsMark(q, multi, x)
  {
    if q != [] {
      MarksAre(q[..|q| - 1], multi, x);
      InLastPacket(q, multi, x);
      IsMarkStep(q, multi, x);
    }
  }

  ghost predicate IsMark(q: seq<Context>, multi: seq<nat>, x: nat) {
    exists k :: 0 <= k < |q| && StartsOrSplits(q, k, multi, x)
  }

  lemma IsMarkStep(q: seq<Context>, multi: seq<nat>, x: nat)
    requires q != []
    ensures IsMark(q, multi, x) <==> IsMark(q[..|q| - 1], multi, x) || StartsOrSplits(q, |q| - 1, multi, x)
  {
    var n := |q| - 1;
    var before := q[..n];
    forall k | 0 <= k < n
      ensures StartsOrSplits(before, k, multi, x) <==> StartsOrSplits(q, k, multi, x)
    {
      assert before[..k] == q[..k];
    }
    if IsMark(before, multi, x) {
      var k :| 0 <= k < n && StartsOrSplits(before, k, multi, x);
      assert StartsOrSplits(q, k, multi, x);
    }
  }

  predicate StartsOrSplits(q: seq<Context>, k: nat, multi: seq<nat>, x: nat)
    requires k < |q|
  {
    var off := |Stream(q[..k])|;
    x == off || (x in multi && off < x < off + |q[k].d.payload|)
  }

  lemma InLastPacket(q: seq<Context>, multi: seq<nat>, x: nat)
    requires q != []
    ensures x in Marks(q, multi) <==> x in Marks(q[..|q| - 1], multi) || StartsOrSplits(q, |q| - 1, multi, x)
  {
    InMarks(Marks(q[..|q| - 1], multi), multi, |Stream(q[..|q| - 1])|, |q[|q| - 1].d.payload|, x);
  }

  lemma InMarks(marks: seq<nat>, multi: seq<nat>, off: nat, len: nat, x: nat)
    ensures x in marks + [off] + Shift(Normalized(multi, off, len), off)
       <==> x in marks || x == off || (x in multi && off < x < off + len)
  {
    ShiftElements(Normalized(multi, off, len), off, x);
    if off <= x {
      NormalizedElements(multi, off, len, x - off);
    }
  }

  lemma ShiftElements(s: seq<nat>, off: nat, x: nat)
    ensures x in Shift(s, off) <==> off <= x && x - off in s
  {
    if x in Shift(s, off) {
      var k :| 0 <= k < |s| && Shift(s, off)[k] == x;
      assert s[k] in s;
    }
    if off <= x && x - off in s {
      var k :| 0 <= k < |s| && s[k] == x - off;
      assert Shift(s, off)[k] == x;
    }
  }

  /** The segments multisplit sends for the whole queue; only the first packet can have filler in front. */
  ghost function ReplaySegments(q: seq<Context>, multi: seq<nat>, filler: seq<byte>): seq<Segment>
    requires Ascending(multi)
  {
    if q == [] then []
    else
      var before, c := q[..|q| - 1], q[|q| - 1];
      var off := |Stream(before)|;
      NormalizedSplits(multi, off, |c.d.payload|);
      ReplaySegments(before, multi, filler)
        + PacketSegments(c.d, Normalized(multi, off, |c.d.payload|), if off == 0 then filler else [])
  }

  /** The filler that is really sent: none when the first packet goes out untouched. */
  function FillerSent(q: seq<Context>, multi: seq<nat>, filler: seq<byte>): seq<byte>
    requires q != []
  {
    if Normalized(multi, 0, |q[0].d.payload|) == [] then [] else filler
  }

  ghost predicate MarksOf(marks: seq<nat>, n: nat) {
    && marks != [] && marks[0] == 0 && Ascending(marks)
    && forall k :: 0 <= k < |marks| ==> marks[k] < n
  }

  function EndOf(marks: seq<nat>, n: nat, j: nat): nat
    requires j < |marks|
  {
    if j + 1 < |marks| then marks[j + 1] else n
  }

  /** A payload sent in parts that start at the marks. */
  ghost function PartsAt(th: nat, payload: seq<byte>, marks: seq<nat>, filler: seq<byte>): seq<Segment>
    requires MarksOf(marks, |payload|)
  {
    seq(|marks|, j requires 0 <= j < |marks| => PartAt(th, payload, marks, filler, j))
  }

  ghost function PartAt(th: nat, payload: seq<byte>, marks: seq<nat>, filler: seq<byte>, j: nat): Segment
    requires MarksOf(marks, |payload|) && j < |marks|
  {
    Part(th, payload, marks[j], EndOf(marks, |payload|, j), if j == 0 then filler else [])
  }

  lemma MultiSplitIsPartsAt(d: Dissect, cuts: seq<nat>, filler: seq<byte>)
    requires SplitsOf(cuts, |d.payload|) && d.payload != []
    ensures MarksOf([0] + cuts, |d.payload|)
    ensures MultiSplitPlan(d, cuts, filler) == PartsAt(d.th, d.payload, [0] + cuts, filler)
  {
    var plan, parts := MultiSplitPlan(d, cuts, filler), PartsAt(d.th, d.payload, [0] + cuts, filler);
    forall j | 0 <= j < |plan|
      ensures plan[j] == parts[j]
    {
      assert plan[j] == MultiSplitPart(d, cuts, filler, j);
    }
  }

  lemma UntouchedIsPartsAt(d: Dissect)
    requires d.payload != []
    ensures MarksOf([0], |d.payload|) && [Original(d)] == PartsAt(d.th, d.payload, [0], [])
  {
    assert [] + d.payload[0..|d.payload|] == d.payload;
  }

  lemma PacketIsPartsAt(d: Dissect, cuts: seq<nat>, filler: seq<byte>)
    requires SplitsOf(cuts, |d.payload|) && d.payload != []
    ensures MarksOf([0] + cuts, |d.payload|)
    ensures PacketSegments(d, cuts, filler) == PartsAt(d.th, d.payload, [0] + cuts, if cuts == [] then [] else filler)
  {
    if cuts == [] {
      UntouchedIsPartsAt(d);
      assert [0] + cuts == [0];
    } else {
      MultiSplitIsPartsAt(d, cuts, filler);
    }
  }

  /** A part of one packet is a part of the whole message. */
  lemma PartShift(th: nat, total: seq<byte>, payload: seq<byte>, a: nat, b: nat)
    requires a <= b <= |payload|
    ensures Part(Net32Add(th, |total|), payload, a, b, []) == Part(th, total + payload, |total| + a, |total| + b, [])
  {
    assert (total + payload)[|total| + a..|total| + b] == payload[a..b];
    var q := (th + |total|) / SEQ_SPACE;
    assert Net32Add(th, |total|) + a == th + |total| + a - q * SEQ_SPACE;
    ModShift(th + |total| + a, q);
  }

  lemma ModShift(x: int, q: int)
    ensures (x - q * SEQ_SPACE) % SEQ_SPACE == x % SEQ_SPACE
  {
    ModOf(x - q * SEQ_SPACE, x / SEQ_SPACE - q, x % SEQ_SPACE);
  }

  lemma PartPrefix(th: nat, total: seq<byte>, payload: seq<byte>, a: nat, b: nat, filler: seq<byte>)
    requires a <= b <= |total|
    ensures Part(th, total, a, b, filler) == Part(th, total + payload, a, b, filler)
  {
    assert (total + payload)[a..b] == total[a..b];
  }

  /** Parts of the message so far, then parts of the next packet: parts of the longer message. */
  lemma PartsAppend(th: nat, total: seq<byte>, marks: seq<nat>, filler: seq<byte>, payload: seq<byte>, cuts: seq<nat>)
    requires MarksOf(marks, |total|) && MarksOf([0] + cuts, |payload|)
    requires MarksOf(marks + [|total|] + Shift(cuts, |total|), |total + payload|)
    ensures PartsAt(th, total, marks, filler) + PartsAt(Net32Add(th, |total|), payload, [0] + cuts, [])
         == PartsAt(th, total + payload, marks + [|total|] + Shift(cuts, |total|), filler)
  {
    var all := marks + [|total|] + Shift(cuts, |total|);
    var x, y := PartsAt(th, total, marks, filler), PartsAt(Net32Add(th, |total|), payload, [0] + cuts, []);
    var z := PartsAt(th, total + payload, all, filler);
    forall j | 0 <= j < |marks|
      ensures x[j] == z[j]
    {
      FrontPart(th, total, marks, filler, payload, cuts, j);
    }
    forall i | 0 <= i < |y|
      ensures y[i] == z[|marks| + i]
    {
      BackPart(th, total, marks, filler, payload, cuts, i);
    }
    JoinedParts(x, y, z);
  }

  lemma JoinedParts(x: seq<Segment>, y: seq<Segment>, z: seq<Segment>)
    requires |z| == |x| + |y|
    requires forall j :: 0 <= j < |x| ==> x[j] == z[j]
    requires forall i :: 0 <= i < |y| ==> y[i] == z[|x| + i]
    ensures x + y == z
  {
    forall j | 0 <= j < |z|
      ensures (x + y)[j] == z[j]
    {
      if |x| <= j {
        assert y[j - |x|] == z[|x| + (j - |x|)];
      }
    }
  }

  lemma FrontPart(th: nat, total: seq<byte>, marks: seq<nat>, filler: seq<byte>, payload: seq<byte>, cuts: seq<nat>, j: nat)
    requires MarksOf(marks, |total|) && MarksOf([0] + cuts, |payload|)
    requires MarksOf(marks + [|total|] + Shift(cuts, |total|), |total + payload|) && j < |marks|
    ensures PartAt(th, total, marks, filler, j)
         == PartAt(th, total + payload, marks + [|total|] + Shift(cuts, |total|), filler, j)
  {
    var all := marks + [|total|] + Shift(cuts, |total|);
    assert all[j] == marks[j] && EndOf(all, |total + payload|, j) == EndOf(marks, |total|, j);
    PartPrefix(th, total, payload, marks[j], EndOf(marks, |total|, j), if j == 0 then filler else []);
  }

  lemma BackPart(th: nat, total: seq<byte>, marks: seq<nat>, filler: seq<byte>, payload: seq<byte>, cuts: seq<nat>, i: nat)
    requires MarksOf(marks, |total|) && MarksOf([0] + cuts, |payload|)
    requires MarksOf(marks + [|total|] + Shift(cuts, |total|), |total + payload|) && i <= |cuts|
    ensures PartAt(Net32Add(th, |total|), payload, [0] + cuts, [], i)
         == PartAt(th, total + payload, marks + [|total|] + Shift(cuts, |total|), filler, |marks| + i)
  {
    var all := marks + [|total|] + Shift(cuts, |total|);
    var own := [0] + cuts;
    assert all[|marks| + i] == |total| + own[i];
    assert EndOf(all, |total + payload|, |marks| + i) == |total| + EndOf(own, |payload|, i);
    PartShift(th, total, payload, own[i], EndOf(own, |payload|, i));
  }

  /** Replaying the queue under multisplit is multisplit of the whole message: cut at the packet boundaries and at
      every split position, each exactly once and in order. */
  lemma {:induction false} ReplayIsParts(q: seq<Context>, th: nat, multi: seq<nat>, filler: seq<byte>)
    requires InSequence(q, th) && th < SEQ_SPACE && q != [] && Ascending(multi)
    ensures MarksOf(Marks(q, multi), |Stream(q)|)
    ensures ReplaySegments(q, multi, filler) == PartsAt(th, Stream(q), Marks(q, multi), FillerSent(q, multi, filler))
  {
    MarksAscend(q, multi);
    if |q| == 1 {
      ReplayFirst(q, th, multi, filler);
    } else {
      InSequencePrefix(q, th, |q| - 1);
      MarksAscend(q[..|q| - 1], multi);
      ReplayIsParts(q[..|q| - 1], th, multi, filler);
      ReplayNext(q, th, multi, filler);
    }
  }

  lemma ReplayFirst(q: seq<Context>, th: nat, multi: seq<nat>, filler: seq<byte>)
    requires InSequence(q, th) && th < SEQ_SPACE && |q| == 1 && Ascending(multi)
    requires MarksOf(Marks(q, multi), |Stream(q)|)
    ensures ReplaySegments(q, multi, filler) == PartsAt(th, Stream(q), Marks(q, multi), FillerSent(q, multi, filler))
  {
    var c := q[0];
    var cuts := Normalized(multi, 0, |c.d.payload|);
    assert q[..0] == [] && c.d.th == th && Stream(q) == c.d.payload;
    NormalizedSplits(multi, 0, |c.d.payload|);
    PacketIsPartsAt(c.d, cuts, filler);
    ShiftByZero(cuts);
    assert Marks(q, multi) == [0] + cuts;
    assert ReplaySegments(q, multi, filler) == PacketSegments(c.d, cuts, filler);
  }

  lemma ReplayNext(q: seq<Context>, th: nat, multi: seq<nat>, filler: seq<byte>)
    requires InSequence(q, th) && 1 < |q| && Ascending(multi)
    requires MarksOf(Marks(q, multi), |Stream(q)|) && MarksOf(Marks(q[..|q| - 1], multi), |Stream(q[..|q| - 1])|)
    requires var before := q[..|q| - 1];
             ReplaySegments(before, multi, filler)
               == PartsAt(th, Stream(before), Marks(before, multi), FillerSent(before, multi, filler))
    ensures ReplaySegments(q, multi, filler) == PartsAt(th, Stream(q), Marks(q, multi), FillerSent(q, multi, filler))
  {
    var before, d := q[..|q| - 1], q[|q| - 1].d;
    var off := |Stream(before)|;
    var cuts := Normalized(multi, off, |d.payload|);
    NormalizedSplits(multi, off, |d.payload|);
    PacketIsPartsAt(d, cuts, []);
    assert off != 0 by {
      assert |Marks(before, multi)| > 0 && Marks(before, multi)[0] < off;
    }
    PartsAppend(th, Stream(before), Marks(before, multi), FillerSent(before, multi, filler), d.payload, cuts);
  }

  lemma ShiftByZero(s: seq<nat>)
    ensures Shift(s, 0) == s
  {
  }

  // ---------- replay_queue ----------

  /** The packet as replay_queue plays it. */
  function Replayed(c: Context, offset: nat): Context {
    c.(replay := true, reasmOffset := offset)
  }

  ghost predicate Replayable(q: seq<Context>, dp: Profile, th: nat) {
    && InSequence(q, th) && |Stream(q)| < HALF_SPACE && th < SEQ_SPACE && dp.seqovlPattern != []
    && forall k :: 0 <= k < |q| ==> Sized(q[k], dp) && !MayLose(Replayed(q[k], |Stream(q[..k])|), dp)
  }

  /** rawsend_rp, or nothing: what replay_queue does after a packet was played. */
  method SendUnlessDropped(w: Wire, c: Context, v: Verdict) returns (ok: bool)
    modifies w
    ensures ok ==> w.log == old(Delivered(w, c, v))
    ensures old(w.tries) <= w.tries && (ok <==> w.Succeeded(old(w.tries)))
    ensures !ok ==> w.log == old(w.log)
  {
    if v == Drop {
      return true;
    }
    ok := w.RawSend(Original(c.d));
  }

  // ---------- the fakes of the whole queue ----------

  /** What one round put on the wire: if the packet is played with fakedsplit or fakeddisorder alone, its fakes follow the
      pattern from the packet's own offset in the message on. */
  ghost predicate RoundOk(log: seq<Segment>, q: seq<Context>, k: nat, dp: Profile, from: nat, to: nat)
    requires k < |q| && dp.fsplitPattern != []
  {
    var c := Replayed(q[k], |Stream(q[..k])|);
    from <= to <= |log| && (OnlyFaked(c, dp) ==> PatternFakes(log[..from], log[..to], c, dp))
  }

  /** `cuts` are the lengths of the log before each round and after the last one. */
  ghost predicate Rounds(log: seq<Segment>, cuts: seq<nat>, q: seq<Context>, n: nat, dp: Profile)
    requires dp.fsplitPattern != []
  {
    && n <= |q| && |cuts| == n + 1 && cuts[n] == |log|
    && forall k :: 0 <= k < n ==> RoundOk(log, q, k, dp, cuts[k], cuts[k + 1])
  }

  lemma RoundsNext(log1: seq<Segment>, log2: seq<Segment>, cuts: seq<nat>, q: seq<Context>, i: nat, dp: Profile)
    requires dp.fsplitPattern != [] && i < |q| && Rounds(log1, cuts, q, i, dp) && log1 <= log2
    requires var c := Replayed(q[i], |Stream(q[..i])|);
             OnlyFaked(c, dp) ==> PatternFakes(log1, log2, c, dp)
    ensures Rounds(log2, cuts + [|log2|], q, i + 1, dp)
  {
    var all := cuts + [|log2|];
    forall k | 0 <= k < i + 1
      ensures RoundOk(log2, q, k, dp, all[k], all[k + 1])
    {
      if k < i {
        assert RoundOk(log1, q, k, dp, cuts[k], cuts[k + 1]);
        assert log2[..cuts[k]] == log1[..cuts[k]] && log2[..cuts[k + 1]] == log1[..cuts[k + 1]];
      } else {
        assert log2[..cuts[i]] == log1 && log2[..|log2|] == log2;
      }
    }
  }

  /** Every fake of every packet of the queue carries, at stream offset x, the byte of the pattern at x modulo its size. */
  lemma ReplayedFakesFollowStream(log: seq<Segment>, cuts: seq<nat>, q: seq<Context>, dp: Profile, k: nat, i: nat, m: nat)
    requires dp.fsplitPattern != [] && Rounds(log, cuts, q, |q|, dp) && k < |q|
    requires OnlyFaked(Replayed(q[k], |Stream(q[..k])|), dp)
    requires cuts[k] <= i < cuts[k + 1] && i < |log| && log[i].fake && m < |log[i].payload|
    ensures var x := |Stream(q[..k])| + Rel(log[i].start, q[k].d.th) + m;
            |Stream(q[..k])| <= x < |Stream(q[..k])| + |q[k].d.payload| && log[i].payload[m] == dp.fsplitPattern[x % |dp.fsplitPattern|]
  {
    assert RoundOk(log, q, k, dp, cuts[k], cuts[k + 1]);
    assert log[..cuts[k + 1]][i] == log[i];
    FakeBytesFollowStream(log[i], q[k].d, dp.fsplitPattern, |Stream(q[..k])|, m);
  }

  /** `rlen` is how much of the message the reassembly holds.  Every delayed packet is played once, in order, at its
      offset.  If the final sends succeed, the receiver rebuilds the whole message, whatever the profile does to each
      packet. */
  method ReplayQueue(w: Wire, q: seq<Context>, dp: Profile, r: Resolved, rlen: nat, random: nat -> byte, ghost th: nat)
    returns (b: bool, ghost cuts: seq<nat>)
    requires Replayable(q, dp, th) && Ascending(r.multi) && Ascending(r.hostPair)
    modifies w
    ensures dp.fsplitPattern != [] ==> Rounds(w.log, cuts, q, |q|, dp) && cuts[0] == |old(w.log)|
    ensures b ==> Rebuilds(old(w.log), w.log, th, Stream(q))
    ensures AllMultiSplit(q, dp) && AllSendable(q, dp, r) && w.Succeeded(old(w.tries)) ==>
      w.log == old(w.log) + ReplaySegments(q, r.multi, MultiSplitFillerOf(dp, r))
  {
    b := true;
    ghost var st := Start(w.log, w.tries);
    var i, offset := 0, 0;
    assert q[..0] == [];
    cuts := [|w.log|];
    while i < |q|
      invariant i <= |q| && offset == |Stream(q[..i])|
      invariant dp.fsplitPattern != [] ==> Rounds(w.log, cuts, q, i, dp) && cuts[0] == |st.log|
      invariant SoFar(w, st, q, i, dp, r, th, b)
    {
      StreamStep(q, i);
      ghost var before := w.log;
      b := ReplayAt(w, q, i, offset, dp, r, rlen, random, st, th, b);
      if dp.fsplitPattern != [] {
        RoundsNext(before, w.log, cuts, q, i, dp);
      }
      cuts := cuts + [|w.log|];
      offset := offset + |q[i].d.payload|;
      i := i + 1;
    }
    assert q[..i] == q;
  }

  /** One round of the loop. */
  method ReplayAt(w: Wire, q: seq<Context>, i: nat, offset: nat, dp: Profile, r: Resolved, rlen: nat, random: nat -> byte,
                  ghost st: Start, ghost th: nat, b: bool)
    returns (b': bool)
    requires Replayable(q, dp, th) && Ascending(r.multi) && Ascending(r.hostPair)
    requires i < |q| && offset == |Stream(q[..i])| && SoFar(w, st, q, i, dp, r, th, b)
    modifies w
    ensures SoFar(w, st, q, i + 1, dp, r, th, b')
    ensures old(w.log) <= w.log && RoundFakes(old(w.log), w.log, q[i], offset, dp)
  {
    ghost var before, c := w.log, q[i];
    StreamGrows(q, i + 1, |q|);
    StreamStep(q, i);
    var ok := ReplayOne(w, q[i], offset, dp, r, rlen, random, st, Stream(q[..i]), th, b);
    b' := b && ok;
    if AllMultiSplit(q, dp) && AllSendable(q, dp, r) && w.Succeeded(st.tries) {
      SegmentsNext(st.log, before, w.log, q, i, dp, r);
    }
  }

  ghost predicate RoundFakes(log0: seq<Segment>, log1: seq<Segment>, c: Context, offset: nat, dp: Profile) {
    dp.fsplitPattern != [] && OnlyFaked(Replayed(c, offset), dp) ==> PatternFakes(log0, log1, Replayed(c, offset), dp)
  }

  lemma SegmentsNext(log0: seq<Segment>, log1: seq<Segment>, log2: seq<Segment>, q: seq<Context>, i: nat, dp: Profile, r: Resolved)
    requires i < |q| && Ascending(r.multi) && dp.seqovlPattern != []
    requires log1 == log0 + ReplaySegments(q[..i], r.multi, MultiSplitFillerOf(dp, r))
    requires log2 == log1 + PacketSegmentsAt(q[i], dp, r, |Stream(q[..i])|)
    ensures log2 == log0 + ReplaySegments(q[..i + 1], r.multi, MultiSplitFillerOf(dp, r))
  {
    SegmentsStep(q, i, dp, r);
    Associate(log0, ReplaySegments(q[..i], r.multi, MultiSplitFillerOf(dp, r)), PacketSegmentsAt(q[i], dp, r, |Stream(q[..i])|));
  }

  lemma Associate(a: seq<Segment>, b: seq<Segment>, c: seq<Segment>)
    ensures (a + b) + c == a + (b + c)
  {
  }

  ghost predicate RebuiltSoFar(w: Wire, st: Start, q: seq<Context>, i: nat, th: nat, b: bool)
    requires i <= |q|
    reads w
  {
    (b ==> Rebuilds(st.log, w.log, th, Stream(q[..i]))) && st.tries <= w.tries
  }

  ghost predicate SoFar(w: Wire, st: Start, q: seq<Context>, i: nat, dp: Profile, r: Resolved, th: nat, b: bool)
    requires i <= |q| && Ascending(r.multi) && dp.seqovlPattern != []
    reads w
  {
    && RebuiltSoFar(w, st, q, i, th, b)
    && (AllMultiSplit(q, dp) && AllSendable(q, dp, r) && w.Succeeded(st.tries) ==>
          w.log == st.log + ReplaySegments(q[..i], r.multi, MultiSplitFillerOf(dp, r)))
  }

  lemma StreamStep(q: seq<Context>, i: nat)
    requires i < |q|
    ensures Stream(q[..i + 1]) == Stream(q[..i]) + q[i].d.payload
    ensures q[..|q|] == q
  {
    assert q[..i + 1][..i] == q[..i];
  }

  lemma SegmentsStep(q: seq<Context>, i: nat, dp: Profile, r: Resolved)
    requires i < |q| && Ascending(r.multi) && dp.seqovlPattern != []
    ensures var f := MultiSplitFillerOf(dp, r);
            ReplaySegments(q[..i + 1], r.multi, f)
              == ReplaySegments(q[..i], r.multi, f) + PacketSegmentsAt(q[i], dp, r, |Stream(q[..i])|)
  {
    assert q[..i + 1][..i] == q[..i];
  }

  predicate AllMultiSplit(q: seq<Context>, dp: Profile) {
    forall k :: 0 <= k < |q| ==> PlainMultiSplit(q[k], dp)
  }

  function MultiSplitFillerOf(dp: Profile, r: Resolved): seq<byte>
    requires dp.seqovlPattern != []
  {
    Pattern(dp.seqovlPattern, 0, r.seqovlAbs)
  }

  ghost predicate AllSendable(q: seq<Context>, dp: Profile, r: Resolved)
    requires Ascending(r.multi) && dp.seqovlPattern != []
  {
    forall k :: 0 <= k < |q| ==> Sendable(q[k], PacketSegmentsAt(q[k], dp, r, |Stream(q[..k])|))
  }

  /** The segments of the packet at `offset`. */
  ghost function PacketSegmentsAt(c: Context, dp: Profile, r: Resolved, offset: nat): seq<Segment>
    requires Ascending(r.multi) && dp.seqovlPattern != []
  {
    NormalizedSplits(r.multi, offset, |c.d.payload|);
    PacketSegments(c.d, Normalized(r.multi, offset, |c.d.payload|), if offset == 0 then MultiSplitFillerOf(dp, r) else [])
  }

  lemma WithoutLast(log0: seq<Segment>, log1: seq<Segment>, s: Segment, c: Context, dp: Profile)
    requires dp.fsplitPattern != [] && log0 <= log1 && PatternFakes(log0, log1 + [s], c, dp)
    ensures PatternFakes(log0, log1, c, dp)
  {
    forall i | |log0| <= i < |log1| && log1[i].fake
      ensures FollowsPattern(log1[i], c.d, dp.fsplitPattern, c.reasmOffset)
    {
      assert (log1 + [s])[i] == log1[i];
    }
  }

  method ReplayOne(w: Wire, c: Context, offset: nat, dp: Profile, r: Resolved, rlen: nat, random: nat -> byte,
                   ghost st: Start, ghost total: seq<byte>, ghost th: nat, ghost sofar: bool)
    returns (ok: bool)
    requires Sized(c, dp) && !MayLose(Replayed(c, offset), dp) && Ascending(r.multi) && Ascending(r.hostPair)
    requires offset == |total| && c.d.payload != [] && c.d.th == Net32Add(th, offset)
    requires offset + |c.d.payload| < HALF_SPACE
    requires sofar ==> Rebuilds(st.log, w.log, th, total)
    modifies w
    ensures sofar && ok ==> Rebuilds(st.log, w.log, th, total + c.d.payload)
    ensures old(w.tries) <= w.tries
    ensures PlainMultiSplit(c, dp) ==>
      var segs := PacketSegmentsAt(c, dp, r, offset);
      Sendable(c, segs) && w.Succeeded(old(w.tries)) ==> w.log == old(w.log) + segs
    ensures old(w.log) <= w.log && RoundFakes(old(w.log), w.log, c, offset, dp)
  {
    var c' := Replayed(c, offset);
    var p := PositionsFor(dp, r, rlen, offset, |c.d.payload|);
    PositionsUsable(c', dp, r, rlen, random);
    ghost var before := w.log;
    var v := Play(w, c', dp, p, RandomHost(random, if p.host < p.endhost then p.endhost - p.host else 0), Pass);
    ghost var played := w.log;
    ok := SendUnlessDropped(w, c', v);
    if dp.fsplitPattern != [] && OnlyFaked(c', dp) && v != Drop {
      WithoutLast(before, played, Original(c'.d), c', dp);
    }
    if ok && sofar {
      RebuildsAppend(st.log, before, w.log, th, total, c.d.payload, Slack(c'));
    }
  }
}
