/** Reassembly of a request that arrives in several packets, and the queue of packets held back meanwhile:
    nfq/conntrack.c, nfq/packet_queue.c and the delaying parts of nfq/desync.c.
 */
module Reassembly {
  import opened Options
  import opened Bytes
  import TlsHello

  const TCP_MAX_REASM := 16384
  const UDP_MAX_REASM := 16384
  const SEQ_SPACE := 0x1_0000_0000

  /** The sequence number n bytes further on. */
  function SeqAfter(start: nat, n: nat): nat {
    if n == 0 then start else var s := SeqAfter(start, n - 1) + 1; if s == SEQ_SPACE then 0 else s
  }

  lemma {:induction false} SeqAfterIsSum(start: nat, n: nat)
    requires start < SEQ_SPACE
    ensures SeqAfter(start, n) == (start + n) % SEQ_SPACE
  {
    if n != 0 {
      SeqAfterIsSum(start, n - 1);
      OneMore(start + n - 1);
    }
  }

  lemma OneMore(x: nat)
    ensures (x + 1) % SEQ_SPACE == if x % SEQ_SPACE + 1 == SEQ_SPACE then 0 else x % SEQ_SPACE + 1
  {
  }

  lemma {:induction false} SeqAfterAdd(start: nat, m: nat, n: nat)
    ensures SeqAfter(start, m + n) == SeqAfter(SeqAfter(start, m), n)
  {
    if n != 0 {
      SeqAfterAdd(start, m, n - 1);
      assert SeqAfter(start, m + n) == SeqAfter(start, (m + n - 1) + 1);
    }
  }

  /** A packet held back: its sequence number (TCP) and the bytes it contributes to the message, which are its
      payload for TCP and its decrypted frames for UDP. */
  datatype Held = Held(seqNum: nat, data: seq<byte>)

  /** How a packet left the queue. */
  datatype How = Replayed | Flushed | Destroyed

  datatype Gone = Gone(packet: Held, how: How)

  function Joined(q: seq<Held>): seq<byte> {
    if q == [] then [] else Joined(q[..|q| - 1]) + q[|q| - 1].data
  }

  lemma JoinedStep(q: seq<Held>, p: Held)
    ensures Joined(q + [p]) == Joined(q) + p.data
  {
    assert (q + [p])[..|q|] == q;
  }

  /** TCP packets each of which begins where the one before it ends. */
  ghost predicate InOrder(q: seq<Held>) {
    forall k :: 0 <= k < |q| ==>
      q[k].data != [] && q[k].seqNum < SEQ_SPACE && q[k].seqNum == SeqAfter(q[0].seqNum, |Joined(q[..k])|)
  }

  lemma InOrderStep(q: seq<Held>, p: Held)
    requires InOrder(q) && p.data != [] && p.seqNum < SEQ_SPACE
    requires q != [] ==> p.seqNum == SeqAfter(q[0].seqNum, |Joined(q)|)
    ensures InOrder(q + [p])
  {
    forall k | 0 <= k < |q + [p]|
      ensures (q + [p])[k].seqNum == SeqAfter((q + [p])[0].seqNum, |Joined((q + [p])[..k])|)
    {
      if k < |q| {
        assert (q + [p])[..k] == q[..k];
      } else {
        assert (q + [p])[..k] == q;
        assert k == 0 ==> Joined(q) == [];
      }
    }
  }

  function AllGone(q: seq<Held>, how: How): (r: seq<Gone>)
    ensures |r| == |q| && forall k :: 0 <= k < |q| ==> r[k] == Gone(q[k], how)
  {
    seq(|q|, k requires 0 <= k < |q| => Gone(q[k], how))
  }

  function Packets(g: seq<Gone>): (r: seq<Held>)
    ensures |r| == |g| && forall k :: 0 <= k < |g| ==> r[k] == g[k].packet
  {
    seq(|g|, k requires 0 <= k < |g| => g[k].packet)
  }

  // ---------- what the packets look like ----------

  /** `size` bytes make a TLS record of which `data` is only the beginning. */
  predicate Waiting(data: seq<byte>, size: nat) {
    6 <= |data| < size && size == TlsHello.TLSRecordLen(data)
  }

  /** The record is there in full. */
  predicate Complete(data: seq<byte>) {
    6 <= |data| && TlsHello.TLSRecordLen(data) <= |data|
  }

  /** The packet begins where the queued ones end. */
  predicate Continues(q: seq<Held>, p: Held) {
    q != [] && p.seqNum == SeqAfter(q[0].seqNum, |Joined(q)|)
  }

  /** What is looked at when a TCP packet arrives: the record that the queued packets began, as far as it is there now, or the
      packet alone. */
  function Seen(q: seq<Held>, p: Held): seq<byte>
    requires q != [] ==> 6 <= |Joined(q)|
  {
    if !Continues(q, p) then p.data
    else if TlsHello.TLSRecordLen(Joined(q)) <= |Joined(q)| + |p.data| then (Joined(q) + p.data)[..TlsHello.TLSRecordLen(Joined(q))]
    else Joined(q) + p.data
  }

  /** A TCP packet is held back when a TLS ClientHello is seen that is no HTTP request, and either it goes on with what is
      queued, or a record of acceptable length begins that is not there in full and is no retransmission. */
  predicate HoldsTcp(q: seq<Held>, p: Held, isHttp: seq<byte> -> bool, d: Decision)
    requires q != [] ==> 6 <= |Joined(q)|
  {
    var data := Seen(q, p);
    && d.intervalReached && TlsHello.IsTLSClientHello(data, true) && !isHttp(data)
    && (Continues(q, p) || (d.mayStart && |data| < TlsHello.TLSRecordLen(data) <= TCP_MAX_REASM))
  }

  /** A QUIC packet is held back when the frames seen so far, with those of the packet, do not cover the message, or cover a
      ClientHello in part, or whatever they cover while packets are queued. */
  predicate HoldsUdp(q: seq<Held>, p: Held, analyse: seq<byte> -> Quic) {
    && (q == [] || |Joined(q)| + |p.data| <= UDP_MAX_REASM)
    && match analyse(Joined(q) + p.data)
       case DefragFailed => false
       case Partial => true
       case Covered(isHello, full) => q != [] || (isHello && !full)
  }

  /** What is decided about a packet outside the reassembly code. */
  datatype Decision = Decision(intervalReached: bool, mayStart: bool)

  /** What the frames collected so far turn out to be. */
  datatype Quic = DefragFailed | Partial | Covered(isHello: bool, full: bool)

  class Track {
    const udp: bool
    var packet: array?<byte>
    var size: nat
    var sizePresent: nat
    var nextSeq: nat
    var delayed: seq<Held>
    ghost var entered: seq<Held>
    ghost var left: seq<Gone>

    constructor (udp: bool)
      ensures Valid() && Idle() && entered == [] && this.udp == udp
    {
      this.udp := udp;
      packet, size, sizePresent, nextSeq, delayed := null, 0, 0, 0, [];
      entered, left := [], [];
    }

    /** Every packet that ever entered the queue has left it exactly once, in order, or is still in it. */
    ghost predicate Conserved()
      reads this
    {
      entered == Packets(left) + delayed
    }

    ghost predicate Idle()
      reads this
    {
      packet == null && size == 0 && sizePresent == 0 && delayed == []
    }

    /** A live session holds the bytes of the delayed packets, all of them while there is room for more, and
        expects the sequence number that follows them. */
    ghost predicate Collecting()
      reads this, packet
    {
      && packet != null && 0 < size == packet.Length && sizePresent <= size && delayed != []
      && packet[..sizePresent] == Joined(delayed)
      && nextSeq == SeqAfter(if udp then 0 else delayed[0].seqNum, sizePresent)
      && (if udp then size == UDP_MAX_REASM && sizePresent == |Joined(delayed)| else InOrder(delayed))
    }

    /** Between two packets.  A live TCP session is waiting for the rest of the TLS record it began with. */
    ghost predicate Valid()
      reads this, packet
    {
      Conserved() && (Idle() || (Collecting() && (!udp ==> Waiting(Joined(delayed), size))))
    }

    ghost predicate NoSession()
      reads this
    {
      packet == null && size == 0 && sizePresent == 0
    }

    // ---------- reassembly buffer ----------

    method ReasmClear()
      modifies this
      ensures NoSession() && unchanged(this`delayed, this`entered, this`left, this`nextSeq)
    {
      packet, size, sizePresent := null, 0, 0;
    }

    method ReasmInit(sizeRequested: nat, seqStart: nat)
      modifies this
      ensures packet != null && fresh(packet) && packet.Length == size == sizeRequested && sizePresent == 0
      ensures nextSeq == seqStart && unchanged(this`delayed, this`entered, this`left)
    {
      packet := new byte[sizeRequested];
      size, sizePresent, nextSeq := sizeRequested, 0, seqStart;
    }

    /** False for a packet out of sequence; otherwise as much as there is room for is appended. */
    method ReasmFeed(seqNum: nat, data: seq<byte>) returns (ok: bool)
      requires packet != null && packet.Length == size && sizePresent <= size && nextSeq < SEQ_SPACE
      modifies this`sizePresent, this`nextSeq, packet
      ensures ok <==> old(nextSeq) == seqNum
      ensures !ok ==> sizePresent == old(sizePresent) && nextSeq == old(nextSeq) && packet[..] == old(packet[..])
      ensures ok ==> sizePresent == Min(size, old(sizePresent) + |data|)
      ensures ok ==> packet[..sizePresent] == old(packet[..sizePresent]) + data[..sizePresent - old(sizePresent)]
      ensures ok ==> nextSeq == SeqAfter(old(nextSeq), sizePresent - old(sizePresent))
    {
      if nextSeq != seqNum {
        return false;
      }
      var szcopy := size - sizePresent;
      if |data| < szcopy {
        szcopy := |data|;
      }
      ghost var was := packet[..sizePresent];
      for k := 0 to szcopy
        invariant packet[..sizePresent + k] == was + data[..k]
        modifies packet
      {
        packet[sizePresent + k] := data[k];
        assert packet[..sizePresent + k + 1] == packet[..sizePresent + k] + [data[k]];
        assert data[..k + 1] == data[..k] + [data[k]];
      }
      sizePresent := sizePresent + szcopy;
      SeqAfterIsSum(nextSeq, szcopy);
      nextSeq := (nextSeq + szcopy) % SEQ_SPACE;
      return true;
    }

    static function Min(a: nat, b: nat): nat {
      if a < b then a else b
    }

    predicate ReasmIsEmpty()
      reads this
    {
      size == 0
    }

    predicate ReasmIsFull()
      reads this
    {
      size != 0 && size == sizePresent
    }

    predicate ReasmHasSpace(len: nat)
      reads this
    {
      sizePresent + len <= size
    }

    // ---------- the queue ----------

    /** rawpacket_queue */
    method Queue(p: Held)
      requires Conserved()
      modifies this`delayed, this`entered
      ensures Conserved() && delayed == old(delayed) + [p] && entered == old(entered) + [p]
    {
      delayed, entered := delayed + [p], entered + [p];
    }

    /** Dequeue until the queue is empty: replay_queue, rawsend_queue and rawpacket_queue_destroy. */
    method Drain(ghost how: How)
      requires Conserved()
      modifies this`delayed, this`left
      ensures Conserved() && delayed == [] && left == old(left) + AllGone(old(delayed), how)
    {
      ghost var start, q := left, delayed;
      ghost var done := 0;
      assert q == q[0..];
      while delayed != []
        invariant done <= |q| && delayed == q[done..] && left == start + AllGone(q[..done], how) && Conserved()
        decreases |delayed|
      {
        var rp := delayed[0];
        left := left + [Gone(rp, how)];
        delayed := delayed[1..];
        assert q[..done + 1] == q[..done] + [rp];
        done := done + 1;
      }
      assert q[..done] == q;
    }

    /** reasm_orig_stop: forget the session and send what was held back. */
    method ReasmStop()
      requires Conserved()
      modifies this
      ensures Conserved() && Idle() && left == old(left) + AllGone(old(delayed), Flushed) && entered == old(entered)
    {
      ReasmClear();
      Drain(Flushed);
    }

    /** Destruction of the track. */
    method Destroy()
      requires Valid()
      modifies this
      ensures Conserved() && Idle() && left == old(left) + AllGone(old(delayed), Destroyed) && entered == old(entered)
    {
      ReasmClear();
      Drain(Destroyed);
    }

    // ---------- sessions ----------

    /** reasm_start: a new session with this packet's data in it; the caller queues the packet next. */
    method ReasmStart(seqNum: nat, sz: nat, szMax: nat, data: seq<byte>) returns (ok: bool)
      requires Conserved() && Idle() && seqNum < SEQ_SPACE && 0 < sz
      modifies this
      ensures Conserved() && unchanged(this`delayed, this`entered, this`left)
      ensures ok <==> sz <= szMax
      ensures !ok ==> Idle()
      ensures ok ==> Holding(seqNum, data) && size == sz && sizePresent == Min(sz, |data|)
    {
      ReasmClear();
      if sz > szMax {
        return false;
      }
      ReasmInit(sz, seqNum);
      ok := ReasmFeed(seqNum, data);
      assert packet[..0] == [];
    }

    /** The buffer holds the queue's bytes and `data` after them, as far as there was room. */
    ghost predicate Holding(start: nat, data: seq<byte>)
      reads this, packet
    {
      && packet != null && 0 < size == packet.Length && sizePresent <= size
      && packet[..sizePresent] == (Joined(delayed) + data)[..Min(size, |Joined(delayed) + data|)]
      && nextSeq == SeqAfter(start, sizePresent)
    }

    /** reasm_feed on a live session: in sequence it goes on, out of sequence it ends and the queue is flushed. */
    method FeedSession(seqNum: nat, data: seq<byte>) returns (ok: bool)
      requires Valid() && Collecting()
      modifies this, packet
      ensures Conserved() && entered == old(entered)
      ensures ok <==> old(nextSeq) == seqNum
      ensures ok ==> delayed == old(delayed) && left == old(left) && Holding(if udp then 0 else delayed[0].seqNum, data)
      ensures ok ==> size == old(size) && sizePresent == Min(size, old(sizePresent) + |data|)
      ensures !ok ==> Idle() && left == old(left) + AllGone(old(delayed), Flushed)
    {
      ghost var n := sizePresent;
      SeqAfterIsSum(if udp then 0 else delayed[0].seqNum, sizePresent);
      ok := ReasmFeed(seqNum, data);
      if ok {
        FedBytes(Joined(delayed), data, n, sizePresent, size);
        SeqAfterAdd(if udp then 0 else delayed[0].seqNum, n, sizePresent - n);
      } else {
        ReasmStop();
      }
    }

    // ---------- one TCP packet ----------

    /** From the arrival of a packet with payload to the decision whether it is held back.  What is not delayed
        and not rejected by the interval ends the session on every path. */
    method StepTcp(p: Held, isHttp: seq<byte> -> bool, d: Decision) returns (held: bool)
      requires !udp && Valid() && p.seqNum < SEQ_SPACE && p.data != []
      modifies this, packet
      ensures Valid()
      ensures !d.intervalReached ==> !held && delayed == old(delayed) && left == old(left) && entered == old(entered)
      ensures old(delayed) != [] ==> 6 <= |Joined(old(delayed))|
      ensures held <==> HoldsTcp(old(delayed), p, isHttp, d)
      ensures d.intervalReached ==> Outcome(old(delayed), old(left), old(entered), p, held)
    {
      if !d.intervalReached {
        return false;
      }
      var data := Collect(p);
      if isHttp(data) || !TlsHello.IsTLSClientHello(data, true) {
        ReasmStop();
        return false;
      }
      held := HoldHello(p, data, d.mayStart);
    }

    /** A live session takes the packet if it is in sequence; otherwise it ends.  What there is to look at then. */
    method Collect(p: Held) returns (data: seq<byte>)
      requires !udp && Valid() && p.seqNum < SEQ_SPACE && p.data != []
      modifies this, packet
      ensures Conserved() && entered == old(entered)
      ensures old(delayed) != [] ==> 6 <= |Joined(old(delayed))|
      ensures data == Seen(old(delayed), p)
      ensures if Continues(old(delayed), p) then
                && delayed == old(delayed) && left == old(left) && Holding(delayed[0].seqNum, p.data) && InOrder(delayed + [p])
                && data == packet[..sizePresent] && 6 <= sizePresent && size == TlsHello.TLSRecordLen(data)
              else
                Idle() && left == old(left) + AllGone(old(delayed), Flushed)
    {
      data := p.data;
      if !ReasmIsEmpty() {
        if nextSeq == p.seqNum {
          InOrderStep(delayed, p);
        }
        var ok := FeedSession(p.seqNum, p.data);
        if ok {
          data := packet[..sizePresent];
        }
      }
    }

    /** A ClientHello that is no HTTP request: start a session if one is wanted, and wait if there is one. */
    method HoldHello(p: Held, data: seq<byte>, mayStart: bool) returns (held: bool)
      requires !udp && Conserved() && p.seqNum < SEQ_SPACE && p.data != [] && 6 <= |data|
      requires if delayed == [] then Idle() && data == p.data
               else && Holding(delayed[0].seqNum, p.data) && InOrder(delayed + [p]) && 6 <= sizePresent
                    && size == TlsHello.TLSRecordLen(packet[..sizePresent])
      modifies this
      ensures Valid() && (held <==> old(delayed) != [] || (mayStart && |data| < TlsHello.TLSRecordLen(data) <= TCP_MAX_REASM))
      ensures !held ==> Idle() && left == old(left) && entered == old(entered)
      ensures held ==> entered == old(entered) + [p]
      ensures held && old(delayed) != [] && Complete(Joined(old(delayed) + [p])) ==>
        Idle() && left == old(left) + AllGone(old(delayed) + [p], Replayed)
      ensures held && !(old(delayed) != [] && Complete(Joined(old(delayed) + [p]))) ==>
        delayed == old(delayed) + [p] && left == old(left)
    {
      if TlsHello.TLSRecordLen(data) > |data| && ReasmIsEmpty() && mayStart {
        var ok := ReasmStart(p.seqNum, TlsHello.TLSRecordLen(p.data), TCP_MAX_REASM, p.data);
        if !ok {
          return false;
        }
        InOrderStep([], p);
        JoinedStep([], p);
      }
      if ReasmIsEmpty() {
        return false;
      }
      held := true;
      HoldBack(p);
    }

    // ---------- one UDP packet ----------

    /** A QUIC Initial packet whose frames are `clean`, or None if it is something else or cannot be decrypted;
        `analyse` says what the frames collected so far amount to. */
    method StepUdp(clean: Option<seq<byte>>, p: Held, analyse: seq<byte> -> Quic) returns (held: bool)
      requires udp && Valid()
      requires clean.Some? ==> clean.value == p.data && 0 < |p.data| <= UDP_MAX_REASM
      modifies this, packet
      ensures Valid()
      ensures held <==> clean.Some? && HoldsUdp(old(delayed), p, analyse)
      ensures held ==>
        UdpHeld(old(delayed), old(left), old(entered), p, analyse(Joined(old(delayed)) + p.data) == Covered(true, true))
      ensures !held ==> Idle() && entered == old(entered) && left == old(left) + AllGone(old(delayed), Flushed)
    {
      if clean.None? {
        ReasmStop();
        return false;
      }
      var pclean := clean.value;
      if !ReasmIsEmpty() {
        if !ReasmHasSpace(|pclean|) {
          ReasmStop();
          return false;
        }
        SeqAfterIsSum(0, sizePresent);
        var ok := FeedSession(sizePresent % SEQ_SPACE, p.data);
        assert ok;
        pclean := packet[..sizePresent];
      }
      assert pclean == Joined(old(delayed)) + p.data;
      match analyse(pclean)
      case DefragFailed =>
        ReasmStop();
        return false;
      case Partial =>
        held := StartAndHold(p, false);
      case Covered(isHello, full) =>
        if ReasmIsEmpty() && !(isHello && !full) {
          return false;
        }
        held := StartAndHold(p, isHello && full);
    }

    /** Start a session if there is none, queue the packet, and replay the queue if this completes the request. */
    method StartAndHold(p: Held, complete: bool) returns (held: bool)
      requires udp && Conserved() && 0 < |p.data| <= UDP_MAX_REASM
      requires Idle() || (delayed != [] && Holding(0, p.data) && size == UDP_MAX_REASM && sizePresent == |Joined(delayed)| + |p.data|)
      modifies this
      ensures held && Valid() && UdpHeld(old(delayed), old(left), old(entered), p, complete)
    {
      if ReasmIsEmpty() {
        var ok := ReasmStart(0, UDP_MAX_REASM, UDP_MAX_REASM, p.data);
        assert ok && sizePresent == |p.data|;
      }
      HoldUdp(p, complete);
      return true;
    }

    method HoldUdp(p: Held, complete: bool)
      requires udp && Conserved() && Holding(0, p.data) && size == UDP_MAX_REASM && sizePresent == |Joined(delayed)| + |p.data|
      modifies this
      ensures Valid() && UdpHeld(old(delayed), old(left), old(entered), p, complete)
    {
      JoinedStep(delayed, p);
      Queue(p);
      if complete {
        Drain(Replayed);
        ReasmStop();
      }
    }

    /** The packet waits with those queued, or all of them are replayed. */
    ghost predicate UdpHeld(delayed0: seq<Held>, left0: seq<Gone>, entered0: seq<Held>, p: Held, complete: bool)
      reads this
    {
      && entered == entered0 + [p]
      && if complete then Idle() && left == left0 + AllGone(delayed0 + [p], Replayed)
         else delayed == delayed0 + [p] && left == left0
    }

    /** The packet is queued; when the record is complete the whole queue is replayed. */
    method HoldBack(p: Held)
      requires !udp && Conserved() && 0 < size && Holding(if delayed == [] then p.seqNum else delayed[0].seqNum, p.data)
      requires 6 <= sizePresent && size == TlsHello.TLSRecordLen(packet[..sizePresent]) && InOrder(delayed + [p])
      modifies this
      ensures Valid() && entered == old(entered) + [p]
      ensures if Complete(Joined(old(delayed) + [p]))
              then Idle() && left == old(left) + AllGone(old(delayed) + [p], Replayed)
              else Collecting() && delayed == old(delayed) + [p] && left == old(left)
    {
      JoinedStep(delayed, p);
      ghost var all := Joined(delayed) + p.data;
      Queue(p);
      if ReasmIsFull() {
        Drain(Replayed);
        ReasmStop();
      }
    }

    /** What one packet does to the queue: if it is not held back, nothing stays held back.  If it is, it waits with the
        packets it continues, or all of them are replayed once the record is complete; or it waits alone, and what was queued
        is flushed. */
    ghost predicate Outcome(delayed0: seq<Held>, left0: seq<Gone>, entered0: seq<Held>, p: Held, held: bool)
      reads this, packet
    {
      if !held then
        Idle() && entered == entered0 && left == left0 + AllGone(delayed0, Flushed)
      else
        && entered == entered0 + [p]
        && if !Continues(delayed0, p) then
             delayed == [p] && left == left0 + AllGone(delayed0, Flushed)
           else if Complete(Joined(delayed0 + [p])) then
             Idle() && left == left0 + AllGone(delayed0 + [p], Replayed)
           else
             delayed == delayed0 + [p] && left == left0
    }
  }

  lemma FedBytes(joined: seq<byte>, data: seq<byte>, n: nat, n': nat, size: nat)
    requires n == |joined| <= size && n' == Track.Min(size, n + |data|)
    ensures joined + data[..n' - n] == (joined + data)[..n']
  {
  }
}
