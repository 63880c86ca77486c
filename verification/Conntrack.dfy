/** The connection table of nfq/conntrack.c: one entry per flow, whichever side sends. */
module Conntrack {
  import opened Options
  import opened Linked
  import opened UtHash

  const IPPROTO_TCP := 6
  const IPPROTO_UDP := 17
  const U32 := 0x1_0000_0000
  const U64 := 0x1_0000_0000_0000_0000

  /** t_conn */
  datatype Conn = Conn(src: nat, dst: nat, sport: nat, dport: nat, l3proto: nat, l4proto: nat)

  /** connswap */
  function Swap(c: Conn): Conn {
    Conn(c.dst, c.src, c.dport, c.sport, c.l3proto, c.l4proto)
  }

  datatype State = Syn | Established | Fin

  /** The parts of t_ctrack that feeding a packet updates. */
  datatype Track = Track(
    state: State, tLast: int, cutoff: bool,
    pcounterOrig: nat, pcounterReply: nat, pdcounterOrig: nat, pdcounterReply: nat,
    posOrig: nat, posReply: nat, seqLast: nat, ackLast: nat, seq0: nat, ack0: nat)

  /** ConntrackInitTrack */
  function FreshTrack(): Track {
    Track(Syn, 0, false, 0, 0, 0, 0, 0, 0, 0, 0, 0, 0)
  }

  datatype Segment = Segment(syn: bool, synAck: bool, finRst: bool, th_seq: nat, th_ack: nat)

  function Wrap(x: int, m: nat): (r: nat)
    requires 0 < m
    ensures r < m
  {
    x % m
  }

  // ---------- one packet ----------

  function Counted(t: Track, reverse: bool, len: nat): Track {
    var d := if len != 0 then 1 else 0;
    if reverse then t.(pcounterReply := Wrap(t.pcounterReply + 1, U64), pdcounterReply := Wrap(t.pdcounterReply + d, U64))
    else t.(pcounterOrig := Wrap(t.pcounterOrig + 1, U64), pdcounterOrig := Wrap(t.pdcounterOrig + d, U64))
  }

  /** The connection state machine; a new SYN or a foreign SYN,ACK starts the entry over. */
  function TcpState(t: Track, reverse: bool, s: Segment): Track {
    if s.syn then (if t.state != Syn then FreshTrack() else t).(seq0 := s.th_seq)
    else if s.synAck then
      var seq0 := Wrap(s.th_ack - 1, U32);
      var t1 := if t.state != Syn && t.seq0 != seq0 then FreshTrack() else t;
      t1.(seq0 := if t1.seq0 == 0 then seq0 else t1.seq0, ack0 := s.th_seq)
    else if s.finRst then t.(state := Fin)
    else if t.state == Syn then
      t.(state := Established, ack0 := if !reverse && t.ack0 == 0 then Wrap(s.th_ack - 1, U32) else t.ack0)
    else t
  }

  function TcpPositions(t: Track, reverse: bool, s: Segment, len: nat): Track {
    if reverse then
      t.(posOrig := s.th_ack, seqLast := s.th_ack, ackLast := s.th_seq, posReply := Wrap(s.th_seq + len, U32))
    else
      t.(seqLast := s.th_seq, posOrig := Wrap(s.th_seq + len, U32), posReply := s.th_ack, ackLast := s.th_ack)
  }

  function UdpPositions(t: Track, reverse: bool, len: nat): Track {
    if reverse then t.(ackLast := t.posReply, posReply := Wrap(t.posReply + len, U32))
    else t.(seqLast := t.posOrig, posOrig := Wrap(t.posOrig + len, U32))
  }

  /** ConntrackFeedPacket */
  function FeedPacket(t: Track, reverse: bool, tcp: Option<Segment>, len: nat, now: int): Track {
    var t1 := Counted(t, reverse, len);
    var t2 := if tcp.Some? then TcpPositions(TcpState(t1, reverse, tcp.value), reverse, tcp.value, len)
              else UdpPositions(t1, reverse, len);
    t2.(tLast := now)
  }

  // ---------- UDP: counters are exact sums over the datagrams of the entry ----------

  /** A packet as it is fed to an entry; no segment for what is not TCP. */
  datatype Packet = Packet(reverse: bool, len: nat, at: int, tcp: Option<Segment>)

  function SentBytes(trace: seq<Packet>, reverse: bool): nat {
    if trace == [] then 0
    else SentBytes(trace[..|trace| - 1], reverse) + (if trace[|trace| - 1].reverse == reverse then trace[|trace| - 1].len else 0)
  }

  function SentPackets(trace: seq<Packet>, reverse: bool, withData: bool): nat {
    if trace == [] then 0
    else
      var d := trace[|trace| - 1];
      SentPackets(trace[..|trace| - 1], reverse, withData) + (if d.reverse == reverse && (withData ==> d.len != 0) then 1 else 0)
  }

  lemma WrapAdd(a: nat, b: nat, m: nat)
    requires 0 < m
    ensures Wrap(Wrap(a, m) + b, m) == Wrap(a + b, m)
  {
    var low := Wrap(a, m);
    assert low == Modulo(a, m);
    var q := ModuloParts(a, m);
    var p := ModuloParts(low + b, m);
    WrapSum(a, q, low, b, p, Modulo(low + b, m), m);
  }

  lemma WrapSum(a: nat, q: nat, low: nat, b: nat, p: nat, r: nat, m: nat)
    requires r < m && a == q * m + low && low + b == p * m + r
    ensures Wrap(a + b, m) == r
  {
    assert a + b == (q + p) * m + r;
    ModuloIs(a + b, q + p, r, m);
  }

  /** Bytes sent in that direction before its last datagram: where that one began. */
  function LastBegan(trace: seq<Packet>, reverse: bool): nat {
    if trace == [] then 0
    else
      var before := trace[..|trace| - 1];
      if trace[|trace| - 1].reverse == reverse then SentBytes(before, reverse) else LastBegan(before, reverse)
  }

  /** A count for each direction. */
  datatype Both = Both(orig: nat, reply: nat) {
    function Plus(reverse: bool, n: nat): Both {
      if reverse then Both(orig, reply + n) else Both(orig + n, reply)
    }

    function Of(reverse: bool): nat {
      if reverse then reply else orig
    }

    function Set(reverse: bool, n: nat): Both {
      if reverse then Both(orig, n) else Both(n, reply)
    }
  }

  /** Exact sums over a trace, without any wrap-around. */
  datatype Sums = Sums(bytes: Both, began: Both, packets: Both, data: Both)

  function SumsOf(trace: seq<Packet>): Sums {
    Sums(Both(SentBytes(trace, false), SentBytes(trace, true)), Both(LastBegan(trace, false), LastBegan(trace, true)),
         Both(SentPackets(trace, false, false), SentPackets(trace, true, false)),
         Both(SentPackets(trace, false, true), SentPackets(trace, true, true)))
  }

  /** Positions, last positions and counters of a track are those sums modulo the widths of the fields. */
  ghost predicate Tallies(t: Track, s: Sums) {
    && t.posOrig == Wrap(s.bytes.orig, U32) && t.posReply == Wrap(s.bytes.reply, U32)
    && t.seqLast == Wrap(s.began.orig, U32) && t.ackLast == Wrap(s.began.reply, U32)
    && t.pcounterOrig == Wrap(s.packets.orig, U64) && t.pcounterReply == Wrap(s.packets.reply, U64)
    && t.pdcounterOrig == Wrap(s.data.orig, U64) && t.pdcounterReply == Wrap(s.data.reply, U64)
  }

  function SumsPlus(s: Sums, d: Packet): Sums {
    Sums(s.bytes.Plus(d.reverse, d.len), s.began.Set(d.reverse, s.bytes.Of(d.reverse)), s.packets.Plus(d.reverse, 1),
         s.data.Plus(d.reverse, if d.len != 0 then 1 else 0))
  }

  lemma TalliesStep(t: Track, d: Packet, s: Sums)
    requires Tallies(t, s) && d.tcp.None?
    ensures Tallies(FeedPacket(t, d.reverse, None, d.len, d.at), SumsPlus(s, d))
  {
    WrapAdd(s.bytes.Of(d.reverse), d.len, U32);
    WrapAdd(s.packets.Of(d.reverse), 1, U64);
    WrapAdd(s.data.Of(d.reverse), if d.len != 0 then 1 else 0, U64);
  }

  lemma SumsStep(trace: seq<Packet>, d: Packet)
    ensures SumsOf(trace + [d]) == SumsPlus(SumsOf(trace), d)
  {
    assert (trace + [d])[..|trace|] == trace;
  }

  /** A datagram more in the trace, and fed to the track. */
  lemma TraceGrows(t: Track, trace: seq<Packet>, d: Packet)
    requires Tallies(t, SumsOf(trace)) && d.tcp.None?
    ensures Tallies(FeedPacket(t, d.reverse, None, d.len, d.at), SumsOf(trace + [d]))
  {
    TalliesStep(t, d, SumsOf(trace));
    SumsStep(trace, d);
  }

  lemma FreshTallies()
    ensures Tallies(FreshTrack(), SumsOf([]))
  {
    WrapZero(U32);
    WrapZero(U64);
  }

  lemma WrapZero(m: nat)
    requires 0 < m
    ensures Wrap(0, m) == 0
  {
    ModuloIs(0, 0, 0, m);
  }

  // ---------- TCP: what an entry says about the segments fed to it ----------

  /** A SYN or a SYN,ACK. */
  predicate Handshake(p: Packet) {
    p.tcp.Some? && (p.tcp.value.syn || p.tcp.value.synAck)
  }

  predicate Closing(p: Packet) {
    p.tcp.Some? && !Handshake(p) && p.tcp.value.finRst
  }

  predicate Plain(p: Packet) {
    p.tcp.Some? && !Handshake(p) && !p.tcp.value.finRst
  }

  /** The first packet that is no handshake, or the number of packets if there is none. */
  function Opening(life: seq<Packet>): (o: nat)
    ensures o <= |life| && (forall k :: 0 <= k < o ==> Handshake(life[k])) && (o < |life| ==> !Handshake(life[o]))
  {
    if life == [] then 0
    else
      var o := Opening(life[..|life| - 1]);
      if o < |life| - 1 || !Handshake(life[|life| - 1]) then o else |life|
  }

  /** The initial numbers of the sending side that were announced since the last SYN: by that SYN, and in the acknowledgments
      of the SYN,ACKs. */
  function Initials(life: seq<Packet>): seq<nat> {
    if life == [] then []
    else
      var p := life[|life| - 1];
      if p.tcp.Some? && p.tcp.value.syn then [p.tcp.value.th_seq]
      else if Handshake(p) then Initials(life[..|life| - 1]) + [Wrap(p.tcp.value.th_ack - 1, U32)]
      else Initials(life[..|life| - 1])
  }

  function FirstNonZero(numbers: seq<nat>): nat {
    if numbers == [] then 0
    else if numbers[0] != 0 then numbers[0] else FirstNonZero(numbers[1..])
  }

  /** The number of the last SYN,ACK. */
  function LastSynAck(life: seq<Packet>): Option<nat> {
    if life == [] then None
    else
      var p := life[|life| - 1];
      if Handshake(p) && !p.tcp.value.syn then Some(p.tcp.value.th_seq) else LastSynAck(life[..|life| - 1])
  }

  /** The initial number of the replying side, when packet o is the first that is no handshake: that of the last SYN,ACK, if it
      came after packet o; otherwise that of the last one before it, and where that left nothing but 0, what an outgoing packet o
      acknowledges. */
  function ReplyFrom(life: seq<Packet>, o: nat): nat
    requires o <= |life|
  {
    var late := LastSynAck(life[o..]);
    var early := if LastSynAck(life[..o]).Some? then LastSynAck(life[..o]).value else 0;
    if late.Some? then late.value
    else if o < |life| && Plain(life[o]) && !life[o].reverse && early == 0 then Wrap(life[o].tcp.value.th_ack - 1, U32)
    else early
  }

  function ReplyInitial(life: seq<Packet>): nat {
    ReplyFrom(life, Opening(life))
  }

  /** A connection that has got beyond its handshake is over with a SYN, and with a SYN,ACK for another initial number. */
  predicate StartsOver(life: seq<Packet>, p: Packet) {
    && Opening(life) < |life| && Handshake(p)
    && (p.tcp.value.syn || Wrap(p.tcp.value.th_ack - 1, U32) != FirstNonZero(Initials(life)))
  }

  /** Where in the trace the present connection starts. */
  function LifeStart(trace: seq<Packet>): (k: nat)
    ensures k <= |trace| && (trace != [] ==> k < |trace|)
  {
    if trace == [] then 0
    else
      var before := trace[..|trace| - 1];
      if StartsOver(before[LifeStart(before)..], trace[|trace| - 1]) then |trace| - 1 else LifeStart(before)
  }

  /** The packets of the present connection. */
  function Life(trace: seq<Packet>): seq<Packet> {
    trace[LifeStart(trace)..]
  }

  /** The packets that count: a packet that starts the entry over is not counted itself. */
  function CountedPackets(trace: seq<Packet>): seq<Packet> {
    if LifeStart(trace) == 0 then trace else trace[LifeStart(trace) + 1..]
  }

  ghost predicate CountsAre(t: Track, counted: seq<Packet>) {
    && t.pcounterOrig == Wrap(SentPackets(counted, false, false), U64)
    && t.pcounterReply == Wrap(SentPackets(counted, true, false), U64)
    && t.pdcounterOrig == Wrap(SentPackets(counted, false, true), U64)
    && t.pdcounterReply == Wrap(SentPackets(counted, true, true), U64)
  }

  /** The state follows from the packets since the handshake: finished by a FIN or RST, established by anything else. */
  ghost predicate StateIs(state: State, life: seq<Packet>) {
    && (state == Fin <==> exists p :: p in life && Closing(p))
    && (state == Syn <==> forall p :: p in life ==> Handshake(p))
  }

  /** The positions are those of the last packet: its own number and the one behind its data for the side that sent it, what it
      acknowledges for the other. */
  ghost predicate PositionsAre(t: Track, p: Packet) {
    && p.tcp.Some?
    && var own, behind, other := p.tcp.value.th_seq, Wrap(p.tcp.value.th_seq + p.len, U32), p.tcp.value.th_ack;
       if p.reverse then t.ackLast == own && t.posReply == behind && t.seqLast == other && t.posOrig == other
       else t.seqLast == own && t.posOrig == behind && t.ackLast == other && t.posReply == other
  }

  predicate SeenLast(t: Track, trace: seq<Packet>) {
    trace != [] ==> t.tLast == trace[|trace| - 1].at
  }

  /** State, counters and initial numbers. */
  ghost predicate LifeTells(t: Track, life: seq<Packet>, counted: seq<Packet>) {
    StateIs(t.state, life) && CountsAre(t, counted) && t.seq0 == FirstNonZero(Initials(life)) && t.ack0 == ReplyInitial(life)
  }

  /** What the track of a TCP entry is, told by the packets fed to it. */
  ghost predicate TcpTells(t: Track, trace: seq<Packet>) {
    && (forall k :: 0 <= k < |trace| ==> trace[k].tcp.Some?)
    && LifeTells(t, Life(trace), CountedPackets(trace))
    && (trace != [] ==> PositionsAre(t, trace[|trace| - 1])) && SeenLast(t, trace)
  }

  lemma {:induction false} FirstNonZeroMore(numbers: seq<nat>, x: nat)
    ensures FirstNonZero(numbers + [x]) == if FirstNonZero(numbers) != 0 then FirstNonZero(numbers) else x
  {
    if numbers == [] {
      assert numbers + [x] == [x] && [x][1..] == [];
    } else {
      assert (numbers + [x])[1..] == numbers[1..] + [x];
      FirstNonZeroMore(numbers[1..], x);
    }
  }

  lemma LifeGrows(trace: seq<Packet>, p: Packet)
    ensures Life(trace + [p]) == if StartsOver(Life(trace), p) then [p] else Life(trace) + [p]
    ensures CountedPackets(trace + [p]) == if StartsOver(Life(trace), p) then [] else CountedPackets(trace) + [p]
  {
    var more := trace + [p];
    assert more[..|trace|] == trace;
    if StartsOver(Life(trace), p) {
      assert LifeStart(more) == |trace| != 0;
    } else {
      assert LifeStart(more) == LifeStart(trace);
      assert trace == [] ==> CountedPackets(more) == [p];
    }
  }

  lemma InitialsGrow(life: seq<Packet>, p: Packet)
    ensures FirstNonZero(Initials(life + [p])) ==
            if !Handshake(p) then FirstNonZero(Initials(life))
            else if p.tcp.value.syn then p.tcp.value.th_seq
            else if FirstNonZero(Initials(life)) != 0 then FirstNonZero(Initials(life))
            else Wrap(p.tcp.value.th_ack - 1, U32)
  {
    assert (life + [p])[..|life|] == life;
    if Handshake(p) && !p.tcp.value.syn {
      FirstNonZeroMore(Initials(life), Wrap(p.tcp.value.th_ack - 1, U32));
    } else if Handshake(p) {
      assert [p.tcp.value.th_seq][1..] == [];
    }
  }

  lemma OpeningGrows(life: seq<Packet>, p: Packet)
    ensures Opening(life + [p]) == if Opening(life) < |life| || !Handshake(p) then Opening(life) else |life| + 1
  {
    assert (life + [p])[..|life|] == life;
  }

  lemma SynAckGrows(life: seq<Packet>, p: Packet)
    ensures LastSynAck(life + [p]) == if Handshake(p) && !p.tcp.value.syn then Some(p.tcp.value.th_seq) else LastSynAck(life)
  {
    assert (life + [p])[..|life|] == life;
  }

  lemma ReplyAfterOpening(life: seq<Packet>, p: Packet, o: nat)
    requires o < |life|
    ensures ReplyFrom(life + [p], o) == if Handshake(p) && !p.tcp.value.syn then p.tcp.value.th_seq else ReplyFrom(life, o)
  {
    var more := life + [p];
    assert more[..o] == life[..o] && more[o..] == life[o..] + [p] && more[o] == life[o];
    SynAckGrows(life[o..], p);
  }

  lemma ReplyInHandshake(life: seq<Packet>, p: Packet)
    ensures ReplyFrom(life + [p], |life| + 1) ==
            if Handshake(p) && !p.tcp.value.syn then p.tcp.value.th_seq else ReplyFrom(life, |life|)
  {
    var more := life + [p];
    assert life[..|life|] == life && life[|life|..] == [] && more[..|life| + 1] == more && more[|life| + 1..] == [];
    SynAckGrows(life, p);
  }

  lemma ReplyAtOpening(life: seq<Packet>, p: Packet)
    requires !Handshake(p)
    ensures ReplyFrom(life + [p], |life|) ==
            if Plain(p) && !p.reverse && ReplyFrom(life, |life|) == 0 then Wrap(p.tcp.value.th_ack - 1, U32)
            else ReplyFrom(life, |life|)
  {
    var more := life + [p];
    assert life[..|life|] == life && life[|life|..] == [] && more[..|life|] == life && more[|life|..] == [] + [p];
    SynAckGrows([], p);
  }

  lemma ReplyGrows(life: seq<Packet>, p: Packet)
    ensures ReplyInitial(life + [p]) ==
            if Handshake(p) then (if p.tcp.value.syn then ReplyInitial(life) else p.tcp.value.th_seq)
            else if Opening(life) == |life| && Plain(p) && !p.reverse && ReplyInitial(life) == 0 then Wrap(p.tcp.value.th_ack - 1, U32)
            else ReplyInitial(life)
  {
    OpeningGrows(life, p);
    if Opening(life) < |life| {
      ReplyAfterOpening(life, p, Opening(life));
    } else if Handshake(p) {
      ReplyInHandshake(life, p);
    } else {
      ReplyAtOpening(life, p);
    }
  }

  lemma StateGrows(state: State, life: seq<Packet>, p: Packet)
    requires StateIs(state, life) && p.tcp.Some?
    ensures StateIs(if Handshake(p) then state else if Closing(p) then Fin else if state == Syn then Established else state, life + [p])
    ensures state == Syn <==> Opening(life) == |life|
  {
    var more := life + [p];
    assert p == more[|life|];
    assert forall q :: q in more <==> q in life || q == p;
    if Opening(life) < |life| {
      assert life[Opening(life)] in life;
    }
  }

  lemma StateBegins(p: Packet)
    requires Handshake(p)
    ensures StateIs(Syn, [p])
  {
    assert forall q :: q in [p] ==> q == p;
  }

  lemma CountsGrow(t: Track, counted: seq<Packet>, p: Packet)
    requires CountsAre(t, counted)
    ensures CountsAre(Counted(t, p.reverse, p.len), counted + [p])
  {
    assert (counted + [p])[..|counted|] == counted;
    WrapAdd(SentPackets(counted, p.reverse, false), 1, U64);
    WrapAdd(SentPackets(counted, p.reverse, true), if p.len != 0 then 1 else 0, U64);
  }

  lemma CountsBegin(t: Track)
    ensures t.pcounterOrig == t.pcounterReply == t.pdcounterOrig == t.pdcounterReply == 0 ==> CountsAre(t, [])
  {
    WrapZero(U64);
  }

  /** Whether p starts the entry over, from what the entry knows. */
  predicate Over(early: bool, first: nat, p: Packet) {
    !early && Handshake(p) && (p.tcp.value.syn || Wrap(p.tcp.value.th_ack - 1, U32) != first)
  }

  /** One segment, by what the track says of the connection so far: whether it is still in its handshake, and the two initial
      numbers. */
  lemma FedTrack(t: Track, p: Packet, early: bool, first: nat, reply: nat)
    requires t.seq0 == first && t.ack0 == reply && (t.state == Syn <==> early)
    requires p.tcp.Some? && !(p.tcp.value.syn && p.tcp.value.synAck)
    ensures var t' := FeedPacket(t, p.reverse, p.tcp, p.len, p.at);
            && PositionsAre(t', p) && t'.tLast == p.at
            && if Over(early, first, p) then
                 && t'.state == Syn && t'.pcounterOrig == t'.pcounterReply == t'.pdcounterOrig == t'.pdcounterReply == 0
                 && t'.seq0 == (if p.tcp.value.syn then p.tcp.value.th_seq else Wrap(p.tcp.value.th_ack - 1, U32))
                 && t'.ack0 == (if p.tcp.value.syn then 0 else p.tcp.value.th_seq)
               else
                 && t'.state == (if Handshake(p) then t.state else if Closing(p) then Fin else if early then Established else t.state)
                 && t'.seq0 == (if !Handshake(p) then first else if p.tcp.value.syn then p.tcp.value.th_seq
                                else if first != 0 then first else Wrap(p.tcp.value.th_ack - 1, U32))
                 && t'.ack0 == (if Handshake(p) then (if p.tcp.value.syn then reply else p.tcp.value.th_seq)
                                else if early && Plain(p) && !p.reverse && reply == 0 then Wrap(p.tcp.value.th_ack - 1, U32)
                                else reply)
                 && SameCounts(t', Counted(t, p.reverse, p.len))
  {
  }

  predicate SameCounts(t: Track, u: Track) {
    && t.pcounterOrig == u.pcounterOrig && t.pcounterReply == u.pcounterReply
    && t.pdcounterOrig == u.pdcounterOrig && t.pdcounterReply == u.pdcounterReply
  }

  /** One segment, by the packets of the connection so far. */
  lemma LifeFed(t: Track, life: seq<Packet>, counted: seq<Packet>, p: Packet)
    requires LifeTells(t, life, counted) && p.tcp.Some? && !(p.tcp.value.syn && p.tcp.value.synAck)
    ensures var t' := FeedPacket(t, p.reverse, p.tcp, p.len, p.at);
            && PositionsAre(t', p) && t'.tLast == p.at
            && if StartsOver(life, p) then LifeTells(t', [p], []) else LifeTells(t', life + [p], counted + [p])
  {
    var t' := FeedPacket(t, p.reverse, p.tcp, p.len, p.at);
    StateGrows(t.state, life, p);
    FedTrack(t, p, Opening(life) == |life|, FirstNonZero(Initials(life)), ReplyInitial(life));
    if StartsOver(life, p) {
      LifeBegins(t', p);
    } else {
      LifeGoesOn(t, t', life, counted, p);
    }
  }

  /** A segment more in the trace, and fed to the track. */
  lemma TcpTraceGrows(t: Track, trace: seq<Packet>, p: Packet)
    requires TcpTells(t, trace) && p.tcp.Some? && !(p.tcp.value.syn && p.tcp.value.synAck)
    ensures TcpTells(FeedPacket(t, p.reverse, p.tcp, p.len, p.at), trace + [p])
  {
    LifeGrows(trace, p);
    LifeFed(t, Life(trace), CountedPackets(trace), p);
    MoreTells(t, FeedPacket(t, p.reverse, p.tcp, p.len, p.at), trace, p, trace + [p]);
  }

  lemma MoreTells(t: Track, t': Track, trace: seq<Packet>, p: Packet, more: seq<Packet>)
    requires more == trace + [p] && p.tcp.Some? && forall k :: 0 <= k < |trace| ==> trace[k].tcp.Some?
    requires LifeTells(t', Life(more), CountedPackets(more)) && PositionsAre(t', p) && t'.tLast == p.at
    ensures TcpTells(t', more)
  {
  }

  lemma LifeBegins(t: Track, p: Packet)
    requires Handshake(p) && t.state == Syn && t.pcounterOrig == t.pcounterReply == t.pdcounterOrig == t.pdcounterReply == 0
    requires t.seq0 == (if p.tcp.value.syn then p.tcp.value.th_seq else Wrap(p.tcp.value.th_ack - 1, U32))
    requires t.ack0 == (if p.tcp.value.syn then 0 else p.tcp.value.th_seq)
    ensures StateIs(t.state, [p]) && CountsAre(t, []) && t.seq0 == FirstNonZero(Initials([p])) && t.ack0 == ReplyInitial([p])
  {
    StateBegins(p);
    CountsBegin(t);
    InitialsGrow([], p);
    ReplyGrows([], p);
    assert [] + [p] == [p];
  }

  lemma LifeGoesOn(t: Track, t': Track, life: seq<Packet>, counted: seq<Packet>, p: Packet)
    requires StateIs(t.state, life) && CountsAre(t, counted) && p.tcp.Some?
    requires SameCounts(t', Counted(t, p.reverse, p.len))
    requires t'.state == if Handshake(p) then t.state else if Closing(p) then Fin else if t.state == Syn then Established else t.state
    requires t'.seq0 == if !Handshake(p) then FirstNonZero(Initials(life)) else if p.tcp.value.syn then p.tcp.value.th_seq
                        else if FirstNonZero(Initials(life)) != 0 then FirstNonZero(Initials(life))
                        else Wrap(p.tcp.value.th_ack - 1, U32)
    requires t'.ack0 == if Handshake(p) then (if p.tcp.value.syn then ReplyInitial(life) else p.tcp.value.th_seq)
                        else if Opening(life) == |life| && Plain(p) && !p.reverse && ReplyInitial(life) == 0
                        then Wrap(p.tcp.value.th_ack - 1, U32)
                        else ReplyInitial(life)
    ensures StateIs(t'.state, life + [p]) && CountsAre(t', counted + [p])
    ensures t'.seq0 == FirstNonZero(Initials(life + [p])) && t'.ack0 == ReplyInitial(life + [p])
  {
    StateGrows(t.state, life, p);
    CountsGrow(t, counted, p);
    InitialsGrow(life, p);
    ReplyGrows(life, p);
  }

  lemma FreshTells()
    ensures TcpTells(FreshTrack(), [])
  {
    CountsBegin(FreshTrack());
  }

  // ---------- the pool ----------

  /** Timeouts by state, in seconds. */
  datatype Timeouts = Timeouts(syn: nat, established: nat, fin: nat, udp: nat)

  predicate Expired(c: Conn, t: Track, now: int, p: Timeouts) {
    var idle := now - t.tLast;
    || t.cutoff
    || (c.l4proto == IPPROTO_TCP && idle >= (match t.state case Syn => p.syn case Established => p.established case Fin => p.fin))
    || (c.l4proto == IPPROTO_UDP && idle >= p.udp)
  }

  /** An entry is overdue when nothing has come for as long as its kind and its history allow. */
  ghost predicate Overdue(c: Conn, trace: seq<Packet>, now: int, p: Timeouts)
    requires trace != []
  {
    var idle, life := now - trace[|trace| - 1].at, Life(trace);
    if c.l4proto == IPPROTO_TCP then
      idle >= (if exists q :: q in life && Closing(q) then p.fin
               else if forall q :: q in life ==> Handshake(q) then p.syn else p.established)
    else c.l4proto == IPPROTO_UDP && idle >= p.udp
  }

  /** What Purge removes, told by the history of the entry: it is cut off or overdue. */
  lemma ExpiredIsOverdue(x: nat, keys: map<nat, Conn>, tracks: map<nat, Track>, traces: map<nat, seq<Packet>>, now: int, p: Timeouts)
    requires EntryOk(x, keys, tracks, traces) && x in keys && TraceOf(traces, x) != []
    ensures Expired(keys[x], tracks[x], now, p) <==> tracks[x].cutoff || Overdue(keys[x], TraceOf(traces, x), now, p)
  {
  }

  class Pool {
    const table: HashTable<Conn>
    var tracks: map<nat, Track>
    ghost var traces: map<nat, seq<Packet>>    // what has been fed to each entry
    var lastPurge: int
    const purgeInterval: int
    const timeouts: Timeouts

    /** Entries have tracks, no two of them are the same flow in either direction, and every number in a track is what the
        packets fed to it make it: sums for what is not TCP, what TcpTells says for TCP. */
    ghost predicate Valid()
      reads this, table
    {
      && table.Valid() && OneEntryPerFlow(table.order, table.keys)
      && forall x :: x in table.order ==> EntryOk(x, table.keys, tracks, traces)
    }

    constructor (elements: set<nat>, hash: Conn -> nat, purgeInterval: int, timeouts: Timeouts, now: int)
      ensures Valid() && fresh(table) && table.order == [] && table.app.Keys == elements
    {
      table := new HashTable<Conn>(elements, hash);
      tracks, traces, lastPurge := map[], map[], now;
      this.purgeInterval, this.timeouts := purgeInterval, timeouts;
    }

    /** ConntrackPoolDoubleSearchPool: the entry of the flow, looked up as the packet has it and then swapped. */
    method DoubleSearch(conn: Conn) returns (ctr: nat, reverse: bool)
      requires Valid()
      ensures ctr != NULL ==> ctr in table.order && table.keys[ctr] == (if reverse then Swap(conn) else conn)
      ensures ctr == NULL <==> forall x :: x in table.order ==> table.keys[x] != conn && table.keys[x] != Swap(conn)
      ensures reverse ==> forall x :: x in table.order ==> table.keys[x] != conn
    {
      reverse := false;
      ctr := table.Find(conn);
      if ctr == NULL {
        ctr := table.Find(Swap(conn));
        reverse := ctr != NULL;
      }
      NullNotListed(table.app, table.order);
    }

    /** ConntrackPoolFeedPool: `e` is the address malloc would return for a new entry. */
    method Feed(conn: Conn, tcp: Option<Segment>, len: nat, now: int, e: nat) returns (found: bool, ctr: nat, reverse: bool)
      requires Valid() && e != NULL && e in table.app && e !in table.order && PacketOk(conn, tcp)
      modifies this, table
      ensures Valid() && table.app.Keys == old(table.app).Keys
      ensures !found ==> tracks == old(tracks) && traces == old(traces) && table.order == old(table.order) && table.keys == old(table.keys)
      ensures found ==> Fed(conn, tcp, len, now, e, ctr, reverse, old(table.order), old(tracks), old(traces))
      ensures found <==> Opens(conn, tcp) || exists x :: x in old(table.order) && old(table.keys)[x] in {conn, Swap(conn)}
    {
      ctr, reverse := DoubleSearch(conn);
      if ctr != NULL {
        FeedEntry(ctr, reverse, conn, tcp, len, now);
        return true, ctr, reverse;
      }
      reverse := tcp.Some? && tcp.value.synAck;
      if (tcp.Some? && tcp.value.syn) || reverse || conn.l4proto == IPPROTO_UDP {
        NewEntry(e, reverse, conn, tcp, len, now);
        return true, e, reverse;
      }
      return false, NULL, false;
    }

    /** ConntrackFeedPacket on an entry of the table. */
    method FeedEntry(ctr: nat, reverse: bool, conn: Conn, tcp: Option<Segment>, len: nat, now: int)
      requires Valid() && ctr in table.order && PacketOk(conn, tcp) && table.keys[ctr].l4proto == conn.l4proto
      modifies this`tracks, this`traces
      ensures Valid() && Updated(ctr, reverse, tcp, len, now, old(tracks), old(traces), old(tracks[ctr]), TraceOf(old(traces), ctr))
    {
      TrackFed(ctr, table.keys, tracks, traces, Packet(reverse, len, now, tcp));
      var t := FeedPacket(tracks[ctr], reverse, tcp, len, now);
      OthersKept(table.order, table.keys, table.keys, tracks, traces, ctr, t, TraceOf(traces, ctr) + [Packet(reverse, len, now, tcp)]);
      traces := traces[ctr := TraceOf(traces, ctr) + [Packet(reverse, len, now, tcp)]];
      tracks := tracks[ctr := t];
    }

    /** ConntrackNew and the first packet. */
    method NewEntry(e: nat, reverse: bool, conn: Conn, tcp: Option<Segment>, len: nat, now: int)
      requires Valid() && e != NULL && e in table.app && e !in table.order && PacketOk(conn, tcp)
      requires forall x :: x in table.order ==> table.keys[x] != conn && table.keys[x] != Swap(conn)
      modifies this, table
      ensures Valid() && table.app.Keys == old(table.app).Keys && table.order == old(table.order) + [e]
      ensures e in table.keys && table.keys[e] == (if reverse then Swap(conn) else conn)
      ensures Updated(e, reverse, tcp, len, now, old(tracks), old(traces), FreshTrack(), [])
    {
      var c := if reverse then Swap(conn) else conn;
      ghost var tracks0, traces0 := tracks, traces;
      AddEntry(e, c);
      FirstPacket(e, reverse, conn, tcp, len, now, tracks0, traces0);
    }

    method FirstPacket(e: nat, reverse: bool, conn: Conn, tcp: Option<Segment>, len: nat, now: int,
                       ghost tracks0: map<nat, Track>, ghost traces0: map<nat, seq<Packet>>)
      requires Valid() && e in table.order && PacketOk(conn, tcp) && table.keys[e].l4proto == conn.l4proto
      requires tracks == tracks0[e := FreshTrack()] && traces == traces0[e := []]
      modifies this`tracks, this`traces
      ensures Valid() && Updated(e, reverse, tcp, len, now, tracks0, traces0, FreshTrack(), [])
    {
      FeedEntry(e, reverse, conn, tcp, len, now);
      Twice(tracks0, e, FreshTrack(), FeedPacket(FreshTrack(), reverse, tcp, len, now));
      Twice(traces0, e, [], [] + [Packet(reverse, len, now, tcp)]);
    }

    /** ConntrackNew */
    method AddEntry(e: nat, c: Conn)
      requires Valid() && e != NULL && e in table.app && e !in table.order
      requires forall x :: x in table.order ==> table.keys[x] != c && table.keys[x] != Swap(c)
      modifies this, table
      ensures Valid() && table.app.Keys == old(table.app).Keys && table.order == old(table.order) + [e]
      ensures e in table.keys && table.keys[e] == c
      ensures tracks == old(tracks)[e := FreshTrack()] && traces == old(traces)[e := []]
    {
      OthersKept(table.order, table.keys, table.keys[e := c], tracks, traces, e, FreshTrack(), []);
      FreshEntryOk(e, table.keys[e := c], tracks[e := FreshTrack()], traces[e := []]);
      table.Add(e, c);
      tracks, traces := tracks[e := FreshTrack()], traces[e := []];
    }

    /** The track and the trace of one entry after a packet; the others are as they were. */
    ghost predicate Updated(ctr: nat, reverse: bool, tcp: Option<Segment>, len: nat, now: int,
                            tracks0: map<nat, Track>, traces0: map<nat, seq<Packet>>, t: Track, trace: seq<Packet>)
      reads this
    {
      && tracks == tracks0[ctr := FeedPacket(t, reverse, tcp, len, now)]
      && traces == traces0[ctr := trace + [Packet(reverse, len, now, tcp)]]
    }

    /** What a fed packet leaves: the flow's entry in the direction of the packet, with the packet counted, and every
        other entry as it was. */
    ghost predicate Fed(conn: Conn, tcp: Option<Segment>, len: nat, now: int, e: nat, ctr: nat, reverse: bool,
                        order0: seq<nat>, tracks0: map<nat, Track>, traces0: map<nat, seq<Packet>>)
      reads this, table
    {
      && ctr in table.order && ctr in table.keys && table.keys[ctr] == (if reverse then Swap(conn) else conn)
      && (if ctr in order0 then
            && ctr in tracks0 && table.order == order0
            && Updated(ctr, reverse, tcp, len, now, tracks0, traces0, tracks0[ctr], TraceOf(traces0, ctr))
          else
            && ctr == e && table.order == order0 + [e] && reverse == (tcp.Some? && tcp.value.synAck)
            && Updated(ctr, reverse, tcp, len, now, tracks0, traces0, FreshTrack(), []))
    }

    /** ConntrackPoolDropPool */
    method DropFlow(conn: Conn) returns (found: bool)
      requires Valid()
      modifies this, table
      ensures Valid() && forall x :: x in table.order ==> table.keys[x] != conn && table.keys[x] != Swap(conn)
      ensures forall x :: x in old(table.order) && old(table.keys)[x] != conn && old(table.keys)[x] != Swap(conn) ==> x in table.order
    {
      var ctr, reverse := DoubleSearch(conn);
      if ctr == NULL {
        return false;
      }
      WithoutElements(table.order, IndexOf(table.order, ctr));
      table.Delete(ctr);
      return true;
    }

    /** ConntrackPoolPurge: when the interval has passed, exactly the expired and cut-off entries go. */
    method Purge(now: int)
      requires Valid()
      modifies this, table
      ensures Valid() && tracks == old(tracks) && table.keys == old(table.keys)
      ensures now - old(lastPurge) < purgeInterval ==> table.order == old(table.order) && lastPurge == old(lastPurge)
      ensures now - old(lastPurge) >= purgeInterval ==> Purged(old(table.order), now) && lastPurge == now
    {
      if now - lastPurge >= purgeInterval {
        RemoveExpired(now);
        lastPurge := now;
      }
    }

    /** The entries are those of `order0` that had not expired, in their old order. */
    ghost predicate Purged(order0: seq<nat>, now: int)
      reads this, table
    {
      && table.order == Kept(order0, Doomed(table.keys, tracks, now, timeouts))
      && forall x: nat :: x in table.order <==> x in order0 && !(x in table.keys && x in tracks && Expired(table.keys[x], tracks[x], now, timeouts))
    }

    /** The HASH_ITER loop */
    method RemoveExpired(now: int)
      requires Valid()
      modifies table
      ensures Valid() && table.keys == old(table.keys) && Purged(old(table.order), now)
    {
      ghost var order0 := table.order;
      var visited := table.Sweep(Doomed(table.keys, tracks, now, timeouts));
      PurgedElements(order0, table.keys, tracks, now, timeouts);
    }
  }

  function Doomed(keys: map<nat, Conn>, tracks: map<nat, Track>, now: int, p: Timeouts): nat -> bool {
    x => x in keys && x in tracks && Expired(keys[x], tracks[x], now, p)
  }

  lemma PurgedElements(order: seq<nat>, keys: map<nat, Conn>, tracks: map<nat, Track>, now: int, p: Timeouts)
    ensures forall x: nat :: x in Kept(order, Doomed(keys, tracks, now, p)) <==>
                       x in order && !(x in keys && x in tracks && Expired(keys[x], tracks[x], now, p))
  {
    var doomed := Doomed(keys, tracks, now, p);
    forall x: nat
      ensures x in Kept(order, doomed) <==> x in order && !doomed(x)
    {
      KeptElements(order, doomed, x);
    }
  }

  function TraceOf(traces: map<nat, seq<Packet>>, x: nat): seq<Packet> {
    if x in traces then traces[x] else []
  }

  ghost predicate EntryOk(x: nat, keys: map<nat, Conn>, tracks: map<nat, Track>, traces: map<nat, seq<Packet>>) {
    && x in tracks
    && (x in keys ==>
          if keys[x].l4proto == IPPROTO_TCP then TcpTells(tracks[x], TraceOf(traces, x))
          else Tallies(tracks[x], SumsOf(TraceOf(traces, x))) && SeenLast(tracks[x], TraceOf(traces, x)))
  }

  /** How ConntrackExtractConn and the segment tests describe a packet. */
  predicate PacketOk(conn: Conn, tcp: Option<Segment>) {
    (tcp.Some? <==> conn.l4proto == IPPROTO_TCP) && (tcp.Some? ==> !(tcp.value.syn && tcp.value.synAck))
  }

  /** A packet that makes an entry if its flow has none. */
  predicate Opens(conn: Conn, tcp: Option<Segment>) {
    conn.l4proto == IPPROTO_UDP || (tcp.Some? && (tcp.value.syn || tcp.value.synAck))
  }

  lemma Twice<T>(m: map<nat, T>, e: nat, x: T, y: T)
    ensures m[e := x][e := y] == m[e := y]
  {
  }

  /** The other entries are right as before. */
  lemma OthersKept(order: seq<nat>, keys0: map<nat, Conn>, keys: map<nat, Conn>, tracks: map<nat, Track>,
                   traces: map<nat, seq<Packet>>, e: nat, t: Track, trace: seq<Packet>)
    requires forall x :: x in order ==> EntryOk(x, keys0, tracks, traces)
    requires forall x :: x in order && x != e ==> (x in keys <==> x in keys0) && (x in keys ==> keys[x] == keys0[x])
    ensures forall x :: x in order && x != e ==> EntryOk(x, keys, tracks[e := t], traces[e := trace])
  {
    forall x | x in order && x != e
      ensures EntryOk(x, keys, tracks[e := t], traces[e := trace])
    {
      SameEntry(x, keys0, tracks, traces, keys, tracks[e := t], traces[e := trace]);
    }
  }

  lemma SameEntry(x: nat, keys0: map<nat, Conn>, tracks0: map<nat, Track>, traces0: map<nat, seq<Packet>>,
                  keys: map<nat, Conn>, tracks: map<nat, Track>, traces: map<nat, seq<Packet>>)
    requires EntryOk(x, keys0, tracks0, traces0) && x in tracks && tracks[x] == tracks0[x]
    requires (x in keys <==> x in keys0) && (x in keys ==> keys[x] == keys0[x]) && TraceOf(traces, x) == TraceOf(traces0, x)
    ensures EntryOk(x, keys, tracks, traces)
  {
  }

  lemma FreshEntryOk(x: nat, keys: map<nat, Conn>, tracks: map<nat, Track>, traces: map<nat, seq<Packet>>)
    requires x in tracks && tracks[x] == FreshTrack() && TraceOf(traces, x) == []
    ensures EntryOk(x, keys, tracks, traces)
  {
    FreshTallies();
    FreshTells();
  }

  /** Feeding one entry keeps what it says right. */
  lemma TrackFed(x: nat, keys: map<nat, Conn>, tracks: map<nat, Track>, traces: map<nat, seq<Packet>>, p: Packet)
    requires EntryOk(x, keys, tracks, traces) && x in keys && (p.tcp.Some? <==> keys[x].l4proto == IPPROTO_TCP)
    requires p.tcp.Some? ==> !(p.tcp.value.syn && p.tcp.value.synAck)
    ensures var t, trace := FeedPacket(tracks[x], p.reverse, p.tcp, p.len, p.at), TraceOf(traces, x) + [p];
            if p.tcp.Some? then TcpTells(t, trace) else Tallies(t, SumsOf(trace)) && SeenLast(t, trace)
  {
    if p.tcp.Some? {
      TcpTraceGrows(tracks[x], TraceOf(traces, x), p);
    } else {
      TraceGrows(tracks[x], TraceOf(traces, x), p);
    }
  }

  ghost predicate OneEntryPerFlow(order: seq<nat>, keys: map<nat, Conn>) {
    forall x, y :: x in order && y in order && x in keys && y in keys && (keys[x] == keys[y] || keys[x] == Swap(keys[y])) ==> x == y
  }

  lemma NullNotListed(app: Links, order: seq<nat>)
    requires List(app, order)
    ensures NULL !in order
  {
  }

  /** A packet that was just fed is found again at the same entry; and in the same direction, unless its flow is its
      own reverse and it was a SYN,ACK that opened the entry. */
  method FindAgain(pool: Pool, conn: Conn, tcp: Option<Segment>, len: nat, now: int, e: nat)
    returns (found: bool, ctr: nat, reverse: bool, ctr': nat, reverse': bool)
    requires pool.Valid() && e != NULL && e in pool.table.app && e !in pool.table.order && PacketOk(conn, tcp)
    modifies pool, pool.table
    ensures pool.Valid()
    ensures found ==> ctr' == ctr
    ensures found && conn != Swap(conn) ==> reverse' == reverse
    ensures found && conn == Swap(conn) ==> !reverse'
  {
    found, ctr, reverse := pool.Feed(conn, tcp, len, now, e);
    ctr', reverse' := pool.DoubleSearch(conn);
  }
}
