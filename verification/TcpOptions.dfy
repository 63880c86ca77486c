/** TCP options: the writer in fill_tcphdr, tcpopt_len, and the tcp_find_* readers of nfq/darkmagic.c. */
module TcpOptions {
  import opened Options
  import opened Bytes
  import opened Layout

  const SCALE_NONE: byte := 0xFF
  const KIND_NOOP: byte := 1
  const KIND_MSS: byte := 2
  const KIND_SCALE: byte := 3
  const KIND_SACK: byte := 4
  const KIND_TIMESTAMPS: byte := 8
  const KIND_MD5SIG: byte := 19

  /** What to put in: no MSS when it is 0, no scale when it is SCALE_NONE; the signature is 16 random bytes, the timestamps
      are TSval and TSecr as they go on the wire. */
  datatype Wanted = Wanted(mss: nat, sack: bool, md5: Option<seq<byte>>, timestamps: Option<seq<byte>>, scale: byte)

  predicate WantedOk(w: Wanted) {
    w.mss < 0x1_0000 && (w.md5.Some? ==> |w.md5.value| == 16) && (w.timestamps.Some? ==> |w.timestamps.value| == 8)
  }

  // ---------- options as a list ----------

  datatype Opt = Opt(kind: byte, data: seq<byte>)

  function WriteOpt(o: Opt): (b: seq<byte>)
    requires |o.data| < 254
    ensures |b| == 2 + |o.data|
  {
    [o.kind, 2 + |o.data|] + o.data
  }

  ghost predicate OptsOk(os: seq<Opt>) {
    os == [] || (os[0].kind > 1 && |os[0].data| < 254 && OptsOk(os[1..]))
  }

  ghost function WriteOpts(os: seq<Opt>): seq<byte>
    requires OptsOk(os)
  {
    if os == [] then [] else WriteOpt(os[0]) + WriteOpts(os[1..])
  }

  ghost function FirstOpt(os: seq<Opt>, kind: byte): Option<seq<byte>> {
    if os == [] then None else if os[0].kind == kind then Some(os[0].data) else FirstOpt(os[1..], kind)
  }

  // ---------- the reader ----------

  /** tcp_find_option from t on; `end` is where the header ends. */
  function FindOption(b: seq<byte>, t: nat, end: nat, kind: byte): (r: Option<nat>)
    requires end <= |b|
    ensures r.Some? ==> t <= r.value && r.value + 2 <= end && 2 <= b[r.value + 1] && r.value + b[r.value + 1] <= end && b[r.value] == kind
    decreases if t < end then end - t else 0
  {
    if t >= end || b[t] == 0 then None
    else if b[t] == KIND_NOOP then FindOption(b, t + 1, end, kind)
    else if t + 1 >= end || b[t + 1] < 2 || t + b[t + 1] > end then None
    else if b[t] == kind then Some(t)
    else FindOption(b, t + b[t + 1], end, kind)
  }

  method TcpFindOption(b: seq<byte>, end: nat, kind: byte) returns (r: Option<nat>)
    requires 20 <= end <= |b|
    ensures r == FindOption(b, 20, end, kind)
  {
    var t := 20;
    while t < end
      invariant 20 <= t && FindOption(b, t, end, kind) == FindOption(b, 20, end, kind)
    {
      if b[t] == 0 {
        return None;
      } else if b[t] == KIND_NOOP {
        t := t + 1;
      } else {
        if t + 1 >= end || b[t + 1] < 2 || t + b[t + 1] > end {
          return None;
        }
        if b[t] == kind {
          return Some(t);
        }
        t := t + b[t + 1];
      }
    }
    return None;
  }

  /** The data of the option found. */
  function OptionData(b: seq<byte>, t: nat, end: nat, kind: byte): Option<seq<byte>>
    requires end <= |b|
  {
    var r := FindOption(b, t, end, kind);
    if r.None? then None else Some(b[r.value + 2..r.value + b[r.value + 1]])
  }

  /** tcp_find_mss, as a host number */
  function FindMss(b: seq<byte>, end: nat): nat
    requires 20 <= end <= |b|
  {
    var d := OptionData(b, 20, end, KIND_MSS);
    if d.Some? && |d.value| == 2 then Get16(d.value, 0) else 0
  }

  predicate HasSack(b: seq<byte>, end: nat)
    requires 20 <= end <= |b|
  {
    FindOption(b, 20, end, KIND_SACK).Some?
  }

  function FindTimestamps(b: seq<byte>, end: nat): Option<seq<byte>>
    requires 20 <= end <= |b|
  {
    var d := OptionData(b, 20, end, KIND_TIMESTAMPS);
    if d.Some? && |d.value| == 8 then d else None
  }

  function FindScaleFactor(b: seq<byte>, end: nat): byte
    requires 20 <= end <= |b|
  {
    var d := OptionData(b, 20, end, KIND_SCALE);
    if d.Some? && |d.value| == 1 then d.value[0] else SCALE_NONE
  }

  // ---------- the reader undoes the list ----------

  ghost predicate AllNoops(b: seq<byte>, t: nat, end: nat)
    requires end <= |b|
  {
    forall k :: t <= k < end ==> b[k] == KIND_NOOP
  }

  lemma {:induction false} NothingInNoops(b: seq<byte>, t: nat, end: nat, kind: byte)
    requires end <= |b| && AllNoops(b, t, end)
    ensures FindOption(b, t, end, kind).None?
    decreases if t < end then end - t else 0
  {
    if t < end {
      NothingInNoops(b, t + 1, end, kind);
    }
  }

  lemma OptHead(b: seq<byte>, t: nat, n: nat, o: Opt, rest: seq<byte>)
    requires |o.data| < 254 && t + n <= |b| && b[t..t + n] == WriteOpt(o) + rest
    ensures var next := t + 2 + |o.data|;
            && next + |rest| == t + n && b[t] == o.kind && b[t + 1] == 2 + |o.data|
            && b[t + 2..next] == o.data && b[next..next + |rest|] == rest
  {
    var s := b[t..t + n];
    Peel(s, WriteOpt(o), rest);
    Peel(s, [o.kind, 2 + |o.data|], o.data);
    SubSlice(b, t, n, 2, 2 + |o.data|);
    SubSlice(b, t, n, 2 + |o.data|, n);
    assert s[0] == s[..2][0] && s[1] == s[..2][1];
  }

  lemma OptStep(b: seq<byte>, t: nat, all: seq<byte>, end: nat, o: Opt, rest: seq<byte>, kind: byte)
    requires o.kind > 1 && |o.data| < 254 && t + |all| <= end <= |b| && b[t..t + |all|] == all && all == WriteOpt(o) + rest
    ensures var next := t + 2 + |o.data|;
            && next + |rest| == t + |all| && b[next..next + |rest|] == rest
            && OptionData(b, t, end, kind) == if o.kind == kind then Some(o.data) else OptionData(b, next, end, kind)
  {
    OptHead(b, t, |all|, o, rest);
  }

  /** In a list of options followed by padding the search returns the first of the kind, or nothing. */
  lemma {:induction false} FindsFirst(os: seq<Opt>, all: seq<byte>, b: seq<byte>, t: nat, end: nat, kind: byte)
    requires OptsOk(os) && all == WriteOpts(os) && t + |all| <= end <= |b| && b[t..t + |all|] == all
    requires AllNoops(b, t + |all|, end)
    ensures OptionData(b, t, end, kind) == FirstOpt(os, kind)
    decreases |os|
  {
    if os == [] {
      NothingInNoops(b, t, end, kind);
    } else {
      var o, rest := os[0], WriteOpts(os[1..]);
      OptStep(b, t, all, end, o, rest, kind);
      if o.kind != kind {
        FindsFirst(os[1..], rest, b, t + 2 + |o.data|, end, kind);
      }
    }
  }

  lemma {:induction false} FirstOptConcat(a: seq<Opt>, b: seq<Opt>, kind: byte)
    ensures FirstOpt(a + b, kind) == (if FirstOpt(a, kind).Some? then FirstOpt(a, kind) else FirstOpt(b, kind))
  {
    if a == [] {
      assert a + b == b;
    } else {
      FirstOptConcat(a[1..], b, kind);
      assert (a + b)[1..] == a[1..] + b;
    }
  }

  lemma {:induction false} WriteOptsConcat(a: seq<Opt>, b: seq<Opt>)
    requires OptsOk(a) && OptsOk(b)
    ensures OptsOk(a + b) && WriteOpts(a + b) == WriteOpts(a) + WriteOpts(b)
  {
    if a == [] {
      assert a + b == b;
    } else {
      WriteOptsConcat(a[1..], b);
      assert (a + b)[1..] == a[1..] + b && (a + b)[0] == a[0];
      Associates(WriteOpt(a[0]), WriteOpts(a[1..]), WriteOpts(b));
    }
  }

  lemma Associates(a: seq<byte>, b: seq<byte>, c: seq<byte>)
    ensures a + (b + c) == a + b + c
  {
  }

  // ---------- the writer ----------

  function One(present: bool, kind: byte, data: seq<byte>): seq<Opt> {
    if present then [Opt(kind, data)] else []
  }

  /** The options in the order they are written. */
  function Chosen(w: Wanted): seq<Opt> {
    One(w.mss != 0, KIND_MSS, Be16(w.mss)) + One(w.sack, KIND_SACK, [])
    + One(w.md5.Some?, KIND_MD5SIG, if w.md5.Some? then w.md5.value else [])
    + One(w.timestamps.Some?, KIND_TIMESTAMPS, if w.timestamps.Some? then w.timestamps.value else [])
    + One(w.scale != SCALE_NONE, KIND_SCALE, [w.scale])
  }

  function RawLen(w: Wanted): (n: nat)
    ensures n <= 37
  {
    (if w.sack then 2 else 0) + (if w.mss != 0 then 4 else 0) + (if w.md5.Some? then 18 else 0)
    + (if w.timestamps.Some? then 10 else 0) + (if w.scale != SCALE_NONE then 3 else 0)
  }

  /** The next multiple of four. */
  function RoundUp4(n: nat): (r: nat)
    ensures r % 4 == 0 && n <= r < n + 4
  {
    (n + 3) / 4 * 4
  }

  /** tcpopt_len */
  function TcpOptLen(w: Wanted): (n: nat)
    ensures n % 4 == 0 && RawLen(w) <= n < RawLen(w) + 4
  {
    RoundUp4(RawLen(w))
  }

  lemma OneOk(present: bool, kind: byte, data: seq<byte>)
    requires kind > 1 && |data| < 254
    ensures OptsOk(One(present, kind, data))
    ensures WriteOpts(One(present, kind, data)) == if present then WriteOpt(Opt(kind, data)) else []
  {
    if present {
      assert [Opt(kind, data)][1..] == [];
    }
  }

  ghost function Piece(present: bool, kind: byte, data: seq<byte>): seq<byte>
    requires |data| < 254
  {
    if present then WriteOpt(Opt(kind, data)) else []
  }

  /** The five pieces, without the padding. */
  ghost function Raw(w: Wanted): seq<byte>
    requires WantedOk(w)
  {
    Piece(w.mss != 0, KIND_MSS, Be16(w.mss)) + Piece(w.sack, KIND_SACK, [])
    + Piece(w.md5.Some?, KIND_MD5SIG, if w.md5.Some? then w.md5.value else [])
    + Piece(w.timestamps.Some?, KIND_TIMESTAMPS, if w.timestamps.Some? then w.timestamps.value else [])
    + Piece(w.scale != SCALE_NONE, KIND_SCALE, [w.scale])
  }

  lemma RawIsChosen(w: Wanted)
    requires WantedOk(w)
    ensures OptsOk(Chosen(w)) && WriteOpts(Chosen(w)) == Raw(w) && |Raw(w)| == RawLen(w)
  {
    var a, b := One(w.mss != 0, KIND_MSS, Be16(w.mss)), One(w.sack, KIND_SACK, []);
    var c := One(w.md5.Some?, KIND_MD5SIG, if w.md5.Some? then w.md5.value else []);
    var d := One(w.timestamps.Some?, KIND_TIMESTAMPS, if w.timestamps.Some? then w.timestamps.value else []);
    var e := One(w.scale != SCALE_NONE, KIND_SCALE, [w.scale]);
    OneOk(w.mss != 0, KIND_MSS, Be16(w.mss));
    OneOk(w.sack, KIND_SACK, []);
    OneOk(w.md5.Some?, KIND_MD5SIG, if w.md5.Some? then w.md5.value else []);
    OneOk(w.timestamps.Some?, KIND_TIMESTAMPS, if w.timestamps.Some? then w.timestamps.value else []);
    OneOk(w.scale != SCALE_NONE, KIND_SCALE, [w.scale]);
    WriteOptsConcat(a, b);
    WriteOptsConcat(a + b, c);
    WriteOptsConcat(a + b + c, d);
    WriteOptsConcat(a + b + c + d, e);
  }

  lemma {:induction false} FirstChosen(w: Wanted, kind: byte)
    ensures FirstOpt(Chosen(w), kind) ==
            if kind == KIND_MSS && w.mss != 0 then Some(Be16(w.mss))
            else if kind == KIND_SACK && w.sack then Some([])
            else if kind == KIND_MD5SIG then w.md5
            else if kind == KIND_TIMESTAMPS then w.timestamps
            else if kind == KIND_SCALE && w.scale != SCALE_NONE then Some([w.scale])
            else None
  {
    var a, b := One(w.mss != 0, KIND_MSS, Be16(w.mss)), One(w.sack, KIND_SACK, []);
    var c := One(w.md5.Some?, KIND_MD5SIG, if w.md5.Some? then w.md5.value else []);
    var d := One(w.timestamps.Some?, KIND_TIMESTAMPS, if w.timestamps.Some? then w.timestamps.value else []);
    var e := One(w.scale != SCALE_NONE, KIND_SCALE, [w.scale]);
    FirstOptConcat(a, b, kind);
    FirstOptConcat(a + b, c, kind);
    FirstOptConcat(a + b + c, d, kind);
    FirstOptConcat(a + b + c + d, e, kind);
    OneFirst(w.mss != 0, KIND_MSS, Be16(w.mss), kind);
    OneFirst(w.sack, KIND_SACK, [], kind);
    OneFirst(w.md5.Some?, KIND_MD5SIG, if w.md5.Some? then w.md5.value else [], kind);
    OneFirst(w.timestamps.Some?, KIND_TIMESTAMPS, if w.timestamps.Some? then w.timestamps.value else [], kind);
    OneFirst(w.scale != SCALE_NONE, KIND_SCALE, [w.scale], kind);
  }

  lemma OneFirst(present: bool, k: byte, data: seq<byte>, kind: byte)
    ensures FirstOpt(One(present, k, data), kind) == if present && k == kind then Some(data) else None
  {
    if present {
      assert [Opt(k, data)][1..] == [];
    }
  }

  /** The header bytes hold the options and their padding. */
  ghost predicate HoldsOptions(b: seq<byte>, w: Wanted) {
    && WantedOk(w) && 20 + TcpOptLen(w) <= |b| && b[20..20 + RawLen(w)] == Raw(w) && AllNoops(b, 20 + RawLen(w), 20 + TcpOptLen(w))
  }

  /** Every option written is read back, and none that was not. */
  lemma OptionsReadBack(b: seq<byte>, w: Wanted)
    requires HoldsOptions(b, w)
    ensures var end := 20 + TcpOptLen(w);
            && FindMss(b, end) == w.mss && HasSack(b, end) == w.sack && FindTimestamps(b, end) == w.timestamps
            && FindScaleFactor(b, end) == w.scale && OptionData(b, 20, end, KIND_MD5SIG) == w.md5
  {
    var end := 20 + TcpOptLen(w);
    RawIsChosen(w);
    ReadsBack(b, w, end, KIND_MSS);
    ReadsBack(b, w, end, KIND_SACK);
    ReadsBack(b, w, end, KIND_TIMESTAMPS);
    ReadsBack(b, w, end, KIND_SCALE);
    ReadsBack(b, w, end, KIND_MD5SIG);
    if w.mss != 0 {
      Get16Of(Be16(w.mss), 0, w.mss);
    }
  }

  lemma ReadsBack(b: seq<byte>, w: Wanted, end: nat, kind: byte)
    requires HoldsOptions(b, w) && end == 20 + TcpOptLen(w)
    ensures OptionData(b, 20, end, kind) == FirstOpt(Chosen(w), kind)
    ensures FirstOpt(Chosen(w), KIND_MSS) == if w.mss != 0 then Some(Be16(w.mss)) else None
    ensures FirstOpt(Chosen(w), KIND_SACK) == if w.sack then Some([]) else None
    ensures FirstOpt(Chosen(w), KIND_MD5SIG) == w.md5 && FirstOpt(Chosen(w), KIND_TIMESTAMPS) == w.timestamps
    ensures FirstOpt(Chosen(w), KIND_SCALE) == if w.scale != SCALE_NONE then Some([w.scale]) else None
  {
    RawIsChosen(w);
    FindsFirst(Chosen(w), Raw(w), b, 20, end, kind);
    FirstChosen(w, KIND_MSS);
    FirstChosen(w, KIND_SACK);
    FirstChosen(w, KIND_MD5SIG);
    FirstChosen(w, KIND_TIMESTAMPS);
    FirstChosen(w, KIND_SCALE);
  }
}
