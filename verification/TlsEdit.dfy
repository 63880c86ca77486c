/** Replacing the server name of a stored ClientHello in place: the SNI part of onetime_tls_mod_blob (nfq/nfqws.c). */
module TlsEdit {
  import opened Options
  import opened Bytes
  import opened Layout
  import opened TlsHello

  /** Offsets of the extensions length, of the data of the server_name extension and of the name itself. */
  datatype Places = Places(off: nat, ext: nat, host: nat, slen: nat)

  ghost predicate PlacesOk(s: seq<byte>, p: Places) {
    46 <= p.off && p.off + 6 <= p.ext && p.host == p.ext + 5 && p.host + p.slen <= |s|
  }

  /** The three searches the edit starts with. */
  function Locate(s: seq<byte>): (r: Option<Places>)
    requires 5 <= |s|
    ensures r.Some? ==> PlacesOk(s, r.value)
  {
    var off, ext := FindExtLen(s), FindExt(s, 0, false);
    if off.None? || ext.None? then None
    else
      var host := AdvanceToHost(s, ext.value);
      SameOffset(s);
      if host.None? then None else Some(Places(off.value, ext.value.at, host.value.at, host.value.len))
  }

  /** The search in the clipped record finds its extension behind the length found in the whole buffer. */
  lemma SameOffset(s: seq<byte>)
    requires 5 <= |s|
    ensures FindExt(s, 0, false).Some? ==> FindExtLen(s).Some? && FindExtLen(s).value + 6 <= FindExt(s, 0, false).value.at
  {
    if FindExt(s, 0, false).Some? {
      OffsetOfPrefix(Clip(s, TLSRecordLen(s))[5..], s[5..]);
    }
  }

  lemma OffsetOfPrefix(a: seq<byte>, b: seq<byte>)
    requires |a| <= |b| && a == b[..|a|] && ExtLenOffset(a).Some?
    ensures ExtLenOffset(b) == ExtLenOffset(a)
  {
  }

  // ---------- the bytes after the edit ----------

  /** What is left of x in a field that holds 0..m-1. */
  function Wrapped(x: int, m: nat): (r: nat)
    requires 0 < m
    ensures r < m
    decreases if x < 0 then m - x else x
  {
    if x < 0 then Wrapped(x + m, m) else if x < m then x else Wrapped(x - m, m)
  }

  /** A length field with delta added, modulo its width. */
  function Shift16(s: seq<byte>, i: nat, delta: int): (b: seq<byte>)
    requires i + 2 <= |s|
    ensures |b| == 2
  {
    Be16(Wrapped(Get16(s, i) + delta, 0x1_0000))
  }

  function Shift24(s: seq<byte>, i: nat, delta: int): (b: seq<byte>)
    requires i + 3 <= |s|
    ensures |b| == 3
  {
    Be24(Wrapped(Get24(s, i) + delta, 0x100_0000))
  }

  /** The positions of length fields, from the front. */
  datatype Plan = Stop | At16(i: nat, next: Plan) | At24(i: nat, next: Plan)

  function Width(plan: Plan): nat {
    if plan.At24? then 3 else 2
  }

  ghost predicate PlanOk(s: seq<byte>, from: nat, plan: Plan, end: nat)
    decreases plan
  {
    end <= |s| && if plan.Stop? then from == end else from <= plan.i && PlanOk(s, plan.i + Width(plan), plan.next, end)
  }

  lemma {:induction false} PlanFits(s: seq<byte>, from: nat, plan: Plan, end: nat)
    requires PlanOk(s, from, plan, end)
    ensures from <= end && (!plan.Stop? ==> plan.i + Width(plan) <= end)
    decreases plan
  {
    if !plan.Stop? {
      PlanFits(s, plan.i + Width(plan), plan.next, end);
    }
  }

  function Updated(s: seq<byte>, plan: Plan, delta: int): (b: seq<byte>)
    requires !plan.Stop? && plan.i + Width(plan) <= |s|
    ensures |b| == Width(plan)
  {
    if plan.At24? then Shift24(s, plan.i, delta) else Shift16(s, plan.i, delta)
  }

  /** The bytes of `s` up to the last field of the plan with the fields of the plan shifted. */
  ghost function Shifted(s: seq<byte>, from: nat, plan: Plan, end: nat, delta: int): (b: seq<byte>)
    requires PlanOk(s, from, plan, end)
    ensures from <= end && |b| == end - from
    decreases plan
  {
    PlanFits(s, from, plan, end);
    if plan.Stop? then []
    else s[from..plan.i] + Updated(s, plan, delta) + Shifted(s, plan.i + Width(plan), plan.next, end, delta)
  }

  /** The lengths of record, handshake, extensions, extension, list and name. */
  function LengthFields(p: Places): Plan
    requires 2 <= p.ext && 2 <= p.host
  {
    At16(3, At24(6, At16(p.off, At16(p.ext - 2, At16(p.ext, At16(p.host - 2, Stop))))))
  }

  lemma LengthFieldsOk(s: seq<byte>, p: Places)
    requires PlacesOk(s, p)
    ensures PlanOk(s, 0, LengthFields(p), p.host)
  {
    var last := At16(p.host - 2, Stop);
    assert PlanOk(s, p.ext + 2, last, p.host);
    assert PlanOk(s, p.off + 2, At16(p.ext - 2, At16(p.ext, last)), p.host);
    assert PlanOk(s, 5, At24(6, At16(p.off, At16(p.ext - 2, At16(p.ext, last)))), p.host);
  }

  /** The bytes before the name. */
  ghost function EditedHead(s: seq<byte>, p: Places, delta: int): (b: seq<byte>)
    requires PlacesOk(s, p)
    ensures |b| == p.host
  {
    LengthFieldsOk(s, p);
    Shifted(s, 0, LengthFields(p), p.host, delta)
  }

  ghost function Edited(s: seq<byte>, p: Places, sni: seq<byte>): seq<byte>
    requires PlacesOk(s, p)
  {
    EditedHead(s, p, |sni| - p.slen) + sni + s[p.host + p.slen..]
  }

  // ---------- the edit in place ----------

  /** One field added to. */
  ghost function Patched(s: seq<byte>, plan: Plan, delta: int): seq<byte>
    requires !plan.Stop? && plan.i + Width(plan) <= |s|
  {
    s[..plan.i] + Updated(s, plan, delta) + s[plan.i + Width(plan)..]
  }

  method Add16(buf: array<byte>, i: nat, delta: int)
    requires i + 2 <= buf.Length
    modifies buf
    ensures buf[..] == old(buf[..i]) + Shift16(old(buf[..]), i, delta) + old(buf[i + 2..])
  {
    var v := Wrapped(Get16(buf[..], i) + delta, 0x1_0000);
    buf[i], buf[i + 1] := Low(Above(v)), Low(v);
  }

  method Add24(buf: array<byte>, i: nat, delta: int)
    requires i + 3 <= buf.Length
    modifies buf
    ensures buf[..] == old(buf[..i]) + Shift24(old(buf[..]), i, delta) + old(buf[i + 3..])
  {
    var v := Wrapped(Get24(buf[..], i) + delta, 0x100_0000);
    buf[i], buf[i + 1], buf[i + 2] := Low(Above(Above(v))), Low(Above(v)), Low(v);
  }

  method Patch(buf: array<byte>, plan: Plan, delta: int)
    requires !plan.Stop? && plan.i + Width(plan) <= buf.Length
    modifies buf
    ensures buf[..] == Patched(old(buf[..]), plan, delta)
  {
    ghost var s := buf[..];
    assert buf[..plan.i] == s[..plan.i] && buf[plan.i + Width(plan)..] == s[plan.i + Width(plan)..];
    if plan.At24? {
      Add24(buf, plan.i, delta);
    } else {
      Add16(buf, plan.i, delta);
    }
  }

  /** Patching the first field of the plan beyond the part `e` that is done. */
  method PatchFirst(buf: array<byte>, plan: Plan, delta: int, ghost e: seq<byte>, ghost s: seq<byte>, ghost x: seq<byte>, ghost end: nat)
    returns (ghost e': seq<byte>)
    requires !plan.Stop? && PlanOk(s, |e|, plan, end) && |e| <= end && buf[..] == e + s[|e|..end] + x
    modifies buf
    ensures |e'| == plan.i + Width(plan) <= end && buf[..] == e' + s[|e'|..end] + x
    ensures PlanOk(s, |e'|, plan.next, end)
    ensures e' + Shifted(s, |e'|, plan.next, end, delta) == e + Shifted(s, |e|, plan, end, delta)
  {
    PlanFits(s, |e|, plan, end);
    e' := e + s[|e|..plan.i] + Updated(s, plan, delta);
    ghost var t := e + s[|e|..end] + x;
    PatchNext(e, s, plan, x, delta, end);
    assert Patched(t, plan, delta) == e' + s[|e'|..end] + x;
    FieldShifted(e, s, plan, end, delta);
    Patch(buf, plan, delta);
  }

  lemma FieldShifted(e: seq<byte>, s: seq<byte>, plan: Plan, end: nat, delta: int)
    requires !plan.Stop? && PlanOk(s, |e|, plan, end)
    ensures var j := plan.i + Width(plan);
            j <= end && e + s[|e|..plan.i] + Updated(s, plan, delta) + Shifted(s, j, plan.next, end, delta) ==
            e + Shifted(s, |e|, plan, end, delta)
  {
    PlanFits(s, |e|, plan, end);
    Append4(e, s[|e|..plan.i], Updated(s, plan, delta), Shifted(s, plan.i + Width(plan), plan.next, end, delta));
  }

  lemma Append4(a: seq<byte>, b: seq<byte>, c: seq<byte>, d: seq<byte>)
    ensures a + b + c + d == a + (b + c + d)
  {
  }

  lemma PatchNext(e: seq<byte>, s: seq<byte>, plan: Plan, x: seq<byte>, delta: int, end: nat)
    requires !plan.Stop? && |e| <= plan.i && plan.i + Width(plan) <= end <= |s|
    ensures var t := e + s[|e|..end] + x;
            var i := plan.i;
            && i + Width(plan) <= |t|
            && Patched(t, plan, delta) ==
               e + s[|e|..i] + Updated(s, plan, delta) + s[i + Width(plan)..end] + x
  {
    var t := e + s[|e|..end] + x;
    var i, j := plan.i, plan.i + Width(plan);
    assert forall k :: |e| <= k < end ==> t[k] == s[k];
    assert Updated(t, plan, delta) == Updated(s, plan, delta);
    assert t[..i] == e + s[|e|..i];
    assert t[j..] == s[j..end] + x;
  }

  /** All of them: record, handshake, extensions, extension, list and name length. */
  method ShiftLengths(buf: array<byte>, p: Places, delta: int, ghost s: seq<byte>, ghost x: seq<byte>)
    requires PlacesOk(s, p) && buf[..] == s[..p.host] + x
    modifies buf
    ensures buf[..] == EditedHead(s, p, delta) + x
  {
    ghost var e := ShiftHead(buf, p, delta, s, x);
    ShiftThree(buf, p.ext - 2, p.ext, p.host - 2, delta, e, s, x, p.host);
  }

  /** Those of record, handshake and extensions. */
  method ShiftHead(buf: array<byte>, p: Places, delta: int, ghost s: seq<byte>, ghost x: seq<byte>) returns (ghost e: seq<byte>)
    requires PlacesOk(s, p) && buf[..] == s[..p.host] + x
    modifies buf
    ensures |e| <= p.host && buf[..] == e + s[|e|..p.host] + x
    ensures var plan := At16(p.ext - 2, At16(p.ext, At16(p.host - 2, Stop)));
            PlanOk(s, |e|, plan, p.host) && e + Shifted(s, |e|, plan, p.host, delta) == EditedHead(s, p, delta)
  {
    LengthFieldsOk(s, p);
    assert buf[..] == [] + s[0..p.host] + x;
    var ext := At16(p.ext - 2, At16(p.ext, At16(p.host - 2, Stop)));
    e := PatchFirst(buf, LengthFields(p), delta, [], s, x, p.host);
    e := PatchFirst(buf, At24(6, At16(p.off, ext)), delta, e, s, x, p.host);
    e := PatchFirst(buf, At16(p.off, ext), delta, e, s, x, p.host);
  }

  /** Three fields of 16 bits: extension, list and name. */
  method ShiftThree(buf: array<byte>, i: nat, j: nat, k: nat, delta: int, ghost e: seq<byte>, ghost s: seq<byte>, ghost x: seq<byte>, ghost end: nat)
    requires var plan := At16(i, At16(j, At16(k, Stop))); PlanOk(s, |e|, plan, end) && |e| <= end && buf[..] == e + s[|e|..end] + x
    modifies buf
    ensures buf[..] == e + Shifted(s, |e|, At16(i, At16(j, At16(k, Stop))), end, delta) + x
  {
    ghost var e1 := PatchFirst(buf, At16(i, At16(j, At16(k, Stop))), delta, e, s, x, end);
    ghost var e2 := PatchFirst(buf, At16(j, At16(k, Stop)), delta, e1, s, x, end);
    ghost var e3 := PatchFirst(buf, At16(k, Stop), delta, e2, s, x, end);
    assert e3 + s[|e3|..end] == e3 == e3 + Shifted(s, |e3|, Stop, end, delta);
  }

  ghost function Moved(o: seq<byte>, dst: nat, src: nat, n: nat): (r: seq<byte>)
    requires src + n <= |o| && dst + n <= |o|
    ensures |r| == |o|
  {
    o[..dst] + o[src..src + n] + o[dst + n..]
  }

  /** memmove */
  method Move(buf: array<byte>, dst: nat, src: nat, n: nat)
    requires src + n <= buf.Length && dst + n <= buf.Length
    modifies buf
    ensures buf[..] == Moved(old(buf[..]), dst, src, n)
  {
    forall k | 0 <= k < n {
      buf[dst + k] := buf[src + k];
    }
  }

  /** memcpy */
  method Copy(buf: array<byte>, dst: nat, data: seq<byte>)
    requires dst + |data| <= buf.Length
    modifies buf
    ensures buf[..] == old(buf[..dst]) + data + old(buf[dst + |data|..])
  {
    forall k | 0 <= k < |data| {
      buf[dst + k] := data[k];
    }
  }

  /** Room for a name of another length. */
  method MakeRoom(buf: array<byte>, size: nat, p: Places, newLen: nat, ghost o: seq<byte>, ghost s: seq<byte>) returns (ghost x: seq<byte>)
    requires buf[..] == o && s <= o && size == |s| && PlacesOk(s, p) && size + newLen - p.slen <= |o|
    modifies buf
    ensures buf[..] == s[..p.host] + x && newLen + |s| - p.host - p.slen <= |x|
    ensures x[newLen..newLen + |s| - p.host - p.slen] == s[p.host + p.slen..]
  {
    x := MovedSplits(o, s, p.host, p.slen, newLen);
    Move(buf, p.host + newLen, p.host + p.slen, size - p.host - p.slen);
  }

  /** The room, and the lengths that follow from it. */
  method Resize(buf: array<byte>, size: nat, p: Places, newLen: nat, ghost s: seq<byte>)
    requires size <= buf.Length && s == buf[..size] && PlacesOk(s, p) && size + newLen - p.slen <= buf.Length
    modifies buf
    ensures buf[..p.host] == EditedHead(s, p, newLen - p.slen)
    ensures buf[p.host + newLen..size + newLen - p.slen] == s[p.host + p.slen..]
  {
    ghost var o := buf[..];
    assert s == o[..size];
    ghost var x := MakeRoom(buf, size, p, newLen, o, s);
    ShiftLengths(buf, p, newLen - p.slen, s, x);
    ghost var head := EditedHead(s, p, newLen - p.slen);
    JoinSplits(buf[..], head, x, newLen, size - p.host - p.slen);
    ArraySlices(buf, head, p.host + newLen, size + newLen - p.slen, s[p.host + p.slen..]);
  }

  lemma ArraySlices(buf: array<byte>, head: seq<byte>, i: nat, j: nat, tail: seq<byte>)
    requires |head| <= i <= j <= buf.Length && buf[..][..|head|] == head && buf[..][i..j] == tail
    ensures buf[..|head|] == head && buf[i..j] == tail
  {
  }

  lemma MovedSplits(o: seq<byte>, s: seq<byte>, host: nat, slen: nat, newLen: nat) returns (x: seq<byte>)
    requires s <= o && host + slen <= |s| && |s| + newLen - slen <= |o|
    ensures var n := |s| - host - slen;
            && Moved(o, host + newLen, host + slen, n) == s[..host] + x
            && newLen + n <= |x| && x[newLen..newLen + n] == s[host + slen..]
  {
    var n := |s| - host - slen;
    var t := Moved(o, host + newLen, host + slen, n);
    x := t[host..];
    assert t[..host] == s[..host];
    SubSlice(t, host, |t| - host, newLen, newLen + n);
    assert t[host + newLen..host + newLen + n] == o[host + slen..|s|] == s[host + slen..];
  }

  lemma JoinSplits(b: seq<byte>, head: seq<byte>, x: seq<byte>, i: nat, n: nat)
    requires b == head + x && i + n <= |x|
    ensures b[..|head|] == head && b[|head| + i..|head| + i + n] == x[i..i + n]
  {
    SubSlice(b, |head|, |x|, i, i + n);
    assert b[|head|..|b|] == x;
  }

  lemma KeepsField(s: seq<byte>, plan: Plan)
    requires !plan.Stop? && plan.i + Width(plan) <= |s|
    ensures Updated(s, plan, 0) == s[plan.i..plan.i + Width(plan)]
  {
    if plan.At24? {
      Digits(s[plan.i], s[plan.i + 1], s[plan.i + 2]);
    } else {
      TwoDigits(s[plan.i], s[plan.i + 1]);
    }
  }

  lemma Digits(a: byte, b: byte, c: byte)
    ensures Be24(0x1_0000 * (a as nat) + 256 * (b as nat) + c) == [a, b, c]
  {
    var high := 256 * (a as nat) + b;
    var v := 256 * high + c;
    AboveAndLow(v);
    AboveAndLow(high);
  }

  lemma TwoDigits(a: byte, b: byte)
    ensures Be16(256 * (a as nat) + b) == [a, b]
  {
    AboveAndLow(256 * (a as nat) + b);
  }

  /** For a name of the same length every field keeps its value. */
  lemma {:induction false} NothingShifts(s: seq<byte>, from: nat, plan: Plan, end: nat)
    requires PlanOk(s, from, plan, end)
    ensures from <= end && Shifted(s, from, plan, end, 0) == s[from..end]
    decreases plan
  {
    PlanFits(s, from, plan, end);
    if !plan.Stop? {
      var i, j := plan.i, plan.i + Width(plan);
      NothingShifts(s, j, plan.next, end);
      KeepsField(s, plan);
      assert s[from..end] == s[from..i] + s[i..j] + s[j..end];
    }
  }

  /** The three searches, in their order, with the offset that is kept for the padding. */
  method LocateSni(s: seq<byte>) returns (r: Option<Places>, extlenOffset: nat)
    requires 5 <= |s|
    ensures r == Locate(s) && extlenOffset == (if FindExtLen(s).Some? then FindExtLen(s).value else 0)
  {
    var off := FindExtLen(s);
    if off.None? {
      return None, 0;
    }
    var ext := FindExt(s, 0, false);
    if ext.None? {
      return None, off.value;
    }
    var host := AdvanceToHost(s, ext.value);
    if host.None? {
      return None, off.value;
    }
    SameOffset(s);
    return Some(Places(off.value, ext.value.at, host.value.at, host.value.len)), off.value;
  }

  /** The branch of FAKE_TLS_MOD_SNI. It fails, with nothing written, when the hello has no usable server name or the
      buffer is too small. */
  method ReplaceSni(buf: array<byte>, size: nat, sni: seq<byte>) returns (ok: bool, size': nat, extlenOffset: nat)
    requires 5 <= size <= buf.Length
    modifies buf
    ensures var p := Locate(old(buf[..size]));
            && ok == (p.Some? && size + |sni| - p.value.slen <= buf.Length)
            && (!ok ==> buf[..] == old(buf[..]) && size' == size)
            && (ok ==> size' == size + |sni| - p.value.slen && extlenOffset == p.value.off
                       && buf[..size'] == Edited(old(buf[..size]), p.value, sni))
  {
    var found;
    found, extlenOffset := LocateSni(buf[..size]);
    if found.None? {
      return false, size, extlenOffset;
    }
    var p := found.value;
    if size + |sni| - p.slen > buf.Length {
      return false, size, extlenOffset;
    }
    size' := size + |sni| - p.slen;
    WriteName(buf, size, p, sni, buf[..size]);
    ok := true;
  }

  method WriteName(buf: array<byte>, size: nat, p: Places, sni: seq<byte>, ghost s: seq<byte>)
    requires size <= buf.Length && s == buf[..size] && PlacesOk(s, p) && size + |sni| - p.slen <= buf.Length
    modifies buf
    ensures buf[..size + |sni| - p.slen] == Edited(s, p, sni)
  {
    Prepare(buf, size, p, |sni|, s);
    ghost var b := buf[..];
    assert b[..p.host] == buf[..p.host] && b[p.host + |sni|..size + |sni| - p.slen] == buf[p.host + |sni|..size + |sni| - p.slen];
    NameWritten(b, s, p, sni);
    Copy(buf, p.host, sni);
  }

  method Prepare(buf: array<byte>, size: nat, p: Places, newLen: nat, ghost s: seq<byte>)
    requires size <= buf.Length && s == buf[..size] && PlacesOk(s, p) && size + newLen - p.slen <= buf.Length
    modifies buf
    ensures buf[..p.host] == EditedHead(s, p, newLen - p.slen)
    ensures buf[p.host + newLen..size + newLen - p.slen] == s[p.host + p.slen..]
  {
    if newLen != p.slen {
      Resize(buf, size, p, newLen, s);
    } else {
      LengthFieldsOk(s, p);
      NothingShifts(s, 0, LengthFields(p), p.host);
      assert buf[..p.host] == s[0..p.host];
      assert buf[p.host + p.slen..size] == s[p.host + p.slen..];
    }
  }

  lemma NameWritten(b: seq<byte>, s: seq<byte>, p: Places, sni: seq<byte>)
    requires PlacesOk(s, p) && |s| + |sni| - p.slen <= |b| && b[..p.host] == EditedHead(s, p, |sni| - p.slen)
    requires b[p.host + |sni|..|s| + |sni| - p.slen] == s[p.host + p.slen..]
    ensures (b[..p.host] + sni + b[p.host + |sni|..])[..|s| + |sni| - p.slen] == Edited(s, p, sni)
  {
    Joined(b, p.host, sni, |s| - p.host - p.slen);
  }

  lemma Joined(b: seq<byte>, host: nat, sni: seq<byte>, n: nat)
    requires host + |sni| + n <= |b|
    ensures (b[..host] + sni + b[host + |sni|..])[..host + |sni| + n] == b[..host] + sni + b[host + |sni|..host + |sni| + n]
  {
  }
}
