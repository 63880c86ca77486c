/** What the edit of TlsEdit does to a hello laid out as section 4.1.2 of RFC 8446 says: the result is such a hello again,
    with the new name in its server_name extension (section 3 of RFC 6066) and nothing else changed.
 */
module TlsSni {
  import opened Options
  import opened Bytes
  import opened Layout
  import opened TlsHello
  import opened TlsEdit

  /** A server name list whose first entry is a host name; `others` are the bytes of further entries. */
  function ServerName(name: seq<byte>, others: seq<byte>): (b: seq<byte>)
    ensures |b| == 5 + |name| + |others|
  {
    Be16(3 + |name| + |others|) + U8(0) + Be16(|name|) + name + others
  }

  // ---------- lists of extensions ----------

  lemma {:induction false} WriteExtsConcat(a: seq<Ext>, b: seq<Ext>)
    ensures WriteExts(a + b) == WriteExts(a) + WriteExts(b)
  {
    if a == [] {
      assert a + b == b;
    } else {
      WriteExtsConcat(a[1..], b);
      assert (a + b)[1..] == a[1..] + b;
      Associates(WriteExt(a[0]), WriteExts(a[1..]), WriteExts(b));
    }
  }

  lemma Associates(a: seq<byte>, b: seq<byte>, c: seq<byte>)
    ensures a + (b + c) == a + b + c
  {
  }

  lemma WriteExtsAround(before: seq<Ext>, e: Ext, after: seq<Ext>)
    ensures WriteExts(before + [e] + after) == WriteExts(before) + WriteExt(e) + WriteExts(after)
  {
    WriteExtsConcat(before + [e], after);
    WriteExtsConcat(before, [e]);
    assert WriteExts([e]) == WriteExt(e);
  }

  lemma {:induction false} FirstAround(before: seq<Ext>, e: Ext, after: seq<Ext>)
    requires FirstOf(before, e.kind).None?
    ensures var es := before + [e] + after;
            FirstOf(es, e.kind) == Some(e.data) && BeforeFirst(es, e.kind) == |WriteExts(before)|
  {
    if before != [] {
      FirstAround(before[1..], e, after);
      assert (before + [e] + after)[1..] == before[1..] + [e] + after;
    }
  }

  lemma {:induction false} OthersKeepFirst(before: seq<Ext>, e: Ext, f: Ext, after: seq<Ext>, kind: nat)
    requires e.kind == f.kind != kind
    ensures FirstOf(before + [e] + after, kind) == FirstOf(before + [f] + after, kind)
  {
    if before == [] {
      assert ([e] + after)[1..] == after == ([f] + after)[1..];
    } else {
      OthersKeepFirst(before[1..], e, f, after, kind);
      assert (before + [e] + after)[1..] == before[1..] + [e] + after;
      assert (before + [f] + after)[1..] == before[1..] + [f] + after;
    }
  }

  // ---------- the extensions around the name, field by field ----------

  ghost function NameRow(e0: seq<byte>, name: seq<byte>, others: seq<byte>, e1: seq<byte>, next: Row): Row {
    Field(e0, Field(Be16(0), Field(Be16(5 + |name| + |others|), Field(Be16(3 + |name| + |others|), Field(U8(0), Field(Be16(|name|),
    Field(name, Field(others, Field(e1, next)))))))))
  }

  ghost function NamedList(e0: seq<byte>, name: seq<byte>, others: seq<byte>, e1: seq<byte>): (b: seq<byte>)
    ensures |b| == |e0| + 9 + |name| + |others| + |e1|
  {
    e0 + WriteExt(Ext(0, ServerName(name, others))) + e1
  }

  lemma NamedIsRow(s: seq<byte>, at: nat, e0: seq<byte>, name: seq<byte>, others: seq<byte>, e1: seq<byte>, next: Row)
    ensures Holds(s, at, Field(NamedList(e0, name, others, e1), next)) <==> Holds(s, at, NameRow(e0, name, others, e1, next))
  {
    Regroup(e0, Be16(0), Be16(5 + |name| + |others|), Be16(3 + |name| + |others|), U8(0), Be16(|name|), name, others, e1);
    NinePieces(s, at, e0, Be16(0), Be16(5 + |name| + |others|), Be16(3 + |name| + |others|), U8(0), Be16(|name|), name, others, e1, next);
  }

  lemma Regroup(e0: seq<byte>, z: seq<byte>, d: seq<byte>, l: seq<byte>, o: seq<byte>, m: seq<byte>, name: seq<byte>,
                others: seq<byte>, e1: seq<byte>)
    ensures e0 + (z + d + (l + o + m + name + others)) + e1 == e0 + z + d + l + o + m + name + others + e1
  {
  }

  lemma NinePieces(s: seq<byte>, at: nat, e0: seq<byte>, z: seq<byte>, d: seq<byte>, l: seq<byte>, o: seq<byte>, m: seq<byte>,
                   name: seq<byte>, others: seq<byte>, e1: seq<byte>, next: Row)
    ensures Holds(s, at, Field(e0 + z + d + l + o + m + name + others + e1, next)) <==>
            Holds(s, at, Field(e0, Field(z, Field(d, Field(l, Field(o, Field(m, Field(name, Field(others, Field(e1, next))))))))))
  {
    var r8 := Field(e1, next);
    var r7 := Field(others, r8);
    var r6 := Field(name, r7);
    var r5 := Field(m, r6);
    var r4 := Field(o, r5);
    var r3 := Field(l, r4);
    var r2 := Field(d, r3);
    var p4 := e0 + z + d + l;
    Two(s, at, e0, z, r2);
    Two(s, at, e0 + z, d, r3);
    Two(s, at, e0 + z + d, l, r4);
    Two(s, at, p4, o, r5);
    Two(s, at, p4 + o, m, r6);
    Two(s, at, p4 + o + m, name, r7);
    Two(s, at, p4 + o + m + name, others, r8);
    Two(s, at, p4 + o + m + name + others, e1, next);
  }

  /** The fields of the list. */
  lemma NameFields(s: seq<byte>, at: nat, e0: seq<byte>, name: seq<byte>, others: seq<byte>, e1: seq<byte>, next: Row)
    requires Holds(s, at, NameRow(e0, name, others, e1, next))
    ensures var k := at + |e0|;
            var j := k + 9 + |name|;
            && j + |others| + |e1| <= |s| && Holds(s, j, Field(others, Field(e1, next)))
            && s[at..k] == e0 && s[k..k + 2] == Be16(0) && s[k + 2..k + 4] == Be16(5 + |name| + |others|)
            && s[k + 4..k + 6] == Be16(3 + |name| + |others|) && s[k + 6..k + 7] == U8(0) && s[k + 7..k + 9] == Be16(|name|)
            && s[k + 9..j] == name
  {
    var k := at + |e0|;
    var r6 := Field(name, Field(others, Field(e1, next)));
    var r3 := Field(Be16(3 + |name| + |others|), Field(U8(0), Field(Be16(|name|), r6)));
    ThreeFields(s, at, e0, Be16(0), Be16(5 + |name| + |others|), r3);
    ThreeFields(s, k + 4, Be16(3 + |name| + |others|), U8(0), Be16(|name|), r6);
    ThreeFields(s, k + 9, name, others, e1, next);
    First(s, k + 9, name, Field(others, Field(e1, next)));
  }

  lemma ThreeFields(s: seq<byte>, at: nat, f0: seq<byte>, f1: seq<byte>, f2: seq<byte>, next: Row)
    requires Holds(s, at, Field(f0, Field(f1, Field(f2, next))))
    ensures var i := at + |f0|;
            var j := i + |f1|;
            var k := j + |f2|;
            k <= |s| && Holds(s, k, next) && s[at..i] == f0 && s[i..j] == f1 && s[j..k] == f2
  {
    First(s, at, f0, Field(f1, Field(f2, next)));
    First(s, at + |f0|, f1, Field(f2, next));
    First(s, at + |f0| + |f1|, f2, next);
  }

  // ---------- where the parser finds the name ----------

  ghost function PlacesOf(b: nat, e0: nat, slen: nat): Places {
    Places(9 + b, 15 + b + e0, 20 + b + e0, slen)
  }

  lemma FoundIs(s: seq<byte>, r: Option<Found>, at: nat, data: seq<byte>)
    requires r.Some? ==> r.value.at + r.value.len <= |s| && r.value.at == at
    requires Slice(s, r) == Some(data)
    ensures r == Some(Found(at, |data|))
  {
  }

  lemma NameInList(s: seq<byte>, at: nat, e0: seq<byte>, name: seq<byte>, others: seq<byte>, e1: seq<byte>, next: Row)
    requires Holds(s, at, NameRow(e0, name, others, e1, next)) && |name| < 0x1_0000
    ensures var k := at + |e0| + 4;
            && k + 5 + |name| + |others| <= |s|
            && AdvanceToHost(s, Found(k, 5 + |name| + |others|)) == Some(Found(k + 5, |name|)) && s[k + 5..k + 5 + |name|] == name
  {
    var k := at + |e0| + 4;
    NameFields(s, at, e0, name, others, e1, next);
    Get16Of(s, k + 3, |name|);
    assert s[k + 2] == s[k + 2..k + 3][0] == 0;
  }

  /** The whole buffer. */
  ghost function NamedRow(minor: byte, b: seq<byte>, e0: seq<byte>, name: seq<byte>, others: seq<byte>, e1: seq<byte>,
                          rest: seq<byte>): Row {
    HeaderRow(minor, b, |e0| + 9 + |name| + |others| + |e1|, NameRow(e0, name, others, e1, Field(rest, End)))
  }

  lemma HeaderNext(s: seq<byte>, minor: byte, b: seq<byte>, x: nat, r1: Row, r2: Row)
    requires Holds(s, 11 + |b|, r1) <==> Holds(s, 11 + |b|, r2)
    ensures Holds(s, 0, HeaderRow(minor, b, x, r1)) <==> Holds(s, 0, HeaderRow(minor, b, x, r2))
  {
    HeaderOpens(s, minor, b, x, r1);
    HeaderOpens(s, minor, b, x, r2);
  }

  lemma HeaderOpens(s: seq<byte>, minor: byte, b: seq<byte>, x: nat, r: Row)
    ensures Holds(s, 0, HeaderRow(minor, b, x, r)) <==> Holds(s, 0, HeaderRow(minor, b, x, Open)) && Holds(s, 11 + |b|, r)
  {
    HeaderOpensAt(s, [0x16, 3, minor], Be16(6 + |b| + x), [1], Be24(2 + |b| + x), b, Be16(x), r);
  }

  lemma HeaderOpensAt(s: seq<byte>, f0: seq<byte>, f1: seq<byte>, f2: seq<byte>, f3: seq<byte>, f4: seq<byte>, f5: seq<byte>, r: Row)
    ensures Holds(s, 0, Field(f0, Field(f1, Field(f2, Field(f3, Field(f4, Field(f5, r))))))) <==>
            && Holds(s, 0, Field(f0, Field(f1, Field(f2, Field(f3, Field(f4, Field(f5, Open)))))))
            && Holds(s, |f0| + |f1| + |f2| + |f3| + |f4| + |f5|, r)
  {
    var k := |f0| + |f1| + |f2|;
    OpensThree(s, 0, f0, f1, f2, Field(f3, Field(f4, Field(f5, r))));
    OpensThree(s, 0, f0, f1, f2, Field(f3, Field(f4, Field(f5, Open))));
    OpensThree(s, k, f3, f4, f5, r);
    OpensThree(s, k, f3, f4, f5, Open);
  }

  lemma OpensThree(s: seq<byte>, at: nat, f0: seq<byte>, f1: seq<byte>, f2: seq<byte>, r: Row)
    ensures Holds(s, at, Field(f0, Field(f1, Field(f2, r)))) <==>
            Holds(s, at, Field(f0, Field(f1, Field(f2, Open)))) && Holds(s, at + |f0| + |f1| + |f2|, r)
  {
    Opens(s, at, f0, Field(f1, Field(f2, r)));
    Opens(s, at, f0, Field(f1, Field(f2, Open)));
    OpensTwo(s, at + |f0|, f1, f2, r);
  }

  lemma OpensTwo(s: seq<byte>, at: nat, f1: seq<byte>, f2: seq<byte>, r: Row)
    ensures Holds(s, at, Field(f1, Field(f2, r))) <==> Holds(s, at, Field(f1, Field(f2, Open))) && Holds(s, at + |f1| + |f2|, r)
  {
    Opens(s, at, f1, Field(f2, r));
    Opens(s, at, f1, Field(f2, Open));
    Opens(s, at + |f1|, f2, r);
  }

  lemma Opens(s: seq<byte>, at: nat, f: seq<byte>, r: Row)
    ensures Holds(s, at, Field(f, r)) <==> Holds(s, at, Field(f, Open)) && Holds(s, at + |f|, r)
  {
    First(s, at, f, r);
    First(s, at, f, Open);
    if Holds(s, at + |f|, r) {
      HoldsFits(s, at + |f|, r);
    }
  }

  lemma HoldsFits(s: seq<byte>, at: nat, r: Row)
    requires Holds(s, at, r)
    ensures at <= |s|
  {
  }

  /** A buffer that holds a hello with a host name, in both descriptions. */
  lemma NamedHello(s: seq<byte>, h: Hello, before: seq<Ext>, name: seq<byte>, others: seq<byte>, after: seq<Ext>, rest: seq<byte>)
    requires h.extensions == before + [Ext(0, ServerName(name, others))] + after
    ensures |WriteExts(h.extensions)| == |WriteExts(before)| + 9 + |name| + |others| + |WriteExts(after)|
    ensures Holds(s, 0, HelloRow(h, rest)) <==>
            Holds(s, 0, NamedRow(h.minor, Body(h), WriteExts(before), name, others, WriteExts(after), rest))
  {
    var e0, e1 := WriteExts(before), WriteExts(after);
    WriteExtsAround(before, Ext(0, ServerName(name, others)), after);
    NamedRows(s, h.minor, Body(h), e0, name, others, e1, rest);
  }

  lemma NamedRows(s: seq<byte>, minor: byte, b: seq<byte>, e0: seq<byte>, name: seq<byte>, others: seq<byte>, e1: seq<byte>, rest: seq<byte>)
    ensures var list := NamedList(e0, name, others, e1);
            Holds(s, 0, HeaderRow(minor, b, |list|, Field(list, Field(rest, End)))) <==>
            Holds(s, 0, NamedRow(minor, b, e0, name, others, e1, rest))
  {
    var list := NamedList(e0, name, others, e1);
    NamedIsRow(s, 11 + |b|, e0, name, others, e1, Field(rest, End));
    HeaderNext(s, minor, b, |list|, Field(list, Field(rest, End)), NameRow(e0, name, others, e1, Field(rest, End)));
  }

  /** The hello that `s` holds has a host name, in its first server_name extension. */
  ghost predicate HoldsName(s: seq<byte>, h: Hello, before: seq<Ext>, name: seq<byte>, others: seq<byte>, after: seq<Ext>,
                            rest: seq<byte>) {
    && h.extensions == before + [Ext(0, ServerName(name, others))] + after && FirstOf(before, 0).None?
    && Fits(h) && Holds(s, 0, HelloRow(h, rest))
  }

  lemma NameExtension(s: seq<byte>, h: Hello, before: seq<Ext>, data: seq<byte>, after: seq<Ext>, rest: seq<byte>)
    requires h.extensions == before + [Ext(0, data)] + after && FirstOf(before, 0).None?
    requires Fits(h) && Holds(s, 0, HelloRow(h, rest))
    ensures FindExt(s, 0, false) == Some(Found(15 + |Body(h)| + |WriteExts(before)|, |data|))
  {
    ParserFindsExtensions(s, h, rest, 0, false);
    FirstAround(before, Ext(0, data), after);
    FoundIs(s, FindExt(s, 0, false), 15 + |Body(h)| + |WriteExts(before)|, data);
  }

  lemma NamedLength(s: seq<byte>, h: Hello, before: seq<Ext>, name: seq<byte>, others: seq<byte>, after: seq<Ext>, rest: seq<byte>)
    requires HoldsName(s, h, before, name, others, after, rest)
    ensures 5 <= |s| && FindExtLen(s) == Some(9 + |Body(h)|)
  {
    FindsLength(s, h, rest);
  }

  lemma NamedExtension(s: seq<byte>, h: Hello, before: seq<Ext>, name: seq<byte>, others: seq<byte>, after: seq<Ext>, rest: seq<byte>)
    requires HoldsName(s, h, before, name, others, after, rest)
    ensures 5 <= |s| && FindExt(s, 0, false) == Some(Found(15 + |Body(h)| + |WriteExts(before)|, 5 + |name| + |others|))
  {
    NameExtension(s, h, before, ServerName(name, others), after, rest);
  }

  lemma HostInHello(s: seq<byte>, h: Hello, before: seq<Ext>, name: seq<byte>, others: seq<byte>, after: seq<Ext>, rest: seq<byte>)
    requires HoldsName(s, h, before, name, others, after, rest)
    ensures var k := 15 + |Body(h)| + |WriteExts(before)|;
            && k + 5 + |name| + |others| <= |s|
            && AdvanceToHost(s, Found(k, 5 + |name| + |others|)) == Some(Found(k + 5, |name|)) && s[k + 5..k + 5 + |name|] == name
  {
    NamedHello(s, h, before, name, others, after, rest);
    HostInRow(s, h.minor, Body(h), WriteExts(before), name, others, WriteExts(after), rest);
  }

  /** All three searches of the edit succeed on a well-formed hello that has a host name. */
  lemma Located(s: seq<byte>, h: Hello, before: seq<Ext>, name: seq<byte>, others: seq<byte>, after: seq<Ext>, rest: seq<byte>)
    requires HoldsName(s, h, before, name, others, after, rest)
    ensures 5 <= |s| && Locate(s) == Some(PlacesOf(|Body(h)|, |WriteExts(before)|, |name|))
  {
    NamedLength(s, h, before, name, others, after, rest);
    NamedExtension(s, h, before, name, others, after, rest);
    HostInHello(s, h, before, name, others, after, rest);
    LocatedBy(s, |Body(h)|, |WriteExts(before)|, 5 + |name| + |others|, |name|);
  }

  lemma NameRead(s: seq<byte>, h: Hello, before: seq<Ext>, name: seq<byte>, others: seq<byte>, after: seq<Ext>, rest: seq<byte>)
    requires HoldsName(s, h, before, name, others, after, rest)
    ensures 5 <= |s| && Slice(s, HostOf(s)) == Some(name)
  {
    Located(s, h, before, name, others, after, rest);
    HostInHello(s, h, before, name, others, after, rest);
  }

  ghost function HostOf(s: seq<byte>): (r: Option<Found>)
    requires 5 <= |s|
    ensures r.Some? ==> r.value.at + r.value.len <= |s|
  {
    var p := Locate(s);
    if p.None? then None else Some(Found(p.value.host, p.value.slen))
  }

  lemma RowOpens(s: seq<byte>, minor: byte, b: seq<byte>, e0: seq<byte>, name: seq<byte>, others: seq<byte>, e1: seq<byte>, rest: seq<byte>)
    requires Holds(s, 0, NamedRow(minor, b, e0, name, others, e1, rest))
    ensures Holds(s, 0, HeaderRow(minor, b, |e0| + 9 + |name| + |others| + |e1|, Open))
    ensures Holds(s, 11 + |b|, NameRow(e0, name, others, e1, Field(rest, End)))
  {
    HeaderOpens(s, minor, b, |e0| + 9 + |name| + |others| + |e1|, NameRow(e0, name, others, e1, Field(rest, End)));
  }

  lemma HostInRow(s: seq<byte>, minor: byte, b: seq<byte>, e0: seq<byte>, name: seq<byte>, others: seq<byte>, e1: seq<byte>, rest: seq<byte>)
    requires Holds(s, 0, NamedRow(minor, b, e0, name, others, e1, rest)) && |name| < 0x1_0000
    ensures var k := 15 + |b| + |e0|;
            && k + 5 + |name| + |others| <= |s|
            && AdvanceToHost(s, Found(k, 5 + |name| + |others|)) == Some(Found(k + 5, |name|)) && s[k + 5..k + 5 + |name|] == name
  {
    RowOpens(s, minor, b, e0, name, others, e1, rest);
    NameInList(s, 11 + |b|, e0, name, others, e1, Field(rest, End));
  }

  lemma LocatedBy(s: seq<byte>, b: nat, e0: nat, len: nat, slen: nat)
    requires 5 <= |s| && FindExtLen(s) == Some(9 + b) && FindExt(s, 0, false) == Some(Found(15 + b + e0, len))
    requires AdvanceToHost(s, Found(15 + b + e0, len)) == Some(Found(20 + b + e0, slen))
    ensures Locate(s) == Some(PlacesOf(b, e0, slen))
  {
  }

  // ---------- the edited bytes ----------

  ghost predicate InRange(v: nat, delta: int, m: nat) {
    v < m && 0 <= v + delta < m
  }

  /** `t` from `from` on is `s` with the fields of the plan shifted, then x. */
  ghost predicate Follows(t: seq<byte>, s: seq<byte>, from: nat, plan: Plan, end: nat, delta: int, x: seq<byte>)
    decreases plan
  {
    if plan.Stop? then from == end <= |s| && from <= |t| && t[from..] == x
    else
      var j := plan.i + Width(plan);
      && from <= plan.i && j <= end <= |s| && j <= |t|
      && t[from..plan.i] == s[from..plan.i] && t[plan.i..j] == Updated(s, plan, delta) && Follows(t, s, j, plan.next, end, delta, x)
  }

  lemma Append4(a: seq<byte>, b: seq<byte>, c: seq<byte>, x: seq<byte>)
    ensures a + b + c + x == a + b + (c + x)
  {
  }

  lemma {:induction false} ShiftedFollows(t: seq<byte>, s: seq<byte>, from: nat, plan: Plan, end: nat, delta: int, x: seq<byte>)
    requires PlanOk(s, from, plan, end)
    requires from <= |t| && t[from..] == Shifted(s, from, plan, end, delta) + x
    ensures Follows(t, s, from, plan, end, delta, x)
    decreases plan
  {
    PlanFits(s, from, plan, end);
    if plan.Stop? {
      assert t[from..] == [] + x == x;
    } else {
      var j := plan.i + Width(plan);
      var after := Shifted(s, j, plan.next, end, delta);
      Append4(s[from..plan.i], Updated(s, plan, delta), after, x);
      Cut3(t, from, s[from..plan.i], Updated(s, plan, delta), after + x);
      ShiftedFollows(t, s, j, plan.next, end, delta, x);
    }
  }

  lemma Cut3(t: seq<byte>, from: nat, a: seq<byte>, b: seq<byte>, c: seq<byte>)
    requires from <= |t|
    ensures t[from..] == a + b + c ==>
              var (i, j) := (from + |a|, from + |a| + |b|);
              j <= |t| && t[from..i] == a && t[i..j] == b && t[j..] == c
  {
    if t[from..] == a + b + c {
      var u := t[from..];
      var i, j := |a|, |a| + |b|;
      assert u[..i] == a && u[i..j] == b && u[j..] == c;
      SubSlice(t, from, |u|, 0, i);
      SubSlice(t, from, |u|, i, j);
      SubSlice(t, from, |u|, j, |u|);
      assert t[from..from + |u|] == u && t[from + j..from + |u|] == t[from + j..] && u[j..|u|] == u[j..] && u[0..i] == u[..i];
    }
  }

  /** One field of 16 bits and what precedes it. */
  lemma ShiftField(t: seq<byte>, s: seq<byte>, gap: seq<byte>, v: nat, r: Row, r': Row,
                   from: nat, next: Plan, end: nat, delta: int, x: seq<byte>)
    requires Holds(s, from, Field(gap, Field(Be16(v), r))) && InRange(v, delta, 0x1_0000)
    requires Follows(t, s, from, At16(from + |gap|, next), end, delta, x)
    ensures var to := from + |gap| + 2;
            && Holds(s, to, r) && Follows(t, s, to, next, end, delta, x)
            && (Holds(t, to, r') ==> Holds(t, from, Field(gap, Field(Be16(v + delta), r'))))
  {
    var i := from + |gap|;
    First(s, from, gap, Field(Be16(v), r));
    First(s, i, Be16(v), r);
    NewValue(s, i, v, next, delta);
    Pair(t, from, gap, Be16(v + delta), r');
  }

  lemma NewValue(s: seq<byte>, i: nat, v: nat, next: Plan, delta: int)
    requires i + 2 <= |s| && s[i..i + 2] == Be16(v) && InRange(v, delta, 0x1_0000)
    ensures Updated(s, At16(i, next), delta) == Be16(v + delta)
  {
    Get16Of(s, i, v);
  }

  lemma NewValue24(s: seq<byte>, i: nat, v: nat, next: Plan, delta: int)
    requires i + 3 <= |s| && s[i..i + 3] == Be24(v) && InRange(v, delta, 0x100_0000)
    ensures Updated(s, At24(i, next), delta) == Be24(v + delta)
  {
    Get24Of(s, i, v);
  }

  lemma Pair(t: seq<byte>, from: nat, gap: seq<byte>, f: seq<byte>, r: Row)
    requires var i := from + |gap|;
             i + |f| <= |t| && t[from..i] == gap && t[i..i + |f|] == f
    ensures Holds(t, from + |gap| + |f|, r) ==> Holds(t, from, Field(gap, Field(f, r)))
  {
    First(t, from, gap, Field(f, r));
    First(t, from + |gap|, f, r);
  }

  lemma ShiftField24(t: seq<byte>, s: seq<byte>, gap: seq<byte>, v: nat, r: Row, r': Row,
                     from: nat, next: Plan, end: nat, delta: int, x: seq<byte>)
    requires Holds(s, from, Field(gap, Field(Be24(v), r))) && InRange(v, delta, 0x100_0000)
    requires Follows(t, s, from, At24(from + |gap|, next), end, delta, x)
    ensures var to := from + |gap| + 3;
            && Holds(s, to, r) && Follows(t, s, to, next, end, delta, x)
            && (Holds(t, to, r') ==> Holds(t, from, Field(gap, Field(Be24(v + delta), r'))))
  {
    var i := from + |gap|;
    First(s, from, gap, Field(Be24(v), r));
    First(s, i, Be24(v), r);
    NewValue24(s, i, v, next, delta);
    Pair(t, from, gap, Be24(v + delta), r');
  }

  /** The three fields of the header. */
  lemma ShiftHeader(t: seq<byte>, s: seq<byte>, minor: byte, b: seq<byte>, n: nat, r: Row, r': Row,
                    next: Plan, end: nat, delta: int, x: seq<byte>)
    requires Holds(s, 0, HeaderRow(minor, b, n, r)) && InRange(6 + |b| + n, delta, 0x1_0000) && 0 <= n + delta
    requires Follows(t, s, 0, At16(3, At24(6, At16(9 + |b|, next))), end, delta, x)
    ensures Holds(s, 11 + |b|, r) && Follows(t, s, 11 + |b|, next, end, delta, x)
    ensures Holds(t, 11 + |b|, r') ==> Holds(t, 0, HeaderRow(minor, b, n + delta, r'))
  {
    var q, q' := Field(b, Field(Be16(n), r)), Field(b, Field(Be16(n + delta), r'));
    ShiftField(t, s, [0x16, 3, minor], 6 + |b| + n, Field([1], Field(Be24(2 + |b| + n), q)),
               Field([1], Field(Be24(2 + |b| + n + delta), q')), 0, At24(6, At16(9 + |b|, next)), end, delta, x);
    ShiftHandshake(t, s, b, n, r, r', next, end, delta, x);
  }

  /** Handshake and extensions length. */
  lemma ShiftHandshake(t: seq<byte>, s: seq<byte>, b: seq<byte>, n: nat, r: Row, r': Row, next: Plan, end: nat, delta: int, x: seq<byte>)
    requires Holds(s, 5, Field([1], Field(Be24(2 + |b| + n), Field(b, Field(Be16(n), r)))))
    requires InRange(6 + |b| + n, delta, 0x1_0000) && 0 <= n + delta
    requires Follows(t, s, 5, At24(6, At16(9 + |b|, next)), end, delta, x)
    ensures Holds(s, 11 + |b|, r) && Follows(t, s, 11 + |b|, next, end, delta, x)
    ensures Holds(t, 11 + |b|, r') ==> Holds(t, 5, Field([1], Field(Be24(2 + |b| + n + delta), Field(b, Field(Be16(n + delta), r')))))
  {
    var q, q' := Field(b, Field(Be16(n), r)), Field(b, Field(Be16(n + delta), r'));
    ShiftField24(t, s, [1], 2 + |b| + n, q, q', 5, At16(9 + |b|, next), end, delta, x);
    ShiftField(t, s, b, n, r, r', 9, next, end, delta, x);
  }

  lemma Empty(s: seq<byte>, at: nat, r: Row)
    ensures Holds(s, at, Field([], r)) <==> Holds(s, at, r)
  {
    First(s, at, [], r);
    if Holds(s, at, r) {
      HoldsFits(s, at, r);
      assert s[at..at] == [];
    }
  }

  /** The three fields of the extension. */
  lemma ShiftExtension(t: seq<byte>, s: seq<byte>, at: nat, e0: seq<byte>, d: nat, m: nat, r: Row, r': Row,
                       end: nat, delta: int, x: seq<byte>)
    requires Holds(s, at, Field(e0, Field(Be16(0), Field(Be16(d + 2), Field(Be16(d), Field(U8(0), Field(Be16(m), r)))))))
    requires InRange(d + 2, delta, 0x1_0000) && InRange(m, delta, 0x1_0000) && 0 <= d + delta
    requires var k := at + |e0| + 2;
             Follows(t, s, at, At16(k, At16(k + 2, At16(k + 5, Stop))), end, delta, x)
    ensures var k := at + |e0| + 9;
            && Holds(s, k, r) && Follows(t, s, k, Stop, end, delta, x)
            && (Holds(t, k, r') ==>
                  Holds(t, at, Field(e0, Field(Be16(0), Field(Be16(d + delta + 2), Field(Be16(d + delta), Field(U8(0), Field(Be16(m + delta), r'))))))))
  {
    var k := at + |e0| + 2;
    var l := Field(Be16(d), Field(U8(0), Field(Be16(m), r)));
    var l' := Field(Be16(d + delta), Field(U8(0), Field(Be16(m + delta), r')));
    Two(s, at, e0, Be16(0), Field(Be16(d + 2), l));
    ShiftField(t, s, e0 + Be16(0), d + 2, l, l', at, At16(k + 2, At16(k + 5, Stop)), end, delta, x);
    ShiftList(t, s, k + 2, d, m, r, r', end, delta, x);
    Two(t, at, e0, Be16(0), Field(Be16(d + delta + 2), l'));
  }

  /** List and name length. */
  lemma ShiftList(t: seq<byte>, s: seq<byte>, i: nat, d: nat, m: nat, r: Row, r': Row, end: nat, delta: int, x: seq<byte>)
    requires Holds(s, i, Field(Be16(d), Field(U8(0), Field(Be16(m), r))))
    requires InRange(d, delta, 0x1_0000) && InRange(m, delta, 0x1_0000)
    requires Follows(t, s, i, At16(i, At16(i + 3, Stop)), end, delta, x)
    ensures Holds(s, i + 5, r) && Follows(t, s, i + 5, Stop, end, delta, x)
    ensures Holds(t, i + 5, r') ==> Holds(t, i, Field(Be16(d + delta), Field(U8(0), Field(Be16(m + delta), r'))))
  {
    var q, q' := Field(U8(0), Field(Be16(m), r)), Field(U8(0), Field(Be16(m + delta), r'));
    Empty(s, i, Field(Be16(d), q));
    ShiftField(t, s, [], d, q, q', i, At16(i + 3, Stop), end, delta, x);
    Empty(t, i, Field(Be16(d + delta), q'));
    ShiftField(t, s, U8(0), m, r, r', i + 2, Stop, end, delta, x);
  }

  lemma TailPieces(s: seq<byte>, at: nat, others: seq<byte>, e1: seq<byte>, rest: seq<byte>)
    requires Holds(s, at, Field(others, Field(e1, Field(rest, End))))
    ensures at <= |s| && s[at..] == others + e1 + rest
  {
    Two(s, at, others, e1, Field(rest, End));
    Two(s, at, others + e1, rest, End);
    First(s, at, others + e1 + rest, End);
    assert s[at..|s|] == s[at..];
  }

  lemma TailIsRow(t: seq<byte>, at: nat, sni: seq<byte>, others: seq<byte>, e1: seq<byte>, rest: seq<byte>)
    requires at <= |t| && t[at..] == sni + (others + e1 + rest)
    ensures Holds(t, at, Field(sni, Field(others, Field(e1, Field(rest, End)))))
  {
    assert sni + (others + e1 + rest) == sni + others + e1 + rest;
    assert t[at..|t|] == t[at..];
    First(t, at, sni + others + e1 + rest, End);
    Two(t, at, sni + others + e1, rest, End);
    Two(t, at, sni + others, e1, Field(rest, End));
    Two(t, at, sni, others, Field(e1, Field(rest, End)));
  }

  /** The new name in place of the old one. */
  lemma NewName(t: seq<byte>, s: seq<byte>, end: nat, delta: int, x: seq<byte>, name: seq<byte>, sni: seq<byte>, others: seq<byte>,
                e1: seq<byte>, rest: seq<byte>)
    requires Holds(s, end, Field(name, Field(others, Field(e1, Field(rest, End))))) && Follows(t, s, end, Stop, end, delta, x)
    requires end + |name| <= |s| && x == sni + s[end + |name|..]
    ensures Holds(t, end, Field(sni, Field(others, Field(e1, Field(rest, End)))))
  {
    First(s, end, name, Field(others, Field(e1, Field(rest, End))));
    TailPieces(s, end + |name|, others, e1, rest);
    TailIsRow(t, end, sni, others, e1, rest);
  }

  /** The edit, on the fields of the buffer. */
  lemma EditedRow(s: seq<byte>, p: Places, minor: byte, b: seq<byte>, e0: seq<byte>, name: seq<byte>, others: seq<byte>,
                  e1: seq<byte>, rest: seq<byte>, sni: seq<byte>)
    requires p == PlacesOf(|b|, |e0|, |name|) && PlacesOk(s, p) && Holds(s, 0, NamedRow(minor, b, e0, name, others, e1, rest))
    requires |b| + |e0| + |others| + |e1| + |name| + 15 < 0x1_0000 && |b| + |e0| + |others| + |e1| + |sni| + 15 < 0x1_0000
    ensures Holds(Edited(s, p, sni), 0, NamedRow(minor, b, e0, sni, others, e1, rest))
  {
    EditFollows(s, p, sni);
    RowFollows(Edited(s, p, sni), s, minor, b, e0, name, others, e1, rest, sni, sni + s[p.host + p.slen..]);
  }

  lemma RowFollows(t: seq<byte>, s: seq<byte>, minor: byte, b: seq<byte>, e0: seq<byte>, name: seq<byte>, others: seq<byte>,
                   e1: seq<byte>, rest: seq<byte>, sni: seq<byte>, x: seq<byte>)
    requires Holds(s, 0, NamedRow(minor, b, e0, name, others, e1, rest))
    requires |b| + |e0| + |others| + |e1| + |name| + 15 < 0x1_0000 && |b| + |e0| + |others| + |e1| + |sni| + 15 < 0x1_0000
    requires var k := 13 + |b| + |e0|;
             && Follows(t, s, 0, At16(3, At24(6, At16(9 + |b|, At16(k, At16(k + 2, At16(k + 5, Stop)))))), k + 7, |sni| - |name|, x)
             && k + 7 + |name| <= |s| && x == sni + s[k + 7 + |name|..]
    ensures Holds(t, 0, NamedRow(minor, b, e0, sni, others, e1, rest))
  {
    var at, k, delta := 11 + |b|, 13 + |b| + |e0|, |sni| - |name|;
    var next := At16(k, At16(k + 2, At16(k + 5, Stop)));
    var r, r' := NameRow(e0, name, others, e1, Field(rest, End)), NameRow(e0, sni, others, e1, Field(rest, End));
    if Holds(s, at, r) && Follows(t, s, at, next, k + 7, delta, x) {
      ListFollows(t, s, at, e0, name, others, e1, rest, sni, x);
    }
    HeaderFollows(t, s, minor, b, |e0| + 9 + |name| + |others| + |e1|, |e0| + 9 + |sni| + |others| + |e1|, r, r', next, k + 7, delta, x);
  }

  lemma HeaderFollows(t: seq<byte>, s: seq<byte>, minor: byte, b: seq<byte>, n: nat, n': nat, r: Row, r': Row,
                      next: Plan, end: nat, delta: int, x: seq<byte>)
    requires Holds(s, 0, HeaderRow(minor, b, n, r)) && InRange(6 + |b| + n, delta, 0x1_0000) && n' == n + delta
    requires Follows(t, s, 0, At16(3, At24(6, At16(9 + |b|, next))), end, delta, x)
    requires Holds(s, 11 + |b|, r) && Follows(t, s, 11 + |b|, next, end, delta, x) ==> Holds(t, 11 + |b|, r')
    ensures Holds(t, 0, HeaderRow(minor, b, n', r'))
  {
    ShiftHeader(t, s, minor, b, n, r, r', next, end, delta, x);
  }

  lemma ListFollows(t: seq<byte>, s: seq<byte>, at: nat, e0: seq<byte>, name: seq<byte>, others: seq<byte>,
                    e1: seq<byte>, rest: seq<byte>, sni: seq<byte>, x: seq<byte>)
    requires Holds(s, at, NameRow(e0, name, others, e1, Field(rest, End)))
    requires 5 + |others| + |name| < 0x1_0000 && 5 + |others| + |sni| < 0x1_0000
    requires var k := at + |e0| + 2;
             Follows(t, s, at, At16(k, At16(k + 2, At16(k + 5, Stop))), k + 7, |sni| - |name|, x)
    requires var h := at + |e0| + 9;
             h + |name| <= |s| && x == sni + s[h + |name|..]
    ensures Holds(t, at, NameRow(e0, sni, others, e1, Field(rest, End)))
  {
    var h := at + |e0| + 9;
    var r := Field(name, Field(others, Field(e1, Field(rest, End))));
    var r' := Field(sni, Field(others, Field(e1, Field(rest, End))));
    ShiftExtension(t, s, at, e0, 3 + |name| + |others|, |name|, r, r', h, |sni| - |name|, x);
    NewName(t, s, h, |sni| - |name|, x, name, sni, others, e1, rest);
  }

  lemma EditFollows(s: seq<byte>, p: Places, sni: seq<byte>)
    requires PlacesOk(s, p)
    ensures Follows(Edited(s, p, sni), s, 0, LengthFields(p), p.host, |sni| - p.slen, sni + s[p.host + p.slen..])
  {
    LengthFieldsOk(s, p);
    HeadFollows(Edited(s, p, sni), s, LengthFields(p), p.host, |sni| - p.slen, sni, s[p.host + p.slen..]);
  }

  lemma HeadFollows(t: seq<byte>, s: seq<byte>, plan: Plan, end: nat, delta: int, sni: seq<byte>, tail: seq<byte>)
    requires PlanOk(s, 0, plan, end) && t == Shifted(s, 0, plan, end, delta) + sni + tail
    ensures Follows(t, s, 0, plan, end, delta, sni + tail)
  {
    assert t == Shifted(s, 0, plan, end, delta) + (sni + tail);
    assert t[0..] == t;
    ShiftedFollows(t, s, 0, plan, end, delta, sni + tail);
  }

  lemma BodyStays(h: Hello, es: seq<Ext>)
    ensures Body(h.(extensions := es)) == Body(h)
  {
  }

  /** The main result: the edit turns a buffer that holds a hello naming `name` into one that holds the hello naming `sni`,
      with every length right and the same bytes behind it. */
  lemma EditRenames(s: seq<byte>, h: Hello, before: seq<Ext>, name: seq<byte>, others: seq<byte>, after: seq<Ext>,
                    rest: seq<byte>, sni: seq<byte>, h': Hello)
    requires HoldsName(s, h, before, name, others, after, rest)
    requires h' == h.(extensions := before + [Ext(0, ServerName(sni, others))] + after) && Fits(h')
    ensures 5 <= |s| && Locate(s).Some? && HoldsName(Edited(s, Locate(s).value, sni), h', before, sni, others, after, rest)
  {
    var b, e0, e1 := Body(h), WriteExts(before), WriteExts(after);
    var p := PlacesOf(|b|, |e0|, |name|);
    Located(s, h, before, name, others, after, rest);
    NamedHello(s, h, before, name, others, after, rest);
    BodyStays(h, h'.extensions);
    NamedHello(s, h', before, sni, others, after, rest);
    assert PlacesOk(s, p);
    EditedRow(s, p, h.minor, b, e0, name, others, e1, rest, sni);
    NamedHello(Edited(s, p, sni), h', before, sni, others, after, rest);
  }

  /** What a parser sees after the edit: the new name, every other extension with its bytes, and lengths that agree. */
  lemma ParsesRenamed(s: seq<byte>, h: Hello, before: seq<Ext>, name: seq<byte>, others: seq<byte>, after: seq<Ext>,
                      rest: seq<byte>, sni: seq<byte>, h': Hello, kind: nat, partialIsOK: bool)
    requires HoldsName(s, h, before, name, others, after, rest)
    requires h' == h.(extensions := before + [Ext(0, ServerName(sni, others))] + after) && Fits(h')
    ensures 5 <= |s| && Locate(s).Some?
    ensures var t := Edited(s, Locate(s).value, sni);
            && 5 <= |t| && Slice(t, HostOf(t)) == Some(sni) && TLSRecordLen(t) == |t| - |rest|
            && (kind != 0 ==> Slice(t, FindExt(t, kind, partialIsOK)) == Slice(s, FindExt(s, kind, partialIsOK)))
  {
    EditRenames(s, h, before, name, others, after, rest, sni, h');
    BothParse(s, Edited(s, Locate(s).value, sni), h, before, name, others, after, rest, sni, h', kind, partialIsOK);
  }

  lemma BothParse(s: seq<byte>, t: seq<byte>, h: Hello, before: seq<Ext>, name: seq<byte>, others: seq<byte>, after: seq<Ext>,
                  rest: seq<byte>, sni: seq<byte>, h': Hello, kind: nat, partialIsOK: bool)
    requires HoldsName(s, h, before, name, others, after, rest) && HoldsName(t, h', before, sni, others, after, rest)
    ensures 5 <= |t| && Slice(t, HostOf(t)) == Some(sni) && TLSRecordLen(t) == |t| - |rest|
    ensures kind != 0 ==> Slice(t, FindExt(t, kind, partialIsOK)) == Slice(s, FindExt(s, kind, partialIsOK))
  {
    NameRead(t, h', before, sni, others, after, rest);
    HelloValues(t, h', rest);
    ParserFindsExtensions(s, h, rest, kind, partialIsOK);
    ParserFindsExtensions(t, h', rest, kind, partialIsOK);
    if kind != 0 {
      OthersKeepFirst(before, Ext(0, ServerName(name, others)), Ext(0, ServerName(sni, others)), after, kind);
    }
  }
}
