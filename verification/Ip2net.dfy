/** The two main loops of ip2net/ip2net.c: sort, drop duplicates, group into subnets.
    Parsing the input lines and formatting the output lines are not part of this model.
 */
module Ip2net {
  import opened Bits
  import opened Grouping
  import Dedup
  import Quicksort

  // ---------- IPv4 ----------

  function Ucmp(a: nat, b: nat): int {
    if a < b then -1 else if a > b then 1 else 0
  }

  function Not32(x: nat): nat
    requires x < U32
  {
    U32 - 1 - x
  }

  lemma Pow2Below32(zct: nat)
    requires zct < 32
    ensures Pow2(zct) <= 0x8000_0000
  {
    Pow2Monotone(zct, 31);
    Pow2At32();
  }

  /** zct<32 ? ~((1u << zct) - 1) : 0 */
  function MaskFromBitcount(zct: nat): nat {
    if zct < 32 then Pow2Below32(zct); Not32(Pow2(zct) - 1) else 0
  }

  /** The masks cut an address into block start and block end. */
  lemma MaskSplitsAddress(x: nat, zct: nat)
    requires x < U32 && zct < 32
    ensures MaskFromBitcount(zct) < U32
    ensures And(x, MaskFromBitcount(zct)) == NetStart(x, zct)
    ensures (Not32(MaskFromBitcount(zct)) + 1) % U32 == Pow2(zct)
    ensures Or(NetStart(x, zct), Not32(MaskFromBitcount(zct))) == NetStart(x, zct) + Pow2(zct) - 1
  {
    Pow2Below32(zct);
    Pow2At32();
    AndMask(x, zct, 32);
    OrLowBits(Net(x, zct), zct);
  }

  /** One candidate prefix length: is the address too high in the subnet, how many addresses does the
      subnet hold from pos on, and are they enough? */
  method ProbeIPv4(iplist: array<nat>, ipct: nat, pos: nat, zct: nat, pctmult: nat, pctdiv: nat)
    returns (tooHigh: bool, p: nat, ipCt: nat, enough: bool)
    requires pos < ipct <= iplist.Length
    requires Ascending(iplist[..ipct]) && iplist[pos] < U32
    requires zct < 32 && RuleOk(V4(pctmult, pctdiv))
    ensures tooHigh ==> !Accepts(V4(pctmult, pctdiv), iplist[..ipct], pos, zct)
    ensures !tooHigh ==> p == End(iplist[..ipct], pos, zct) && ipCt == Count(iplist[..ipct], pos, zct)
    ensures !tooHigh ==> (enough <==> Accepts(V4(pctmult, pctdiv), iplist[..ipct], pos, zct))
  {
    p, ipCt, enough := pos + 1, 1, false;
    MaskSplitsAddress(iplist[pos], zct);
    var mask := MaskFromBitcount(zct);
    var ipStart := And(iplist[pos], mask);
    var subnetCt := (Not32(mask) + 1) % U32;
    tooHigh := iplist[pos] > (ipStart + ((subnetCt * (pctdiv - pctmult)) % U32) / pctdiv) % U32;
    if !tooHigh {
      var ipEnd := Or(ipStart, Not32(mask));
      p, ipCt := CountIPv4(iplist, ipct, pos, ipEnd, zct);
      enough := ((subnetCt * pctmult) % U32) / pctdiv <= ipCt;
    }
  }

  /** The inner search of the IPv4 loop around iplist[pos]. */
  method ChooseIPv4(iplist: array<nat>, ipct: nat, pos: nat, zctMin: nat, zctMax: nat, pctmult: nat, pctdiv: nat)
    returns (zctBest: nat, posEnd: nat)
    requires pos < ipct <= iplist.Length
    requires Ascending(iplist[..ipct]) && iplist[pos] < U32
    requires 1 <= zctMin && zctMax < 32 && RuleOk(V4(pctmult, pctdiv))
    ensures Choice(Search(V4(pctmult, pctdiv), zctMin, zctMax), iplist[..ipct], pos, zctBest, posEnd)
  {
    ghost var s := iplist[..ipct];
    ghost var f := Search(V4(pctmult, pctdiv), zctMin, zctMax);
    var ipCtBest := 0;
    zctBest, posEnd := 0, 0;
    var zct := zctMax;
    while zctMin <= zct
      invariant zct <= zctMax
      invariant ipCtBest == 0 <==> zctBest == 0
      invariant SoFar(f, s, pos, zct, zctBest, ipCtBest, posEnd)
    {
      var tooHigh, p, ipCt, enough := ProbeIPv4(iplist, ipct, pos, zct, pctmult, pctdiv);
      SearchStep(f, s, pos, zct, zctBest, ipCtBest, posEnd);
      if tooHigh {
        zct := zct - 1;
        continue;
      }
      if ipCt == 1 {
        SearchStopped(f, s, pos, zct, zctBest, ipCtBest, posEnd);
        break;
      }
      if enough {
        if ipCtBest == 0 || ipCt == ipCtBest {
          ipCtBest, zctBest, posEnd := ipCt, zct, p;
        } else {
          SearchStopped(f, s, pos, zct, zctBest, ipCtBest, posEnd);
          break;
        }
      }
      zct := zct - 1;
    }
    if zct < zctMin {
      SearchExhausted(f, s, pos, zct, zctBest, ipCtBest, posEnd);
    }
    if zctBest == 0 {
      posEnd := pos + 1;
    }
  }

  /** Count the addresses from pos up to the end of the subnet. */
  method CountIPv4(iplist: array<nat>, ipct: nat, pos: nat, ipEnd: nat, ghost zct: nat) returns (p: nat, ipCt: nat)
    requires pos < ipct <= iplist.Length && Ascending(iplist[..ipct])
    requires ipEnd == NetStart(iplist[pos], zct) + Pow2(zct) - 1
    ensures p == End(iplist[..ipct], pos, zct) && ipCt == Count(iplist[..ipct], pos, zct)
  {
    ghost var s := iplist[..ipct];
    p, ipCt := pos + 1, 1;
    while p < ipct && iplist[p] <= ipEnd
      invariant pos < p <= ipct && ipCt == p - pos
      invariant RunEnd(s, pos, p, zct) == End(s, pos, zct)
    {
      SameNetIffBelowEnd(s[pos], s[p], zct);
      p, ipCt := p + 1, ipCt + 1;
    }
    if p < ipct {
      SameNetIffBelowEnd(s[pos], s[p], zct);
    }
  }

  lemma SameNetIffBelowEnd(x: nat, y: nat, z: nat)
    requires x <= y
    ensures Net(y, z) == Net(x, z) <==> y <= NetStart(x, z) + Pow2(z) - 1
  {
    NetBounds(x, z);
    NetBounds(y, z);
    if y <= NetStart(x, z) + Pow2(z) - 1 {
      NetUnique(y, z, Net(x, z));
    }
  }

  /** Every input address lies in exactly one printed item, items ascend and do not overlap. */
  ghost predicate ExactCover(inputs: seq<nat>, out: seq<Item>) {
    && (forall j, k :: 0 <= j < k < |out| ==> out[j].start + Pow2(out[j].zct) <= out[k].start)
    && (forall x :: x in inputs ==> exists k :: 0 <= k < |out| && Covers(out[k], x))
    && (forall x, j, k :: 0 <= j < |out| && 0 <= k < |out| && Covers(out[j], x) && Covers(out[k], x) ==> j == k)
  }

  lemma EmittedIsExactCover(f: Search, s: seq<nat>, inputs: seq<nat>, out: seq<Item>, cuts: seq<nat>)
    requires RuleOk(f.rule) && Ascending(s) && Emitted(f, s, out, cuts) && cuts[|out|] == |s|
    requires forall x :: x in inputs <==> x in s
    ensures ExactCover(inputs, out)
  {
    forall j, k | 0 <= j < k < |out|
      ensures out[j].start + Pow2(out[j].zct) <= out[k].start
    {
      ItemsAscend(f, s, out, cuts, j, k);
    }
    forall x | x in inputs
      ensures exists k :: 0 <= k < |out| && Covers(out[k], x)
    {
      var i :| 0 <= i < |s| && s[i] == x;
      var k := FindItem(f, s, out, cuts, |out|, i);
      ItemCoversExactly(f, s, out, cuts, k, i);
    }
    forall x, j, k | 0 <= j < |out| && 0 <= k < |out| && Covers(out[j], x) && Covers(out[k], x)
      ensures j == k
    {
    }
  }

  /** The IPv4 output loop on a sorted list without duplicates. */
  method EmitIPv4(iplist: array<nat>, ipct: nat, zctMin: nat, zctMax: nat, pctmult: nat, pctdiv: nat)
    returns (out: seq<Item>, ghost cuts: seq<nat>)
    requires ipct <= iplist.Length && Ascending(iplist[..ipct])
    requires forall k :: 0 <= k < ipct ==> iplist[k] < U32
    requires 1 <= zctMin && zctMax < 32 && RuleOk(V4(pctmult, pctdiv))
    ensures Emitted(Search(V4(pctmult, pctdiv), zctMin, zctMax), iplist[..ipct], out, cuts)
    ensures cuts[|out|] == ipct
    ensures ExactCover(iplist[..ipct], out)
  {
    ghost var s := iplist[..ipct];
    ghost var f := Search(V4(pctmult, pctdiv), zctMin, zctMax);
    var pos := 0;
    out, cuts := [], [0];
    while pos < ipct
      invariant Emitted(f, s, out, cuts)
      invariant cuts[|out|] == pos <= ipct
    {
      var zctBest, posEnd := ChooseIPv4(iplist, ipct, pos, zctMin, zctMax, pctmult, pctdiv);
      var ipStart := iplist[pos];
      if zctBest != 0 {
        MaskSplitsAddress(ipStart, zctBest);
        ipStart := And(ipStart, MaskFromBitcount(zctBest));
      }
      EmitOne(f, s, out, cuts, Item(ipStart, zctBest), posEnd);
      out, cuts := out + [Item(ipStart, zctBest)], cuts + [posEnd];
      pos := posEnd;
    }
    EmittedIsExactCover(f, s, s, out, cuts);
  }

  /** As long as no 32-bit product wraps, every item that is a block is filled up to the asked share with list addresses,
      and of the allowed blocks around its address that are, none covers more, nor as much in less space. */
  ghost predicate Filled(f: Search, s: seq<nat>, out: seq<Item>, cuts: seq<nat>)
    requires f.rule.V4? && RuleOk(f.rule)
  {
    |cuts| == |out| + 1 && forall k :: 0 <= k < |out| ==> cuts[k] < |s| && FilledItem(f, s, out[k].zct, cuts[k], cuts[k + 1])
  }

  ghost predicate FilledItem(f: Search, s: seq<nat>, z: nat, lo: nat, hi: nat)
    requires f.rule.V4? && RuleOk(f.rule) && lo < |s|
  {
    && (z != 0 ==> (Pow2(z) * f.rule.mult) / f.rule.div <= hi - lo && 2 <= hi - lo)
    && forall z' :: f.zmin <= z' <= f.zmax && Fills(s, lo, z', f.rule.mult, f.rule.div) ==>
         z != 0 && Count(s, lo, z') <= hi - lo && (Count(s, lo, z') == hi - lo ==> z <= z')
  }

  lemma EmittedIsFilled(f: Search, s: seq<nat>, out: seq<Item>, cuts: seq<nat>)
    requires f.rule.V4? && RuleOk(f.rule) && NoOverflow(f) && Ascending(s) && Emitted(f, s, out, cuts)
    requires forall k :: 0 <= k < |s| ==> s[k] < U32
    ensures Filled(f, s, out, cuts)
  {
    forall k | 0 <= k < |out|
      ensures cuts[k] < |s| && FilledItem(f, s, out[k].zct, cuts[k], cuts[k + 1])
    {
      assert ItemFor(f, s, out[k], cuts[k], cuts[k + 1]);
      ChoiceV4(f, s, cuts[k], out[k].zct, cuts[k + 1]);
    }
  }

  /** The IPv4 half of main: sort, drop duplicates, emit. */
  method GroupIPv4(iplist: array<nat>, zctMin: nat, zctMax: nat, pctmult: nat, pctdiv: nat)
    returns (out: seq<Item>, ghost s: seq<nat>, ghost cuts: seq<nat>)
    requires iplist.Length < U32 && forall k :: 0 <= k < iplist.Length ==> iplist[k] < U32
    requires 1 <= zctMin && zctMax < 32 && RuleOk(V4(pctmult, pctdiv))
    modifies iplist
    ensures ExactCover(old(iplist[..]), out)
    ensures Ascending(s) && forall x :: x in s <==> x in old(iplist[..])
    ensures Emitted(Search(V4(pctmult, pctdiv), zctMin, zctMax), s, out, cuts) && cuts[|out|] == |s|
    ensures var f := Search(V4(pctmult, pctdiv), zctMin, zctMax); NoOverflow(f) ==> Filled(f, s, out, cuts)
  {
    var ipct := SortUnique(iplist);
    s := iplist[..ipct];
    assert forall k :: 0 <= k < ipct ==> s[k] in s && s[k] in old(iplist[..]);
    out, cuts := EmitIPv4(iplist, ipct, zctMin, zctMax, pctmult, pctdiv);
    if NoOverflow(Search(V4(pctmult, pctdiv), zctMin, zctMax)) {
      EmittedIsFilled(Search(V4(pctmult, pctdiv), zctMin, zctMax), s, out, cuts);
    }
  }

  lemma EmitOne(f: Search, s: seq<nat>, out: seq<Item>, cuts: seq<nat>, it: Item, hi: nat)
    requires RuleOk(f.rule) && Emitted(f, s, out, cuts)
    requires ItemFor(f, s, it, cuts[|out|], hi)
    ensures Emitted(f, s, out + [it], cuts + [hi])
  {
    var out', cuts' := out + [it], cuts + [hi];
    forall k | 0 <= k < |out'|
      ensures ItemFor(f, s, out'[k], cuts'[k], cuts'[k + 1])
    {
      if k < |out| {
        assert ItemFor(f, s, out[k], cuts[k], cuts[k + 1]);
      }
    }
  }

  lemma UcmpIsTotalPreorder()
    ensures Quicksort.TotalPreorder(Ucmp)
  {
  }

  method SortUnique(iplist: array<nat>) returns (ipct: nat)
    requires iplist.Length < U32
    modifies iplist
    ensures ipct <= iplist.Length && Ascending(iplist[..ipct])
    ensures forall x :: x in iplist[..ipct] <==> x in old(iplist[..])
  {
    ghost var s0 := iplist[..];
    UcmpIsTotalPreorder();
    Quicksort.GnuQuicksort(iplist, Ucmp);
    ghost var s1 := iplist[..];
    ipct := Dedup.Unique(iplist, iplist.Length);
    assert s1[..|s1|] == s1;
    SortedDistinct(s0, s1);
  }

  lemma SortedDistinct(s0: seq<nat>, s1: seq<nat>)
    requires Quicksort.Sorted(s1, Ucmp) && multiset(s0) == multiset(s1)
    ensures Ascending(Dedup.Distinct(s1))
    ensures forall x :: x in Dedup.Distinct(s1) <==> x in s0
  {
    forall i, j | 0 <= i < j < |s1|
      ensures s1[i] <= s1[j]
    {
      assert Quicksort.Le(Ucmp, s1[i], s1[j]);
    }
    var key := (x: nat) => x;
    Dedup.DistinctAscends(s1, key);
    var d := Dedup.Distinct(s1);
    forall i, j | 0 <= i < j < |d|
      ensures d[i] < d[j]
    {
      assert key(d[i]) < key(d[j]);
    }
    forall x
      ensures x in d <==> x in s0
    {
      Dedup.DistinctElements(s1, x);
      assert x in s1 <==> x in multiset(s1);
      assert x in s0 <==> x in multiset(s0);
    }
  }
}
