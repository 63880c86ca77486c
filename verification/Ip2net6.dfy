/** The IPv6 half of ip2net/ip2net.c: 16-byte addresses, byte masks and the simpler search. */
module Ip2net6 {
  import opened Bits
  import opened Bytes
  import opened Grouping
  import Dedup
  import Ip2net
  import Quicksort

  type In6 = b: seq<byte> | |b| == 16
    witness [0, 0, 0, 0, 0, 0, 0, 0, 0, 0, 0, 0, 0, 0, 0, 0]

  function Values(s: seq<In6>): (v: seq<nat>)
    ensures |v| == |s|
  {
    seq(|s|, i requires 0 <= i < |s| => BigEndian(s[i]))
  }

  /** Two byte-swapped 64-bit halves. */
  function Cmp6(a: In6, b: In6): int {
    var aa, bb := BigEndian(a[..8]), BigEndian(b[..8]);
    if aa < bb then -1
    else if aa > bb then 1
    else
      var aa', bb' := BigEndian(a[8..]), BigEndian(b[8..]);
      if aa' < bb' then -1 else if aa' > bb' then 1 else 0
  }

  /** The comparison by halves is the comparison of the 128-bit numbers. */
  lemma Cmp6IsNumeric(a: In6, b: In6)
    ensures Cmp6(a, b) < 0 <==> BigEndian(a) < BigEndian(b)
    ensures Cmp6(a, b) > 0 <==> BigEndian(a) > BigEndian(b)
  {
    assert a == a[..8] + a[8..] && b == b[..8] + b[8..];
    CompareHalves(a[..8], a[8..], b[..8], b[8..]);
  }

  lemma CompareHalves(ah: seq<byte>, al: seq<byte>, bh: seq<byte>, bl: seq<byte>)
    requires |al| == |bl|
    ensures var a, b := BigEndian(ah + al), BigEndian(bh + bl);
            && (a < b <==> BigEndian(ah) < BigEndian(bh) || (BigEndian(ah) == BigEndian(bh) && BigEndian(al) < BigEndian(bl)))
            && (a == b <==> BigEndian(ah) == BigEndian(bh) && BigEndian(al) == BigEndian(bl))
  {
    BigEndianConcat(ah, al);
    BigEndianConcat(bh, bl);
    BigEndianBound(al);
    BigEndianBound(bl);
    LexicographicHalves(BigEndian(ah), BigEndian(al), BigEndian(bh), BigEndian(bl), Pow2(8 * |al|));
  }

  lemma LexicographicHalves(h: nat, l: nat, h': nat, l': nat, f: nat)
    requires l < f && l' < f
    ensures h * f + l < h' * f + l' <==> h < h' || (h == h' && l < l')
    ensures h * f + l == h' * f + l' <==> h == h' && l == l'
  {
    if h < h' {
      MulMonotone(h + 1, h', f);
    } else if h' < h {
      MulMonotone(h' + 1, h, f);
    }
  }

  /** n bytes of ones, one byte with its low r bits clear, k bytes of zeros. */
  function MaskBytes(n: nat, r: nat, k: nat): (m: seq<byte>)
    requires r < 8
    ensures |m| == n + 1 + k
  {
    PartialByte(r);
    var mid: byte := 256 - Pow2(r);
    Fill(n, 0xFF) + [mid] + Fill(k, 0)
  }

  /** mask_from_bitcount6_make for zct < 128 */
  function MaskFromBitcount6(zct: nat): (m: In6)
    requires zct < 128
  {
    var n := (127 - zct) / 8;
    MaskBytes(n, zct % 8, 15 - n)
  }

  lemma PartialByte(r: nat)
    requires r < 8
    ensures Pow2(r) <= 128
  {
    Pow2Monotone(r, 7);
  }

  /** The byte mask is the number with the low zct bits clear. */
  lemma MaskValue(zct: nat, bytes: nat)
    requires bytes == 16 && zct < 8 * bytes
    ensures Pow2(zct) <= Pow2(8 * bytes)
    ensures BigEndian(MaskFromBitcount6(zct)) == Pow2(8 * bytes) - Pow2(zct)
  {
    var n := (127 - zct) / 8;
    MaskValueAt(zct, bytes, n, zct % 8, 15 - n);
  }

  lemma MaskValueAt(zct: nat, bytes: nat, n: nat, r: nat, k: nat)
    requires bytes == n + 1 + k && 8 * k + r == zct && r < 8
    ensures Pow2(zct) <= Pow2(8 * bytes)
    ensures BigEndian(MaskBytes(n, r, k)) == Pow2(8 * bytes) - Pow2(zct)
  {
    MaskShape(n, r, k);
    Pow2Monotone(zct, 8 * bytes);
  }

  lemma MaskShape(n: nat, r: nat, k: nat)
    requires r < 8
    ensures BigEndian(MaskBytes(n, r, k)) == Pow2(8 * (n + 1 + k)) - Pow2(8 * k + r)
  {
    PartialByte(r);
    var mid: byte := 256 - Pow2(r);
    MaskHead(n, mid);
    BigEndianZeros(k);
    BigEndianConcat(Fill(n, 0xFF) + [mid], Fill(k, 0));
    Pow2Add(8 * (n + 1), 8 * k);
    Pow2Add(8 * k, r);
    MulDistribute(Pow2(8 * (n + 1)), Pow2(r), Pow2(8 * k));
  }

  lemma MaskHead(n: nat, mid: byte)
    ensures BigEndian(Fill(n, 0xFF) + [mid]) == Pow2(8 * (n + 1)) - 256 + mid
  {
    BigEndianOnes(n);
    BigEndianLast(Fill(n, 0xFF), mid);
    Pow2Byte(n);
    LastByte(Pow2(8 * n), mid);
  }

  lemma BigEndianLast(b: seq<byte>, c: byte)
    ensures BigEndian(b + [c]) == BigEndian(b) * 256 + c
  {
    assert (b + [c])[..|b|] == b;
  }

  lemma LastByte(p: int, c: int)
    ensures (p - 1) * 256 + c == p * 256 - 256 + c
  {
  }

  lemma MulDistribute(a: int, b: int, p: int)
    ensures (a - b) * p == a * p - p * b
  {
  }

  /** Masked addresses compare equal exactly when the addresses share the block. */
  lemma MaskedAddress(a: In6, zct: nat)
    requires zct < 128
    ensures BigEndian(AndBytes(a, MaskFromBitcount6(zct))) == NetStart(BigEndian(a), zct)
  {
    AndBytesIsAnd(a, MaskFromBitcount6(zct));
    MaskValue(zct, |a|);
    BigEndianBound(a);
    AndMask(BigEndian(a), zct, 8 * |a|);
  }

  lemma MaskedEqual(a: In6, b: In6, zct: nat)
    requires zct < 128
    ensures AndBytes(a, MaskFromBitcount6(zct)) == AndBytes(b, MaskFromBitcount6(zct)) <==>
            Net(BigEndian(a), zct) == Net(BigEndian(b), zct)
  {
    var m := MaskFromBitcount6(zct);
    MaskedAddress(a, zct);
    MaskedAddress(b, zct);
    BigEndianInjective(AndBytes(a, m), AndBytes(b, m));
    NetBounds(BigEndian(a), zct);
    if NetStart(BigEndian(a), zct) == NetStart(BigEndian(b), zct) {
      NetBounds(BigEndian(b), zct);
      SameBlock(Net(BigEndian(a), zct), Net(BigEndian(b), zct), Pow2(zct), NetStart(BigEndian(a), zct));
    }
  }

  /** Count the addresses from pos on that share the masked address. */
  method CountIPv6(iplist: array<In6>, ipct: nat, pos: nat, zct: nat) returns (p: nat, ipCt: nat)
    requires pos < ipct <= iplist.Length && zct < 128
    ensures p == End(Values(iplist[..ipct]), pos, zct) && ipCt == Count(Values(iplist[..ipct]), pos, zct)
  {
    ghost var s := Values(iplist[..ipct]);
    var mask := MaskFromBitcount6(zct);
    var ipStart := AndBytes(iplist[pos], mask);
    p, ipCt := pos + 1, 1;
    while p < ipct
      invariant pos < p <= ipct && ipCt == p - pos
      invariant RunEnd(s, pos, p, zct) == End(s, pos, zct)
    {
      var ip := AndBytes(iplist[p], mask);
      MaskedEqual(iplist[pos], iplist[p], zct);
      if ipStart != ip {
        break;
      }
      p, ipCt := p + 1, ipCt + 1;
    }
  }

  /** The inner search of the IPv6 loop around iplist[pos]. */
  method ChooseIPv6(iplist: array<In6>, ipct: nat, pos: nat, zctMin: nat, zctMax: nat, threshold: nat)
    returns (zctBest: nat, posEnd: nat)
    requires pos < ipct <= iplist.Length
    requires Ascending(Values(iplist[..ipct]))
    requires 1 <= zctMin && zctMax < 128 && RuleOk(V6(threshold))
    ensures Choice(Search(V6(threshold), zctMin, zctMax), Values(iplist[..ipct]), pos, zctBest, posEnd)
  {
    ghost var s := Values(iplist[..ipct]);
    ghost var f := Search(V6(threshold), zctMin, zctMax);
    var ipCtBest := 0;
    zctBest, posEnd := 0, pos + 1;
    var zct := zctMax;
    while zctMin <= zct
      invariant zct <= zctMax
      invariant ipCtBest == 0 <==> zctBest == 0
      invariant SoFar(f, s, pos, zct, zctBest, ipCtBest, posEnd)
    {
      var p, ipCt := CountIPv6(iplist, ipct, pos, zct);
      SearchStep(f, s, pos, zct, zctBest, ipCtBest, posEnd);
      if ipCt == 1 {
        SearchStopped(f, s, pos, zct, zctBest, ipCtBest, posEnd);
        break;
      }
      if threshold <= ipCt {
        if ipCtBest == 0 || ipCt == ipCtBest {
          ipCtBest, zctBest, posEnd := ipCt, zct, p;
        } else {
          SearchStopped(f, s, pos, zct, zctBest, ipCtBest, posEnd);
          break;
        }
      }
      zct := zct - 1;
    }
    if zct < zctMin {
      SearchExhausted(f, s, pos, zct, zctBest, ipCtBest, posEnd);
    }
    if zctBest == 0 {
      posEnd := pos + 1;
    }
  }

  /** The output as numbers. */
  function ItemsOf(out: seq<(In6, nat)>): (r: seq<Item>)
    ensures |r| == |out| && forall k :: 0 <= k < |out| ==> r[k] == Item(BigEndian(out[k].0), out[k].1)
  {
    seq(|out|, k requires 0 <= k < |out| => Item(BigEndian(out[k].0), out[k].1))
  }

  /** The IPv6 output loop on a sorted list without duplicates. */
  method EmitIPv6(iplist: array<In6>, ipct: nat, zctMin: nat, zctMax: nat, threshold: nat)
    returns (out: seq<(In6, nat)>, ghost cuts: seq<nat>)
    requires ipct <= iplist.Length && Ascending(Values(iplist[..ipct]))
    requires 1 <= zctMin && zctMax < 128 && RuleOk(V6(threshold))
    ensures Emitted(Search(V6(threshold), zctMin, zctMax), Values(iplist[..ipct]), ItemsOf(out), cuts)
    ensures cuts[|out|] == ipct
    ensures Ip2net.ExactCover(Values(iplist[..ipct]), ItemsOf(out))
  {
    ghost var s := Values(iplist[..ipct]);
    ghost var f := Search(V6(threshold), zctMin, zctMax);
    var pos := 0;
    out, cuts := [], [0];
    while pos < ipct
      invariant Emitted(f, s, ItemsOf(out), cuts)
      invariant cuts[|out|] == pos <= ipct
    {
      var zctBest, posEnd := ChooseIPv6(iplist, ipct, pos, zctMin, zctMax, threshold);
      var ipStart: In6 := iplist[pos];
      if zctBest != 0 {
        MaskedAddress(ipStart, zctBest);
        ipStart := AndBytes(ipStart, MaskFromBitcount6(zctBest));
      }
      ghost var it := Item(BigEndian(ipStart), zctBest);
      Ip2net.EmitOne(f, s, ItemsOf(out), cuts, it, posEnd);
      assert ItemsOf(out + [(ipStart, zctBest)]) == ItemsOf(out) + [it];
      out, cuts := out + [(ipStart, zctBest)], cuts + [posEnd];
      pos := posEnd;
    }
    Ip2net.EmittedIsExactCover(f, s, s, ItemsOf(out), cuts);
  }

  lemma Cmp6IsTotalPreorder()
    ensures Quicksort.TotalPreorder(Cmp6)
  {
    forall x: In6, y: In6
      ensures Cmp6(x, y) > 0 <==> Cmp6(y, x) < 0
    {
      Cmp6IsNumeric(x, y);
      Cmp6IsNumeric(y, x);
    }
    forall x: In6, y: In6, z: In6 | Quicksort.Le(Cmp6, x, y) && Quicksort.Le(Cmp6, y, z)
      ensures Quicksort.Le(Cmp6, x, z)
    {
      Cmp6IsNumeric(x, y);
      Cmp6IsNumeric(y, z);
      Cmp6IsNumeric(x, z);
    }
  }

  /** gnu_quicksort with cmp6, then unique6. */
  method SortUnique6(iplist: array<In6>) returns (ipct: nat)
    requires iplist.Length < U32
    modifies iplist
    ensures ipct <= iplist.Length && Ascending(Values(iplist[..ipct]))
    ensures forall x :: x in iplist[..ipct] <==> x in old(iplist[..])
  {
    ghost var s0 := iplist[..];
    Cmp6IsTotalPreorder();
    Quicksort.GnuQuicksort(iplist, Cmp6);
    ghost var s1 := iplist[..];
    assert forall x :: x in s1 <==> x in multiset(s1);
    assert forall x :: x in s0 <==> x in multiset(s0);
    ipct := Dedup.Unique(iplist, iplist.Length);
    assert s1[..|s1|] == s1;
    SortedDistinct(s1);
    forall x
      ensures x in iplist[..ipct] <==> x in s0
    {
      Dedup.DistinctElements(s1, x);
    }
  }

  lemma SortedDistinct(s: seq<In6>)
    requires Quicksort.Sorted(s, Cmp6)
    ensures Ascending(Values(Dedup.Distinct(s)))
  {
    ghost var key := (x: In6) => BigEndian(x);
    forall i, j | 0 <= i < j < |s|
      ensures key(s[i]) <= key(s[j])
    {
      assert Quicksort.Le(Cmp6, s[i], s[j]);
      Cmp6IsNumeric(s[i], s[j]);
    }
    forall i, j | 0 <= i < |s| && 0 <= j < |s| && key(s[i]) == key(s[j])
      ensures s[i] == s[j]
    {
      BigEndianInjective(s[i], s[j]);
    }
    Dedup.DistinctAscends(s, key);
    var d := Dedup.Distinct(s);
    forall i, j | 0 <= i < j < |d|
      ensures Values(d)[i] < Values(d)[j]
    {
      assert key(d[i]) < key(d[j]);
    }
  }

  /** An item is a block exactly when the widest allowed block around its address has enough addresses; it then covers the
      addresses of that one and is the narrowest allowed block that does. */
  ghost predicate Narrowest(f: Search, s: seq<nat>, out: seq<Item>, cuts: seq<nat>)
    requires f.rule.V6?
  {
    |cuts| == |out| + 1 && forall k :: 0 <= k < |out| ==> cuts[k] < |s| && NarrowestItem(f, s, out[k].zct, cuts[k], cuts[k + 1])
  }

  ghost predicate NarrowestItem(f: Search, s: seq<nat>, z: nat, lo: nat, hi: nat)
    requires f.rule.V6? && lo < |s|
  {
    && (z != 0 <==> 2 <= Count(s, lo, f.zmax) && f.rule.threshold <= Count(s, lo, f.zmax))
    && (z != 0 ==> f.zmin <= z <= f.zmax && hi == End(s, lo, f.zmax))
    && forall z' :: z != 0 && f.zmin <= z' < z ==> End(s, lo, z') < hi
  }

  lemma EmittedIsNarrowest(f: Search, s: seq<nat>, out: seq<Item>, cuts: seq<nat>)
    requires f.rule.V6? && RuleOk(f.rule) && 1 <= f.zmin <= f.zmax && Ascending(s) && Emitted(f, s, out, cuts)
    ensures Narrowest(f, s, out, cuts)
  {
    forall k | 0 <= k < |out|
      ensures cuts[k] < |s| && NarrowestItem(f, s, out[k].zct, cuts[k], cuts[k + 1])
    {
      assert ItemFor(f, s, out[k], cuts[k], cuts[k + 1]);
      ChoiceV6(f, s, cuts[k], out[k].zct, cuts[k + 1]);
    }
  }

  /** The IPv6 half of main: sort, drop duplicates, emit. */
  method GroupIPv6(iplist: array<In6>, zctMin: nat, zctMax: nat, threshold: nat)
    returns (out: seq<(In6, nat)>, ghost s: seq<In6>, ghost cuts: seq<nat>)
    requires iplist.Length < U32
    requires 1 <= zctMin && zctMax < 128 && RuleOk(V6(threshold))
    modifies iplist
    ensures Ip2net.ExactCover(Values(old(iplist[..])), ItemsOf(out))
    ensures Ascending(Values(s)) && forall x :: x in s <==> x in old(iplist[..])
    ensures Emitted(Search(V6(threshold), zctMin, zctMax), Values(s), ItemsOf(out), cuts) && cuts[|out|] == |s|
    ensures zctMin <= zctMax ==> Narrowest(Search(V6(threshold), zctMin, zctMax), Values(s), ItemsOf(out), cuts)
  {
    var ipct := SortUnique6(iplist);
    s := iplist[..ipct];
    out, cuts := EmitIPv6(iplist, ipct, zctMin, zctMax, threshold);
    if zctMin <= zctMax {
      EmittedIsNarrowest(Search(V6(threshold), zctMin, zctMax), Values(s), ItemsOf(out), cuts);
    }
    ghost var input := old(iplist[..]);
    forall x
      ensures x in Values(input) <==> x in Values(s)
    {
      SameValues(input, s, x);
      SameValues(s, input, x);
    }
    Ip2net.EmittedIsExactCover(Search(V6(threshold), zctMin, zctMax), Values(s), Values(input), ItemsOf(out), cuts);
  }

  lemma SameValues(s: seq<In6>, t: seq<In6>, x: nat)
    requires forall a :: a in s ==> a in t
    ensures x in Values(s) ==> x in Values(t)
  {
    if x in Values(s) {
      var i :| 0 <= i < |Values(s)| && Values(s)[i] == x;
      assert s[i] in t;
      var j :| 0 <= j < |t| && t[j] == s[i];
      assert Values(t)[j] == x;
    }
  }
}
