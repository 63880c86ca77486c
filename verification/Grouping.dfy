/** What it means to group an ascending address list into aligned blocks, for the IPv4 and
    the IPv6 loops of ip2net/ip2net.c alike.
 */
module Grouping {
  import opened Bits

  const U32 := 0x1_0000_0000

  /** When a block around the current address is worth emitting. */
  datatype Rule =
    | V4(mult: nat, div: nat)    // fill of at least mult/div
    | V6(threshold: nat)         // at least so many addresses

  /** A search: the rule and the allowed numbers of zero bits. */
  datatype Search = Search(rule: Rule, zmin: nat, zmax: nat)

  ghost predicate Ascending(s: seq<nat>) {
    forall i, j :: 0 <= i < j < |s| ==> s[i] < s[j]
  }

  function NetStart(x: nat, z: nat): nat {
    Net(x, z) * Pow2(z)
  }

  // ---------- counting the addresses of a block ----------

  /** First index from p on whose address is outside the 2^z block of s[pos]. */
  function RunEnd(s: seq<nat>, pos: nat, p: nat, z: nat): (e: nat)
    requires pos < p <= |s|
    ensures p <= e <= |s|
    ensures forall k :: p <= k < e ==> Net(s[k], z) == Net(s[pos], z)
    ensures e < |s| ==> Net(s[e], z) != Net(s[pos], z)
    decreases |s| - p
  {
    if p < |s| && Net(s[p], z) == Net(s[pos], z) then RunEnd(s, pos, p + 1, z) else p
  }

  function End(s: seq<nat>, pos: nat, z: nat): (e: nat)
    requires pos < |s|
    ensures pos < e <= |s|
  {
    RunEnd(s, pos, pos + 1, z)
  }

  function Count(s: seq<nat>, pos: nat, z: nat): (c: nat)
    requires pos < |s|
    ensures 1 <= c
  {
    End(s, pos, z) - pos
  }

  lemma RunExact(s: seq<nat>, pos: nat, z: nat, i: nat)
    requires Ascending(s) && pos < |s| && pos <= i < |s|
    ensures Net(s[i], z) == Net(s[pos], z) <==> i < End(s, pos, z)
  {
    var e := End(s, pos, z);
    if e <= i {
      NetMonotone(s[pos], s[e], z);
      assert s[e] <= s[i];
      NetMonotone(s[e], s[i], z);
    }
  }

  lemma EndMonotone(s: seq<nat>, pos: nat, z: nat, z': nat)
    requires Ascending(s) && pos < |s| && z <= z'
    ensures End(s, pos, z) <= End(s, pos, z')
  {
    var e := End(s, pos, z);
    RunExact(s, pos, z, e - 1);
    NetNested(s[e - 1], s[pos], z, z');
    RunExact(s, pos, z', e - 1);
  }

  // ---------- the acceptance test ----------

  /** subnet_ct * pctmult / pctdiv in 32-bit arithmetic. */
  function Threshold(z: nat, mult: nat, div: nat): nat
    requires 0 < div
  {
    ((Pow2(z) * mult) % U32) / div
  }

  /** ip_start + subnet_ct * (pctdiv - pctmult) / pctdiv in 32-bit arithmetic. */
  function SkipLimit(start: nat, z: nat, mult: nat, div: nat): nat
    requires mult < div
  {
    (start + ((Pow2(z) * (div - mult)) % U32) / div) % U32
  }

  predicate RuleOk(rule: Rule) {
    match rule
    case V4(mult, div) => 1 <= mult < div < U32
    case V6(threshold) => 1 <= threshold
  }

  predicate Accepts(rule: Rule, s: seq<nat>, pos: nat, z: nat)
    requires RuleOk(rule) && pos < |s|
  {
    match rule
    case V4(mult, div) =>
      s[pos] <= SkipLimit(NetStart(s[pos], z), z, mult, div) && Threshold(z, mult, div) <= Count(s, pos, z)
    case V6(threshold) => threshold <= Count(s, pos, z)
  }

  /** A block that the search may emit for position pos. */
  predicate Eligible(f: Search, s: seq<nat>, pos: nat, z: nat)
    requires RuleOk(f.rule) && pos < |s|
  {
    f.zmin <= z <= f.zmax && 2 <= Count(s, pos, z) && Accepts(f.rule, s, pos, z)
  }

  /** The outcome of one search: the smallest eligible block of maximal coverage, or no block (z = 0). */
  ghost predicate Choice(f: Search, s: seq<nat>, pos: nat, z: nat, end: nat)
    requires RuleOk(f.rule) && pos < |s|
  {
    if z == 0 then
      end == pos + 1 && forall z' :: f.zmin <= z' <= f.zmax ==> !Eligible(f, s, pos, z')
    else
      && Eligible(f, s, pos, z) && end == End(s, pos, z)
      && forall z' :: f.zmin <= z' <= f.zmax && Eligible(f, s, pos, z') ==>
           Count(s, pos, z') <= Count(s, pos, z) && (z' < z ==> Count(s, pos, z') < Count(s, pos, z))
  }

  /** State of the search after the block sizes above z. */
  ghost predicate SoFar(f: Search, s: seq<nat>, pos: nat, z: int, best: nat, ct: nat, end: nat)
    requires RuleOk(f.rule) && pos < |s|
  {
    if best == 0 then
      forall z' :: z < z' && f.zmin <= z' <= f.zmax ==> !Eligible(f, s, pos, z')
    else
      && z < best && Eligible(f, s, pos, best) && ct == Count(s, pos, best) && end == End(s, pos, best)
      && forall z' :: z < z' && f.zmin <= z' <= f.zmax && Eligible(f, s, pos, z') ==>
           Count(s, pos, z') == ct && best <= z'
  }

  lemma SearchExhausted(f: Search, s: seq<nat>, pos: nat, z: int, best: nat, ct: nat, end: nat)
    requires RuleOk(f.rule) && pos < |s| && 1 <= f.zmin
    requires SoFar(f, s, pos, z, best, ct, end) && z < f.zmin
    ensures Choice(f, s, pos, best, if best == 0 then pos + 1 else end)
  {
  }

  /** Both early exits are right: a block of one address has only blocks of one address inside, and
      a smaller count than the best cannot grow back. */
  lemma SearchStopped(f: Search, s: seq<nat>, pos: nat, z: nat, best: nat, ct: nat, end: nat)
    requires RuleOk(f.rule) && Ascending(s) && pos < |s| && 1 <= f.zmin
    requires SoFar(f, s, pos, z, best, ct, end)
    requires Count(s, pos, z) == 1 || (best != 0 && Count(s, pos, z) != ct)
    ensures Choice(f, s, pos, best, if best == 0 then pos + 1 else end)
  {
    forall z' | f.zmin <= z' <= z
      ensures Count(s, pos, z') <= Count(s, pos, z)
    {
      EndMonotone(s, pos, z', z);
    }
    if best != 0 {
      EndMonotone(s, pos, z, best);
    }
  }

  lemma SearchStep(f: Search, s: seq<nat>, pos: nat, z: nat, best: nat, ct: nat, end: nat)
    requires RuleOk(f.rule) && pos < |s| && f.zmin <= z
    requires SoFar(f, s, pos, z, best, ct, end)
    ensures !Eligible(f, s, pos, z) ==> SoFar(f, s, pos, z - 1, best, ct, end)
    ensures z != 0 && Eligible(f, s, pos, z) && (best == 0 || Count(s, pos, z) == ct) ==>
              SoFar(f, s, pos, z - 1, z, Count(s, pos, z), End(s, pos, z))
  {
  }

  // ---------- two choices never overlap ----------

  lemma EligibleEarlier(f: Search, s: seq<nat>, pos: nat, pos': nat, z: nat)
    requires RuleOk(f.rule) && Ascending(s) && pos < pos' < |s|
    requires Net(s[pos], z) == Net(s[pos'], z)
    requires Eligible(f, s, pos', z)
    ensures Eligible(f, s, pos, z)
    ensures End(s, pos, z) == End(s, pos', z)
  {
    var e, e' := End(s, pos, z), End(s, pos', z);
    RunExact(s, pos, z, pos');
    RunExact(s, pos, z, e - 1);
    RunExact(s, pos', z, e - 1);
    RunExact(s, pos', z, e' - 1);
    RunExact(s, pos, z, e' - 1);
  }

  /** An address picked up by a later choice is never inside an earlier emitted block, and a later
      block never reaches back over an earlier position. */
  lemma ChoicesDisjoint(f: Search, s: seq<nat>, pos: nat, z: nat, end: nat, pos': nat, z': nat, end': nat)
    requires RuleOk(f.rule) && Ascending(s) && pos < end <= pos' < |s|
    requires Choice(f, s, pos, z, end) && Choice(f, s, pos', z', end')
    ensures Net(s[pos], z) != Net(s[pos'], z)
    ensures Net(s[pos], z') != Net(s[pos'], z')
  {
    if z != 0 {
      RunExact(s, pos, z, pos');
    }
    if z' != 0 && Net(s[pos], z') == Net(s[pos'], z') {
      RunExact(s, pos, z', pos');
      EligibleEarlier(f, s, pos, pos', z');
    }
  }

  // ---------- the whole output ----------

  /** A printed line: start/(width - zct), or a bare address when zct = 0. */
  datatype Item = Item(start: nat, zct: nat)

  predicate Covers(it: Item, x: nat) {
    it.start <= x < it.start + Pow2(it.zct)
  }

  /** The item printed for the search at position lo, after which the next search begins at hi. */
  ghost predicate ItemFor(f: Search, s: seq<nat>, it: Item, lo: nat, hi: nat)
    requires RuleOk(f.rule)
  {
    lo < hi <= |s| && Choice(f, s, lo, it.zct, hi) && it.start == NetStart(s[lo], it.zct)
  }

  /** Item k was chosen at position cuts[k], and the next search began at cuts[k + 1]. */
  ghost predicate Emitted(f: Search, s: seq<nat>, out: seq<Item>, cuts: seq<nat>)
    requires RuleOk(f.rule)
  {
    && |cuts| == |out| + 1 && cuts[0] == 0
    && forall k :: 0 <= k < |out| ==> ItemFor(f, s, out[k], cuts[k], cuts[k + 1])
  }

  lemma {:induction false} CutsAscend(f: Search, s: seq<nat>, out: seq<Item>, cuts: seq<nat>, j: nat, k: nat)
    requires RuleOk(f.rule) && Emitted(f, s, out, cuts)
    requires j < k <= |out|
    ensures cuts[j + 1] <= cuts[k] <= |s|
  {
    assert ItemFor(f, s, out[k - 1], cuts[k - 1], cuts[k]);
    if j + 1 < k {
      CutsAscend(f, s, out, cuts, j, k - 1);
    }
  }

  lemma CoversIsNet(it: Item, x: nat, y: nat)
    requires it.start == NetStart(x, it.zct)
    ensures Covers(it, y) <==> Net(y, it.zct) == Net(x, it.zct)
  {
    NetBounds(y, it.zct);
    if Covers(it, y) {
      NetUnique(y, it.zct, Net(x, it.zct));
    }
  }

  /** An item covers the list elements from its position up to the next one, and no others. */
  lemma ItemCoversExactly(f: Search, s: seq<nat>, out: seq<Item>, cuts: seq<nat>, k: nat, i: nat)
    requires RuleOk(f.rule) && Ascending(s) && Emitted(f, s, out, cuts)
    requires k < |out| && i < |s|
    requires cuts[|out|] == |s|
    ensures Covers(out[k], s[i]) <==> cuts[k] <= i < cuts[k + 1]
  {
    var pos := cuts[k];
    assert ItemFor(f, s, out[k], pos, cuts[k + 1]);
    CoversIsNet(out[k], s[pos], s[i]);
    if pos <= i {
      if out[k].zct != 0 {
        RunExact(s, pos, out[k].zct, i);
      }
    } else {
      var j := FindItem(f, s, out, cuts, k, i);
      CutsAscend(f, s, out, cuts, j, k);
      if Covers(out[k], s[i]) {
        var z := out[k].zct;
        ChoicesDisjoint(f, s, cuts[j], out[j].zct, cuts[j + 1], pos, z, cuts[k + 1]);
        NetMonotone(s[cuts[j]], s[i], z);
        BackwardBlock(f, s, cuts[j], out[j].zct, cuts[j + 1], i, pos, z, cuts[k + 1]);
      }
    }
  }

  /** A later block that reached an element of an earlier run would reach that run's first element. */
  lemma BackwardBlock(f: Search, s: seq<nat>, pos: nat, z: nat, end: nat, i: nat, pos': nat, z': nat, end': nat)
    requires RuleOk(f.rule) && Ascending(s) && pos <= i < end <= pos' < |s|
    requires Choice(f, s, pos, z, end) && Choice(f, s, pos', z', end')
    ensures Net(s[i], z') != Net(s[pos'], z')
  {
    ChoicesDisjoint(f, s, pos, z, end, pos', z', end');
    if z != 0 && Net(s[i], z') == Net(s[pos'], z') {
      RunExact(s, pos, z, i);
      if z <= z' {
        NetNested(s[i], s[pos], z, z');
      } else {
        NetNested(s[i], s[pos'], z', z);
      }
    }
  }

  lemma {:induction false} FindItem(f: Search, s: seq<nat>, out: seq<Item>, cuts: seq<nat>, k: nat, i: nat)
    returns (j: nat)
    requires RuleOk(f.rule) && Emitted(f, s, out, cuts)
    requires k <= |out| && i < cuts[k]
    ensures j < k && cuts[j] <= i < cuts[j + 1]
  {
    if cuts[k - 1] <= i {
      j := k - 1;
    } else {
      j := FindItem(f, s, out, cuts, k - 1, i);
    }
  }

  /** The printed items are ascending and disjoint. */
  lemma ItemsAscend(f: Search, s: seq<nat>, out: seq<Item>, cuts: seq<nat>, j: nat, k: nat)
    requires RuleOk(f.rule) && Ascending(s) && Emitted(f, s, out, cuts)
    requires j < k < |out|
    ensures out[j].start + Pow2(out[j].zct) <= out[k].start
  {
    CutsAscend(f, s, out, cuts, j, k);
    var pos, pos', z, z' := cuts[j], cuts[k], out[j].zct, out[k].zct;
    ChoicesDisjoint(f, s, pos, z, cuts[j + 1], pos', z', cuts[k + 1]);
    BlocksApart(s[pos], z, s[pos'], z');
  }

  /** Two aligned blocks neither of which contains the other's address lie one after the other. */
  lemma BlocksApart(x: nat, z: nat, y: nat, z': nat)
    requires x < y
    requires Net(x, z) != Net(y, z) && Net(x, z') != Net(y, z')
    ensures NetStart(x, z) + Pow2(z) <= NetStart(y, z')
  {
    if z <= z' {
      NetMonotone(x, y, z');
      NetLast(x, z, z');
      NextBlock(Net(x, z'), Net(y, z'), Pow2(z'));
    } else {
      NetMonotone(x, y, z);
      NetFirst(y, z', z);
      NextBlock(Net(x, z), Net(y, z), Pow2(z));
    }
  }

  lemma NextBlock(m: nat, n: nat, f: nat)
    requires m < n
    ensures m * f + f <= n * f
  {
    MulMonotone(m + 1, n, f);
  }

  lemma {:induction false} NetLast(x: nat, z: nat, z': nat)
    requires z <= z'
    ensures NetStart(x, z) + Pow2(z) <= NetStart(x, z') + Pow2(z')
  {
    if z < z' {
      NetLast(x, z, z' - 1);
      MulDouble(Net(x, z'), Pow2(z' - 1));
    }
  }

  lemma {:induction false} NetFirst(x: nat, z: nat, z': nat)
    requires z <= z'
    ensures NetStart(x, z') <= NetStart(x, z)
  {
    if z < z' {
      NetFirst(x, z, z' - 1);
      MulDouble(Net(x, z'), Pow2(z' - 1));
    }
  }

  // ---------- what the IPv4 and IPv6 rules amount to ----------

  lemma StartPlusSize(x: nat, z: nat)
    requires x < U32 && z <= 32
    ensures NetStart(x, z) + Pow2(z) <= U32
  {
    Pow2At32();
    NetUnique(x, 32, 0);
    NetLast(x, z, 32);
  }

  /** The 32-bit threshold is the documented floor(size * mult / div) exactly when the product
      fits 32 bits. */
  lemma ThresholdExact(z: nat, mult: nat, div: nat)
    requires 0 < mult < div < U32
    ensures Threshold(z, mult, div) == (Pow2(z) * mult) / div <==> Pow2(z) * mult < U32
  {
    var x := Pow2(z) * mult;
    if U32 <= x {
      assert x % U32 + U32 <= x;
      DivGap(x % U32, x, div);
    }
  }

  lemma DivGap(x: nat, y: nat, d: nat)
    requires 0 < d && x + d <= y
    ensures x / d < y / d
  {
    DivRange(x, d);
    DivRange(y, d);
    if y / d <= x / d {
      MulMonotone(y / d, x / d, d);
    }
  }

  lemma DivRange(x: nat, d: nat)
    requires 0 < d
    ensures (x / d) * d <= x < (x / d) * d + d
  {
    assert x == d * (x / d) + x % d;
  }

  lemma DivAtLeast(q: nat, x: nat, d: nat)
    requires 0 < d && q * d <= x
    ensures q <= x / d
  {
    DivRange(x, d);
    if x / d < q {
      MulMonotone(x / d + 1, q, d);
    }
  }

  lemma DivBelow(x: nat, q: nat, d: nat)
    requires 0 < d && x < q * d
    ensures x / d < q
  {
    DivRange(x, d);
    if q <= x / d {
      MulMonotone(q, x / d, d);
    }
  }

  /** The default 3/4 with a prefix of length 1: the threshold is a third of what is documented. */
  lemma ThresholdWraps()
    ensures Threshold(31, 3, 4) == 0x2000_0000
    ensures (Pow2(31) * 3) / 4 == 0x6000_0000
  {
    Pow2At32();
    assert Pow2(31) == 0x8000_0000;
  }

  /** At least two addresses and a fill of at least mult/div, as real fractions. */
  predicate Fills(s: seq<nat>, pos: nat, z: nat, mult: nat, div: nat)
    requires pos < |s|
  {
    2 <= Count(s, pos, z) && Pow2(z) * mult <= Count(s, pos, z) * div
  }

  predicate NoOverflow(f: Search) {
    f.rule.V4? && f.zmax <= 32 && Pow2(f.zmax) * f.rule.mult < U32 && Pow2(f.zmax) * (f.rule.div - f.rule.mult) < U32
  }

  lemma {:induction false} AscendingSpread(s: seq<nat>, i: nat, j: nat)
    requires Ascending(s) && i <= j < |s|
    ensures s[i] + (j - i) <= s[j]
  {
    if i < j {
      AscendingSpread(s, i, j - 1);
    }
  }

  /** The shortcut that skips a block when the address lies too high in it never skips a block
      that fills up to mult/div. */
  lemma FillsIsEligible(f: Search, s: seq<nat>, pos: nat, z: nat)
    requires RuleOk(f.rule) && NoOverflow(f) && Ascending(s) && pos < |s| && s[pos] < U32
    requires f.zmin <= z <= f.zmax
    requires Fills(s, pos, z, f.rule.mult, f.rule.div)
    ensures Eligible(f, s, pos, z)
  {
    var m, d, p, c := f.rule.mult, f.rule.div, Pow2(z), Count(s, pos, z);
    Pow2Monotone(z, f.zmax);
    MulMonotone(p, Pow2(f.zmax), m);
    MulMonotone(p, Pow2(f.zmax), d - m);
    var last := End(s, pos, z) - 1;
    RunExact(s, pos, z, last);
    AscendingSpread(s, pos, last);
    NetBounds(s[pos], z);
    NetBounds(s[last], z);
    StartPlusSize(s[pos], z);
    FillArithmetic(s[pos], NetStart(s[pos], z), p, c, m, d);
  }

  lemma FillArithmetic(x: nat, start: nat, p: nat, c: nat, m: nat, d: nat)
    requires 0 < p && 0 < m < d && start <= x && x - start + c <= p
    requires start + p <= U32 && p * m < U32 && p * (d - m) < U32
    requires p * m <= c * d
    ensures x <= (start + ((p * (d - m)) % U32) / d) % U32
    ensures ((p * m) % U32) / d <= c
  {
    var a, b := p * (d - m), p * m;
    SmallRemainder(a, U32);
    SmallRemainder(b, U32);
    QuotientAtMost(b, c, d);
    MulSubtract(p, c, m, d);
    DivAtLeast(p - c, a, d);
    LessThanWhole(p, m, d);
    SmallRemainder(start + a / d, U32);
  }

  lemma SmallRemainder(v: nat, m: nat)
    requires v < m
    ensures v % m == v
  {
  }

  lemma QuotientAtMost(x: nat, c: nat, d: nat)
    requires 0 < d && x <= c * d
    ensures x / d <= c
  {
    assert (c + 1) * d == c * d + d;
    DivBelow(x, c + 1, d);
  }

  lemma LessThanWhole(p: nat, m: nat, d: nat)
    requires 0 < p && 0 < m < d
    ensures (p * (d - m)) / d < p
  {
    MulMonotone(1, m, p);
    assert p * (d - m) == p * d - m * p;
    DivBelow(p * (d - m), p, d);
  }

  lemma MulSubtract(p: nat, c: nat, m: nat, d: nat)
    requires m <= d && p * m <= c * d && c <= p
    ensures (p - c) * d <= p * (d - m)
  {
    assert (p - c) * d == p * d - c * d;
    assert p * (d - m) == p * d - p * m;
  }

  /** IPv4: the emitted block holds at least floor(size * mult / div) list addresses, and among the allowed
      blocks around the address that fill up to mult/div it has maximal coverage, the smallest of those. */
  lemma ChoiceV4(f: Search, s: seq<nat>, pos: nat, z: nat, end: nat)
    requires RuleOk(f.rule) && NoOverflow(f) && Ascending(s) && pos < |s| && s[pos] < U32
    requires Choice(f, s, pos, z, end)
    ensures z != 0 ==> (Pow2(z) * f.rule.mult) / f.rule.div <= end - pos && 2 <= end - pos
    ensures forall z' :: f.zmin <= z' <= f.zmax && Fills(s, pos, z', f.rule.mult, f.rule.div) ==>
              z != 0 && Count(s, pos, z') <= end - pos && (Count(s, pos, z') == end - pos ==> z <= z')
  {
    var m, d := f.rule.mult, f.rule.div;
    if z != 0 {
      Pow2Monotone(z, f.zmax);
      MulMonotone(Pow2(z), Pow2(f.zmax), m);
      ThresholdExact(z, m, d);
    }
    forall z' | f.zmin <= z' <= f.zmax && Fills(s, pos, z', m, d)
      ensures Eligible(f, s, pos, z')
    {
      FillsIsEligible(f, s, pos, z');
    }
  }

  /** IPv6: a block is emitted exactly when the widest allowed one has enough addresses; it then covers
      the same addresses as the widest one and is the narrowest allowed block that does. */
  lemma ChoiceV6(f: Search, s: seq<nat>, pos: nat, z: nat, end: nat)
    requires RuleOk(f.rule) && f.rule.V6? && Ascending(s) && pos < |s| && 1 <= f.zmin <= f.zmax
    requires Choice(f, s, pos, z, end)
    ensures z != 0 <==> 2 <= Count(s, pos, f.zmax) && f.rule.threshold <= Count(s, pos, f.zmax)
    ensures z != 0 ==> f.zmin <= z <= f.zmax && end == End(s, pos, f.zmax)
    ensures forall z' :: z != 0 && f.zmin <= z' < z ==> End(s, pos, z') < end
  {
    forall z' | f.zmin <= z' <= f.zmax
      ensures Count(s, pos, z') <= Count(s, pos, f.zmax)
    {
      EndMonotone(s, pos, z', f.zmax);
    }
    assert Eligible(f, s, pos, f.zmax) <==> 2 <= Count(s, pos, f.zmax) && f.rule.threshold <= Count(s, pos, f.zmax);
    forall z' | z != 0 && f.zmin <= z' < z
      ensures End(s, pos, z') < end
    {
      EndMonotone(s, pos, z', z);
      assert Count(s, pos, z') == Count(s, pos, z) ==> Eligible(f, s, pos, z');
    }
  }
}
