/** Address prefixes and the comparator of nfq/pools.c: two prefixes are "equal" when one contains the
    other, so the comparator is an order on disjoint prefixes only.
 */
module Prefixes {
  import opened Bits
  import opened Bytes

  /** bitlen and data of struct kavl_bit_elem; data has at least the bytes the prefix needs. */
  datatype Prefix = Prefix(bitlen: nat, data: seq<byte>)

  type Cidr = p: Prefix | (p.bitlen + 7) / 8 <= |p.data| witness Prefix(0, [])

  function BytesFor(bitlen: nat): nat {
    (bitlen + 7) / 8
  }

  // ---------- the code ----------

  function Sign(a: int, b: int): int {
    if a < b then -1 else if a == b then 0 else 1
  }

  /** The sign memcmp gives for the first n bytes. */
  function Memcmp(a: seq<byte>, b: seq<byte>, n: nat): int
    requires n <= |a| && n <= |b|
  {
    if n == 0 then 0
    else
      var c := Memcmp(a, b, n - 1);
      if c != 0 then c else Sign(a[n - 1], b[n - 1])
  }

  /** kavl_bit_cmp */
  function KavlBitCmp(p: Cidr, q: Cidr): int {
    var bitlen := if q.bitlen < p.bitlen then q.bitlen else p.bitlen;
    var df, bytes := bitlen % 8, bitlen / 8;
    var cmp := Memcmp(p.data, q.data, bytes);
    if cmp != 0 || df == 0 then cmp
    else
      Sign(Net(p.data[bytes], 8 - df), Net(q.data[bytes], 8 - df))
  }

  // ---------- the first n bits as a number ----------

  /** Bit i of a byte string, most significant first. */
  function Bit(d: seq<byte>, i: nat): (b: nat)
    requires i < 8 * |d|
    ensures b <= 1
  {
    Net(d[i / 8], 7 - i % 8) % 2
  }

  function Top(d: seq<byte>, n: nat): nat
    requires n <= 8 * |d|
  {
    if n == 0 then 0 else 2 * Top(d, n - 1) + Bit(d, n - 1)
  }

  /** A shorter prefix is the longer one shifted. */
  lemma {:induction false} TopShorter(d: seq<byte>, n: nat, m: nat)
    requires n <= m <= 8 * |d|
    ensures Top(d, n) == Net(Top(d, m), m - n)
  {
    if n < m {
      TopShorter(d, n, m - 1);
      NetHalve(Top(d, m), m - 1 - n);
    }
  }

  /** The bits of a partial byte. */
  lemma {:induction false} TopPartial(d: seq<byte>, b: nat, df: nat)
    requires b < |d| && df <= 8
    ensures Top(d, 8 * b + df) == Top(d, 8 * b) * Pow2(df) + Net(d[b], 8 - df)
  {
    if df == 0 {
      NetBounds(d[b], 8);
      assert Pow2(8) == 256;
    } else {
      TopPartial(d, b, df - 1);
      var i := 8 * b + df - 1;
      assert i / 8 == b && i % 8 == df - 1;
      var x := Net(d[b], 8 - df);
      assert Net(d[b], 8 - (df - 1)) == x / 2;
      MulDouble(Top(d, 8 * b), Pow2(df - 1));
    }
  }

  lemma TopByte(d: seq<byte>, b: nat)
    requires b < |d|
    ensures Top(d, 8 * b + 8) == Top(d, 8 * b) * 256 + d[b]
  {
    TopPartial(d, b, 8);
    assert Pow2(8) == 256;
  }

  // ---------- the comparator is numeric ----------

  lemma SignScaled(a: nat, b: nat, f: nat, x: nat, y: nat)
    requires x < f && y < f
    ensures Sign(a * f + x, b * f + y) == if a != b then Sign(a, b) else Sign(x, y)
  {
    if a < b {
      MulMonotone(a + 1, b, f);
    } else if b < a {
      MulMonotone(b + 1, a, f);
    }
  }

  lemma {:induction false} MemcmpIsNumeric(a: seq<byte>, b: seq<byte>, n: nat)
    requires n <= |a| && n <= |b|
    ensures Memcmp(a, b, n) == Sign(Top(a, 8 * n), Top(b, 8 * n))
  {
    if n != 0 {
      MemcmpIsNumeric(a, b, n - 1);
      assert 8 * n == 8 * (n - 1) + 8;
      TopByte(a, n - 1);
      TopByte(b, n - 1);
      SignScaled(Top(a, 8 * (n - 1)), Top(b, 8 * (n - 1)), 256, a[n - 1], b[n - 1]);
    }
  }

  function Common(p: Cidr, q: Cidr): nat {
    if q.bitlen < p.bitlen then q.bitlen else p.bitlen
  }

  /** kavl_bit_cmp compares the first min(bitlen) bits as numbers. */
  lemma CmpIsNumeric(p: Cidr, q: Cidr)
    ensures KavlBitCmp(p, q) == Sign(Top(p.data, Common(p, q)), Top(q.data, Common(p, q)))
  {
    var m := Common(p, q);
    var df, b := m % 8, m / 8;
    assert m == 8 * b + df;
    MemcmpIsNumeric(p.data, q.data, b);
    if df != 0 {
      PartialCompare(p.data, q.data, b, df);
    }
  }

  lemma PartialCompare(a: seq<byte>, c: seq<byte>, b: nat, df: nat)
    requires b < |a| && b < |c| && df <= 8
    ensures Sign(Top(a, 8 * b + df), Top(c, 8 * b + df)) ==
            if Top(a, 8 * b) != Top(c, 8 * b) then Sign(Top(a, 8 * b), Top(c, 8 * b))
            else Sign(Net(a[b], 8 - df), Net(c[b], 8 - df))
  {
    TopPartial(a, b, df);
    TopPartial(c, b, df);
    PartialBound(a[b], df);
    PartialBound(c[b], df);
    SignScaled(Top(a, 8 * b), Top(c, 8 * b), Pow2(df), Net(a[b], 8 - df), Net(c[b], 8 - df));
  }

  lemma PartialBound(c: byte, df: nat)
    requires df <= 8
    ensures Net(c, 8 - df) < Pow2(df)
  {
    NetBounds(c, 8 - df);
    Pow2Add(df, 8 - df);
    assert Pow2(8) == 256;
    if Pow2(df) <= Net(c, 8 - df) {
      MulMonotone(Pow2(df), Net(c, 8 - df), Pow2(8 - df));
    }
  }

  // ---------- what "equal" and "below" mean ----------

  /** All addresses of `p` are addresses of `q`. */
  predicate Within(p: Cidr, q: Cidr) {
    q.bitlen <= p.bitlen && Top(p.data, q.bitlen) == Top(q.data, q.bitlen)
  }

  /** Comparing equal is: one contains the other. */
  lemma EqualIsNested(p: Cidr, q: Cidr)
    ensures KavlBitCmp(p, q) == 0 <==> Within(p, q) || Within(q, p)
    ensures KavlBitCmp(p, q) == -KavlBitCmp(q, p)
  {
    CmpIsNumeric(p, q);
    CmpIsNumeric(q, p);
  }

  /** Agreeing on n bits is agreeing on fewer. */
  lemma Agree(a: seq<byte>, b: seq<byte>, n: nat, m: nat)
    requires n <= m <= 8 * |a| && m <= 8 * |b| && Top(a, m) == Top(b, m)
    ensures Top(a, n) == Top(b, n)
  {
    TopShorter(a, n, m);
    TopShorter(b, n, m);
  }

  lemma WithinTransitive(p: Cidr, q: Cidr, r: Cidr)
    requires Within(p, q) && Within(q, r)
    ensures Within(p, r)
  {
    Agree(p.data, q.data, r.bitlen, q.bitlen);
  }

  /** What overlaps a prefix overlaps everything around that prefix. */
  lemma OverlapWidens(x: Cidr, p: Cidr, q: Cidr)
    requires KavlBitCmp(x, p) == 0 && Within(p, q)
    ensures KavlBitCmp(x, q) == 0
  {
    EqualIsNested(x, p);
    EqualIsNested(x, q);
    if Within(x, p) {
      WithinTransitive(x, p, q);
    } else if x.bitlen <= q.bitlen {
      Agree(p.data, q.data, x.bitlen, q.bitlen);
    } else {
      Agree(p.data, x.data, q.bitlen, x.bitlen);
    }
  }

  /** The first address of `p`, and the first after it, among addresses of w bits. */
  function First(p: Cidr, w: nat): nat
    requires p.bitlen <= w
  {
    Top(p.data, p.bitlen) * Pow2(w - p.bitlen)
  }

  function After(p: Cidr, w: nat): nat
    requires p.bitlen <= w
  {
    (Top(p.data, p.bitlen) + 1) * Pow2(w - p.bitlen)
  }

  lemma FirstBeforeAfter(p: Cidr, w: nat)
    requires p.bitlen <= w
    ensures First(p, w) < After(p, w)
  {
    MulMonotone(Top(p.data, p.bitlen), Top(p.data, p.bitlen) + 1, Pow2(w - p.bitlen));
  }

  /** Comparing below is: entirely to the left. */
  lemma BelowIsLeft(p: Cidr, q: Cidr, w: nat)
    requires p.bitlen <= w && q.bitlen <= w
    ensures KavlBitCmp(p, q) < 0 <==> After(p, w) <= First(q, w)
  {
    CmpIsNumeric(p, q);
    TopBelowIsLeft(p, q, w);
  }

  lemma TopBelowIsLeft(p: Cidr, q: Cidr, w: nat)
    requires p.bitlen <= w && q.bitlen <= w
    ensures Top(p.data, Common(p, q)) < Top(q.data, Common(p, q)) <==> After(p, w) <= First(q, w)
  {
    if p.bitlen <= q.bitlen {
      TopShorter(q.data, p.bitlen, q.bitlen);
      ShorterLeft(Top(p.data, p.bitlen), Top(q.data, q.bitlen), q.bitlen - p.bitlen, w - q.bitlen, w - p.bitlen);
    } else {
      TopShorter(p.data, q.bitlen, p.bitlen);
      LongerLeft(Top(p.data, p.bitlen), Top(q.data, q.bitlen), p.bitlen - q.bitlen, w - p.bitlen, w - q.bitlen);
    }
  }

  lemma ShorterLeft(a: nat, b: nat, d: nat, e: nat, s: nat)
    requires s == d + e
    ensures a < Net(b, d) <==> (a + 1) * Pow2(s) <= b * Pow2(e)
  {
    NetBounds(b, d);
    Pow2Add(d, e);
    LeftOfBlock(a, b, Net(b, d), Pow2(d), Pow2(e));
  }

  lemma LongerLeft(a: nat, b: nat, d: nat, e: nat, s: nat)
    requires s == d + e
    ensures Net(a, d) < b <==> (a + 1) * Pow2(e) <= b * Pow2(s)
  {
    NetBounds(a, d);
    Pow2Add(d, e);
    BlockLeftOf(a, b, Net(a, d), Pow2(d), Pow2(e));
  }

  lemma LeftOfBlock(a: nat, b: nat, n: nat, f: nat, g: nat)
    requires 0 < f && 0 < g && n * f <= b < n * f + f
    ensures a < n <==> (a + 1) * (f * g) <= b * g
  {
    if a < n {
      MulMonotone(a + 1, n, f);
      MulMonotone((a + 1) * f, b, g);
    } else {
      MulMonotone(n + 1, a + 1, f);
      MulMonotone(b + 1, (a + 1) * f, g);
    }
    MulAssociate(a + 1, f, g);
  }

  lemma BlockLeftOf(a: nat, b: nat, n: nat, f: nat, g: nat)
    requires 0 < f && 0 < g && n * f <= a < n * f + f
    ensures n < b <==> (a + 1) * g <= b * (f * g)
  {
    if n < b {
      MulMonotone(n + 1, b, f);
      MulMonotone(a + 1, b * f, g);
    } else {
      MulMonotone(b, n, f);
      MulMonotone(b * f + 1, a + 1, g);
    }
    MulAssociate(b, f, g);
  }

  lemma MulAssociate(a: int, b: int, c: int)
    ensures a * (b * c) == (a * b) * c
  {
  }

  /** Although the comparator is not an order on all prefixes, being strictly below is transitive. */
  lemma BelowTransitive(p: Cidr, q: Cidr, r: Cidr)
    requires KavlBitCmp(p, q) < 0 && KavlBitCmp(q, r) < 0
    ensures KavlBitCmp(p, r) < 0
  {
    var w := p.bitlen + q.bitlen + r.bitlen;
    BelowIsLeft(p, q, w);
    BelowIsLeft(q, r, w);
    BelowIsLeft(p, r, w);
    FirstBeforeAfter(q, w);
  }

  /** Equality is not transitive: two disjoint prefixes both compare equal to one around them. */
  lemma EqualIsNotTransitive()
    ensures var p, q, r := Prefix(8, [10]), Prefix(0, []), Prefix(8, [11]);
            KavlBitCmp(p, q) == 0 && KavlBitCmp(q, r) == 0 && KavlBitCmp(p, r) != 0
  {
    var p, q, r := Prefix(8, [10]), Prefix(0, []), Prefix(8, [11]);
    assert Memcmp(p.data, r.data, 1) == Sign(10, 11);
  }
}
