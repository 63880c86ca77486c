/** Powers of two, bitwise operators on unsigned integers of any width, and the number
    of the aligned block of size 2^z that an address lies in.
 */
module Bits {

  function Pow2(k: nat): (p: nat)
    ensures 1 <= p
  {
    if k == 0 then 1 else 2 * Pow2(k - 1)
  }

  function And(x: nat, y: nat): nat {
    if x == 0 then 0 else (if x % 2 == 1 && y % 2 == 1 then 1 else 0) + 2 * And(x / 2, y / 2)
  }

  function Or(x: nat, y: nat): nat
    decreases x + y
  {
    if x == 0 then y else if y == 0 then x
    else (if x % 2 == 1 || y % 2 == 1 then 1 else 0) + 2 * Or(x / 2, y / 2)
  }

  function Xor(x: nat, y: nat): nat
    decreases x + y
  {
    if x == 0 then y else if y == 0 then x
    else (if x % 2 != y % 2 then 1 else 0) + 2 * Xor(x / 2, y / 2)
  }

  lemma {:induction false} XorBound(x: nat, y: nat, k: nat)
    requires x < Pow2(k) && y < Pow2(k)
    ensures Xor(x, y) < Pow2(k)
  {
    if x != 0 && y != 0 {
      XorBound(x / 2, y / 2, k - 1);
    }
  }

  /** Flipping some bits changes the number. */
  lemma {:induction false} XorChanges(x: nat, y: nat)
    requires y != 0
    ensures Xor(x, y) != x
  {
    if x != 0 && x % 2 == Xor(x, y) % 2 {
      XorChanges(x / 2, y / 2);
    }
  }

  /** The block of 2^z consecutive values that `x` belongs to. */
  function Net(x: nat, z: nat): nat {
    if z == 0 then x else Net(x, z - 1) / 2
  }

  lemma {:induction false} Pow2Add(i: nat, j: nat)
    ensures Pow2(i + j) == Pow2(i) * Pow2(j)
  {
    if i != 0 {
      Pow2Add(i - 1, j);
      assert Pow2(i + j) == 2 * Pow2(i - 1 + j);
    }
  }

  lemma {:induction false} Pow2Monotone(i: nat, j: nat)
    requires i <= j
    ensures Pow2(i) <= Pow2(j)
  {
    if i < j {
      Pow2Monotone(i, j - 1);
    }
  }

  lemma Pow2At32()
    ensures Pow2(32) == 0x1_0000_0000
  {
    assert Pow2(8) == 0x100;
    assert Pow2(16) == 0x1_0000;
    assert Pow2(24) == 0x100_0000;
  }

  lemma Pow2At64()
    ensures Pow2(64) == 0x1_0000_0000_0000_0000
  {
    Pow2At32();
    Pow2Add(32, 32);
  }

  lemma MulMonotone(x: int, y: int, c: nat)
    requires x <= y
    ensures x * c <= y * c
  {
  }

  lemma MulDouble(q: int, f: int)
    ensures q * (2 * f) == 2 * (q * f) == (2 * q) * f
    ensures (2 * q + 1) * f == 2 * (q * f) + f
  {
  }

  lemma {:induction false} NetBounds(x: nat, z: nat)
    ensures Net(x, z) * Pow2(z) <= x < Net(x, z) * Pow2(z) + Pow2(z)
  {
    if z != 0 {
      NetBounds(x, z - 1);
      MulDouble(Net(x, z), Pow2(z - 1));
      assert Net(x, z - 1) == 2 * Net(x, z) || Net(x, z - 1) == 2 * Net(x, z) + 1;
    }
  }

  lemma {:induction false} NetMonotone(x: nat, y: nat, z: nat)
    requires x <= y
    ensures Net(x, z) <= Net(y, z)
  {
    if z != 0 {
      NetMonotone(x, y, z - 1);
    }
  }

  /** Blocks nest: together in a small one, together in every larger one. */
  lemma {:induction false} NetNested(x: nat, y: nat, z: nat, z': nat)
    requires z <= z' && Net(x, z) == Net(y, z)
    ensures Net(x, z') == Net(y, z')
  {
    if z < z' {
      NetNested(x, y, z, z' - 1);
    }
  }

  lemma {:induction false} NetHalve(x: nat, z: nat)
    ensures Net(x / 2, z) == Net(x, z + 1)
  {
    if z != 0 {
      NetHalve(x, z - 1);
    }
  }

  /** The block number is determined by any interval it spans. */
  lemma NetUnique(x: nat, z: nat, n: nat)
    requires n * Pow2(z) <= x < n * Pow2(z) + Pow2(z)
    ensures Net(x, z) == n
  {
    NetBounds(x, z);
    SameBlock(Net(x, z), n, Pow2(z), x);
  }

  lemma SameBlock(m: nat, n: nat, f: nat, x: nat)
    requires m * f <= x < m * f + f && n * f <= x < n * f + f
    ensures m == n
  {
    if m < n {
      MulMonotone(m + 1, n, f);
    } else if n < m {
      MulMonotone(n + 1, m, f);
    }
  }

  lemma {:induction false} AndAllOnes(x: nat, w: nat)
    requires x < Pow2(w)
    ensures And(x, Pow2(w) - 1) == x
  {
    if x != 0 {
      AndAllOnes(x / 2, w - 1);
      assert (Pow2(w) - 1) / 2 == Pow2(w - 1) - 1;
    }
  }

  /** Masking off the low z bits of a w-bit value leaves the start of its block. */
  lemma {:induction false} AndMask(x: nat, z: nat, w: nat)
    requires z <= w && x < Pow2(w)
    ensures Pow2(z) <= Pow2(w)
    ensures And(x, Pow2(w) - Pow2(z)) == Net(x, z) * Pow2(z)
  {
    Pow2Monotone(z, w);
    if z == 0 {
      AndAllOnes(x, w);
    } else if x == 0 {
      NetUnique(0, z, 0);
    } else {
      var h := Pow2(w - 1) - Pow2(z - 1);
      AndMask(x / 2, z - 1, w - 1);
      NetHalve(x, z - 1);
      MulDouble(Net(x, z), Pow2(z - 1));
      AndStep(x, h);
    }
  }

  lemma HalfOfDouble(h: nat, b: nat)
    requires b < 2
    ensures (2 * h + b) / 2 == h && (2 * h + b) % 2 == b
  {
  }

  /** Filling in the low z bits of an aligned value. */
  lemma {:induction false} OrLowBits(n: nat, z: nat)
    ensures Or(n * Pow2(z), Pow2(z) - 1) == n * Pow2(z) + (Pow2(z) - 1)
  {
    if z != 0 && n != 0 {
      var x, y := n * Pow2(z - 1), Pow2(z - 1) - 1;
      OrLowBits(n, z - 1);
      MulDouble(n, Pow2(z - 1));
      OrStep(x, y);
    }
  }

  lemma OrStep(x: nat, y: nat)
    requires x != 0
    ensures Or(2 * x, 2 * y + 1) == 1 + 2 * Or(x, y)
  {
    HalfOfDouble(x, 0);
    HalfOfDouble(y, 1);
  }

  lemma AndStep(x: nat, y: nat)
    ensures And(x, 2 * y) == 2 * And(x / 2, y)
  {
    AndUnfold(x, 2 * y);
    HalfOfDouble(y, 0);
  }

  /** A bitwise operation splits at any bit position. */
  lemma {:induction false} AndSplit(h: nat, l: nat, h': nat, l': nat, k: nat)
    requires l < Pow2(k) && l' < Pow2(k)
    ensures And(h * Pow2(k) + l, h' * Pow2(k) + l') == And(h, h') * Pow2(k) + And(l, l')
  {
    if k == 0 {
      assert And(0, 0) == 0;
    } else {
      AndSplit(h, l / 2, h', l' / 2, k - 1);
      AndSplitStep(h, l, h', l', Pow2(k - 1), And(h, h'));
    }
  }

  lemma AndSplitStep(h: nat, l: nat, h': nat, l': nat, f: nat, a: nat)
    requires And(h * f + l / 2, h' * f + l' / 2) == a * f + And(l / 2, l' / 2)
    ensures And(h * (2 * f) + l, h' * (2 * f) + l') == a * (2 * f) + And(l, l')
  {
    SplitLowBit(h, f, l);
    SplitLowBit(h', f, l');
    SplitLowBit(a, f, 0);
    AndDoubles(h * f + l / 2, l % 2, h' * f + l' / 2, l' % 2);
    AndDoubles(l / 2, l % 2, l' / 2, l' % 2);
  }

  lemma SplitLowBit(h: nat, f: nat, l: nat)
    ensures h * (2 * f) + l == 2 * (h * f + l / 2) + l % 2
  {
    MulDouble(h, f);
  }

  lemma AndDoubles(x: nat, b: nat, y: nat, c: nat)
    requires b < 2 && c < 2
    ensures And(2 * x + b, 2 * y + c) == 2 * And(x, y) + (if b == 1 && c == 1 then 1 else 0)
  {
    AndUnfold(2 * x + b, 2 * y + c);
    HalfOfDouble(x, b);
    HalfOfDouble(y, c);
  }

  lemma AndUnfold(x: nat, y: nat)
    ensures And(x, y) == (if x % 2 == 1 && y % 2 == 1 then 1 else 0) + 2 * And(x / 2, y / 2)
  {
  }

  lemma {:induction false} AndAtMost(x: nat, y: nat)
    ensures And(x, y) <= x
  {
    if x != 0 {
      AndAtMost(x / 2, y / 2);
    }
  }
}
