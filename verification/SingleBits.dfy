/** Single bits of a number, bit 0 being the lowest. */
module SingleBits {
  import opened Bits

  predicate Bit(x: nat, i: nat) {
    Net(x, i) % 2 == 1
  }

  lemma {:induction false} NetOfSum(m: nat, r: nat, i: nat)
    ensures Net(m * Pow2(i) + r, i) == m + Net(r, i)
    decreases i
  {
    if i != 0 {
      MulDouble(m, Pow2(i - 1));
      NetOfSum(2 * m, r, i - 1);
    }
  }

  lemma {:induction false} NetAdd(x: nat, i: nat, j: nat)
    ensures Net(x, i + j) == Net(Net(x, i), j)
  {
    if j != 0 {
      NetAdd(x, i, j - 1);
    }
  }

  /** A multiple of 2^k leaves the bits below k alone. */
  lemma BitBelow(m: nat, r: nat, k: nat, i: nat)
    requires i < k
    ensures Bit(m * Pow2(k) + r, i) == Bit(r, i)
  {
    Pow2Add(k - i - 1, i);
    assert Pow2(k) == 2 * Pow2(k - 1);
    var p, f := Pow2(k - i - 1), Pow2(i);
    Regroup(m, p, f);
    assert Pow2(k - i - 1 + i) == Pow2(k - 1) == p * f;
    NetOfSum(2 * (m * p), r, i);
    EvenPlus(m * p, Net(r, i));
  }

  lemma Regroup(m: nat, p: nat, f: nat)
    ensures m * (2 * (p * f)) == (2 * (m * p)) * f
  {
  }

  lemma EvenPlus(h: nat, x: nat)
    ensures (2 * h + x) % 2 == x % 2
  {
  }

  /** Subtracting a bit that is set clears it and nothing else. */
  lemma ClearBit(x: nat, k: nat, i: nat)
    requires Bit(x, k)
    ensures Pow2(k) <= x && Bit(x - Pow2(k), i) == (Bit(x, i) && i != k)
  {
    NetBounds(x, k);
    var q := Net(x, k);
    var r := x - q * Pow2(k);
    MulMonotone(1, q, Pow2(k));
    OneLessTimes(q, Pow2(k));
    assert x - Pow2(k) == (q - 1) * Pow2(k) + r;
    if i < k {
      BitBelow(q, r, k, i);
      BitBelow(q - 1, r, k, i);
    } else {
      NetUnique(x - Pow2(k), k, q - 1);
      NetAdd(x, k, i - k);
      NetAdd(x - Pow2(k), k, i - k);
      LastBitGoes(q, i - k);
    }
  }

  lemma OneLessTimes(q: nat, f: nat)
    ensures (q - 1) * f == q * f - f
  {
  }

  lemma LastBitGoes(q: nat, j: nat)
    requires q % 2 == 1
    ensures Bit(q - 1, j) == (Bit(q, j) && j != 0)
  {
    if j != 0 {
      NetHalve(q, j - 1);
      NetHalve(q - 1, j - 1);
      assert q / 2 == (q - 1) / 2;
    }
  }

  /** Masking with a single bit. */
  lemma {:induction false} AndBit(x: nat, k: nat)
    ensures And(x, Pow2(k)) == if Bit(x, k) then Pow2(k) else 0
  {
    if k == 0 {
      AndUnfold(x, 1);
      assert And(x / 2, 0) == 0 by {
        AndZero(x / 2);
      }
    } else {
      AndStep(x, Pow2(k - 1));
      AndBit(x / 2, k - 1);
      NetHalve(x, k - 1);
    }
  }

  lemma {:induction false} AndZero(x: nat)
    ensures And(x, 0) == 0
  {
    if x != 0 {
      AndZero(x / 2);
    }
  }
}
