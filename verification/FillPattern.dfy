/** fill_pattern of nfq/helpers.c: a buffer filled with a repeated pattern entered at an offset. */
module FillPattern {
  import Bits
  import opened Bytes

  /** Byte i of the pattern repeated without end. */
  function PatternAt(pattern: seq<byte>, i: nat): byte
    requires pattern != []
  {
    if i < |pattern| then pattern[i] else PatternAt(pattern, i - |pattern|)
  }

  lemma {:induction false} PatternAtIsModulo(pattern: seq<byte>, i: nat)
    requires pattern != []
    ensures PatternAt(pattern, i) == pattern[i % |pattern|]
  {
    if |pattern| <= i {
      PatternAtIsModulo(pattern, i - |pattern|);
      ModuloPeriod(i, |pattern|);
    } else {
      Remainder(i, 0, i, |pattern|);
    }
  }

  lemma ModuloPeriod(i: nat, m: nat)
    requires 0 < m <= i
    ensures i % m == (i - m) % m
  {
    var q := i / m;
    OneLess(i, q, m);
    Remainder(i - m, q - 1, i % m, m);
  }

  lemma OneLess(i: nat, q: int, m: nat)
    requires 0 < m <= i && q == i / m
    ensures 1 <= q && i - m == (q - 1) * m + i % m
  {
    assert i == q * m + i % m;
  }

  lemma Remainder(x: nat, q: nat, r: nat, m: nat)
    requires x == q * m + r && r < m
    ensures x % m == r
  {
    Bits.SameBlock(x / m, q, m, x);
  }

  /** fill_pattern: the repeated pattern, entered at an offset. */
  function Pattern(pattern: seq<byte>, offset: nat, n: nat): (r: seq<byte>)
    requires pattern != []
    ensures |r| == n && forall k :: 0 <= k < n ==> r[k] == PatternAt(pattern, offset + k)
  {
    seq<byte>(n, k requires 0 <= k < n => PatternAt(pattern, offset + k))
  }

  method Memcpy(buf: array<byte>, at: nat, src: seq<byte>, from: nat, n: nat)
    requires at + n <= buf.Length && from + n <= |src|
    modifies buf
    ensures forall k :: at <= k < at + n ==> buf[k] == src[from + (k - at)]
    ensures forall k :: 0 <= k < buf.Length && !(at <= k < at + n) ==> buf[k] == old(buf[k])
  {
    for i := 0 to n
      invariant forall k :: at <= k < at + i ==> buf[k] == src[from + (k - at)]
      invariant forall k :: 0 <= k < buf.Length && !(at <= k < at + i) ==> buf[k] == old(buf[k])
    {
      buf[at + i] := src[from + i];
    }
  }

  /** The first `size` bytes are pattern, the rest is as before. */
  twostate predicate Filled(buf: array<byte>, size: nat, pattern: seq<byte>, offset: nat)
    requires size <= buf.Length && pattern != []
    reads buf
  {
    && (forall k :: 0 <= k < size ==> buf[k] == PatternAt(pattern, offset + k))
    && (forall k :: size <= k < buf.Length ==> buf[k] == old(buf[k]))
  }

  /** fill_pattern: first the rest of the pattern from the offset, then whole copies. */
  method FillPattern(buf: array<byte>, size: nat, pattern: seq<byte>, offset: nat)
    requires size <= buf.Length && pattern != []
    modifies buf
    ensures Filled(buf, size, pattern, offset)
  {
    var off := offset % |pattern|;
    EntryPoint(pattern, offset, off);
    FillFrom(buf, size, pattern, off, offset);
  }

  method FillFrom(buf: array<byte>, size: nat, pattern: seq<byte>, off: nat, ghost offset: nat)
    requires size <= buf.Length && off < |pattern| && RunsFrom(pattern, offset, off)
    modifies buf
    ensures Filled(buf, size, pattern, offset)
  {
    var at := 0;
    if off != 0 {
      var n := if size > |pattern| - off then |pattern| - off else size;
      Memcpy(buf, 0, pattern, off, n);
      forall k | 0 <= k < n
        ensures buf[k] == PatternAt(pattern, offset + k)
      {
        RunByte(pattern, offset, off, k);
      }
      RunEnds(pattern, offset, off);
      at := n;
    }
    while at < size
      invariant at <= size && (at < size ==> RunsFrom(pattern, offset + at, 0))
      invariant Filled(buf, at, pattern, offset)
    {
      var n := if size - at > |pattern| then |pattern| else size - at;
      Memcpy(buf, at, pattern, 0, n);
      forall k | at <= k < at + n
        ensures buf[k] == PatternAt(pattern, offset + k)
      {
        RunByte(pattern, offset + at, 0, k - at);
      }
      RunEnds(pattern, offset + at, 0);
      at := at + n;
    }
  }

  /** At x the repeated pattern is at its byte r. */
  ghost predicate RunsFrom(pattern: seq<byte>, x: nat, r: nat) {
    pattern != [] && x % |pattern| == r
  }

  lemma EntryPoint(pattern: seq<byte>, x: nat, r: nat)
    requires pattern != [] && r == x % |pattern|
    ensures r < |pattern| && RunsFrom(pattern, x, r)
  {
  }

  lemma RunByte(pattern: seq<byte>, x: nat, r: nat, k: nat)
    requires RunsFrom(pattern, x, r) && r + k < |pattern|
    ensures PatternAt(pattern, x + k) == pattern[r + k]
  {
    PatternAtIsModulo(pattern, x + k);
    InPhase(x, k, r, |pattern|);
  }

  lemma RunEnds(pattern: seq<byte>, x: nat, r: nat)
    requires RunsFrom(pattern, x, r) && r < |pattern|
    ensures RunsFrom(pattern, x + (|pattern| - r), 0)
  {
    Wraps(x, |pattern| - r, r, |pattern|);
  }

  lemma InPhase(x: nat, k: nat, r: nat, m: nat)
    requires 0 < m && x % m == r && r + k < m
    ensures (x + k) % m == r + k
  {
    Remainder(x + k, x / m, r + k, m);
  }

  lemma Wraps(x: nat, n: nat, r: nat, m: nat)
    requires 0 < m && x % m == r && r + n == m
    ensures (x + n) % m == 0
  {
    NextMultiple(x, n, x / m, m);
    Remainder(x + n, x / m + 1, 0, m);
  }

  lemma NextMultiple(x: nat, n: nat, q: nat, m: nat)
    requires x + n == q * m + m
    ensures x + n == (q + 1) * m + 0
  {
  }
}
